/** Change rows from `git status --porcelain=v2 -z` (git-status(1), Porcelain Format Version 2).

    Every record ends in NUL; a rename record is followed by its original path in a field of its own.
 */
module StatusRows {
  import opened Prelude
  import opened Text

  type Path(==,!new) = string

  datatype Source = Staged | Unstaged | Untracked | Conflicted

  datatype Row = Row(path: Path, source: Source, deleted: bool)

  /** Python's `s.split(c, n)`. */
  function SplitN(s: string, c: char, n: nat): (parts: seq<string>)
    ensures 1 <= |parts| <= n + 1
  {
    var f := Until(s, c);
    if n == 0 || f.None? then [s] else [f.value.text] + SplitN(f.value.rest, c, n - 1)
  }

  /** Fields, then everything else. */
  function JoinFields(fields: seq<string>, last: string): string {
    if fields == [] then last else fields[0] + [' '] + JoinFields(fields[1..], last)
  }

  predicate Fields(fields: seq<string>) { forall f :: f in fields ==> ' ' !in f }

  lemma FirstAndLater(fields: seq<string>, last: string)
    requires fields != []
    ensures [fields[0]] + (fields[1..] + [last]) == fields + [last]
  {
  }

  lemma SplitOnce(field: string, rest: string, n: nat)
    requires Free(field, ' ')
    ensures SplitN(field + [' '] + rest, ' ', n + 1) == [field] + SplitN(rest, ' ', n)
  {
    UntilFinds(field, ' ', rest);
  }

  lemma {:induction false} SplitFields(fields: seq<string>, last: string)
    requires Fields(fields)
    ensures SplitN(JoinFields(fields, last), ' ', |fields|) == fields + [last]
  {
    if fields != [] {
      var field, later := fields[0], fields[1..];
      assert field in fields;
      SplitFields(later, last);
      SplitOnce(field, JoinFields(later, last), |later|);
      FirstAndLater(fields, last);
    }
  }

  lemma {:induction false} JoinStep(field: string, later: seq<string>, last: string)
    ensures JoinFields([field] + later, last) == field + [' '] + JoinFields(later, last)
  {
    assert ([field] + later)[1..] == later;
  }

  lemma {:induction false} FirstPart(parts: seq<string>, field: string, later: seq<string>, n: nat)
    requires 0 < n < |parts| && parts == [field] + later
    ensures parts[..n] == [field] + later[..n - 1] && parts[n] == later[n - 1]
  {
  }

  /** A text that was split into the most parts is its fields, and the last part takes the rest. */
  lemma {:induction false} SplitIsFields(s: string, n: nat)
    requires |SplitN(s, ' ', n)| == n + 1
    ensures var parts := SplitN(s, ' ', n); Fields(parts[..n]) && s == JoinFields(parts[..n], parts[n])
    decreases n
  {
    if n > 0 {
      var f := Until(s, ' ').value;
      var later := SplitN(f.rest, ' ', n - 1);
      SplitIsFields(f.rest, n - 1);
      FirstPart(SplitN(s, ' ', n), f.text, later, n);
      JoinStep(f.text, later[..n - 1], later[n - 1]);
    }
  }

  // ----- one record -----

  /** What the reader makes of one record. `renamed` says that an original path follows. */
  datatype Record =
    | Skip
    | New(path: Path)
    | Conflict(path: Path)
    | Change(x: char, y: char, path: Path, renamed: bool)
    | Bad

  /** `text.startswith(kind + " ")`. */
  predicate Kind(text: string, kind: char) { |text| >= 2 && text[0] == kind && text[1] == ' ' }

  function ReadConflict(parts: seq<string>): Record {
    if |parts| < 10 then Bad else Conflict(parts[9])
  }

  function ReadChange(parts: seq<string>, last: nat, renamed: bool): Record {
    if |parts| <= last || |parts[0]| < 2 then Bad else Change(parts[0][0], parts[0][1], parts[last], renamed)
  }

  function ReadRecord(text: string): Record {
    if text != "" && (text[0] == '#' || text[0] == '!') then Skip
    else if Kind(text, '?') then New(text[2..])
    else if Kind(text, 'u') then ReadConflict(SplitN(text[2..], ' ', 9))
    else if Kind(text, '1') then ReadChange(SplitN(text[2..], ' ', 7), 7, false)
    else if Kind(text, '2') then ReadChange(SplitN(text[2..], ' ', 8), 8, true)
    else Bad
  }

  datatype Groups = Groups(staged: seq<Row>, unstaged: seq<Row>, untracked: seq<Row>, conflicted: seq<Row>)

  function Side(path: Path, source: Source, letter: char): seq<Row> {
    if letter == '.' then [] else [Row(path, source, letter == 'D')]
  }

  function AddRecord(g: Groups, r: Record): Groups {
    match r
    case Skip => g
    case New(path) => g.(untracked := g.untracked + [Row(path, Untracked, false)])
    case Conflict(path) => g.(conflicted := g.conflicted + [Row(path, Conflicted, false)])
    case Change(x, y, path, _) =>
      g.(staged := g.staged + Side(path, Staged, x), unstaged := g.unstaged + Side(path, Unstaged, y))
    case Bad => g
  }

  /** The groups after reading the NUL fields from the front. */
  function ReadFields(entries: seq<string>, g: Groups): Result<Groups>
    decreases |entries|
  {
    if entries == [] then Ok(g)
    else if entries[0] == "" then ReadFields(entries[1..], g)
    else
      var r := ReadRecord(entries[0]);
      if r.Bad? then Err("unparsed status record")
      else if r.Change? && r.renamed then
        if |entries| < 2 || entries[1] == "" then Err("missing rename origPath")
        else ReadFields(entries[2..], AddRecord(g, r))
      else ReadFields(entries[1..], AddRecord(g, r))
  }

  /** The reading loop of `source_rows`. */
  method ReadGroups(entries: seq<string>) returns (r: Result<Groups>)
    ensures r == ReadFields(entries, Groups([], [], [], []))
  {
    var g := Groups([], [], [], []);
    var i := 0;
    assert entries[0..] == entries;
    while i < |entries|
      invariant 0 <= i <= |entries|
      invariant ReadFields(entries, Groups([], [], [], [])) == ReadFields(entries[i..], g)
    {
      var text := entries[i];
      assert entries[i..][1..] == entries[i + 1..];
      i := i + 1;
      if text == "" { continue; }
      var record := ReadRecord(text);
      if record.Bad? { return Err("unparsed status record"); }
      if record.Change? && record.renamed {
        if i >= |entries| || entries[i] == "" { return Err("missing rename origPath"); }
        assert entries[i - 1..][2..] == entries[i + 1..];
        i := i + 1;  // the original path is the next field
      }
      g := AddRecord(g, record);
    }
    r := Ok(g);
  }

  // ----- order -----

  /** Python's string order: by code point, a prefix first. */
  predicate Leq(a: string, b: string) {
    a == "" || (b != "" && (a[0] < b[0] || (a[0] == b[0] && Leq(a[1..], b[1..]))))
  }

  /** `a` has the smaller character at the first place where the two differ. */
  ghost predicate SmallerAt(a: string, b: string, k: nat) {
    k < |a| && k < |b| && a[k] < b[k] && forall i :: 0 <= i < k ==> a[i] == b[i]
  }

  /** A prefix comes first; else the first place where the strings differ decides. */
  lemma {:induction false} LeqMeaning(a: string, b: string)
    ensures Leq(a, b) <==> a <= b || exists k: nat :: SmallerAt(a, b, k)
  {
    if a != "" && b != "" {
      if a[0] == b[0] {
        LeqMeaning(a[1..], b[1..]);
        LaterDifference(a, b);
      } else if a[0] < b[0] {
        assert SmallerAt(a, b, 0);
      }
    }
  }

  lemma {:induction false} LaterDifference(a: string, b: string)
    requires a != "" && b != "" && a[0] == b[0]
    ensures a <= b <==> a[1..] <= b[1..]
    ensures (exists k: nat :: SmallerAt(a, b, k)) <==> exists k: nat :: SmallerAt(a[1..], b[1..], k)
  {
    if k: nat :| SmallerAt(a, b, k) {
      assert k > 0;
      assert forall i :: 0 <= i < k - 1 ==> a[1..][i] == a[i + 1] && b[1..][i] == b[i + 1];
      assert SmallerAt(a[1..], b[1..], k - 1);
    }
    if k: nat :| SmallerAt(a[1..], b[1..], k) {
      assert forall i :: 0 < i < k + 1 ==> a[1..][i - 1] == a[i] && b[1..][i - 1] == b[i];
      assert SmallerAt(a, b, k + 1);
    }
  }

  lemma {:induction false} LeqTotal(a: string, b: string)
    ensures Leq(a, b) || Leq(b, a)
  {
    if a != "" && b != "" && a[0] == b[0] { LeqTotal(a[1..], b[1..]); }
  }

  lemma {:induction false} LeqTransitive(a: string, b: string, c: string)
    requires Leq(a, b) && Leq(b, c)
    ensures Leq(a, c)
  {
    if a != "" && b != "" && c != "" && a[0] == b[0] == c[0] { LeqTransitive(a[1..], b[1..], c[1..]); }
  }

  lemma {:induction false} LeqAntisymmetric(a: string, b: string)
    requires Leq(a, b) && Leq(b, a)
    ensures a == b
  {
    if a != "" && b != "" {
      LeqAntisymmetric(a[1..], b[1..]);
      assert a == [a[0]] + a[1..] && b == [b[0]] + b[1..];
    }
  }

  ghost predicate IsSorted(rows: seq<Row>) {
    forall i, j :: 0 <= i < j < |rows| ==> Leq(rows[i].path, rows[j].path)
  }

  /** The rows of one path, in order. */
  function Of(rows: seq<Row>, p: Path): seq<Row> {
    if rows == [] then []
    else
      var rest := Of(rows[1..], p);
      if rows[0].path == p then [rows[0]] + rest else rest
  }

  /** Sorted by path, and within a path in the old order: all that a stable sort promises. */
  ghost predicate StableSort(before: seq<Row>, after: seq<Row>) {
    IsSorted(after) && forall p :: Of(after, p) == Of(before, p)
  }

  /** Before the first row whose path is not smaller. */
  function Insert(r: Row, rows: seq<Row>): seq<Row> {
    if rows == [] || Leq(r.path, rows[0].path) then [r] + rows else [rows[0]] + Insert(r, rows[1..])
  }

  lemma {:induction false} InsertKeeps(r: Row, rows: seq<Row>, p: Path)
    requires IsSorted(rows)
    ensures IsSorted(Insert(r, rows)) && |Insert(r, rows)| == |rows| + 1
    ensures Of(Insert(r, rows), p) == if r.path == p then [r] + Of(rows, p) else Of(rows, p)
    ensures forall x :: x in Insert(r, rows) ==> x == r || x in rows
  {
    if rows == [] || Leq(r.path, rows[0].path) {
      var all := [r] + rows;
      assert all[1..] == rows;
      forall j | 0 < j < |all|
        ensures Leq(r.path, all[j].path)
      {
        if j > 1 { LeqTransitive(r.path, rows[0].path, rows[j - 1].path); }
      }
    } else {
      LeqTotal(r.path, rows[0].path);
      var rest := Insert(r, rows[1..]);
      assert forall i, j :: 0 <= i < j < |rows[1..]| ==> rows[1..][i] == rows[i + 1] && rows[1..][j] == rows[j + 1];
      InsertKeeps(r, rows[1..], p);
      var all := [rows[0]] + rest;
      assert all[1..] == rest;
      forall j | 0 <= j < |rest|
        ensures Leq(rows[0].path, rest[j].path)
      {
        assert rest[j] in rest;
        if rest[j] != r {
          var m :| 0 <= m < |rows[1..]| && rows[1..][m] == rest[j];
          assert rest[j] == rows[m + 1];
        }
      }
      if r.path == p && rows[0].path == p {
        LeqTotal(p, p);
        assert false;
      }
    }
  }

  function Sort(rows: seq<Row>): seq<Row> {
    if rows == [] then [] else Insert(rows[0], Sort(rows[1..]))
  }

  lemma {:induction false} SortIsStable(rows: seq<Row>)
    ensures StableSort(rows, Sort(rows))
  {
    if rows != [] {
      SortIsStable(rows[1..]);
      forall p
        ensures Of(Sort(rows), p) == Of(rows, p)
      {
        InsertKeeps(rows[0], Sort(rows[1..]), p);
      }
      InsertKeeps(rows[0], Sort(rows[1..]), "");
    }
  }

  /** A stable sort has one result. */
  lemma {:induction false} StableSortIsUnique(a: seq<Row>, b: seq<Row>)
    requires IsSorted(a) && IsSorted(b) && forall p :: Of(a, p) == Of(b, p)
    ensures a == b
    decreases |a|
  {
    SameRowsBothEmpty(a, b);
    if a != [] {
      assert Of(a, a[0].path) == Of(b, a[0].path);
      assert Of(a, b[0].path) == Of(b, b[0].path);
      OfIsMember(b, a[0].path);
      OfIsMember(a, b[0].path);
      HeadIsLeast(b, a[0].path);
      HeadIsLeast(a, b[0].path);
      LeqAntisymmetric(a[0].path, b[0].path);
      assert a[0] == b[0] by {
        assert Of(a, a[0].path)[0] == a[0] && Of(b, b[0].path)[0] == b[0];
      }
      forall p
        ensures Of(a[1..], p) == Of(b[1..], p)
      {
        assert Of(a, p) == Of(b, p);
        if p == a[0].path {
          assert Of(a, p)[1..] == Of(a[1..], p) && Of(b, p)[1..] == Of(b[1..], p);
        }
      }
      StableSortIsUnique(a[1..], b[1..]);
      assert a == [a[0]] + a[1..] && b == [b[0]] + b[1..];
    }
  }

  lemma SameRowsBothEmpty(a: seq<Row>, b: seq<Row>)
    requires forall p :: Of(a, p) == Of(b, p)
    ensures a == [] <==> b == []
  {
    var first := if a != [] then a[0].path else if b != [] then b[0].path else "";
    assert Of(a, first) == Of(b, first);
  }

  lemma {:induction false} OfIsMember(rows: seq<Row>, p: Path)
    ensures Of(rows, p) != [] <==> exists i :: 0 <= i < |rows| && rows[i].path == p
  {
    if rows != [] {
      OfIsMember(rows[1..], p);
      if Of(rows[1..], p) != [] {
        var i :| 0 <= i < |rows[1..]| && rows[1..][i].path == p;
        assert rows[i + 1].path == p;
      }
      if i :| 0 <= i < |rows| && rows[i].path == p {
        if i > 0 { assert rows[1..][i - 1].path == p; }
      }
    }
  }

  lemma HeadIsLeast(rows: seq<Row>, p: Path)
    requires IsSorted(rows) && Of(rows, p) != []
    ensures Leq(rows[0].path, p)
  {
    OfIsMember(rows, p);
    var i :| 0 <= i < |rows| && rows[i].path == p;
    LeqTotal(p, p);
  }

  /** All rows, group after group. */
  function Concat(g: Groups): seq<Row> { g.staged + g.unstaged + g.untracked + g.conflicted }

  // ----- the printed form -----

  datatype Entry =
    | Header(text: string)
    | Ignored(text: string)
    | Unversioned(path: Path)
    | Ordinary(xy: string, fields: seq<string>, path: Path)
    | Renamed(xy: string, fields: seq<string>, path: Path, origPath: Path)
    | Unmerged(xy: string, fields: seq<string>, path: Path)

  /** Blank-free fields of the right number, two letters for the sides, and an original path after a rename. */
  predicate Formed(e: Entry) {
    match e
    case Header(_) => true
    case Ignored(_) => true
    case Unversioned(_) => true
    case Ordinary(xy, fields, _) => |xy| >= 2 && |fields| == 6 && Fields([xy] + fields)
    case Renamed(xy, fields, _, orig) => |xy| >= 2 && |fields| == 7 && Fields([xy] + fields) && orig != ""
    case Unmerged(xy, fields, _) => |fields| == 8 && Fields([xy] + fields)
  }

  /** The NUL fields of one entry. */
  function PrintEntry(e: Entry): seq<string> {
    match e
    case Header(text) => ["#" + text]
    case Ignored(text) => ["!" + text]
    case Unversioned(path) => [['?', ' '] + path]
    case Ordinary(xy, fields, path) => [['1', ' '] + JoinFields([xy] + fields, path)]
    case Renamed(xy, fields, path, orig) => [['2', ' '] + JoinFields([xy] + fields, path), orig]
    case Unmerged(xy, fields, path) => [['u', ' '] + JoinFields([xy] + fields, path)]
  }

  function PrintEntries(entries: seq<Entry>): seq<string> {
    if entries == [] then [] else PrintEntry(entries[0]) + PrintEntries(entries[1..])
  }

  /** The fields of some entries, with any number of empty fields before, between and after them. */
  predicate IsStatus(fields: seq<string>, entries: seq<Entry>)
    decreases |fields|
  {
    if fields == [] then entries == []
    else if fields[0] == "" then IsStatus(fields[1..], entries)
    else
      && entries != [] && Formed(entries[0]) && PrintEntry(entries[0]) <= fields
      && IsStatus(fields[|PrintEntry(entries[0])|..], entries[1..])
  }

  /** What an entry stands for. */
  function Meaning(e: Entry): Record
    requires Formed(e)
  {
    match e
    case Header(_) => Skip
    case Ignored(_) => Skip
    case Unversioned(path) => New(path)
    case Ordinary(xy, _, path) => Change(xy[0], xy[1], path, false)
    case Renamed(xy, _, path, _) => Change(xy[0], xy[1], path, true)
    case Unmerged(_, _, path) => Conflict(path)
  }

  predicate AllFormed(entries: seq<Entry>) { forall e :: e in entries ==> Formed(e) }

  predicate Printable(entries: seq<Entry>) {
    AllFormed(entries) && forall f :: f in PrintEntries(entries) ==> '\0' !in f
  }

  function GroupsOf(entries: seq<Entry>, g: Groups): Groups
    requires AllFormed(entries)
  {
    if entries == [] then g else GroupsOf(entries[1..], AddRecord(g, Meaning(entries[0])))
  }

  /** The record of one change entry, split as the reader splits it. */
  lemma {:induction false} FieldRecord(kind: char, xy: string, fields: seq<string>, path: Path, text: string,
                                       parts: seq<string>)
    requires Fields([xy] + fields)
    requires text == [kind, ' '] + JoinFields([xy] + fields, path)
    requires parts == SplitN(text[2..], ' ', |fields| + 1)
    ensures Kind(text, kind) && |parts| == |fields| + 2 && parts[0] == xy && parts[|fields| + 1] == path
  {
    var all := [xy] + fields;
    assert text[2..] == JoinFields(all, path);
    SplitFields(all, path);
    assert parts == all + [path];
  }

  lemma {:induction false} OrdinaryIsRead(text: string)
    requires Kind(text, '1')
    ensures ReadRecord(text) == ReadChange(SplitN(text[2..], ' ', 7), 7, false)
  {
  }

  lemma {:induction false} RenamedIsRead(text: string)
    requires Kind(text, '2')
    ensures ReadRecord(text) == ReadChange(SplitN(text[2..], ' ', 8), 8, true)
  {
  }

  lemma {:induction false} UnmergedIsRead(text: string)
    requires Kind(text, 'u')
    ensures ReadRecord(text) == ReadConflict(SplitN(text[2..], ' ', 9))
  {
  }

  lemma {:induction false} OrdinaryRoundTrip(e: Entry)
    requires e.Ordinary? && Formed(e)
    ensures ReadRecord(PrintEntry(e)[0]) == Meaning(e)
  {
    var text := PrintEntry(e)[0];
    var parts := SplitN(text[2..], ' ', 7);
    FieldRecord('1', e.xy, e.fields, e.path, text, parts);
    OrdinaryIsRead(text);
  }

  lemma {:induction false} RenamedRoundTrip(e: Entry)
    requires e.Renamed? && Formed(e)
    ensures ReadRecord(PrintEntry(e)[0]) == Meaning(e)
  {
    var text := PrintEntry(e)[0];
    var parts := SplitN(text[2..], ' ', 8);
    FieldRecord('2', e.xy, e.fields, e.path, text, parts);
    RenamedIsRead(text);
  }

  lemma {:induction false} UnmergedRoundTrip(e: Entry)
    requires e.Unmerged? && Formed(e)
    ensures ReadRecord(PrintEntry(e)[0]) == Meaning(e)
  {
    var text := PrintEntry(e)[0];
    var parts := SplitN(text[2..], ' ', 9);
    FieldRecord('u', e.xy, e.fields, e.path, text, parts);
    UnmergedIsRead(text);
  }

  lemma {:induction false} RecordRoundTrip(e: Entry)
    requires Formed(e)
    ensures PrintEntry(e)[0] != "" && ReadRecord(PrintEntry(e)[0]) == Meaning(e)
  {
    match e
    case Header(_) =>
    case Ignored(_) =>
    case Unversioned(path) => assert (['?', ' '] + path)[2..] == path;
    case Ordinary(_, _, _) => OrdinaryRoundTrip(e);
    case Renamed(_, _, _, _) => RenamedRoundTrip(e);
    case Unmerged(_, _, _) => UnmergedRoundTrip(e);
  }

  /** Reading the fields of one entry, whatever follows them. */
  lemma {:induction false} EntryIsRead(fields: seq<string>, e: Entry, rest: seq<string>, g: Groups)
    requires Formed(e) && fields == PrintEntry(e) + rest
    ensures fields != [] && fields[0] != "" && ReadFields(fields, g) == ReadFields(rest, AddRecord(g, Meaning(e)))
  {
    RecordRoundTrip(e);
    assert fields[|PrintEntry(e)|..] == rest && fields[0] == PrintEntry(e)[0];
    if e.Renamed? { assert fields[1] == e.origPath; }
  }

  /** Reading the fields of some entries gives what the entries mean; a rename's original path is skipped. */
  lemma {:induction false} StatusIsRead(fields: seq<string>, entries: seq<Entry>, g: Groups)
    requires IsStatus(fields, entries)
    ensures AllFormed(entries) && ReadFields(fields, g) == Ok(GroupsOf(entries, g))
    decreases |fields|
  {
    if fields != [] && fields[0] == "" {
      StatusIsRead(fields[1..], entries, g);
    } else if fields != [] {
      var e, rest := entries[0], fields[|PrintEntry(entries[0])|..];
      assert fields == PrintEntry(e) + rest && |PrintEntry(e)| > 0;
      EntryIsRead(fields, e, rest, g);
      StatusIsRead(rest, entries[1..], AddRecord(g, Meaning(e)));
      assert entries == [e] + entries[1..];
    }
  }

  lemma {:induction false} FieldsOfEntry(kind: char, text: string, n: nat)
    requires Kind(text, kind) && |SplitN(text[2..], ' ', n + 1)| == n + 2
    ensures var parts := SplitN(text[2..], ' ', n + 1);
            && Fields([parts[0]] + parts[1..n + 1])
            && text == [kind, ' '] + JoinFields([parts[0]] + parts[1..n + 1], parts[n + 1])
  {
    var parts := SplitN(text[2..], ' ', n + 1);
    SplitIsFields(text[2..], n + 1);
    assert parts[..n + 1] == [parts[0]] + parts[1..n + 1];
    assert text == [kind, ' '] + text[2..];
  }

  /** A field that is read as a record is the first field of some entry that means it. */
  lemma {:induction false} RecordIsEntry(text: string, orig: Path) returns (e: Entry)
    requires text != "" && orig != "" && !ReadRecord(text).Bad?
    ensures Formed(e) && PrintEntry(e)[0] == text && Meaning(e) == ReadRecord(text)
    ensures e.Renamed? ==> e.origPath == orig
  {
    if text[0] == '#' || text[0] == '!' {
      e := if text[0] == '#' then Header(text[1..]) else Ignored(text[1..]);
    } else if Kind(text, '?') {
      e := Unversioned(text[2..]);
    } else if Kind(text, 'u') {
      FieldsOfEntry('u', text, 8);
      var parts := SplitN(text[2..], ' ', 9);
      e := Unmerged(parts[0], parts[1..9], parts[9]);
    } else if Kind(text, '1') {
      FieldsOfEntry('1', text, 6);
      var parts := SplitN(text[2..], ' ', 7);
      e := Ordinary(parts[0], parts[1..7], parts[7]);
    } else {
      FieldsOfEntry('2', text, 7);
      var parts := SplitN(text[2..], ' ', 8);
      e := Renamed(parts[0], parts[1..8], parts[8], orig);
    }
  }

  lemma {:induction false} FirstIsEntry(fields: seq<string>, g: Groups) returns (e: Entry, rest: seq<string>)
    requires fields != [] && fields[0] != "" && ReadFields(fields, g).Ok?
    ensures Formed(e) && fields == PrintEntry(e) + rest && |rest| < |fields|
    ensures ReadFields(rest, AddRecord(g, Meaning(e))) == ReadFields(fields, g)
  {
    var r := ReadRecord(fields[0]);
    e := RecordIsEntry(fields[0], if r.Change? && r.renamed then fields[1] else "x");
    rest := fields[|PrintEntry(e)|..];
  }

  lemma {:induction false} EntryIsStatus(fields: seq<string>, e: Entry, rest: seq<string>, others: seq<Entry>)
    requires Formed(e) && fields == PrintEntry(e) + rest && IsStatus(rest, others)
    ensures IsStatus(fields, [e] + others)
  {
    RecordRoundTrip(e);
    assert fields[|PrintEntry(e)|..] == rest && fields[0] == PrintEntry(e)[0] && ([e] + others)[1..] == others;
  }

  /** Nothing else is read: what is read without error is the fields of some entries. */
  lemma {:induction false} ReadIsStatus(fields: seq<string>, g: Groups) returns (entries: seq<Entry>)
    requires ReadFields(fields, g).Ok?
    ensures IsStatus(fields, entries)
    decreases |fields|
  {
    if fields == [] {
      entries := [];
    } else if fields[0] == "" {
      entries := ReadIsStatus(fields[1..], g);
    } else {
      var e, rest := FirstIsEntry(fields, g);
      var others := ReadIsStatus(rest, AddRecord(g, Meaning(e)));
      EntryIsStatus(fields, e, rest, others);
      entries := [e] + others;
    }
  }

  ghost predicate SomeStatus(fields: seq<string>) { exists entries :: IsStatus(fields, entries) }

  lemma {:induction false} OneStatus(fields: seq<string>, entries: seq<Entry>)
    requires IsStatus(fields, entries)
    ensures SomeStatus(fields)
  {
  }

  /** The reader accepts exactly the fields of entry lists. */
  lemma {:induction false} ReadsExactlyStatus(fields: seq<string>)
    ensures ReadFields(fields, Groups([], [], [], [])).Ok? <==> SomeStatus(fields)
  {
    var none := Groups([], [], [], []);
    if ReadFields(fields, none).Ok? {
      var entries := ReadIsStatus(fields, none);
      OneStatus(fields, entries);
    } else if SomeStatus(fields) {
      var entries :| IsStatus(fields, entries);
      StatusIsRead(fields, entries, none);
    }
  }

  lemma {:induction false} PrintedIsStatus(entries: seq<Entry>)
    requires AllFormed(entries)
    ensures IsStatus(PrintEntries(entries) + [""], entries)
  {
    if entries == [] {
      assert PrintEntries(entries) + [""] == [""] && [""][1..] == [];
    } else {
      var e, rest := entries[0], PrintEntries(entries[1..]) + [""];
      assert e in entries && entries == [e] + entries[1..];
      assert PrintEntries(entries) + [""] == PrintEntry(e) + rest;
      PrintedIsStatus(entries[1..]);
      EntryIsStatus(PrintEntries(entries) + [""], e, rest, entries[1..]);
    }
  }

  /** Reading the printed bytes of any entry list gives what the entries mean. */
  lemma {:induction false} StatusRoundTrip(entries: seq<Entry>)
    requires Printable(entries)
    ensures var fields := Split(Join(PrintEntries(entries) + [""], '\0'), '\0');
            && IsStatus(fields, entries)
            && ReadFields(fields, Groups([], [], [], [])) == Ok(GroupsOf(entries, Groups([], [], [], [])))
  {
    var parts := PrintEntries(entries) + [""];
    SplitJoin(parts, '\0');
    PrintedIsStatus(entries);
    StatusIsRead(parts, entries, Groups([], [], [], []));
  }

  // ----- what the rows are -----

  /** The rows an entry gives to one group: none for a side that is unchanged, deleted for the letter D. */
  function RowsIn(e: Entry, source: Source): seq<Row>
    requires Formed(e)
  {
    match (e, source)
    case (Unversioned(path), Untracked) => [Row(path, Untracked, false)]
    case (Unmerged(_, _, path), Conflicted) => [Row(path, Conflicted, false)]
    case (Ordinary(xy, _, path), Staged) => if xy[0] == '.' then [] else [Row(path, Staged, xy[0] == 'D')]
    case (Renamed(xy, _, path, _), Staged) => if xy[0] == '.' then [] else [Row(path, Staged, xy[0] == 'D')]
    case (Ordinary(xy, _, path), Unstaged) => if xy[1] == '.' then [] else [Row(path, Unstaged, xy[1] == 'D')]
    case (Renamed(xy, _, path, _), Unstaged) => if xy[1] == '.' then [] else [Row(path, Unstaged, xy[1] == 'D')]
    case _ => []
  }

  function RowsOf(entries: seq<Entry>, source: Source): seq<Row>
    requires AllFormed(entries)
  {
    if entries == [] then [] else RowsIn(entries[0], source) + RowsOf(entries[1..], source)
  }

  function Get(g: Groups, source: Source): seq<Row> {
    match source
    case Staged => g.staged
    case Unstaged => g.unstaged
    case Untracked => g.untracked
    case Conflicted => g.conflicted
  }

  lemma {:induction false} AddedRows(g: Groups, e: Entry, source: Source)
    requires Formed(e)
    ensures Get(AddRecord(g, Meaning(e)), source) == Get(g, source) + RowsIn(e, source)
  {
  }

  /** One row per staged side, unstaged side, untracked path and conflict, each group in entry order. */
  lemma {:induction false} GroupsAreRows(entries: seq<Entry>, g: Groups, source: Source)
    requires AllFormed(entries)
    ensures Get(GroupsOf(entries, g), source) == Get(g, source) + RowsOf(entries, source)
  {
    if entries != [] {
      assert AllFormed(entries[1..]);
      AddedRows(g, entries[0], source);
      GroupsAreRows(entries[1..], AddRecord(g, Meaning(entries[0])), source);
      Assoc(Get(g, source), RowsIn(entries[0], source), RowsOf(entries[1..], source));
    }
  }

  lemma {:induction false} OfConcat(a: seq<Row>, b: seq<Row>, p: Path)
    ensures Of(a + b, p) == Of(a, p) + Of(b, p)
  {
    if a == [] {
      assert a + b == b;
    } else {
      assert (a + b)[1..] == a[1..] + b;
      OfConcat(a[1..], b, p);
    }
  }

  /** The answer for an entry list: sorted by path; within a path staged, then unstaged, then untracked,
      then conflicted rows, each in entry order; and no other row. */
  ghost predicate Answers(entries: seq<Entry>, rows: seq<Row>) {
    && AllFormed(entries) && IsSorted(rows)
    && forall p :: Of(rows, p) == Of(RowsOf(entries, Staged), p) + Of(RowsOf(entries, Unstaged), p)
                                  + Of(RowsOf(entries, Untracked), p) + Of(RowsOf(entries, Conflicted), p)
  }

  lemma {:induction false} SortedAnswers(fields: seq<string>, entries: seq<Entry>, g: Groups)
    requires IsStatus(fields, entries) && ReadFields(fields, Groups([], [], [], [])) == Ok(g)
    ensures Answers(entries, Sort(Concat(g)))
  {
    StatusIsRead(fields, entries, Groups([], [], [], []));
    SortIsStable(Concat(g));
    forall p
      ensures Of(Sort(Concat(g)), p) == Of(RowsOf(entries, Staged), p) + Of(RowsOf(entries, Unstaged), p)
                                        + Of(RowsOf(entries, Untracked), p) + Of(RowsOf(entries, Conflicted), p)
    {
      assert Of(Sort(Concat(g)), p) == Of(Concat(g), p);
      EntryRows(entries, p);
    }
  }

  /** `source_rows`, given the command's output: it fails exactly when the output is not that of an entry
      list, and otherwise it answers for that list. */
  method SourceRows(raw: string) returns (r: Result<seq<Row>>)
    ensures r.Ok? <==> SomeStatus(Split(raw, '\0'))
    ensures r.Ok? ==> forall entries :: IsStatus(Split(raw, '\0'), entries) ==> Answers(entries, r.value)
  {
    ReadsExactlyStatus(Split(raw, '\0'));
    var g := ReadGroups(Split(raw, '\0'));
    if g.Err? { return Err(g.error); }
    forall entries | IsStatus(Split(raw, '\0'), entries)
      ensures Answers(entries, Sort(Concat(g.value)))
    {
      SortedAnswers(Split(raw, '\0'), entries, g.value);
    }
    r := Ok(Sort(Concat(g.value)));
  }

  /** One answer: two lists of rows that answer for the same entries are equal. */
  lemma {:induction false} AnswerIsUnique(entries: seq<Entry>, a: seq<Row>, b: seq<Row>)
    requires Answers(entries, a) && Answers(entries, b)
    ensures a == b
  {
    forall p
      ensures Of(a, p) == Of(b, p)
    {
      var expected := Of(RowsOf(entries, Staged), p) + Of(RowsOf(entries, Unstaged), p)
                      + Of(RowsOf(entries, Untracked), p) + Of(RowsOf(entries, Conflicted), p);
      assert Of(a, p) == expected && Of(b, p) == expected;
    }
    StableSortIsUnique(a, b);
  }

  lemma {:induction false} EntryRows(entries: seq<Entry>, p: Path)
    requires AllFormed(entries)
    ensures Of(Concat(GroupsOf(entries, Groups([], [], [], []))), p) ==
            Of(RowsOf(entries, Staged), p) + Of(RowsOf(entries, Unstaged), p)
            + Of(RowsOf(entries, Untracked), p) + Of(RowsOf(entries, Conflicted), p)
  {
    var none := Groups([], [], [], []);
    var g := GroupsOf(entries, none);
    forall source
      ensures Get(g, source) == RowsOf(entries, source)
    {
      GroupsAreRows(entries, none, source);
      assert Get(none, source) == [] && [] + RowsOf(entries, source) == RowsOf(entries, source);
    }
    assert g.staged == Get(g, Staged) && g.unstaged == Get(g, Unstaged);
    assert g.untracked == Get(g, Untracked) && g.conflicted == Get(g, Conflicted);
    OfConcat(g.staged, g.unstaged, p);
    OfConcat(g.staged + g.unstaged, g.untracked, p);
    OfConcat(g.staged + g.unstaged + g.untracked, g.conflicted, p);
  }
}
