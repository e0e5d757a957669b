/** Two readers of Git output and the printers they undo: `cat-file --batch` and
    `diff-tree -r -z --raw`.

    The methods advance an index over one buffer, as the source does. The functions consume the
    text from the front and say what each form means.
 */
module GitBatch {
  import opened Prelude
  import opened Text

  // ----- cat-file --batch -----

  datatype Item = Item(oid: string, kind: string, body: string)

  /** "<oid> <kind> <size>\n<body>\n" */
  function PrintItem(it: Item): string {
    it.oid + " " + it.kind + " " + Dec(|it.body|) + "\n" + it.body + "\n"
  }

  function PrintItems(items: seq<Item>): string {
    if items == [] then "" else PrintItem(items[0]) + PrintItems(items[1..])
  }

  /** Object ids and kinds contain neither blank nor newline; bodies are arbitrary bytes. */
  predicate Word(s: string) { Free(s, ' ') && Free(s, '\n') }

  predicate PrintableItem(it: Item) { Word(it.oid) && Word(it.kind) }

  predicate EndsWith(s: string, suffix: string) {
    |suffix| <= |s| && s[|s| - |suffix|..] == suffix
  }

  datatype Header = Missing | Malformed | Object(oid: string, kind: string, size: nat)

  function ParseHeader(header: string): Header {
    if EndsWith(header, " missing") then Missing
    else
      var parts := Split(header, ' ');
      if |parts| == 3 && IsNumber(parts[2]) then Object(parts[0], parts[1], Value(parts[2])) else Malformed
  }

  datatype First = Stop | Bad(error: string) | Got(item: Item, rest: string)

  /** The first object of a batch. A last line without newline ends the reading. */
  function FirstItem(s: string): (f: First)
    ensures f.Got? ==> |f.rest| < |s|
  {
    var line := Until(s, '\n');
    if line.None? then Stop
    else match ParseHeader(line.value.text)
      case Missing => Bad("git object missing")
      case Malformed => Bad("malformed header")
      case Object(oid, kind, size) =>
        Got(Item(oid, kind, Take(line.value.rest, size)), SkipNewline(Drop(line.value.rest, size)))
  }

  function ReadItems(s: string): Result<seq<Item>>
    decreases |s|
  {
    match FirstItem(s)
    case Stop => Ok([])
    case Bad(error) => Err(error)
    case Got(item, rest) => Then([item], ReadItems(rest))
  }

  /** `raw.find(c, from)`, seen as a field of the suffix. */
  method FindField(raw: string, c: char, from: nat) returns (end: nat)
    requires from <= |raw|
    ensures from <= end <= |raw|
    ensures Until(raw[from..], c) == if end < |raw| then Some(Field(raw[from..end], raw[end + 1..])) else None
  {
    end := Find(raw, c, from);
    FindInSuffix(raw, c, from);
  }

  method TakeBody(raw: string, start: nat, size: nat) returns (body: string, next: nat)
    requires start <= |raw|
    ensures start <= next <= |raw|
    ensures body == Take(raw[start..], size) && raw[next..] == SkipNewline(Drop(raw[start..], size))
  {
    next := if start + size <= |raw| then start + size else |raw|;
    body := raw[start..next];
    if next < |raw| && raw[next] == '\n' {
      next := next + 1;
    }
  }

  /** One pass of `parse_cat_batch`'s loop. */
  method NextItem(raw: string, index: nat) returns (f: First, next: nat)
    requires index < |raw|
    ensures f == FirstItem(raw[index..])
    ensures f.Got? ==> index < next <= |raw| && f.rest == raw[next..]
  {
    var newline := FindField(raw, '\n', index);
    next := index;
    if newline == |raw| { return Stop, next; }
    match ParseHeader(raw[index..newline])
    case Missing => f := Bad("git object missing");
    case Malformed => f := Bad("malformed header");
    case Object(oid, kind, size) =>
      var body: string;
      body, next := TakeBody(raw, newline + 1, size);
      f := Got(Item(oid, kind, body), raw[next..]);
  }

  /** `parse_cat_batch`. */
  method ParseCatBatch(raw: string) returns (r: Result<seq<Item>>)
    ensures r == ReadItems(raw)
  {
    var items: seq<Item> := [];
    var index := 0;
    assert raw[0..] == raw;
    ThenNothing(ReadItems(raw));
    while index < |raw|
      invariant 0 <= index <= |raw|
      invariant ReadItems(raw) == Then(items, ReadItems(raw[index..]))
    {
      var f, next := NextItem(raw, index);
      if f.Stop? { break; }
      if f.Bad? { return Err(f.error); }
      ThenThen(items, [f.item], ReadItems(raw[next..]));
      items, index := items + [f.item], next;
    }
    assert index == |raw| ==> raw[index..] == "";
    FreeHasNoField("", '\n');
    assert items + [] == items;
    r := Ok(items);
  }

  lemma ThenThen<T>(a: seq<T>, b: seq<T>, rest: Result<seq<T>>)
    ensures Then(a, Then(b, rest)) == Then(a + b, rest)
  {
    if rest.Ok? { assert a + (b + rest.value) == a + b + rest.value; }
  }

  function Then<T>(items: seq<T>, rest: Result<seq<T>>): Result<seq<T>> {
    if rest.Err? then rest else Ok(items + rest.value)
  }

  lemma ThenNothing<T>(rest: Result<seq<T>>)
    ensures Then([], rest) == rest
  {
    if rest.Ok? { assert [] + rest.value == rest.value; }
  }

  /** A search from an index is a search in the suffix. */
  lemma {:induction false} FindInSuffix(s: string, c: char, from: nat)
    requires from <= |s|
    ensures var i := Find(s, c, from);
            Until(s[from..], c) == if i < |s| then Some(Field(s[from..i], s[i + 1..])) else None
  {
    var i := Find(s, c, from);
    if i < |s| {
      assert s[from..] == s[from..i] + [c] + s[i + 1..];
      UntilFinds(s[from..i], c, s[i + 1..]);
    } else {
      assert forall j :: 0 <= j < |s[from..]| ==> s[from..][j] == s[from + j];
      FreeHasNoField(s[from..], c);
    }
  }

  /** Reading undoes printing, whatever the bodies contain. */
  lemma {:induction false} CatBatchRoundTrip(items: seq<Item>)
    requires forall it :: it in items ==> PrintableItem(it)
    ensures ReadItems(PrintItems(items)) == Ok(items)
  {
    if items == [] {
    } else {
      var it, rest := items[0], PrintItems(items[1..]);
      assert it in items;
      var header := it.oid + " " + it.kind + " " + Dec(|it.body|);
      var tail := it.body + "\n" + rest;
      assert PrintItems(items) == header + "\n" + tail;
      HeaderRoundTrip(it.oid, it.kind, |it.body|);
      UntilFinds(header, '\n', tail);
      assert Take(tail, |it.body|) == it.body;
      assert Drop(tail, |it.body|) == "\n" + rest && SkipNewline("\n" + rest) == rest;
      assert ParseHeader(header) == Object(it.oid, it.kind, |it.body|);
      assert items == [it] + items[1..];
      assert FirstItem(PrintItems(items)) == Got(it, rest);
      CatBatchRoundTrip(items[1..]);
    }
  }

  lemma HeaderRoundTrip(oid: string, kind: string, size: nat)
    requires Word(oid) && Word(kind)
    ensures var header := oid + " " + kind + " " + Dec(size);
            Free(header, '\n') && ParseHeader(header) == Object(oid, kind, size)
  {
    var header := oid + " " + kind + " " + Dec(size);
    HeaderParts(oid, kind, Dec(size));
    DecRoundTrip(size);
    assert header[|header| - 1] == Dec(size)[|Dec(size)| - 1];
    NotMissing(header);
  }

  /** What a header line is taken for: missing exactly when it ends so, and otherwise an object exactly when
      it is an id, a kind and a number. */
  lemma {:induction false} HeaderMeaning(header: string)
    ensures ParseHeader(header).Missing? <==> |header| >= 8 && header[|header| - 8..] == " missing"
    ensures ParseHeader(header).Object? <==>
            !ParseHeader(header).Missing? && exists oid, kind, size :: IsObject(header, oid, kind, size)
    ensures forall oid, kind, size :: IsObject(header, oid, kind, size) ==>
              ParseHeader(header) == Object(oid, kind, Value(size))
  {
    var parts := Split(header, ' ');
    forall oid, kind, size | IsObject(header, oid, kind, size)
      ensures ParseHeader(header) == Object(oid, kind, Value(size))
    {
      ThreeWords(oid, kind, size);
      assert header[|header| - 1] == size[|size| - 1];
      NotMissing(header);
    }
    if ParseHeader(header).Object? {
      SplitIsJoin(header, ' ');
      JoinThree(parts);
      assert IsObject(header, parts[0], parts[1], parts[2]);
    }
  }

  ghost predicate IsObject(header: string, oid: string, kind: string, size: string) {
    && header == oid + " " + kind + " " + size && ' ' !in oid && ' ' !in kind
    && size != "" && forall i :: 0 <= i < |size| ==> '0' <= size[i] <= '9'
  }

  lemma JoinThree(parts: seq<string>)
    requires |parts| == 3
    ensures Join(parts, ' ') == parts[0] + " " + parts[1] + " " + parts[2]
  {
    assert parts[1..][1..] == [parts[2]];
    assert Join(parts[1..], ' ') == parts[1] + " " + parts[2];
    assert Join(parts, ' ') == parts[0] + " " + (parts[1] + " " + parts[2]);
  }

  lemma ThreeWords(oid: string, kind: string, size: string)
    requires Free(oid, ' ') && Free(kind, ' ') && Free(size, ' ')
    ensures Split(oid + " " + kind + " " + size, ' ') == [oid, kind, size]
  {
    JoinThree([oid, kind, size]);
    SplitJoin([oid, kind, size], ' ');
  }

  lemma HeaderParts(oid: string, kind: string, size: string)
    requires Word(oid) && Word(kind) && IsNumber(size)
    ensures var header := oid + " " + kind + " " + size;
            Free(header, '\n') && Split(header, ' ') == [oid, kind, size]
  {
    assert Free(size, ' ') && Free(size, '\n');
    ThreeWords(oid, kind, size);
    FreeConcat(oid, " ", '\n');
    FreeConcat(oid + " ", kind, '\n');
    FreeConcat(oid + " " + kind, " ", '\n');
    FreeConcat(oid + " " + kind + " ", size, '\n');
  }

  lemma NotMissing(header: string)
    requires header != "" && IsDigit(header[|header| - 1])
    ensures !EndsWith(header, " missing")
  {
    var suffix := " missing";
    assert suffix[7] == 'g';
    assert |suffix| <= |header| ==> header[|header| - |suffix|..][7] == header[|header| - 1];
  }

  // ----- diff-tree -r -z --raw -----

  /** A line of Git's raw listing: one path, or for a rename or copy the old path and the new one. */
  datatype Listed =
    | Single(oldMode: string, newMode: string, oldSha: string, newSha: string, status: string, path: string)
    | Pair(oldMode: string, newMode: string, oldSha: string, newSha: string, status: string,
           oldPath: string, path: string)

  function HeaderText(l: Listed): string {
    l.oldMode + " " + l.newMode + " " + l.oldSha + " " + l.newSha + " " + l.status
  }

  function Paths(l: Listed): string {
    if l.Single? then l.path + "\0" else l.oldPath + "\0" + l.path + "\0"
  }

  function PrintListed(l: Listed): string { ":" + HeaderText(l) + "\0" + Paths(l) }

  predicate HeaderField(s: string) { ' ' !in s && '\0' !in s }

  /** Header fields are words; paths are any bytes but NUL; the status letter says how many paths there are. */
  predicate GitForm(l: Listed) {
    && HeaderField(l.oldMode) && HeaderField(l.newMode) && HeaderField(l.oldSha) && HeaderField(l.newSha)
    && HeaderField(l.status) && '\0' !in l.path && (l.Pair? ==> '\0' !in l.oldPath)
    && (l.Pair? <==> |l.status| > 0 && (l.status[0] == 'R' || l.status[0] == 'C'))
  }

  /** Listed lines, with any number of NULs before, between and after them. */
  predicate IsListing(s: string, lines: seq<Listed>)
    decreases |s|
  {
    if s == "" then lines == []
    else if s[0] == '\0' then IsListing(s[1..], lines)
    else
      && lines != [] && GitForm(lines[0]) && PrintListed(lines[0]) <= s
      && IsListing(s[|PrintListed(lines[0])|..], lines[1..])
  }

  function PrintLines(lines: seq<Listed>): string {
    if lines == [] then "" else PrintListed(lines[0]) + PrintLines(lines[1..])
  }

  datatype Raw = Raw(
    oldMode: string, newMode: string, oldSha: string, newSha: string, status: string, oldPath: string, path: string)

  function RecordOf(l: Listed): Raw {
    Raw(l.oldMode, l.newMode, l.oldSha, l.newSha, l.status, if l.Pair? then l.oldPath else "", l.path)
  }

  function Records(lines: seq<Listed>): seq<Raw> {
    seq(|lines|, i requires 0 <= i < |lines| => RecordOf(lines[i]))
  }

  predicate TwoPaths(status: string) { status != "" && status[0] in {'R', 'C'} }

  datatype FirstRaw = BadRaw(error: string) | GotRaw(record: Raw, rest: string)

  datatype RawHeader = BadHeader(error: string) | RawHeader(fields: seq<string>, rest: string)

  datatype RawPaths = NoPaths | RawPaths(oldPath: string, path: string, rest: string)

  /** The five header fields after the colon. */
  function ReadHeader(s: string): (h: RawHeader)
    requires s != ""
    ensures h.RawHeader? ==> |h.fields| == 5 && |h.rest| < |s|
  {
    if s[0] != ':' then BadHeader("diff-tree record does not start with colon")
    else
      var header := Until(s[1..], '\0');
      if header.None? then BadHeader("no header end")
      else
        var fields := Split(header.value.text, ' ');
        if |fields| != 5 then BadHeader("header is not five fields") else RawHeader(fields, header.value.rest)
  }

  /** One path, or two for a rename or copy. */
  function ReadPaths(status: string, s: string): (p: RawPaths)
    ensures p.RawPaths? ==> |p.rest| < |s|
  {
    var first := Until(s, '\0');
    if first.None? then NoPaths
    else if !TwoPaths(status) then RawPaths("", first.value.text, first.value.rest)
    else
      var second := Until(first.value.rest, '\0');
      if second.None? then NoPaths else RawPaths(first.value.text, second.value.text, second.value.rest)
  }

  /** The first record of a non-empty text. */
  function ReadRaw(s: string): (f: FirstRaw)
    requires s != ""
    ensures f.GotRaw? ==> |f.rest| < |s|
  {
    match ReadHeader(s)
    case BadHeader(error) => BadRaw(error)
    case RawHeader(h, rest) =>
      match ReadPaths(h[4], rest)
      case NoPaths => BadRaw("no path end")
      case RawPaths(oldPath, path, tail) => GotRaw(Raw(h[0], h[1], h[2], h[3], h[4], oldPath, path), tail)
  }

  function ReadRaws(s: string): Result<seq<Raw>>
    decreases |s|
  {
    if s == "" then Ok([])
    else if s[0] == '\0' then ReadRaws(s[1..])
    else match ReadRaw(s)
      case BadRaw(error) => Err(error)
      case GotRaw(record, rest) => Then([record], ReadRaws(rest))
  }

  method NextHeader(raw: string, start: nat) returns (h: RawHeader, index: nat)
    requires start < |raw|
    ensures h == ReadHeader(raw[start..])
    ensures h.RawHeader? ==> start < index <= |raw| && h.rest == raw[index..]
  {
    index := start;
    if raw[index] != ':' { return BadHeader("diff-tree record does not start with colon"), index; }
    var end := FindField(raw, '\0', index + 1);
    assert raw[start..][1..] == raw[start + 1..];
    if end == |raw| { return BadHeader("no header end"), index; }
    var fields := Split(raw[index + 1..end], ' ');
    if |fields| != 5 { return BadHeader("header is not five fields"), index; }
    h, index := RawHeader(fields, raw[end + 1..]), end + 1;
  }

  /** A NUL-terminated field from an index on. */
  method NextField(raw: string, start: nat) returns (f: Option<Field>, index: nat)
    requires start <= |raw|
    ensures f == Until(raw[start..], '\0')
    ensures f.Some? ==> start < index <= |raw| && f.value.rest == raw[index..]
  {
    var end := FindField(raw, '\0', start);
    if end == |raw| { return None, start; }
    f, index := Some(Field(raw[start..end], raw[end + 1..])), end + 1;
  }

  method NextPaths(raw: string, status: string, start: nat) returns (p: RawPaths, index: nat)
    requires start <= |raw|
    ensures p == ReadPaths(status, raw[start..])
    ensures p.RawPaths? ==> start < index <= |raw| && p.rest == raw[index..]
  {
    var first, second: Option<Field>;
    first, index := NextField(raw, start);
    if first.None? { return NoPaths, index; }
    if !TwoPaths(status) { return RawPaths("", first.value.text, first.value.rest), index; }
    second, index := NextField(raw, index);
    if second.None? { return NoPaths, index; }
    p := RawPaths(first.value.text, second.value.text, second.value.rest);
  }

  /** One record, by index. */
  method NextRaw(raw: string, start: nat) returns (f: FirstRaw, index: nat)
    requires start < |raw|
    ensures f == ReadRaw(raw[start..])
    ensures f.GotRaw? ==> start < index <= |raw| && f.rest == raw[index..]
  {
    var header: RawHeader;
    header, index := NextHeader(raw, start);
    if header.BadHeader? { return BadRaw(header.error), index; }
    var h := header.fields;
    var paths: RawPaths;
    paths, index := NextPaths(raw, h[4], index);
    if paths.NoPaths? { return BadRaw("no path end"), index; }
    f := GotRaw(Raw(h[0], h[1], h[2], h[3], h[4], paths.oldPath, paths.path), paths.rest);
  }

  /** `parse_diff_tree_z`. */
  method ParseDiffTree(raw: string) returns (r: Result<seq<Raw>>)
    ensures r == ReadRaws(raw)
  {
    var records: seq<Raw> := [];
    var index := 0;
    assert raw[0..] == raw;
    ThenNothing(ReadRaws(raw));
    while index < |raw|
      invariant 0 <= index <= |raw|
      invariant ReadRaws(raw) == Then(records, ReadRaws(raw[index..]))
    {
      if raw[index] == '\0' {
        assert raw[index..][1..] == raw[index + 1..];
        index := index + 1;
        continue;
      }
      var f, next := NextRaw(raw, index);
      if f.BadRaw? { return Err(f.error); }
      ThenThen(records, [f.record], ReadRaws(raw[next..]));
      records, index := records + [f.record], next;
    }
    assert raw[index..] == "" && records + [] == records;
    r := Ok(records);
  }

  function Five(l: Listed): seq<string> { [l.oldMode, l.newMode, l.oldSha, l.newSha, l.status] }

  lemma {:induction false} JoinTwoMore(a: string, b: string, rest: seq<string>)
    requires |rest| > 0
    ensures Join([a, b] + rest, ' ') == a + " " + b + " " + Join(rest, ' ')
  {
    assert ([a, b] + rest)[1..] == [b] + rest && ([b] + rest)[1..] == rest;
    Assoc(a + " ", b + " ", Join(rest, ' '));
    Assoc(a + " ", b, " ");
  }

  lemma {:induction false} JoinFive(parts: seq<string>)
    requires |parts| == 5
    ensures Join(parts, ' ') == parts[0] + " " + parts[1] + " " + parts[2] + " " + parts[3] + " " + parts[4]
  {
    var front, c, d, e := parts[0] + " " + parts[1] + " ", parts[2], parts[3], parts[4];
    assert parts == [parts[0], parts[1]] + parts[2..];
    JoinTwoMore(parts[0], parts[1], parts[2..]);
    JoinThree(parts[2..]);
    Assoc(front, c + " " + d + " ", e);
    Assoc(front, c + " " + d, " ");
    Assoc(front, c + " ", d);
    Assoc(front, c, " ");
  }

  /** Five fields joined by blanks hold a NUL exactly when one of them does. */
  lemma {:induction false} FreeJoin(parts: seq<string>)
    requires |parts| > 0
    ensures Free(Join(parts, ' '), '\0') <==> forall p :: p in parts ==> Free(p, '\0')
  {
    if |parts| > 1 {
      FreeJoin(parts[1..]);
      FreeConcat(parts[0], " ", '\0');
      FreeConcat(parts[0] + " ", Join(parts[1..], ' '), '\0');
      assert forall p :: p in parts <==> p == parts[0] || p in parts[1..];
    }
  }

  lemma {:induction false} HeaderOfLine(l: Listed, rest: string)
    requires GitForm(l)
    ensures ReadHeader(PrintListed(l) + rest) == RawHeader(Five(l), Paths(l) + rest)
  {
    JoinFive(Five(l));
    FreeJoin(Five(l));
    SplitJoin(Five(l), ' ');
    var s := PrintListed(l) + rest;
    PrintedHeader(HeaderText(l), Paths(l), rest, s);
    UntilFinds(HeaderText(l), '\0', Paths(l) + rest);
  }

  lemma {:induction false} PrintedHeader(header: string, paths: string, rest: string, s: string)
    requires s == ":" + header + "\0" + paths + rest
    ensures s != "" && s[0] == ':' && s[1..] == header + ['\0'] + (paths + rest)
  {
    assert s == ":" + (header + ['\0'] + (paths + rest));
  }

  lemma {:induction false} PathsOfLine(l: Listed, rest: string)
    requires GitForm(l)
    ensures ReadPaths(l.status, Paths(l) + rest) == RawPaths(RecordOf(l).oldPath, l.path, rest)
  {
    UntilFinds(l.path, '\0', rest);
    if l.Pair? {
      var last := l.path + "\0" + rest;
      assert Paths(l) + rest == l.oldPath + "\0" + last;
      UntilFinds(l.oldPath, '\0', last);
    }
  }

  /** Reading one listed line, whatever follows it: its old and new path are in their places. */
  lemma {:induction false} RawRoundTrip(l: Listed, rest: string)
    requires GitForm(l)
    ensures ReadRaw(PrintListed(l) + rest) == GotRaw(RecordOf(l), rest)
  {
    HeaderOfLine(l, rest);
    PathsOfLine(l, rest);
  }

  lemma {:induction false} FirstLineIsRead(s: string, l: Listed, rest: string)
    requires GitForm(l) && s == PrintListed(l) + rest
    ensures s != "" && s[0] == ':' && ReadRaws(s) == Then([RecordOf(l)], ReadRaws(rest))
  {
    PrintedHeader(HeaderText(l), Paths(l), rest, s);
    RawRoundTrip(l, rest);
  }

  lemma {:induction false} RecordsCons(l: Listed, lines: seq<Listed>)
    ensures Records([l] + lines) == [RecordOf(l)] + Records(lines)
  {
  }

  lemma {:induction false} ListingStep(s: string, lines: seq<Listed>) returns (rest: string)
    requires s != "" && s[0] != '\0' && IsListing(s, lines)
    ensures lines != [] && GitForm(lines[0]) && s == PrintListed(lines[0]) + rest && |rest| < |s|
    ensures IsListing(rest, lines[1..])
  {
    rest := s[|PrintListed(lines[0])|..];
  }

  lemma {:induction false} NulIsSkipped(s: string)
    requires s != "" && s[0] == '\0'
    ensures ReadRaws(s) == ReadRaws(s[1..])
    ensures forall lines :: IsListing(s, lines) <==> IsListing(s[1..], lines)
  {
  }

  lemma {:induction false} NothingListed(lines: seq<Listed>)
    ensures IsListing("", lines) <==> lines == []
    ensures ReadRaws("") == Ok(Records([]))
  {
    assert Records([]) == [];
  }

  /** Reading a listing gives its records. */
  lemma {:induction false} ListingIsRead(s: string, lines: seq<Listed>)
    requires IsListing(s, lines)
    ensures ReadRaws(s) == Ok(Records(lines))
    decreases |s|
  {
    if s == "" {
      NothingListed(lines);
    } else if s[0] == '\0' {
      NulIsSkipped(s);
      ListingIsRead(s[1..], lines);
    } else {
      var rest := ListingStep(s, lines);
      ListingIsRead(rest, lines[1..]);
      FirstLineIsRead(s, lines[0], rest);
      RecordsCons(lines[0], lines[1..]);
      assert lines == [lines[0]] + lines[1..];
    }
  }

  /** Reading undoes printing, for paths that look like headers too. */
  lemma {:induction false} DiffTreeRoundTrip(lines: seq<Listed>)
    requires forall l :: l in lines ==> GitForm(l)
    ensures IsListing(PrintLines(lines), lines) && ReadRaws(PrintLines(lines)) == Ok(Records(lines))
  {
    if lines != [] {
      assert lines[0] in lines;
      var s, first := PrintLines(lines), PrintListed(lines[0]);
      assert s[0] == ':' && s[|first|..] == PrintLines(lines[1..]);
      DiffTreeRoundTrip(lines[1..]);
    }
    ListingIsRead(PrintLines(lines), lines);
  }

  lemma {:induction false} HeaderIsLine(s: string) returns (header: string)
    requires s != "" && ReadHeader(s).RawHeader?
    ensures var h := ReadHeader(s);
            && header == h.fields[0] + " " + h.fields[1] + " " + h.fields[2] + " " + h.fields[3] + " " + h.fields[4]
            && (forall f :: f in h.fields ==> HeaderField(f)) && s == ":" + header + "\0" + h.rest
  {
    var h := ReadHeader(s);
    header := Until(s[1..], '\0').value.text;
    assert s == ":" + s[1..] == ":" + (header + ['\0'] + h.rest) == ":" + header + ['\0'] + h.rest;
    SplitIsJoin(header, ' ');
    JoinFive(h.fields);
    FreeJoin(h.fields);
    forall f | f in h.fields
      ensures HeaderField(f)
    {
      assert Free(f, ' ') && Free(f, '\0');
    }
  }

  /** A record that was read is what some listed line means. */
  lemma {:induction false} RecordIsLine(s: string) returns (l: Listed)
    requires s != "" && ReadRaw(s).GotRaw?
    ensures GitForm(l) && s == PrintListed(l) + ReadRaw(s).rest && ReadRaw(s).record == RecordOf(l)
  {
    var header := HeaderIsLine(s);
    var h, rest := ReadHeader(s).fields, ReadHeader(s).rest;
    l := LineOf(h, ReadPaths(h[4], rest));
    PathsAreLine(h, rest);
    Assoc(":" + header + "\0", Paths(l), ReadPaths(h[4], rest).rest);
  }

  function LineOf(h: seq<string>, p: RawPaths): Listed
    requires |h| == 5 && p.RawPaths?
  {
    if |h[4]| > 0 && (h[4][0] == 'R' || h[4][0] == 'C') then Pair(h[0], h[1], h[2], h[3], h[4], p.oldPath, p.path)
    else Single(h[0], h[1], h[2], h[3], h[4], p.path)
  }

  lemma {:induction false} PathsAreLine(h: seq<string>, s: string)
    requires |h| == 5 && ReadPaths(h[4], s).RawPaths?
    ensures var p := ReadPaths(h[4], s);
            var l := LineOf(h, p);
            && s == Paths(l) + p.rest && '\0' !in l.path && (l.Pair? ==> '\0' !in l.oldPath)
            && RecordOf(l).oldPath == p.oldPath
  {
    var p, first := ReadPaths(h[4], s), Until(s, '\0').value;
    if LineOf(h, p).Pair? {
      Assoc(first.text + ['\0'], p.path + ['\0'], p.rest);
      Assoc(first.text + ['\0'], p.path, ['\0']);
    }
  }

  /** Nothing else is read: the text is a listing, and the records are those of its lines. */
  lemma {:induction false} ReadIsListing(s: string) returns (lines: seq<Listed>)
    requires ReadRaws(s).Ok?
    ensures IsListing(s, lines) && ReadRaws(s) == Ok(Records(lines))
    decreases |s|
  {
    if s == "" {
      lines := [];
      NothingListed(lines);
    } else if s[0] == '\0' {
      NulIsSkipped(s);
      lines := ReadIsListing(s[1..]);
    } else {
      var l, rest := FirstIsLine(s);
      var others := ReadIsListing(rest);
      lines := [l] + others;
      FirstLineIsListed(s, l, rest, others);
      RecordsCons(l, others);
    }
  }

  lemma {:induction false} FirstIsLine(s: string) returns (l: Listed, rest: string)
    requires s != "" && s[0] != '\0' && ReadRaws(s).Ok?
    ensures GitForm(l) && s == PrintListed(l) + rest && |rest| < |s|
    ensures ReadRaws(rest).Ok? && ReadRaws(s) == Then([RecordOf(l)], ReadRaws(rest))
  {
    l := RecordIsLine(s);
    rest := ReadRaw(s).rest;
  }

  lemma {:induction false} FirstLineIsListed(s: string, l: Listed, rest: string, others: seq<Listed>)
    requires GitForm(l) && s == PrintListed(l) + rest && IsListing(rest, others)
    ensures IsListing(s, [l] + others)
  {
    PrintedHeader(HeaderText(l), Paths(l), rest, s);
    assert s[|PrintListed(l)|..] == rest && ([l] + others)[1..] == others;
  }

  ghost predicate SomeListing(s: string) { exists lines :: IsListing(s, lines) }

  lemma {:induction false} OneListing(s: string, lines: seq<Listed>)
    requires IsListing(s, lines)
    ensures SomeListing(s)
  {
  }

  /** The reader accepts exactly the listings. */
  lemma {:induction false} ReadsExactlyListings(s: string)
    ensures ReadRaws(s).Ok? <==> SomeListing(s)
  {
    if ReadRaws(s).Ok? {
      var lines := ReadIsListing(s);
      OneListing(s, lines);
    } else if SomeListing(s) {
      var lines :| IsListing(s, lines);
      ListingIsRead(s, lines);
    }
  }
}
