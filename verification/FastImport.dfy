/** The fast-import stream printer and a reader for the form it prints.

    The reader follows git-fast-import(1): commands are lines, `data` is read by its exact byte
    count with an optional newline after it, and the stream ends with `done`. A payload may hold
    anything, including lines that look like commands.
 */
module FastImport {
  import opened Prelude
  import opened Text

  datatype Change = Delete(path: string) | Modify(path: string, content: string)

  datatype Command =
    | Commit(ref: string, mark: nat, author: string, committer: string, message: string,
             from: Option<nat>, merges: seq<nat>, changes: seq<Change>)
    | Reset(ref: string, from_: nat)

  // ----- printing -----

  function Line(prefix: string, text: string): string { prefix + text + "\n" }

  function Data(payload: string): string { Line("data ", Dec(|payload|)) + payload }

  function PrintFrom(from: Option<nat>): string {
    if from.None? then "" else Line("from :", Dec(from.value))
  }

  function PrintMerges(merges: seq<nat>): string {
    if merges == [] then "" else Line("merge :", Dec(merges[0])) + PrintMerges(merges[1..])
  }

  function PrintChange(c: Change): string {
    match c
    case Delete(path) => Line("D ", path)
    case Modify(path, content) => Line("M 644 inline ", path) + Data(content)
  }

  function PrintChanges(changes: seq<Change>): string {
    if changes == [] then "" else PrintChange(changes[0]) + PrintChanges(changes[1..])
  }

  function PrintCommand(c: Command): string {
    match c
    case Commit(ref, mark, author, committer, message, from, merges, changes) =>
      Line("commit ", ref) + (Line("mark :", Dec(mark)) + (Line("author ", author) + (Line("committer ", committer)
      + (Data(message) + (PrintFrom(from) + (PrintMerges(merges) + PrintChanges(changes)))))))
    case Reset(ref, from) => Line("reset ", ref) + Line("from :", Dec(from))
  }

  function PrintCommands(commands: seq<Command>): string {
    if commands == [] then "" else PrintCommand(commands[0]) + PrintCommands(commands[1..])
  }

  const DONE := "done\n"

  // ----- reading -----

  function ReadLine(prefix: string, s: string): (f: Option<Field>)
    ensures f.Some? ==> |f.value.rest| < |s|
  {
    var text := Strip(prefix, s);
    if text.None? then None else Until(text.value, '\n')
  }

  datatype Number = Number(value: nat, rest: string)

  function ReadNumber(prefix: string, s: string): (f: Option<Number>)
    ensures f.Some? ==> |f.value.rest| < |s|
  {
    var line := ReadLine(prefix, s);
    if line.None? || !IsNumber(line.value.text) then None else Some(Number(Value(line.value.text), line.value.rest))
  }

  function ReadData(s: string): (f: Option<Field>)
    ensures f.Some? ==> |f.value.rest| < |s|
  {
    var size := ReadNumber("data ", s);
    if size.None? || |size.value.rest| < size.value.value then None
    else
      var n, rest := size.value.value, size.value.rest;
      Some(Field(rest[..n], SkipNewline(rest[n..])))
  }

  datatype Merges = Merges(marks: seq<nat>, rest: string)

  function ReadMerges(s: string): (m: Merges)
    ensures |m.rest| <= |s|
    decreases |s|
  {
    var first := ReadNumber("merge :", s);
    if first.None? then Merges([], s)
    else
      var others := ReadMerges(first.value.rest);
      Merges([first.value.value] + others.marks, others.rest)
  }

  datatype Changed = Changed(changes: seq<Change>, rest: string)

  /** One change, if the text starts with one. A quoted path is not of the printed form. */
  function ReadChange(s: string): (c: Option<Changed>)
    ensures c.Some? ==> |c.value.changes| == 1 && |c.value.rest| < |s|
  {
    var delete := ReadLine("D ", s);
    if delete.Some? then
      if IsPath(delete.value.text) then Some(Changed([Delete(delete.value.text)], delete.value.rest)) else None
    else
      var write := ReadLine("M 644 inline ", s);
      if write.None? || !IsPath(write.value.text) then None
      else
        var data := ReadData(write.value.rest);
        if data.None? then None else Some(Changed([Modify(write.value.text, data.value.text)], data.value.rest))
  }

  function ReadChanges(s: string): (c: Changed)
    ensures |c.rest| <= |s|
    decreases |s|
  {
    var first := ReadChange(s);
    if first.None? then Changed([], s)
    else
      var others := ReadChanges(first.value.rest);
      Changed(first.value.changes + others.changes, others.rest)
  }

  datatype ReadOne = Unreadable | One(command: Command, rest: string)

  function ReadFrom(s: string): (f: (Option<nat>, string))
    ensures |f.1| <= |s|
  {
    var from := ReadNumber("from :", s);
    if from.None? then (None, s) else (Some(from.value.value), from.value.rest)
  }

  function ReadCommit(s: string): (r: ReadOne)
    ensures r.One? ==> |r.rest| < |s|
  {
    var ref := ReadLine("commit ", s);
    if ref.None? then Unreadable
    else
      var mark := ReadNumber("mark :", ref.value.rest);
      if mark.None? then Unreadable
      else
        var author := ReadLine("author ", mark.value.rest);
        if author.None? then Unreadable
        else
          var committer := ReadLine("committer ", author.value.rest);
          if committer.None? then Unreadable
          else
            var message := ReadData(committer.value.rest);
            if message.None? then Unreadable
            else
              var from := ReadFrom(message.value.rest);
              var merges := ReadMerges(from.1);
              var changes := ReadChanges(merges.rest);
              One(Commit(ref.value.text, mark.value.value, author.value.text, committer.value.text,
                         message.value.text, from.0, merges.marks, changes.changes), changes.rest)
  }

  function ReadReset(s: string): (r: ReadOne)
    ensures r.One? ==> |r.rest| < |s|
  {
    var ref := ReadLine("reset ", s);
    if ref.None? then Unreadable
    else
      var from := ReadNumber("from :", ref.value.rest);
      if from.None? then Unreadable else One(Reset(ref.value.text, from.value.value), from.value.rest)
  }

  function ReadStream(s: string): Option<seq<Command>>
    decreases |s|
  {
    if s == DONE then Some([])
    else
      var commit := ReadCommit(s);
      var one := if commit.One? then commit else ReadReset(s);
      if one.Unreadable? then None
      else
        var others := ReadStream(one.rest);
        if others.None? then None else Some([one.command] + others.value)
  }

  // ----- the round trip -----

  predicate IsPath(p: string) { Free(p, '\n') && (p == "" || p[0] != '"') }

  predicate Printable(c: Command) {
    && Free(c.ref, '\n')
    && (c.Commit? ==> Free(c.author, '\n') && Free(c.committer, '\n') && forall x :: x in c.changes ==> IsPath(x.path))
  }

  /** The first letter of a command or of `done`. */
  predicate StartsCommand(s: string) { s != "" && (s[0] == 'c' || s[0] == 'r' || s[0] == 'd') }

  predicate StartsChange(s: string) { s != "" && (s[0] == 'D' || s[0] == 'M') }

  lemma LineRoundTrip(prefix: string, text: string, rest: string)
    requires Free(text, '\n')
    ensures ReadLine(prefix, Line(prefix, text) + rest) == Some(Field(text, rest))
  {
    var s := Line(prefix, text) + rest;
    assert s == prefix + (text + "\n" + rest);
    StripPrefix(prefix, text + "\n" + rest);
    UntilFinds(text, '\n', rest);
  }

  lemma NumberRoundTrip(prefix: string, n: nat, rest: string)
    ensures ReadNumber(prefix, Line(prefix, Dec(n)) + rest) == Some(Number(n, rest))
  {
    LineRoundTrip(prefix, Dec(n), rest);
    DecRoundTrip(n);
  }

  lemma DataRoundTrip(payload: string, rest: string)
    requires rest != "" && rest[0] != '\n'
    ensures ReadData(Data(payload) + rest) == Some(Field(payload, rest))
  {
    var line := Line("data ", Dec(|payload|));
    assert Data(payload) + rest == line + (payload + rest);
    NumberRoundTrip("data ", |payload|, payload + rest);
    assert (payload + rest)[..|payload|] == payload && (payload + rest)[|payload|..] == rest;
  }

  lemma OtherStart(prefix: string, s: string)
    requires prefix != "" && s != "" && s[0] != prefix[0]
    ensures ReadLine(prefix, s).None? && ReadNumber(prefix, s).None?
  {
  }

  lemma {:induction false} MergesRoundTrip(merges: seq<nat>, rest: string)
    requires rest != "" && rest[0] != 'm'
    ensures ReadMerges(PrintMerges(merges) + rest) == Merges(merges, rest)
    ensures var s := PrintMerges(merges) + rest; s != "" && (s[0] == 'm' || s[0] == rest[0])
  {
    if merges == [] {
      assert PrintMerges(merges) + rest == rest;
      OtherStart("merge :", rest);
    } else {
      var tail := PrintMerges(merges[1..]) + rest;
      Assoc(Line("merge :", Dec(merges[0])), PrintMerges(merges[1..]), rest);
      NumberRoundTrip("merge :", merges[0], tail);
      MergesRoundTrip(merges[1..], rest);
      assert ReadMerges(Line("merge :", Dec(merges[0])) + tail) == Merges([merges[0]] + merges[1..], rest);
      assert merges == [merges[0]] + merges[1..];
    }
  }

  lemma ChangeRoundTrip(c: Change, rest: string)
    requires IsPath(c.path) && rest != "" && rest[0] != '\n'
    ensures ReadChange(PrintChange(c) + rest) == Some(Changed([c], rest))
    ensures StartsChange(PrintChange(c) + rest)
  {
    match c
    case Delete(path) =>
      LineRoundTrip("D ", path, rest);
    case Modify(path, content) =>
      var s := PrintChange(c) + rest;
      assert s == Line("M 644 inline ", path) + (Data(content) + rest);
      LineRoundTrip("M 644 inline ", path, Data(content) + rest);
      assert s[0] == 'M';
      OtherStart("D ", s);
      DataRoundTrip(content, rest);
  }

  lemma NoChange(rest: string)
    requires StartsCommand(rest)
    ensures ReadChanges(rest) == Changed([], rest)
  {
    OtherStart("D ", rest);
    OtherStart("M 644 inline ", rest);
  }

  lemma {:induction false} ChangesRoundTrip(changes: seq<Change>, rest: string)
    requires forall c :: c in changes ==> IsPath(c.path)
    requires StartsCommand(rest)
    ensures ReadChanges(PrintChanges(changes) + rest) == Changed(changes, rest)
    ensures var s := PrintChanges(changes) + rest; StartsChange(s) || StartsCommand(s)
  {
    if changes == [] {
      assert PrintChanges(changes) + rest == rest;
      NoChange(rest);
    } else {
      var tail := PrintChanges(changes[1..]) + rest;
      Assoc(PrintChange(changes[0]), PrintChanges(changes[1..]), rest);
      assert changes[0] in changes;
      ChangesRoundTrip(changes[1..], rest);
      ChangeRoundTrip(changes[0], tail);
      assert ReadChanges(PrintChange(changes[0]) + tail) == Changed([changes[0]] + changes[1..], rest);
      assert changes == [changes[0]] + changes[1..];
    }
  }

  lemma FromRoundTrip(from: Option<nat>, rest: string)
    requires rest != "" && rest[0] != 'f' && rest[0] != '\n'
    ensures var s := PrintFrom(from) + rest; s != "" && s[0] != '\n' && ReadFrom(s) == (from, rest)
  {
    if from.None? {
      assert PrintFrom(from) + rest == rest;
      OtherStart("from :", rest);
    } else {
      NumberRoundTrip("from :", from.value, rest);
    }
  }

  /** What follows the message: parents and changes. */
  lemma BodyRoundTrip(from: Option<nat>, merges: seq<nat>, changes: seq<Change>, rest: string)
    requires forall c :: c in changes ==> IsPath(c.path)
    requires StartsCommand(rest)
    ensures var c := PrintChanges(changes) + rest;
            var m := PrintMerges(merges) + c;
            var s := PrintFrom(from) + m;
            && s != "" && s[0] != '\n'
            && ReadFrom(s) == (from, m)
            && ReadMerges(m) == Merges(merges, c)
            && ReadChanges(c) == Changed(changes, rest)
  {
    var c := PrintChanges(changes) + rest;
    ChangesRoundTrip(changes, rest);
    assert c != "" && c[0] != 'm' && c[0] != 'f' && c[0] != '\n';
    MergesRoundTrip(merges, c);
    FromRoundTrip(from, PrintMerges(merges) + c);
  }

  lemma CommitRoundTrip(c: Command, rest: string)
    requires c.Commit? && Printable(c) && StartsCommand(rest)
    ensures ReadCommit(PrintCommand(c) + rest) == One(c, rest)
  {
    var s5 := PrintFrom(c.from) + (PrintMerges(c.merges) + (PrintChanges(c.changes) + rest));
    BodyRoundTrip(c.from, c.merges, c.changes, rest);
    var s4 := Data(c.message) + s5;
    DataRoundTrip(c.message, s5);
    var s3 := Line("committer ", c.committer) + s4;
    LineRoundTrip("committer ", c.committer, s4);
    var s2 := Line("author ", c.author) + s3;
    LineRoundTrip("author ", c.author, s3);
    var s1 := Line("mark :", Dec(c.mark)) + s2;
    NumberRoundTrip("mark :", c.mark, s2);
    LineRoundTrip("commit ", c.ref, s1);
    CommitText(c, rest);
  }

  /** Concatenation is associative. */
  lemma CommitText(c: Command, rest: string)
    requires c.Commit?
    ensures PrintCommand(c) + rest ==
            Line("commit ", c.ref) + (Line("mark :", Dec(c.mark)) + (Line("author ", c.author)
            + (Line("committer ", c.committer)
            + (Data(c.message) + (PrintFrom(c.from) + (PrintMerges(c.merges) + (PrintChanges(c.changes) + rest)))))))
  {
    var c7 := PrintMerges(c.merges) + PrintChanges(c.changes);
    Assoc(PrintMerges(c.merges), PrintChanges(c.changes), rest);
    var c6 := PrintFrom(c.from) + c7;
    Assoc(PrintFrom(c.from), c7, rest);
    var c5 := Data(c.message) + c6;
    Assoc(Data(c.message), c6, rest);
    var c4 := Line("committer ", c.committer) + c5;
    Assoc(Line("committer ", c.committer), c5, rest);
    var c3 := Line("author ", c.author) + c4;
    Assoc(Line("author ", c.author), c4, rest);
    var c2 := Line("mark :", Dec(c.mark)) + c3;
    Assoc(Line("mark :", Dec(c.mark)), c3, rest);
    Assoc(Line("commit ", c.ref), c2, rest);
  }

  lemma ResetRoundTrip(c: Command, rest: string)
    requires c.Reset? && Printable(c)
    ensures var s := PrintCommand(c) + rest; ReadCommit(s).Unreadable? && ReadReset(s) == One(c, rest)
  {
    var s := PrintCommand(c) + rest;
    Assoc(Line("reset ", c.ref), Line("from :", Dec(c.from_)), rest);
    LineRoundTrip("reset ", c.ref, Line("from :", Dec(c.from_)) + rest);
    NumberRoundTrip("from :", c.from_, rest);
    assert s[0] == 'r';
    OtherStart("commit ", s);
  }

  lemma CommandStart(c: Command, rest: string)
    ensures var s := PrintCommand(c) + rest; StartsCommand(s) && s[0] != 'd'
  {
    if c.Commit? {
      CommitText(c, rest);
    }
  }

  /** One printed command is read off the front of the stream. */
  lemma OneCommand(c: Command, rest: string)
    requires Printable(c) && StartsCommand(rest)
    ensures var others := ReadStream(rest);
            ReadStream(PrintCommand(c) + rest) == if others.None? then None else Some([c] + others.value)
  {
    var s := PrintCommand(c) + rest;
    CommandStart(c, rest);
    assert s[0] != DONE[0];
    if c.Commit? {
      CommitRoundTrip(c, rest);
    } else {
      ResetRoundTrip(c, rest);
    }
    FirstThenOthers(s, c, rest);
  }

  lemma FirstThenOthers(s: string, c: Command, rest: string)
    requires s != DONE && (ReadCommit(s) == One(c, rest) || (ReadCommit(s).Unreadable? && ReadReset(s) == One(c, rest)))
    ensures ReadStream(s) == if ReadStream(rest).None? then None else Some([c] + ReadStream(rest).value)
  {
  }

  /** Printed commands are read off the front of whatever stream follows them. */
  lemma {:induction false} CommandsRoundTrip(commands: seq<Command>, end: string)
    requires forall c :: c in commands ==> Printable(c)
    requires StartsCommand(end) && ReadStream(end) == Some([])
    ensures ReadStream(PrintCommands(commands) + end) == Some(commands)
    ensures StartsCommand(PrintCommands(commands) + end)
  {
    if commands == [] {
      assert PrintCommands(commands) + end == end;
    } else {
      var c, later := commands[0], commands[1..];
      var rest := PrintCommands(later) + end;
      assert c in commands;
      Assoc(PrintCommand(c), PrintCommands(later), end);
      assert commands == [c] + later;
      CommandsRoundTrip(later, end);
      FirstCommand(c, later, rest, PrintCommands(commands) + end);
    }
  }

  lemma FirstCommand(c: Command, later: seq<Command>, rest: string, s: string)
    requires Printable(c) && StartsCommand(rest) && ReadStream(rest) == Some(later) && s == PrintCommand(c) + rest
    ensures ReadStream(s) == Some([c] + later) && StartsCommand(s)
  {
    CommandStart(c, rest);
    OneCommand(c, rest);
  }

  /** Reading a whole stream gives back its commands. */
  lemma StreamRoundTrip(commands: seq<Command>)
    requires forall c :: c in commands ==> Printable(c)
    ensures ReadStream(PrintCommands(commands) + DONE) == Some(commands)
  {
    assert DONE[0] == 'd' && ReadStream(DONE) == Some([]);
    CommandsRoundTrip(commands, DONE);
  }

  // ----- parents that are left out -----

  /** Where the refs stand after some commands. */
  function Tips(commands: seq<Command>): map<string, nat> {
    if commands == [] then map[]
    else
      var last := commands[|commands| - 1];
      Tips(commands[..|commands| - 1])[last.ref := if last.Commit? then last.mark else last.from_]
  }

  /** The first parent that Git gives to commit `i`: the one named, else where its ref already stands. */
  function GitParent(commands: seq<Command>, i: nat): Option<nat>
    requires i < |commands| && commands[i].Commit?
  {
    var c, tips := commands[i], Tips(commands[..i]);
    if c.from.Some? then c.from else if c.ref in tips then Some(tips[c.ref]) else None
  }

  ghost predicate FirstOnRef(commands: seq<Command>, i: nat)
    requires i < |commands|
  {
    forall j :: 0 <= j < i ==> commands[j].ref != commands[i].ref
  }

  lemma {:induction false} TipsAreRefs(commands: seq<Command>, ref: string)
    ensures ref in Tips(commands) <==> exists j :: 0 <= j < |commands| && commands[j].ref == ref
  {
    if commands != [] {
      var n := |commands| - 1;
      TipsAreRefs(commands[..n], ref);
      if ref in Tips(commands[..n]) {
        var j :| 0 <= j < n && commands[..n][j].ref == ref;
        assert commands[j].ref == ref;
      }
      if j :| 0 <= j < |commands| && commands[j].ref == ref && j < n {
        assert commands[..n][j].ref == ref;
      }
    }
  }

  /** The parent read back is the one Git makes exactly when the commit names one or is the first command
      on its ref. */
  lemma ParentIsGits(commands: seq<Command>, i: nat)
    requires i < |commands| && commands[i].Commit?
    ensures GitParent(commands, i) == commands[i].from <==> commands[i].from.Some? || FirstOnRef(commands, i)
  {
    TipsAreRefs(commands[..i], commands[i].ref);
    if j :| 0 <= j < i && commands[j].ref == commands[i].ref {
      assert commands[..i][j].ref == commands[i].ref;
    }
  }

  // ----- the stream object -----

  const COMMITTER := "Fixture Committer <committer@collab.example>"

  const ADA := "Ada Lovelace <ada@collab.example>"
  const GRACE := "Grace Hopper <grace@collab.example>"
  const KEN := "Ken Thompson <ken@collab.example>"
  const MARY := "Mary Keller <mary@collab.example>"

  const AUTHORS: seq<string> := [ADA, GRACE, KEN, MARY]

  /** `AUTHORS[n % len(AUTHORS)]`. */
  function Author(n: nat): string { AUTHORS[n % |AUTHORS|] }

  function Stamp(who: string, unix: nat): string { who + " " + Dec(unix) + " +0000" }

  function AuthorUnix(pairIndex: nat, n: nat): nat { 1704067200 + pairIndex * 86400 + n * 3600 }

  function WithNewline(message: string): string {
    if message != "" && message[|message| - 1] == '\n' then message else message + "\n"
  }

  function Changes(deletes: seq<string>, files: seq<(string, string)>): seq<Change> {
    seq(|deletes|, i requires 0 <= i < |deletes| => Delete(deletes[i]))
    + seq(|files|, i requires 0 <= i < |files| => Modify(files[i].0, files[i].1))
  }

  /** The commit that one call of `Stream.commit` asks for. */
  function CommitOf(ref: string, mark: nat, pairIndex: nat, n: nat, message: string, parent: Option<nat>,
                    merges: seq<nat>, deletes: seq<string>, files: seq<(string, string)>): Command {
    Commit(ref, mark, Stamp(Author(n), AuthorUnix(pairIndex, n)), Stamp(COMMITTER, AuthorUnix(pairIndex, n) + 60),
           WithNewline(message), parent, merges, Changes(deletes, files))
  }

  /** The commands' fields in terms of the arguments: the deletes before the files, each list in order. */
  ghost predicate Asked(c: Command, ref: string, mark: nat, pairIndex: nat, n: nat, message: string,
                        parent: Option<nat>, merges: seq<nat>, deletes: seq<string>, files: seq<(string, string)>) {
    && c.Commit? && c.ref == ref && c.mark == mark && c.from == parent && c.merges == merges
    && IsSigned(c, n, 1704067200 + 86400 * pairIndex + 3600 * n)
    && (c.message == message || c.message == message + "\n")
    && (c.message == message <==> |message| > 0 && message[|message| - 1] == '\n')
    && |c.changes| == |deletes| + |files|
    && (forall i :: 0 <= i < |deletes| ==> c.changes[i] == Delete(deletes[i]))
    && (forall j :: 0 <= j < |files| ==> c.changes[|deletes| + j] == Modify(files[j].0, files[j].1))
  }

  /** The four authors take turns, and the committer signs a minute later. */
  ghost predicate IsSigned(c: Command, n: nat, unix: nat)
    requires c.Commit?
  {
    && (n % 4 == 0 ==> c.author == "Ada Lovelace <ada@collab.example> " + Dec(unix) + " +0000")
    && (n % 4 == 1 ==> c.author == "Grace Hopper <grace@collab.example> " + Dec(unix) + " +0000")
    && (n % 4 == 2 ==> c.author == "Ken Thompson <ken@collab.example> " + Dec(unix) + " +0000")
    && (n % 4 == 3 ==> c.author == "Mary Keller <mary@collab.example> " + Dec(unix) + " +0000")
    && c.committer == "Fixture Committer <committer@collab.example> " + Dec(unix + 60) + " +0000"
  }

  lemma {:induction false} CommitIsAsked(ref: string, mark: nat, pairIndex: nat, n: nat, message: string,
                                         parent: Option<nat>, merges: seq<nat>, deletes: seq<string>,
                                         files: seq<(string, string)>)
    ensures Asked(CommitOf(ref, mark, pairIndex, n, message, parent, merges, deletes, files),
                  ref, mark, pairIndex, n, message, parent, merges, deletes, files)
  {
    assert |message + "\n"| != |message|;
    Signed(n, AuthorUnix(pairIndex, n));
  }

  lemma {:induction false} Signed(n: nat, unix: nat)
    ensures n % 4 == 0 ==> Stamp(Author(n), unix) == "Ada Lovelace <ada@collab.example> " + Dec(unix) + " +0000"
    ensures n % 4 == 1 ==> Stamp(Author(n), unix) == "Grace Hopper <grace@collab.example> " + Dec(unix) + " +0000"
    ensures n % 4 == 2 ==> Stamp(Author(n), unix) == "Ken Thompson <ken@collab.example> " + Dec(unix) + " +0000"
    ensures n % 4 == 3 ==> Stamp(Author(n), unix) == "Mary Keller <mary@collab.example> " + Dec(unix) + " +0000"
    ensures Stamp(COMMITTER, unix) == "Fixture Committer <committer@collab.example> " + Dec(unix) + " +0000"
  {
  }

  class Stream {
    var buf: string
    var mark: nat
    ghost var commands: seq<Command>

    ghost predicate Valid()
      reads this
    {
      buf == PrintCommands(commands)
    }

    constructor ()
      ensures Valid() && mark == 0 && commands == []
    {
      buf, mark, commands := "", 0, [];
    }

    method Write(text: string)
      modifies this`buf
      ensures buf == old(buf) + text
    {
      buf := buf + text;
    }

    method WriteMerges(merges: seq<nat>)
      modifies this`buf
      ensures buf == old(buf) + PrintMerges(merges)
    {
      assert buf == old(buf) + PrintMerges(merges[..0]);
      for i := 0 to |merges|
        invariant buf == old(buf) + PrintMerges(merges[..i])
      {
        MergesSnoc(merges[..i], merges[i]);
        Assoc(old(buf), PrintMerges(merges[..i]), Line("merge :", Dec(merges[i])));
        assert merges[..i + 1] == merges[..i] + [merges[i]];
        Write(Line("merge :", Dec(merges[i])));
      }
      assert merges[..|merges|] == merges;
    }

    method WriteChanges(changes: seq<Change>)
      modifies this`buf
      ensures buf == old(buf) + PrintChanges(changes)
    {
      assert buf == old(buf) + PrintChanges(changes[..0]);
      for i := 0 to |changes|
        invariant buf == old(buf) + PrintChanges(changes[..i])
      {
        OneMoreChange(old(buf), changes, i);
        Write(PrintChange(changes[i]));
      }
      assert changes[..|changes|] == changes;
    }

    /** `Stream.commit`: the buffer grows by exactly the printed commit, under a fresh mark. */
    method Commit(ref: string, pairIndex: nat, n: nat, message: string, parent: Option<nat>,
                  merges: seq<nat>, deletes: seq<string>, files: seq<(string, string)>) returns (m: nat)
      requires Valid()
      modifies this
      ensures Valid() && m == mark == old(mark) + 1
      ensures |commands| == |old(commands)| + 1 && commands[..|old(commands)|] == old(commands)
      ensures Asked(commands[|old(commands)|], ref, m, pairIndex, n, message, parent, merges, deletes, files)
    {
      mark := mark + 1;
      m := mark;
      var c := CommitOf(ref, m, pairIndex, n, message, parent, merges, deletes, files);
      CommitIsAsked(ref, m, pairIndex, n, message, parent, merges, deletes, files);
      WriteCommit(c);
      CommandsSnoc(commands, c);
      commands := commands + [c];
    }

    /** The lines and payloads of one commit, in order. */
    method WriteCommit(c: Command)
      requires c.Commit?
      modifies this`buf
      ensures buf == old(buf) + PrintCommand(c)
    {
      ghost var before := buf;
      Write(Line("commit ", c.ref));
      Write(Line("mark :", Dec(c.mark)));
      Write(Line("author ", c.author));
      Write(Line("committer ", c.committer));
      Write(Data(c.message));
      Write(PrintFrom(c.from));
      WriteMerges(c.merges);
      WriteChanges(c.changes);
      Assemble(before, c);
    }

    method Reset(ref: string, target: nat)
      requires Valid()
      modifies this
      ensures Valid() && mark == old(mark) && commands == old(commands) + [Command.Reset(ref, target)]
    {
      ghost var c := Command.Reset(ref, target);
      CommandsSnoc(commands, c);
      Write(Line("reset ", ref) + Line("from :", Dec(target)));
      commands := commands + [c];
    }

    /** What is written reads back as exactly the calls that were made. */
    method Finish() returns (bytes: string)
      requires Valid()
      modifies this`buf
      ensures bytes == old(buf) + "done\n"
      ensures (forall c :: c in commands ==> Printable(c)) ==> ReadStream(bytes) == Some(commands)
    {
      if forall c :: c in commands ==> Printable(c) {
        StreamRoundTrip(commands);
      }
      Write(DONE);
      bytes := buf;
    }
  }

  lemma {:induction false} MergesSnoc(merges: seq<nat>, m: nat)
    ensures PrintMerges(merges + [m]) == PrintMerges(merges) + Line("merge :", Dec(m))
  {
    if merges == [] {
      assert [m][1..] == [];
      assert PrintMerges([m]) == Line("merge :", Dec(m)) + "" == "" + Line("merge :", Dec(m));
    } else {
      assert (merges + [m])[1..] == merges[1..] + [m];
      MergesSnoc(merges[1..], m);
      Assoc(Line("merge :", Dec(merges[0])), PrintMerges(merges[1..]), Line("merge :", Dec(m)));
    }
  }

  lemma {:induction false} OneMoreChange(before: string, changes: seq<Change>, i: nat)
    requires i < |changes|
    ensures before + PrintChanges(changes[..i]) + PrintChange(changes[i]) == before + PrintChanges(changes[..i + 1])
  {
    var done, next := changes[..i], changes[..i + 1];
    assert next == done + [changes[i]];
    ChangesSnoc(done, changes[i]);
    Assoc(before, PrintChanges(done), PrintChange(changes[i]));
  }

  lemma {:induction false} ChangesSnoc(changes: seq<Change>, c: Change)
    ensures PrintChanges(changes + [c]) == PrintChanges(changes) + PrintChange(c)
  {
    if changes == [] {
      assert [c][1..] == [];
      assert PrintChanges([c]) == PrintChange(c) + "" == "" + PrintChange(c);
    } else {
      assert (changes + [c])[1..] == changes[1..] + [c];
      ChangesSnoc(changes[1..], c);
      Assoc(PrintChange(changes[0]), PrintChanges(changes[1..]), PrintChange(c));
    }
  }

  lemma {:induction false} CommandsSnoc(commands: seq<Command>, c: Command)
    ensures PrintCommands(commands + [c]) == PrintCommands(commands) + PrintCommand(c)
  {
    if commands == [] {
      assert [c][1..] == [];
      assert PrintCommands([c]) == PrintCommand(c) + "" == "" + PrintCommand(c);
    } else {
      assert (commands + [c])[1..] == commands[1..] + [c];
      CommandsSnoc(commands[1..], c);
      Assoc(PrintCommand(commands[0]), PrintCommands(commands[1..]), PrintCommand(c));
    }
  }

  /** Written piece by piece or at once, a commit is the same text. */
  lemma Assemble(b: string, c: Command)
    requires c.Commit?
    ensures b + Line("commit ", c.ref) + Line("mark :", Dec(c.mark)) + Line("author ", c.author)
            + Line("committer ", c.committer)
            + Data(c.message) + PrintFrom(c.from) + PrintMerges(c.merges) + PrintChanges(c.changes)
            == b + PrintCommand(c)
  {
    var p1, p2 := Line("commit ", c.ref), Line("mark :", Dec(c.mark));
    var p3, p4 := Line("author ", c.author), Line("committer ", c.committer);
    var p5, p6, p7, p8 := Data(c.message), PrintFrom(c.from), PrintMerges(c.merges), PrintChanges(c.changes);
    Assoc(b + p1 + p2 + p3 + p4 + p5 + p6, p7, p8);
    Assoc(b + p1 + p2 + p3 + p4 + p5, p6, p7 + p8);
    Assoc(b + p1 + p2 + p3 + p4, p5, p6 + (p7 + p8));
    Assoc(b + p1 + p2 + p3, p4, p5 + (p6 + (p7 + p8)));
    Assoc(b + p1 + p2, p3, p4 + (p5 + (p6 + (p7 + p8))));
    Assoc(b + p1, p2, p3 + (p4 + (p5 + (p6 + (p7 + p8)))));
    Assoc(b, p1, p2 + (p3 + (p4 + (p5 + (p6 + (p7 + p8))))));
  }

  /** A path that is printed as it is: one line that does not start like a quoted path. */
  lemma PlainPath(p: string)
    ensures IsPath(p) <==> '\n' !in p && !(p != "" && p[0] == '"')
  {
  }

  /** A call with one-line names and plain paths prints a readable commit, whatever its payloads. */
  lemma CommitIsPrintable(ref: string, mark: nat, pairIndex: nat, n: nat, message: string, parent: Option<nat>,
                          merges: seq<nat>, deletes: seq<string>, files: seq<(string, string)>)
    requires '\n' !in ref
    requires forall p :: p in deletes ==> '\n' !in p && !(p != "" && p[0] == '"')
    requires forall f :: f in files ==> '\n' !in f.0 && !(f.0 != "" && f.0[0] == '"')
    ensures Printable(CommitOf(ref, mark, pairIndex, n, message, parent, merges, deletes, files))
    ensures Printable(Command.Reset(ref, mark))
  {
    AuthorIsLine(n);
    CommitterIsLine();
    StampIsLine(Author(n), AuthorUnix(pairIndex, n));
    StampIsLine(COMMITTER, AuthorUnix(pairIndex, n) + 60);
    forall p | p in deletes ensures IsPath(p) { PlainPath(p); }
    forall f | f in files ensures IsPath(f.0) { PlainPath(f.0); }
  }

  lemma AuthorIsLine(n: nat)
    ensures Free(Author(n), '\n')
  {
    AdaIsLine();
    GraceIsLine();
    KenIsLine();
    MaryIsLine();
    assert AUTHORS[n % 4] == ADA || AUTHORS[n % 4] == GRACE || AUTHORS[n % 4] == KEN || AUTHORS[n % 4] == MARY;
  }

  lemma AdaIsLine() ensures Free(ADA, '\n') {}
  lemma GraceIsLine() ensures Free(GRACE, '\n') {}
  lemma KenIsLine() ensures Free(KEN, '\n') {}
  lemma MaryIsLine() ensures Free(MARY, '\n') {}
  lemma CommitterIsLine() ensures Free(COMMITTER, '\n') {}

  lemma StampIsLine(who: string, unix: nat)
    requires Free(who, '\n')
    ensures Free(Stamp(who, unix), '\n')
  {
    FreeConcat(who, " ", '\n');
    FreeConcat(who + " ", Dec(unix), '\n');
    FreeConcat(who + " " + Dec(unix), " +0000", '\n');
  }
}
