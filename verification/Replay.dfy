/** Replaying first-parent diffs onto another, possibly dirty, repository.

    A destination is three maps from path to bytes: the HEAD tree, the index and the worktree.
    One copied diff record has an `Effect`: for each path it names, the bytes written there or
    `None` for a removal. Later effects override earlier ones, so the meaning of a replay is the
    single overlay `AllEffects`, applied alike to HEAD, index and worktree.
 */
module Replay {
  import opened Prelude
  import Utf8

  type Path(==,!new) = string
  type Blob(==,!new) = seq<byte>
  type Files = map<Path, Blob>

  const HOLD: Path := "local/hold.txt"

  /** One `diff-tree -r -z -M --raw` record; `status` is the first status letter. */
  datatype Record = Record(
    status: char, oldPath: Path, path: Path,
    oldMode: string, newMode: string, oldBlob: Blob, newBlob: Blob)

  datatype NotCopied = NotCopied(path: Path, reason: string)

  datatype Source = Source(
    oid: string, parentCount: nat, author: string, message: string, records: seq<Record>)

  datatype Created = Created(
    sourceOid: string, tree: Files, author: string, message: string,
    notCopied: seq<NotCopied>, sourceParentCount: nat)

  // ----- what is copied -----

  predicate SpecialMode(mode: string) { mode == "120000" || mode == "160000" }

  function SkipBytes(blob: Blob): string {
    if 0 in blob then "binary"
    else if !Utf8.IsValid(blob) then "non-utf8"
    else ""
  }

  predicate Renames(r: Record) { r.status == 'R' || r.status == 'C' }

  /** Why a record is not copied; "" when it is. */
  function SkipReason(r: Record): string {
    if r.status == 'D' then
      if SpecialMode(r.oldMode) then "unsupported-type" else SkipBytes(r.oldBlob)
    else if SpecialMode(r.newMode) || (Renames(r) && SpecialMode(r.oldMode)) then "unsupported-type"
    else SkipBytes(r.newBlob)
  }

  predicate Copied(r: Record) { SkipReason(r) == "" }

  // What is copied, said of modes and bytes alone.

  /** A symbolic link or submodule on a side that is read: the old one of a deletion, the new one of
      anything else, and both of a rename or copy. */
  ghost predicate IsSpecial(r: Record) {
    var left, right := r.oldMode in {"120000", "160000"}, r.newMode in {"120000", "160000"};
    if r.status == 'D' then left else right || (r.status in {'R', 'C'} && left)
  }

  /** The bytes that are read: those that disappear, else those that are written. */
  ghost function Payload(r: Record): Blob { if r.status == 'D' then r.oldBlob else r.newBlob }

  ghost predicate HasNul(blob: Blob) { exists i :: 0 <= i < |blob| && blob[i] == 0 }

  /** Copied are exactly the records between regular files whose bytes encode a text without NUL. The
      others are reported for the first of these that fails. */
  lemma {:induction false} SkipReasonIs(r: Record)
    ensures Copied(r) <==> !IsSpecial(r) && !HasNul(Payload(r)) && Utf8.IsText(Payload(r))
    ensures SkipReason(r) == "unsupported-type" <==> IsSpecial(r)
    ensures SkipReason(r) == "binary" <==> !IsSpecial(r) && HasNul(Payload(r))
    ensures SkipReason(r) == "non-utf8" <==> !IsSpecial(r) && !HasNul(Payload(r)) && !Utf8.IsText(Payload(r))
  {
    Utf8.ValidIffText(Payload(r));
    BytesReason(Payload(r));
    assert "unsupported-type"[0] != "binary"[0] && "binary"[0] != "non-utf8"[0];
    assert "unsupported-type"[0] != "non-utf8"[0];
  }

  lemma {:induction false} BytesReason(blob: Blob)
    ensures SkipBytes(blob) == if HasNul(blob) then "binary" else if !Utf8.IsValid(blob) then "non-utf8" else ""
  {
  }

  function Touched(r: Record): set<Path> {
    if Renames(r) then {r.oldPath, r.path} else {r.path}
  }

  // ----- effects -----

  type Effects = map<Path, Option<Blob>>

  function Effect(r: Record): Effects {
    if !Copied(r) then map[]
    else if r.status == 'D' then map[r.path := None]
    else if Renames(r) then map[r.oldPath := None, r.path := Some(r.newBlob)]
    else map[r.path := Some(r.newBlob)]
  }

  function EffectsOf(records: seq<Record>): Effects {
    if records == [] then map[]
    else EffectsOf(records[..|records| - 1]) + Effect(records[|records| - 1])
  }

  function AllEffects(sources: seq<Source>): Effects {
    if sources == [] then map[]
    else AllEffects(sources[..|sources| - 1]) + EffectsOf(sources[|sources| - 1].records)
  }

  function Apply(e: Effects, t: Files): Files {
    map p | p in t.Keys + e.Keys && (p in e ==> e[p].Some?) :: if p in e then e[p].value else t[p]
  }

  lemma ApplyTwice(e: Effects, f: Effects, t: Files)
    ensures Apply(f, Apply(e, t)) == Apply(e + f, t)
  {
  }

  /** One record, said of the files: nothing unless it is copied, else the removal, the move or the bytes. */
  lemma {:induction false} RecordMeaning(r: Record, files: Files)
    ensures var copied := !IsSpecial(r) && !HasNul(Payload(r)) && Utf8.IsText(Payload(r));
            && (!copied ==> Effect(r) == map[] && Apply(Effect(r), files) == files)
            && (copied && r.status == 'D' ==>
                  Effect(r).Keys == {r.path} && Apply(Effect(r), files) == files - {r.path})
            && (copied && r.status in {'R', 'C'} ==>
                  && Effect(r).Keys == {r.oldPath, r.path}
                  && Apply(Effect(r), files) == (files - {r.oldPath})[r.path := r.newBlob])
            && (copied && r.status !in {'D', 'R', 'C'} ==>
                  Effect(r).Keys == {r.path} && Apply(Effect(r), files) == files[r.path := r.newBlob])
  {
    SkipReasonIs(r);
  }

  function Skipped(records: seq<Record>): seq<NotCopied> {
    if records == [] then []
    else
      var r := records[|records| - 1];
      Skipped(records[..|records| - 1]) + if Copied(r) then [] else [NotCopied(r.path, SkipReason(r))]
  }

  // ----- the destination -----

  datatype Repo = Repo(head: Files, index: Files, files: Files)

  function ApplyAll(e: Effects, d: Repo): Repo {
    Repo(Apply(e, d.head), Apply(e, d.index), Apply(e, d.files))
  }

  /** When one source commit can be replayed: its message is not empty, every removed path is
      known to the index (or `git add` finds nothing) and to HEAD (or `git commit --only` finds
      nothing), and the new tree does not hold the staged-only file. */
  predicate CommitOk(d: Repo, s: Source) {
    var e := EffectsOf(s.records);
    && s.message != ""
    && (forall p :: p in e && e[p] == None ==> p in d.index && p in d.head)
    && HOLD !in Apply(e, d.head)
  }

  ghost predicate Replayable(d: Repo, sources: seq<Source>) {
    forall i :: 0 <= i < |sources| ==> OkAt(d, sources, i)
  }

  /** Git accepts commit `i` where the commits before it leave the destination. */
  ghost predicate OkAt(d: Repo, sources: seq<Source>, i: nat)
    requires i < |sources|
  {
    CommitOk(ApplyAll(AllEffects(sources[..i]), d), sources[i])
  }

  function CreatedFrom(s: Source, tree: Files): Created {
    Created(s.oid, tree, s.author, s.message, Skipped(s.records), s.parentCount)
  }

  /** The commits a replay makes: the i-th tree is the old HEAD under the first i + 1 effects. */
  ghost predicate IsHistory(d: Repo, sources: seq<Source>, created: seq<Created>) {
    && |created| == |sources|
    && forall i :: 0 <= i < |sources| ==>
         var s := sources[i];
         created[i] == Created(s.oid, Apply(AllEffects(sources[..i + 1]), d.head), s.author, s.message,
                               Skipped(s.records), s.parentCount)
  }

  /** `target` with the named paths brought in line with the worktree. */
  function Sync(target: Files, files: Files, paths: seq<Path>): Files {
    map p | p in target.Keys + files.Keys && (if p in paths then p in files else p in target) ::
      if p in paths then files[p] else target[p]
  }

  lemma SyncIsApply(target: Files, before: Files, paths: seq<Path>, e: Effects)
    requires forall p :: p in paths <==> p in e
    ensures Sync(target, Apply(e, before), paths) == Apply(e, target)
  {
  }

  /** `git add` and `git commit --only`, seen from the effects of the records. */
  lemma StageFacts(d: Repo, paths: seq<Path>, e: Effects)
    requires forall p :: p in paths <==> p in e
    ensures var files, index := Apply(e, d.files), Apply(e, d.index);
            && Sync(d.index, files, paths) == index && Sync(index, files, paths) == index
            && Sync(d.head, files, paths) == Apply(e, d.head)
            && (paths == [] ==> index == d.index)
            && ((forall p :: p in paths ==> p in files || p in d.index) <==>
                (forall p :: p in e && e[p] == None ==> p in d.index))
            && ((forall p :: p in paths ==> p in index || p in d.head) <==>
                (forall p :: p in e && e[p] == None ==> p in d.head))
  {
    SyncIsApply(d.index, d.files, paths, e);
    SyncIsApply(d.head, d.files, paths, e);
    SyncIsApply(Apply(e, d.index), d.files, paths, e);
    ApplyTwice(e, e, d.index);
    assert e + e == e;
    assert paths == [] ==> Apply(e, d.index) == d.index;
    var files, index := Apply(e, d.files), Apply(e, d.index);
    assert forall p :: p in e ==> (p in files <==> e[p] != None) && (p in index <==> e[p] != None);
  }

  class Scratch {
    var head: Files
    var index: Files
    var files: Files
    var created: seq<Created>

    constructor (d: Repo)
      ensures Contents() == d && created == []
    {
      head, index, files, created := d.head, d.index, d.files, [];
    }

    function Contents(): Repo
      reads this
    {
      Repo(head, index, files)
    }

    method RemovePath(p: Path)
      modifies this`files
      ensures files == old(files) - {p}
    {
      files := files - {p};
    }

    method WriteBytes(p: Path, data: Blob)
      modifies this`files
      ensures files == old(files)[p := data]
    {
      files := files[p := data];
    }

    method ApplyRecord(r: Record) returns (paths: seq<Path>, skipped: seq<NotCopied>)
      modifies this`files
      ensures files == Apply(Effect(r), old(files))
      ensures forall p :: p in paths <==> p in Effect(r)
      ensures skipped == if Copied(r) then [] else [NotCopied(r.path, SkipReason(r))]
    {
      var reason := SkipReason(r);
      if reason != "" {
        return [], [NotCopied(r.path, reason)];
      }
      skipped := [];
      if r.status == 'D' {
        RemovePath(r.path);
        paths := [r.path];
      } else if r.status == 'R' || r.status == 'C' {
        RemovePath(r.oldPath);
        WriteBytes(r.path, r.newBlob);
        paths := [r.oldPath, r.path];
      } else {
        WriteBytes(r.path, r.newBlob);
        paths := [r.path];
      }
    }

    method ApplyRecords(records: seq<Record>) returns (paths: seq<Path>, notCopied: seq<NotCopied>)
      modifies this`files
      ensures files == Apply(EffectsOf(records), old(files))
      ensures forall p :: p in paths <==> p in EffectsOf(records)
      ensures notCopied == Skipped(records)
    {
      paths, notCopied := [], [];
      assert files == Apply(map[], old(files));
      for i := 0 to |records|
        invariant files == Apply(EffectsOf(records[..i]), old(files))
        invariant forall p :: p in paths <==> p in EffectsOf(records[..i])
        invariant notCopied == Skipped(records[..i])
      {
        var more, skipped := ApplyRecord(records[i]);
        assert records[..i + 1][..i] == records[..i];
        ApplyTwice(EffectsOf(records[..i]), Effect(records[i]), old(files));
        paths, notCopied := paths + more, notCopied + skipped;
      }
      assert records[..|records|] == records;
    }

    /** `git add -A -f -- paths`: fails on a path that is neither in the worktree nor tracked. */
    method GitAdd(paths: seq<Path>) returns (ok: bool)
      modifies this`index
      ensures ok <==> forall p :: p in paths ==> p in files || p in old(index)
      ensures index == if ok then Sync(old(index), files, paths) else old(index)
    {
      ok := forall p | p in paths :: p in files || p in index;
      if ok { index := Sync(index, files, paths); }
    }

    /** `git commit --only --allow-empty --cleanup=verbatim -- paths`: HEAD overlaid at the paths;
        fails on an empty message or a path known to neither the index nor HEAD. */
    method GitCommitOnly(paths: seq<Path>, message: string) returns (ok: bool)
      modifies this`index, this`head
      ensures ok <==> message != "" && forall p :: p in paths ==> p in old(index) || p in old(head)
      ensures head == if ok then Sync(old(head), files, paths) else old(head)
      ensures index == if ok then Sync(old(index), files, paths) else old(index)
    {
      ok := message != "" && forall p | p in paths :: p in index || p in head;
      if ok {
        head := Sync(head, files, paths);
        index := Sync(index, files, paths);
      }
    }

    /** Stage and commit what the records left in the worktree. */
    method StageAndCommit(s: Source, paths: seq<Path>, ghost before: Repo) returns (ok: bool)
      requires head == before.head && index == before.index
      requires files == Apply(EffectsOf(s.records), before.files)
      requires forall p :: p in paths <==> p in EffectsOf(s.records)
      modifies this`index, this`head
      ensures ok <==> CommitOk(before, s)
      ensures ok ==> Contents() == ApplyAll(EffectsOf(s.records), before)
    {
      var deduped := Deduped(paths);
      StageFacts(before, deduped, EffectsOf(s.records));
      var added := true;
      if deduped != [] {
        added := GitAdd(deduped);
      }
      if !added { return false; }
      ok := GitCommitOnly(deduped, s.message);
      ok := ok && HOLD !in head;
    }

    /** One source commit. */
    method ReplayCommit(s: Source) returns (ok: bool, paths: set<Path>)
      modifies this
      ensures ok <==> CommitOk(old(Contents()), s)
      ensures ok ==> Contents() == ApplyAll(EffectsOf(s.records), old(Contents()))
      ensures ok ==> created == old(created) + [CreatedFrom(s, head)]
      ensures paths == EffectsOf(s.records).Keys
    {
      ghost var before := Contents();
      var named, notCopied := ApplyRecords(s.records);
      paths := set p | p in named;
      ok := StageAndCommit(s, named, before);
      if ok {
        created := created + [Created(s.oid, head, s.author, s.message, notCopied, s.parentCount)];
      }
    }
  }

  /** Duplicates dropped, first occurrence kept. */
  method Deduped(paths: seq<Path>) returns (r: seq<Path>)
    ensures NoDup(r)
    ensures forall p :: p in r <==> p in paths
  {
    r := [];
    for i := 0 to |paths|
      invariant NoDup(r)
      invariant forall p :: p in r <==> p in paths[..i]
    {
      if paths[i] !in r { r := r + [paths[i]]; }
      assert paths[..i + 1] == paths[..i] + [paths[i]];
    }
    assert paths[..|paths|] == paths;
  }

  // ----- the untouched check -----

  datatype IndexEntry = IndexEntry(mode: string, blob: Blob)
  type StagedIndex = map<(Path, nat), IndexEntry>

  /** The two maps agree on every key outside `applied`. */
  ghost predicate SameOutside<K(!new), V>(a: map<K, V>, b: map<K, V>, applied: set<K>) {
    forall k :: k !in applied ==> (k in a <==> k in b) && (k in a && k in b ==> a[k] == b[k])
  }

  ghost predicate SameIndexOutside(a: StagedIndex, b: StagedIndex, applied: set<Path>) {
    forall p, n: nat :: p !in applied ==>
      ((p, n) in a <==> (p, n) in b) && ((p, n) in a && (p, n) in b ==> a[(p, n)] == b[(p, n)])
  }

  /** Every item of `a` outside `applied` is in `b` with the same value. */
  method ItemsKept(a: Files, b: Files, applied: set<Path>) returns (ok: bool)
    ensures ok <==> forall p :: p in a && p !in applied ==> p in b && b[p] == a[p]
  {
    var todo := a.Keys;
    while todo != {}
      invariant todo <= a.Keys
      invariant forall p :: p in a.Keys - todo && p !in applied ==> p in b && b[p] == a[p]
      decreases todo
    {
      var p :| p in todo;
      if p !in applied && (p !in b || b[p] != a[p]) {
        return false;
      }
      todo := todo - {p};
    }
    ok := true;
  }

  function KeptEntries(index: StagedIndex, applied: set<Path>): StagedIndex {
    map k | k in index && k.0 !in applied :: index[k]
  }

  /** `_assert_untouched_preserved` accepts exactly when nothing outside `applied` differs. */
  method AssertUntouched(beforeFiles: Files, afterFiles: Files,
                         beforeIndex: StagedIndex, afterIndex: StagedIndex,
                         applied: set<Path>) returns (r: Result<()>)
    ensures r.Ok? <==>
            SameOutside(beforeFiles, afterFiles, applied) && SameIndexOutside(beforeIndex, afterIndex, applied)
    ensures r == Err("index") <==>
            SameOutside(beforeFiles, afterFiles, applied) && !SameIndexOutside(beforeIndex, afterIndex, applied)
  {
    var kept := ItemsKept(beforeFiles, afterFiles, applied);
    if !kept { return Err("changed worktree path"); }
    kept := ItemsKept(afterFiles, beforeFiles, applied);
    if !kept { return Err("created worktree path"); }
    KeptEntriesEqual(beforeIndex, afterIndex, applied);
    if KeptEntries(beforeIndex, applied) != KeptEntries(afterIndex, applied) { return Err("index"); }
    r := Ok(());
  }

  lemma KeptEntriesEqual(a: StagedIndex, b: StagedIndex, applied: set<Path>)
    ensures KeptEntries(a, applied) == KeptEntries(b, applied) <==> SameIndexOutside(a, b, applied)
  {
    var ka, kb := KeptEntries(a, applied), KeptEntries(b, applied);
    if ka == kb {
      forall p, n: nat | p !in applied
        ensures ((p, n) in a <==> (p, n) in b) && ((p, n) in a && (p, n) in b ==> a[(p, n)] == b[(p, n)])
      {
        assert (p, n) in ka <==> (p, n) in a;
        assert (p, n) in kb <==> (p, n) in b;
        assert (p, n) in a && (p, n) in b ==> ka[(p, n)] == kb[(p, n)];
      }
    }
    if SameIndexOutside(a, b, applied) {
      forall k | k in ka.Keys + kb.Keys
        ensures k in ka && k in kb && ka[k] == kb[k]
      {
        assert k == (k.0, k.1);
      }
      assert ka == kb;
    }
  }

  /** A clean index as the check sees it: stage 0, regular files. */
  function Stage0(index: Files): StagedIndex {
    map k: (Path, nat) | k in (set p | p in index :: (p, 0 as nat)) :: IndexEntry("100644", index[k.0])
  }

  /** Comparing the clean indexes entry by entry is comparing their contents path by path. */
  lemma Stage0Shows(a: Files, b: Files, applied: set<Path>)
    ensures SameIndexOutside(Stage0(a), Stage0(b), applied) <==> SameOutside(a, b, applied)
  {
    forall p
      ensures (p, 0 as nat) in Stage0(a) <==> p in a
      ensures (p, 0 as nat) in Stage0(b) <==> p in b
    {
    }
    if SameIndexOutside(Stage0(a), Stage0(b), applied) {
      forall p | p !in applied
        ensures (p in a <==> p in b) && (p in a && p in b ==> a[p] == b[p])
      {
        assert (p, 0 as nat) in Stage0(a) <==> (p, 0 as nat) in Stage0(b);
        assert p in a && p in b ==> Stage0(a)[(p, 0 as nat)] == Stage0(b)[(p, 0 as nat)];
      }
    }
  }

  lemma UntouchedAfterApply(e: Effects, d: Repo)
    ensures SameOutside(d.files, Apply(e, d.files), e.Keys)
    ensures SameIndexOutside(Stage0(d.index), Stage0(Apply(e, d.index)), e.Keys)
  {
    forall p, n: nat | p !in e.Keys
      ensures (p, n) in Stage0(d.index) <==> (p, n) in Stage0(Apply(e, d.index))
    {
      assert (p, n) in Stage0(d.index) <==> p in d.index && n == 0;
      assert (p, n) in Stage0(Apply(e, d.index)) <==> p in Apply(e, d.index) && n == 0;
    }
  }

  // ----- a whole replay -----

  datatype Replayed = Replayed(
    commits: seq<Created>, index: Files, files: Files, absent: set<Path>,
    finalTree: Files, appliedPaths: set<Path>)

  /** Everything a replay reports, in terms of the effects of the sources. */
  ghost predicate IsReplayed(d: Repo, sources: seq<Source>, r: Replayed) {
    var e := AllEffects(sources);
    && IsHistory(d, sources, r.commits)
    && ApplyAll(e, d) == Repo(r.finalTree, r.index, r.files)
    && r.appliedPaths == e.Keys
    && r.absent == r.index.Keys - r.files.Keys
  }

  /** It is determined: two replays of the same commits onto the same destination report the same. */
  lemma ReplayedIsUnique(d: Repo, sources: seq<Source>, r: Replayed, s: Replayed)
    requires IsReplayed(d, sources, r) && IsReplayed(d, sources, s)
    ensures r == s
  {
    assert r.commits == s.commits;
  }

  /** `replay_commits`: it succeeds exactly on the replayable ranges; then HEAD, index and worktree
      are the old ones under all effects, and the untouched check at its end never raises. */
  method ReplayCommits(d: Repo, sources: seq<Source>) returns (r: Result<Replayed>)
    ensures r.Ok? <==> Replayable(d, sources)
    ensures r.Ok? ==> IsReplayed(d, sources, r.value)
  {
    var scratch := new Scratch(d);
    var applied: set<Path> := {};
    assert ApplyAll(AllEffects(sources[..0]), d) == d;
    for i := 0 to |sources|
      invariant scratch.Contents() == ApplyAll(AllEffects(sources[..i]), d)
      invariant Replayable(d, sources[..i])
      invariant IsHistory(d, sources[..i], scratch.created)
      invariant applied == AllEffects(sources[..i]).Keys
    {
      ReplayableSnoc(d, sources, i);
      var ok, paths := scratch.ReplayCommit(sources[i]);
      if !ok { return Err("git"); }
      HistorySnoc(d, sources, i, scratch.created);
      applied := applied + paths;
    }
    assert sources[..|sources|] == sources;
    UntouchedAfterApply(AllEffects(sources), d);
    var checked := AssertUntouched(d.files, scratch.files, Stage0(d.index), Stage0(scratch.index), applied);
    assert checked.Ok?;  // the check at the end never raises
    r := Ok(Replayed(scratch.created, scratch.index, scratch.files,
                     scratch.index.Keys - scratch.files.Keys, scratch.head, applied));
  }

  lemma OkAtPrefix(d: Repo, sources: seq<Source>, m: nat, i: nat)
    requires i < m <= |sources|
    ensures OkAt(d, sources[..m], i) <==> OkAt(d, sources, i)
  {
    assert sources[..m][..i] == sources[..i];
  }

  lemma ReplayableSnoc(d: Repo, sources: seq<Source>, i: nat)
    requires i < |sources| && Replayable(d, sources[..i])
    ensures Replayable(d, sources) ==> OkAt(d, sources, i)
    ensures OkAt(d, sources, i) ==> Replayable(d, sources[..i + 1])
  {
    if OkAt(d, sources, i) {
      var upTo := sources[..i + 1];
      forall j | 0 <= j <= i
        ensures OkAt(d, upTo, j)
      {
        OkAtPrefix(d, sources, i + 1, j);
        if j < i { OkAtPrefix(d, sources, i, j); }
      }
    }
  }

  lemma {:induction false} HistorySnoc(d: Repo, sources: seq<Source>, i: nat, created: seq<Created>)
    requires i < |sources| && |created| == i + 1
    requires IsHistory(d, sources[..i], created[..i])
    requires var e := AllEffects(sources[..i]);
             created[i] == CreatedFrom(sources[i], Apply(EffectsOf(sources[i].records), Apply(e, d.head)))
    ensures ApplyAll(AllEffects(sources[..i + 1]), d)
            == ApplyAll(EffectsOf(sources[i].records), ApplyAll(AllEffects(sources[..i]), d))
    ensures IsHistory(d, sources[..i + 1], created)
    ensures AllEffects(sources[..i + 1]).Keys == AllEffects(sources[..i]).Keys + EffectsOf(sources[i].records).Keys
  {
    var upTo := sources[..i + 1];
    assert upTo[..i] == sources[..i] && upTo[i] == sources[i];
    var e, f := AllEffects(sources[..i]), EffectsOf(sources[i].records);
    ApplyTwice(e, f, d.head);
    ApplyTwice(e, f, d.index);
    ApplyTwice(e, f, d.files);
    forall j | 0 <= j <= i
      ensures created[j] == CreatedFrom(upTo[j], Apply(AllEffects(upTo[..j + 1]), d.head))
    {
      if j < i {
        assert created[..i][j] == created[j] && sources[..i][j] == upTo[j];
        assert sources[..i][..j + 1] == upTo[..j + 1];
      } else {
        assert upTo[..j + 1] == upTo;
      }
    }
  }
}
