/** Comparing a snapshot with the expected outcome of a step.

    Snapshot listings that are sorted by a unique key are maps here. The empty object id stands
    for "no commit", as it does in the comparison.
 */
module CompareStep {
  import opened Prelude

  type Oid(==,!new) = string
  type Path(==,!new) = string
  type RepoId(==,!new) = string

  datatype Commit = Commit(
    oid: Oid, parents: seq<Oid>, tree: string, authorName: string, authorEmail: string,
    authorTime: string, message: string, committer: string)

  datatype Ref = Ref(oid: Oid, kind: string, peeled: Oid)
  datatype FileRow = FileRow(sha256: string, size: nat, base64: string)
  datatype IndexRow = IndexRow(mode: string, oid: Oid)

  datatype RepoState = RepoState(
    headOid: Oid, headBranch: string, refs: map<string, Ref>, commits: seq<Commit>,
    index: map<(Path, nat), IndexRow>, files: map<Path, FileRow>, absent: set<Path>, rest: string)

  type Snapshot = map<RepoId, RepoState>

  datatype Expected = Expected(
    sourceOid: Oid, tree: string, authorName: string, authorEmail: string, authorTime: string, message: string)

  datatype Op = Delete(path: Path) | Write(path: Path, row: FileRow)

  datatype Step =
    | CommitStep(dest: RepoId, headBranch: string, baselineHead: Oid, expected: seq<Expected>,
                 index: map<(Path, nat), IndexRow>, files: map<Path, FileRow>, absent: set<Path>)
    | FileStep(dest: RepoId, ops: seq<Op>)
    | Negative(snapshotBeforeAction: bool)

  datatype Phase = Initial | Applied

  // ----- the chain of new commits -----

  /** Commits by id; a later commit hides an earlier one with its id. */
  function ByOid(commits: seq<Commit>): (known: map<Oid, Commit>)
    ensures forall o :: o in known ==> known[o].oid == o && known[o] in commits
  {
    if commits == [] then map[]
    else
      var last := commits[|commits| - 1];
      ByOid(commits[..|commits| - 1])[last.oid := last]
  }

  /** The ids are those of the commits, and an id stands for the last commit that has it. */
  lemma {:induction false} LastWithId(commits: seq<Commit>, o: Oid)
    ensures o in ByOid(commits) <==> exists c :: c in commits && c.oid == o
    ensures o in ByOid(commits) ==> exists i :: 0 <= i < |commits| && commits[i] == ByOid(commits)[o]
                                                 && commits[i].oid == o && NoneLater(commits, i)
  {
    if commits != [] {
      var n := |commits| - 1;
      LastWithId(commits[..n], o);
      assert commits == commits[..n] + [commits[n]];
      if commits[n].oid == o {
        assert NoneLater(commits, n);
      } else if o in ByOid(commits[..n]) {
        var i :| 0 <= i < n && commits[..n][i] == ByOid(commits[..n])[o] && commits[i].oid == o
                 && NoneLater(commits[..n], i);
        LaterNone(commits, i);
      }
    }
  }

  /** No later commit has the id of this one. */
  ghost predicate NoneLater(commits: seq<Commit>, i: int)
    requires 0 <= i < |commits|
  {
    forall j :: i < j < |commits| ==> commits[j].oid != commits[i].oid
  }

  lemma {:induction false} LaterNone(commits: seq<Commit>, i: nat)
    requires i < |commits| - 1 && NoneLater(commits[..|commits| - 1], i)
    requires commits[|commits| - 1].oid != commits[i].oid
    ensures NoneLater(commits, i)
  {
    assert forall j :: i < j < |commits| - 1 ==> commits[..|commits| - 1][j] == commits[j];
  }

  function FirstParent(c: Commit): Oid {
    if c.parents == [] then "" else c.parents[0]
  }

  /** `chain`, newest first, is what lies between `current` and the baseline (or a root). */
  ghost predicate NewChain(known: map<Oid, Commit>, current: Oid, baseline: Oid, chain: seq<Commit>)
    decreases |chain|
  {
    if chain == [] then current == "" || current == baseline
    else
      && current != "" && current != baseline && current in known
      && chain[0] == known[current]
      && NewChain(known, FirstParent(chain[0]), baseline, chain[1..])
  }

  /** The id that place `i` of a chain goes on from: the head, then the first parent of each commit, which
      is empty for a root. It is the end exactly after the last commit. */
  ghost predicate ChainAt(known: map<Oid, Commit>, head: Oid, baseline: Oid, chain: seq<Commit>, i: int)
    requires 0 <= i <= |chain|
  {
    var at := if i == 0 then head else if chain[i - 1].parents == [] then "" else chain[i - 1].parents[0];
    if i == |chain| then at == "" || at == baseline
    else at != "" && at != baseline && at in known && chain[i] == known[at]
  }

  ghost predicate IsChain(known: map<Oid, Commit>, head: Oid, baseline: Oid, chain: seq<Commit>) {
    forall i :: 0 <= i <= |chain| ==> ChainAt(known, head, baseline, chain, i)
  }

  lemma {:induction false} PlaceInChain(known: map<Oid, Commit>, head: Oid, baseline: Oid, chain: seq<Commit>, i: nat)
    requires NewChain(known, head, baseline, chain) && i <= |chain|
    ensures ChainAt(known, head, baseline, chain, i)
    decreases |chain|
  {
    if i > 0 {
      PlaceInChain(known, FirstParent(chain[0]), baseline, chain[1..], i - 1);
      LaterPlace(known, head, baseline, chain, i - 1);
    }
  }

  lemma {:induction false} PlacesMakeChain(known: map<Oid, Commit>, head: Oid, baseline: Oid, chain: seq<Commit>)
    requires IsChain(known, head, baseline, chain)
    ensures NewChain(known, head, baseline, chain)
    decreases |chain|
  {
    assert ChainAt(known, head, baseline, chain, 0);
    if chain != [] {
      forall i | 0 <= i < |chain|
        ensures ChainAt(known, FirstParent(chain[0]), baseline, chain[1..], i)
      {
        assert ChainAt(known, head, baseline, chain, i + 1);
        LaterPlace(known, head, baseline, chain, i);
      }
      PlacesMakeChain(known, FirstParent(chain[0]), baseline, chain[1..]);
    }
  }

  /** A chain, place by place. */
  lemma {:induction false} ChainPlaces(known: map<Oid, Commit>, head: Oid, baseline: Oid, chain: seq<Commit>)
    ensures NewChain(known, head, baseline, chain) <==> IsChain(known, head, baseline, chain)
  {
    if NewChain(known, head, baseline, chain) {
      forall i | 0 <= i <= |chain|
        ensures ChainAt(known, head, baseline, chain, i)
      {
        PlaceInChain(known, head, baseline, chain, i);
      }
    } else if IsChain(known, head, baseline, chain) {
      PlacesMakeChain(known, head, baseline, chain);
    }
  }

  lemma {:induction false} LaterPlace(known: map<Oid, Commit>, head: Oid, baseline: Oid, chain: seq<Commit>, i: nat)
    requires i < |chain|
    ensures ChainAt(known, head, baseline, chain, i + 1) <==>
            ChainAt(known, FirstParent(chain[0]), baseline, chain[1..], i)
  {
  }

  /** `walked`, newest first, leads from `head` down to `current` without meeting the baseline. */
  ghost predicate Leads(known: map<Oid, Commit>, head: Oid, baseline: Oid, walked: seq<Commit>, current: Oid)
    decreases |walked|
  {
    if walked == [] then current == head
    else
      && head != "" && head != baseline && head in known
      && walked[0] == known[head]
      && Leads(known, FirstParent(walked[0]), baseline, walked[1..], current)
  }

  lemma {:induction false} LeadsOn(known: map<Oid, Commit>, head: Oid, baseline: Oid, walked: seq<Commit>, current: Oid)
    requires Leads(known, head, baseline, walked, current)
    requires current != "" && current != baseline && current in known
    ensures Leads(known, head, baseline, walked + [known[current]], FirstParent(known[current]))
    decreases |walked|
  {
    if walked == [] {
      assert (walked + [known[current]])[1..] == [];
    } else {
      LeadsOn(known, FirstParent(walked[0]), baseline, walked[1..], current);
      assert (walked + [known[current]])[1..] == walked[1..] + [known[current]];
    }
  }

  /** Every chain from the head continues what was walked, and the other way round. */
  lemma {:induction false} LeadsIsPrefix(known: map<Oid, Commit>, head: Oid, baseline: Oid, walked: seq<Commit>,
                                         current: Oid, chain: seq<Commit>)
    requires Leads(known, head, baseline, walked, current)
    ensures NewChain(known, head, baseline, chain) <==>
            walked <= chain && NewChain(known, current, baseline, chain[|walked|..])
    decreases |walked|
  {
    if walked != [] && chain != [] && chain[0] == walked[0] {
      LeadsIsPrefix(known, FirstParent(walked[0]), baseline, walked[1..], current, chain[1..]);
      assert walked <= chain <==> walked[1..] <= chain[1..] by {
        assert walked == [walked[0]] + walked[1..] && chain == [chain[0]] + chain[1..];
      }
      assert |walked| <= |chain| ==> chain[1..][|walked[1..]|..] == chain[|walked|..];
    }
  }

  lemma {:induction false} ChainIsUnique(known: map<Oid, Commit>, current: Oid, baseline: Oid, s: seq<Commit>,
                                         t: seq<Commit>)
    requires NewChain(known, current, baseline, s) && NewChain(known, current, baseline, t)
    ensures s == t
    decreases |s|
  {
    if s != [] {
      ChainIsUnique(known, FirstParent(s[0]), baseline, s[1..], t[1..]);
      assert s == [s[0]] + s[1..] && t == [t[0]] + t[1..];
    }
  }

  /** A walk that comes back to a commit it has passed never reaches an end. */
  lemma {:induction false} LoopNeverEnds(known: map<Oid, Commit>, head: Oid, baseline: Oid, walked: seq<Commit>,
                                         current: Oid, chain: seq<Commit>, k: nat)
    requires Leads(known, head, baseline, walked, current)
    requires k < |walked| && walked[k].oid == current
    requires forall c :: c in walked ==> c.oid in known && known[c.oid] == c
    requires forall o :: o in known ==> known[o].oid == o
    ensures !NewChain(known, head, baseline, chain)
  {
    if NewChain(known, head, baseline, chain) {
      LeadsIsPrefix(known, head, baseline, walked, current, chain);
      LeadsTo(known, head, baseline, walked, current, k);
      LeadsIsPrefix(known, head, baseline, walked[..k], current, chain);
      ChainIsUnique(known, current, baseline, chain[k..], chain[|walked|..]);
      assert false;
    }
  }

  lemma {:induction false} LeadsTo(known: map<Oid, Commit>, head: Oid, baseline: Oid, walked: seq<Commit>,
                                   current: Oid, k: nat)
    requires Leads(known, head, baseline, walked, current) && k < |walked|
    requires forall o :: o in known ==> known[o].oid == o
    ensures Leads(known, head, baseline, walked[..k], walked[k].oid)
    decreases |walked|
  {
    if k > 0 {
      LeadsTo(known, FirstParent(walked[0]), baseline, walked[1..], current, k - 1);
      assert walked[..k][1..] == walked[1..][..k - 1];
    }
  }

  function Reverse(s: seq<Commit>): (r: seq<Commit>)
    ensures |r| == |s| && forall i :: 0 <= i < |s| ==> r[i] == s[|s| - 1 - i]
  {
    seq(|s|, i requires 0 <= i < |s| => s[|s| - 1 - i])
  }

  lemma ReverseInjective(a: seq<Commit>, b: seq<Commit>)
    requires Reverse(a) == Reverse(b)
    ensures a == b
  {
    assert |a| == |b|;
    forall i | 0 <= i < |a|
      ensures a[i] == b[i]
    {
      assert Reverse(a)[|a| - 1 - i] == Reverse(b)[|a| - 1 - i];
    }
  }

  /** `_new_commits`: the commits between HEAD and the baseline, oldest first. It fails exactly
      when there is no such finite chain of at most 20. */
  method NewCommits(repo: RepoState, baseline: Oid) returns (r: Result<seq<Commit>>)
    ensures r.Ok? <==> exists chain :: NewChain(ByOid(repo.commits), repo.headOid, baseline, chain) && |chain| <= 20
    ensures r.Ok? ==> NewChain(ByOid(repo.commits), repo.headOid, baseline, Reverse(r.value)) && |r.value| <= 20
  {
    var known := ByOid(repo.commits);
    var current := repo.headOid;
    var found: seq<Commit> := [];
    var seen: set<Oid> := {};
    while current != "" && current != baseline
      invariant Leads(known, repo.headOid, baseline, found, current)
      invariant |found| <= 20
      invariant forall c :: c in found ==> c.oid in known && known[c.oid] == c
      invariant seen == set c | c in found :: c.oid
      decreases 20 - |found|
    {
      if current in seen || current !in known {
        forall chain
          ensures !NewChain(known, repo.headOid, baseline, chain)
        {
          LeadsIsPrefix(known, repo.headOid, baseline, found, current, chain);
          if current in seen {
            var k :| 0 <= k < |found| && found[k].oid == current;
            LoopNeverEnds(known, repo.headOid, baseline, found, current, chain, k);
          }
        }
        return Err("new commit chain does not lead back to the baseline HEAD");
      }
      seen := seen + {current};
      LeadsOn(known, repo.headOid, baseline, found, current);
      found := found + [known[current]];
      current := FirstParent(known[current]);
      if |found| > 20 {
        forall chain
          ensures !(NewChain(known, repo.headOid, baseline, chain) && |chain| <= 20)
        {
          LeadsIsPrefix(known, repo.headOid, baseline, found, current, chain);
        }
        return Err("too many new commits");
      }
    }
    LeadsIsPrefix(known, repo.headOid, baseline, found, current, found);
    assert Reverse(Reverse(found)) == found;
    r := Ok(Reverse(found));
  }

  // ----- file steps -----

  /** The last operation on a path. */
  ghost function LastOp(ops: seq<Op>, p: Path): Option<Op> {
    if ops == [] then None
    else if ops[|ops| - 1].path == p then Some(ops[|ops| - 1])
    else LastOp(ops[..|ops| - 1], p)
  }

  function RowAt(files: map<Path, FileRow>, p: Path): Option<FileRow> {
    if p in files then Some(files[p]) else None
  }

  /** The last operation on a path decides; a path without one keeps its row. */
  ghost predicate FilesAfter(ops: seq<Op>, before: map<Path, FileRow>, after: map<Path, FileRow>) {
    forall p :: RowAt(after, p) ==
      match LastOp(ops, p)
      case None => RowAt(before, p)
      case Some(Delete(_)) => None
      case Some(Write(_, row)) => Some(row)
  }

  /** Deleted last: listed as absent; written last: not listed. */
  ghost predicate AbsentAfter(ops: seq<Op>, before: set<Path>, after: set<Path>) {
    forall p :: p in after <==> AbsentAt(ops, before, p)
  }

  ghost predicate AbsentAt(ops: seq<Op>, before: set<Path>, p: Path) {
    match LastOp(ops, p)
    case None => p in before
    case Some(op) => op.Delete?
  }

  /** `_apply_file_delta` on the two listings it changes. */
  method ApplyFileDelta(base: RepoState, ops: seq<Op>) returns (r: RepoState)
    ensures FilesAfter(ops, base.files, r.files) && AbsentAfter(ops, base.absent, r.absent)
    ensures r == base.(files := r.files, absent := r.absent)
  {
    var files, absent := base.files, base.absent;
    for i := 0 to |ops|
      invariant FilesAfter(ops[..i], base.files, files)
      invariant AbsentAfter(ops[..i], base.absent, absent)
    {
      var op := ops[i];
      assert ops[..i + 1][..i] == ops[..i];
      if op.Delete? {
        files, absent := files - {op.path}, absent + {op.path};
      } else {
        files, absent := files[op.path := op.row], absent - {op.path};
      }
    }
    assert ops[..|ops|] == ops;
    r := base.(files := files, absent := absent);
  }

  /** The outcome is determined: two results that satisfy the description are one. */
  lemma FileOutcomeIsUnique(ops: seq<Op>, before: map<Path, FileRow>, a: map<Path, FileRow>, b: map<Path, FileRow>)
    requires FilesAfter(ops, before, a) && FilesAfter(ops, before, b)
    ensures a == b
  {
    forall p
      ensures (p in a <==> p in b) && (p in a && p in b ==> a[p] == b[p])
    {
      assert RowAt(a, p) == RowAt(b, p);
    }
  }

  /** A snapshot's absent paths: in the index, with no file. */
  function AbsentOf(index: map<(Path, nat), IndexRow>, files: map<Path, FileRow>): set<Path> {
    (set k | k in index :: k.0) - files.Keys
  }

  /** A step's own operations, carried out on the worktree: files as the operations leave them, nothing
      else touched. */
  ghost predicate IsOwnOutcome(ops: seq<Op>, was: RepoState, now: RepoState) {
    && FilesAfter(ops, was.files, now.files)
    && now == was.(files := now.files, absent := AbsentOf(was.index, now.files))
  }

  /** The file step accepts its own outcome exactly when every path it deletes last is in the index: a
      deleted untracked file is expected among the absent paths, where no snapshot lists it. */
  lemma OwnFileStepAccepted(step: Step, base: Snapshot, now: RepoState)
    requires step.FileStep? && step.dest in base
    requires base[step.dest].absent == AbsentOf(base[step.dest].index, base[step.dest].files)
    requires IsOwnOutcome(step.ops, base[step.dest], now)
    ensures Accepted(step, base, None, base[step.dest := now], Applied) <==>
            forall p :: DeletedLast(step.ops, p) ==> InIndex(base[step.dest].index, p)
  {
    var was := base[step.dest];
    forall p
      ensures (p in now.absent <==> AbsentAt(step.ops, was.absent, p)) <==>
              (DeletedLast(step.ops, p) ==> InIndex(was.index, p))
    {
      AbsentOfOwn(step.ops, was, now, p);
    }
  }

  predicate InIndex(index: map<(Path, nat), IndexRow>, p: Path) { exists k :: k in index && k.0 == p }

  ghost predicate DeletedLast(ops: seq<Op>, p: Path) {
    LastOp(ops, p).Some? && LastOp(ops, p).value.Delete?
  }

  lemma AbsentOfOwn(ops: seq<Op>, was: RepoState, now: RepoState, p: Path)
    requires was.absent == AbsentOf(was.index, was.files) && IsOwnOutcome(ops, was, now)
    ensures (p in now.absent <==> AbsentAt(ops, was.absent, p)) <==>
            (DeletedLast(ops, p) ==> InIndex(was.index, p))
  {
    assert RowAt(now.files, p).Some? <==> p in now.files;
    assert RowAt(was.files, p).Some? <==> p in was.files;
  }

  /** A file step that deletes an untracked file is never met. */
  lemma UntrackedDeleteFails(dest: RepoId, p: Path, row: FileRow, was: RepoState, now: RepoState)
    requires was.index == map[] && was.files == map[p := row] && was.absent == {}
    requires now == was.(files := map[])
    ensures IsOwnOutcome([Delete(p)], was, now)
    ensures !Accepted(FileStep(dest, [Delete(p)]), map[dest := was], None, map[dest := was][dest := now], Applied)
  {
    var ops := [Delete(p)];
    assert forall q :: LastOp(ops, q) == if q == p then Some(Delete(p)) else None by {
      assert ops[..0] == [];
    }
    assert IsOwnOutcome(ops, was, now);
    OwnFileStepAccepted(FileStep(dest, ops), map[dest := was], now);
    assert DeletedLast(ops, p) && !InIndex(was.index, p);
  }

  // ----- the comparison -----

  predicate Matches(c: Commit, want: Expected) {
    && c.tree == want.tree && c.authorName == want.authorName && c.authorEmail == want.authorEmail
    && c.authorTime == want.authorTime && c.message == want.message
  }

  /** `created`, oldest first, is the expected replay on top of the baseline HEAD: at most 20
      single-parent commits, each on the one before, with the expected tree, author and message,
      none of them a pinned source commit. */
  ghost predicate ReplayedOnto(repo: RepoState, baseline: Oid, expected: seq<Expected>, created: seq<Commit>) {
    && |created| == |expected| <= 20
    && NewChain(ByOid(repo.commits), repo.headOid, baseline, Reverse(created))
    && forall i :: 0 <= i < |created| ==>
         |created[i].parents| == 1 && Matches(created[i], expected[i]) && created[i].oid != expected[i].sourceOid
  }

  ghost predicate RefsMoved(branch: string, base: map<string, Ref>, got: map<string, Ref>, head: Oid) {
    && got.Keys == base.Keys
    && (forall name :: name in base && name != branch ==> got[name] == base[name])
    && branch in got && got[branch].oid == head
  }

  ghost predicate OthersEqual(dest: RepoId, base: Snapshot, got: Snapshot) {
    got.Keys == base.Keys && forall id :: id in base && id != dest ==> got[id] == base[id]
  }

  ghost predicate CommitAccepted(step: Step, base: Snapshot, got: Snapshot)
    requires step.CommitStep?
  {
    && OthersEqual(step.dest, base, got) && step.dest in got
    && var repo := got[step.dest];
       && repo.headBranch == step.headBranch
       && repo.index == step.index && repo.files == step.files && repo.absent == step.absent
       && RefsMoved(step.headBranch, base[step.dest].refs, repo.refs, repo.headOid)
       && exists created :: ReplayedOnto(repo, step.baselineHead, step.expected, created)
  }

  ghost predicate FileAccepted(step: Step, base: Snapshot, got: Snapshot)
    requires step.FileStep?
  {
    && OthersEqual(step.dest, base, got) && step.dest in got
    && var was, repo := base[step.dest], got[step.dest];
       && FilesAfter(step.ops, was.files, repo.files) && AbsentAfter(step.ops, was.absent, repo.absent)
       && repo == was.(files := repo.files, absent := repo.absent)
  }

  /** What `compare_step` accepts. A no-write step compares with a full snapshot, and one whose
      oracle is the snapshot taken just before the action needs that snapshot to be given. */
  ghost predicate Accepted(step: Step, manifest: Snapshot, baseline: Option<Snapshot>, got: Snapshot, phase: Phase) {
    var base := if baseline.Some? then baseline.value else manifest;
    if phase == Initial then got == base
    else match step
      case Negative(strict) => got == base && (strict ==> baseline.Some?)
      case FileStep(_, _) => FileAccepted(step, base, got)
      case CommitStep(_, _, _, _, _, _, _) => CommitAccepted(step, base, got)
  }

  /** A step that writes nothing, and any step before its action, accepts one snapshot only. One whose
      oracle is the snapshot taken before the action accepts none if that snapshot is missing. */
  lemma {:induction false} NothingWritten(step: Step, manifest: Snapshot, before: Snapshot, got: Snapshot)
    ensures Accepted(step, manifest, None, got, Initial) <==> got == manifest
    ensures Accepted(step, manifest, Some(before), got, Initial) <==> got == before
    ensures step.Negative? ==> (Accepted(step, manifest, Some(before), got, Applied) <==> got == before)
    ensures step.Negative? ==>
              (Accepted(step, manifest, None, got, Applied) <==> got == manifest && !step.snapshotBeforeAction)
  {
  }

  method OthersUnchanged(dest: RepoId, base: Snapshot, got: Snapshot) returns (ok: bool)
    requires got.Keys == base.Keys
    ensures ok <==> OthersEqual(dest, base, got)
  {
    ok := forall id | id in base :: id != dest ==> got[id] == base[id];
  }

  method CreatedMatches(created: seq<Commit>, expected: seq<Expected>) returns (ok: bool)
    ensures ok <==> |created| == |expected| && forall i :: 0 <= i < |created| ==>
              |created[i].parents| == 1 && Matches(created[i], expected[i]) && created[i].oid != expected[i].sourceOid
  {
    if |created| != |expected| { return false; }
    for i := 0 to |created|
      invariant forall j :: 0 <= j < i ==>
        |created[j].parents| == 1 && Matches(created[j], expected[j]) && created[j].oid != expected[j].sourceOid
    {
      if |created[i].parents| != 1 || !Matches(created[i], expected[i]) { return false; }
      if created[i].oid == expected[i].sourceOid { return false; }
    }
    ok := true;
  }

  method RefsMatch(branch: string, base: map<string, Ref>, got: map<string, Ref>, head: Oid) returns (ok: bool)
    ensures ok <==> RefsMoved(branch, base, got, head)
  {
    if got.Keys != base.Keys { return false; }
    var others := forall name | name in base :: name != branch ==> got[name] == base[name];
    ok := others && branch in got && got[branch].oid == head;
  }

  method CompareFileStep(ops: seq<Op>, was: RepoState, repo: RepoState) returns (r: Result<()>)
    ensures r.Ok? <==>
            && FilesAfter(ops, was.files, repo.files) && AbsentAfter(ops, was.absent, repo.absent)
            && repo == was.(files := repo.files, absent := repo.absent)
  {
    var expected := ApplyFileDelta(was, ops);
    if FilesAfter(ops, was.files, repo.files) {
      FileOutcomeIsUnique(ops, was.files, repo.files, expected.files);
    }
    r := if expected == repo then Ok(()) else Err("working tree does not match the file plan");
  }

  method CompareCommitStep(step: Step, was: RepoState, repo: RepoState) returns (r: Result<()>)
    requires step.CommitStep?
    ensures r.Ok? <==>
            && repo.headBranch == step.headBranch
            && repo.index == step.index && repo.files == step.files && repo.absent == step.absent
            && RefsMoved(step.headBranch, was.refs, repo.refs, repo.headOid)
            && exists created :: ReplayedOnto(repo, step.baselineHead, step.expected, created)
  {
    if repo.headBranch != step.headBranch { return Err("HEAD branch name changed"); }
    var chain := NewCommits(repo, step.baselineHead);
    if chain.Err? {
      forall created
        ensures !ReplayedOnto(repo, step.baselineHead, step.expected, created)
      {
        assert |Reverse(created)| == |created|;
      }
      return Err(chain.error);
    }
    var created := chain.value;
    var ok := CreatedMatches(created, step.expected);
    OnlyChain(repo, step.baselineHead, step.expected, created);
    if !ok { return Err("replayed commits do not match"); }
    if repo.index != step.index { return Err("index does not match the commit-only oracle"); }
    if repo.files != step.files || repo.absent != step.absent { return Err("worktree bytes do not match"); }
    ok := RefsMatch(step.headBranch, was.refs, repo.refs, repo.headOid);
    if !ok { return Err("refs do not match"); }
    assert ReplayedOnto(repo, step.baselineHead, step.expected, created);
    r := Ok(());
  }

  lemma OnlyChain(repo: RepoState, baseline: Oid, expected: seq<Expected>, created: seq<Commit>)
    requires NewChain(ByOid(repo.commits), repo.headOid, baseline, Reverse(created))
    ensures forall other :: ReplayedOnto(repo, baseline, expected, other) ==> other == created
  {
    forall other | ReplayedOnto(repo, baseline, expected, other)
      ensures other == created
    {
      ChainIsUnique(ByOid(repo.commits), repo.headOid, baseline, Reverse(created), Reverse(other));
      ReverseInjective(created, other);
    }
  }

  /** `compare_step` for a known step. */
  method Compare(step: Step, manifest: Snapshot, baseline: Option<Snapshot>, got: Snapshot, phase: Phase)
    returns (r: Result<()>)
    requires !step.Negative? ==> step.dest in manifest && (baseline.Some? ==> step.dest in baseline.value)
    ensures r.Ok? <==> Accepted(step, manifest, baseline, got, phase)
  {
    var base := if baseline.Some? then baseline.value else manifest;
    if base.Keys != got.Keys { return Err("snapshot repo ids differ from the fixture"); }
    if step.Negative? && step.snapshotBeforeAction && phase == Applied && baseline.None? {
      return Err("the oracle is the snapshot taken immediately before the action");
    }
    if phase == Initial || step.Negative? {
      if got != base { return Err("expected the full baseline snapshot"); }
      return Ok(());
    }
    var others := OthersUnchanged(step.dest, base, got);
    if !others { return Err("unselected repo changed"); }
    if step.FileStep? {
      r := CompareFileStep(step.ops, base[step.dest], got[step.dest]);
      return;
    }
    r := CompareCommitStep(step, base[step.dest], got[step.dest]);
  }

  // ----- what acceptance means -----

  /** No commit names the empty id as a parent. */
  ghost predicate WellFormed(commits: seq<Commit>) {
    forall c :: c in commits ==> "" !in c.parents
  }

  lemma {:induction false} ChainLinks(known: map<Oid, Commit>, head: Oid, baseline: Oid, chain: seq<Commit>, i: nat)
    requires NewChain(known, head, baseline, chain) && i < |chain|
    requires forall o :: o in known ==> known[o].oid == o
    ensures chain[i].oid in known && known[chain[i].oid] == chain[i]
    ensures chain[i].oid != "" && chain[i].oid != baseline
    ensures i == 0 ==> chain[i].oid == head
    ensures i > 0 ==> chain[i].oid == FirstParent(chain[i - 1])
    ensures i == |chain| - 1 ==> FirstParent(chain[i]) in {"", baseline}
    decreases |chain|
  {
    if i > 0 {
      ChainLinks(known, FirstParent(chain[0]), baseline, chain[1..], i - 1);
    } else if |chain| > 1 {
      assert chain[1..] != [];
    }
  }

  /** `created[i]` is a known new commit whose only parent is the one below it. */
  ghost predicate LinkAt(known: map<Oid, Commit>, baseline: Oid, created: seq<Commit>, i: int)
    requires 0 <= i < |created|
  {
    && created[i].oid in known && known[created[i].oid] == created[i]
    && created[i].oid != "" && created[i].oid != baseline
    && created[i].parents == [if i == 0 then baseline else created[i - 1].oid]
  }

  function HeadOf(baseline: Oid, created: seq<Commit>): Oid {
    if created == [] then baseline else created[|created| - 1].oid
  }

  lemma LinkedUp(repo: RepoState, baseline: Oid, expected: seq<Expected>, created: seq<Commit>, i: nat)
    requires ReplayedOnto(repo, baseline, expected, created) && i < |created|
    requires WellFormed(repo.commits)
    ensures LinkAt(ByOid(repo.commits), baseline, created, i)
    ensures i == |created| - 1 ==> created[i].oid == repo.headOid
  {
    var known, chain := ByOid(repo.commits), Reverse(created);
    var j := |created| - 1 - i;
    assert chain[j] == created[i];
    ChainLinks(known, repo.headOid, baseline, chain, j);
    assert created[i].parents[0] in created[i].parents;
    if i > 0 {
      ChainLinks(known, repo.headOid, baseline, chain, j + 1);
      assert chain[j + 1] == created[i - 1];
    }
  }

  /** An accepted commit step: HEAD stands on exactly the expected number of single-parent commits
      above the baseline HEAD, in order. The walk also ends when it runs off a root, but a root has
      no parent and is refused, so that never happens here. */
  lemma AcceptedReachesBaseline(step: Step, base: Snapshot, got: Snapshot) returns (created: seq<Commit>)
    requires step.CommitStep? && CommitAccepted(step, base, got)
    requires WellFormed(got[step.dest].commits) && got[step.dest].headOid != ""
    ensures |created| == |step.expected|
    ensures forall i :: 0 <= i < |created| ==>
              && LinkAt(ByOid(got[step.dest].commits), step.baselineHead, created, i)
              && Matches(created[i], step.expected[i])
    ensures got[step.dest].headOid == HeadOf(step.baselineHead, created)
  {
    var repo := got[step.dest];
    created :| ReplayedOnto(repo, step.baselineHead, step.expected, created);
    forall i | 0 <= i < |created|
      ensures LinkAt(ByOid(repo.commits), step.baselineHead, created, i)
      ensures i == |created| - 1 ==> created[i].oid == repo.headOid
    {
      LinkedUp(repo, step.baselineHead, step.expected, created, i);
    }
    if created == [] {
      assert Reverse(created) == [];
    }
  }

  /** The replay's own result: the expected commits, one on the other above the baseline HEAD. */
  ghost predicate IsReplayResult(step: Step, base: Snapshot, got: Snapshot, created: seq<Commit>)
    requires step.CommitStep?
  {
    && OthersEqual(step.dest, base, got) && step.dest in got
    && var repo := got[step.dest];
       && repo.headBranch == step.headBranch
       && repo.index == step.index && repo.files == step.files && repo.absent == step.absent
       && RefsMoved(step.headBranch, base[step.dest].refs, repo.refs, repo.headOid)
       && |created| == |step.expected|
       && repo.headOid == HeadOf(step.baselineHead, created)
       && (forall i :: 0 <= i < |created| ==> LinkAt(ByOid(repo.commits), step.baselineHead, created, i))
       && (forall i :: 0 <= i < |created| ==> Matches(created[i], step.expected[i]))
  }

  lemma {:induction false} LinkedIsChain(known: map<Oid, Commit>, baseline: Oid, created: seq<Commit>)
    requires forall i :: 0 <= i < |created| ==> LinkAt(known, baseline, created, i)
    ensures NewChain(known, HeadOf(baseline, created), baseline, Reverse(created))
    decreases |created|
  {
    if created != [] {
      var n := |created| - 1;
      forall i | 0 <= i < n
        ensures LinkAt(known, baseline, created[..n], i)
      {
        assert LinkAt(known, baseline, created, i);
      }
      LinkedIsChain(known, baseline, created[..n]);
      assert LinkAt(known, baseline, created, n);
      assert Reverse(created)[1..] == Reverse(created[..n]);
    }
  }

  /** The comparison accepts the replay's own result exactly up to 20 commits, provided no new
      commit came out with the very id of its source. */
  lemma ReplayResultAccepted(step: Step, base: Snapshot, got: Snapshot, created: seq<Commit>)
    requires step.CommitStep? && IsReplayResult(step, base, got, created)
    ensures CommitAccepted(step, base, got) <==>
            |created| <= 20 && forall i :: 0 <= i < |created| ==> created[i].oid != step.expected[i].sourceOid
  {
    var repo := got[step.dest];
    LinkedIsChain(ByOid(repo.commits), step.baselineHead, created);
    OnlyChain(repo, step.baselineHead, step.expected, created);
    if |created| <= 20 && forall i :: 0 <= i < |created| ==> created[i].oid != step.expected[i].sourceOid {
      forall i | 0 <= i < |created|
        ensures |created[i].parents| == 1
      {
        assert LinkAt(ByOid(repo.commits), step.baselineHead, created, i);
      }
      assert ReplayedOnto(repo, step.baselineHead, step.expected, created);
    }
  }
}
