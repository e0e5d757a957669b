/** What a replay means: the destination follows the source wherever the last change of a path was
    copied, keeps everything else, and never commits a staged-only file.
 */
module ReplayMeaning {
  import opened Prelude
  import opened CommitGraph
  import opened Replay
  import Utf8

  datatype Entry = Entry(mode: string, blob: Blob)
  type Tree = map<Path, Entry>

  datatype SourceRepo = SourceRepo(graph: Graph, trees: map<Oid, Tree>)

  function Contents(t: Tree): Files {
    map p | p in t :: t[p].blob
  }

  function ContentAt(t: Tree, p: Path): Option<Blob> {
    if p in t then Some(t[p].blob) else None
  }

  function FileAt(f: Files, p: Path): Option<Blob> {
    if p in f then Some(f[p]) else None
  }

  /** A raw record as `diff-tree -r -M` prints it between two trees: A, D, M, T or R, never C. */
  ghost predicate RecordFits(r: Record, before: Tree, after: Tree) {
    && r.status in {'A', 'D', 'M', 'T', 'R'}
    && (r.status in {'A', 'M', 'T', 'R'} ==> r.path in after && after[r.path] == Entry(r.newMode, r.newBlob))
    && (r.status == 'D' ==> r.path !in after && r.path in before && before[r.path] == Entry(r.oldMode, r.oldBlob))
    && (r.status == 'R' ==>
          && r.oldPath !in after && r.oldPath in before && before[r.oldPath] == Entry(r.oldMode, r.oldBlob)
          && (SpecialMode(r.oldMode) <==> SpecialMode(r.newMode)))
  }

  ghost predicate TouchedBy(records: seq<Record>, p: Path) {
    exists r :: r in records && p in Touched(r)
  }

  ghost predicate CopiedBy(records: seq<Record>, p: Path) {
    exists r :: r in records && p in Touched(r) && Copied(r)
  }

  /** `diff-tree` between two trees: fitting records that name every path that differs. */
  ghost predicate IsDiff(records: seq<Record>, before: Tree, after: Tree) {
    && (forall r :: r in records ==> RecordFits(r, before, after))
    && (forall p :: !TouchedBy(records, p) ==> (p in before <==> p in after))
    && (forall p :: !TouchedBy(records, p) && p in before && p in after ==> before[p] == after[p])
  }

  function FirstParentTree(repo: SourceRepo, oid: Oid): Tree {
    if oid in repo.graph && repo.graph[oid] != [] && repo.graph[oid][0] in repo.trees
    then repo.trees[repo.graph[oid][0]] else map[]
  }

  /** What the replay reads of each selected commit: its diff against its first parent, against
      the empty tree for a root. */
  ghost predicate SourcesOf(repo: SourceRepo, oids: seq<Oid>, sources: seq<Source>) {
    && |sources| == |oids|
    && (forall i :: 0 <= i < |oids| ==>
          && oids[i] in repo.trees && sources[i].oid == oids[i]
          && IsDiff(sources[i].records, FirstParentTree(repo, oids[i]), repo.trees[oids[i]]))
  }

  lemma {:induction false} SourcesPrefix(repo: SourceRepo, oids: seq<Oid>, sources: seq<Source>, n: nat)
    requires SourcesOf(repo, oids, sources) && n <= |oids|
    ensures SourcesOf(repo, oids[..n], sources[..n])
    ensures AllCopied(sources) ==> AllCopied(sources[..n])
  {
    forall i | 0 <= i < n
      ensures oids[..n][i] == oids[i] && sources[..n][i] == sources[i]
    {
    }
  }

  // ----- one commit -----

  /** Exactly the copied paths have an effect, and it is their content in the new tree. */
  lemma {:induction false} EffectsAreNewContent(records: seq<Record>, before: Tree, after: Tree, p: Path)
    requires forall r :: r in records ==> RecordFits(r, before, after)
    ensures p in EffectsOf(records) <==> CopiedBy(records, p)
    ensures p in EffectsOf(records) ==> EffectsOf(records)[p] == ContentAt(after, p)
  {
    if records != [] {
      var rest, last := records[..|records| - 1], records[|records| - 1];
      EffectsAreNewContent(rest, before, after, p);
      assert records == rest + [last];
      assert RecordFits(last, before, after);
      assert p in Effect(last) <==> p in Touched(last) && Copied(last);
      assert CopiedBy(records, p) <==> CopiedBy(rest, p) || (p in Touched(last) && Copied(last));
    }
  }

  // ----- a range of commits -----

  /** The destination holds the source tip's content of `p`: the last commit of the range that
      touches `p` copied it, or none touches it and both sides agreed at the start. */
  ghost predicate Tracks(sources: seq<Source>, base: Tree, head: Files, p: Path) {
    if sources == [] then FileAt(head, p) == ContentAt(base, p)
    else
      var last := sources[|sources| - 1].records;
      if TouchedBy(last, p) then CopiedBy(last, p) else Tracks(sources[..|sources| - 1], base, head, p)
  }

  function BaseTree(repo: SourceRepo, oids: seq<Oid>): Tree
    requires oids != []
  {
    FirstParentTree(repo, oids[0])
  }

  /** The replayed HEAD holds the tip's content at every tracked path. */
  lemma {:induction false} ReplayFollowsTip(repo: SourceRepo, tip: Oid, oids: seq<Oid>, sources: seq<Source>,
                                            head: Files, p: Path)
    requires LineBelow(repo.graph, tip, oids) && SourcesOf(repo, oids, sources)
    requires Tracks(sources, BaseTree(repo, oids), head, p)
    ensures FileAt(Apply(AllEffects(sources), head), p) == ContentAt(repo.trees[tip], p)
    decreases |oids|
  {
    var n := |oids| - 1;
    var records := sources[n].records;
    var before, after := FirstParentTree(repo, tip), repo.trees[tip];
    EffectsAreNewContent(records, before, after, p);
    if !TouchedBy(records, p) {
      assert !CopiedBy(records, p);
      assert ContentAt(before, p) == ContentAt(after, p);
      if n == 0 {
        assert sources[..0] == [];
      } else {
        var parent := repo.graph[tip][0];
        LineParent(repo.graph, tip, oids);
        SourcesPrefix(repo, oids, sources, n);
        ReplayFollowsTip(repo, parent, oids[..n], sources[..n], head, p);
      }
    }
  }

  lemma LineParent(g: Graph, tip: Oid, oids: seq<Oid>)
    requires LineBelow(g, tip, oids) && |oids| > 1
    ensures LineBelow(g, g[tip][0], oids[..|oids| - 1]) && oids[|oids| - 2] == g[tip][0]
  {
  }

  /** A path no copied record names keeps its place on all three sides, commit by commit. */
  lemma {:induction false} UncopiedPathStays(sources: seq<Source>, d: Repo, p: Path)
    requires forall i, r :: 0 <= i < |sources| && r in sources[i].records ==> !(p in Touched(r) && Copied(r))
    ensures p !in AllEffects(sources)
    ensures var e := AllEffects(sources);
            && FileAt(Apply(e, d.head), p) == FileAt(d.head, p)
            && FileAt(Apply(e, d.index), p) == FileAt(d.index, p)
            && FileAt(Apply(e, d.files), p) == FileAt(d.files, p)
  {
    if sources != [] {
      var n := |sources| - 1;
      UncopiedPathStays(sources[..n], d, p);
      EffectKeys(sources[n].records, p);
    }
  }

  lemma {:induction false} EffectKeys(records: seq<Record>, p: Path)
    ensures p in EffectsOf(records) ==> CopiedBy(records, p)
  {
    if records != [] {
      var rest, last := records[..|records| - 1], records[|records| - 1];
      EffectKeys(rest, p);
      assert records == rest + [last];
      assert p in Effect(last) ==> p in Touched(last) && Copied(last);
    }
  }

  /** A file staged in the destination but absent from its HEAD and from every copied record stays
      staged with its bytes and enters no created tree. */
  lemma {:induction false} StagedOnlyFileStays(sources: seq<Source>, d: Repo, created: seq<Created>, p: Path)
    requires IsHistory(d, sources, created)
    requires p in d.index && p !in d.head
    requires forall i, r :: 0 <= i < |sources| && r in sources[i].records ==> !(p in Touched(r) && Copied(r))
    ensures FileAt(Apply(AllEffects(sources), d.index), p) == Some(d.index[p])
    ensures forall i :: 0 <= i < |created| ==> p !in created[i].tree
  {
    UncopiedPathStays(sources, d, p);
    forall i | 0 <= i < |created|
      ensures p !in created[i].tree
    {
      UncopiedPathStays(sources[..i + 1], d, p);
    }
  }

  /** Every applied path ends clean: HEAD, index and worktree agree on it. */
  lemma AppliedPathsEndClean(sources: seq<Source>, d: Repo, p: Path)
    requires p in AllEffects(sources)
    ensures var e := AllEffects(sources);
            FileAt(Apply(e, d.head), p) == FileAt(Apply(e, d.index), p) == FileAt(Apply(e, d.files), p) == e[p]
  {
  }

  // ----- nothing skipped, starting at the base -----

  ghost predicate AllCopied(sources: seq<Source>) {
    forall i, r :: 0 <= i < |sources| && r in sources[i].records ==> Copied(r)
  }

  lemma {:induction false} AllCopiedTracks(sources: seq<Source>, base: Tree, head: Files, p: Path)
    requires AllCopied(sources) && FileAt(head, p) == ContentAt(base, p)
    ensures Tracks(sources, base, head, p)
  {
    if sources != [] {
      var n := |sources| - 1;
      assert forall r :: r in sources[n].records ==> Copied(r);
      assert AllCopied(sources[..n]);
      AllCopiedTracks(sources[..n], base, head, p);
    }
  }

  /** From the base tree, with nothing skipped, the whole range ends at the tip's contents. */
  lemma {:induction false} BaseBecomesTip(repo: SourceRepo, tip: Oid, oids: seq<Oid>, sources: seq<Source>, head: Files)
    requires LineBelow(repo.graph, tip, oids) && SourcesOf(repo, oids, sources)
    requires AllCopied(sources) && head == Contents(BaseTree(repo, oids))
    ensures Apply(AllEffects(sources), head) == Contents(repo.trees[tip])
  {
    var tree := Apply(AllEffects(sources), head);
    forall p
      ensures FileAt(tree, p) == ContentAt(repo.trees[tip], p)
    {
      AllCopiedTracks(sources, BaseTree(repo, oids), head, p);
      ReplayFollowsTip(repo, tip, oids, sources, head, p);
    }
    SameFiles(tree, repo.trees[tip]);
  }

  /** From the base tree, with nothing skipped, every created commit's tree holds its source tree's
      contents; for regular files it is that tree. */
  lemma {:induction false} ReplayFromBaseIsExact(repo: SourceRepo, tip: Oid, oids: seq<Oid>, sources: seq<Source>,
                                                 d: Repo, created: seq<Created>, i: nat)
    requires LineBelow(repo.graph, tip, oids) && SourcesOf(repo, oids, sources)
    requires AllCopied(sources) && d.head == Contents(BaseTree(repo, oids))
    requires IsHistory(d, sources, created) && i < |oids|
    ensures created[i].tree == Contents(repo.trees[oids[i]])
    ensures created[i].sourceOid == oids[i] && created[i].notCopied == []
    ensures AllRegular(repo.trees[oids[i]]) ==> Regular(created[i].tree) == repo.trees[oids[i]]
  {
    LinePrefix(repo.graph, tip, oids, i);
    var o, s := oids[..i + 1], sources[..i + 1];
    SourcesPrefix(repo, oids, sources, i + 1);
    BaseBecomesTip(repo, oids[i], o, s, d.head);
    RegularContents(repo.trees[oids[i]]);
    NothingSkipped(sources[i].records);
  }

  ghost predicate AllRegular(t: Tree) { forall p :: p in t ==> t[p].mode == "100644" }

  /** The tree that Git makes of regular files. */
  function Regular(f: Files): Tree { map p | p in f :: Entry("100644", f[p]) }

  lemma RegularContents(t: Tree)
    ensures AllRegular(t) ==> Regular(Contents(t)) == t
  {
    if AllRegular(t) {
      assert forall p :: p in t ==> t[p] == Entry("100644", t[p].blob);
    }
  }

  lemma SameFiles(f: Files, t: Tree)
    requires forall p :: FileAt(f, p) == ContentAt(t, p)
    ensures f == Contents(t)
  {
    assert forall p :: (p in f <==> FileAt(f, p).Some?) && (p in t <==> ContentAt(t, p).Some?);
    assert forall p :: p in f ==> FileAt(f, p).value == f[p] && Contents(t)[p] == ContentAt(t, p).value;
  }

  lemma {:induction false} NothingSkipped(records: seq<Record>)
    requires forall r :: r in records ==> Copied(r)
    ensures Skipped(records) == []
  {
    if records != [] {
      NothingSkipped(records[..|records| - 1]);
    }
  }

  lemma {:induction false} LinePrefix(g: Graph, tip: Oid, oids: seq<Oid>, i: nat)
    requires LineBelow(g, tip, oids) && i < |oids|
    ensures LineBelow(g, oids[i], oids[..i + 1])
    decreases |oids|
  {
    if i < |oids| - 1 {
      LineParent(g, tip, oids);
      LinePrefix(g, g[tip][0], oids[..|oids| - 1], i);
      assert oids[..|oids| - 1][..i + 1] == oids[..i + 1];
    } else {
      assert oids[..i + 1] == oids;
    }
  }

  /** A legal range is such a line, and what lies below it is the base's tree. */
  lemma {:induction false} ChainIsLine(repo: SourceRepo, base: Oid, tip: Oid, oids: seq<Oid>)
    requires IsFirstParentChain(repo.graph, base, tip, oids) && base in repo.trees
    ensures LineBelow(repo.graph, tip, oids) && BaseTree(repo, oids) == repo.trees[base]
    decreases |oids|
  {
    if |oids| > 1 {
      ChainIsLine(repo, base, repo.graph[tip][0], oids[..|oids| - 1]);
    }
  }

  /** `select_range` and `replay_commits` together: a legal range, replayed onto any destination,
      leaves the tip's content at every tracked path. */
  lemma LegalRangeReplay(repo: SourceRepo, base: Oid, tip: Oid, lines: seq<Line>, sources: seq<Source>, d: Repo,
                         p: Path)
    requires Acyclic(repo.graph) && base in repo.trees && IsRevList(repo.graph, base, tip, lines)
    requires ProperFirstParentAncestor(repo.graph, base, tip)
    requires SourcesOf(repo, Oids(lines), sources)
    requires Tracks(sources, repo.trees[base], d.head, p)
    ensures tip in repo.trees
    ensures FileAt(Apply(AllEffects(sources), d.head), p) == ContentAt(repo.trees[tip], p)
  {
    LegalIffAncestor(repo.graph, base, tip, lines);
    var oids := Oids(lines);
    ChainIsLine(repo, base, tip, oids);
    assert oids[|oids| - 1] == tip;
    ReplayFollowsTip(repo, tip, oids, sources, d.head, p);
  }

  // ----- when a range can be replayed -----

  predicate Copyable(e: Entry) {
    !SpecialMode(e.mode) && SkipBytes(e.blob) == ""
  }

  /** HEAD and the index of the destination know every copyable path of `t`. */
  ghost predicate Knows(head: Files, index: Files, t: Tree) {
    forall p :: p in t && Copyable(t[p]) ==> p in head && p in index
  }

  /** The record is a copied rename of a file that could not itself be copied: the destination never got
      that file from a replay. */
  predicate MovesUncopyable(r: Record) {
    r.status == 'R' && Copied(r) && SkipBytes(r.oldBlob) != ""
  }

  ghost predicate OldPathsIn(records: seq<Record>, files: Files) {
    forall r :: r in records && MovesUncopyable(r) ==> r.oldPath in files
  }

  /** Each path that the copied records remove is in `files`. */
  ghost predicate RemovalsIn(records: seq<Record>, files: Files) {
    forall p :: p in EffectsOf(records) && EffectsOf(records)[p] == None ==> p in files
  }

  /** One commit's removals are all known exactly when the old paths of its uncopyable renames are. */
  lemma RemovalsAreKnown(records: seq<Record>, before: Tree, after: Tree, files: Files)
    requires forall r :: r in records ==> RecordFits(r, before, after)
    requires forall p :: p in before && Copyable(before[p]) ==> p in files
    ensures RemovalsIn(records, files) <==> OldPathsIn(records, files)
  {
    if OldPathsIn(records, files) {
      forall p | p in EffectsOf(records) && EffectsOf(records)[p] == None
        ensures p in files
      {
        RemovedIsKnown(records, before, after, files, p);
      }
    }
    if RemovalsIn(records, files) {
      forall r | r in records && MovesUncopyable(r)
        ensures r.oldPath in files
      {
        assert RecordFits(r, before, after) && r.oldPath in Touched(r);
        EffectsAreNewContent(records, before, after, r.oldPath);
        assert CopiedBy(records, r.oldPath);
      }
    }
  }

  lemma RemovedIsKnown(records: seq<Record>, before: Tree, after: Tree, files: Files, p: Path)
    requires forall r :: r in records ==> RecordFits(r, before, after)
    requires forall q :: q in before && Copyable(before[q]) ==> q in files
    requires OldPathsIn(records, files) && p in EffectsOf(records) && EffectsOf(records)[p] == None
    ensures p in files
  {
    EffectsAreNewContent(records, before, after, p);
    var r :| r in records && p in Touched(r) && Copied(r);
    assert RecordFits(r, before, after);
    assert p !in after;
  }

  lemma {:induction false} KnowsIsKept(records: seq<Record>, before: Tree, after: Tree, head: Files, index: Files)
    requires IsDiff(records, before, after) && Knows(head, index, before)
    ensures Knows(Apply(EffectsOf(records), head), Apply(EffectsOf(records), index), after)
  {
    forall p | p in after && Copyable(after[p])
      ensures p in Apply(EffectsOf(records), head) && p in Apply(EffectsOf(records), index)
    {
      EffectsAreNewContent(records, before, after, p);
      if TouchedBy(records, p) {
        var r :| r in records && p in Touched(r);
        assert RecordFits(r, before, after);
        assert CopiedBy(records, p);
      } else {
        assert !CopiedBy(records, p);
      }
    }
  }

  /** The copied records of a commit leave a file at `p`. */
  ghost predicate WrittenBy(records: seq<Record>, p: Path) {
    exists r :: r in records && Copied(r) && r.status != 'D' && r.path == p
  }

  /** After the range so far `p` is there: the last commit that copied something at `p` wrote it, or none
      did and it was there at the start. */
  ghost predicate StaysIn(sources: seq<Source>, files: Files, p: Path) {
    if sources == [] then p in files
    else
      var last := sources[|sources| - 1].records;
      if CopiedBy(last, p) then WrittenBy(last, p) else StaysIn(sources[..|sources| - 1], files, p)
  }

  lemma WrittenIsContent(records: seq<Record>, before: Tree, after: Tree, p: Path)
    requires (forall r :: r in records ==> RecordFits(r, before, after)) && CopiedBy(records, p)
    ensures WrittenBy(records, p) <==> p in after
  {
    var r :| r in records && p in Touched(r) && Copied(r);
    assert RecordFits(r, before, after);
    if WrittenBy(records, p) {
      var w :| w in records && Copied(w) && w.status != 'D' && w.path == p;
      assert RecordFits(w, before, after);
    }
  }

  /** What the replay leaves is foretold by the records. */
  lemma {:induction false} StaysIsApplied(repo: SourceRepo, oids: seq<Oid>, sources: seq<Source>, files: Files, p: Path)
    requires SourcesOf(repo, oids, sources)
    ensures StaysIn(sources, files, p) <==> p in Apply(AllEffects(sources), files)
  {
    if sources != [] {
      var n := |sources| - 1;
      var records := sources[n].records;
      var before, after := FirstParentTree(repo, oids[n]), repo.trees[oids[n]];
      SourcesPrefix(repo, oids, sources, n);
      StaysIsApplied(repo, oids[..n], sources[..n], files, p);
      EffectsAreNewContent(records, before, after, p);
      if CopiedBy(records, p) { WrittenIsContent(records, before, after, p); }
    }
  }

  ghost predicate OldPathsStay(records: seq<Record>, done: seq<Source>, files: Files) {
    forall r :: r in records && MovesUncopyable(r) ==> StaysIn(done, files, r.oldPath)
  }

  /** What Git asks of commit `i`, said of the records and the destination before the replay: a message,
      the old paths of uncopyable renames in index and HEAD, and no held file in the new tree. */
  ghost predicate CanReplay(sources: seq<Source>, d: Repo, i: nat)
    requires i < |sources|
  {
    && sources[i].message != ""
    && OldPathsStay(sources[i].records, sources[..i], d.head) && OldPathsStay(sources[i].records, sources[..i], d.index)
    && !StaysIn(sources[..i + 1], d.head, HOLD)
  }

  lemma {:induction false} OldPathsForetold(repo: SourceRepo, oids: seq<Oid>, done: seq<Source>,
                                            records: seq<Record>, files: Files)
    requires SourcesOf(repo, oids, done)
    ensures OldPathsStay(records, done, files) <==> OldPathsIn(records, Apply(AllEffects(done), files))
  {
    forall r | r in records
      ensures StaysIn(done, files, r.oldPath) <==> r.oldPath in Apply(AllEffects(done), files)
    {
      StaysIsApplied(repo, oids, done, files, r.oldPath);
    }
  }

  lemma {:induction false} OkParts(d: Repo, s: Source)
    ensures CommitOk(d, s) <==>
            && s.message != "" && RemovalsIn(s.records, d.index) && RemovalsIn(s.records, d.head)
            && HOLD !in Apply(EffectsOf(s.records), d.head)
  {
  }

  lemma {:induction false} HoldForetold(repo: SourceRepo, oids: seq<Oid>, sources: seq<Source>, head: Files, i: nat)
    requires SourcesOf(repo, oids, sources) && i < |sources|
    ensures StaysIn(sources[..i + 1], head, HOLD) <==>
            HOLD in Apply(EffectsOf(sources[i].records), Apply(AllEffects(sources[..i]), head))
  {
    var upTo := sources[..i + 1];
    SourcesPrefix(repo, oids, sources, i + 1);
    StaysIsApplied(repo, oids[..i + 1], upTo, head, HOLD);
    assert upTo[..i] == sources[..i] && upTo[i] == sources[i];
    ApplyTwice(AllEffects(sources[..i]), EffectsOf(sources[i].records), head);
  }

  lemma {:induction false} OkIffCanReplay(repo: SourceRepo, oids: seq<Oid>, sources: seq<Source>, d: Repo, i: nat)
    requires SourcesOf(repo, oids, sources) && i < |sources|
    requires var e := AllEffects(sources[..i]);
             Knows(Apply(e, d.head), Apply(e, d.index), FirstParentTree(repo, oids[i]))
    ensures OkAt(d, sources, i) <==> CanReplay(sources, d, i)
  {
    var records, done := sources[i].records, sources[..i];
    var before, after := FirstParentTree(repo, oids[i]), repo.trees[oids[i]];
    var now := ApplyAll(AllEffects(done), d);
    SourcesPrefix(repo, oids, sources, i);
    RemovalsAreKnown(records, before, after, now.head);
    RemovalsAreKnown(records, before, after, now.index);
    OldPathsForetold(repo, oids[..i], done, records, d.head);
    OldPathsForetold(repo, oids[..i], done, records, d.index);
    HoldForetold(repo, oids, sources, d.head, i);
    OkParts(now, sources[i]);
  }

  /** The destination keeps knowing the copyable files of the source side, commit after commit. */
  lemma {:induction false} KnowsAlong(repo: SourceRepo, tip: Oid, oids: seq<Oid>, sources: seq<Source>, d: Repo)
    requires LineBelow(repo.graph, tip, oids) && SourcesOf(repo, oids, sources)
    requires Knows(d.head, d.index, BaseTree(repo, oids))
    ensures var e := AllEffects(sources[..|oids| - 1]);
            Knows(Apply(e, d.head), Apply(e, d.index), FirstParentTree(repo, tip))
    ensures var e := AllEffects(sources); Knows(Apply(e, d.head), Apply(e, d.index), repo.trees[tip])
    decreases |oids|
  {
    var n := |oids| - 1;
    var done, records := sources[..n], sources[n].records;
    if n == 0 {
      assert done == [];
    } else {
      LineParent(repo.graph, tip, oids);
      SourcesPrefix(repo, oids, sources, n);
      KnowsAlong(repo, repo.graph[tip][0], oids[..n], done, d);
    }
    var e := AllEffects(done);
    KnowsIsKept(records, FirstParentTree(repo, tip), repo.trees[tip], Apply(e, d.head), Apply(e, d.index));
    ApplyTwice(e, EffectsOf(records), d.head);
    ApplyTwice(e, EffectsOf(records), d.index);
  }

  /** A range replays onto a destination that knows the copyable files of the base exactly when every
      commit meets what Git asks, as foretold by the records. */
  lemma RangeReplays(repo: SourceRepo, tip: Oid, oids: seq<Oid>, sources: seq<Source>, d: Repo)
    requires LineBelow(repo.graph, tip, oids) && SourcesOf(repo, oids, sources)
    requires Knows(d.head, d.index, BaseTree(repo, oids))
    ensures Replayable(d, sources) <==> forall i: nat :: i < |sources| ==> CanReplay(sources, d, i)
  {
    forall i: nat | i < |sources|
      ensures OkAt(d, sources, i) <==> CanReplay(sources, d, i)
    {
      LinePrefix(repo.graph, tip, oids, i);
      var o, s := oids[..i + 1], sources[..i + 1];
      SourcesPrefix(repo, oids, sources, i + 1);
      KnowsAlong(repo, oids[i], o, s, d);
      assert s[..i] == sources[..i];
      OkIffCanReplay(repo, oids, sources, d, i);
    }
  }

  /** In particular if no copied rename starts from an uncopyable file, messages are non-empty and no
      side holds the file that must stay staged. */
  lemma CopyableRangeReplays(repo: SourceRepo, tip: Oid, oids: seq<Oid>, sources: seq<Source>, d: Repo)
    requires LineBelow(repo.graph, tip, oids) && SourcesOf(repo, oids, sources)
    requires Knows(d.head, d.index, BaseTree(repo, oids)) && HOLD !in d.head
    requires forall i, r :: 0 <= i < |sources| && r in sources[i].records ==>
               !MovesUncopyable(r) && !(HOLD in Touched(r) && Copied(r))
    ensures Replayable(d, sources) <==> forall i :: 0 <= i < |sources| ==> sources[i].message != ""
  {
    RangeReplays(repo, tip, oids, sources, d);
    forall i: nat | i < |sources|
      ensures CanReplay(sources, d, i) <==> sources[i].message != ""
    {
      UncopiedPathStays(sources[..i + 1], d, HOLD);
      SourcesPrefix(repo, oids, sources, i + 1);
      StaysIsApplied(repo, oids[..i + 1], sources[..i + 1], d.head, HOLD);
    }
  }

  lemma OneEffect(s: Source, r: Record)
    requires s.records == [r]
    ensures EffectsOf(s.records) == Effect(r)
  {
    assert s.records[..0] == [] && EffectsOf([]) == map[];
    assert map[] + Effect(r) == Effect(r);
  }

  /** The rename condition is needed. A binary file is added (and skipped), then renamed while it
      becomes text: the removal names a path the destination never got, and `git add` fails. */
  lemma RenameFromBinaryFails() returns (base: Tree, mid: Tree, after: Tree, sources: seq<Source>, d: Repo)
    ensures |sources| == 2
    ensures IsDiff(sources[0].records, base, mid) && IsDiff(sources[1].records, mid, after)
    ensures Knows(d.head, d.index, base) && HOLD !in d.head
    ensures sources[0].message != "" && sources[1].message != ""
    ensures !Replayable(d, sources)
  {
    var binary: Blob, text: Blob := [0x78, 0], [0x78];
    base, mid, after := map[], map["a" := Entry("100644", binary)], map["b" := Entry("100644", text)];
    var add := Record('A', "", "a", "000000", "100644", [], binary);
    var move := Record('R', "a", "b", "100644", "100644", binary, text);
    sources := [Source("1", 1, "author", "add", [add]), Source("2", 1, "author", "move", [move])];
    d := Repo(map[], map[], map[]);
    assert add in sources[0].records && move in sources[1].records;
    assert "a" in Touched(add) && "a" in Touched(move) && "b" in Touched(move);
    assert forall p :: !TouchedBy([add], p) ==> p != "a" by {
      assert add in [add];
      assert TouchedBy([add], "a");
    }
    assert forall p :: !TouchedBy([move], p) ==> p != "a" && p != "b" by {
      assert move in [move];
      assert TouchedBy([move], "a") && TouchedBy([move], "b");
    }
    assert binary[1] == 0;
    assert Effect(add) == map[];
    assert sources[..1] == [sources[0]];
    assert AllEffects([]) == map[] && EffectsOf([]) == map[];
    OneEffect(sources[0], add);
    OneEffect(sources[1], move);
    assert [sources[0]][..0] == [];
    assert AllEffects([sources[0]]) == map[] + EffectsOf([add]) == map[];
    assert Utf8.IsValid(text) by {
      assert text[1..] == [];
    }
    assert Copied(move);
    assert EffectsOf([move])["a"] == None;
    assert !OkAt(d, sources, 1);
  }
}
