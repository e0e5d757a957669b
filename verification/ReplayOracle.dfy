/** The replay as an oracle: a step whose expectations are a replay's report, compared with snapshots.

    `replay_commits` runs on a private copy and its report becomes the step's expectations. The
    product replays the same commits on the real destination. This module connects the two: the
    product's own replay is accepted, and whatever is accepted carries the replayed trees.
 */
module ReplayOracle {
  import opened Prelude
  import opened CompareStep
  import R = Replay
  import M = ReplayMeaning
  import G = CommitGraph

  /** How a snapshot shows a repository's contents: tree ids, index rows, file rows, author fields. */
  datatype Encoding = Encoding(
    treeId: R.Files -> string,
    index: R.Files -> map<(Path, nat), IndexRow>,
    files: R.Files -> map<Path, FileRow>,
    name: string -> string, email: string -> string, time: string -> string)

  /** Git's tree ids: different trees have different ids. */
  ghost predicate TreeIdsDiffer(enc: Encoding) {
    forall s, t :: enc.treeId(s) == enc.treeId(t) ==> s == t
  }

  // ----- the step -----

  function ExpectedOf(enc: Encoding, c: R.Created): Expected {
    Expected(c.sourceOid, enc.treeId(c.tree), enc.name(c.author), enc.email(c.author), enc.time(c.author), c.message)
  }

  /** The step that a replay's report makes; `was` is the destination before it. */
  function StepOf(enc: Encoding, dest: RepoId, was: RepoState, r: R.Replayed): Step {
    CommitStep(dest, was.headBranch, was.headOid,
               seq(|r.commits|, i requires 0 <= i < |r.commits| => ExpectedOf(enc, r.commits[i])),
               enc.index(r.index), enc.files(r.files), r.absent)
  }

  // ----- the product's replay -----

  /** The commit objects of a replay, given the ids and committer fields they came out with. */
  function Commits(enc: Encoding, r: R.Replayed, baseline: Oid, ids: seq<Oid>, committer: Oid -> string): seq<Commit>
    requires |ids| == |r.commits|
  {
    seq(|ids|, i requires 0 <= i < |ids| =>
      var c := r.commits[i];
      Commit(ids[i], [if i == 0 then baseline else ids[i - 1]], enc.treeId(c.tree),
             enc.name(c.author), enc.email(c.author), enc.time(c.author), c.message, committer(ids[i])))
  }

  /** `now` is the destination `was` after the replay `r`: the new commits on top of its HEAD, the
      branch moved, index and files as the replay left them. */
  ghost predicate IsAfter(enc: Encoding, was: RepoState, r: R.Replayed, ids: seq<Oid>, committer: Oid -> string,
                          now: RepoState)
    requires |ids| == |r.commits|
  {
    var created := Commits(enc, r, was.headOid, ids, committer);
    && was.headBranch in was.refs
    && now.headBranch == was.headBranch && now.headOid == HeadOf(was.headOid, created)
    && now.refs == was.refs[was.headBranch := was.refs[was.headBranch].(oid := now.headOid)]
    && now.index == enc.index(r.index) && now.files == enc.files(r.files) && now.absent == r.absent
    && UniqueIds(now.commits) && forall c :: c in created ==> c in now.commits
  }

  /** A repository lists each commit id once. */
  ghost predicate UniqueIds(commits: seq<Commit>) {
    forall c, d :: c in commits && d in commits && c.oid == d.oid ==> c == d
  }

  lemma {:induction false} ListedIsKnown(commits: seq<Commit>, c: Commit)
    requires UniqueIds(commits) && c in commits
    ensures c.oid in ByOid(commits) && ByOid(commits)[c.oid] == c
  {
    var n := |commits| - 1;
    if commits[n] != c {
      assert c in commits[..n] by {
        assert commits == commits[..n] + [commits[n]];
      }
      assert forall d :: d in commits[..n] ==> d in commits;
      assert c.oid != commits[n].oid;
      ListedIsKnown(commits[..n], c);
    }
  }

  lemma NewCommitsLink(enc: Encoding, was: RepoState, r: R.Replayed, ids: seq<Oid>, committer: Oid -> string,
                       now: RepoState, i: nat)
    requires |ids| == |r.commits| && i < |ids| && IsAfter(enc, was, r, ids, committer, now)
    requires ids[i] != "" && ids[i] != was.headOid
    ensures LinkAt(ByOid(now.commits), was.headOid, Commits(enc, r, was.headOid, ids, committer), i)
  {
    var created := Commits(enc, r, was.headOid, ids, committer);
    assert created[i] in created;
    ListedIsKnown(now.commits, created[i]);
  }

  lemma {:induction false} CommitsMatch(enc: Encoding, dest: RepoId, was: RepoState, r: R.Replayed, ids: seq<Oid>,
                                        committer: Oid -> string)
    requires |ids| == |r.commits|
    ensures var step, created := StepOf(enc, dest, was, r), Commits(enc, r, was.headOid, ids, committer);
            |created| == |step.expected| && forall i :: 0 <= i < |created| ==> Matches(created[i], step.expected[i])
  {
  }

  lemma RefsAfter(was: RepoState, now: RepoState)
    requires was.headBranch in was.refs
    requires now.refs == was.refs[was.headBranch := was.refs[was.headBranch].(oid := now.headOid)]
    ensures RefsMoved(was.headBranch, was.refs, now.refs, now.headOid)
  {
  }

  lemma {:induction false} AfterIsResult(enc: Encoding, dest: RepoId, base: Snapshot, r: R.Replayed, ids: seq<Oid>,
                                         committer: Oid -> string, now: RepoState)
    requires dest in base && |ids| == |r.commits| && IsAfter(enc, base[dest], r, ids, committer, now)
    requires forall i :: 0 <= i < |ids| ==> ids[i] != "" && ids[i] != base[dest].headOid
    ensures IsReplayResult(StepOf(enc, dest, base[dest], r), base, base[dest := now],
                           Commits(enc, r, base[dest].headOid, ids, committer))
  {
    var was := base[dest];
    var created := Commits(enc, r, was.headOid, ids, committer);
    forall i | 0 <= i < |created|
      ensures LinkAt(ByOid(now.commits), was.headOid, created, i)
    {
      NewCommitsLink(enc, was, r, ids, committer, now, i);
    }
    CommitsMatch(enc, dest, was, r, ids, committer);
    RefsAfter(was, now);
  }

  /** The product replays the commits that the oracle replayed, onto the same destination. Its snapshot
      is accepted exactly up to 20 commits, provided no new commit has its source's id. */
  lemma {:induction false} OwnReplayAccepted(
    enc: Encoding, dest: RepoId, base: Snapshot, d: R.Repo, sources: seq<R.Source>,
    oracle: R.Replayed, own: R.Replayed, ids: seq<Oid>, committer: Oid -> string, now: RepoState)
    requires R.IsReplayed(d, sources, oracle) && R.IsReplayed(d, sources, own)
    requires dest in base && |ids| == |own.commits| && IsAfter(enc, base[dest], own, ids, committer, now)
    requires forall i :: 0 <= i < |ids| ==> ids[i] != "" && ids[i] != base[dest].headOid
    ensures Accepted(StepOf(enc, dest, base[dest], oracle), base, None, base[dest := now], Applied) <==>
            |sources| <= 20 && forall i :: 0 <= i < |sources| ==> ids[i] != sources[i].oid
  {
    R.ReplayedIsUnique(d, sources, oracle, own);
    var step := StepOf(enc, dest, base[dest], oracle);
    AfterAccepted(enc, dest, base, own, ids, committer, now);
    SourceIds(enc, dest, base[dest], d, sources, oracle);
    CommitStepAccepted(step, base, base[dest := now]);
  }

  lemma CommitStepAccepted(step: Step, base: Snapshot, got: Snapshot)
    requires step.CommitStep?
    ensures Accepted(step, base, None, got, Applied) <==> CommitAccepted(step, base, got)
  {
  }

  lemma {:induction false} AfterAccepted(enc: Encoding, dest: RepoId, base: Snapshot, r: R.Replayed, ids: seq<Oid>,
                                         committer: Oid -> string, now: RepoState)
    requires dest in base && |ids| == |r.commits| && IsAfter(enc, base[dest], r, ids, committer, now)
    requires forall i :: 0 <= i < |ids| ==> ids[i] != "" && ids[i] != base[dest].headOid
    ensures var step := StepOf(enc, dest, base[dest], r);
            CommitAccepted(step, base, base[dest := now]) <==>
            |ids| <= 20 && forall i :: 0 <= i < |ids| ==> ids[i] != step.expected[i].sourceOid
  {
    AfterIsResult(enc, dest, base, r, ids, committer, now);
    ReplayResultAccepted(StepOf(enc, dest, base[dest], r), base, base[dest := now],
                         Commits(enc, r, base[dest].headOid, ids, committer));
  }

  lemma {:induction false} SourceIds(enc: Encoding, dest: RepoId, was: RepoState, d: R.Repo, sources: seq<R.Source>,
                                     r: R.Replayed)
    requires R.IsReplayed(d, sources, r)
    ensures var step := StepOf(enc, dest, was, r);
            && |step.expected| == |sources|
            && forall i :: 0 <= i < |sources| ==> step.expected[i].sourceOid == sources[i].oid
  {
    forall i | 0 <= i < |sources|
      ensures r.commits[i].sourceOid == sources[i].oid
    {
      assert r.commits[i] == R.CreatedFrom(sources[i], TreeAfter(d, sources, i));
    }
  }

  // ----- what is accepted -----

  /** Whoever made it: an accepted snapshot has as many new commits above the old HEAD as there are
      sources, in order; the i-th carries its source's message and author, and the tree that replaying
      the first i + 1 sources gives. Index and worktree are the old ones under all effects. */
  lemma {:induction false} AcceptedCarriesReplay(
    enc: Encoding, dest: RepoId, base: Snapshot, d: R.Repo, sources: seq<R.Source>, oracle: R.Replayed, got: Snapshot)
    returns (created: seq<Commit>)
    requires R.IsReplayed(d, sources, oracle) && dest in base
    requires CommitAccepted(StepOf(enc, dest, base[dest], oracle), base, got)
    requires WellFormed(got[dest].commits) && got[dest].headOid != ""
    ensures |created| == |sources| && got[dest].headOid == HeadOf(base[dest].headOid, created)
    ensures forall i :: 0 <= i < |created| ==> LinkAt(ByOid(got[dest].commits), base[dest].headOid, created, i)
    ensures forall i :: 0 <= i < |created| ==> Carries(enc, created[i], sources[i], TreeAfter(d, sources, i))
    ensures var e := R.AllEffects(sources);
            got[dest].index == enc.index(R.Apply(e, d.index)) && got[dest].files == enc.files(R.Apply(e, d.files))
  {
    var step := StepOf(enc, dest, base[dest], oracle);
    created := AcceptedReachesBaseline(step, base, got);
    forall i | 0 <= i < |created|
      ensures Carries(enc, created[i], sources[i], TreeAfter(d, sources, i))
    {
      assert Matches(created[i], step.expected[i]);
      assert oracle.commits[i] == R.CreatedFrom(sources[i], TreeAfter(d, sources, i));
    }
  }

  /** The destination's HEAD tree under the first i + 1 sources. */
  function TreeAfter(d: R.Repo, sources: seq<R.Source>, i: nat): R.Files
    requires i < |sources|
  {
    R.Apply(R.AllEffects(sources[..i + 1]), d.head)
  }

  predicate Carries(enc: Encoding, c: Commit, s: R.Source, tree: R.Files) {
    && c.tree == enc.treeId(tree) && c.message == s.message
    && c.authorName == enc.name(s.author) && c.authorEmail == enc.email(s.author) && c.authorTime == enc.time(s.author)
  }

  /** A legal range was replayed onto any destination: an accepted HEAD commit, whatever tree its id
      stands for, holds the source tip's content at every tracked path. */
  lemma {:induction false} AcceptedFollowsTip(
    enc: Encoding, dest: RepoId, base: Snapshot, repo: M.SourceRepo, tip: Oid, oids: seq<Oid>, d: R.Repo,
    sources: seq<R.Source>, oracle: R.Replayed, got: Snapshot)
    returns (head: Commit)
    requires G.LineBelow(repo.graph, tip, oids) && M.SourcesOf(repo, oids, sources)
    requires R.IsReplayed(d, sources, oracle) && dest in base && TreeIdsDiffer(enc)
    requires CommitAccepted(StepOf(enc, dest, base[dest], oracle), base, got)
    requires WellFormed(got[dest].commits) && got[dest].headOid != ""
    ensures head.oid == got[dest].headOid && head in got[dest].commits
    ensures forall tree, p :: enc.treeId(tree) == head.tree && M.Tracks(sources, M.BaseTree(repo, oids), d.head, p) ==>
              M.FileAt(tree, p) == M.ContentAt(repo.trees[tip], p)
  {
    var created := AcceptedCarriesReplay(enc, dest, base, d, sources, oracle, got);
    var n := |sources| - 1;
    head := created[n];
    assert LinkAt(ByOid(got[dest].commits), base[dest].headOid, created, n);
    assert Carries(enc, head, sources[n], TreeAfter(d, sources, n));
    assert sources[..n + 1] == sources;
    HeadFollowsTip(enc, repo, tip, oids, d, sources, head.tree);
  }

  lemma {:induction false} HeadFollowsTip(enc: Encoding, repo: M.SourceRepo, tip: Oid, oids: seq<Oid>, d: R.Repo,
                                          sources: seq<R.Source>, id: string)
    requires G.LineBelow(repo.graph, tip, oids) && M.SourcesOf(repo, oids, sources) && TreeIdsDiffer(enc)
    requires id == enc.treeId(R.Apply(R.AllEffects(sources), d.head))
    ensures forall tree, p :: enc.treeId(tree) == id && M.Tracks(sources, M.BaseTree(repo, oids), d.head, p) ==>
              M.FileAt(tree, p) == M.ContentAt(repo.trees[tip], p)
  {
    forall tree, p | enc.treeId(tree) == id && M.Tracks(sources, M.BaseTree(repo, oids), d.head, p)
      ensures M.FileAt(tree, p) == M.ContentAt(repo.trees[tip], p)
    {
      M.ReplayFollowsTip(repo, tip, oids, sources, d.head, p);
    }
  }

  /** If the destination started at the base with nothing to skip, each accepted commit's id stands for
      exactly its source commit's tree. */
  lemma {:induction false} AcceptedFromBaseIsExact(
    enc: Encoding, dest: RepoId, base: Snapshot, repo: M.SourceRepo, tip: Oid, oids: seq<Oid>, d: R.Repo,
    sources: seq<R.Source>, oracle: R.Replayed, got: Snapshot)
    returns (created: seq<Commit>)
    requires G.LineBelow(repo.graph, tip, oids) && M.SourcesOf(repo, oids, sources)
    requires M.AllCopied(sources) && d.head == M.Contents(M.BaseTree(repo, oids))
    requires R.IsReplayed(d, sources, oracle) && dest in base && TreeIdsDiffer(enc)
    requires CommitAccepted(StepOf(enc, dest, base[dest], oracle), base, got)
    requires WellFormed(got[dest].commits) && got[dest].headOid != ""
    ensures |created| == |oids| && got[dest].headOid == HeadOf(base[dest].headOid, created)
    ensures forall i :: 0 <= i < |created| ==> LinkAt(ByOid(got[dest].commits), base[dest].headOid, created, i)
    ensures forall i, tree :: 0 <= i < |created| && enc.treeId(tree) == created[i].tree ==>
              tree == M.Contents(repo.trees[oids[i]])
  {
    created := AcceptedCarriesReplay(enc, dest, base, d, sources, oracle, got);
    forall i, tree | 0 <= i < |created| && enc.treeId(tree) == created[i].tree
      ensures tree == M.Contents(repo.trees[oids[i]])
    {
      assert Carries(enc, created[i], sources[i], TreeAfter(d, sources, i));
      TreeAfterIsSource(repo, tip, oids, d, sources, i);
    }
  }

  lemma {:induction false} TreeAfterIsSource(repo: M.SourceRepo, tip: Oid, oids: seq<Oid>, d: R.Repo,
                                             sources: seq<R.Source>, i: nat)
    requires G.LineBelow(repo.graph, tip, oids) && M.SourcesOf(repo, oids, sources) && i < |oids|
    requires M.AllCopied(sources) && d.head == M.Contents(M.BaseTree(repo, oids))
    ensures TreeAfter(d, sources, i) == M.Contents(repo.trees[oids[i]])
  {
    M.LinePrefix(repo.graph, tip, oids, i);
    var o, s := oids[..i + 1], sources[..i + 1];
    M.SourcesPrefix(repo, oids, sources, i + 1);
    M.BaseBecomesTip(repo, oids[i], o, s, d.head);
  }
}
