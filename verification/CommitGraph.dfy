/** Selecting the commits to replay.

    A repository's history is a map from object ids to their parent lists. `rev-list
    --first-parent base..tip` is specified as Git documents it: walk first parents from the tip
    and stop before the first commit reachable from the base through any parent.
 */
module CommitGraph {
  import opened Prelude

  type Oid(==,!new) = string

  /** Object id to parents, first parent first. */
  type Graph = map<Oid, seq<Oid>>

  /** A topological numbering: the witness that a history has no cycle. */
  ghost predicate Ranked(g: Graph, rank: map<Oid, nat>) {
    && rank.Keys == g.Keys
    && forall c, i :: c in g && 0 <= i < |g[c]| ==> g[c][i] in g && rank[g[c][i]] < rank[c]
  }

  ghost predicate Acyclic(g: Graph) {
    exists rank :: Ranked(g, rank)
  }

  /** `path` leads from a commit to one of its ancestors, each step to some parent. */
  ghost predicate IsPath(g: Graph, path: seq<Oid>) {
    && |path| > 0
    && (forall i :: 0 <= i < |path| ==> path[i] in g)
    && (forall i :: 0 <= i < |path| - 1 ==> path[i + 1] in g[path[i]])
  }

  ghost predicate Reaches(g: Graph, from: Oid, to: Oid) {
    exists path :: IsPath(g, path) && path[0] == from && path[|path| - 1] == to
  }

  /** Oldest first: `base` is the first parent of the oldest, each commit is the first parent of
      the next, the last one is the tip. */
  ghost predicate IsFirstParentChain(g: Graph, base: Oid, tip: Oid, oids: seq<Oid>)
    decreases |oids|
  {
    && |oids| > 0
    && oids[|oids| - 1] == tip
    && tip in g && g[tip] != []
    && if |oids| == 1 then g[tip][0] == base
       else IsFirstParentChain(g, base, g[tip][0], oids[..|oids| - 1])
  }

  ghost predicate ProperFirstParentAncestor(g: Graph, base: Oid, tip: Oid) {
    exists oids :: IsFirstParentChain(g, base, tip, oids)
  }

  /** One line of `rev-list --parents`. */
  datatype Line = Line(oid: Oid, parents: seq<Oid>)

  /** `rev-list --first-parent --parents base..tip`, newest first. */
  ghost predicate IsRevList(g: Graph, base: Oid, tip: Oid, lines: seq<Line>)
    decreases |lines|
  {
    if lines == [] then Reaches(g, base, tip)
    else
      && tip in g && !Reaches(g, base, tip)
      && lines[0] == Line(tip, g[tip])
      && if g[tip] == [] then |lines| == 1 else IsRevList(g, base, g[tip][0], lines[1..])
  }

  /** The command always has such an output. */
  lemma {:induction false} RevListExists(g: Graph, rank: map<Oid, nat>, base: Oid, tip: Oid) returns (lines: seq<Line>)
    requires Ranked(g, rank) && tip in g
    ensures IsRevList(g, base, tip, lines)
    decreases rank[tip]
  {
    if Reaches(g, base, tip) {
      lines := [];
    } else if g[tip] == [] {
      lines := [Line(tip, [])];
    } else {
      var rest := RevListExists(g, rank, base, g[tip][0]);
      lines := [Line(tip, g[tip])] + rest;
      assert lines[1..] == rest;
    }
  }

  datatype Selection = Selection(
    legal: bool, reason: string, oids: seq<Oid>, oldestFirstParent: Option<Oid>,
    includesMerge: bool, includesRoot: bool)

  function Oids(lines: seq<Line>): seq<Oid> {
    seq(|lines|, i requires 0 <= i < |lines| => lines[|lines| - 1 - i].oid)
  }

  lemma {:induction false} Walk(g: Graph, rank: map<Oid, nat>, path: seq<Oid>)
    requires Ranked(g, rank) && IsPath(g, path)
    ensures rank[path[|path| - 1]] <= rank[path[0]]
    ensures |path| > 1 ==> rank[path[|path| - 1]] < rank[path[0]]
  {
    if |path| > 1 {
      var rest := path[1..];
      assert forall i :: 0 <= i < |rest| - 1 ==> rest[i + 1] in g[rest[i]] by {
        forall i | 0 <= i < |rest| - 1 ensures rest[i + 1] in g[rest[i]] {
          assert path[i + 1 + 1] in g[path[i + 1]];
        }
      }
      Walk(g, rank, rest);
      assert path[0 + 1] in g[path[0]];
    }
  }

  /** In an acyclic history two commits that reach each other are one commit. */
  lemma MutualReach(g: Graph, a: Oid, b: Oid)
    requires Acyclic(g) && Reaches(g, a, b) && Reaches(g, b, a)
    ensures a == b
  {
    var rank :| Ranked(g, rank);
    var p :| IsPath(g, p) && p[0] == a && p[|p| - 1] == b;
    var q :| IsPath(g, q) && q[0] == b && q[|q| - 1] == a;
    Walk(g, rank, p);
    Walk(g, rank, q);
  }

  lemma ReachesSelf(g: Graph, a: Oid)
    requires a in g
    ensures Reaches(g, a, a)
  {
    assert IsPath(g, [a]);
  }

  lemma {:induction false} ReachesStep(g: Graph, child: Oid, to: Oid)
    requires child in g && g[child] != [] && Reaches(g, g[child][0], to)
    ensures Reaches(g, child, to)
  {
    var p :| IsPath(g, p) && p[0] == g[child][0] && p[|p| - 1] == to;
    var q := [child] + p;
    assert forall i :: 0 < i < |q| ==> q[i] == p[i - 1];
    assert IsPath(g, q);
  }

  /** The tip of a chain reaches the base, and lies strictly above it. */
  lemma {:induction false} ChainReachesBase(g: Graph, rank: map<Oid, nat>, base: Oid, tip: Oid, oids: seq<Oid>)
    requires Ranked(g, rank) && IsFirstParentChain(g, base, tip, oids)
    ensures base in g && Reaches(g, tip, base) && rank[base] < rank[tip]
    decreases |oids|
  {
    var parent := g[tip][0];
    if |oids| == 1 {
      ReachesSelf(g, base);
    } else {
      ChainReachesBase(g, rank, base, parent, oids[..|oids| - 1]);
    }
    ReachesStep(g, tip, base);
  }

  /** If a first-parent chain exists, the walk lists exactly that chain. */
  lemma {:induction false} ChainIsTheWalk(g: Graph, base: Oid, tip: Oid, lines: seq<Line>, oids: seq<Oid>)
    requires Acyclic(g) && IsFirstParentChain(g, base, tip, oids) && IsRevList(g, base, tip, lines)
    ensures oids == Oids(lines) && EndsAt(lines, base)
    decreases |oids|
  {
    var rank :| Ranked(g, rank);
    ChainReachesBase(g, rank, base, tip, oids);
    if Reaches(g, base, tip) {
      MutualReach(g, base, tip);
    }
    var parent := g[tip][0];
    if |oids| == 1 {
      ReachesSelf(g, base);
      assert lines[1..] == [];
    } else {
      ChainIsTheWalk(g, base, parent, lines[1..], oids[..|oids| - 1]);
      assert Oids(lines) == Oids(lines[1..]) + [tip];
    }
  }

  /** The oldest listed commit has the base as its first parent. */
  predicate EndsAt(lines: seq<Line>, base: Oid) {
    lines != [] && lines[|lines| - 1].parents != [] && lines[|lines| - 1].parents[0] == base
  }

  lemma {:induction false} WalkIsAChain(g: Graph, base: Oid, tip: Oid, lines: seq<Line>)
    requires IsRevList(g, base, tip, lines) && EndsAt(lines, base)
    ensures IsFirstParentChain(g, base, tip, Oids(lines))
    decreases |lines|
  {
    if |lines| > 1 {
      WalkIsAChain(g, base, g[tip][0], lines[1..]);
      assert Oids(lines)[..|lines| - 1] == Oids(lines[1..]);
    }
  }

  lemma LegalIffAncestor(g: Graph, base: Oid, tip: Oid, lines: seq<Line>)
    requires Acyclic(g) && IsRevList(g, base, tip, lines)
    ensures ProperFirstParentAncestor(g, base, tip) <==> EndsAt(lines, base)
    ensures EndsAt(lines, base) ==> IsFirstParentChain(g, base, tip, Oids(lines))
  {
    if EndsAt(lines, base) {
      WalkIsAChain(g, base, tip, lines);
    }
    if ProperFirstParentAncestor(g, base, tip) {
      var oids :| IsFirstParentChain(g, base, tip, oids);
      ChainIsTheWalk(g, base, tip, lines, oids);
    }
  }

  /** Only the oldest listed commit can be a root. */
  lemma {:induction false} RootIsOldest(g: Graph, base: Oid, tip: Oid, lines: seq<Line>)
    requires IsRevList(g, base, tip, lines)
    ensures forall i :: 0 <= i < |lines| - 1 ==> lines[i].parents != []
    decreases |lines|
  {
    if lines != [] && g[tip] != [] {
      RootIsOldest(g, base, g[tip][0], lines[1..]);
    }
  }

  /** In index form: each selected commit's first parent is the one before it. */
  lemma {:induction false} ChainAt(g: Graph, base: Oid, tip: Oid, oids: seq<Oid>, i: nat)
    requires IsFirstParentChain(g, base, tip, oids) && i < |oids|
    ensures oids[i] in g && g[oids[i]] != []
    ensures g[oids[i]][0] == if i == 0 then base else oids[i - 1]
    decreases |oids|
  {
    if i < |oids| - 1 {
      ChainAt(g, base, g[tip][0], oids[..|oids| - 1], i);
    } else if i > 0 {
      var rest := oids[..|oids| - 1];
      assert rest[|rest| - 1] == g[tip][0];
    }
  }

  /** `select_range` given the command's output: the range is legal exactly when the base is a
      proper first-parent ancestor of the tip, and the selected ids are then that chain. */
  method SelectRange(ghost g: Graph, base: Oid, ghost tip: Oid, lines: seq<Line>) returns (s: Selection)
    requires Acyclic(g) && IsRevList(g, base, tip, lines)
    ensures s.legal <==> ProperFirstParentAncestor(g, base, tip)
    ensures s.legal ==> IsFirstParentChain(g, base, tip, s.oids)
    ensures s.reason == "empty" <==> Reaches(g, base, tip)
    ensures s.reason == "contiguous-first-parent" <==> s.legal
    ensures s.oids == Oids(lines)
    ensures s.includesMerge <==> exists i :: 0 <= i < |lines| && |lines[i].parents| >= 2
    ensures s.includesRoot <==> lines != [] && s.oldestFirstParent == None
    ensures s.legal ==> !s.includesRoot && s.oldestFirstParent == Some(base)
  {
    LegalIffAncestor(g, base, tip, lines);
    if lines == [] {
      return Selection(false, "empty", [], None, false, false);
    }
    RootIsOldest(g, base, tip, lines);
    var parents := lines[|lines| - 1].parents;
    var first := if parents != [] then Some(parents[0]) else None;
    var includesMerge, includesRoot := Scan(lines);
    s := Selection(first == Some(base),
                   if first == Some(base) then "contiguous-first-parent" else "discontinuous",
                   Oids(lines), first, includesMerge, includesRoot);
  }

  method Scan(lines: seq<Line>) returns (includesMerge: bool, includesRoot: bool)
    ensures includesMerge <==> exists i :: 0 <= i < |lines| && |lines[i].parents| >= 2
    ensures includesRoot <==> exists i :: 0 <= i < |lines| && lines[i].parents == []
  {
    includesMerge, includesRoot := false, false;
    for i := 0 to |lines|
      invariant includesMerge <==> exists j :: 0 <= j < i && |lines[j].parents| >= 2
      invariant includesRoot <==> exists j :: 0 <= j < i && lines[j].parents == []
    {
      includesMerge := includesMerge || |lines[i].parents| >= 2;
      includesRoot := includesRoot || lines[i].parents == [];
    }
  }

  /** `rev-list --first-parent --parents -n count tip`, newest first. */
  ghost predicate IsLastFromTip(g: Graph, tip: Oid, count: nat, lines: seq<Line>)
    decreases count
  {
    if count == 0 then lines == []
    else
      && tip in g && lines != [] && lines[0] == Line(tip, g[tip])
      && if g[tip] == [] then |lines| == 1 else IsLastFromTip(g, g[tip][0], count - 1, lines[1..])
  }

  /** The first-parent line from the tip down has at least `count` commits. */
  ghost predicate HasLine(g: Graph, tip: Oid, count: nat)
    decreases count
  {
    count == 0 || (tip in g && (count == 1 || (g[tip] != [] && HasLine(g, g[tip][0], count - 1))))
  }

  lemma {:induction false} LastFromTip(g: Graph, tip: Oid, count: nat, lines: seq<Line>)
    requires IsLastFromTip(g, tip, count, lines)
    ensures |lines| == count <==> HasLine(g, tip, count)
    ensures |lines| <= count
    ensures lines != [] ==> LineBelow(g, tip, Oids(lines))
    decreases count
  {
    if count > 0 && g[tip] != [] {
      LastFromTip(g, g[tip][0], count - 1, lines[1..]);
      assert Oids(lines)[..|lines| - 1] == Oids(lines[1..]);
    }
  }

  /** `oids`, oldest first, is the first-parent line that ends at the tip. */
  ghost predicate LineBelow(g: Graph, tip: Oid, oids: seq<Oid>)
    decreases |oids|
  {
    && |oids| > 0 && oids[|oids| - 1] == tip && tip in g
    && (|oids| > 1 ==> g[tip] != [] && LineBelow(g, g[tip][0], oids[..|oids| - 1]))
  }

  /** `select_last`: legal exactly when the tip's first-parent line is long enough and does not
      run into the cut of a shallow clone. */
  method SelectLast(ghost g: Graph, ghost tip: Oid, count: nat, shallow: bool, lines: seq<Line>) returns (s: Selection)
    requires IsLastFromTip(g, tip, count, lines)
    ensures s.oids == Oids(lines) && (s.oids != [] ==> LineBelow(g, tip, s.oids))
    ensures s.includesRoot <==> s.oids != [] && s.oids[0] in g && g[s.oids[0]] == []
    ensures s.legal <==> HasLine(g, tip, count) && !(s.includesRoot && shallow)
    ensures s.includesMerge <==> exists i :: 0 <= i < |lines| && |lines[i].parents| >= 2
  {
    LastFromTip(g, tip, count, lines);
    if lines != [] { LastLineParents(g, tip, count, lines); }
    var oldestParents := if lines != [] then lines[|lines| - 1].parents else [];
    var includesRoot := lines != [] && oldestParents == [];
    var legal := |lines| == count && !(includesRoot && shallow);
    var includesMerge, _ := Scan(lines);
    s := Selection(legal, if legal then "last-from-tip" else "not-enough-or-shallow",
                   Oids(lines), None, includesMerge, includesRoot);
  }

  lemma {:induction false} LastLineParents(g: Graph, tip: Oid, count: nat, lines: seq<Line>)
    requires IsLastFromTip(g, tip, count, lines) && lines != []
    ensures var last := lines[|lines| - 1]; last.oid in g && last.parents == g[last.oid]
    decreases count
  {
    if g[tip] != [] && count > 1 {
      LastLineParents(g, g[tip][0], count - 1, lines[1..]);
    }
  }
}
