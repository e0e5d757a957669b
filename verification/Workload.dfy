/** The shape of a generated benchmark history: its commits, the paths each one writes, its refs.
 */
module Workload {
  import opened Prelude

  /** The eight fixed files by position, the numbered ones by number. */
  datatype Path = Fixed(k: nat) | Numbered(i: nat)

  /** `parents` by mark, `from` first. */
  datatype Commit = Commit(parents: seq<nat>, writes: seq<Path>)

  datatype Ref = Main | Divergent | Topic(n: nat) | Tag(n: nat)

  /** commits[k] has mark k + 1; the last one is the head of main. */
  datatype History = History(commits: seq<Commit>, refs: map<Ref, nat>)

  function Max(a: int, b: int): int { if a < b then b else a }

  function Range(from: nat, to: nat): (s: seq<Path>)
    requires from <= to
    ensures |s| == to - from
  {
    seq(to - from, i requires 0 <= i < to - from => Numbered(from + i))
  }

  /** A commit reaches itself and what its parents reach; parents are earlier. */
  ghost predicate Reaches(commits: seq<Commit>, from: nat, to: nat)
    requires 1 <= from <= |commits|
    decreases from
  {
    from == to || exists p :: p in commits[from - 1].parents && 1 <= p < from && Reaches(commits, p, to)
  }

  /** The paths in a commit's tree: those of its first parent and those it writes. */
  ghost function TreePaths(commits: seq<Commit>, mark: nat): set<Path>
    requires 1 <= mark <= |commits|
    decreases mark
  {
    var c := commits[mark - 1];
    Elems(c.writes) + if c.parents != [] && 1 <= c.parents[0] < mark then TreePaths(commits, c.parents[0]) else {}
  }

  // ----- spreading the paths -----

  function CeilDiv(a: nat, b: nat): nat
    requires b > 0
  {
    (a + b - 1) / b
  }

  /** `left` paths over `steps` commits, all shares being `q` or `q + 1`. */
  predicate Even(left: nat, steps: nat, q: nat) { q * steps <= left <= (q + 1) * steps }

  lemma MulMono(a: int, b: int, d: nat)
    requires a <= b
    ensures a * d <= b * d
  {
  }

  lemma QuotientIs(n: nat, d: nat, q: nat)
    requires d > 0 && q * d <= n < (q + 1) * d
    ensures n / d == q
  {
    var k := n / d;
    assert k * d <= n < (k + 1) * d;
    if k < q { MulMono(k + 1, q, d); }
    if q < k { MulMono(q + 1, k, d); }
  }

  lemma ShareIsEven(left: nat, steps: nat, q: nat)
    requires steps > 0 && Even(left, steps, q)
    ensures var a := CeilDiv(left, steps);
            && a == (if left == q * steps then q else q + 1)
            && a <= left && Even(left - a, steps - 1, q)
            && (a == q ==> left - a == q * (steps - 1))
  {
    assert q * steps == q * (steps - 1) + q;
    assert (q + 1) * steps == q * steps + steps;
    assert (q + 1) * (steps - 1) == q * (steps - 1) + (steps - 1);
    if left == q * steps {
      QuotientIs(left + steps - 1, steps, q);
      MulMono(1, steps, q);
    } else {
      assert (q + 2) * steps == (q + 1) * steps + steps;
      QuotientIs(left + steps - 1, steps, q + 1);
      MulMono(1, steps, q);
    }
  }

  lemma EvenAtStart(left: nat, steps: nat)
    requires steps > 0
    ensures Even(left, steps, left / steps)
  {
    assert left == left / steps * steps + left % steps;
    assert (left / steps + 1) * steps == left / steps * steps + steps;
  }

  /** What the loop takes at each step: the remaining paths over the remaining commits, rounded up. */
  ghost function Shares(left: nat, steps: nat): seq<nat>
    decreases steps
  {
    if steps == 0 then []
    else
      var a := CeilDiv(left, steps);
      [a] + Shares(if a <= left then left - a else 0, steps - 1)
  }

  function Sum(s: seq<nat>): nat {
    if s == [] then 0 else s[0] + Sum(s[1..])
  }

  /** Shares never increase, differ by at most one, and place every path once. */
  ghost predicate Fair(shares: seq<nat>, total: nat) {
    && (forall i, j :: 0 <= i <= j < |shares| ==> shares[j] <= shares[i] <= shares[j] + 1)
    && Sum(shares) == total
  }

  lemma {:induction false} SharesAreEven(left: nat, steps: nat, q: nat)
    requires Even(left, steps, q)
    ensures var s := Shares(left, steps);
            && |s| == steps && Sum(s) == left
            && (forall i :: 0 <= i < steps ==> s[i] == q || (s[i] == q + 1 && left != q * steps))
            && (forall i, j :: 0 <= i <= j < steps ==> s[j] <= s[i])
    decreases steps
  {
    if steps > 0 {
      var a := CeilDiv(left, steps);
      ShareIsEven(left, steps, q);
      SharesAreEven(left - a, steps - 1, q);
      var s, rest := Shares(left, steps), Shares(left - a, steps - 1);
      assert s == [a] + rest && s[1..] == rest;
      assert forall i :: 0 < i < steps ==> s[i] == rest[i - 1];
    }
  }

  lemma SharesAreFair(left: nat, steps: nat)
    requires steps > 0
    ensures |Shares(left, steps)| == steps && Fair(Shares(left, steps), left)
  {
    EvenAtStart(left, steps);
    SharesAreEven(left, steps, left / steps);
  }

  /** The commit that writes `share` numbered paths from `from` on, or the README if there are none. */
  predicate IsShare(c: Commit, parent: nat, from: nat, share: nat) {
    c.parents == [parent] && c.writes == if share == 0 then [Fixed(0)] else Range(from, from + share)
  }

  /** A share is written in order, from the first number on; without a share only the README is. */
  lemma ShareWrites(c: Commit, parent: nat, from: nat, share: nat)
    requires IsShare(c, parent, from, share)
    ensures share == 0 ==> c.writes == [Fixed(0)]
    ensures share > 0 ==> |c.writes| == share && forall i :: 0 <= i < share ==> c.writes[i] == Numbered(from + i)
  {
  }

  function ShareCommit(parent: nat, from: nat, share: nat): (c: Commit)
    ensures IsShare(c, parent, from, share)
  {
    Commit([parent], if share > 0 then Range(from, from + share) else [Fixed(0)])
  }

  /** The later commits of main, each on the one before it, each with its share in order. */
  ghost predicate Spread(more: seq<Commit>, shares: seq<nat>, parent: nat, from: nat)
    decreases |more|
  {
    |more| == |shares| &&
    (more != [] ==>
       && IsShare(more[0], parent, from, shares[0])
       && Spread(more[1..], shares[1..], parent + 1, from + shares[0]))
  }

  lemma {:induction false} SpreadSnoc(more: seq<Commit>, shares: seq<nat>, parent: nat, from: nat, c: Commit,
                                      share: nat)
    requires Spread(more, shares, parent, from) && IsShare(c, parent + |more|, from + Sum(shares), share)
    ensures Spread(more + [c], shares + [share], parent, from) && Sum(shares + [share]) == Sum(shares) + share
    decreases |more|
  {
    var m, s := more + [c], shares + [share];
    if more == [] {
      assert m[1..] == [] && s[1..] == [];
    } else {
      assert m[1..] == more[1..] + [c] && s[1..] == shares[1..] + [share];
      SpreadSnoc(more[1..], shares[1..], parent + 1, from + shares[0], c, share);
    }
  }

  /** Share `k` of a plan is what is left over the commits left, rounded up, and it is there to take. */
  ghost predicate ShareAt(all: seq<nat>, total: nat, k: nat)
    requires k < |all|
  {
    Sum(all[..k]) + all[k] <= total && all[k] == CeilDiv(total - Sum(all[..k]), |all| - k)
  }

  lemma CeilDivFits(left: nat, steps: nat)
    requires steps > 0
    ensures CeilDiv(left, steps) <= left
  {
    EvenAtStart(left, steps);
    ShareIsEven(left, steps, left / steps);
  }

  lemma {:induction false} SharesByPosition(left: nat, steps: nat, all: seq<nat>, k: nat)
    requires all == Shares(left, steps) && k < |all| == steps
    ensures ShareAt(all, left, k) && Sum(all[..k + 1]) == Sum(all[..k]) + all[k]
    decreases k
  {
    var a, rest := FirstShare(left, steps, all);
    if k == 0 {
      assert all[..0] == [] && all[..1] == [a] && [a][1..] == [];
    } else {
      SharesByPosition(left - a, steps - 1, rest, k - 1);
      LaterShare(left, all, a, rest, k);
    }
  }

  /** The first share and the plan of what it leaves. */
  lemma {:induction false} FirstShare(left: nat, steps: nat, all: seq<nat>) returns (a: nat, rest: seq<nat>)
    requires all == Shares(left, steps) && |all| == steps > 0
    ensures a == CeilDiv(left, steps) <= left && all == [a] + rest && rest == Shares(left - a, steps - 1)
  {
    CeilDivFits(left, steps);
    a, rest := CeilDiv(left, steps), all[1..];
  }

  /** Share `k` of a plan is share `k - 1` of the plan without its first share. */
  lemma {:induction false} LaterShare(left: nat, all: seq<nat>, a: nat, rest: seq<nat>, k: nat)
    requires all == [a] + rest && 0 < k < |all| && a <= left
    requires ShareAt(rest, left - a, k - 1) && Sum(rest[..k]) == Sum(rest[..k - 1]) + rest[k - 1]
    ensures ShareAt(all, left, k) && Sum(all[..k + 1]) == Sum(all[..k]) + all[k]
  {
    assert all[..k][1..] == rest[..k - 1] && all[..k + 1][1..] == rest[..k];
    assert |rest| - (k - 1) == |all| - k && left - a - Sum(rest[..k - 1]) == left - Sum(all[..k]);
  }

  /** One pass of the loop, seen from the plan. */
  lemma {:induction false} OneMoreShare(more: seq<Commit>, shares: seq<nat>, step: nat, parent: nat, start: nat,
                                        next: nat, c: Commit)
    requires |more| == step < |shares| && Spread(more, shares[..step], parent, start)
    requires next == start + Sum(shares[..step]) && IsShare(c, parent + step, next, shares[step])
    ensures Spread(more + [c], shares[..step + 1], parent, start)
  {
    SpreadSnoc(more, shares[..step], parent, start, c, shares[step]);
    assert shares[..step + 1] == shares[..step] + [shares[step]];
  }

  method TakeShare(left: nat, steps: nat, ghost all: seq<nat>, ghost total: nat, ghost k: nat) returns (share: nat)
    requires k < |all| && steps == |all| - k && left + Sum(all[..k]) == total && all == Shares(total, |all|)
    ensures share == all[k] <= left && Sum(all[..k + 1]) == Sum(all[..k]) + all[k]
  {
    SharesByPosition(total, |all|, all, k);
    share := CeilDiv(left, steps);
  }

  /** The ceiling-division loop. `shares` is its plan. */
  method SpreadPaths(parent: nat, start: nat, end: nat, steps: nat, ghost shares: seq<nat>) returns (more: seq<Commit>)
    requires steps > 0 && start <= end
    requires |shares| == steps && shares == Shares(end - start, steps)
    ensures Spread(more, shares, parent, start)
  {
    more := [];
    var next := start;
    ghost var total := end - start;
    for step := 0 to steps
      invariant |more| == step && Spread(more, shares[..step], parent, start)
      invariant start <= next <= end && Sum(shares[..step]) == next - start
    {
      var share := TakeShare(end - next, steps - step, shares, total, step);
      var c := ShareCommit(parent + step, next, share);
      OneMoreShare(more, shares, step, parent, start, next, c);
      more, next := more + [c], next + share;
    }
    assert shares[..steps] == shares;
  }

  lemma {:induction false} SpreadAt(more: seq<Commit>, shares: seq<nat>, parent: nat, from: nat, i: nat)
    requires Spread(more, shares, parent, from) && i < |more|
    ensures IsShare(more[i], parent + i, from + Sum(shares[..i]), shares[i])
    ensures Sum(shares[..i + 1]) == Sum(shares[..i]) + shares[i]
  {
    if i == 0 {
      assert shares[..1] == [shares[0]] && shares[..0] == [] && [shares[0]][1..] == [];
    } else {
      SpreadAt(more[1..], shares[1..], parent + 1, from + shares[0], i - 1);
      SumFirst(shares, i);
      SumFirst(shares, i + 1);
    }
  }

  lemma {:induction false} SumFirst(shares: seq<nat>, i: nat)
    requires 0 < i <= |shares|
    ensures Sum(shares[..i]) == shares[0] + Sum(shares[1..][..i - 1])
  {
    assert shares[..i][1..] == shares[1..][..i - 1];
  }

  // ----- the whole history -----

  const FIXED_FIRST: seq<Path> := [Fixed(0), Fixed(1), Fixed(2), Fixed(3), Fixed(4), Fixed(5)]

  function Numbers(numFiles: int): nat { Max(0, Max(8, numFiles) - 8) }

  /** Base commit, divergent branch, mainline commit, merge; then one commit per share. */
  ghost predicate Shape(commits: seq<Commit>, half: nat, shares: seq<nat>) {
    && |commits| == 4 + |shares|
    && commits[0] == Commit([], FIXED_FIRST + Range(1, 1 + half))
    && commits[1] == Commit([1], [Fixed(6)])
    && commits[2] == Commit([1], [Fixed(7)])
    && commits[3] == Commit([3, 2], [Fixed(6)])
    && Spread(commits[4..], shares, 4, 1 + half)
  }

  ghost function SharesOf(numCommits: int, numFiles: int): seq<nat> {
    var n := Numbers(numFiles);
    Shares(n - n / 2, Max(1, Max(4, numCommits) - 4))
  }

  ghost predicate IsWorkload(commits: seq<Commit>, numCommits: int, numFiles: int) {
    Shape(commits, Numbers(numFiles) / 2, SharesOf(numCommits, numFiles))
  }

  /** Every commit is reachable from main. */
  lemma {:induction false} ReachesAll(commits: seq<Commit>, half: nat, shares: seq<nat>, from: nat, to: nat)
    requires Shape(commits, half, shares) && 4 <= from <= |commits| && 1 <= to <= from
    ensures Reaches(commits, from, to)
    decreases from
  {
    if from == 4 {
      assert Reaches(commits, 1, 1) && 1 in commits[2].parents && Reaches(commits, 3, 1);
      assert 3 in commits[3].parents && 2 in commits[3].parents;
      assert Reaches(commits, 3, 3) && Reaches(commits, 2, 2);
    } else if to < from {
      SpreadAt(commits[4..], shares, 4, 1 + half, from - 5);
      assert commits[4..][from - 5] == commits[from - 1];
      ReachesAll(commits, half, shares, from - 1, to);
      assert from - 1 in commits[from - 1].parents;
    }
  }

  ghost function AllPaths(numbered: nat): set<Path> {
    (set k | 0 <= k < 8 :: Fixed(k)) + Elems(Range(1, 1 + numbered))
  }

  lemma TreeOfMerge(commits: seq<Commit>, half: nat, shares: seq<nat>)
    requires Shape(commits, half, shares)
    ensures TreePaths(commits, 4) == AllPaths(half)
  {
    assert TreePaths(commits, 1) == Elems(FIXED_FIRST + Range(1, 1 + half))
           == Elems(FIXED_FIRST) + Elems(Range(1, 1 + half));
    assert Elems([Fixed(6)]) == {Fixed(6)} && Elems([Fixed(7)]) == {Fixed(7)};
    assert commits[3].parents[0] == 3 && commits[2].parents[0] == 1;
    assert TreePaths(commits, 3) == {Fixed(7)} + TreePaths(commits, 1);
    assert TreePaths(commits, 4) == {Fixed(6)} + TreePaths(commits, 3);
    FixedEight();
  }

  lemma FixedEight()
    ensures (set k | 0 <= k < 8 :: Fixed(k)) == Elems(FIXED_FIRST) + {Fixed(6), Fixed(7)}
  {
    var all := set k | 0 <= k < 8 :: Fixed(k);
    assert forall k :: 0 <= k < 6 ==> FIXED_FIRST[k] == Fixed(k);
    assert forall k :: 0 <= k < 6 ==> Fixed(k) in Elems(FIXED_FIRST);
    assert forall p :: p in all ==> p in Elems(FIXED_FIRST) + {Fixed(6), Fixed(7)};
  }

  /** The tree grows by each share in turn. */
  lemma {:induction false} TreeAfter(commits: seq<Commit>, half: nat, shares: seq<nat>, i: nat)
    requires Shape(commits, half, shares) && i <= |shares|
    ensures TreePaths(commits, 4 + i) == AllPaths(half + Sum(shares[..i]))
  {
    if i == 0 {
      TreeOfMerge(commits, half, shares);
      assert shares[..0] == [];
    } else {
      TreeAfter(commits, half, shares, i - 1);
      NextTree(commits, half, shares, i);
      GrowPaths(half + Sum(shares[..i - 1]), shares[i - 1], Elems(commits[3 + i].writes));
    }
  }

  lemma {:induction false} NextTree(commits: seq<Commit>, half: nat, shares: seq<nat>, i: nat)
    requires Shape(commits, half, shares) && 0 < i <= |shares|
    ensures TreePaths(commits, 4 + i) == Elems(commits[3 + i].writes) + TreePaths(commits, 3 + i)
    ensures IsShare(commits[3 + i], 3 + i, 1 + half + Sum(shares[..i - 1]), shares[i - 1])
    ensures Sum(shares[..i]) == Sum(shares[..i - 1]) + shares[i - 1]
  {
    SpreadAt(commits[4..], shares, 4, 1 + half, i - 1);
    assert commits[4..][i - 1] == commits[3 + i];
    assert commits[3 + i].parents == [3 + i];
  }

  lemma GrowPaths(numbered: nat, share: nat, writes: set<Path>)
    requires writes == if share == 0 then Elems([Fixed(0)]) else Elems(Range(1 + numbered, 1 + numbered + share))
    ensures writes + AllPaths(numbered) == AllPaths(numbered + share)
  {
    if share == 0 {
      assert Fixed(0) in (set k | 0 <= k < 8 :: Fixed(k));
      assert writes == {Fixed(0)};
    } else {
      RangeSplit(1, 1 + numbered, 1 + numbered + share);
    }
  }

  lemma RangeSplit(a: nat, b: nat, c: nat)
    requires a <= b <= c
    ensures Elems(Range(a, c)) == Elems(Range(a, b)) + Elems(Range(b, c))
  {
    assert Range(a, c) == Range(a, b) + Range(b, c);
  }

  /** The tip holds the eight fixed paths and every numbered one. */
  lemma {:induction false} TipTree(commits: seq<Commit>, numCommits: int, numFiles: int)
    requires IsWorkload(commits, numCommits, numFiles)
    ensures Holds(TreePaths(commits, |commits|), numFiles - 8)
    ensures |TreePaths(commits, |commits|)| == if numFiles >= 8 then numFiles else 8
  {
    TipIsAll(commits, numCommits, numFiles);
    AllAre(TreePaths(commits, |commits|), numFiles);
  }

  lemma {:induction false} TipIsAll(commits: seq<Commit>, numCommits: int, numFiles: int)
    requires IsWorkload(commits, numCommits, numFiles)
    ensures TreePaths(commits, |commits|) == AllPaths(Numbers(numFiles))
  {
    WorkloadIsFair(numCommits, numFiles);
    LastTree(commits, Numbers(numFiles) / 2, SharesOf(numCommits, numFiles));
  }

  lemma {:induction false} AllAre(tree: set<Path>, numFiles: int)
    requires tree == AllPaths(Numbers(numFiles))
    ensures Holds(tree, numFiles - 8) && |tree| == if numFiles >= 8 then numFiles else 8
  {
    PathsAre(Numbers(numFiles));
    CountPaths(Numbers(numFiles));
    HoldsNone(tree, Numbers(numFiles), numFiles - 8);
  }

  lemma {:induction false} HoldsNone(tree: set<Path>, n: int, m: int)
    requires Holds(tree, n) && (n == m || (n <= 0 && m <= 0))
    ensures Holds(tree, m)
  {
  }

  /** The eight fixed files, and the numbered ones from 1 to `numbered`, of which there may be none. */
  ghost predicate Holds(tree: set<Path>, numbered: int) {
    forall p :: p in tree <==> match p case Fixed(k) => k < 8 case Numbered(i) => 1 <= i <= numbered
  }

  lemma {:induction false} PathsAre(numbered: nat)
    ensures Holds(AllPaths(numbered), numbered)
  {
    var r := Range(1, 1 + numbered);
    forall p
      ensures p in AllPaths(numbered) <==> match p case Fixed(k) => k < 8 case Numbered(i) => 1 <= i <= numbered
    {
      if p.Numbered? && 1 <= p.i <= numbered { assert r[p.i - 1] == p; }
    }
  }

  lemma {:induction false} LastTree(commits: seq<Commit>, half: nat, shares: seq<nat>)
    requires Shape(commits, half, shares)
    ensures TreePaths(commits, |commits|) == AllPaths(half + Sum(shares))
  {
    TreeAfter(commits, half, shares, |shares|);
    assert shares[..|shares|] == shares;
  }

  /** The shares of one workload are fair and place every path that the base commit does not. */
  lemma WorkloadIsFair(numCommits: int, numFiles: int)
    ensures var n := Numbers(numFiles);
            && |SharesOf(numCommits, numFiles)| == Max(1, Max(4, numCommits) - 4)
            && Fair(SharesOf(numCommits, numFiles), n - n / 2)
  {
    var n := Numbers(numFiles);
    SharesAreFair(n - n / 2, Max(1, Max(4, numCommits) - 4));
  }

  lemma {:induction false} NextNumber(numbered: nat)
    ensures AllPaths(numbered + 1) == AllPaths(numbered) + {Numbered(numbered + 1)}
    ensures Numbered(numbered + 1) !in AllPaths(numbered)
  {
    var last := Range(1 + numbered, 2 + numbered);
    assert last == [Numbered(numbered + 1)];
    assert Elems(last) == {Numbered(numbered + 1)};
    GrowPaths(numbered, 1, Elems(last));
  }

  lemma {:induction false} CountPaths(numbered: nat)
    ensures |AllPaths(numbered)| == 8 + numbered
  {
    if numbered == 0 {
      var eight := set k | 0 <= k < 8 :: Fixed(k);
      assert Elems(Range(1, 1)) == {};
      assert AllPaths(0) == eight;
      CountFixed(8);
    } else {
      var before := AllPaths(numbered - 1);
      CountPaths(numbered - 1);
      NextNumber(numbered - 1);
      assert |before + {Numbered(numbered)}| == |before| + 1;
    }
  }

  lemma {:induction false} CountFixed(m: nat)
    ensures |(set k | 0 <= k < m :: Fixed(k))| == m
  {
    if m > 0 {
      CountFixed(m - 1);
      assert (set k | 0 <= k < m :: Fixed(k)) == (set k | 0 <= k < m - 1 :: Fixed(k)) + {Fixed(m - 1)};
    }
  }

  // ----- refs -----

  /** The clamp to 1..head never changes an evenly spaced target. */
  function Target(b: nat, count: nat, head: nat): nat
    requires head > 0
  {
    Max(1, Min(head, 1 + b * (head / (count + 1))))
  }

  lemma ClampIsIdle(b: nat, count: nat, head: nat)
    requires head > 0 && 1 <= b <= count
    ensures Target(b, count, head) == 1 + b * (head / (count + 1)) && 1 <= Target(b, count, head) <= head
  {
    var q := head / (count + 1);
    assert q * (count + 1) <= head;
    assert q * (count + 1) == count * q + q;
    MulMono(b, count, q);
    if q == 0 {
      assert b * q == 0;
    }
  }

  ghost predicate InRange(refs: map<Ref, nat>, head: nat) {
    forall k :: k in refs ==> 1 <= refs[k] <= head
  }

  ghost predicate RefAt(refs: map<Ref, nat>, name: Ref, target: nat) { name in refs && refs[name] == target }

  function Name(tags: bool, n: nat): Ref { if tags then Tag(n) else Topic(n) }

  /** Evenly spaced refs on main. */
  method AddRefs(refs: map<Ref, nat>, count: nat, head: nat, tags: bool) returns (r: map<Ref, nat>)
    requires head > 0 && InRange(refs, head)
    requires forall k :: k in refs ==> if tags then !k.Tag? else !k.Topic?
    ensures |r| == |refs| + count && InRange(r, head)
    ensures forall k :: k in refs ==> k in r && r[k] == refs[k]
    ensures forall k :: k in r ==> k in refs || k == Name(tags, if k.Topic? || k.Tag? then k.n else 0)
    ensures Spaced(r, count, head, tags)
  {
    r := refs;
    for b := 1 to count + 1
      invariant RefsSoFar(refs, r, b, count, head, tags)
    {
      OneMoreRef(refs, r, b, count, head, tags);
      r := r[Name(tags, b) := Target(b, count, head)];
    }
  }

  /** The new refs below number `b` are there, and the old ones. */
  ghost predicate RefsSoFar(refs: map<Ref, nat>, r: map<Ref, nat>, b: nat, count: nat, head: nat, tags: bool)
    requires b > 0
  {
    && |r| == |refs| + b - 1 && InRange(r, head)
    && (forall k :: k in refs ==> k in r && r[k] == refs[k])
    && (forall k :: k in r ==> k in refs || IsNew(k, b, tags))
    && SpacedBelow(r, b, count, head, tags)
  }

  ghost predicate SpacedBelow(r: map<Ref, nat>, b: nat, count: nat, head: nat, tags: bool) {
    forall n :: 1 <= n < b ==> RefAt(r, if tags then Tag(n) else Topic(n), 1 + n * (head / (count + 1)))
  }

  predicate IsNew(k: Ref, b: nat, tags: bool) {
    if tags then k.Tag? && k.n < b else k.Topic? && k.n < b
  }

  lemma OneMoreRef(refs: map<Ref, nat>, r: map<Ref, nat>, b: nat, count: nat, head: nat, tags: bool)
    requires head > 0 && 1 <= b <= count && RefsSoFar(refs, r, b, count, head, tags)
    requires forall k :: k in refs ==> if tags then !k.Tag? else !k.Topic?
    ensures RefsSoFar(refs, r[Name(tags, b) := Target(b, count, head)], b + 1, count, head, tags)
  {
    var name, target := Name(tags, b), Target(b, count, head);
    ClampIsIdle(b, count, head);
    assert name !in r;
    AddRef(refs, r, b, head, tags, name, target);
    AddSpaced(r, b, count, head, tags, target);
  }

  lemma AddRef(refs: map<Ref, nat>, r: map<Ref, nat>, b: nat, head: nat, tags: bool, name: Ref, target: nat)
    requires name == Name(tags, b) && name !in r && 1 <= target <= head && InRange(r, head)
    requires forall k :: k in refs ==> k in r && r[k] == refs[k]
    requires forall k :: k in r ==> k in refs || IsNew(k, b, tags)
    ensures var now := r[name := target];
            && |now| == |r| + 1 && InRange(now, head)
            && (forall k :: k in refs ==> k in now && now[k] == refs[k])
            && (forall k :: k in now ==> k in refs || IsNew(k, b + 1, tags))
  {
    assert r[name := target].Keys == r.Keys + {name};
  }

  lemma AddSpaced(r: map<Ref, nat>, b: nat, count: nat, head: nat, tags: bool, target: nat)
    requires SpacedBelow(r, b, count, head, tags) && target == 1 + b * (head / (count + 1))
    ensures SpacedBelow(r[Name(tags, b) := target], b + 1, count, head, tags)
  {
    forall n | 1 <= n < b + 1
      ensures Name(tags, n) == Name(tags, b) <==> n == b
    {
    }
  }

  method GenerateCommits(numCommits: int, numFiles: int) returns (commits: seq<Commit>)
    ensures IsWorkload(commits, numCommits, numFiles)
  {
    var n := Numbers(numFiles);
    var half := n / 2;
    WorkloadIsFair(numCommits, numFiles);
    var more := SpreadPaths(4, 1 + half, 1 + n, Max(1, Max(4, numCommits) - 4), SharesOf(numCommits, numFiles));
    commits := [Commit([], FIXED_FIRST + Range(1, 1 + half)), Commit([1], [Fixed(6)]),
                Commit([1], [Fixed(7)]), Commit([3, 2], [Fixed(6)])] + more;
    assert commits[4..] == more;
  }

  /** Refs of one kind stand evenly spaced on main. */
  ghost predicate Spaced(refs: map<Ref, nat>, count: nat, head: nat, tags: bool) {
    forall n :: 1 <= n <= count ==> RefAt(refs, if tags then Tag(n) else Topic(n), 1 + n * (head / (count + 1)))
  }

  /** Main at the head, the divergent branch at mark 2, half of the rest topics, half tags; no others. */
  ghost predicate IsRefs(refs: map<Ref, nat>, numRefs: int, head: nat) {
    var extra := if numRefs > 2 then numRefs - 2 else 0;
    && |refs| == 2 + extra
    && Main in refs && refs[Main] == head && Divergent in refs && refs[Divergent] == 2
    && Spaced(refs, extra / 2, head, false) && Spaced(refs, extra - extra / 2, head, true)
  }

  method Branches(count: nat, head: nat) returns (r: map<Ref, nat>)
    requires head >= 2
    ensures |r| == 2 + count && InRange(r, head) && forall k :: k in r ==> !k.Tag?
    ensures Main in r && r[Main] == head && Divergent in r && r[Divergent] == 2
    ensures Spaced(r, count, head, false)
  {
    var first := map[Main := head, Divergent := 2];
    assert first.Keys == {Main, Divergent};
    assert |first| == |first.Keys| == 2;
    r := AddRefs(first, count, head, false);
  }

  method GenerateRefs(numRefs: int, head: nat) returns (refs: map<Ref, nat>)
    requires head >= 2
    ensures IsRefs(refs, numRefs, head) && InRange(refs, head)
  {
    var extra := Max(0, Max(2, numRefs) - 2);
    var half := extra / 2;
    var topics := Branches(half, head);
    refs := AddRefs(topics, extra - half, head, true);
    TopicsStay(topics, refs, half, head);
  }

  lemma TopicsStay(topics: map<Ref, nat>, refs: map<Ref, nat>, count: nat, head: nat)
    requires Spaced(topics, count, head, false) && forall k :: k in topics ==> k in refs && refs[k] == topics[k]
    ensures Spaced(refs, count, head, false)
  {
  }

  /** `generate_fast_import_stream`, its history and refs. */
  method Generate(numCommits: int, numFiles: int, numRefs: int) returns (h: History)
    ensures IsWorkload(h.commits, numCommits, numFiles)
    ensures IsRefs(h.refs, numRefs, |h.commits|) && InRange(h.refs, |h.commits|)
  {
    var commits := GenerateCommits(numCommits, numFiles);
    WorkloadIsFair(numCommits, numFiles);
    var refs := GenerateRefs(numRefs, |commits|);
    h := History(commits, refs);
  }

  /** Asking for four commits gives five. */
  lemma FourCommitsGiveFive(commits: seq<Commit>, numFiles: int)
    requires IsWorkload(commits, 4, numFiles)
    ensures |commits| == 5 && forall to :: 1 <= to <= 5 ==> Reaches(commits, 5, to)
  {
    RequestedCounts(commits, 4, numFiles);
  }

  /** The tip reaches every commit. There are as many commits as asked for exactly from five on: below
      that the loop still adds one commit after the merge, so four or fewer give five. There are as
      many paths as asked for exactly from eight on. */
  lemma RequestedCounts(commits: seq<Commit>, numCommits: int, numFiles: int)
    requires IsWorkload(commits, numCommits, numFiles)
    ensures |commits| == if numCommits >= 5 then numCommits else 5
    ensures |commits| == numCommits <==> numCommits >= 5
    ensures |TreePaths(commits, |commits|)| == numFiles <==> numFiles >= 8
    ensures forall to :: 1 <= to <= |commits| ==> Reaches(commits, |commits|, to)
  {
    WorkloadIsFair(numCommits, numFiles);
    TipTree(commits, numCommits, numFiles);
    forall to | 1 <= to <= |commits|
      ensures Reaches(commits, |commits|, to)
    {
      ReachesAll(commits, Numbers(numFiles) / 2, SharesOf(numCommits, numFiles), |commits|, to);
    }
  }
}
