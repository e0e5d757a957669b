/** Finding the processes of a tree through /proc, on a fixed snapshot.

    The search is breadth-first over `/proc/<pid>/task/<tid>/children`. Its specification is a
    least fixed point: the smallest set that holds the root and every live child of its members.
 */
module ProcessTree {
  import opened Prelude

  /** One thread's `children` file. */
  datatype Thread = Children(pids: seq<int>) | NoFile(threadExists: bool) | Denied

  /** One process's `task` directory. */
  datatype Proc = NoTaskDir | Unlistable | Threads(threads: seq<Thread>)

  /** A pid is alive when it has an entry. */
  type Snapshot = map<int, Proc>

  ghost function ChildrenOf(proc: Snapshot, p: int): set<int> {
    if p in proc && proc[p].Threads? then ChildrenIn(proc[p].threads) else {}
  }

  ghost function ChildrenIn(threads: seq<Thread>): set<int> {
    if threads == [] then {}
    else
      var last := threads[|threads| - 1];
      ChildrenIn(threads[..|threads| - 1]) + if last.Children? then (set c | c in last.pids) else {}
  }

  ghost function LiveChildren(proc: Snapshot, p: int): set<int> {
    ChildrenOf(proc, p) * proc.Keys
  }

  /** The children of a process cannot be told for sure. */
  ghost predicate Blind(proc: Snapshot, p: int) {
    || p !in proc
    || !proc[p].Threads?
    || proc[p].threads == []
    || AnyBlind(proc[p].threads)
  }

  ghost predicate AnyBlind(threads: seq<Thread>) { exists t :: t in threads && (t.Denied? || t == NoFile(true)) }

  /** This thread's children cannot be told. */
  predicate BlindThread(t: Thread) { t.Denied? || (t.NoFile? && t.threadExists) }

  ghost predicate Closed(proc: Snapshot, s: set<int>) {
    forall p :: p in s ==> LiveChildren(proc, p) <= s
  }

  /** Inside every closed set that holds the root. */
  ghost predicate Least(proc: Snapshot, root: int, tree: set<int>) {
    forall s: set<int> :: root in s && Closed(proc, s) ==> tree <= s
  }

  /** The processes reachable from the root through live processes. */
  ghost predicate IsTree(proc: Snapshot, root: int, tree: set<int>) {
    root in tree && Closed(proc, tree) && Least(proc, root, tree)
  }

  ghost predicate DeadChild(proc: Snapshot, tree: set<int>, c: int) {
    c !in proc && exists p :: p in tree && c in ChildrenOf(proc, p)
  }

  lemma ElemsAppend(a: seq<int>, b: seq<int>)
    ensures Elems(a + b) == Elems(a) + Elems(b)
  {
  }

  /** `p` is reached by a chain of live children. */
  ghost predicate Reached(proc: Snapshot, root: int, path: seq<int>) {
    && |path| > 0 && path[0] == root
    && forall i :: 0 < i < |path| ==> path[i] in LiveChildren(proc, path[i - 1])
  }

  /** The fixed point in terms of paths: every member of the tree ends a chain, every chain stays
      inside. */
  lemma TreeIsReachable(proc: Snapshot, root: int, tree: set<int>, p: int)
    requires IsTree(proc, root, tree)
    ensures p in tree <==> exists path :: Reached(proc, root, path) && path[|path| - 1] == p
  {
    if path :| Reached(proc, root, path) && path[|path| - 1] == p {
      PathStaysInside(proc, root, tree, path, |path| - 1);
    }
    var reachable := set q | q in tree && exists path :: Reached(proc, root, path) && path[|path| - 1] == q;
    assert Reached(proc, root, [root]) && [root][|[root]| - 1] == root;
    forall q, c | q in reachable && c in LiveChildren(proc, q)
      ensures c in reachable
    {
      var path :| Reached(proc, root, path) && path[|path| - 1] == q;
      assert Reached(proc, root, path + [c]) && (path + [c])[|path + [c]| - 1] == c;
    }
    assert Closed(proc, reachable);
  }

  lemma {:induction false} PathStaysInside(proc: Snapshot, root: int, tree: set<int>, path: seq<int>, i: nat)
    requires IsTree(proc, root, tree) && Reached(proc, root, path) && i < |path|
    ensures path[i] in tree
  {
    if i > 0 {
      PathStaysInside(proc, root, tree, path, i - 1);
      assert path[i] in LiveChildren(proc, path[i - 1]);
    }
  }

  class Search {
    const proc: Snapshot
    const root: int
    const strict: bool
    var pids: seq<int>
    var visited: set<int>
    var queue: seq<int>
    var unreadable: seq<int>
    ghost var noted: set<int>  // processes noted for their own children file

    ghost predicate Shape()
      reads this
    {
      && NoDup(pids) && NoDup(unreadable)
      && root in pids
      && Elems(pids) <= visited && noted <= visited
      && (forall p :: p in pids ==> p == root || p in proc)
      && (forall p :: p in visited && p in proc ==> p in pids)
      && (forall u :: u in unreadable <==> (u in visited && u !in pids) || u in noted)
    }

    constructor (proc: Snapshot, root: int, strict: bool)
      ensures this.proc == proc && this.root == root && this.strict == strict
      ensures Shape() && pids == [root] && visited == {root} && queue == [root] && noted == {}
    {
      this.proc, this.root, this.strict := proc, root, strict;
      pids, visited, queue, unreadable, noted := [root], {root}, [root], [], {};
    }

    method Note(p: int)
      requires Shape() && p in pids
      modifies this`unreadable, this`noted
      ensures Shape() && noted == old(noted) + {p}
    {
      noted := noted + {p};
      if p !in unreadable { unreadable := unreadable + [p]; }
    }

    /** One entry of a children file: a live new child is queued, a dead one is reported. */
    method VisitChild(c: int) returns (ghost found: seq<int>)
      requires Shape()
      modifies this`pids, this`visited, this`queue, this`unreadable
      ensures Shape()
      ensures found == if c !in old(visited) && c in proc then [c] else []
      ensures pids == old(pids) + found && queue == old(queue) + found && visited == old(visited) + {c}
    {
      found := [];
      if c !in visited {
        visited := visited + {c};
        if c in proc {
          queue := queue + [c];
          pids := pids + [c];
          found := [c];
        } else if c !in unreadable {
          unreadable := unreadable + [c];
        }
      }
    }

    method VisitChildren(children: seq<int>) returns (ghost found: seq<int>)
      requires Shape()
      modifies this`pids, this`visited, this`queue, this`unreadable
      ensures Shape()
      ensures forall c :: c in found ==> c in children && c in proc && c !in old(visited)
      ensures pids == old(pids) + found && queue == old(queue) + found
      ensures visited == old(visited) + Elems(children)
    {
      found := [];
      for i := 0 to |children|
        invariant Shape()
        invariant forall c :: c in found ==> c in children && c in proc && c !in old(visited)
        invariant pids == old(pids) + found && queue == old(queue) + found
        invariant visited == old(visited) + Elems(children[..i])
      {
        ghost var more := VisitChild(children[i]);
        found := found + more;
        assert children[..i + 1] == children[..i] + [children[i]];
        ElemsAppend(children[..i], [children[i]]);
        assert Elems([children[i]]) == {children[i]};
      }
      assert children[..|children|] == children;
    }

    method VisitThread(curr: int, t: Thread) returns (ghost found: seq<int>)
      requires Shape() && curr in pids
      modifies this`pids, this`visited, this`queue, this`unreadable, this`noted
      ensures Shape()
      ensures forall c :: c in found ==> t.Children? && c in t.pids && c in proc && c !in old(visited)
      ensures pids == old(pids) + found && queue == old(queue) + found
      ensures visited == old(visited) + if t.Children? then Elems(t.pids) else {}
      ensures noted == old(noted) + if strict && BlindThread(t) then {curr} else {}
    {
      found := [];
      if t.Children? {
        found := VisitChildren(t.pids);
      } else if strict && BlindThread(t) {
        Note(curr);
      }
    }

    /** All children files of one process. */
    method VisitProcess(curr: int) returns (ghost found: seq<int>)
      requires Shape() && curr in pids
      modifies this`pids, this`visited, this`queue, this`unreadable, this`noted
      ensures Shape()
      ensures forall c :: c in found ==> c in ChildrenOf(proc, curr) && c in proc && c !in old(visited)
      ensures pids == old(pids) + found && queue == old(queue) + found
      ensures visited == old(visited) + ChildrenOf(proc, curr)
      ensures noted == old(noted) + if strict && Blind(proc, curr) then {curr} else {}
    {
      found := [];
      if curr !in proc || !proc[curr].Threads? {
        if strict { Note(curr); }
        return;
      }
      var threads := proc[curr].threads;
      if strict && threads == [] { Note(curr); }
      found := VisitThreads(curr, threads);
    }

    method VisitThreads(curr: int, threads: seq<Thread>) returns (ghost found: seq<int>)
      requires Shape() && curr in pids
      modifies this`pids, this`visited, this`queue, this`unreadable, this`noted
      ensures Shape()
      ensures forall c :: c in found ==> c in ChildrenIn(threads) && c in proc && c !in old(visited)
      ensures pids == old(pids) + found && queue == old(queue) + found
      ensures visited == old(visited) + ChildrenIn(threads)
      ensures noted == old(noted) + if strict && AnyBlind(threads) then {curr} else {}
    {
      found := [];
      for i := 0 to |threads|
        invariant Shape() && curr in pids
        invariant forall c :: c in found ==> c in ChildrenIn(threads[..i]) && c in proc && c !in old(visited)
        invariant pids == old(pids) + found && queue == old(queue) + found
        invariant visited == old(visited) + ChildrenIn(threads[..i])
        invariant noted == old(noted) + if strict && AnyBlind(threads[..i]) then {curr} else {}
      {
        OneMoreThread(threads, i);
        ghost var more := VisitThread(curr, threads[i]);
        found := found + more;
      }
      assert threads[..|threads|] == threads;
    }
  }

  lemma OneMoreThread(threads: seq<Thread>, i: nat)
    requires i < |threads|
    ensures AnyBlind(threads[..i + 1]) <==> AnyBlind(threads[..i]) || BlindThread(threads[i])
    ensures ChildrenIn(threads[..i + 1]) ==
            ChildrenIn(threads[..i]) + if threads[i].Children? then Elems(threads[i].pids) else {}
  {
    var upTo := threads[..i + 1];
    assert upTo == threads[..i] + [threads[i]] && upTo[..i] == threads[..i];
    AnyBlindSnoc(threads[..i], threads[i]);
  }

  lemma {:induction false} AnyBlindSnoc(threads: seq<Thread>, t: Thread)
    ensures AnyBlind(threads + [t]) <==> AnyBlind(threads) || BlindThread(t)
  {
    assert BlindThread(t) <==> t.Denied? || t == NoFile(true);
    assert forall u :: u in threads + [t] <==> u in threads || u == t;
  }

  lemma LeastGrows(proc: Snapshot, root: int, tree: set<int>, p: int, found: set<int>)
    requires Least(proc, root, tree) && p in tree
    requires found <= LiveChildren(proc, p)
    ensures Least(proc, root, tree + found)
  {
    forall s: set<int> | root in s && Closed(proc, s)
      ensures tree + found <= s
    {
      assert tree <= s && LiveChildren(proc, p) <= s;
    }
  }

  /** Between two processes: `done` are searched, `queue` are known and waiting. */
  ghost predicate Explored(proc: Snapshot, root: int, strict: bool, tree: set<int>, done: set<int>, queue: set<int>,
                           visited: set<int>, noted: set<int>) {
    && tree == done + queue
    && Least(proc, root, tree)
    && (forall c :: c in visited <==> c == root || exists p :: p in done && c in ChildrenOf(proc, p))
    && (forall p :: p in noted <==> strict && p in done && Blind(proc, p))
  }

  lemma ExploreOne(proc: Snapshot, root: int, strict: bool, tree: set<int>, done: set<int>, rest: set<int>,
                   visited: set<int>, noted: set<int>, curr: int, found: set<int>)
    requires Explored(proc, root, strict, tree, done, {curr} + rest, visited, noted)
    requires found <= LiveChildren(proc, curr)
    ensures Explored(proc, root, strict, tree + found, done + {curr}, rest + found, visited + ChildrenOf(proc, curr),
                     noted + if strict && Blind(proc, curr) then {curr} else {})
  {
    LeastGrows(proc, root, tree, curr, found);
    assert tree + found == done + {curr} + (rest + found);
  }

  lemma ExploredIsTree(proc: Snapshot, root: int, strict: bool, tree: set<int>, visited: set<int>, noted: set<int>)
    requires Explored(proc, root, strict, tree, tree, {}, visited, noted)
    requires root in tree && forall p :: p in visited && p in proc ==> p in tree
    requires forall p :: p in tree ==> p == root || p in proc
    ensures IsTree(proc, root, tree)
    ensures forall u :: (u in visited && u !in tree) || u in noted <==>
              DeadChild(proc, tree, u) || (strict && u in tree && Blind(proc, u))
  {
    forall p, c | p in tree && c in ChildrenOf(proc, p) && c in proc
      ensures c in tree
    {
      assert c in visited;
    }
    if root !in proc {
      assert tree == {root} by {
        assert Closed(proc, {root});
      }
    }
    forall u
      ensures u in visited && u !in tree <==> DeadChild(proc, tree, u)
    {
    }
  }

  /** `get_tree_pids` without the group scan: the tree, each process once, and the children that
      could not be read, each once. */
  method TreePids(proc: Snapshot, root: int, strict: bool)
    returns (pids: seq<int>, unreadable: seq<int>, visited: set<int>)
    ensures NoDup(pids) && NoDup(unreadable)
    ensures IsTree(proc, root, Elems(pids))
    ensures forall u :: u in unreadable <==>
              DeadChild(proc, Elems(pids), u) || (strict && u in pids && Blind(proc, u))
    ensures Elems(pids) <= visited && forall p :: p in visited && p in proc ==> p in pids
  {
    var search := new Search(proc, root, strict);
    ghost var done: set<int> := {};
    assert Elems([root]) == {root};
    while search.queue != []
      invariant search.proc == proc && search.root == root && search.strict == strict
      invariant search.Shape()
      invariant Explored(proc, root, strict, Elems(search.pids), done, Elems(search.queue), search.visited,
                         search.noted)
      decreases proc.Keys - search.visited, |search.queue|
    {
      var curr := search.queue[0];
      ghost var before, rest, was, noted := search.visited, search.queue[1..], search.pids, search.noted;
      assert search.queue == [curr] + rest && Elems([curr]) == {curr};
      ElemsAppend([curr], rest);
      assert curr in Elems(was);
      search.queue := search.queue[1..];
      ghost var found := search.VisitProcess(curr);
      ElemsAppend(was, found);
      ElemsAppend(rest, found);
      FoundAreChildren(proc, curr, found);
      ExploreOne(proc, root, strict, Elems(was), done, Elems(rest), before, noted, curr, Elems(found));
      done := done + {curr};
      if found != [] {
        assert found[0] in found && found[0] in search.pids && found[0] in Elems(search.pids);
        FewerUnvisited(proc, before, search.visited, found[0]);
      } else {
        FreshOrSame(proc, before, search.visited, Elems(search.pids));
      }
    }
    pids, unreadable, visited := search.pids, search.unreadable, search.visited;
    assert done == Elems(pids);
    ExploredIsTree(proc, root, strict, Elems(pids), visited, search.noted);
  }

  lemma FoundAreChildren(proc: Snapshot, p: int, found: seq<int>)
    requires forall c :: c in found ==> c in ChildrenOf(proc, p) && c in proc
    ensures Elems(found) <= LiveChildren(proc, p)
  {
    forall c | c in Elems(found)
      ensures c in LiveChildren(proc, p)
    {
      assert c in found;
    }
  }

  lemma FewerUnvisited(proc: Snapshot, before: set<int>, after: set<int>, p: int)
    requires before <= after && p in proc && p !in before && p in after
    ensures proc.Keys - after < proc.Keys - before
  {
    assert p in proc.Keys - before;
  }

  /** Without a found live child no live process was newly visited. */
  lemma FreshOrSame(proc: Snapshot, before: set<int>, after: set<int>, tree: set<int>)
    requires before <= after && tree <= before
    requires forall p :: p in after && p in proc ==> p in tree
    ensures proc.Keys - before == proc.Keys - after
  {
    assert forall p :: p in after && p in proc ==> p in before;
  }

  /** `get_tree_pids` with the scan for the rest of a process group. `listing` is the pids of /proc
      and `group` the pids for which `getpgid` answers the group asked for. */
  method GetTreePids(proc: Snapshot, root: int, strict: bool, group: set<int>, listing: seq<int>)
    returns (pids: seq<int>, unreadable: seq<int>, ghost tree: set<int>)
    requires Elems(listing) == proc.Keys
    ensures NoDup(pids) && NoDup(unreadable) && IsTree(proc, root, tree)
    ensures forall p :: p in pids <==> p in tree || (p in proc && p in group)
    ensures forall u :: u in unreadable <==> DeadChild(proc, tree, u) || (strict && u in tree && Blind(proc, u))
  {
    var visited: set<int>;
    pids, unreadable, visited := TreePids(proc, root, strict);
    tree := Elems(pids);
    for i := 0 to |listing|
      invariant NoDup(pids) && Elems(pids) <= visited
      invariant forall p :: p in visited && p in proc ==> p in pids
      invariant forall p :: p in pids <==> p in tree || (p in listing[..i] && p in group)
    {
      var pid := listing[i];
      assert listing[..i + 1] == listing[..i] + [pid];
      assert pid in Elems(listing);
      if pid !in visited && pid in group {
        visited := visited + {pid};
        pids := pids + [pid];
      }
    }
    assert listing[..|listing|] == listing;
    assert forall p :: p in listing <==> p in Elems(listing);
  }
}
