/** Splitting the acceptance steps into shards and folding shard reports back into one verdict. */
module Shards {
  import opened Prelude

  type StepId(==,!new) = string

  /** Python's `s[start::step]`. */
  function Stride<T>(s: seq<T>, start: nat, step: nat): seq<T>
    requires step > 0
    decreases |s| - start
  {
    if start >= |s| then [] else [s[start]] + Stride(s, start + step, step)
  }

  /** A stride holds the elements at start, start + step, start + 2 * step, and so on, and no more. */
  lemma {:induction false} StrideAt<T>(s: seq<T>, start: nat, step: nat, i: nat)
    requires step > 0
    ensures i < |Stride(s, start, step)| <==> start + i * step < |s|
    ensures i < |Stride(s, start, step)| ==> Stride(s, start, step)[i] == s[start + i * step]
    decreases i
  {
    if i > 0 {
      assert start + step + (i - 1) * step == start + i * step;
      if start < |s| { StrideAt(s, start + step, step, i - 1); }
    }
  }

  /** `shard_steps`: shard k of n, 1 <= k <= n. */
  function ShardSteps(ids: seq<StepId>, k: nat, n: nat): seq<StepId>
    requires 1 <= k <= n
  {
    Stride(ids, k - 1, n)
  }

  /** The i-th step of shard k is the one at position k - 1 + i * n. */
  lemma {:induction false} ShardStepsAt(ids: seq<StepId>, k: nat, n: nat, i: nat)
    requires 1 <= k <= n
    ensures i < |ShardSteps(ids, k, n)| <==> k - 1 + i * n < |ids|
    ensures i < |ShardSteps(ids, k, n)| ==> ShardSteps(ids, k, n)[i] == ids[k - 1 + i * n]
  {
    StrideAt(ids, k - 1, n, i);
  }

  /** The first `m` strides one after the other. */
  function Strides<T>(s: seq<T>, n: nat, m: nat): seq<T>
    requires n > 0
  {
    if m == 0 then [] else Strides(s, n, m - 1) + Stride(s, m - 1, n)
  }

  /** Position `p` is on the stride from `start`. */
  predicate OnStride(p: nat, start: nat, step: nat)
    requires step > 0
    decreases p - start
  {
    p == start || (p > start && OnStride(p, start + step, step))
  }

  /** The one stride of `n` that position `p` is on. */
  function Own(p: nat, n: nat): (start: nat)
    requires n > 0
    ensures start < n
  {
    if p < n then p else Own(p - n, n)
  }

  lemma {:induction false} Translate(p: nat, start: nat, n: nat)
    requires n > 0
    ensures OnStride(p + n, start + n, n) <==> OnStride(p, start, n)
    decreases p - start
  {
    if p > start { Translate(p, start + n, n); }
  }

  lemma {:induction false} OwnStride(p: nat, start: nat, n: nat)
    requires start < n
    ensures OnStride(p, start, n) <==> start == Own(p, n)
  {
    if p >= n {
      Translate(p - n, start, n);
      OwnStride(p - n, start, n);
    }
  }

  lemma {:induction false} StrideSnoc<T>(s: seq<T>, x: T, start: nat, step: nat)
    requires step > 0
    ensures Stride(s + [x], start, step) ==
            if OnStride(|s|, start, step) then Stride(s, start, step) + [x] else Stride(s, start, step)
    decreases |s| + 1 - start
  {
    if start < |s| {
      StrideSnoc(s, x, start + step, step);
    } else if start == |s| {
      assert Stride(s + [x], start + step, step) == [];
    }
  }

  lemma {:induction false} CountConcat<T>(a: seq<T>, b: seq<T>, all: seq<T>, v: T)
    requires all == a + b
    ensures multiset(all)[v] == multiset(a)[v] + multiset(b)[v]
  {
  }

  /** One more element goes to the stride of its own position. */
  lemma {:induction false} InStrideSnoc<T>(s: seq<T>, x: T, longer: seq<T>, n: nat, start: nat, v: T)
    requires start < n && longer == s + [x]
    ensures multiset(Stride(longer, start, n))[v]
            == multiset(Stride(s, start, n))[v] + if start == Own(|s|, n) && v == x then 1 else 0
  {
    StrideSnoc(s, x, start, n);
    OwnStride(|s|, start, n);
    CountConcat(Stride(s, start, n), [x], Stride(s, start, n) + [x], v);
  }

  lemma {:induction false} StridesSnoc<T>(s: seq<T>, x: T, longer: seq<T>, n: nat, m: nat, v: T)
    requires n > 0 && m <= n && longer == s + [x]
    ensures multiset(Strides(longer, n, m))[v]
            == multiset(Strides(s, n, m))[v] + if Own(|s|, n) < m && v == x then 1 else 0
  {
    if m > 0 {
      StridesSnoc(s, x, longer, n, m - 1, v);
      InStrideSnoc(s, x, longer, n, m - 1, v);
      CountConcat(Strides(longer, n, m - 1), Stride(longer, m - 1, n), Strides(longer, n, m), v);
      CountConcat(Strides(s, n, m - 1), Stride(s, m - 1, n), Strides(s, n, m), v);
    }
  }

  /** The n strides of a list hold each of its elements exactly as often as the list does. */
  lemma StridesPartition<T(!new)>(s: seq<T>, n: nat)
    requires n > 0
    ensures multiset(Strides(s, n, n)) == multiset(s)
  {
    forall v
      ensures multiset(Strides(s, n, n))[v] == multiset(s)[v]
    {
      CountAll(s, n, v);
    }
  }

  lemma {:induction false} CountAll<T>(s: seq<T>, n: nat, v: T)
    requires n > 0
    ensures multiset(Strides(s, n, n))[v] == multiset(s)[v]
  {
    if s == [] {
      EmptyStrides(s, n, n);
    } else {
      var done, x := s[..|s| - 1], s[|s| - 1];
      assert s == done + [x];
      CountAll(done, n, v);
      CountConcat(done, [x], s, v);
      StridesSnoc(done, x, s, n, n, v);
    }
  }

  lemma {:induction false} EmptyStrides<T>(s: seq<T>, n: nat, m: nat)
    requires n > 0 && s == []
    ensures Strides(s, n, m) == []
  {
    if m > 0 { EmptyStrides(s, n, m - 1); }
  }

  // ----- the step-set check -----

  /** The step-set part of `functional_problems`. */
  predicate StepsMatch(ids: seq<StepId>, required: seq<StepId>) {
    Elems(ids) == Elems(required) && |ids| == |required|
  }

  /** A list has at most as many different elements as places, and as many only without repetition. */
  lemma {:induction false} Pigeonhole<T>(s: seq<T>)
    ensures |Elems(s)| <= |s|
    ensures |Elems(s)| == |s| <==> NoDup(s)
  {
    if s != [] {
      var n := |s| - 1;
      var rest, last := s[..n], s[n];
      Pigeonhole(rest);
      assert s == rest + [last];
      assert Elems(s) == Elems(rest) + {last};
      if last in rest {
        assert Elems(s) == Elems(rest);
        var i :| 0 <= i < n && s[i] == last;
      } else {
        assert NoDup(s) <==> NoDup(rest) by {
          assert forall i :: 0 <= i < n ==> s[i] == rest[i] && s[i] in rest;
        }
      }
    }
  }

  lemma {:induction false} CountInDistinct<T>(s: seq<T>, x: T)
    requires NoDup(s)
    ensures multiset(s)[x] == if x in s then 1 else 0
  {
    if s != [] {
      var n := |s| - 1;
      CountInDistinct(s[..n], x);
      assert s == s[..n] + [s[n]];
    }
  }

  /** The check by set and length passes exactly when every required step occurs once and nothing
      else does. */
  lemma StepsMatchIsOnceEach(ids: seq<StepId>, required: seq<StepId>)
    requires NoDup(required)
    ensures StepsMatch(ids, required) <==> multiset(ids) == multiset(required)
  {
    Pigeonhole(ids);
    Pigeonhole(required);
    if StepsMatch(ids, required) {
      forall x
        ensures multiset(ids)[x] == multiset(required)[x]
      {
        CountInDistinct(ids, x);
        CountInDistinct(required, x);
        assert x in ids <==> x in Elems(ids);
        assert x in required <==> x in Elems(required);
      }
    }
    if multiset(ids) == multiset(required) {
      assert forall x :: x in ids <==> x in multiset(ids);
      assert forall x :: x in required <==> x in multiset(required);
      assert |ids| == |multiset(ids)|;
    }
  }

  // ----- what the shards run -----

  /** What shard k of n runs: its steps, but all of them if it has none, since no step list is passed on. */
  function RunSteps(required: seq<StepId>, k: nat, n: nat): seq<StepId>
    requires 1 <= k <= n
  {
    if ShardSteps(required, k, n) != [] then ShardSteps(required, k, n) else required
  }

  /** The steps of the shards 1 to k of n, one shard after the other. */
  function ShardsHave(required: seq<StepId>, k: nat, n: nat): seq<StepId>
    requires k <= n
  {
    if k == 0 then [] else ShardsHave(required, k - 1, n) + ShardSteps(required, k, n)
  }

  function ShardsRun(required: seq<StepId>, k: nat, n: nat): seq<StepId>
    requires k <= n
  {
    if k == 0 then [] else ShardsRun(required, k - 1, n) + RunSteps(required, k, n)
  }

  lemma {:induction false} ShardsHaveStrides(required: seq<StepId>, k: nat, n: nat)
    requires k <= n && n > 0
    ensures ShardsHave(required, k, n) == Strides(required, n, k)
  {
    if k > 0 { ShardsHaveStrides(required, k - 1, n); }
  }

  /** The shards together have every step once. */
  lemma {:induction false} ShardsHaveAll(required: seq<StepId>, n: nat)
    requires n > 0
    ensures multiset(ShardsHave(required, n, n)) == multiset(required)
    ensures |ShardsHave(required, n, n)| == |required|
  {
    ShardsHaveStrides(required, n, n);
    StridesPartition(required, n);
    assert |multiset(required)| == |required|;
    assert |multiset(ShardsHave(required, n, n))| == |ShardsHave(required, n, n)|;
  }

  /** A shard has no step exactly when its number is beyond the number of steps; each such shard runs all
      steps once more. */
  lemma {:induction false} ShardsRunMore(required: seq<StepId>, k: nat, n: nat)
    requires k <= n
    ensures k <= |required| ==> ShardsRun(required, k, n) == ShardsHave(required, k, n)
    ensures |ShardsRun(required, k, n)| >= |ShardsHave(required, k, n)| + if k > |required| then |required| else 0
  {
    if k > 0 {
      ShardsRunMore(required, k - 1, n);
      assert ShardSteps(required, k, n) == [] <==> k > |required|;
    }
  }

  /** Running the shards 1/n to n/n passes the check exactly when there are no more shards than steps. */
  lemma {:induction false} AllShardsPass(required: seq<StepId>, n: nat)
    requires n > 0 && NoDup(required)
    ensures StepsMatch(ShardsRun(required, n, n), required) <==> n <= |required| || required == []
  {
    ShardsHaveAll(required, n);
    ShardsRunMore(required, n, n);
    StepsMatchIsOnceEach(ShardsRun(required, n, n), required);
    if required == [] { NothingToRun(n, n); }
  }

  lemma {:induction false} NothingToRun(k: nat, n: nat)
    requires k <= n
    ensures ShardsRun([], k, n) == []
  {
    if k > 0 { NothingToRun(k - 1, n); }
  }

  /** One step in two shards: the second shard has none, so it runs the step again. */
  lemma TwoShardsOfOneStep(step: StepId)
    ensures ShardsRun([step], 2, 2) == [step, step] && !StepsMatch([step, step], [step])
  {
    assert Stride([step], 2, 2) == [] && ShardSteps([step], 1, 2) == [step] && ShardSteps([step], 2, 2) == [];
    assert ShardsRun([step], 0, 2) == [];
    assert ShardsRun([step], 1, 2) == [step];
  }

  /** Leaving out or repeating one step never passes. */
  lemma OneStepOffFails(ids: seq<StepId>, required: seq<StepId>, x: StepId, i: nat)
    requires NoDup(required) && StepsMatch(ids, required) && i < |ids|
    ensures !StepsMatch(ids[..i] + ids[i + 1..], required)
    ensures !StepsMatch(ids + [x], required)
  {
  }

  // ----- folding shard receipts -----

  datatype Report = Report(binarySha: string, datasetHash: string, steps: seq<StepId>)

  /** One shard's receipt; `report` is there when the shard ran the collaboration gate. */
  datatype Receipt = Receipt(passed: bool, sameBuild: bool, gates: set<string>, report: Option<Report>,
                             commands: seq<string>)

  function Reports(shards: seq<Receipt>): seq<Report> {
    if shards == [] then []
    else
      var last := shards[|shards| - 1];
      Reports(shards[..|shards| - 1]) + if last.report.Some? then [last.report.value] else []
  }

  function Gates(shards: seq<Receipt>): set<string> {
    set s, g | s in shards && g in s.gates :: g
  }

  function Commands(shards: seq<Receipt>): seq<string> {
    if shards == [] then [] else Commands(shards[..|shards| - 1]) + shards[|shards| - 1].commands
  }

  function AllSteps(reports: seq<Report>): seq<StepId> {
    if reports == [] then [] else AllSteps(reports[..|reports| - 1]) + reports[|reports| - 1].steps
  }

  /** The steps of all reports, report after report. */
  lemma {:induction false} StepsInOrder(reports: seq<Report>)
    ensures AllSteps(reports) == Flat(seq(|reports|, i requires 0 <= i < |reports| => reports[i].steps))
  {
    if reports == [] {
    } else {
      var n := |reports| - 1;
      StepsInOrder(reports[..n]);
      var earlier := seq(n, i requires 0 <= i < n => reports[..n][i].steps);
      var all := seq(|reports|, i requires 0 <= i < |reports| => reports[i].steps);
      assert all == earlier + [reports[n].steps];
      FlatSnoc(earlier, reports[n].steps);
    }
  }

  ghost predicate Agree(reports: seq<Report>) {
    && reports != []
    && forall i :: 0 <= i < |reports| ==>
         reports[i].binarySha == reports[0].binarySha && reports[i].datasetHash == reports[0].datasetHash
  }

  /** One report as an unsharded run would have written it. */
  function Combined(reports: seq<Report>): Report
    requires reports != []
  {
    reports[0].(steps := AllSteps(reports))
  }

  /** `merge`: it succeeds exactly when every shard passed on this build, the gates are covered, the
      reports agree, and the merged report has the required steps, once each, and no other problem.
      `sound` stands for the other problems that the full check of a report looks for. */
  method Merge(shards: seq<Receipt>, allGates: set<string>, required: seq<StepId>, sound: Report -> bool)
    returns (r: Result<seq<string>>)
    requires NoDup(required)
    ensures r.Ok? <==>
            && (forall s :: s in shards ==> s.passed && s.sameBuild)
            && allGates <= Gates(shards)
            && Agree(Reports(shards))
            && multiset(AllSteps(Reports(shards))) == multiset(required)
            && sound(Report(Reports(shards)[0].binarySha, Reports(shards)[0].datasetHash, AllSteps(Reports(shards))))
    ensures r.Ok? ==> r.value == Commands(shards)
  {
    var commands, gates, reports := [], {}, [];
    for i := 0 to |shards|
      invariant forall s :: s in shards[..i] ==> s.passed && s.sameBuild
      invariant gates == Gates(shards[..i])
      invariant reports == Reports(shards[..i]) && commands == Commands(shards[..i])
    {
      var acc := shards[i];
      assert acc in shards;
      if !acc.passed { return Err("shard did not pass"); }
      if !acc.sameBuild { return Err("shard ran a different build"); }
      assert shards[..i + 1] == shards[..i] + [acc];
      GatesSnoc(shards[..i], acc);
      commands, gates := commands + acc.commands, gates + acc.gates;
      if acc.report.Some? { reports := reports + [acc.report.value]; }
    }
    assert shards[..|shards|] == shards;
    if !(allGates <= gates) { return Err("no shard ran a gate"); }
    var agree := Agrees(reports);
    if !agree { return Err("collaboration shards disagree"); }
    StepsMatchIsOnceEach(AllSteps(reports), required);
    if !StepsMatch(AllSteps(reports), required) || !sound(Combined(reports)) {
      return Err("merged collaboration report fails");
    }
    r := Ok(commands);
  }

  lemma GatesSnoc(shards: seq<Receipt>, s: Receipt)
    ensures Gates(shards + [s]) == Gates(shards) + s.gates
  {
    assert s in shards + [s];
  }

  method Agrees(reports: seq<Report>) returns (ok: bool)
    ensures ok <==> Agree(reports)
  {
    if reports == [] { return false; }
    for i := 0 to |reports|
      invariant forall j :: 0 <= j < i ==>
        reports[j].binarySha == reports[0].binarySha && reports[j].datasetHash == reports[0].datasetHash
    {
      if reports[i].binarySha != reports[0].binarySha { return false; }
      if reports[i].datasetHash != reports[0].datasetHash { return false; }
    }
    ok := true;
  }

  /** The first shards of n passed: each report matches, in some order, what its shard runs. */
  ghost predicate ShardsPassed(reports: seq<Report>, required: seq<StepId>, n: nat)
    requires |reports| <= n
  {
    forall k :: 0 <= k < |reports| ==> StepsMatch(reports[k].steps, RunSteps(required, k + 1, n))
  }

  lemma {:induction false} StrideNoDup(s: seq<StepId>, start: nat, step: nat)
    requires NoDup(s) && step > 0
    ensures NoDup(Stride(s, start, step))
  {
    var stride := Stride(s, start, step);
    forall i, j | 0 <= i < j < |stride|
      ensures stride[i] != stride[j]
    {
      StrideAt(s, start, step, i);
      StrideAt(s, start, step, j);
      Apart(i, j, step);
    }
  }

  lemma {:induction false} Apart(i: nat, j: nat, step: nat)
    requires i < j && step > 0
    ensures i * step < j * step
  {
  }

  lemma {:induction false} ReportsRun(reports: seq<Report>, required: seq<StepId>, n: nat)
    requires |reports| <= n && NoDup(required) && ShardsPassed(reports, required, n)
    ensures multiset(AllSteps(reports)) == multiset(ShardsRun(required, |reports|, n))
  {
    if reports != [] {
      var k := |reports| - 1;
      ReportsRun(reports[..k], required, n);
      StrideNoDup(required, k, n);
      StepsMatchIsOnceEach(reports[k].steps, RunSteps(required, k + 1, n));
    }
  }

  /** All n shards of a split passed: their merged report has every required step once exactly when there
      are no more shards than steps. */
  lemma {:induction false} MergedShardsComplete(reports: seq<Report>, required: seq<StepId>, n: nat)
    requires n > 0 && |reports| == n && NoDup(required) && ShardsPassed(reports, required, n)
    ensures multiset(AllSteps(reports)) == multiset(required) <==> n <= |required| || required == []
  {
    ReportsRun(reports, required, n);
    AllShardsPass(required, n);
    StepsMatchIsOnceEach(ShardsRun(required, n, n), required);
  }

  /** `driver_shards`: the strides of the test list without the empty ones. */
  function DriverShards<T(==)>(tests: seq<T>, count: nat, i: nat): seq<seq<T>>
    requires i <= count
    decreases count - i
  {
    if i == count then []
    else
      var group := Stride(tests, i, count);
      (if group == [] then [] else [group]) + DriverShards(tests, count, i + 1)
  }

  /** Dropping empty groups loses no test. */
  lemma {:induction false} DriverShardsKeepAll<T(!new)>(tests: seq<T>, count: nat, i: nat)
    requires count > 0 && i <= count
    ensures multiset(Strides(tests, count, i)) + multiset(Flat(DriverShards(tests, count, i))) == multiset(tests)
    ensures forall g :: g in DriverShards(tests, count, i) ==> g != []
    decreases count - i
  {
    if i == count {
      StridesPartition(tests, count);
    } else {
      DriverShardsKeepAll(tests, count, i + 1);
      var group, rest := Stride(tests, i, count), DriverShards(tests, count, i + 1);
      FlatDropsEmpty(group, rest, DriverShards(tests, count, i));
      MoveGroup(Strides(tests, count, i), group, Strides(tests, count, i + 1), Flat(rest), tests);
    }
  }

  lemma FlatDropsEmpty<T(!new)>(group: seq<T>, rest: seq<seq<T>>, all: seq<seq<T>>)
    requires all == (if group == [] then [] else [group]) + rest
    ensures Flat(all) == group + Flat(rest)
    ensures (forall g :: g in rest ==> g != []) ==> forall g :: g in all ==> g != []
  {
    if group == [] {
      assert all == rest;
    } else {
      FlatCons(group, rest);
    }
  }

  lemma MoveGroup<T(!new)>(before: seq<T>, group: seq<T>, both: seq<T>, after: seq<T>, all: seq<T>)
    requires both == before + group && multiset(both) + multiset(after) == multiset(all)
    ensures multiset(before) + multiset(group + after) == multiset(all)
  {
    assert multiset(both) == multiset(before) + multiset(group);
    assert multiset(group + after) == multiset(group) + multiset(after);
  }
}
