/** The raw evidence trace of the leak gate: the order in which the driver emits rows, and the order
    checks applied to a submitted trace.

    A row's sequence number is its position. The checks look at lists of positions; their
    specification, `OrderOk`, says which rows may stand before and after which.
 */
module Trace {
  import opened Prelude

  datatype Kind = SettlePoint | Endpoint | TabEndpoint | Terminal | Extension | Baseline | Final

  datatype Row =
    | Action(measured: bool)
    | Resource(kind: Kind, done: int)  // done: measured switches completed
    | Interaction(quit: bool)
    | Clipboard(terminal: bool)

  predicate IsMeasured(r: Row) { r.Action? && r.measured }
  predicate IsWarmup(r: Row) { r.Action? && !r.measured }
  predicate IsKind(r: Row, k: Kind) { r.Resource? && r.kind == k }
  predicate IsQuit(r: Row) { r.Interaction? && r.quit }

  lemma RowKinds(r: Row, k: Kind)
    ensures IsMeasured(r) <==> r == Action(true)
    ensures IsWarmup(r) <==> r == Action(false)
    ensures IsKind(r, k) <==> exists done :: r == Resource(k, done)
    ensures IsQuit(r) <==> r == Interaction(true)
  {
    if IsKind(r, k) { assert r == Resource(k, r.done); }
  }

  function Measured(rows: seq<Row>): nat {
    if rows == [] then 0 else Measured(rows[..|rows| - 1]) + if IsMeasured(rows[|rows| - 1]) then 1 else 0
  }

  // ----- what the checks mean -----

  ghost predicate WarmupFirst(rows: seq<Row>) {
    forall i, j :: 0 <= i < |rows| && 0 <= j < |rows| && rows[i] == Action(false) && rows[j] == Action(true) ==> i < j
  }

  /** An endpoint that claims k switches stands after the k-th measured action. */
  ghost predicate EndpointsHonest(rows: seq<Row>) {
    forall i :: 0 <= i < |rows| && IsKind(rows[i], Endpoint) ==> 1 <= rows[i].done <= Measured(rows[..i])
  }

  /** What may follow the terminal sample. */
  predicate MayFollowTerminal(r: Row, long: bool) {
    IsQuit(r) || (long && (IsKind(r, Extension) || IsKind(r, Final)))
  }

  ghost predicate TerminalCloses(rows: seq<Row>, t: int, long: bool)
    requires 0 <= t < |rows|
  {
    && (forall j :: t < j < |rows| ==>
          match rows[j]
          case Action(_) => false
          case Resource(kind, _) => long && (kind == Extension || kind == Final)
          case Interaction(quit) => quit
          case Clipboard(_) => false)
    && (forall i, j :: t < i < j < |rows| ==> rows[i] != Interaction(true) || rows[j] != Interaction(true))
    && (forall j :: 0 <= j < t ==> !(rows[j].Resource? && rows[j].kind == Final))
  }

  ghost predicate FinalAfter(rows: seq<Row>, j: int)
    requires 0 <= j
  {
    exists k :: j < k < |rows| && IsKind(rows[k], Final)
  }

  /** From the first final sample on no action and no other sample; interactions only after the last
      final sample, and only quit ones; a clipboard row only before it. */
  ghost predicate FinalCloses(rows: seq<Row>) {
    forall i, j :: 0 <= i < j < |rows| && IsKind(rows[i], Final) ==>
      match rows[j]
      case Action(_) => false
      case Resource(kind, _) => kind == Final
      case Interaction(quit) => quit && !FinalAfter(rows, j)
      case Clipboard(_) => FinalAfter(rows, j)
  }

  /** After the last resource sample only quit rows. */
  ghost predicate ResourcesClose(rows: seq<Row>) {
    forall i, j :: 0 <= i < j < |rows| && rows[i].Resource? && rows[j] != Interaction(true) ==>
      exists k :: j <= k < |rows| && rows[k].Resource?
  }

  ghost predicate OneTerminal(rows: seq<Row>, t: int) {
    && 0 <= t < |rows| && IsKind(rows[t], Terminal)
    && forall i :: 0 <= i < |rows| && IsKind(rows[i], Terminal) ==> i == t
  }

  ghost predicate OrderOk(rows: seq<Row>, long: bool) {
    && WarmupFirst(rows)
    && EndpointsHonest(rows)
    && (forall t :: OneTerminal(rows, t) ==> TerminalCloses(rows, t, long))
    && FinalCloses(rows)
    && ResourcesClose(rows)
  }

  // ----- positions -----

  /** Positions of the rows that satisfy `p`, in order: a list comprehension over the rows. */
  function Where(rows: seq<Row>, p: Row -> bool): seq<nat> {
    if rows == [] then []
    else
      var n := |rows| - 1;
      if p(rows[n]) then Where(rows[..n], p) + [n] else Where(rows[..n], p)
  }

  lemma {:induction false} WhereFacts(rows: seq<Row>, p: Row -> bool)
    ensures forall k :: 0 <= k < |Where(rows, p)| ==> Where(rows, p)[k] < |rows| && p(rows[Where(rows, p)[k]])
    ensures forall i :: 0 <= i < |rows| && p(rows[i]) ==> i in Where(rows, p)
    ensures forall k, l :: 0 <= k < l < |Where(rows, p)| ==> Where(rows, p)[k] < Where(rows, p)[l]
  {
    if rows != [] {
      var n := |rows| - 1;
      WhereFacts(rows[..n], p);
      var w := Where(rows[..n], p);
      assert forall k :: 0 <= k < |w| ==> rows[..n][w[k]] == rows[w[k]];
      forall i | 0 <= i < |rows| && p(rows[i])
        ensures i in Where(rows, p)
      {
        if i < n { assert rows[..n][i] == rows[i]; }
      }
    }
  }

  /** The k-th position lies before i exactly when the first i rows have more than k. */
  lemma {:induction false} WhereBefore(rows: seq<Row>, p: Row -> bool, i: nat, k: nat)
    requires i <= |rows| && k < |Where(rows, p)|
    ensures Where(rows, p)[k] < i <==> k < |Where(rows[..i], p)|
    ensures |Where(rows[..i], p)| <= |Where(rows, p)|
  {
    if i == |rows| {
      assert rows[..i] == rows;
      WhereFacts(rows, p);
    } else {
      var n := |rows| - 1;
      assert rows[..n][..i] == rows[..i];
      WhereFacts(rows, p);
      if k < |Where(rows[..n], p)| {
        WhereBefore(rows[..n], p, i, k);
      } else {
        WhereGrows(rows[..n], p, i);
      }
    }
  }

  lemma {:induction false} WhereGrows(rows: seq<Row>, p: Row -> bool, i: nat)
    requires i <= |rows|
    ensures |Where(rows[..i], p)| <= |Where(rows, p)|
  {
    if i == |rows| {
      assert rows[..i] == rows;
    } else {
      assert rows[..|rows| - 1][..i] == rows[..i];
      WhereGrows(rows[..|rows| - 1], p, i);
    }
  }

  lemma {:induction false} MeasuredIsWhere(rows: seq<Row>)
    ensures Measured(rows) == |Where(rows, IsMeasured)|
  {
    if rows != [] { MeasuredIsWhere(rows[..|rows| - 1]); }
  }

  // ----- the checks -----

  method WarmupCheck(rows: seq<Row>) returns (ok: bool)
    ensures ok <==> WarmupFirst(rows)
  {
    var warmup, measured := Where(rows, IsWarmup), Where(rows, IsMeasured);
    WhereFacts(rows, IsWarmup);
    WhereFacts(rows, IsMeasured);
    ok := !(warmup != [] && measured != [] && warmup[|warmup| - 1] > measured[0]);
    if ok {
      forall i, j | 0 <= i < |rows| && 0 <= j < |rows| && IsWarmup(rows[i]) && IsMeasured(rows[j])
        ensures i < j
      {
        assert i in warmup && j in measured;
      }
    }
  }

  method EndpointCheck(rows: seq<Row>) returns (ok: bool)
    ensures ok <==> EndpointsHonest(rows)
  {
    var measured := Where(rows, IsMeasured);
    for i := 0 to |rows|
      invariant forall j :: 0 <= j < i && IsKind(rows[j], Endpoint) ==> 1 <= rows[j].done <= Measured(rows[..j])
    {
      if IsKind(rows[i], Endpoint) {
        var done := rows[i].done;
        MeasuredIsWhere(rows[..i]);
        WhereGrows(rows, IsMeasured, i);
        if done < 1 || done > |measured| { return false; }
        WhereBefore(rows, IsMeasured, i, done - 1);
        WhereFacts(rows, IsMeasured);
        if i < measured[done - 1] { return false; }
      }
    }
    ok := true;
  }

  /** The rows after the one terminal sample. That the last endpoint and the last measured action stand
      before it needs no check of its own: after it they are refused already. */
  method TerminalCheck(rows: seq<Row>, t: nat, long: bool) returns (ok: bool)
    requires t < |rows|
    ensures ok <==> TerminalCloses(rows, t, long)
  {
    var quit := -1;
    for j := t + 1 to |rows|
      invariant forall i :: t < i < j ==> MayFollowTerminal(rows[i], long)
      invariant quit == -1 ==> forall i :: t < i < j ==> !IsQuit(rows[i])
      invariant quit != -1 ==> t < quit < j && IsQuit(rows[quit])
      invariant quit != -1 ==> forall i :: t < i < j && IsQuit(rows[i]) ==> i == quit
    {
      if !MayFollowTerminal(rows[j], long) { return false; }
      if IsQuit(rows[j]) {
        if quit != -1 { return false; }
        quit := j;
      }
    }
    var final := Where(rows, r => IsKind(r, Final));
    WhereFacts(rows, r => IsKind(r, Final));
    ok := !(final != [] && t > final[0]);
    if ok {
      forall j | 0 <= j < t
        ensures !IsKind(rows[j], Final)
      {
        assert IsKind(rows[j], Final) ==> j in final;
      }
    }
  }

  /** The rows from the first to the last final sample, and what follows. */
  method FinalCheck(rows: seq<Row>) returns (ok: bool)
    ensures ok <==> FinalCloses(rows)
  {
    var final := Where(rows, r => IsKind(r, Final));
    WhereFacts(rows, r => IsKind(r, Final));
    if final == [] { return true; }
    var start, end := final[0], final[|final| - 1];
    forall j | 0 <= j < |rows|
      ensures FinalAfter(rows, j) <==> j < end
    {
      if FinalAfter(rows, j) {
        var k :| j < k < |rows| && IsKind(rows[k], Final);
        assert k in final;
      }
    }
    assert forall i :: 0 <= i < |rows| && IsKind(rows[i], Final) ==> i in final;
    for j := start + 1 to |rows|
      invariant forall m :: start < m < j ==> FinalRowOk(rows[m], m < end)
    {
      if !FinalRowOk(rows[j], j < end) {
        assert IsKind(rows[start], Final);
        return false;
      }
    }
    ok := true;
  }

  /** One row after the first final sample; `inside` says whether a final sample follows. A sample of
      another kind would break the resource list's tail. */
  predicate FinalRowOk(r: Row, inside: bool) {
    match r
    case Action(_) => false
    case Resource(kind, _) => kind == Final
    case Interaction(quit) => quit && !inside
    case Clipboard(_) => inside
  }

  method TailCheck(rows: seq<Row>) returns (ok: bool)
    ensures ok <==> ResourcesClose(rows)
  {
    var resources := Where(rows, (r: Row) => r.Resource?);
    WhereFacts(rows, (r: Row) => r.Resource?);
    if resources == [] {
      assert forall i :: 0 <= i < |rows| && rows[i].Resource? ==> i in resources;
      return true;
    }
    var last := resources[|resources| - 1];
    forall i | 0 <= i < |rows| && rows[i].Resource?
      ensures i <= last
    {
      assert i in resources;
    }
    for j := last + 1 to |rows|
      invariant forall m :: last < m < j ==> IsQuit(rows[m])
    {
      if !IsQuit(rows[j]) {
        assert rows[last].Resource?;
        return false;
      }
    }
    assert rows[last].Resource?;
    ok := true;
  }

  /** The ordering checks of `_canonical_measurement`. */
  method OrderViolation(rows: seq<Row>, long: bool) returns (violation: bool)
    ensures violation <==> !OrderOk(rows, long)
  {
    var ok := WarmupCheck(rows);
    if !ok { return true; }
    ok := EndpointCheck(rows);
    if !ok { return true; }
    var terminals := Where(rows, r => IsKind(r, Terminal));
    WhereFacts(rows, r => IsKind(r, Terminal));
    if |terminals| == 1 {
      var t := terminals[0];
      assert forall i :: 0 <= i < |rows| && IsKind(rows[i], Terminal) ==> i in terminals;
      assert OneTerminal(rows, t);
      ok := TerminalCheck(rows, t, long);
      if !ok { return true; }
    } else {
      forall t | 0 <= t < |rows|
        ensures !OneTerminal(rows, t)
      {
        if OneTerminal(rows, t) { OnlyOnePosition(rows, terminals, t); }
      }
    }
    ok := FinalCheck(rows);
    if !ok { return true; }
    ok := TailCheck(rows);
    violation := !ok;
  }

  lemma OnlyOnePosition(rows: seq<Row>, terminals: seq<nat>, t: nat)
    requires OneTerminal(rows, t) && t in terminals
    requires forall k :: 0 <= k < |terminals| ==> terminals[k] < |rows| && IsKind(rows[terminals[k]], Terminal)
    requires forall k, l :: 0 <= k < l < |terminals| ==> terminals[k] < terminals[l]
    ensures |terminals| == 1
  {
    forall k | 0 <= k < |terminals|
      ensures terminals[k] == t && k == 0
    {
      assert terminals[k] == t && terminals[0] == t;
    }
    assert terminals[|terminals| - 1] == t;
  }

  // ----- the driver -----

  /** Where the driver stands. Stages come in this order; the four single ones emit one row each. */
  datatype Stage =
    | ClipboardBefore | WarmupStage | BaselineWindow | MeasuredStage | Interactions
    | ClipboardAfter | Settling | TerminalStage | ExtensionStage | FinalWindow | Quitting

  function Rank(s: Stage): nat {
    match s
    case ClipboardBefore => 0
    case WarmupStage => 1
    case BaselineWindow => 2
    case MeasuredStage => 3
    case Interactions => 4
    case ClipboardAfter => 5
    case Settling => 6
    case TerminalStage => 7
    case ExtensionStage => 8
    case FinalWindow => 9
    case Quitting => 10
  }

  predicate Single(s: Stage) { s.ClipboardBefore? || s.ClipboardAfter? || s.TerminalStage? || s.Quitting? }

  predicate Allowed(s: Stage, r: Row) {
    match s
    case ClipboardBefore => r == Clipboard(false)
    case WarmupStage => IsWarmup(r) || IsKind(r, SettlePoint)
    case BaselineWindow => IsKind(r, Baseline)
    case MeasuredStage => IsMeasured(r) || IsKind(r, SettlePoint) || IsKind(r, Endpoint)
    case Interactions => IsKind(r, SettlePoint) || IsKind(r, TabEndpoint) || (r.Interaction? && !r.quit)
    case ClipboardAfter => r == Clipboard(true) || (r.Interaction? && !r.quit)
    case Settling => IsKind(r, SettlePoint)
    case TerminalStage => IsKind(r, Terminal)
    case ExtensionStage => IsKind(r, Extension)
    case FinalWindow => IsKind(r, Final)
    case Quitting => IsQuit(r)
  }

  /** `t` may directly or later follow `s`. */
  predicate Precedes(s: Stage, t: Stage) { Rank(s) < Rank(t) || (s == t && !Single(s)) }

  ghost predicate Advancing(stages: seq<Stage>) {
    forall i, j :: 0 <= i < j < |stages| ==> Precedes(stages[i], stages[j])
  }

  ghost predicate AllAllowed(rows: seq<Row>, stages: seq<Stage>, long: bool)
    requires |stages| == |rows|
  {
    forall i :: 0 <= i < |rows| ==> Allowed(stages[i], rows[i]) && (long || !LongOnly(stages[i]))
  }

  predicate LongOnly(s: Stage) { s == BaselineWindow || s == ExtensionStage || s == FinalWindow }

  /** Every row belongs to a stage, stages only advance, single stages hold one row, endpoints tell
      the number of measured actions before them, and a short run has no long-run windows. */
  ghost predicate Staged(rows: seq<Row>, stages: seq<Stage>, long: bool) {
    |stages| == |rows| && AllAllowed(rows, stages, long) && Advancing(stages) && EndpointsHonest(rows)
  }

  lemma AdvancingSnoc(stages: seq<Stage>, s: Stage)
    requires Advancing(stages) && (stages != [] ==> Precedes(stages[|stages| - 1], s))
    ensures Advancing(stages + [s])
  {
    var n := |stages| - 1;
    forall i | 0 <= i <= n
      ensures Precedes(stages[i], s)
    {
      if i < n { assert Precedes(stages[i], stages[n]); }
    }
  }

  lemma HonestSnoc(rows: seq<Row>, r: Row)
    requires EndpointsHonest(rows) && (IsKind(r, Endpoint) ==> 1 <= r.done <= Measured(rows))
    ensures EndpointsHonest(rows + [r])
    ensures Measured(rows + [r]) == Measured(rows) + if IsMeasured(r) then 1 else 0
  {
    var all := rows + [r];
    assert all[..|rows|] == rows;
    forall i | 0 <= i < |all| && IsKind(all[i], Endpoint)
      ensures 1 <= all[i].done <= Measured(all[..i])
    {
      if i < |rows| {
        assert all[..i] == rows[..i] && all[i] == rows[i];
      }
    }
  }

  lemma AllowedSnoc(rows: seq<Row>, stages: seq<Stage>, long: bool, r: Row, s: Stage)
    requires |stages| == |rows| && AllAllowed(rows, stages, long) && Allowed(s, r) && (long || !LongOnly(s))
    ensures AllAllowed(rows + [r], stages + [s], long)
  {
    forall i | 0 <= i < |rows + [r]|
      ensures Allowed((stages + [s])[i], (rows + [r])[i]) && (long || !LongOnly((stages + [s])[i]))
    {
      if i < |rows| { assert Allowed(stages[i], rows[i]); }
    }
  }

  lemma {:induction false} StagedSnoc(rows: seq<Row>, stages: seq<Stage>, long: bool, r: Row, s: Stage,
                                      newRows: seq<Row>, newStages: seq<Stage>)
    requires newRows == rows + [r] && newStages == stages + [s]
    requires Staged(rows, stages, long) && Allowed(s, r) && (long || !LongOnly(s))
    requires rows != [] ==> Precedes(stages[|rows| - 1], s)
    requires IsKind(r, Endpoint) ==> 1 <= r.done <= Measured(rows)
    ensures Staged(newRows, newStages, long) && newStages[|rows|] == s
    ensures Measured(newRows) == Measured(rows) + if IsMeasured(r) then 1 else 0
  {
    AllowedSnoc(rows, stages, long, r, s);
    AdvancingSnoc(stages, s);
    HonestSnoc(rows, r);
  }

  // ----- what the driver emits -----

  function Repeat(r: Row, n: nat): seq<Row> { seq(n, _ => r) }

  lemma RepeatSnoc(r: Row, n: nat)
    ensures Repeat(r, n) + [r] == Repeat(r, n + 1)
  {
  }

  /** The rows of one batch: its clicks, then `settle` samples of which the last is an endpoint when
      measured. `done` measured switches are complete before the batch. */
  function BatchRows(clicks: nat, measured: bool, done: nat, settle: nat): seq<Row>
    requires settle > 0
  {
    var after := if measured then done + clicks else done;
    Repeat(Action(measured), clicks) + Repeat(Resource(SettlePoint, after), settle - 1)
    + [Resource(if measured then Endpoint else SettlePoint, after)]
  }

  function LastRow(measured: bool, done: nat): Row { Resource(if measured then Endpoint else SettlePoint, done) }

  ghost predicate IsBatch(block: seq<Row>, clicks: nat, measured: bool, done: nat) {
    exists settle :: settle >= 3 && block == BatchRows(clicks, measured, done, settle)
  }

  /** Batch `i` has ten clicks, the last batch what is left. */
  ghost predicate BatchAt(blocks: seq<seq<Row>>, i: nat, total: nat, measured: bool)
    requires i < |blocks|
  {
    10 * i < total && IsBatch(blocks[i], Min(10, total - 10 * i), measured, if measured then 10 * i else 0)
  }

  /** The batches of one phase, to the last switch asked for. */
  ghost predicate IsPhase(blocks: seq<seq<Row>>, total: nat, measured: bool) {
    10 * |blocks| >= total && AllBatches(blocks, total, measured)
  }

  ghost predicate AllBatches(blocks: seq<seq<Row>>, total: nat, measured: bool) {
    forall i: nat :: i < |blocks| ==> BatchAt(blocks, i, total, measured)
  }

  // ----- tab cycles -----

  /** Tab cycles come in batches of five. */
  function TabBatches(total: nat): nat { (total + 4) / 5 }

  /** The samples after one batch of tab cycles, the last one a tab endpoint when measured. */
  function TabBlock(settle: nat, measured: bool, done: nat): seq<Row>
    requires settle > 0
  {
    Repeat(Resource(SettlePoint, done), settle - 1) + [Resource(if measured then TabEndpoint else SettlePoint, done)]
  }

  predicate AllSettled(settles: seq<nat>) { forall i :: 0 <= i < |settles| ==> settles[i] >= 3 }

  /** The samples of some batches, given how many each takes to settle. */
  function TabRows(settles: seq<nat>, measured: bool, done: nat): seq<Row>
    requires AllSettled(settles)
  {
    if settles == [] then []
    else
      var n := |settles| - 1;
      TabRows(settles[..n], measured, done) + Repeat(Resource(SettlePoint, done), settles[n] - 1)
      + [Resource(if measured then TabEndpoint else SettlePoint, done)]
  }

  /** The tab cycles of a run: how many samples each batch takes, the rows that were emitted, and whether an
      error cut them short. */
  datatype Tabs = Tabs(warmup: seq<nat>, measured: seq<nat>, rows: seq<Row>, failed: bool)

  /** All batches if nothing failed, else what had been emitted by then. */
  ghost predicate TabsFit(t: Tabs, warmupTotal: nat, measuredTotal: nat, done: nat) {
    && AllSettled(t.warmup) && AllSettled(t.measured)
    && |t.warmup| <= TabBatches(warmupTotal) && |t.measured| <= TabBatches(measuredTotal)
    && (t.measured != [] || !t.failed ==> |t.warmup| == TabBatches(warmupTotal))
    && (!t.failed ==> |t.measured| == TabBatches(measuredTotal))
    && var all := TabRows(t.warmup, false, done) + TabRows(t.measured, true, done);
       t.rows <= all && (!t.failed ==> t.rows == all)
  }

  datatype Script = Script(
    warmup: seq<seq<Row>>, baseline: nat, measured: seq<seq<Row>>, tabs: Tabs, notes: nat,
    clipboard: Row, settle: nat, extension: nat, final: nat)

  /** What a run was asked for. */
  datatype Request = Request(long: bool, warmup: nat, measured: nat, tabWarmup: nat, tabMeasured: nat)

  /** After the tab cycles come their note, the notes of hide and tray, and those of the other tries. */
  ghost predicate FitsRun(s: Script, q: Request) {
    FitsSoFar(s, q) && (q.long <==> s.final > 0) && (!q.long ==> s.extension == 0)
  }

  ghost predicate FitsSoFar(s: Script, q: Request) {
    && IsPhase(s.warmup, q.warmup, false) && IsPhase(s.measured, q.measured, true)
    && TabsFit(s.tabs, q.tabWarmup, q.tabMeasured, q.measured) && s.notes >= 3
    && (s.clipboard == Clipboard(true) || s.clipboard == Interaction(false)) && s.settle >= 2
    && (q.long <==> s.baseline > 0)
  }

  function Opening(s: Script): seq<Row> {
    [Clipboard(false)] + Flat(s.warmup) + Repeat(Resource(Baseline, 0), s.baseline)
  }

  function UpToTerminal(s: Script, done: nat): seq<Row> {
    Opening(s) + Flat(s.measured) + s.tabs.rows + Repeat(Interaction(false), s.notes)
    + [s.clipboard] + Repeat(Resource(SettlePoint, done), s.settle)
  }

  /** All rows of a run with `done` measured switches. */
  function RowsOf(s: Script, done: nat): seq<Row> {
    UpToTerminal(s, done) + [Resource(Terminal, done)]
    + Repeat(Resource(Extension, done), s.extension) + Repeat(Resource(Final, done), s.final) + [Interaction(true)]
  }

  class Recorder {
    const long: bool
    var rows: seq<Row>
    var measuredDone: nat
    ghost var stages: seq<Stage>
    ghost var current: Stage

    ghost predicate Valid()
      reads this
    {
      && Staged(rows, stages, long) && measuredDone == Measured(rows)
      && (rows != [] ==> stages[|rows| - 1] == current)
    }

    /** Every stage up to `s` may have been entered, none beyond. */
    ghost predicate UpTo(s: Stage)
      reads this
    {
      rows != [] ==> Rank(current) <= Rank(s)
    }

    constructor (long: bool)
      ensures Valid() && rows == [] && this.long == long && measuredDone == 0
    {
      this.long := long;
      rows, measuredDone, stages, current := [], 0, [], ClipboardBefore;
    }

    /** `emit`: the row takes the next sequence number. */
    method Emit(r: Row, ghost s: Stage)
      requires Valid() && (rows != [] ==> Precedes(current, s))
      requires Allowed(s, r) && (long || !LongOnly(s))
      requires IsKind(r, Endpoint) ==> 1 <= r.done <= measuredDone
      modifies this
      ensures Valid() && current == s && rows == old(rows) + [r] && stages == old(stages) + [s]
      ensures measuredDone == old(measuredDone) + if IsMeasured(r) then 1 else 0
    {
      var newRows := rows + [r];
      ghost var newStages := stages + [s];
      StagedSnoc(rows, stages, long, r, s, newRows, newStages);
      rows, stages, current := newRows, newStages, s;
      if r.Action? && r.measured { measuredDone := measuredDone + 1; }
    }

    /** `n` samples of one kind. */
    method EmitSamples(kind: Kind, n: nat, ghost s: Stage)
      requires Valid() && UpTo(s) && !Single(s) && (long || !LongOnly(s))
      requires kind != Endpoint && forall done :: Allowed(s, Resource(kind, done))
      modifies this
      ensures Valid() && UpTo(s) && measuredDone == old(measuredDone) && old(stages) <= stages
      ensures rows == old(rows) + Repeat(Resource(kind, measuredDone), n)
    {
      ghost var before := rows;
      assert before + Repeat(Resource(kind, measuredDone), 0) == before;
      for i := 0 to n
        invariant Valid() && UpTo(s) && measuredDone == old(measuredDone) && old(stages) <= stages
        invariant rows == before + Repeat(Resource(kind, measuredDone), i)
      {
        SameRank(current, s);
        OneMore(before, Resource(kind, measuredDone), i);
        Emit(Resource(kind, measuredDone), s);
      }
    }

    method Clicks(n: nat, measured: bool, ghost s: Stage)
      requires Valid() && UpTo(s)
      requires s == if measured then MeasuredStage else WarmupStage
      modifies this
      ensures Valid() && UpTo(s) && measuredDone == old(measuredDone) + if measured then n else 0
      ensures rows == old(rows) + Repeat(Action(measured), n)
    {
      ghost var before := rows;
      assert before + Repeat(Action(measured), 0) == before;
      for i := 0 to n
        invariant Valid() && UpTo(s) && measuredDone == old(measuredDone) + if measured then i else 0
        invariant rows == before + Repeat(Action(measured), i)
      {
        SameRank(current, s);
        OneMore(before, Action(measured), i);
        Emit(Action(measured), s);
      }
    }

    /** One batch: its clicks, then at least three settle rows, the last one an endpoint when measured. */
    method Batch(clicks: nat, measured: bool, ghost s: Stage) returns (ghost block: seq<Row>)
      requires Valid() && UpTo(s) && clicks > 0
      requires s == if measured then MeasuredStage else WarmupStage
      modifies this
      ensures Valid() && UpTo(s) && measuredDone == old(measuredDone) + if measured then clicks else 0
      ensures rows == old(rows) + block && IsBatch(block, clicks, measured, old(measuredDone))
    {
      ghost var before, done := rows, measuredDone;
      Clicks(clicks, measured, s);
      var settle: nat :| settle >= 3;
      SettleRows(settle - 1, measured, s);
      block := BatchIs(before, rows, clicks, measured, done, settle, measuredDone);
    }

    /** `n` settle samples and the last sample of a batch. */
    method SettleRows(n: nat, measured: bool, ghost s: Stage)
      requires Valid() && UpTo(s) && (measured ==> measuredDone > 0)
      requires s == if measured then MeasuredStage else WarmupStage
      modifies this
      ensures Valid() && UpTo(s) && measuredDone == old(measuredDone)
      ensures rows == old(rows) + Repeat(Resource(SettlePoint, measuredDone), n) + [LastRow(measured, measuredDone)]
    {
      EmitSamples(SettlePoint, n, s);
      SameRank(current, s);
      Emit(LastRow(measured, measuredDone), s);
    }

    /** One phase of repository switches, in batches of ten. */
    method Phase(total: nat, measured: bool, ghost s: Stage) returns (ghost blocks: seq<seq<Row>>)
      requires Valid() && UpTo(s) && measuredDone == 0
      requires s == if measured then MeasuredStage else WarmupStage
      modifies this
      ensures Valid() && UpTo(s) && measuredDone == if measured then total else 0
      ensures rows == old(rows) + Flat(blocks) && IsPhase(blocks, total, measured)
    {
      ghost var before := rows;
      var left := total;
      blocks := [];
      assert before + Flat([]) == before;
      while left > 0
        invariant 0 <= left <= total && Valid() && UpTo(s)
        invariant measuredDone == if measured then total - left else 0
        invariant left == if 10 * |blocks| < total then total - 10 * |blocks| else 0
        invariant rows == before + Flat(blocks) && AllBatches(blocks, total, measured)
      {
        var size := if left < 10 then left else 10;
        ghost var done := measuredDone;
        ghost var block := Batch(size, measured, s);
        blocks := OneMoreBatch(before, blocks, block, size, done, total, measured);
        left := left - size;
      }
    }

    /** Rows of the lifecycle part, until an error. */
    method EmitUntilError(block: seq<Row>) returns (ok: bool, ghost n: nat)
      requires Valid() && UpTo(Interactions)
      requires forall r :: r in block ==> Allowed(Interactions, r) && !IsMeasured(r) && !IsKind(r, Endpoint)
      modifies this
      ensures Valid() && UpTo(Interactions) && measuredDone == old(measuredDone)
      ensures n <= |block| && rows == old(rows) + block[..n] && (ok ==> n == |block|)
    {
      ghost var before := rows;
      n := 0;
      for i := 0 to |block|
        invariant Valid() && UpTo(Interactions) && measuredDone == old(measuredDone)
        invariant n == i && rows == before + block[..i]
      {
        if * { return false, n; }
        assert block[i] in block;
        SameRank(current, Interactions);
        OneMoreOf(before, block, i);
        Emit(block[i], Interactions);
        n := n + 1;
      }
      ok := true;
    }

    /** The samples after one batch of tab cycles. `part` are the rows of the batches before it. */
    method TabBatch(measured: bool, ghost before: seq<Row>, ghost done: seq<nat>, ghost part: seq<Row>)
      returns (ok: bool, ghost settles: seq<nat>, ghost longer: seq<Row>)
      requires Valid() && UpTo(Interactions) && AllSettled(done)
      requires rows == before + part && part == TabRows(done, measured, measuredDone)
      modifies this
      ensures Valid() && UpTo(Interactions) && measuredDone == old(measuredDone)
      ensures AllSettled(settles) && |settles| == |done| + 1 && rows == before + longer
      ensures longer <= TabRows(settles, measured, measuredDone)
      ensures ok ==> longer == TabRows(settles, measured, measuredDone)
    {
      var settle: nat :| settle >= 3;
      var block := TabBlock(settle, measured, measuredDone);
      BlockIsLifecycle(settle, measured, measuredDone);
      TabRowsSnoc(done, settle, measured, measuredDone);
      ghost var n: nat;
      ok, n := EmitUntilError(block);
      PartOfBlock(before, part, block, n);
      settles, longer := done + [settle], part + block[..n];
    }

    /** One phase of tab cycles, in batches of five. */
    method TabPhase(total: nat, measured: bool) returns (ok: bool, ghost settles: seq<nat>, ghost part: seq<Row>)
      requires Valid() && UpTo(Interactions)
      modifies this
      ensures Valid() && UpTo(Interactions) && measuredDone == old(measuredDone)
      ensures rows == old(rows) + part && AllSettled(settles) && |settles| <= TabBatches(total)
      ensures part <= TabRows(settles, measured, measuredDone)
      ensures ok ==> |settles| == TabBatches(total) && part == TabRows(settles, measured, measuredDone)
    {
      ghost var before := rows;
      var left := total;
      settles, part := [], [];
      while left > 0
        invariant 0 <= left <= total && |settles| == TabBatches(total) - TabBatches(left)
        invariant Valid() && UpTo(Interactions) && measuredDone == old(measuredDone)
        invariant AllSettled(settles) && rows == before + part && part == TabRows(settles, measured, measuredDone)
      {
        ok, settles, part := TabBatch(measured, before, settles, part);
        if !ok { return; }
        left := if left < 5 then 0 else left - 5;
      }
      ok := true;
    }

    /** Warm-up cycles, then measured ones, unless an error stops them. */
    method TabCycles(warmupTotal: nat, measuredTotal: nat) returns (ghost tabs: Tabs)
      requires Valid() && UpTo(Interactions)
      modifies this
      ensures Valid() && UpTo(Interactions) && measuredDone == old(measuredDone)
      ensures rows == old(rows) + tabs.rows && TabsFit(tabs, warmupTotal, measuredTotal, measuredDone)
    {
      ghost var before := rows;
      var ok: bool;
      ghost var warmup: seq<nat>, measured: seq<nat>, first: seq<Row>, second: seq<Row>;
      measured, second := [], [];
      ok, warmup, first := TabPhase(warmupTotal, false);
      if ok {
        ok, measured, second := TabPhase(measuredTotal, true);
      }
      tabs := Tabs(warmup, measured, first + second, !ok);
      PartsAreTabs(before, first, second, rows, tabs, warmupTotal, measuredTotal, measuredDone);
    }

    /** `n` interactions that are not the quit row. */
    method Notes(n: nat)
      requires Valid() && UpTo(Interactions)
      modifies this
      ensures Valid() && UpTo(Interactions) && measuredDone == old(measuredDone)
      ensures rows == old(rows) + Repeat(Interaction(false), n)
    {
      ghost var before := rows;
      assert before + Repeat(Interaction(false), 0) == before;
      for i := 0 to n
        invariant Valid() && UpTo(Interactions) && measuredDone == old(measuredDone)
        invariant rows == before + Repeat(Interaction(false), i)
      {
        SameRank(current, Interactions);
        OneMore(before, Interaction(false), i);
        Emit(Interaction(false), Interactions);
      }
    }

    /** The extension samples and the final window of a long run. */
    method LongTail() returns (ghost extension: nat, ghost final: nat)
      requires Valid() && UpTo(TerminalStage) && long
      modifies this
      ensures Valid() && UpTo(FinalWindow) && measuredDone == old(measuredDone) && old(stages) <= stages
      ensures final > 0
      ensures rows == old(rows) + Repeat(Resource(Extension, measuredDone), extension)
              + Repeat(Resource(Final, measuredDone), final)
    {
      var n: nat, window: nat :| n >= 0 && window > 0;
      EmitSamples(Extension, n, ExtensionStage);
      EmitSamples(Final, window, FinalWindow);
      extension, final := n, window;
    }

    /** The terminal sample, and what a long run observes after it. */
    method TerminalAndTail() returns (ghost extension: nat, ghost final: nat)
      requires Valid() && UpTo(Settling)
      modifies this
      ensures Valid() && UpTo(FinalWindow) && measuredDone == old(measuredDone)
      ensures |old(rows)| < |stages| && stages[|old(rows)|] == TerminalStage
      ensures (long <==> final > 0) && (!long ==> extension == 0)
      ensures rows == old(rows) + [Resource(Terminal, measuredDone)]
                      + Repeat(Resource(Extension, measuredDone), extension)
                      + Repeat(Resource(Final, measuredDone), final)
    {
      Emit(Resource(Terminal, measuredDone), TerminalStage);
      extension, final := 0, 0;
      NoRows(rows, Resource(Extension, measuredDone), Resource(Final, measuredDone));
      if long { extension, final := LongTail(); }
    }

    /** Everything before the measured switches. */
    method UntilMeasured(warmupTotal: nat) returns (ghost warmup: seq<seq<Row>>, ghost baseline: nat)
      requires Valid() && rows == [] && measuredDone == 0
      modifies this
      ensures Valid() && UpTo(BaselineWindow) && measuredDone == 0
      ensures IsPhase(warmup, warmupTotal, false) && (long <==> baseline > 0)
      ensures rows == [Clipboard(false)] + Flat(warmup) + Repeat(Resource(Baseline, 0), baseline)
    {
      Emit(Clipboard(false), ClipboardBefore);
      assert rows == [Clipboard(false)];
      warmup := Phase(warmupTotal, false, WarmupStage);
      baseline := 0;
      assert rows + Repeat(Resource(Baseline, 0), 0) == rows;
      if long {
        var window: nat :| window > 0;
        EmitSamples(Baseline, window, BaselineWindow);
        baseline := window;
      }
    }

    /** Everything before the terminal sample. */
    method UntilTerminal(q: Request) returns (ghost s: Script)
      requires Valid() && rows == [] && measuredDone == 0 && q.long == long
      modifies this
      ensures Valid() && UpTo(Settling) && measuredDone == q.measured
      ensures FitsSoFar(s, q) && rows == UpToTerminal(s, q.measured)
    {
      ghost var warmup, baseline := UntilMeasured(q.warmup);
      ghost var measured := Phase(q.measured, true, MeasuredStage);
      ghost var tabs := TabCycles(q.tabWarmup, q.tabMeasured);
      var notes: nat :| notes >= 3;
      Notes(notes);
      ghost var clipboard, settle := ClipboardAndSettle();
      s := Script(warmup, baseline, measured, tabs, notes, clipboard, settle, 0, 0);
    }

    /** Everything before the quit row. */
    method UntilQuit(q: Request) returns (ghost script: Script, ghost t: nat)
      requires Valid() && rows == [] && measuredDone == 0 && q.long == long
      modifies this
      ensures Valid() && UpTo(FinalWindow) && measuredDone == q.measured
      ensures FitsRun(script, q) && rows + [Interaction(true)] == RowsOf(script, q.measured)
      ensures t == |UpToTerminal(script, q.measured)| < |stages| && stages[t] == TerminalStage
    {
      ghost var s := UntilTerminal(q);
      t := |rows|;
      ghost var extension, final := TerminalAndTail();
      script := WithTail(s, q, extension, final);
    }

    /** The clipboard row, or a note that it could not be read, and the samples before the terminal one. */
    method ClipboardAndSettle() returns (ghost clipboard: Row, ghost settle: nat)
      requires Valid() && UpTo(Interactions)
      modifies this
      ensures Valid() && UpTo(Settling) && measuredDone == old(measuredDone)
      ensures (clipboard == Clipboard(true) || clipboard == Interaction(false)) && settle >= 2
      ensures rows == old(rows) + [clipboard] + Repeat(Resource(SettlePoint, measuredDone), settle)
    {
      var readable: bool := *;
      var r := if readable then Clipboard(true) else Interaction(false);
      Emit(r, ClipboardAfter);
      var n: nat :| n >= 3;
      EmitSamples(SettlePoint, n - 1, Settling);
      clipboard, settle := r, n - 1;
    }
  }

  lemma OneMore(before: seq<Row>, r: Row, n: nat)
    ensures before + Repeat(r, n) + [r] == before + Repeat(r, n + 1)
  {
    RepeatSnoc(r, n);
    assert before + Repeat(r, n) + [r] == before + (Repeat(r, n) + [r]);
  }

  lemma BatchIs(before: seq<Row>, rows: seq<Row>, clicks: nat, measured: bool, done: nat, settle: nat, after: nat)
    returns (block: seq<Row>)
    requires settle >= 3 && after == if measured then done + clicks else done
    requires rows == before + Repeat(Action(measured), clicks) + Repeat(Resource(SettlePoint, after), settle - 1)
                     + [LastRow(measured, after)]
    ensures rows == before + block && IsBatch(block, clicks, measured, done)
  {
    block := BatchRows(clicks, measured, done, settle);
  }

  lemma OneMoreOf(before: seq<Row>, block: seq<Row>, i: nat)
    requires i < |block|
    ensures before + block[..i] + [block[i]] == before + block[..i + 1]
  {
  }

  lemma BlockIsLifecycle(settle: nat, measured: bool, done: nat)
    requires settle > 0
    ensures forall r :: r in TabBlock(settle, measured, done) ==>
              Allowed(Interactions, r) && !IsMeasured(r) && !IsKind(r, Endpoint)
  {
  }

  lemma TabRowsSnoc(settles: seq<nat>, settle: nat, measured: bool, done: nat)
    requires AllSettled(settles) && settle >= 3
    ensures AllSettled(settles + [settle])
    ensures TabRows(settles + [settle], measured, done) ==
            TabRows(settles, measured, done) + TabBlock(settle, measured, done)
  {
    assert (settles + [settle])[..|settles|] == settles;
    Assoc(TabRows(settles, measured, done), Repeat(Resource(SettlePoint, done), settle - 1),
          [Resource(if measured then TabEndpoint else SettlePoint, done)]);
  }

  lemma PartOfBlock(before: seq<Row>, part: seq<Row>, block: seq<Row>, n: nat)
    requires n <= |block|
    ensures before + part + block[..n] == before + (part + block[..n])
    ensures part + block[..n] <= part + block
    ensures n == |block| ==> block[..n] == block
  {
  }

  lemma PartsAreTabs(before: seq<Row>, first: seq<Row>, second: seq<Row>, rows: seq<Row>, t: Tabs, warmupTotal: nat,
                     measuredTotal: nat, done: nat)
    requires rows == before + first + second && t.rows == first + second
    requires AllSettled(t.warmup) && AllSettled(t.measured)
    requires |t.warmup| <= TabBatches(warmupTotal) && |t.measured| <= TabBatches(measuredTotal)
    requires first <= TabRows(t.warmup, false, done) && second <= TabRows(t.measured, true, done)
    requires t.measured != [] || second != [] || !t.failed ==>
               |t.warmup| == TabBatches(warmupTotal) && first == TabRows(t.warmup, false, done)
    requires !t.failed ==> |t.measured| == TabBatches(measuredTotal) && second == TabRows(t.measured, true, done)
    ensures rows == before + t.rows && TabsFit(t, warmupTotal, measuredTotal, done)
  {
    if second == [] {
      assert first + second == first;
    }
  }

  lemma NoRows(rows: seq<Row>, r: Row, s: Row)
    ensures rows + Repeat(r, 0) + Repeat(s, 0) == rows
  {
    assert Repeat(r, 0) == [] && Repeat(s, 0) == [];
  }

  lemma OneMoreBatch(before: seq<Row>, blocks: seq<seq<Row>>, block: seq<Row>, size: nat, done: nat, total: nat,
                     measured: bool)
    returns (all: seq<seq<Row>>)
    requires AllBatches(blocks, total, measured) && 10 * |blocks| < total
    requires size == Min(10, total - 10 * |blocks|) && done == if measured then 10 * |blocks| else 0
    requires IsBatch(block, size, measured, done)
    ensures |all| == |blocks| + 1 && before + Flat(blocks) + block == before + Flat(all)
    ensures AllBatches(all, total, measured)
  {
    all := blocks + [block];
    FlatSnoc(blocks, block);
    assert before + Flat(blocks) + block == before + (Flat(blocks) + block);
    forall i: nat | i < |all|
      ensures BatchAt(all, i, total, measured)
    {
      if i < |blocks| { assert BatchAt(blocks, i, total, measured) && all[i] == blocks[i]; }
    }
  }

  lemma SameRank(s: Stage, t: Stage)
    ensures Rank(s) == Rank(t) ==> s == t
  {
  }

  /** A completed run has a terminal sample and ends with the quit row. */
  ghost predicate Completed(rows: seq<Row>, stages: seq<Stage>, long: bool, t: nat) {
    Staged(rows, stages, long) && t < |rows| && stages[t] == TerminalStage
  }

  lemma WithTail(s: Script, q: Request, extension: nat, final: nat) returns (script: Script)
    requires FitsSoFar(s, q) && (q.long <==> final > 0) && (!q.long ==> extension == 0)
    ensures FitsRun(script, q) && UpToTerminal(script, q.measured) == UpToTerminal(s, q.measured)
    ensures script.extension == extension && script.final == final
  {
    script := s.(extension := extension, final := final);
  }

  /** `drive_product`, when it completes: every row, in order. The terminal sample stands at `t`. */
  method Drive(q: Request)
    returns (rows: seq<Row>, ghost script: Script, ghost stages: seq<Stage>, ghost t: nat)
    ensures FitsRun(script, q) && rows == RowsOf(script, q.measured)
    ensures Completed(rows, stages, q.long, t) && t == |UpToTerminal(script, q.measured)|
    ensures Measured(rows) == q.measured
    ensures Claims(rows, Endpoint, 0) == BatchEnds((q.measured + 9) / 10, q.measured)
    ensures TabEndsFit(script.tabs, Claims(rows, TabEndpoint, 0), q.tabMeasured, q.measured)
  {
    var rec := new Recorder(q.long);
    script, t := rec.UntilQuit(q);
    rec.Emit(Interaction(true), Quitting);
    rows, stages := rec.rows, rec.stages;
    ghost var _ := RunClaims(script, q);
  }

  // ----- endpoints -----

  /** What a sample claims, and how many measured actions stand before it. */
  datatype Claim = Claim(done: int, actions: nat)

  /** The claims of the samples of one kind, in order; `before` measured actions stand before all of them. */
  function Claims(rows: seq<Row>, kind: Kind, before: nat): seq<Claim> {
    if rows == [] then []
    else
      var n := |rows| - 1;
      var earlier := Claims(rows[..n], kind, before);
      if rows[n].Resource? && rows[n].kind == kind
      then earlier + [Claim(rows[n].done, before + Measured(rows[..n]))] else earlier
  }

  lemma {:induction false} ClaimsConcat(a: seq<Row>, b: seq<Row>, kind: Kind, before: nat)
    ensures Measured(a + b) == Measured(a) + Measured(b)
    ensures Claims(a + b, kind, before) == Claims(a, kind, before) + Claims(b, kind, before + Measured(a))
  {
    if b == [] {
      assert a + b == a;
    } else {
      var n := |b| - 1;
      ClaimsConcat(a, b[..n], kind, before);
      assert (a + b)[..|a| + n] == a + b[..n] && (a + b)[|a| + n] == b[n];
    }
  }

  /** Rows without measured actions and without the rows looked for change nothing. */
  lemma {:induction false} NoClaims(rows: seq<Row>, kind: Kind, before: nat)
    requires forall r :: r in rows ==> !IsKind(r, kind) && r != Action(true)
    ensures Claims(rows, kind, before) == [] && Measured(rows) == 0
  {
    if rows != [] {
      var n := |rows| - 1;
      assert rows[n] in rows;
      NoClaims(rows[..n], kind, before);
    }
  }

  lemma {:induction false} ClicksClaim(n: nat, kind: Kind, before: nat)
    ensures Claims(Repeat(Action(true), n), kind, before) == [] && Measured(Repeat(Action(true), n)) == n
  {
    if n > 0 {
      ClicksClaim(n - 1, kind, before);
      RepeatSnoc(Action(true), n - 1);
      assert Repeat(Action(true), n)[..n - 1] == Repeat(Action(true), n - 1);
    }
  }

  lemma {:induction false} OneClaim(r: Row, kind: Kind, before: nat)
    requires IsKind(r, kind)
    ensures Claims([r], kind, before) == [Claim(r.done, before)] && Measured([r]) == 0
  {
    assert [r][..0] == [];
  }

  /** A measured batch has one endpoint, after its clicks; a warm-up batch has none. */
  lemma {:induction false} BatchClaims(block: seq<Row>, clicks: nat, measured: bool, done: nat)
    requires IsBatch(block, clicks, measured, done)
    ensures Measured(block) == if measured then clicks else 0
    ensures Claims(block, Endpoint, done) == if measured then [Claim(done + clicks, done + clicks)] else []
    ensures Claims(block, TabEndpoint, done) == []
  {
    var settle :| settle >= 3 && block == BatchRows(clicks, measured, done, settle);
    var after := if measured then done + clicks else done;
    var actions, samples := Repeat(Action(measured), clicks), Repeat(Resource(SettlePoint, after), settle - 1);
    var last := [Resource(if measured then Endpoint else SettlePoint, after)];
    ThreeClaims(block, actions, samples, last, Endpoint, done);
    ThreeClaims(block, actions, samples, last, TabEndpoint, done);
    NoClaims(samples, Endpoint, after);
    NoClaims(samples, TabEndpoint, after);
    NoClaims(last, TabEndpoint, after);
    if measured {
      ClicksClaim(clicks, Endpoint, done);
      ClicksClaim(clicks, TabEndpoint, done);
      OneClaim(last[0], Endpoint, after);
    } else {
      NoClaims(actions, Endpoint, done);
      NoClaims(actions, TabEndpoint, done);
      NoClaims(last, Endpoint, after);
    }
  }

  lemma {:induction false} ThreeClaims(all: seq<Row>, a: seq<Row>, b: seq<Row>, c: seq<Row>, kind: Kind,
                                       before: nat)
    requires all == a + b + c
    ensures Measured(all) == Measured(a) + Measured(b) + Measured(c)
    ensures Claims(all, kind, before) == Claims(a, kind, before) + Claims(b, kind, before + Measured(a))
                                      + Claims(c, kind, before + Measured(a) + Measured(b))
  {
    ClaimsConcat(a, b, kind, before);
    ClaimsConcat(a + b, c, kind, before);
  }

  /** Switches done after `n` batches of ten out of `total` switches. */
  function DoneAfter(n: nat, total: nat): nat { if 10 * n < total then 10 * n else total }

  /** The i-th measured batch ends after 10 * (i + 1) switches, the last one after all. */
  function BatchEnds(n: nat, total: nat): seq<Claim> {
    seq(n, i requires 0 <= i < n => Claim(DoneAfter(i + 1, total), DoneAfter(i + 1, total)))
  }

  lemma {:induction false} PhaseClaims(blocks: seq<seq<Row>>, n: nat, total: nat, measured: bool)
    requires AllBatches(blocks, total, measured) && n <= |blocks|
    ensures PhaseHas(Flat(blocks[..n]), n, total, measured)
  {
    if n == 0 {
      assert BatchEnds(0, total) == [];
    } else {
      PhaseClaims(blocks, n - 1, total, measured);
      assert BatchAt(blocks, n - 1, total, measured);
      assert blocks[..n] == blocks[..n - 1] + [blocks[n - 1]];
      FlatSnoc(blocks[..n - 1], blocks[n - 1]);
      DoneAfterBatch(n - 1, total);
      if measured {
        MeasuredBatchClaims(Flat(blocks[..n - 1]), blocks[n - 1], Flat(blocks[..n]), n - 1, total);
      } else {
        WarmupBatchClaims(Flat(blocks[..n - 1]), blocks[n - 1], Flat(blocks[..n]), Min(10, total - 10 * (n - 1)));
      }
    }
  }

  /** The measured actions of some rows, and their endpoints of both kinds; `before` actions come earlier. */
  ghost predicate EndsAre(rows: seq<Row>, before: nat, actions: nat, ends: seq<Claim>, tabs: seq<Claim>) {
    && Measured(rows) == actions
    && Claims(rows, Endpoint, before) == ends && Claims(rows, TabEndpoint, before) == tabs
  }

  lemma {:induction false} EndsJoin(a: seq<Row>, b: seq<Row>, all: seq<Row>, before: nat, m: nat, n: nat,
                                    e: seq<Claim>, f: seq<Claim>, t: seq<Claim>, u: seq<Claim>)
    requires all == a + b && EndsAre(a, before, m, e, t) && EndsAre(b, before + m, n, f, u)
    ensures EndsAre(all, before, m + n, e + f, t + u)
  {
    ClaimsConcat(a, b, Endpoint, before);
    ClaimsConcat(a, b, TabEndpoint, before);
  }

  lemma NoMore(s: seq<Claim>)
    ensures s + [] == s && [] + s == s
  {
  }

  /** `n` batches: their measured actions, and one endpoint each when measured. */
  ghost predicate PhaseHas(rows: seq<Row>, n: nat, total: nat, measured: bool) {
    if measured then EndsAre(rows, 0, DoneAfter(n, total), BatchEnds(n, total), []) else EndsAre(rows, 0, 0, [], [])
  }

  lemma BatchEndsSnoc(n: nat, total: nat)
    ensures BatchEnds(n, total) + [Claim(DoneAfter(n + 1, total), DoneAfter(n + 1, total))] == BatchEnds(n + 1, total)
  {
  }

  lemma DoneAfterBatch(n: nat, total: nat)
    requires 10 * n < total
    ensures DoneAfter(n, total) == 10 * n
    ensures DoneAfter(n + 1, total) == 10 * n + Min(10, total - 10 * n)
  {
  }

  lemma {:induction false} MeasuredBatchClaims(before: seq<Row>, block: seq<Row>, all: seq<Row>, n: nat, total: nat)
    requires all == before + block && 10 * n < total
    requires EndsAre(before, 0, 10 * n, BatchEnds(n, total), [])
    requires IsBatch(block, Min(10, total - 10 * n), true, 10 * n)
    ensures EndsAre(all, 0, DoneAfter(n + 1, total), BatchEnds(n + 1, total), [])
  {
    var clicks, done := Min(10, total - 10 * n), 10 * n;
    BatchClaims(block, clicks, true, done);
    var end := Claim(done + clicks, done + clicks);
    EndsJoin(before, block, all, 0, done, clicks, BatchEnds(n, total), [end], [], []);
    DoneAfterBatch(n, total);
    BatchEndsSnoc(n, total);
    NoMore([]);
  }

  lemma {:induction false} WarmupBatchClaims(before: seq<Row>, block: seq<Row>, all: seq<Row>, clicks: nat)
    requires all == before + block && EndsAre(before, 0, 0, [], []) && IsBatch(block, clicks, false, 0)
    ensures EndsAre(all, 0, 0, [], [])
  {
    BatchClaims(block, clicks, false, 0);
    NoMore([]);
    EndsJoin(before, block, all, 0, 0, 0, [], [], [], []);
  }

  /** The samples after one batch of tab cycles end in a tab endpoint when measured. */
  lemma {:induction false} TabBlockClaims(block: seq<Row>, settle: nat, measured: bool, done: nat)
    requires settle > 0
    requires block == Repeat(Resource(SettlePoint, done), settle - 1)
                      + [Resource(if measured then TabEndpoint else SettlePoint, done)]
    ensures Measured(block) == 0 && Claims(block, Endpoint, done) == []
    ensures Claims(block, TabEndpoint, done) == if measured then [Claim(done, done)] else []
  {
    var samples, last := Repeat(Resource(SettlePoint, done), settle - 1), block[settle - 1];
    NoClaims(block, Endpoint, done);
    ClaimsConcat(samples, [last], TabEndpoint, done);
    NoClaims(samples, TabEndpoint, done);
    if measured { OneClaim(last, TabEndpoint, done); } else { NoClaims([last], TabEndpoint, done); }
  }

  function SameClaims(n: nat, done: nat): seq<Claim> { seq(n, _ => Claim(done, done)) }

  lemma SameClaimsSnoc(n: nat, done: nat)
    ensures SameClaims(n, done) + [Claim(done, done)] == SameClaims(n + 1, done)
  {
  }

  /** Each measured tab batch that was emitted to its end has one tab endpoint; warm-up ones have none. */
  lemma {:induction false} TabClaims(settles: seq<nat>, measured: bool, done: nat)
    requires AllSettled(settles)
    ensures var rows := TabRows(settles, measured, done);
            && Measured(rows) == 0 && Claims(rows, Endpoint, done) == []
            && Claims(rows, TabEndpoint, done) == if measured then SameClaims(|settles|, done) else []
  {
    if settles == [] {
      assert SameClaims(0, done) == [];
    } else {
      var n := |settles| - 1;
      var before, block := TabRows(settles[..n], measured, done), TabBlock(settles[n], measured, done);
      TabClaims(settles[..n], measured, done);
      TabRowsSnoc(settles[..n], settles[n], measured, done);
      assert settles == settles[..n] + [settles[n]];
      TabBlockClaims(block, settles[n], measured, done);
      ClaimsConcat(before, block, Endpoint, done);
      ClaimsConcat(before, block, TabEndpoint, done);
      SameClaimsSnoc(n, done);
    }
  }

  /** A prefix of rows has a prefix of their claims. */
  lemma {:induction false} PrefixClaims(rows: seq<Row>, all: seq<Row>, kind: Kind, before: nat)
    requires rows <= all
    ensures Claims(rows, kind, before) <= Claims(all, kind, before) && Measured(rows) <= Measured(all)
  {
    assert all == rows + all[|rows|..];
    ClaimsConcat(rows, all[|rows|..], kind, before);
  }

  /** Neither a measured action nor an endpoint of either kind. */
  ghost predicate Quiet(rows: seq<Row>) {
    forall r :: r in rows ==> r != Action(true) && !IsKind(r, Endpoint) && !IsKind(r, TabEndpoint)
  }

  lemma {:induction false} AppendQuiet(a: seq<Row>, b: seq<Row>)
    requires Quiet(b)
    ensures Measured(a + b) == Measured(a)
    ensures Claims(a + b, Endpoint, 0) == Claims(a, Endpoint, 0)
    ensures Claims(a + b, TabEndpoint, 0) == Claims(a, TabEndpoint, 0)
  {
    ClaimsConcat(a, b, Endpoint, 0);
    ClaimsConcat(a, b, TabEndpoint, 0);
    NoClaims(b, Endpoint, Measured(a));
    NoClaims(b, TabEndpoint, Measured(a));
  }

  lemma RepeatIsQuiet(r: Row, n: nat)
    requires r != Action(true) && !IsKind(r, Endpoint) && !IsKind(r, TabEndpoint)
    ensures Quiet(Repeat(r, n)) && Quiet([r])
  {
  }

  lemma {:induction false} PhaseIsFull(blocks: seq<seq<Row>>, total: nat, measured: bool)
    requires IsPhase(blocks, total, measured)
    ensures PhaseHas(Flat(blocks), (total + 9) / 10, total, measured)
    ensures DoneAfter((total + 9) / 10, total) == total
  {
    if blocks != [] { assert BatchAt(blocks, |blocks| - 1, total, measured); }
    assert |blocks| == (total + 9) / 10;
    PhaseClaims(blocks, |blocks|, total, measured);
    assert blocks[..|blocks|] == blocks;
  }

  lemma {:induction false} OpeningClaims(s: Script, q: Request)
    requires FitsSoFar(s, q)
    ensures EndsAre(Opening(s), 0, 0, [], [])
  {
    PhaseIsFull(s.warmup, q.warmup, false);
    WarmupClaims(Flat(s.warmup));
    RepeatIsQuiet(Resource(Baseline, 0), s.baseline);
    AppendQuiet([Clipboard(false)] + Flat(s.warmup), Repeat(Resource(Baseline, 0), s.baseline));
  }

  lemma {:induction false} WarmupClaims(warmup: seq<Row>)
    requires EndsAre(warmup, 0, 0, [], [])
    ensures EndsAre([Clipboard(false)] + warmup, 0, 0, [], [])
  {
    var first := [Clipboard(false)];
    NoClaims(first, Endpoint, 0);
    NoClaims(first, TabEndpoint, 0);
    NoMore([]);
    EndsJoin(first, warmup, first + warmup, 0, 0, 0, [], [], [], []);
  }

  /** The tab endpoints of a run: one for each measured tab batch, fewer after an error. */
  ghost predicate TabEndsFit(t: Tabs, tabs: seq<Claim>, measuredTotal: nat, done: nat) {
    && tabs <= SameClaims((measuredTotal + 4) / 5, done)
    && (!t.failed ==> tabs == SameClaims((measuredTotal + 4) / 5, done))
  }

  lemma {:induction false} TabsClaim(t: Tabs, warmupTotal: nat, measuredTotal: nat, done: nat)
    requires TabsFit(t, warmupTotal, measuredTotal, done)
    ensures EndsAre(t.rows, done, 0, [], Claims(t.rows, TabEndpoint, done))
    ensures TabEndsFit(t, Claims(t.rows, TabEndpoint, done), measuredTotal, done)
  {
    var all := TabRows(t.warmup, false, done) + TabRows(t.measured, true, done);
    AllTabClaims(t.warmup, t.measured, all, done);
    PrefixClaims(t.rows, all, Endpoint, done);
    PrefixClaims(t.rows, all, TabEndpoint, done);
    SameClaimsPrefix(|t.measured|, (measuredTotal + 4) / 5, done);
  }

  lemma SameClaimsPrefix(m: nat, n: nat, done: nat)
    requires m <= n
    ensures SameClaims(m, done) <= SameClaims(n, done)
  {
  }

  lemma {:induction false} AllTabClaims(warmup: seq<nat>, measured: seq<nat>, all: seq<Row>, done: nat)
    requires AllSettled(warmup) && AllSettled(measured)
    requires all == TabRows(warmup, false, done) + TabRows(measured, true, done)
    ensures EndsAre(all, done, 0, [], SameClaims(|measured|, done))
  {
    TabClaims(warmup, false, done);
    TabClaims(measured, true, done);
    NoMore([]);
    NoMore(SameClaims(|measured|, done));
    EndsJoin(TabRows(warmup, false, done), TabRows(measured, true, done), all, done, 0, 0,
             [], [], [], SameClaims(|measured|, done));
  }

  /** Up to the measured switches. */
  lemma {:induction false} SwitchesClaim(s: Script, q: Request)
    requires FitsSoFar(s, q)
    ensures EndsAre(Opening(s) + Flat(s.measured), 0, q.measured, BatchEnds((q.measured + 9) / 10, q.measured), [])
  {
    var ends, opening := BatchEnds((q.measured + 9) / 10, q.measured), Opening(s);
    OpeningClaims(s, q);
    PhaseIsFull(s.measured, q.measured, true);
    NoMore(ends);
    NoMore([]);
    EndsJoin(opening, Flat(s.measured), opening + Flat(s.measured), 0, 0, q.measured, [], ends, [], []);
  }

  /** Up to the tab cycles. */
  lemma {:induction false} MeasuredClaims(s: Script, q: Request) returns (tabs: seq<Claim>)
    requires FitsSoFar(s, q)
    ensures EndsAre(Opening(s) + Flat(s.measured) + s.tabs.rows, 0, q.measured,
                    BatchEnds((q.measured + 9) / 10, q.measured), tabs)
    ensures TabEndsFit(s.tabs, tabs, q.tabMeasured, q.measured)
  {
    var m, ends, before := q.measured, BatchEnds((q.measured + 9) / 10, q.measured), Opening(s) + Flat(s.measured);
    SwitchesClaim(s, q);
    TabsClaim(s.tabs, q.tabWarmup, q.tabMeasured, m);
    tabs := Claims(s.tabs.rows, TabEndpoint, m);
    NoMore(ends);
    NoMore(tabs);
    EndsJoin(before, s.tabs.rows, before + s.tabs.rows, 0, m, 0, ends, [], [], tabs);
  }

  /** The endpoint rows of a run: after every tenth measured switch and after the last one, each claiming
      exactly the switches before it. None stands in the warm-up or after the measured switches. */
  lemma {:induction false} RunClaims(s: Script, q: Request) returns (tabs: seq<Claim>)
    requires FitsRun(s, q)
    ensures EndsAre(RowsOf(s, q.measured), 0, q.measured, BatchEnds((q.measured + 9) / 10, q.measured), tabs)
    ensures TabEndsFit(s.tabs, tabs, q.tabMeasured, q.measured)
  {
    tabs := MeasuredClaims(s, q);
    var m := q.measured;
    var a := Opening(s) + Flat(s.measured) + s.tabs.rows;
    var b := a + Repeat(Interaction(false), s.notes);
    RepeatIsQuiet(Interaction(false), s.notes);
    AppendQuiet(a, Repeat(Interaction(false), s.notes));
    RepeatIsQuiet(s.clipboard, 0);
    AppendQuiet(b, [s.clipboard]);
    RepeatIsQuiet(Resource(SettlePoint, m), s.settle);
    AppendQuiet(b + [s.clipboard], Repeat(Resource(SettlePoint, m), s.settle));
    TailIsQuiet(s, q, UpToTerminal(s, m));
  }

  lemma {:induction false} TailIsQuiet(s: Script, q: Request, before: seq<Row>)
    requires before == UpToTerminal(s, q.measured)
    ensures EndsAre(RowsOf(s, q.measured), 0, Measured(before),
                    Claims(before, Endpoint, 0), Claims(before, TabEndpoint, 0))
  {
    var m := q.measured;
    var c := before + [Resource(Terminal, m)];
    var d := c + Repeat(Resource(Extension, m), s.extension);
    var e := d + Repeat(Resource(Final, m), s.final);
    RepeatIsQuiet(Resource(Terminal, m), 0);
    AppendQuiet(before, [Resource(Terminal, m)]);
    RepeatIsQuiet(Resource(Extension, m), s.extension);
    AppendQuiet(c, Repeat(Resource(Extension, m), s.extension));
    RepeatIsQuiet(Resource(Final, m), s.final);
    AppendQuiet(d, Repeat(Resource(Final, m), s.final));
    RepeatIsQuiet(Interaction(true), 0);
    AppendQuiet(e, [Interaction(true)]);
  }

  /** What the kind of a row says about its stage. */
  lemma StageOf(s: Stage, r: Row)
    requires Allowed(s, r)
    ensures IsWarmup(r) <==> s == WarmupStage && r.Action?
    ensures IsMeasured(r) <==> s == MeasuredStage && r.Action?
    ensures IsKind(r, Terminal) <==> s == TerminalStage
    ensures IsKind(r, Final) <==> s == FinalWindow
    ensures IsKind(r, Extension) <==> s == ExtensionStage
    ensures IsQuit(r) <==> s == Quitting
    ensures r == Clipboard(false) <==> s == ClipboardBefore
    ensures r == Clipboard(true) ==> s == ClipboardAfter
  {
  }

  lemma StageAt(rows: seq<Row>, stages: seq<Stage>, long: bool, i: nat)
    requires Staged(rows, stages, long) && i < |rows|
    ensures Allowed(stages[i], rows[i]) && (long || !LongOnly(stages[i]))
    ensures IsWarmup(rows[i]) ==> stages[i] == WarmupStage
    ensures IsMeasured(rows[i]) ==> stages[i] == MeasuredStage
    ensures IsKind(rows[i], Terminal) <==> stages[i] == TerminalStage
    ensures IsKind(rows[i], Final) <==> stages[i] == FinalWindow
    ensures IsKind(rows[i], Extension) <==> stages[i] == ExtensionStage
    ensures IsQuit(rows[i]) <==> stages[i] == Quitting
    ensures rows[i] == Clipboard(false) <==> stages[i] == ClipboardBefore
    ensures rows[i] == Clipboard(true) ==> stages[i] == ClipboardAfter
    ensures forall j :: i < j < |rows| ==> Precedes(stages[i], stages[j])
  {
    assert Allowed(stages[i], rows[i]);
    StageOf(stages[i], rows[i]);
  }

  lemma StagedWarmupFirst(rows: seq<Row>, stages: seq<Stage>, long: bool)
    requires Staged(rows, stages, long)
    ensures WarmupFirst(rows)
  {
    forall i, j | 0 <= i < |rows| && 0 <= j < |rows| && IsWarmup(rows[i]) && IsMeasured(rows[j])
      ensures i < j
    {
      StageAt(rows, stages, long, i);
      StageAt(rows, stages, long, j);
    }
  }

  /** A row after the terminal sample is an extension or final sample of a long run, or the quit row. */
  lemma AfterTerminal(rows: seq<Row>, stages: seq<Stage>, long: bool, t: nat, j: nat)
    requires Completed(rows, stages, long, t) && t < j < |rows|
    ensures MayFollowTerminal(rows[j], long)
  {
    StageAt(rows, stages, long, t);
    StageAt(rows, stages, long, j);
  }

  lemma {:induction false} OneQuit(rows: seq<Row>, stages: seq<Stage>, long: bool, i: nat, j: nat)
    requires Staged(rows, stages, long) && i < j < |rows|
    ensures !(IsQuit(rows[i]) && IsQuit(rows[j]))
  {
    StageAt(rows, stages, long, i);
    StageAt(rows, stages, long, j);
  }

  lemma {:induction false} AroundTerminal(rows: seq<Row>, stages: seq<Stage>, long: bool, t: nat, j: nat)
    requires Completed(rows, stages, long, t) && j < |rows|
    ensures IsKind(rows[j], Terminal) <==> j == t
    ensures j < t ==> !IsKind(rows[j], Final)
  {
    StageAt(rows, stages, long, t);
    StageAt(rows, stages, long, j);
  }

  lemma {:induction false} CompletedTerminalCloses(rows: seq<Row>, stages: seq<Stage>, long: bool, t: nat)
    requires Completed(rows, stages, long, t)
    ensures OneTerminal(rows, t) && TerminalCloses(rows, t, long)
  {
    forall j | 0 <= j < |rows|
      ensures IsKind(rows[j], Terminal) <==> j == t
      ensures j < t ==> !IsKind(rows[j], Final)
      ensures t < j ==> MayFollowTerminal(rows[j], long)
    {
      AroundTerminal(rows, stages, long, t, j);
      if t < j { AfterTerminal(rows, stages, long, t, j); }
    }
    forall i, j | 0 <= i < j < |rows|
      ensures !(IsQuit(rows[i]) && IsQuit(rows[j]))
    {
      OneQuit(rows, stages, long, i, j);
    }
  }

  lemma {:induction false} CompletedFinalCloses(rows: seq<Row>, stages: seq<Stage>, long: bool, t: nat)
    requires Completed(rows, stages, long, t)
    ensures FinalCloses(rows)
  {
    forall i, j | 0 <= i < j < |rows| && IsKind(rows[i], Final)
      ensures FinalRowOk(rows[j], FinalAfter(rows, j))
    {
      StageAt(rows, stages, long, i);
      StageAt(rows, stages, long, j);
      if FinalAfter(rows, j) {
        var k :| j < k < |rows| && IsKind(rows[k], Final);
        StageAt(rows, stages, long, k);
      }
    }
  }

  lemma CompletedResourcesClose(rows: seq<Row>, stages: seq<Stage>, long: bool, t: nat)
    requires Completed(rows, stages, long, t)
    ensures ResourcesClose(rows)
  {
    StageAt(rows, stages, long, t);
    forall i, j | 0 <= i < j < |rows| && rows[i].Resource? && !IsQuit(rows[j])
      ensures exists k :: j <= k < |rows| && rows[k].Resource?
    {
      if j <= t {
        assert rows[t].Resource?;
      } else {
        AfterTerminal(rows, stages, long, t, j);
        assert rows[j].Resource?;
      }
    }
  }

  /** Every trace a completed run can emit passes all ordering checks; it has one terminal sample and
      at most one clipboard row of each phase. */
  lemma CompletedRunPasses(rows: seq<Row>, stages: seq<Stage>, long: bool, t: nat)
    requires Completed(rows, stages, long, t)
    ensures OrderOk(rows, long) && OneTerminal(rows, t)
    ensures forall i, j :: 0 <= i < j < |rows| ==> !(rows[i].Clipboard? && rows[i] == rows[j])
  {
    StagedWarmupFirst(rows, stages, long);
    CompletedTerminalCloses(rows, stages, long, t);
    CompletedFinalCloses(rows, stages, long, t);
    CompletedResourcesClose(rows, stages, long, t);
    forall i, j | 0 <= i < j < |rows|
      ensures !(rows[i].Clipboard? && rows[i] == rows[j])
    {
      StageAt(rows, stages, long, i);
      StageAt(rows, stages, long, j);
    }
  }

  /** A short trace that passes, with one terminal sample, has at most one row after it, a quit row. */
  lemma ShortPassingTrace(rows: seq<Row>, t: nat)
    requires OrderOk(rows, false) && OneTerminal(rows, t)
    ensures t + 1 == |rows| || (t + 2 == |rows| && IsQuit(rows[t + 1]))
  {
    assert TerminalCloses(rows, t, false);
    if t + 1 < |rows| {
      assert IsQuit(rows[t + 1]) && IsQuit(rows[|rows| - 1]);
    }
  }

  /** A trace that passes has each endpoint that claims k switches after the k-th measured action. */
  lemma {:induction false} PassingEndpoints(rows: seq<Row>, long: bool, i: nat)
    requires OrderOk(rows, long) && i < |rows| && IsKind(rows[i], Endpoint)
    ensures var measured, k := Where(rows, IsMeasured), rows[i].done;
            1 <= k <= |measured| && measured[k - 1] < i
  {
    HonestEndpoint(rows, i);
  }

  lemma {:induction false} HonestEndpoint(rows: seq<Row>, i: nat)
    requires EndpointsHonest(rows) && i < |rows| && IsKind(rows[i], Endpoint)
    ensures var measured, k := Where(rows, IsMeasured), rows[i].done;
            1 <= k <= |measured| && measured[k - 1] < i
  {
    MeasuredBefore(rows, i, rows[i].done);
  }

  lemma {:induction false} MeasuredBefore(rows: seq<Row>, i: nat, k: int)
    requires i <= |rows| && 1 <= k <= Measured(rows[..i])
    ensures var measured := Where(rows, IsMeasured); k <= |measured| && measured[k - 1] < i
  {
    MeasuredIsWhere(rows[..i]);
    WhereGrows(rows, IsMeasured, i);
    WhereBefore(rows, IsMeasured, i, k - 1);
  }
}
