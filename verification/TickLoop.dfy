/** The sampling loop of one measured run.

    A tick is what one pass of the loop observes: the clock, the process identity before and after
    the sample, whether the sample is valid, and what the two looks at the readiness marker see.
    The loop keeps a handful of running variables; the specification has none. It says what a tick
    means in terms of the whole past.
 */
module TickLoop {
  import opened Prelude

  type Exe(==,!new) = string

  datatype Identity = Identity(starttime: int, exe: Option<Exe>)

  datatype Tick = Tick(
    now: int, exited: bool, before: Option<Identity>, after: Option<Identity>,
    valid: bool, gone: bool, markerFirst: bool, markerAfter: bool)

  datatype Config = Config(
    expected: Option<Exe>, gatePublished: bool, gateExe: Option<Exe>, tracked: Option<int>, spawned: bool,
    start: int, deadline: int, readinessTimeout: int, steadySeconds: int)

  datatype Phase = LauncherSetup | Launch | PreReady | Steady

  datatype Sample = Sample(index: nat, timestamp: int, interval: int, phase: Phase, exe: Option<Exe>)

  datatype Failure =
    | Deadline | Crashed | UnexpectedExe | Timeout | Unreadable | WrongExeReady
    | NeverExecuted | NoSteadySample | SampleOnWrongExe

  datatype Verdict = Continue | Finish | Fail(failure: Failure)

  datatype Outcome = Running | Finished | Failed(failure: Failure)

  // ----- one tick -----

  /** The gate was published while another binary was running. */
  predicate PreExecGate(cfg: Config) {
    cfg.gatePublished && cfg.expected.Some? && cfg.gateExe != cfg.expected
  }

  predicate SameProcess(t: Tick) {
    t.before.Some? && t.after.Some? && t.after.value.starttime == t.before.value.starttime
  }

  /** The identity changed, or cannot be trusted, across the sample. */
  predicate Broke(cfg: Config, t: Tick) {
    || !SameProcess(t)
    || t.before.value.exe != t.after.value.exe
    || (cfg.expected.Some? && (t.before.value.exe == None || t.after.value.exe == None))
  }

  predicate Sampled(cfg: Config, t: Tick) { !Broke(cfg, t) && t.valid }

  predicate ExecSeen(cfg: Config, t: Tick)
    requires SameProcess(t)
  {
    && cfg.expected.Some? && t.after.value.exe == cfg.expected
    && t.before.value.exe != None && t.before.value.exe != cfg.expected
  }

  /** This tick saw the expected binary: it ran throughout, or was exec'ed during the sample. */
  predicate SawTarget(cfg: Config, t: Tick) {
    && SameProcess(t) && cfg.expected.Some?
    && if Broke(cfg, t) then ExecSeen(cfg, t) else t.before.value.exe == cfg.expected
  }

  predicate SetsReady(cfg: Config, t: Tick) { Sampled(cfg, t) && t.markerAfter }

  // ----- the past -----

  ghost predicate Seen(cfg: Config, past: seq<Tick>) {
    exists j :: 0 <= j < |past| && SawTarget(cfg, past[j])
  }

  /** When readiness was set: the first sampled tick at whose end the marker was visible. */
  ghost function ReadyAt(cfg: Config, past: seq<Tick>): Option<int> {
    if past == [] then None
    else
      var last, earlier := past[|past| - 1], ReadyAt(cfg, past[..|past| - 1]);
      if earlier.Some? then earlier else if SetsReady(cfg, last) then Some(last.now) else None
  }

  /** The gate's binary, else the binary of the first stable tick that could read one. */
  ghost function InitialExe(cfg: Config, past: seq<Tick>): Option<Exe> {
    if past == [] then (if cfg.gatePublished then cfg.gateExe else None)
    else
      var last, earlier := past[|past| - 1], InitialExe(cfg, past[..|past| - 1]);
      if earlier.Some? || Broke(cfg, last) then earlier else last.before.value.exe
  }

  /** Stable but invalid ticks since the last valid one. */
  ghost function UnreadableRun(cfg: Config, past: seq<Tick>): nat {
    if past == [] then 0
    else
      var last, earlier := past[|past| - 1], UnreadableRun(cfg, past[..|past| - 1]);
      if Broke(cfg, last) then earlier else if last.valid then 0 else earlier + 1
  }

  ghost function TrackedStart(cfg: Config, past: seq<Tick>): Option<int> {
    if cfg.tracked.Some? || past == [] then cfg.tracked
    else if past[0].before.Some? then Some(past[0].before.value.starttime) else None
  }

  ghost function LastTime(cfg: Config, past: seq<Tick>): int {
    if past == [] then cfg.start else past[|past| - 1].now
  }

  ghost function PhaseOf(cfg: Config, past: seq<Tick>, t: Tick): Phase
    requires !Broke(cfg, t)
  {
    if cfg.expected.Some? && t.before.value.exe != cfg.expected then LauncherSetup
    else if ReadyAt(cfg, past).Some? then Steady
    else if cfg.expected.Some? then (if PreExecGate(cfg) && Seen(cfg, past + [t]) then Launch else PreReady)
    else if cfg.spawned then Launch
    else PreReady
  }

  ghost function SampleOf(cfg: Config, past: seq<Tick>, t: Tick, index: nat): Sample
    requires !Broke(cfg, t)
  {
    Sample(index, t.now, t.now - LastTime(cfg, past), PhaseOf(cfg, past, t), t.before.value.exe)
  }

  ghost function SamplesOf(cfg: Config, past: seq<Tick>): seq<Sample> {
    if past == [] then []
    else
      var last, before := past[|past| - 1], past[..|past| - 1];
      var earlier := SamplesOf(cfg, before);
      if !Sampled(cfg, last) then earlier
      else earlier + [SampleOf(cfg, before, last, |earlier|)]
  }

  ghost predicate TimedOut(cfg: Config, past: seq<Tick>, t: Tick) {
    ReadyAt(cfg, past).None? && t.now - cfg.start > cfg.readinessTimeout
  }

  // ----- how a tick ends -----

  /** One readable binary gave way to another that is not the expected one. */
  predicate EntersOther(cfg: Config, t: Tick)
    requires SameProcess(t)
  {
    var b, a := t.before.value.exe, t.after.value.exe;
    cfg.expected.Some? && a.Some? && b.Some? && a != b && a != cfg.expected
  }

  ghost function BrokenVerdict(cfg: Config, past: seq<Tick>, t: Tick): Verdict
    requires t.before.Some? && Broke(cfg, t)
  {
    if !SameProcess(t) then Fail(Crashed)
    else if EntersOther(cfg, t) then Fail(UnexpectedExe)
    else if TimedOut(cfg, past, t) then Fail(Timeout)
    else Continue
  }

  /** The binary is the expected one, the first one seen, or the gate's. */
  ghost predicate KnownExe(cfg: Config, past: seq<Tick>, t: Tick)
    requires !Broke(cfg, t)
  {
    var exe, gateExe := t.before.value.exe, if cfg.gatePublished then cfg.gateExe else None;
    cfg.expected.Some? ==> exe == cfg.expected || exe == InitialExe(cfg, past + [t]) || exe == gateExe
  }

  /** An invalid sample of a process that is gone, or one too many; a marker on the wrong binary. */
  ghost function MeasureFailure(cfg: Config, past: seq<Tick>, t: Tick): Option<Failure>
    requires !Broke(cfg, t)
  {
    if !t.valid then
      if t.gone then Some(Crashed) else if UnreadableRun(cfg, past) >= 10 then Some(Unreadable) else None
    else if t.markerFirst && ReadyAt(cfg, past).None? && cfg.expected.Some? && t.before.value.exe != cfg.expected then
      Some(WrongExeReady)
    else None
  }

  ghost function StableVerdict(cfg: Config, past: seq<Tick>, t: Tick): Verdict
    requires !Broke(cfg, t)
  {
    if !KnownExe(cfg, past, t) then Fail(UnexpectedExe)
    else if MeasureFailure(cfg, past, t).Some? then Fail(MeasureFailure(cfg, past, t).value)
    else Timing(cfg, ReadyAt(cfg, past + [t]), t.now)
  }

  /** Not ready: within the readiness timeout or not. Ready: the steady time is over or not. */
  function Timing(cfg: Config, ready: Option<int>, now: int): Verdict {
    if ready.None? then (if now - cfg.start > cfg.readinessTimeout then Fail(Timeout) else Continue)
    else if now - ready.value >= cfg.steadySeconds then Finish
    else Continue
  }

  predicate SameStart(tracked: Option<int>, starttime: int) { tracked.Some? ==> tracked.value == starttime }

  ghost function VerdictOf(cfg: Config, past: seq<Tick>, t: Tick): Verdict {
    if t.now > cfg.deadline then Fail(Deadline)
    else if t.exited then Fail(Crashed)
    else if t.before.None? then Fail(Crashed)
    else if !SameStart(TrackedStart(cfg, past), t.before.value.starttime) then Fail(Crashed)
    else if Broke(cfg, t) then BrokenVerdict(cfg, past, t)
    else StableVerdict(cfg, past, t)
  }

  /** Every tick of `past` let the loop go on. */
  ghost predicate Alive(cfg: Config, past: seq<Tick>) {
    forall j :: 0 <= j < |past| ==> VerdictOf(cfg, past[..j], past[j]) == Continue
  }

  ghost predicate OutcomeIs(cfg: Config, ticks: seq<Tick>, n: nat, outcome: Outcome, samples: seq<Sample>) {
    && n <= |ticks| && Alive(cfg, ticks[..n])
    && if n == |ticks| then outcome == Running && samples == SamplesOf(cfg, ticks)
       else match VerdictOf(cfg, ticks[..n], ticks[n])
            case Continue => false
            case Fail(f) => outcome == Failed(f)
            case Finish =>
              && samples == SamplesOf(cfg, ticks[..n + 1])
              && outcome == if cfg.expected.Some? && !Seen(cfg, ticks[..n + 1]) then Failed(NeverExecuted)
                            else if !HasSteady(samples) then Failed(NoSteadySample) else Finished
  }

  ghost predicate HasSteady(samples: seq<Sample>) {
    exists k :: 0 <= k < |samples| && samples[k].phase == Steady
  }

  class Loop {
    const cfg: Config
    ghost var past: seq<Tick>
    var ready: Option<int>
    var samples: seq<Sample>
    var unreadableRootCount: nat
    var execDiscovered: Option<int>
    var initialExe: Option<Exe>
    var targetSeen: bool
    var trackedStarttime: Option<int>
    var lastSampleTime: int

    ghost predicate Valid()
      reads this
    {
      && Core() && trackedStarttime == TrackedStart(cfg, past)
      && (past != [] ==> trackedStarttime.Some?)
    }

    ghost predicate Core()
      reads this
    {
      && ready == ReadyAt(cfg, past)
      && samples == SamplesOf(cfg, past)
      && unreadableRootCount == UnreadableRun(cfg, past)
      && execDiscovered.Some? == (PreExecGate(cfg) && Seen(cfg, past))
      && initialExe == InitialExe(cfg, past)
      && targetSeen == Seen(cfg, past)
      && lastSampleTime == LastTime(cfg, past)
    }

    constructor (cfg: Config)
      ensures Valid() && past == [] && this.cfg == cfg
    {
      this.cfg := cfg;
      past := [];
      ready, samples, unreadableRootCount, execDiscovered := None, [], 0, None;
      initialExe := if cfg.gatePublished then cfg.gateExe else None;
      targetSeen := false;
      trackedStarttime, lastSampleTime := cfg.tracked, cfg.start;
    }

    method BrokenTick(t: Tick) returns (v: Verdict)
      requires Core() && t.before.Some? && Broke(cfg, t)
      requires trackedStarttime == TrackedStart(cfg, past + [t]) && trackedStarttime.Some?
      modifies this
      ensures v == BrokenVerdict(cfg, old(past), t)
      ensures v == Continue ==> past == old(past) + [t] && Valid()
    {
      if t.after.None? || t.after.value.starttime != t.before.value.starttime {
        return Fail(Crashed);
      }
      SnocFacts(cfg, past, t);
      ghost var all := past + [t];
      var expected := EnteredTarget(t);
      if !expected { return Fail(UnexpectedExe); }
      if ready.None? && t.now - cfg.start > cfg.readinessTimeout {
        return Fail(Timeout);
      }
      past := all;
      lastSampleTime := t.now;
      v := Continue;
    }

    /** Whether the change of binary, if there was one, is to the expected binary; note that it was seen. */
    method EnteredTarget(t: Tick) returns (ok: bool)
      requires SameProcess(t) && Broke(cfg, t)
      requires targetSeen == Seen(cfg, past) && execDiscovered.Some? == (PreExecGate(cfg) && Seen(cfg, past))
      modifies this`targetSeen, this`execDiscovered
      ensures targetSeen == Seen(cfg, past + [t])
      ensures execDiscovered.Some? == (PreExecGate(cfg) && Seen(cfg, past + [t]))
      ensures ok <==> !EntersOther(cfg, t)
    {
      SnocFacts(cfg, past, t);
      ok := true;
      var b, a := t.before.value.exe, t.after.value.exe;
      if cfg.expected.Some? && a == cfg.expected && b != None && b != cfg.expected {
        if PreExecGate(cfg) && execDiscovered.None? {
          execDiscovered := Some(t.now);
        }
        targetSeen := true;
      } else if cfg.expected.Some? && a.Some? && b.Some? && a != b && a != cfg.expected {
        ok := false;
      }
    }

    /** Note the binary a stable tick saw; refuse one that is neither expected nor the first. */
    method TrackExe(t: Tick) returns (known: bool)
      requires !Broke(cfg, t)
      requires initialExe == InitialExe(cfg, past) && targetSeen == Seen(cfg, past)
      requires execDiscovered.Some? == (PreExecGate(cfg) && Seen(cfg, past))
      modifies this`initialExe, this`targetSeen, this`execDiscovered
      ensures initialExe == InitialExe(cfg, past + [t])
      ensures known <==> KnownExe(cfg, past, t)
      ensures known ==> targetSeen == Seen(cfg, past + [t])
      ensures known ==> execDiscovered.Some? == (PreExecGate(cfg) && Seen(cfg, past + [t]))
    {
      SnocFacts(cfg, past, t);
      var exe := t.before.value.exe;
      if initialExe.None? && exe.Some? {
        initialExe := exe;
      }
      var gateExe := if cfg.gatePublished then cfg.gateExe else None;
      if cfg.expected.Some? && exe != cfg.expected && exe != initialExe && exe != gateExe {
        return false;
      }
      if cfg.expected.Some? && exe == cfg.expected {
        targetSeen := true;
        if PreExecGate(cfg) && execDiscovered.None? {
          execDiscovered := Some(t.now);
        }
      }
      known := true;
    }

    method StableTick(t: Tick) returns (v: Verdict)
      requires Core() && !Broke(cfg, t)
      requires trackedStarttime == TrackedStart(cfg, past + [t]) && trackedStarttime.Some?
      modifies this
      ensures v == StableVerdict(cfg, old(past), t)
      ensures !v.Fail? ==> past == old(past) + [t] && Valid()
    {
      ghost var all := past + [t];
      assert all[|all| - 1] == t;
      var known := TrackExe(t);
      if !known { return Fail(UnexpectedExe); }
      var failure := Measure(t);
      if failure.Some? { return Fail(failure.value); }
      SnocFacts(cfg, past, t);
      past := all;
      lastSampleTime := t.now;
      v := Timing(cfg, ready, t.now);
    }

    /** The sample itself, and the two looks at the readiness marker around it. */
    method Measure(t: Tick) returns (failure: Option<Failure>)
      requires !Broke(cfg, t)
      requires ready == ReadyAt(cfg, past) && samples == SamplesOf(cfg, past) && lastSampleTime == LastTime(cfg, past)
      requires execDiscovered.Some? == (PreExecGate(cfg) && Seen(cfg, past + [t]))
      requires unreadableRootCount == UnreadableRun(cfg, past)
      modifies this`samples, this`ready, this`unreadableRootCount
      ensures failure == MeasureFailure(cfg, old(past), t)
      ensures failure.None? ==>
                && ready == ReadyAt(cfg, past + [t]) && samples == SamplesOf(cfg, past + [t])
                && unreadableRootCount == UnreadableRun(cfg, past + [t])
    {
      SnocFacts(cfg, past, t);
      failure := None;
      if !t.valid {
        if t.gone { return Some(Crashed); }
        unreadableRootCount := unreadableRootCount + 1;
        if unreadableRootCount > 10 { return Some(Unreadable); }
      } else {
        unreadableRootCount := 0;
        if t.markerFirst && ready.None? && cfg.expected.Some? && t.before.value.exe != cfg.expected {
          return Some(WrongExeReady);
        }
        AppendSample(t);
        if t.markerAfter && ready.None? {
          ready := Some(t.now);
        }
      }
    }

    method AppendSample(t: Tick)
      requires Sampled(cfg, t)
      requires ready == ReadyAt(cfg, past) && samples == SamplesOf(cfg, past) && lastSampleTime == LastTime(cfg, past)
      requires execDiscovered.Some? == (PreExecGate(cfg) && Seen(cfg, past + [t]))
      modifies this`samples
      ensures samples == SamplesOf(cfg, past + [t])
    {
      var exe := t.before.value.exe;
      var phase := SamplePhase(ready.Some?, exe, cfg.expected, PreExecGate(cfg), execDiscovered.Some?, cfg.spawned);
      NextSample(cfg, past, t, phase, ready.Some?, execDiscovered.Some?);
      samples := samples + [Sample(|samples|, t.now, t.now - lastSampleTime, phase, t.before.value.exe)];
    }

    /** One pass of the loop. */
    method Pass(t: Tick) returns (v: Verdict)
      requires Valid()
      modifies this
      ensures v == VerdictOf(cfg, old(past), t)
      ensures !v.Fail? ==> past == old(past) + [t] && Valid()
    {
      if t.now > cfg.deadline { return Fail(Deadline); }
      if t.exited { return Fail(Crashed); }
      if t.before.None? || !SameStart(trackedStarttime, t.before.value.starttime) {
        return Fail(Crashed);
      }
      TrackedSnoc(cfg, past, t);
      if trackedStarttime.None? {
        trackedStarttime := Some(t.before.value.starttime);
      }
      if Broke(cfg, t) {
        v := BrokenTick(t);
      } else {
        v := StableTick(t);
      }
    }
  }

  /** `_sample_phase`. */
  function SamplePhase(ready: bool, exe: Option<Exe>, expected: Option<Exe>, preExecGate: bool, transitionSeen: bool,
                       spawned: bool): Phase
  {
    if expected.Some? && exe != expected then LauncherSetup
    else if ready then Steady
    else if expected.Some? then (if preExecGate && transitionSeen then Launch else PreReady)
    else if spawned then Launch else PreReady
  }

  /** The loop over the ticks of one run, and the checks after it. `n` ticks let it go on. */
  method Run(cfg: Config, ticks: seq<Tick>) returns (outcome: Outcome, samples: seq<Sample>, n: nat)
    ensures OutcomeIs(cfg, ticks, n, outcome, samples)
  {
    var loop := new Loop(cfg);
    n := 0;
    while n < |ticks|
      invariant n <= |ticks|
      invariant loop.Valid() && loop.cfg == cfg && loop.past == ticks[..n]
      invariant Alive(cfg, ticks[..n])
    {
      assert ticks[..n + 1] == ticks[..n] + [ticks[n]];
      var v := loop.Pass(ticks[n]);
      if v.Fail? { return Failed(v.failure), [], n; }
      if v == Finish {
        samples := loop.samples;
        ghost var _, _ := ReadySample(cfg, loop.past);
        assert samples != [];  // "zero valid samples" is never raised
        outcome := CheckRun(cfg, loop.targetSeen, samples, loop.past);
        return;
      }
      AliveSnoc(cfg, ticks, n);
      n := n + 1;
    }
    assert ticks[..n] == ticks;
    outcome, samples := Running, loop.samples;
  }

  /** The checks after the loop. The last one, on the binary of each sample, never raises. */
  method CheckRun(cfg: Config, targetSeen: bool, samples: seq<Sample>, ghost past: seq<Tick>) returns (outcome: Outcome)
    requires samples == SamplesOf(cfg, past)
    ensures outcome == if cfg.expected.Some? && !targetSeen then Failed(NeverExecuted)
                       else if !HasSteady(samples) then Failed(NoSteadySample) else Finished
  {
    if cfg.expected.Some? && !targetSeen { return Failed(NeverExecuted); }
    var steady := false;
    for k := 0 to |samples|
      invariant steady <==> HasSteady(samples[..k])
    {
      assert samples[..k + 1] == samples[..k] + [samples[k]];
      SteadySnoc(samples[..k], samples[k]);
      steady := steady || samples[k].phase == Steady;
    }
    assert samples[..|samples|] == samples;
    if !steady { return Failed(NoSteadySample); }
    for k := 0 to |samples| {
      SampleExe(cfg, past, k);
      var s := samples[k];
      if cfg.expected.Some? && s.phase != LauncherSetup && s.exe != cfg.expected { return Failed(SampleOnWrongExe); }
    }
    outcome := Finished;
  }

  lemma SteadySnoc(samples: seq<Sample>, s: Sample)
    ensures HasSteady(samples + [s]) <==> HasSteady(samples) || s.phase == Steady
  {
    var all := samples + [s];
    if HasSteady(samples) {
      var k :| 0 <= k < |samples| && samples[k].phase == Steady;
      assert all[k].phase == Steady;
    }
    assert all[|samples|] == s;
  }

  /** Every sample that is not labelled launcher-setup ran the expected binary. */
  lemma SampleExe(cfg: Config, past: seq<Tick>, k: nat)
    requires k < |SamplesOf(cfg, past)|
    ensures cfg.expected.Some? && SamplesOf(cfg, past)[k].phase != LauncherSetup ==>
              SamplesOf(cfg, past)[k].exe == cfg.expected
  {
    var j := SampleSource(cfg, past, k);
  }

  lemma AliveSnoc(cfg: Config, ticks: seq<Tick>, n: nat)
    requires n < |ticks| && Alive(cfg, ticks[..n]) && VerdictOf(cfg, ticks[..n], ticks[n]) == Continue
    ensures Alive(cfg, ticks[..n + 1])
  {
    assert forall j :: 0 <= j <= n ==> ticks[..n + 1][..j] == ticks[..j];
    assert forall j :: 0 <= j < n ==> ticks[..n][..j] == ticks[..j] && ticks[..n][j] == ticks[j];
  }

  /** The label computed from the running variables is the one the past defines. */
  lemma {:induction false} NextSample(cfg: Config, past: seq<Tick>, t: Tick, phase: Phase, ready: bool,
                                      discovered: bool)
    requires Sampled(cfg, t) && ready == ReadyAt(cfg, past).Some?
    requires discovered == (PreExecGate(cfg) && Seen(cfg, past + [t]))
    requires phase == SamplePhase(ready, t.before.value.exe, cfg.expected, PreExecGate(cfg), discovered, cfg.spawned)
    ensures SamplesOf(cfg, past + [t]) ==
            SamplesOf(cfg, past)
            + [Sample(|SamplesOf(cfg, past)|, t.now, t.now - LastTime(cfg, past), phase, t.before.value.exe)]
  {
    assert (past + [t])[..|past|] == past;
    assert PhaseOf(cfg, past, t) == phase;
  }

  lemma TrackedSnoc(cfg: Config, past: seq<Tick>, t: Tick)
    ensures TrackedStart(cfg, past).Some? ==> TrackedStart(cfg, past + [t]) == TrackedStart(cfg, past)
    ensures past == [] && t.before.Some? && cfg.tracked.None? ==>
              TrackedStart(cfg, past + [t]) == Some(t.before.value.starttime)
  {
  }

  /** What one more tick does to each summary of the past. */
  lemma {:induction false} SnocFacts(cfg: Config, past: seq<Tick>, t: Tick)
    ensures var all := past + [t];
      && ReadyAt(cfg, all) == (if ReadyAt(cfg, past).Some? then ReadyAt(cfg, past)
                               else if SetsReady(cfg, t) then Some(t.now) else None)
      && (Seen(cfg, all) <==> Seen(cfg, past) || SawTarget(cfg, t))
      && InitialExe(cfg, all) == (if InitialExe(cfg, past).Some? || Broke(cfg, t) then InitialExe(cfg, past)
                                  else t.before.value.exe)
      && UnreadableRun(cfg, all) == (if Broke(cfg, t) then UnreadableRun(cfg, past)
                                     else if t.valid then 0 else UnreadableRun(cfg, past) + 1)
      && LastTime(cfg, all) == t.now
      && SamplesOf(cfg, all) == SamplesOf(cfg, past) +
           (if Sampled(cfg, t)
            then [SampleOf(cfg, past, t, |SamplesOf(cfg, past)|)]
            else [])
  {
    var all := past + [t];
    assert all[..|all| - 1] == past && all[|all| - 1] == t;
    assert forall j :: 0 <= j < |past| ==> all[j] == past[j];
    if Seen(cfg, past) {
      var j :| 0 <= j < |past| && SawTarget(cfg, past[j]);
      assert SawTarget(cfg, all[j]);
    }
    if SawTarget(cfg, t) {
      assert SawTarget(cfg, all[|past|]);
    }
  }

  // ----- what every run keeps -----

  /** Each sample comes from a tick that saw one process and one binary throughout. */
  lemma {:induction false} SampleSource(cfg: Config, past: seq<Tick>, k: nat) returns (j: nat)
    requires k < |SamplesOf(cfg, past)|
    ensures j < |past| && Sampled(cfg, past[j])
    ensures past[j].before == past[j].after && past[j].before.Some?
    ensures k == |SamplesOf(cfg, past[..j])|
    ensures SamplesOf(cfg, past)[k] ==
            SampleOf(cfg, past[..j], past[j], k)
  {
    var n := |past| - 1;
    if k < |SamplesOf(cfg, past[..n])| {
      j := SampleSource(cfg, past[..n], k);
      assert past[..n][..j] == past[..j];
    } else {
      j := n;
    }
  }

  /** The tick that set readiness appended a sample, and no earlier tick could have. */
  lemma {:induction false} ReadySample(cfg: Config, past: seq<Tick>) returns (j: nat, k: nat)
    requires ReadyAt(cfg, past).Some?
    ensures j < |past| && SetsReady(cfg, past[j]) && ReadyAt(cfg, past) == Some(past[j].now)
    ensures forall i :: 0 <= i < j ==> !SetsReady(cfg, past[i])
    ensures ReadyAt(cfg, past[..j]).None?
    ensures k < |SamplesOf(cfg, past)| && SamplesOf(cfg, past)[k].timestamp == past[j].now
    ensures SamplesOf(cfg, past)[k].phase != Steady && SamplesOf(cfg, past)[k].exe == past[j].before.value.exe
  {
    var n := |past| - 1;
    if ReadyAt(cfg, past[..n]).Some? {
      j, k := ReadySample(cfg, past[..n]);
      assert past[..n][..j] == past[..j];
    } else {
      j, k := n, |SamplesOf(cfg, past[..n])|;
      NeverReady(cfg, past[..n]);
    }
  }

  lemma {:induction false} NeverReady(cfg: Config, past: seq<Tick>)
    requires ReadyAt(cfg, past).None?
    ensures forall i :: 0 <= i < |past| ==> !SetsReady(cfg, past[i])
  {
    if past != [] { NeverReady(cfg, past[..|past| - 1]); }
  }

  lemma {:induction false} ReadyStays(cfg: Config, past: seq<Tick>, j: nat)
    requires j <= |past| && ReadyAt(cfg, past[..j]).Some?
    ensures ReadyAt(cfg, past) == ReadyAt(cfg, past[..j])
  {
    if j < |past| {
      assert past[..|past| - 1][..j] == past[..j];
      ReadyStays(cfg, past[..|past| - 1], j);
    } else {
      assert past[..j] == past;
    }
  }

  /** Launch and pre-ready samples never occur in one run. */
  lemma LaunchExcludesPreReady(cfg: Config, past: seq<Tick>, k: nat, l: nat)
    requires k < |SamplesOf(cfg, past)| && l < |SamplesOf(cfg, past)|
    requires SamplesOf(cfg, past)[k].phase == Launch
    ensures SamplesOf(cfg, past)[l].phase != PreReady
  {
    var i := SampleSource(cfg, past, k);
    var j := SampleSource(cfg, past, l);
    assert (past[..j] + [past[j]])[j] == past[j];
    if cfg.expected.Some? && past[j].before.value.exe == cfg.expected {
      assert SawTarget(cfg, past[j]);
      assert Seen(cfg, past[..j] + [past[j]]);
    }
  }

  /** After a steady sample come only steady samples, or samples of a binary that is not the target. */
  lemma {:induction false} SteadyIsLast(cfg: Config, past: seq<Tick>, k: nat, l: nat)
    requires k < l < |SamplesOf(cfg, past)| && SamplesOf(cfg, past)[k].phase == Steady
    ensures SamplesOf(cfg, past)[l].phase in {Steady, LauncherSetup}
  {
    var n := |past| - 1;
    if l < |SamplesOf(cfg, past[..n])| {
      SteadyIsLast(cfg, past[..n], k, l);
    } else {
      var i := SampleSource(cfg, past[..n], k);
      assert past[..n][..i] == past[..i];
      ReadyStays(cfg, past[..n], i);
    }
  }

  /** With an expected binary, a launch sample needs a gate published on another binary and a tick,
      no later than the sample's own, that saw the expected one. */
  lemma LaunchNeedsGateAndTransition(cfg: Config, past: seq<Tick>, k: nat) returns (i: nat, j: nat)
    requires cfg.expected.Some? && k < |SamplesOf(cfg, past)| && SamplesOf(cfg, past)[k].phase == Launch
    ensures cfg.gatePublished && cfg.gateExe != cfg.expected
    ensures i <= j < |past| && SawTarget(cfg, past[i])
    ensures SamplesOf(cfg, past)[k].timestamp == past[j].now && SamplesOf(cfg, past)[k].exe == cfg.expected
  {
    j := SampleSource(cfg, past, k);
    var upTo := past[..j] + [past[j]];
    var m :| 0 <= m < |upTo| && SawTarget(cfg, upTo[m]);
    i := m;
  }

  /** A finished run ran for at least the steady time after the sample that set readiness, and saw
      the expected binary. */
  lemma FinishedRun(cfg: Config, ticks: seq<Tick>, n: nat, samples: seq<Sample>) returns (j: nat, k: nat)
    requires OutcomeIs(cfg, ticks, n, Finished, samples)
    ensures n < |ticks| && j <= n && k < |samples|
    ensures SetsReady(cfg, ticks[j]) && samples[k].timestamp == ticks[j].now && samples[k].phase != Steady
    ensures ticks[n].now - samples[k].timestamp >= cfg.steadySeconds
    ensures cfg.steadySeconds > 0 ==> j < n
    ensures cfg.expected.Some? ==> exists i :: 0 <= i <= n && SawTarget(cfg, ticks[i])
    ensures HasSteady(samples)
  {
    var all := ticks[..n + 1];
    assert all == ticks[..n] + [ticks[n]];
    j, k := ReadySample(cfg, all);
    if cfg.expected.Some? {
      var i :| 0 <= i < |all| && SawTarget(cfg, all[i]);
      assert SawTarget(cfg, ticks[i]);
    }
  }

  // ----- readiness on the wrong binary -----

  /** The tick shows a binary that is not the expected one throughout a valid sample, and the marker at
      the second look only. */
  predicate GapTick(cfg: Config, t: Tick) {
    && cfg.expected.Some? && SameProcess(t) && t.valid
    && t.before.value.exe == t.after.value.exe && t.before.value.exe.Some? && t.before.value.exe != cfg.expected
    && !t.markerFirst && t.markerAfter
  }

  /** The run is in time and its process is the one that was tracked. */
  ghost predicate InTime(cfg: Config, past: seq<Tick>, t: Tick) {
    && t.now <= cfg.deadline && !t.exited && t.before.Some?
    && SameStart(TrackedStart(cfg, past), t.before.value.starttime)
  }

  /** A tick sets readiness on a wrong binary, and the run goes on, exactly when it is a gap tick of a
      binary known from the start. */
  lemma WrongReadiness(cfg: Config, past: seq<Tick>, t: Tick)
    requires cfg.expected.Some?
    ensures !VerdictOf(cfg, past, t).Fail? && ReadyAt(cfg, past).None? && SetsReady(cfg, t)
            && t.before.value.exe != cfg.expected
            <==> InTime(cfg, past, t) && ReadyAt(cfg, past).None? && GapTick(cfg, t) && KnownExe(cfg, past, t)
  {
    SnocFacts(cfg, past, t);
  }

  /** While a known wrong binary runs, the run fails for its readiness exactly when the sample is valid and
      the first look sees the marker. */
  lemma MarkerOnWrongExe(cfg: Config, past: seq<Tick>, t: Tick)
    requires cfg.expected.Some? && InTime(cfg, past, t) && ReadyAt(cfg, past).None?
    requires !Broke(cfg, t) && KnownExe(cfg, past, t) && t.before.value.exe != cfg.expected
    ensures VerdictOf(cfg, past, t) == Fail(WrongExeReady) <==> t.valid && t.markerFirst
  {
    SnocFacts(cfg, past, t);
  }

  /** An unreadable sample hides the marker: both looks of tick 0 would see it on the launcher, but the
      loop does not look, and the run finishes. */
  lemma MarkerOnUnreadableTick() returns (cfg: Config, ticks: seq<Tick>)
    ensures cfg.expected.Some? && |ticks| == 3
    ensures ticks[0].markerFirst && ticks[0].markerAfter && !Broke(cfg, ticks[0]) && !ticks[0].valid
    ensures ticks[0].before.value.exe != cfg.expected && KnownExe(cfg, [], ticks[0])
    ensures Alive(cfg, ticks[..2]) && VerdictOf(cfg, ticks[..2], ticks[2]) == Finish
    ensures Seen(cfg, ticks) && HasSteady(SamplesOf(cfg, ticks))
    ensures forall i :: 0 <= i < |ticks| ==> !GapTick(cfg, ticks[i])
  {
    var launcher, app := Some(Identity(7, Some("launcher"))), Some(Identity(7, Some("app")));
    cfg := Config(Some("app"), true, Some("launcher"), Some(7), true, 0, 100, 10, 1);
    var t0 := Tick(0, false, launcher, launcher, false, false, true, true);
    var t1 := Tick(1, false, app, app, true, false, true, true);
    ticks := [t0, t1, t1.(now := 2)];
    UnreadableThenReady(cfg, t0, t1, t1.(now := 2), ticks);
  }

  /** A stable tick of a run that is in time. */
  ghost predicate Steadily(cfg: Config, t: Tick, now: int) {
    InTime(cfg, [], t) && !Broke(cfg, t) && t.now == now && now - cfg.start <= cfg.readinessTimeout
  }

  /** An unreadable tick, a tick that sets readiness on the target, and a tick that ends the run. */
  lemma {:induction false} UnreadableThenReady(cfg: Config, t0: Tick, t1: Tick, t2: Tick, ticks: seq<Tick>)
    requires ticks == [t0, t1, t2] && cfg.expected.Some? && cfg.steadySeconds == 1 && cfg.tracked.Some?
    requires Steadily(cfg, t0, 0) && Steadily(cfg, t1, 1) && Steadily(cfg, t2, 2)
    requires KnownExe(cfg, [], t0) && !t0.valid && !t0.gone && t1.valid && t1.markerAfter && t2.valid
    requires t1.before.value.exe == cfg.expected == t2.before.value.exe
    ensures Alive(cfg, ticks[..2]) && VerdictOf(cfg, ticks[..2], ticks[2]) == Finish
    ensures Seen(cfg, ticks) && HasSteady(SamplesOf(cfg, ticks))
  {
    var one, two := [t0], [t0, t1];
    assert [] + [t0] == one && one + [t1] == two && two + [t2] == ticks;
    assert ticks[..0] == [] && ticks[..1] == one && ticks[..2] == two;
    assert ticks[0] == t0 && ticks[1] == t1 && ticks[2] == t2;
    SnocFacts(cfg, [], t0);
    SnocFacts(cfg, one, t1);
    SnocFacts(cfg, two, t2);
    assert VerdictOf(cfg, [], t0) == Continue;
    assert VerdictOf(cfg, one, t1) == Continue;
    SteadyIffSampled(cfg, ticks);
    assert SteadyTick(cfg, ticks, 2);
  }

  /** No tick of `past` failed the run. */
  ghost predicate Unfailed(cfg: Config, past: seq<Tick>) {
    forall j :: 0 <= j < |past| ==> !VerdictOf(cfg, past[..j], past[j]).Fail?
  }

  /** In every run that has not failed, readiness certifies the expected binary exactly when the tick
      that set it is no gap tick. */
  lemma ReadinessCertifiesExe(cfg: Config, past: seq<Tick>) returns (j: nat)
    requires Unfailed(cfg, past) && cfg.expected.Some? && ReadyAt(cfg, past).Some?
    ensures j < |past| && SetsReady(cfg, past[j]) && ReadyAt(cfg, past) == Some(past[j].now)
    ensures forall i :: 0 <= i < j ==> !SetsReady(cfg, past[i])
    ensures past[j].before.value.exe == cfg.expected <==> !GapTick(cfg, past[j])
  {
    var i, _ := ReadySample(cfg, past);
    j := i;
    WrongReadiness(cfg, past[..j], past[j]);
  }

  /** A tick after readiness whose sample counts as steady. */
  ghost predicate SteadyTick(cfg: Config, past: seq<Tick>, i: nat)
    requires i < |past|
  {
    && Sampled(cfg, past[i]) && ReadyAt(cfg, past[..i]).Some?
    && (cfg.expected.Some? ==> past[i].before.value.exe == cfg.expected)
  }

  /** A run has a steady sample exactly when some tick after readiness was sampled on the target. Ending
      the steady time is not enough: its ticks may be unreadable or changing. */
  lemma SteadyIffSampled(cfg: Config, past: seq<Tick>)
    ensures HasSteady(SamplesOf(cfg, past)) <==> exists i: nat :: i < |past| && SteadyTick(cfg, past, i)
  {
    if HasSteady(SamplesOf(cfg, past)) {
      var k :| 0 <= k < |SamplesOf(cfg, past)| && SamplesOf(cfg, past)[k].phase == Steady;
      var j := SampleSource(cfg, past, k);
      assert SteadyTick(cfg, past, j);
    }
    if i: nat :| i < |past| && SteadyTick(cfg, past, i) {
      var k := SampledIsListed(cfg, past, i);
    }
  }

  lemma {:induction false} SampledIsListed(cfg: Config, past: seq<Tick>, i: nat) returns (k: nat)
    requires i < |past| && Sampled(cfg, past[i])
    ensures k < |SamplesOf(cfg, past)| && SamplesOf(cfg, past)[k].phase == PhaseOf(cfg, past[..i], past[i])
  {
    var n := |past| - 1;
    if i == n {
      k := |SamplesOf(cfg, past[..n])|;
    } else {
      assert past[..n][..i] == past[..i];
      k := SampledIsListed(cfg, past[..n], i);
    }
  }

  /** Such a run: the marker appears between the two looks of a tick that ran the launcher, and the run
      still finishes. The documentation says that a readiness marker on the wrong binary fails. */
  lemma MarkerBetweenLooks() returns (cfg: Config, ticks: seq<Tick>)
    ensures cfg.expected.Some? && |ticks| == 3
    ensures SetsReady(cfg, ticks[0]) && ticks[0].before.value.exe != cfg.expected && !ticks[0].markerFirst
    ensures Alive(cfg, ticks[..2]) && VerdictOf(cfg, ticks[..2], ticks[2]) == Finish
    ensures GapTick(cfg, ticks[0]) && Seen(cfg, ticks) && HasSteady(SamplesOf(cfg, ticks))
    ensures ReadyAt(cfg, ticks) == Some(ticks[0].now)
  {
    var launcher, app := Some(Identity(7, Some("launcher"))), Some(Identity(7, Some("app")));
    cfg := Config(Some("app"), true, Some("launcher"), Some(7), true, 0, 100, 10, 2);
    var t0 := Tick(0, false, launcher, launcher, true, false, false, true);
    var t1 := Tick(1, false, app, app, true, false, true, true);
    ticks := [t0, t1, t1.(now := 2)];
    GapThenSteady(cfg, t0, t1, t1.(now := 2), ticks);
  }

  /** A gap tick and two ticks on the target, the second one after the steady time. */
  lemma {:induction false} GapThenSteady(cfg: Config, t0: Tick, t1: Tick, t2: Tick, ticks: seq<Tick>)
    requires ticks == [t0, t1, t2] && cfg.expected.Some? && cfg.steadySeconds == 2 && cfg.tracked.Some?
    requires Steadily(cfg, t0, 0) && Steadily(cfg, t1, 1) && Steadily(cfg, t2, 2)
    requires GapTick(cfg, t0) && KnownExe(cfg, [], t0) && t1.valid && t2.valid
    requires t1.before.value.exe == cfg.expected == t2.before.value.exe
    ensures Alive(cfg, ticks[..2]) && VerdictOf(cfg, ticks[..2], ticks[2]) == Finish
    ensures Seen(cfg, ticks) && HasSteady(SamplesOf(cfg, ticks)) && ReadyAt(cfg, ticks) == Some(t0.now)
  {
    var one, two := [t0], [t0, t1];
    assert [] + [t0] == one && one + [t1] == two && two + [t2] == ticks;
    assert ticks[..0] == [] && ticks[..1] == one && ticks[..2] == two;
    assert ticks[0] == t0 && ticks[1] == t1 && ticks[2] == t2;
    SnocFacts(cfg, [], t0);
    SnocFacts(cfg, one, t1);
    SnocFacts(cfg, two, t2);
    assert VerdictOf(cfg, [], t0) == Continue;
    assert VerdictOf(cfg, one, t1) == Continue;
    SteadyIffSampled(cfg, ticks);
    assert SteadyTick(cfg, ticks, 1);
  }

  /** A run that goes on has never seen more than ten unreadable samples in a row. */
  lemma {:induction false} UnreadableBudget(cfg: Config, past: seq<Tick>)
    requires Alive(cfg, past)
    ensures UnreadableRun(cfg, past) <= 10
  {
    if past != [] {
      var n := |past| - 1;
      assert forall j :: 0 <= j < n ==> past[..n][..j] == past[..j] && past[..n][j] == past[j];
      UnreadableBudget(cfg, past[..n]);
      assert VerdictOf(cfg, past[..n], past[n]) == Continue;
    }
  }
}
