/** What the sampling loop decides, said of the ticks alone.

    `TickLoop` defines a tick's verdict step by step, in the vocabulary of the loop. Here every verdict
    and every label is characterised by what the ticks show: which processes, binaries and markers.
 */
module TickMeaning {
  import opened Prelude
  import opened TickLoop

  // ----- what ticks show -----

  /** One process and one binary before and after the sample, a readable one if one is expected. */
  predicate Stable(cfg: Config, t: Tick) {
    t.before.Some? && t.after == t.before && (cfg.expected.Some? ==> t.before.value.exe.Some?)
  }

  /** The process is still there after the sample. */
  predicate Stays(t: Tick) {
    t.before.Some? && t.after.Some? && t.after.value.starttime == t.before.value.starttime
  }

  /** The expected binary ran throughout, or took over from another one. */
  predicate ShowsTarget(cfg: Config, t: Tick) {
    && cfg.expected.Some? && Stays(t) && t.after.value.exe == cfg.expected && t.before.value.exe.Some?
  }

  /** A valid sample at whose end the marker was there. */
  predicate ShowsReady(cfg: Config, t: Tick) { Stable(cfg, t) && t.valid && t.markerAfter }

  lemma StableIsUnbroken(cfg: Config, t: Tick)
    ensures Stable(cfg, t) <==> !Broke(cfg, t)
    ensures Stays(t) <==> SameProcess(t)
    ensures ShowsReady(cfg, t) <==> SetsReady(cfg, t)
    ensures ShowsTarget(cfg, t) <==> SawTarget(cfg, t)
  {
  }

  // ----- what the past shows -----

  /** The first tick that shows readiness. */
  ghost predicate FirstReady(cfg: Config, ticks: seq<Tick>, j: nat) {
    j < |ticks| && ShowsReady(cfg, ticks[j]) && forall i :: 0 <= i < j ==> !ShowsReady(cfg, ticks[i])
  }

  ghost predicate AnyReady(cfg: Config, ticks: seq<Tick>) {
    exists i :: 0 <= i < |ticks| && ShowsReady(cfg, ticks[i])
  }

  /** Readiness is the clock of the first tick that shows it. */
  lemma {:induction false} ReadyIsFirst(cfg: Config, ticks: seq<Tick>)
    ensures ReadyAt(cfg, ticks).Some? <==> AnyReady(cfg, ticks)
    ensures forall j: nat :: FirstReady(cfg, ticks, j) ==> ReadyAt(cfg, ticks) == Some(ticks[j].now)
  {
    if ReadyAt(cfg, ticks).Some? {
      var j, _ := ReadySample(cfg, ticks);
      forall i | 0 <= i <= j
        ensures ShowsReady(cfg, ticks[i]) <==> SetsReady(cfg, ticks[i])
      {
        StableIsUnbroken(cfg, ticks[i]);
      }
      assert ShowsReady(cfg, ticks[j]);
    } else {
      NeverReady(cfg, ticks);
      forall i | 0 <= i < |ticks|
        ensures !ShowsReady(cfg, ticks[i])
      {
        StableIsUnbroken(cfg, ticks[i]);
      }
    }
  }

  /** In time, and the process is the one that is tracked: the one given, else the first one seen. */
  ghost predicate SeesProcess(cfg: Config, past: seq<Tick>, t: Tick) {
    && !t.exited && t.before.Some?
    && (cfg.tracked.Some? ==> t.before.value.starttime == cfg.tracked.value)
    && (cfg.tracked.None? && past != [] && past[0].before.Some? ==>
          t.before.value.starttime == past[0].before.value.starttime)
  }

  lemma InTimeIs(cfg: Config, past: seq<Tick>, t: Tick)
    ensures InTime(cfg, past, t) <==> t.now <= cfg.deadline && SeesProcess(cfg, past, t)
  {
  }

  /** The first stable tick that could read a binary read this one. */
  ghost predicate FirstSeen(cfg: Config, ticks: seq<Tick>, exe: Option<Exe>) {
    exists i :: 0 <= i < |ticks| && FirstSeenAt(cfg, ticks, i) && ticks[i].before.value.exe == exe
  }

  ghost predicate FirstSeenAt(cfg: Config, ticks: seq<Tick>, i: nat)
    requires i < |ticks|
  {
    && Stable(cfg, ticks[i]) && ticks[i].before.value.exe.Some?
    && forall j :: 0 <= j < i && Stable(cfg, ticks[j]) ==> ticks[j].before.value.exe.None?
  }

  ghost predicate GateExe(cfg: Config, exe: Option<Exe>) { cfg.gatePublished && cfg.gateExe == exe }

  /** The first binary is the gate's; without one, that of the first stable tick that could read one. */
  lemma {:induction false} InitialIsFirst(cfg: Config, ticks: seq<Tick>, exe: Option<Exe>)
    requires exe.Some?
    ensures InitialExe(cfg, ticks) == exe <==>
            if cfg.gatePublished && cfg.gateExe.Some? then cfg.gateExe == exe else FirstSeen(cfg, ticks, exe)
    ensures InitialExe(cfg, ticks).None? ==> forall i :: 0 <= i < |ticks| && Stable(cfg, ticks[i]) ==>
              ticks[i].before.value.exe.None?
  {
    if ticks != [] {
      var n := |ticks| - 1;
      InitialIsFirst(cfg, ticks[..n], exe);
      StableIsUnbroken(cfg, ticks[n]);
      FirstSeenSnoc(cfg, ticks, exe);
      var earlier := InitialExe(cfg, ticks[..n]);
      if earlier.Some? {
        InitialIsFirst(cfg, ticks[..n], earlier);
        FirstSeenSnoc(cfg, ticks, earlier);
      } else {
        if cfg.gatePublished && cfg.gateExe.Some? { InitialIsFirst(cfg, ticks[..n], cfg.gateExe); }
        NoneSeen(cfg, ticks, exe);
      }
    }
  }

  /** If no stable tick before the last one could read a binary, the last one is the first that could. */
  lemma {:induction false} NoneSeen(cfg: Config, ticks: seq<Tick>, exe: Option<Exe>)
    requires ticks != [] && exe.Some?
    requires var before := ticks[..|ticks| - 1];
             forall i :: 0 <= i < |before| && Stable(cfg, before[i]) ==> before[i].before.value.exe.None?
    ensures var n := |ticks| - 1;
            && (FirstSeenAt(cfg, ticks, n) <==> Stable(cfg, ticks[n]) && ticks[n].before.value.exe.Some?)
            && !FirstSeen(cfg, ticks[..n], exe)
            && forall i :: 0 <= i < n && Stable(cfg, ticks[i]) ==> ticks[i].before.value.exe.None?
  {
    var n := |ticks| - 1;
    forall i | 0 <= i < n && Stable(cfg, ticks[i])
      ensures ticks[i].before.value.exe.None?
    {
      assert ticks[..n][i] == ticks[i];
    }
  }

  lemma {:induction false} FirstSeenSnoc(cfg: Config, ticks: seq<Tick>, exe: Option<Exe>)
    requires ticks != []
    ensures var n := |ticks| - 1;
            && (FirstSeen(cfg, ticks, exe) <==>
                FirstSeen(cfg, ticks[..n], exe) || (FirstSeenAt(cfg, ticks, n) && ticks[n].before.value.exe == exe))
            && (FirstSeenAt(cfg, ticks, n) ==> !FirstSeen(cfg, ticks[..n], exe))
  {
    var n := |ticks| - 1;
    var before := ticks[..n];
    forall i | 0 <= i < n
      ensures FirstSeenAt(cfg, before, i) <==> FirstSeenAt(cfg, ticks, i)
    {
      assert forall j :: 0 <= j <= i ==> before[j] == ticks[j];
    }
    if FirstSeen(cfg, ticks, exe) {
      var i :| 0 <= i < |ticks| && FirstSeenAt(cfg, ticks, i) && ticks[i].before.value.exe == exe;
      if i < n { assert FirstSeenAt(cfg, before, i) && before[i] == ticks[i]; }
    }
    if FirstSeen(cfg, before, exe) {
      var i :| 0 <= i < n && FirstSeenAt(cfg, before, i) && before[i].before.value.exe == exe;
      assert FirstSeenAt(cfg, ticks, i) && ticks[i] == before[i];
    }
  }

  /** The expected binary, the gate's or the first one. */
  ghost predicate Known(cfg: Config, past: seq<Tick>, t: Tick)
    requires t.before.Some?
  {
    var exe := t.before.value.exe;
    && exe.Some?
    && (exe == cfg.expected || GateExe(cfg, exe)
        || (!(cfg.gatePublished && cfg.gateExe.Some?) && FirstSeen(cfg, past + [t], exe)))
  }

  lemma KnownIs(cfg: Config, past: seq<Tick>, t: Tick)
    requires cfg.expected.Some? && Stable(cfg, t)
    ensures Broke(cfg, t) || (KnownExe(cfg, past, t) <==> Known(cfg, past, t))
  {
    StableIsUnbroken(cfg, t);
    InitialIsFirst(cfg, past + [t], t.before.value.exe);
  }

  /** Stable ticks that could not be read, with no readable one after them. */
  ghost function Unread(cfg: Config, ticks: seq<Tick>): set<int> {
    set i | 0 <= i < |ticks| && Stable(cfg, ticks[i]) && !ticks[i].valid
            && forall j :: i < j < |ticks| && Stable(cfg, ticks[j]) ==> !ticks[j].valid
  }

  lemma {:induction false} UnreadSnoc(cfg: Config, before: seq<Tick>, t: Tick, ticks: seq<Tick>)
    requires ticks == before + [t]
    ensures Stable(cfg, t) && t.valid ==> Unread(cfg, ticks) == {}
    ensures Stable(cfg, t) && !t.valid ==> Unread(cfg, ticks) == Unread(cfg, before) + {|before|}
    ensures !Stable(cfg, t) ==> Unread(cfg, ticks) == Unread(cfg, before)
  {
    var n := |before|;
    assert ticks[n] == t && forall i :: 0 <= i < n ==> before[i] == ticks[i];
    assert Stable(cfg, t) && t.valid ==> Stable(cfg, ticks[n]) && ticks[n].valid;
  }

  lemma {:induction false} UnreadIsCounted(cfg: Config, ticks: seq<Tick>)
    ensures UnreadableRun(cfg, ticks) == |Unread(cfg, ticks)|
  {
    if ticks != [] {
      var n := |ticks| - 1;
      UnreadIsCounted(cfg, ticks[..n]);
      StableIsUnbroken(cfg, ticks[n]);
      UnreadSnoc(cfg, ticks[..n], ticks[n], ticks);
      assert n !in Unread(cfg, ticks[..n]);
    }
  }

  // ----- the failures, one by one -----

  /** An unknown binary throughout, or one readable binary after another that is not the expected one. */
  ghost predicate ShowsOther(cfg: Config, past: seq<Tick>, t: Tick)
    requires Stays(t)
  {
    var b, a := t.before.value.exe, t.after.value.exe;
    && cfg.expected.Some?
    && if Stable(cfg, t) then !Known(cfg, past, t) else b.Some? && a.Some? && b != a && a != cfg.expected
  }

  ghost predicate Gone(cfg: Config, t: Tick) { Stable(cfg, t) && !t.valid && t.gone }

  /** An unreadable sample after ten others in a row. */
  ghost predicate OneTooMany(cfg: Config, past: seq<Tick>, t: Tick) {
    Stable(cfg, t) && !t.valid && !t.gone && |Unread(cfg, past)| >= 10
  }

  /** A valid sample of a wrong binary, not ready before, with the marker at the first look. */
  ghost predicate WrongMarker(cfg: Config, past: seq<Tick>, t: Tick) {
    && Stable(cfg, t) && t.valid && t.markerFirst && !AnyReady(cfg, past)
    && cfg.expected.Some? && t.before.value.exe != cfg.expected
  }

  /** None of the failures that come before the clock is asked. */
  ghost predicate Sound(cfg: Config, past: seq<Tick>, t: Tick) {
    && t.now <= cfg.deadline && SeesProcess(cfg, past, t) && Stays(t)
    && !ShowsOther(cfg, past, t) && !Gone(cfg, t) && !OneTooMany(cfg, past, t) && !WrongMarker(cfg, past, t)
  }

  /** Not ready after the tick, and the readiness timeout is over. */
  ghost predicate TooLate(cfg: Config, past: seq<Tick>, t: Tick) {
    !AnyReady(cfg, past + [t]) && t.now - cfg.start > cfg.readinessTimeout
  }

  /** A stable tick when the steady time since the first ready tick is over. */
  ghost predicate Steadied(cfg: Config, past: seq<Tick>, t: Tick) {
    && Stable(cfg, t)
    && exists j: nat :: FirstReady(cfg, past + [t], j) && t.now - (past + [t])[j].now >= cfg.steadySeconds
  }

  lemma {:induction false} SteadiedIs(cfg: Config, past: seq<Tick>, t: Tick)
    ensures var ready := ReadyAt(cfg, past + [t]);
            Steadied(cfg, past, t) <==> Stable(cfg, t) && ready.Some? && t.now - ready.value >= cfg.steadySeconds
  {
    var all := past + [t];
    ReadyIsFirst(cfg, all);
    if ReadyAt(cfg, all).Some? {
      var j := FirstOf(cfg, all);
      assert FirstReady(cfg, all, j);
    }
  }

  lemma {:induction false} FirstOf(cfg: Config, ticks: seq<Tick>) returns (j: nat)
    requires AnyReady(cfg, ticks)
    ensures FirstReady(cfg, ticks, j)
  {
    var n := |ticks| - 1;
    if AnyReady(cfg, ticks[..n]) {
      j := FirstOf(cfg, ticks[..n]);
      assert forall i :: 0 <= i <= j ==> ticks[..n][i] == ticks[i];
    } else {
      j := n;
      assert forall i :: 0 <= i < n ==> ticks[..n][i] == ticks[i];
    }
  }

  /** The readings of the loop's own vocabulary that the verdict of one tick needs. */
  lemma {:induction false} Readings(cfg: Config, past: seq<Tick>, t: Tick)
    ensures Stable(cfg, t) <==> !Broke(cfg, t)
    ensures Stays(t) <==> SameProcess(t)
    ensures InTime(cfg, past, t) <==> t.now <= cfg.deadline && SeesProcess(cfg, past, t)
    ensures cfg.expected.Some? && Stable(cfg, t) ==> (KnownExe(cfg, past, t) <==> Known(cfg, past, t))
    ensures UnreadableRun(cfg, past) == |Unread(cfg, past)|
    ensures ReadyAt(cfg, past).Some? <==> AnyReady(cfg, past)
    ensures ReadyAt(cfg, past + [t]).Some? <==> AnyReady(cfg, past + [t])
  {
    StableIsUnbroken(cfg, t);
    InTimeIs(cfg, past, t);
    if cfg.expected.Some? && Stable(cfg, t) { KnownIs(cfg, past, t); }
    UnreadIsCounted(cfg, past);
    ReadyIsFirst(cfg, past);
    ReadyIsFirst(cfg, past + [t]);
  }

  /** Every failure before the clock is asked, in the order of the loop. */
  lemma {:induction false} Failures(cfg: Config, past: seq<Tick>, t: Tick)
    ensures var v := VerdictOf(cfg, past, t);
            && (v == Fail(Deadline) <==> t.now > cfg.deadline)
            && (v == Fail(Crashed) <==>
                  t.now <= cfg.deadline &&
                    (!SeesProcess(cfg, past, t) || !Stays(t) || (Gone(cfg, t) && !ShowsOther(cfg, past, t))))
            && (v == Fail(UnexpectedExe) <==>
                  t.now <= cfg.deadline && SeesProcess(cfg, past, t) && Stays(t) && ShowsOther(cfg, past, t))
            && (v == Fail(Unreadable) <==>
                  && t.now <= cfg.deadline && SeesProcess(cfg, past, t) && OneTooMany(cfg, past, t)
                  && !ShowsOther(cfg, past, t))
            && (v == Fail(WrongExeReady) <==>
                  && t.now <= cfg.deadline && SeesProcess(cfg, past, t) && WrongMarker(cfg, past, t)
                  && !ShowsOther(cfg, past, t))
  {
    Readings(cfg, past, t);
    InTimeIs(cfg, past, t);
  }

  /** When nothing else fails, the clock decides: a timeout, the end of the steady time, or going on. */
  lemma {:induction false} ClockDecides(cfg: Config, past: seq<Tick>, t: Tick)
    ensures var v := VerdictOf(cfg, past, t);
            && (v == Fail(Timeout) <==> Sound(cfg, past, t) && TooLate(cfg, past, t))
            && (v == Finish <==> Sound(cfg, past, t) && Steadied(cfg, past, t))
            && (v == Continue <==> Sound(cfg, past, t) && !TooLate(cfg, past, t) && !Steadied(cfg, past, t))
  {
    Readings(cfg, past, t);
    SteadiedIs(cfg, past, t);
    BrokenKeepsReady(cfg, past, t);
  }

  lemma {:induction false} BrokenKeepsReady(cfg: Config, past: seq<Tick>, t: Tick)
    ensures !Stable(cfg, t) ==> ReadyAt(cfg, past + [t]) == ReadyAt(cfg, past)
  {
    StableIsUnbroken(cfg, t);
    SnocFacts(cfg, past, t);
  }

  /** A run that goes on without readiness is within the readiness timeout at every tick. */
  lemma {:induction false} UnreadyIsInTime(cfg: Config, past: seq<Tick>, j: nat)
    requires Alive(cfg, past) && ReadyAt(cfg, past).None? && j < |past|
    ensures past[j].now - cfg.start <= cfg.readinessTimeout
  {
    var before := past[..j];
    assert before + [past[j]] == past[..j + 1];
    assert VerdictOf(cfg, before, past[j]) == Continue;
    ClockDecides(cfg, before, past[j]);
    ReadyIsFirst(cfg, past);
    assert !AnyReady(cfg, past[..j + 1]);
  }

  // ----- the labels -----

  /** Some tick so far showed the target. */
  ghost predicate AnyTarget(cfg: Config, ticks: seq<Tick>) {
    exists i :: 0 <= i < |ticks| && ShowsTarget(cfg, ticks[i])
  }

  /** Each sample and its label, in terms of the tick it comes from and the ticks before it. */
  lemma {:induction false} Labels(cfg: Config, past: seq<Tick>, k: nat) returns (j: nat)
    requires k < |SamplesOf(cfg, past)|
    ensures j < |past| && Stable(cfg, past[j]) && past[j].valid
    ensures var s, wrong := SamplesOf(cfg, past)[k], cfg.expected.Some? && past[j].before.value.exe != cfg.expected;
            && s.timestamp == past[j].now && s.exe == past[j].before.value.exe
            && (s.phase == LauncherSetup <==> wrong)
            && (s.phase == Steady <==> !wrong && AnyReady(cfg, past[..j]))
            && (s.phase == Launch <==>
                  && !wrong && !AnyReady(cfg, past[..j])
                  && if cfg.expected.None? then cfg.spawned
                     else cfg.gatePublished && cfg.gateExe != cfg.expected && AnyTarget(cfg, past[..j + 1]))
  {
    j := SampleSource(cfg, past, k);
    var upTo := past[..j] + [past[j]];
    assert upTo == past[..j + 1];
    StableIsUnbroken(cfg, past[j]);
    ReadyIsFirst(cfg, past[..j]);
    forall i | 0 <= i < |upTo|
      ensures ShowsTarget(cfg, upTo[i]) <==> SawTarget(cfg, upTo[i])
    {
      StableIsUnbroken(cfg, upTo[i]);
    }
  }
}
