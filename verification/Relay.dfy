/** The two relay threads of the bridge and the meter they share.

    Each thread repeatedly takes the next frame, meters it under the lock, and then forwards it.
    A run is any interleaving of these steps. The meter starts counting at the first frame that
    opens a paste plan, or from the beginning for a cold run.
 */
module Relay {
  import opened Prelude
  import opened Frames

  datatype Dir = Up | Down

  datatype Framed = Framed(kind: string, body: Body)

  const PLAN_OPS: set<string> := {"import_plan", "prepare_import", "chunk", "frame_chunk"}

  datatype Event = Event(dir: Dir, frame: Framed)

  predicate Starts(e: Event) { e.dir == Up && e.frame.kind in PLAN_OPS }

  /** The four kinds of plan frames, and only on the way up. */
  lemma PlanFrames(e: Event)
    ensures Starts(e) <==>
            && e.dir == Up
            && var k := e.frame.kind;
               k == "import_plan" || k == "prepare_import" || k == "chunk" || k == "frame_chunk"
  {
  }

  function Size(f: Framed): nat { |f.body| + 4 }

  function Sum(fs: seq<Framed>): nat {
    if fs == [] then 0 else Sum(fs[..|fs| - 1]) + Size(fs[|fs| - 1])
  }

  function Kinds(fs: seq<Framed>): multiset<string> {
    if fs == [] then multiset{} else Kinds(fs[..|fs| - 1]) + multiset{fs[|fs| - 1].kind}
  }

  /** Frames of one direction, in the order they were metered. */
  ghost function Only(dir: Dir, log: seq<Event>): seq<Framed> {
    if log == [] then []
    else
      var last := log[|log| - 1];
      var earlier := Only(dir, log[..|log| - 1]);
      if last.dir == dir then earlier + [last.frame] else earlier
  }

  ghost predicate Started(warm: bool, log: seq<Event>) {
    !warm || exists e :: e in log && Starts(e)
  }

  /** Frames of one direction that count: those metered from the start on. */
  ghost function Counted(warm: bool, dir: Dir, log: seq<Event>): seq<Framed> {
    if log == [] then []
    else
      var last := log[|log| - 1];
      var earlier := Counted(warm, dir, log[..|log| - 1]);
      if last.dir == dir && Started(warm, log) then earlier + [last.frame] else earlier
  }

  /** A dictionary with the two keys "up" and "down". */
  datatype ByDir<T> = ByDir(up: T, down: T) {
    function At(dir: Dir): T { if dir == Up then up else down }

    function With(dir: Dir, value: T): ByDir<T> { if dir == Up then this.(up := value) else this.(down := value) }
  }

  /** What the meter shows: whether it has started, and per direction bytes and frames by kind. */
  datatype Shown = Shown(started: bool, counts: ByDir<nat>, frames: ByDir<multiset<string>>)

  ghost function ShownAfter(warm: bool, log: seq<Event>): Shown {
    var up, down := Counted(warm, Up, log), Counted(warm, Down, log);
    Shown(Started(warm, log), ByDir(Sum(up), Sum(down)), ByDir(Kinds(up), Kinds(down)))
  }

  /** What one more metered frame changes. */
  function ShownNext(was: Shown, e: Event): Shown {
    if was.started || Starts(e)
    then Shown(true, was.counts.With(e.dir, was.counts.At(e.dir) + Size(e.frame)),
               was.frames.With(e.dir, was.frames.At(e.dir) + multiset{e.frame.kind}))
    else was
  }

  class Meter {
    ghost const warm: bool
    ghost var log: seq<Event>
    var started: bool
    var counts: ByDir<nat>
    var frames: ByDir<multiset<string>>

    ghost predicate Valid()
      reads this
    {
      Shown(started, counts, frames) == ShownAfter(warm, log)
    }

    constructor (warm: bool)
      ensures Valid() && log == [] && this.warm == warm
    {
      this.warm := warm;
      log := [];
      started, counts, frames := !warm, ByDir(0, 0), ByDir(multiset{}, multiset{});
    }

    /** `meter`, under the lock. */
    method Count(direction: Dir, frame: Framed)
      requires Valid()
      modifies this
      ensures Valid() && log == old(log) + [Event(direction, frame)]
    {
      ghost var e := Event(direction, frame);
      ShownSnoc(warm, log, e);
      Add(direction, frame.kind, |frame.body|, e);
      log := log + [e];
    }

    /** The arithmetic of `meter`, as one step on what it shows. */
    method Add(direction: Dir, kind: string, length: nat, ghost e: Event)
      requires e.dir == direction && e.frame.kind == kind && |e.frame.body| == length
      modifies this`started, this`counts, this`frames
      ensures Shown(started, counts, frames) == ShownNext(old(Shown(started, counts, frames)), e)
    {
      if !started && direction == Up && kind in PLAN_OPS {
        started := true;
      }
      if started {
        counts := counts.With(direction, counts.At(direction) + length + 4);
        frames := frames.With(direction, frames.At(direction) + multiset{kind});
      }
    }
  }

  /** One more event, in terms of what the meter showed before it. */
  lemma {:induction false} ShownSnoc(warm: bool, log: seq<Event>, e: Event)
    ensures ShownAfter(warm, log + [e]) == ShownNext(ShownAfter(warm, log), e)
  {
    var was, now := ShownAfter(warm, log), ShownAfter(warm, log + [e]);
    CountSnoc(warm, log, e, Up, was, now);
    CountSnoc(warm, log, e, Down, was, now);
    NextIsShown(was, now, e);
  }

  /** What one event changes in the count of one direction. */
  ghost predicate CountsOne(was: Shown, now: Shown, e: Event, d: Dir) {
    if e.dir == d && now.started
    then now.counts.At(d) == was.counts.At(d) + Size(e.frame)
      && now.frames.At(d) == was.frames.At(d) + multiset{e.frame.kind}
    else now.counts.At(d) == was.counts.At(d) && now.frames.At(d) == was.frames.At(d)
  }

  lemma NextIsShown(was: Shown, now: Shown, e: Event)
    requires now.started <==> was.started || Starts(e)
    requires CountsOne(was, now, e, Up) && CountsOne(was, now, e, Down)
    ensures now == ShownNext(was, e)
  {
  }

  lemma {:induction false} CountSnoc(warm: bool, log: seq<Event>, e: Event, d: Dir, was: Shown, now: Shown)
    requires was == ShownAfter(warm, log) && now == ShownAfter(warm, log + [e])
    ensures CountsOne(was, now, e, d)
    ensures now.started <==> was.started || Starts(e)
  {
    CountedSnoc(warm, log, e);
    SumSnoc(Counted(warm, d, log), e.frame);
  }

  lemma CountedSnoc(warm: bool, log: seq<Event>, e: Event)
    ensures Started(warm, log + [e]) <==> Started(warm, log) || Starts(e)
    ensures forall d :: Counted(warm, d, log + [e])
                        == if e.dir == d && Started(warm, log + [e])
                           then Counted(warm, d, log) + [e.frame] else Counted(warm, d, log)
    ensures forall d :: Only(d, log + [e]) == if e.dir == d then Only(d, log) + [e.frame] else Only(d, log)
  {
    var all := log + [e];
    assert all[..|log|] == log && all[|log|] == e;
  }

  lemma SumSnoc(fs: seq<Framed>, f: Framed)
    ensures Sum(fs + [f]) == Sum(fs) + Size(f) && Kinds(fs + [f]) == Kinds(fs) + multiset{f.kind}
  {
    assert (fs + [f])[..|fs|] == fs;
  }

  // ----- interleavings -----

  /** One relay thread: frames still to read, the one metered but not yet written, bytes written. */
  datatype Thread = Thread(pending: seq<Framed>, metered: Option<Framed>, out: seq<byte>)

  datatype State = State(up: Thread, down: Thread, log: seq<Event>)

  function Bodies(fs: seq<Framed>): seq<Body> {
    seq(|fs|, i requires 0 <= i < |fs| => fs[i].body)
  }

  function Get(s: State, dir: Dir): Thread { if dir == Up then s.up else s.down }

  function Put(s: State, dir: Dir, t: Thread): State { if dir == Up then s.(up := t) else s.(down := t) }

  /** One step of one thread: write the metered frame, or take and meter the next one. */
  function Step(s: State, dir: Dir): State {
    var t := Get(s, dir);
    if t.metered.Some? then Put(s, dir, t.(metered := None, out := t.out + Encode(t.metered.value.body)))
    else if t.pending != [] then
      var f := t.pending[0];
      Put(s.(log := s.log + [Event(dir, f)]), dir, t.(pending := t.pending[1..], metered := Some(f)))
    else s
  }

  function Run(s: State, schedule: seq<Dir>): State {
    if schedule == [] then s else Step(Run(s, schedule[..|schedule| - 1]), schedule[|schedule| - 1])
  }

  function Init(up: seq<Framed>, down: seq<Framed>): State {
    State(Thread(up, None, []), Thread(down, None, []), [])
  }

  function Written(t: Thread, log: seq<Framed>): seq<Framed> {
    if t.metered.Some? && log != [] then log[..|log| - 1] else log
  }

  /** What one direction keeps: metered frames and pending frames are the input, and the written
      bytes are those of the metered frames up to the one still in hand. */
  ghost predicate Keeps(s: State, dir: Dir, input: seq<Framed>) {
    var t, log := Get(s, dir), Only(dir, s.log);
    && log + t.pending == input
    && (t.metered.Some? ==> log != [] && log[|log| - 1] == t.metered.value)
    && t.out == EncodeAll(Bodies(Written(t, log)))
  }

  lemma StepKeeps(s: State, dir: Dir, other: Dir, input: seq<Framed>)
    requires Keeps(s, other, input)
    ensures Keeps(Step(s, dir), other, input)
  {
    var t := Get(s, dir);
    if t.metered.Some? {
      if dir == other { WriteKeeps(s, dir, input); }
    } else if t.pending != [] {
      CountedSnoc(false, s.log, Event(dir, t.pending[0]));
      if dir == other { MeterKeeps(s, dir, input); }
    }
  }

  lemma MeterKeeps(s: State, dir: Dir, input: seq<Framed>)
    requires Keeps(s, dir, input) && Get(s, dir).metered.None? && Get(s, dir).pending != []
    ensures Keeps(Step(s, dir), dir, input)
  {
    var t, log, now := Get(s, dir), Only(dir, s.log), Step(s, dir);
    var f := t.pending[0];
    CountedSnoc(false, s.log, Event(dir, f));
    assert Only(dir, now.log) == log + [f];
    assert log + [f] + t.pending[1..] == log + t.pending;
    assert (log + [f])[..|log|] == log;
  }

  lemma WriteKeeps(s: State, dir: Dir, input: seq<Framed>)
    requires Keeps(s, dir, input) && Get(s, dir).metered.Some?
    ensures Keeps(Step(s, dir), dir, input)
  {
    var t, log := Get(s, dir), Only(dir, s.log);
    var f, before := t.metered.value, log[..|log| - 1];
    assert log == before + [f];
    assert Bodies(log) == Bodies(before) + [f.body];
    AppendFrame(Bodies(before), f.body);
  }

  lemma {:induction false} RunKeeps(up: seq<Framed>, down: seq<Framed>, schedule: seq<Dir>, dir: Dir)
    ensures Keeps(Run(Init(up, down), schedule), dir, if dir == Up then up else down)
  {
    if schedule == [] {
      assert Bodies([]) == [];
    } else {
      var n := |schedule| - 1;
      RunKeeps(up, down, schedule[..n], dir);
      StepKeeps(Run(Init(up, down), schedule[..n]), schedule[n], dir, if dir == Up then up else down);
    }
  }

  predicate Done(t: Thread) { t.pending == [] && t.metered.None? }

  /** Under every interleaving, what a thread has written is the beginning of its input, and all of
      it once the thread is done. */
  lemma {:induction false} ForwardedBytes(up: seq<Framed>, down: seq<Framed>, schedule: seq<Dir>, dir: Dir)
    ensures var s, input := Run(Init(up, down), schedule), if dir == Up then up else down;
            && Get(s, dir).out <= EncodeAll(Bodies(input))
            && (Done(Get(s, dir)) ==> Get(s, dir).out == EncodeAll(Bodies(input)) && Only(dir, s.log) == input)
  {
    var s, input := Run(Init(up, down), schedule), if dir == Up then up else down;
    RunKeeps(up, down, schedule, dir);
    var t, log := Get(s, dir), Only(dir, s.log);
    var w := Written(t, log);
    assert log + [] == log;
    assert w <= log <= input;
    PrefixBytes(w, input);
  }

  lemma {:induction false} PrefixBytes(w: seq<Framed>, input: seq<Framed>)
    requires w <= input
    ensures EncodeAll(Bodies(w)) <= EncodeAll(Bodies(input))
  {
    var rest := input[|w|..];
    assert input == w + rest;
    assert Bodies(input) == Bodies(w) + Bodies(rest);
    EncodeAppend(Bodies(w), Bodies(rest));
  }

  lemma {:induction false} EncodeAppend(a: seq<Body>, b: seq<Body>)
    ensures EncodeAll(a + b) == EncodeAll(a) + EncodeAll(b)
  {
    if a == [] {
      assert a + b == b;
    } else {
      assert (a + b)[1..] == a[1..] + b;
      EncodeAppend(a[1..], b);
    }
  }

  // ----- what is counted -----

  /** The upload counts from its own first plan frame on. */
  ghost function FromFirstPlan(fs: seq<Framed>): seq<Framed> {
    if fs == [] then []
    else
      var n := |fs| - 1;
      if exists f :: f in fs && f.kind in PLAN_OPS then FromFirstPlan(fs[..n]) + [fs[n]] else []
  }

  lemma {:induction false} StartedByUpload(log: seq<Event>)
    ensures Started(true, log) <==> exists f :: f in Only(Up, log) && f.kind in PLAN_OPS
  {
    if log != [] {
      var n := |log| - 1;
      assert log == log[..n] + [log[n]];
      CountedSnoc(true, log[..n], log[n]);
      StartedByUpload(log[..n]);
      if Starts(log[n]) {
        assert log[n].frame in Only(Up, log);
      }
    }
  }

  /** A warm run's upload count does not depend on the interleaving: it is what the upload's own
      order gives. */
  lemma {:induction false} WarmUploadCount(log: seq<Event>)
    ensures Counted(true, Up, log) == FromFirstPlan(Only(Up, log))
  {
    if log != [] {
      var n := |log| - 1;
      var fs := Only(Up, log);
      StartedByUpload(log);
      if !Started(true, log) {
        NothingBeforeStart(log, Up);
        assert FromFirstPlan(fs) == [];
      } else {
        WarmUploadCount(log[..n]);
        StartedByUpload(log[..n]);
        if log[n].dir == Up {
          assert fs[..|fs| - 1] == Only(Up, log[..n]);
          assert FromFirstPlan(fs) == FromFirstPlan(Only(Up, log[..n])) + [fs[|fs| - 1]];
        }
      }
    }
  }

  lemma {:induction false} NothingBeforeStart(log: seq<Event>, dir: Dir)
    requires !Started(true, log)
    ensures Counted(true, dir, log) == []
  {
    if log != [] {
      var n := |log| - 1;
      assert log == log[..n] + [log[n]];
      CountedSnoc(true, log[..n], log[n]);
      NothingBeforeStart(log[..n], dir);
    }
  }

  /** A cold run counts everything that was metered. */
  lemma {:induction false} ColdCountsAll(log: seq<Event>, dir: Dir)
    ensures Counted(false, dir, log) == Only(dir, log)
  {
    if log != [] {
      ColdCountsAll(log[..|log| - 1], dir);
    }
  }

  lemma {:induction false} SumIsBytes(fs: seq<Framed>)
    ensures Sum(fs) == |EncodeAll(Bodies(fs))|
  {
    if fs != [] {
      var n := |fs| - 1;
      SumIsBytes(fs[..n]);
      assert Bodies(fs) == Bodies(fs[..n]) + [fs[n].body];
      AppendFrame(Bodies(fs[..n]), fs[n].body);
    }
  }

  /** At the end of a cold run the meter shows, in each direction, exactly the bytes forwarded. */
  lemma ColdRunMetersForwardedBytes(up: seq<Framed>, down: seq<Framed>, schedule: seq<Dir>, dir: Dir)
    requires Done(Get(Run(Init(up, down), schedule), dir))
    ensures var s := Run(Init(up, down), schedule);
            && ShownAfter(false, s.log).counts.At(dir) == |Get(s, dir).out|
            && ShownAfter(false, s.log).frames.At(dir) == Kinds(if dir == Up then up else down)
  {
    var s := Run(Init(up, down), schedule);
    ForwardedBytes(up, down, schedule, dir);
    ColdCountsAll(s.log, dir);
    SumIsBytes(Only(dir, s.log));
  }

  /** At the end of a warm run the upload count is that of the frames from the first plan frame on,
      whatever the other thread did in between. */
  lemma WarmRunMetersFromPlan(up: seq<Framed>, down: seq<Framed>, schedule: seq<Dir>)
    requires Done(Get(Run(Init(up, down), schedule), Up))
    ensures var shown := ShownAfter(true, Run(Init(up, down), schedule).log);
            shown.counts.At(Up) == Sum(FromFirstPlan(up)) && shown.frames.At(Up) == Kinds(FromFirstPlan(up))
  {
    ForwardedBytes(up, down, schedule, Up);
    WarmUploadCount(Run(Init(up, down), schedule).log);
  }
}
