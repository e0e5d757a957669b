/** The bounded output monitor of the memory harness.

    The monitor sees a program's output one chunk at a time. It keeps a rolling tail to find a
    literal readiness marker and a bounded diagnostic log. The specification has no bound: it
    speaks about the whole output, `Flat` of everything ever added.
 */
module OutputMonitor {
  import opened Prelude

  /** Python's `m in s`, for text and for bytes. */
  ghost predicate Contains<T>(s: seq<T>, m: seq<T>) {
    exists i :: OccursAt(s, m, i)
  }

  ghost predicate OccursAt<T>(s: seq<T>, m: seq<T>, i: int) {
    0 <= i <= |s| - |m| && s[i..i + |m|] == m
  }

  /** Python's `s[-n:]`, including its surprising value at n == 0 and below. */
  function LastChars(s: string, n: int): string {
    if n > 0 then (if n < |s| then s[|s| - n..] else s)
    else if -n <= |s| then s[-n..]
    else ""
  }

  /** What `add_chunk` keeps of one chunk. */
  function Clamp(chunk: string, limit: int): string {
    if |chunk| > limit then LastChars(chunk, limit) else chunk
  }

  /** A chunk over the limit keeps exactly its last `limit` characters; with limit 0 it stays whole, and a
      negative limit drops that many characters from its front. */
  lemma ClampMeaning(chunk: string, limit: int)
    ensures |chunk| <= limit || limit == 0 ==> Clamp(chunk, limit) == chunk
    ensures 0 < limit < |chunk| ==>
              |Clamp(chunk, limit)| == limit && chunk == chunk[..|chunk| - limit] + Clamp(chunk, limit)
    ensures limit < 0 && -limit <= |chunk| ==> chunk == chunk[..-limit] + Clamp(chunk, limit)
    ensures limit < 0 && -limit > |chunk| ==> Clamp(chunk, limit) == ""
  {
  }

  /** The chunks as they are kept. */
  ghost function Clamped(chunks: seq<string>, limit: int): seq<string> {
    if chunks == [] then [] else Clamped(chunks[..|chunks| - 1], limit) + [Clamp(chunks[|chunks| - 1], limit)]
  }

  /** The whole output, each chunk as it is kept. */
  ghost function Output(chunks: seq<string>, limit: int): string {
    if chunks == [] then "" else Output(chunks[..|chunks| - 1], limit) + Clamp(chunks[|chunks| - 1], limit)
  }

  function Total(chunks: seq<string>): nat {
    if chunks == [] then 0 else |chunks[0]| + Total(chunks[1..])
  }

  /** The longest run of most recent chunks whose length fits the limit. */
  ghost function Recent(all: seq<string>, limit: int): seq<string> {
    if all == [] || Total(all) <= limit then all else Recent(all[1..], limit)
  }

  /** It is a run of most recent chunks; it fits; one chunk more does not. */
  lemma {:induction false} RecentIsLongest(all: seq<string>, limit: int) returns (k: nat)
    ensures k <= |all| && Recent(all, limit) == all[k..]
    ensures Recent(all, limit) == [] || Total(Recent(all, limit)) <= limit
    ensures forall m :: 0 <= m < k ==> Total(all[m..]) > limit
  {
    if all == [] || Total(all) <= limit {
      k := 0;
    } else {
      var n := RecentIsLongest(all[1..], limit);
      k := n + 1;
      forall m | 0 <= m < k
        ensures Total(all[m..]) > limit
      {
        if m > 0 { assert all[m..] == all[1..][m - 1..]; } else { assert all[0..] == all; }
      }
    }
  }

  /** What was dropped before stays dropped. */
  lemma {:induction false} RecentSnoc(was: seq<string>, kept: string, limit: int)
    ensures Recent(was + [kept], limit) == Recent(Recent(was, limit) + [kept], limit)
  {
    if was != [] && Total(was) > limit {
      TotalAppend(was, [kept]);
      assert (was + [kept])[1..] == was[1..] + [kept];
      RecentSnoc(was[1..], kept, limit);
    }
  }

  /** The marker was in the output, once there was any output. */
  ghost predicate Seen(marker: string, received: seq<string>, limit: int) {
    received != [] && Contains(Output(received, limit), marker)
  }

  /** A bounded tail of `flat`, given up once the marker is found. */
  ghost predicate TailOf(tail: string, found: bool, seen: bool, flat: string, bound: nat) {
    && found == seen && |tail| <= bound
    && (found ==> tail == "")  // memory reclaimed
    && (!found ==> |tail| <= |flat| && tail == flat[|flat| - |tail|..] && (tail == flat || |tail| == bound))
  }

  lemma {:induction false} TotalAppend(a: seq<string>, b: seq<string>)
    ensures Total(a + b) == Total(a) + Total(b)
  {
    if a == [] {
      assert a + b == b;
    } else {
      assert (a + b)[1..] == a[1..] + b;
      TotalAppend(a[1..], b);
    }
  }

  lemma OneMore(before: seq<string>, chunks: seq<string>, i: nat)
    requires i < |chunks|
    ensures before + chunks[..i] + [chunks[i]] == before + chunks[..i + 1]
  {
  }

  lemma OutputSnoc(received: seq<string>, chunk: string, limit: int)
    ensures Clamped(received + [chunk], limit) == Clamped(received, limit) + [Clamp(chunk, limit)]
    ensures Output(received + [chunk], limit) == Output(received, limit) + Clamp(chunk, limit)
  {
    assert (received + [chunk])[..|received|] == received;
  }

  /** If the marker is not in `flat`, then looking for it in a tail at least as long as the
      marker finds exactly what looking in the whole would find. */
  lemma TailSearch(flat: string, tail: string, chunk: string, marker: string)
    requires !Contains(flat, marker)
    requires |tail| <= |flat| && tail == flat[|flat| - |tail|..]
    requires tail == flat || |marker| <= |tail|
    ensures Contains(flat + chunk, marker) <==> Contains(tail + chunk, marker)
  {
    var d := |flat| - |tail|;
    assert d > 0 ==> |marker| <= |tail|;
    assert (flat + chunk)[d..] == tail + chunk;
    if Contains(flat + chunk, marker) {
      var i :| OccursAt(flat + chunk, marker, i);
      NewOccurrence(flat, chunk, marker, i);
      OccursInTail(flat + chunk, marker, d, i);
    }
    if Contains(tail + chunk, marker) {
      var i :| OccursAt(tail + chunk, marker, i);
      OccursInTail(flat + chunk, marker, d, i + d);
    }
  }

  /** A new occurrence ends in the new text. */
  lemma NewOccurrence(flat: string, chunk: string, marker: string, i: int)
    requires !Contains(flat, marker) && OccursAt(flat + chunk, marker, i)
    ensures i > |flat| - |marker|
  {
    if i <= |flat| - |marker| {
      assert (flat + chunk)[i..i + |marker|] == flat[i..i + |marker|];
      assert OccursAt(flat, marker, i);
    }
  }

  lemma OccursInTail(s: string, marker: string, d: nat, i: int)
    requires d <= i && d <= |s|
    ensures OccursAt(s, marker, i) <==> OccursAt(s[d..], marker, i - d)
  {
    assert i + |marker| <= |s| ==> s[d..][i - d..i - d + |marker|] == s[i..i + |marker|];
  }

  /** The tail cut back to its bound. */
  function Cut(tail: string, bound: nat): string { if |tail| > bound then LastChars(tail, bound) else tail }

  /** The tail grows with the output; cut back to the bound it still is a tail. */
  lemma TailGrows(flat: string, tail: string, kept: string, bound: nat)
    requires |tail| <= |flat| && tail == flat[|flat| - |tail|..] && (tail == flat || |tail| == bound) && bound > 0
    ensures var all, longer := flat + kept, tail + kept;
            && longer == all[|all| - |longer|..]
            && (|longer| <= bound ==> longer == all || |longer| == bound)
            && (|longer| > bound ==> LastChars(longer, bound) == all[|all| - bound..])
  {
    var all, longer := flat + kept, tail + kept;
    assert longer == all[|all| - |longer|..];
    assert |longer| > bound ==> longer[|longer| - bound..] == all[|all| - bound..];
  }

  /** What the monitor does with a longer tail: give it up if it holds the marker, else cut it. */
  lemma NextTail(flat: string, tail: string, kept: string, marker: string, bound: nat, first: bool)
    requires |marker| <= bound && bound > 0 && (first ==> flat == "")
    requires TailOf(tail, false, !first && Contains(flat, marker), flat, bound)
    ensures var all, longer := flat + kept, tail + kept;
            && (Contains(all, marker) <==> Contains(longer, marker))
            && (Contains(longer, marker) ==> TailOf("", true, Contains(all, marker), all, bound))
            && (!Contains(longer, marker) ==>
                  TailOf(Cut(longer, bound), false, Contains(all, marker), all, bound))
  {
    TailGrows(flat, tail, kept, bound);
    if first {
      assert tail == flat;
    } else {
      TailSearch(flat, tail, kept, marker);
    }
  }

  /** Once found, the marker stays in the output. */
  lemma SeenGrows(flat: string, chunk: string, marker: string)
    requires Contains(flat, marker)
    ensures Contains(flat + chunk, marker)
  {
    var i :| OccursAt(flat, marker, i);
    assert (flat + chunk)[i..i + |marker|] == flat[i..i + |marker|];
    assert OccursAt(flat + chunk, marker, i);
  }

  class BoundedOutputMonitor {
    const marker: string
    const maxTailChars: nat
    const maxLogBytes: int
    var rollingTail: string
    var markerFound: bool
    var logChunks: seq<string>
    var logBytesTotal: int
    ghost var received: seq<string>  // every non-empty chunk ever added

    ghost predicate Valid()
      reads this
    {
      && TailValid()
      && LogValid()
    }

    ghost predicate LogValid()
      reads this
    {
      logChunks == Recent(Clamped(received, maxLogBytes), maxLogBytes) && logBytesTotal == Total(logChunks)
    }

    ghost predicate TailValid()
      reads this
    {
      && |marker| <= maxTailChars && 0 < maxTailChars
      && TailOf(rollingTail, markerFound, Seen(marker, received, maxLogBytes), Output(received, maxLogBytes),
                maxTailChars)
    }

    constructor (marker: string, maxLogBytes: int)
      ensures Valid() && received == []
      ensures this.marker == marker && this.maxLogBytes == maxLogBytes
      ensures maxTailChars >= 8192 && maxTailChars >= 4 * |marker|
      ensures maxTailChars == 8192 || maxTailChars == 4 * |marker|
    {
      this.marker := marker;
      this.maxTailChars := if |marker| * 4 > 8192 then |marker| * 4 else 8192;
      this.maxLogBytes := maxLogBytes;
      rollingTail, markerFound, logChunks, logBytesTotal := "", false, [], 0;
      received := [];
    }

    /** The state answers for the whole stream, and both buffers stay bounded. */
    method AddChunk(chunk: string)
      requires Valid()
      modifies this
      ensures Valid()
      ensures received == if chunk == "" then old(received) else old(received) + [chunk]
    {
      if chunk == "" { return; }
      var kept := Clamp(chunk, maxLogBytes);
      ghost var flat, first := Output(received, maxLogBytes), received == [];
      OutputSnoc(received, chunk, maxLogBytes);
      UpdateLog(kept, Clamped(received, maxLogBytes));
      UpdateTail(kept, flat, first, flat + kept, Contains(flat + kept, marker));
      received := received + [chunk];
    }

    /** Chunk after chunk. */
    method AddChunks(chunks: seq<string>)
      requires Valid() && "" !in chunks
      modifies this
      ensures Valid() && received == old(received) + chunks
    {
      ghost var before := received;
      for i := 0 to |chunks|
        invariant Valid() && received == before + chunks[..i]
      {
        assert chunks[i] in chunks;
        AddChunk(chunks[i]);
        OneMore(before, chunks, i);
      }
      assert chunks[..|chunks|] == chunks;
    }

    /** `was` are the kept chunks before this one. */
    method UpdateLog(kept: string, ghost was: seq<string>)
      requires logChunks == Recent(was, maxLogBytes) && logBytesTotal == Total(logChunks)
      modifies this`logChunks, this`logBytesTotal
      ensures logChunks == Recent(was + [kept], maxLogBytes) && logBytesTotal == Total(logChunks)
    {
      RecentSnoc(was, kept, maxLogBytes);
      TotalAppend(logChunks, [kept]);
      logChunks := logChunks + [kept];
      logBytesTotal := logBytesTotal + |kept|;
      while logBytesTotal > maxLogBytes && |logChunks| > 0
        invariant Recent(logChunks, maxLogBytes) == Recent(was + [kept], maxLogBytes)
        invariant logBytesTotal == Total(logChunks)
        decreases |logChunks|
      {
        logBytesTotal := logBytesTotal - |logChunks[0]|;
        logChunks := logChunks[1..];
      }
    }

    /** `flat` is the output before this chunk, `now` the output with it; `first` says that there was
        none before, `seen` whether the marker is there now. */
    method UpdateTail(kept: string, ghost flat: string, ghost first: bool, ghost now: string, ghost seen: bool)
      requires |marker| <= maxTailChars && 0 < maxTailChars && (first ==> flat == "")
      requires TailOf(rollingTail, markerFound, !first && Contains(flat, marker), flat, maxTailChars)
      requires now == flat + kept && seen == Contains(now, marker)
      modifies this`rollingTail, this`markerFound
      ensures TailOf(rollingTail, markerFound, seen, now, maxTailChars)
    {
      if !markerFound {
        NextTail(flat, rollingTail, kept, marker, maxTailChars, first);
        rollingTail := rollingTail + kept;
        var found := IsIn(marker, rollingTail);
        if found {
          markerFound := true;
          rollingTail := "";
        } else if |rollingTail| > maxTailChars {
          rollingTail := LastChars(rollingTail, maxTailChars);
        }
      } else {
        SeenGrows(flat, kept, marker);
      }
    }

    function IsMarkerFound(): (found: bool)
      requires Valid()
      reads this
      ensures found <==> Seen(marker, received, maxLogBytes)
    {
      markerFound
    }
  }

  /** The `in` operator. */
  method IsIn(m: string, s: string) returns (found: bool)
    ensures found <==> Contains(s, m)
  {
    var i := 0;
    found := false;
    while i + |m| <= |s|
      invariant 0 <= i
      invariant forall j :: 0 <= j < i ==> !OccursAt(s, m, j)
    {
      if s[i..i + |m|] == m {
        assert OccursAt(s, m, i);
        return true;
      }
      i := i + 1;
    }
  }

  // ----- when the search is exact -----

  /** Chunks that are kept whole give the whole output. At limit 0 every chunk is: `s[-0:]` is `s`. */
  lemma {:induction false} UncutOutput(chunks: seq<string>, limit: int)
    requires limit == 0 || forall r :: r in chunks ==> |r| <= limit
    ensures Output(chunks, limit) == Flat(chunks) && Clamped(chunks, limit) == chunks
  {
    if chunks != [] {
      var n := |chunks| - 1;
      assert chunks[n] in chunks;
      UncutOutput(chunks[..n], limit);
      assert Clamp(chunks[n], limit) == chunks[n];
      assert chunks == chunks[..n] + [chunks[n]];
    }
  }

  /** Two cuttings of one text into chunks that fit agree. */
  lemma CuttingIsIrrelevant(marker: string, a: seq<string>, b: seq<string>, limit: int)
    requires forall r :: r in a + b ==> |r| <= limit
    requires marker != "" && Flat(a) == Flat(b)
    ensures Seen(marker, a, limit) <==> Seen(marker, b, limit)
  {
    assert forall r :: r in a ==> r in a + b;
    assert forall r :: r in b ==> r in a + b;
    UncutOutput(a, limit);
    UncutOutput(b, limit);
    assert Contains("", marker) ==> false;
  }

  ghost predicate HasLengths(chunks: seq<string>, lengths: seq<nat>) {
    |chunks| == |lengths| && forall i :: 0 <= i < |chunks| ==> |chunks[i]| == lengths[i]
  }

  ghost predicate AnswersFor(marker: string, chunks: seq<string>, limit: int) {
    Seen(marker, chunks, limit) <==> Contains(Flat(chunks), marker)
  }

  /** Whatever chunks of these lengths contain, and whatever is looked for. */
  ghost predicate ExactFor(lengths: seq<nat>, limit: int) {
    forall marker, chunks :: marker != "" && HasLengths(chunks, lengths) ==> AnswersFor(marker, chunks, limit)
  }

  /** The search is exact for all contents exactly when no chunk is longer than the limit, or the
      limit is 0. */
  lemma ExactIffUncut(lengths: seq<nat>, limit: int)
    requires forall i :: 0 <= i < |lengths| ==> lengths[i] > 0
    ensures ExactFor(lengths, limit) <==> limit == 0 || forall i :: 0 <= i < |lengths| ==> lengths[i] <= limit
  {
    if limit == 0 || forall i :: 0 <= i < |lengths| ==> lengths[i] <= limit {
      forall marker, chunks | marker != "" && HasLengths(chunks, lengths)
        ensures AnswersFor(marker, chunks, limit)
      {
        UncutIsExact(marker, chunks, limit);
      }
    } else {
      var at :| 0 <= at < |lengths| && lengths[at] > limit;
      HidingChunkHides(lengths, limit, at);
      assert !AnswersFor("x", Hiding(lengths, at), limit);
    }
  }

  lemma UncutIsExact(marker: string, chunks: seq<string>, limit: int)
    requires marker != "" && (limit == 0 || forall r :: r in chunks ==> |r| <= limit)
    ensures AnswersFor(marker, chunks, limit)
  {
    UncutOutput(chunks, limit);
    if chunks == [] {
      assert Flat(chunks) == "";
    }
  }

  function Filler(n: nat): string { seq(n, _ => 'y') }

  /** Chunks of the given lengths whose one "x" opens chunk `at`. */
  function Hiding(lengths: seq<nat>, at: nat): seq<string>
    requires at < |lengths| && lengths[at] > 0
  {
    seq(|lengths|, i requires 0 <= i < |lengths| =>
      if i == at then "x" + Filler(lengths[at] - 1) else Filler(lengths[i]))
  }

  /** Any oversized chunk can hide a marker, whatever the other chunks' lengths. */
  lemma HidingChunkHides(lengths: seq<nat>, limit: int, at: nat)
    requires at < |lengths| && lengths[at] > 0 && lengths[at] > limit && limit != 0
    ensures HasLengths(Hiding(lengths, at), lengths)
    ensures Contains(Flat(Hiding(lengths, at)), "x") && !Seen("x", Hiding(lengths, at), limit)
  {
    var chunks := Hiding(lengths, at);
    assert chunks[at][0] == 'x';
    FlatHas(chunks, at, 'x');
    forall i | 0 <= i < |chunks|
      ensures 'x' !in Clamp(chunks[i], limit)
    {
      CutsTheX(lengths, limit, at, i);
    }
    OutputLacks(chunks, limit, 'x');
    ContainsChar(Flat(chunks), 'x');
    ContainsChar(Output(chunks, limit), 'x');
  }

  lemma CutsTheX(lengths: seq<nat>, limit: int, at: nat, i: nat)
    requires at < |lengths| && lengths[at] > 0 && lengths[at] > limit && limit != 0 && i < |lengths|
    ensures 'x' !in Clamp(Hiding(lengths, at)[i], limit)
  {
    var chunk := Hiding(lengths, at)[i];
    assert forall k :: 0 < k < |chunk| ==> chunk[k] == 'y';
  }

  lemma ContainsChar(s: string, c: char)
    ensures Contains(s, [c]) <==> c in s
  {
    if c in s {
      var i :| 0 <= i < |s| && s[i] == c;
      assert OccursAt(s, [c], i);
    }
    if Contains(s, [c]) {
      var i :| OccursAt(s, [c], i);
      assert s[i..i + 1][0] == c;
    }
  }

  lemma {:induction false} FlatHas(chunks: seq<string>, at: nat, c: char)
    requires at < |chunks| && c in chunks[at]
    ensures c in Flat(chunks)
  {
    if at < |chunks| - 1 {
      FlatHas(chunks[..|chunks| - 1], at, c);
    }
  }

  lemma {:induction false} OutputLacks(chunks: seq<string>, limit: int, c: char)
    requires forall i :: 0 <= i < |chunks| ==> c !in Clamp(chunks[i], limit)
    ensures c !in Output(chunks, limit)
  {
    if chunks != [] {
      OutputLacks(chunks[..|chunks| - 1], limit, c);
    }
  }

  /** Every marker can be hidden: for each positive limit some oversized chunk holds it unseen. */
  lemma OversizedChunkHidesMarker(marker: string, limit: int) returns (chunk: string)
    requires marker != "" && limit > 0
    ensures |chunk| > limit && Contains(Flat([chunk]), marker)
    ensures !Seen(marker, [chunk], limit)
  {
    var c: char := if marker[0] == 'x' then 'y' else 'x';
    var filler := seq(limit, _ => c);
    chunk := marker + filler;
    assert [chunk][..0] == [];
    assert Flat([chunk]) == "" + chunk == chunk;
    assert chunk[0..|marker|] == marker;
    assert OccursAt(chunk, marker, 0);
    assert Clamp(chunk, limit) == chunk[|chunk| - limit..] == filler;
    assert Output([chunk], limit) == "" + filler == filler;
    forall i | 0 <= i <= |filler| - |marker|
      ensures !OccursAt(filler, marker, i)
    {
      assert filler[i..i + |marker|][0] == c;
    }
  }
}
