/** Reading a program's output from a pipe into the monitor.

    Each read is decoded on its own, with U+FFFD for whatever is not UTF-8. A character whose bytes are
    split between two reads is therefore lost, and with it any marker that holds it.
 */
module PipeReader {
  import opened Prelude
  import opened OutputMonitor
  import opened Utf8

  /** Bytes per read, and the default bound of the diagnostic log. */
  const READ_BYTES := 4096
  const LOG_BYTES := 65536

  function Decoded(pieces: seq<seq<byte>>): seq<string> {
    if pieces == [] then [] else Decoded(pieces[..|pieces| - 1]) + [Decode(pieces[|pieces| - 1])]
  }

  // ----- the reader -----

  ghost predicate AreReads(pieces: seq<seq<byte>>) {
    forall p :: p in pieces ==> 0 < |p| <= READ_BYTES
  }

  /** A pipe read to its end. No decoded read is longer than the log, so the marker is found exactly when
      it is in the decoded output; an ASCII marker exactly when its bytes were printed. */
  method StreamChunkReader(marker: string, pieces: seq<seq<byte>>) returns (found: bool, log: seq<string>)
    requires AreReads(pieces)
    ensures found <==> pieces != [] && Contains(Flat(Decoded(pieces)), marker)
    ensures marker != "" && IsAscii(marker) ==> (found <==> Contains(Flat(pieces), Encode(marker)))
    ensures log == Recent(Decoded(pieces), LOG_BYTES)
  {
    var monitor := new BoundedOutputMonitor(marker, LOG_BYTES);
    for i := 0 to |pieces|
      invariant monitor.Valid() && monitor.marker == marker && monitor.maxLogBytes == LOG_BYTES
      invariant monitor.received == Decoded(pieces[..i])
    {
      DecodedSnoc(pieces, i);
      monitor.AddChunk(Decode(pieces[i]));
    }
    assert pieces[..|pieces|] == pieces;
    ReaderAnswers(marker, pieces);
    found, log := monitor.markerFound, monitor.logChunks;
  }

  lemma {:induction false} DecodedSnoc(pieces: seq<seq<byte>>, i: nat)
    requires i < |pieces| && AreReads(pieces)
    ensures Decode(pieces[i]) != "" && Decoded(pieces[..i + 1]) == Decoded(pieces[..i]) + [Decode(pieces[i])]
  {
    assert pieces[i] in pieces;
    assert pieces[..i + 1][..i] == pieces[..i] && pieces[..i + 1][i] == pieces[i];
  }

  lemma {:induction false} ReaderAnswers(marker: string, pieces: seq<seq<byte>>)
    requires AreReads(pieces)
    ensures Clamped(Decoded(pieces), LOG_BYTES) == Decoded(pieces)
    ensures Seen(marker, Decoded(pieces), LOG_BYTES) <==> pieces != [] && Contains(Flat(Decoded(pieces)), marker)
    ensures marker != "" && IsAscii(marker) ==>
              (Seen(marker, Decoded(pieces), LOG_BYTES) <==> Contains(Flat(pieces), Encode(marker)))
  {
    TextsFit(pieces);
    UncutOutput(Decoded(pieces), LOG_BYTES);
    if marker != "" && IsAscii(marker) {
      AsciiIsExact(marker, pieces);
      if pieces == [] { NotInNothing(marker); }
    }
  }

  lemma NotInNothing(marker: string)
    requires marker != ""
    ensures !Contains("", marker)
  {
  }

  lemma {:induction false} TextsFit(pieces: seq<seq<byte>>)
    requires AreReads(pieces)
    ensures forall text :: text in Decoded(pieces) ==> 0 < |text| <= LOG_BYTES
    ensures |Decoded(pieces)| == |pieces|
  {
    if pieces != [] {
      var n := |pieces| - 1;
      assert pieces[n] in pieces;
      TextsFit(pieces[..n]);
      OneMoreFits(Decoded(pieces[..n]), Decode(pieces[n]), Decoded(pieces));
    }
  }

  lemma {:induction false} OneMoreFits(texts: seq<string>, text: string, all: seq<string>)
    requires all == texts + [text] && 0 < |text| <= LOG_BYTES
    requires forall t :: t in texts ==> 0 < |t| <= LOG_BYTES
    ensures forall t :: t in all ==> 0 < |t| <= LOG_BYTES
  {
  }

  // ----- which markers every cutting finds -----

  predicate IsAscii(text: string) { forall i :: 0 <= i < |text| ==> text[i] as int < 0x80 }

  /** `text` reads `s`: each ASCII byte by itself, each other character from bytes that are not ASCII. */
  ghost predicate Reads(s: seq<byte>, text: string)
    decreases |text|
  {
    if text == "" then s == []
    else exists n: nat :: 1 <= n <= |s| && Takes(s, n, text[0]) && Reads(s[n..], text[1..])
  }

  ghost predicate Takes(s: seq<byte>, n: nat, c: char)
    requires 1 <= n <= |s|
  {
    if s[0] < 0x80 then n == 1 && c as int == s[0] else c as int >= 0x80 && AllHigh(s[..n])
  }

  ghost predicate AllHigh(s: seq<byte>) { forall i :: 0 <= i < |s| ==> s[i] >= 0x80 }

  lemma {:induction false} DecodeReads(s: seq<byte>)
    ensures Reads(s, Decode(s))
  {
    if s != [] {
      var c, n := Next(s).0, Next(s).1;
      assert Takes(s, n, c);
      DecodeReads(s[n..]);
      assert Decode(s)[1..] == Decode(s[n..]);
    }
  }

  lemma {:induction false} ReadsAppend(s: seq<byte>, text: string, s': seq<byte>, text': string)
    requires Reads(s, text) && Reads(s', text')
    ensures Reads(s + s', text + text')
    decreases |text|
  {
    if text == "" {
      assert s + s' == s' && text + text' == text';
    } else {
      var n: nat :| 1 <= n <= |s| && Takes(s, n, text[0]) && Reads(s[n..], text[1..]);
      ReadsAppend(s[n..], text[1..], s', text');
      assert (text + text')[1..] == text[1..] + text';
      OneMoreRead(s, n, text, s + s', text + text', s');
    }
  }

  lemma {:induction false} OneMoreRead(s: seq<byte>, n: nat, text: string, all: seq<byte>, allText: string,
                                       s': seq<byte>)
    requires 1 <= n <= |s| && text != "" && Takes(s, n, text[0])
    requires all == s + s' && text <= allText && Reads(s[n..] + s', allText[1..])
    ensures Reads(all, allText)
  {
    assert all[..n] == s[..n] && all[n..] == s[n..] + s';
    assert Takes(all, n, allText[0]);
  }

  lemma {:induction false} PiecesRead(pieces: seq<seq<byte>>)
    ensures Reads(Flat(pieces), Flat(Decoded(pieces)))
  {
    if pieces != [] {
      var n := |pieces| - 1;
      PiecesRead(pieces[..n]);
      DecodeReads(pieces[n]);
      ReadsAppend(Flat(pieces[..n]), Flat(Decoded(pieces[..n])), pieces[n], Decode(pieces[n]));
      FlatSnoc(Decoded(pieces[..n]), Decode(pieces[n]));
    }
  }

  /** An ASCII text stands in front of the bytes exactly when it stands in front of what they read as. */
  lemma {:induction false} FrontIff(s: seq<byte>, text: string, m: string)
    requires Reads(s, text) && IsAscii(m)
    ensures Encode(m) <= s <==> m <= text
    decreases |m|
  {
    if m != "" && text != "" {
      var n: nat :| 1 <= n <= |s| && Takes(s, n, text[0]) && Reads(s[n..], text[1..]);
      FrontStep(s, text, m, n);
      if n == 1 { FrontIff(s[1..], text[1..], m[1..]); }
    }
  }

  lemma {:induction false} FrontStep(s: seq<byte>, text: string, m: string, n: nat)
    requires IsAscii(m) && m != "" && text != "" && 1 <= n <= |s| && Takes(s, n, text[0])
    ensures IsAscii(m[1..])
    ensures Encode(m) <= s <==> n == 1 && s[0] == m[0] as int && Encode(m[1..]) <= s[1..]
    ensures m <= text <==> n == 1 && s[0] == m[0] as int && m[1..] <= text[1..]
  {
    var first := m[0] as int;
    assert Encode(m) == [first] + Encode(m[1..]);
    assert m == [m[0]] + m[1..];
    assert forall i :: 0 <= i < |m| - 1 ==> m[1..][i] == m[i + 1];
    assert s == [s[0]] + s[1..] && text == [text[0]] + text[1..];
    assert s[..n][0] == s[0];
  }

  lemma {:induction false} ContainsStep<T>(s: seq<T>, m: seq<T>)
    requires m != []
    ensures Contains(s, m) <==> m <= s || (s != [] && Contains(s[1..], m))
  {
    if i :| OccursAt(s, m, i) {
      if i == 0 {
        assert m <= s;
      } else {
        assert s[1..][i - 1..i - 1 + |m|] == s[i..i + |m|];
        assert OccursAt(s[1..], m, i - 1);
      }
    }
    if m <= s { assert OccursAt(s, m, 0); }
    if s != [] {
      if i :| OccursAt(s[1..], m, i) {
        assert s[i + 1..i + 1 + |m|] == s[1..][i..i + |m|];
        assert OccursAt(s, m, i + 1);
      }
    }
  }

  /** No occurrence of an ASCII text starts at a byte that is not ASCII. */
  lemma {:induction false} SkipHigh(s: seq<byte>, n: nat, b: seq<byte>)
    requires n <= |s| && AllHigh(s[..n]) && b != [] && b[0] < 0x80
    ensures Contains(s, b) <==> Contains(s[n..], b)
    decreases n
  {
    if n > 0 {
      assert s[..n][0] == s[0];
      ContainsStep(s, b);
      var high := s[..n];
      assert s[1..][..n - 1] == high[1..];
      assert forall i :: 0 <= i < |high[1..]| ==> high[1..][i] == high[i + 1];
      SkipHigh(s[1..], n - 1, b);
      assert s[1..][n - 1..] == s[n..];
    } else {
      assert s[0..] == s;
    }
  }

  lemma {:induction false} ContainsIff(s: seq<byte>, text: string, m: string)
    requires Reads(s, text) && IsAscii(m) && m != ""
    ensures Contains(s, Encode(m)) <==> Contains(text, m)
    decreases |text|
  {
    FrontIff(s, text, m);
    ContainsStep(s, Encode(m));
    ContainsStep(text, m);
    if text != "" {
      var n: nat :| 1 <= n <= |s| && Takes(s, n, text[0]) && Reads(s[n..], text[1..]);
      ContainsIff(s[n..], text[1..], m);
      if s[0] >= 0x80 {
        FrontStep(s, text, m, n);
        SkipHigh(s, n, Encode(m));
      }
    }
  }

  /** An ASCII marker is found exactly when its bytes were printed, however the output was cut. */
  lemma AsciiIsExact(marker: string, pieces: seq<seq<byte>>)
    requires marker != "" && IsAscii(marker)
    ensures Contains(Flat(Decoded(pieces)), marker) <==> Contains(Flat(pieces), Encode(marker))
  {
    PiecesRead(pieces);
    ContainsIff(Flat(pieces), Flat(Decoded(pieces)), marker);
  }

  /** Found in the decoded reads exactly when its bytes were printed, for every cutting of every output. */
  ghost predicate ExactForCuts(marker: string) {
    forall pieces :: AreReads(pieces) ==> AnswersForCut(marker, pieces)
  }

  ghost predicate AnswersForCut(marker: string, pieces: seq<seq<byte>>) {
    Contains(Flat(Decoded(pieces)), marker) <==> Contains(Flat(pieces), Encode(marker))
  }

  /** Exactly the ASCII markers are found in every cutting. */
  lemma ExactIffAscii(marker: string)
    requires marker != ""
    ensures ExactForCuts(marker) <==> IsAscii(marker)
  {
    if IsAscii(marker) {
      forall pieces | AreReads(pieces)
        ensures AnswersForCut(marker, pieces)
      {
        AsciiIsExact(marker, pieces);
      }
    } else if i :| 0 <= i < |marker| && marker[i] as int >= 0x80 && marker[i] != REPLACEMENT {
      SplitMarkerIsLost(marker, i);
      assert !AnswersForCut(marker, Singles(Encode(marker)));
    } else {
      var i :| 0 <= i < |marker| && marker[i] as int >= 0x80;
      FalseMarkerIsFound(marker, i);
      assert !AnswersForCut(marker, Singles(Broken(marker)));
    }
  }

  // ----- reads of one byte -----

  function Singles(s: seq<byte>): seq<seq<byte>> {
    if s == [] then [] else Singles(s[..|s| - 1]) + [[s[|s| - 1]]]
  }

  function ByteText(b: byte): char { if b < 0x80 then b as char else REPLACEMENT }

  /** Byte by byte only ASCII survives. */
  function Bytewise(s: seq<byte>): string {
    seq(|s|, i requires 0 <= i < |s| => ByteText(s[i]))
  }

  lemma DecodeByte(b: byte)
    ensures Decode([b]) == [ByteText(b)]
  {
    assert [b][1..] == [];
  }

  lemma {:induction false} SinglesRead(s: seq<byte>)
    ensures AreReads(Singles(s)) && Flat(Singles(s)) == s && Flat(Decoded(Singles(s))) == Bytewise(s)
  {
    if s == [] {
      assert Bytewise(s) == "";
    } else {
      var n := |s| - 1;
      SinglesRead(s[..n]);
      FlatSnoc(Singles(s[..n]), [s[n]]);
      LastSingle(Singles(s[..n]), Singles(s), s[n]);
      LastByte(s);
    }
  }

  lemma LastByte(s: seq<byte>)
    requires s != []
    ensures s == s[..|s| - 1] + [s[|s| - 1]] && Bytewise(s) == Bytewise(s[..|s| - 1]) + [ByteText(s[|s| - 1])]
  {
  }

  lemma {:induction false} LastSingle(before: seq<seq<byte>>, singles: seq<seq<byte>>, b: byte)
    requires singles == before + [[b]]
    ensures Flat(Decoded(singles)) == Flat(Decoded(before)) + [ByteText(b)]
    ensures AreReads(before) ==> AreReads(singles)
  {
    assert singles[..|before|] == before && singles[|before|] == [b];
    DecodeByte(b);
    FlatSnoc(Decoded(before), [ByteText(b)]);
  }

  lemma LacksElement<T>(s: seq<T>, m: seq<T>, i: nat)
    requires i < |m| && m[i] !in s
    ensures !Contains(s, m)
  {
    forall j
      ensures !OccursAt(s, m, j)
    {
      if 0 <= j <= |s| - |m| { assert s[j..j + |m|][i] == s[j + i]; }
    }
  }

  lemma ContainsItself<T>(s: seq<T>)
    ensures Contains(s, s)
  {
    assert OccursAt(s, s, 0);
  }

  /** A marker with a character beyond ASCII, read byte by byte, is not found in its own bytes. */
  lemma SplitMarkerIsLost(marker: string, i: nat)
    requires i < |marker| && marker[i] as int >= 0x80 && marker[i] != REPLACEMENT
    ensures AreReads(Singles(Encode(marker))) && Contains(Flat(Singles(Encode(marker))), Encode(marker))
    ensures !Contains(Flat(Decoded(Singles(Encode(marker)))), marker)
  {
    SinglesRead(Encode(marker));
    ContainsItself(Encode(marker));
    LacksElement(Bytewise(Encode(marker)), marker, i);
  }

  /** Bytes that are not UTF-8 where the marker has a character beyond ASCII. */
  function Broken(marker: string): seq<byte> {
    seq(|marker|, i requires 0 <= i < |marker| => if marker[i] as int < 0x80 then marker[i] as int else 0xFF)
  }

  lemma {:induction false} EncodeHas(text: string, i: nat)
    requires i < |text| && text[i] == REPLACEMENT
    ensures 0xEF in Encode(text)
  {
    if i == 0 {
      assert 0xEF == EncodeChar(REPLACEMENT)[0];
    } else {
      EncodeHas(text[1..], i - 1);
    }
  }

  /** A marker that holds U+FFFD is found in bytes that are not UTF-8. */
  lemma FalseMarkerIsFound(marker: string, i: nat)
    requires i < |marker| && marker[i] == REPLACEMENT
    requires forall j :: 0 <= j < |marker| ==> marker[j] as int < 0x80 || marker[j] == REPLACEMENT
    ensures AreReads(Singles(Broken(marker))) && !Contains(Flat(Singles(Broken(marker))), Encode(marker))
    ensures Contains(Flat(Decoded(Singles(Broken(marker)))), marker)
  {
    SinglesRead(Broken(marker));
    BrokenReads(marker);
    ContainsItself(marker);
    BytesAbsent(marker, i);
  }

  lemma BrokenReads(marker: string)
    requires forall j :: 0 <= j < |marker| ==> marker[j] as int < 0x80 || marker[j] == REPLACEMENT
    ensures Bytewise(Broken(marker)) == marker
  {
    forall j | 0 <= j < |marker|
      ensures ByteText(Broken(marker)[j]) == marker[j]
    {
    }
  }

  lemma BytesAbsent(marker: string, i: nat)
    requires i < |marker| && marker[i] == REPLACEMENT
    ensures !Contains(Broken(marker), Encode(marker))
  {
    EncodeHas(marker, i);
    var k: nat :| k < |Encode(marker)| && Encode(marker)[k] == 0xEF;
    LacksElement(Broken(marker), Encode(marker), k);
  }

  /** For an ASCII marker two cuttings of the same bytes agree. */
  lemma ByteCutsAgree(marker: string, a: seq<seq<byte>>, b: seq<seq<byte>>)
    requires marker != "" && IsAscii(marker) && Flat(a) == Flat(b)
    ensures Contains(Flat(Decoded(a)), marker) <==> Contains(Flat(Decoded(b)), marker)
  {
    AsciiIsExact(marker, a);
    AsciiIsExact(marker, b);
  }
}
