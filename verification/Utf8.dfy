/** UTF-8: the encoder, and Python's decoder with U+FFFD for whatever is not UTF-8. */
module Utf8 {
  import opened Prelude

  const REPLACEMENT: char := '\U{FFFD}'

  predicate IsContinuation(b: byte) { 0x80 <= b <= 0xBF }

  /** Bytes of a well-formed character with this first byte; 0 if none begins so. */
  function Length(first: byte): nat {
    if first < 0x80 then 1
    else if 0xC2 <= first <= 0xDF then 2
    else if 0xE0 <= first <= 0xEF then 3
    else if 0xF0 <= first <= 0xF4 then 4
    else 0
  }

  /** No overlong form, no surrogate, nothing above U+10FFFF. */
  predicate SecondFits(first: byte, second: byte) {
    if first == 0xE0 then 0xA0 <= second <= 0xBF
    else if first == 0xED then 0x80 <= second <= 0x9F
    else if first == 0xF0 then 0x90 <= second <= 0xBF
    else if first == 0xF4 then 0x80 <= second <= 0x8F
    else IsContinuation(second)
  }

  /** How many bytes in front could begin a well-formed character. */
  function Good(s: seq<byte>): (n: nat)
    requires s != []
    ensures n <= |s| && n <= Length(s[0])
    ensures forall i :: 1 <= i < n ==> IsContinuation(s[i])
  {
    var length := Length(s[0]);
    if length <= 1 then length
    else if |s| < 2 || !SecondFits(s[0], s[1]) then 1
    else if length == 2 || |s| < 3 || !IsContinuation(s[2]) then 2
    else if length == 3 || |s| < 4 || !IsContinuation(s[3]) then 3
    else 4
  }

  function CodePoint(s: seq<byte>): (c: char)
    requires s != [] && Good(s) == Length(s[0]) > 0
    ensures s[0] < 0x80 ==> c as int == s[0]
    ensures s[0] >= 0x80 ==> c as int >= 0x80
  {
    var a: int := s[0];
    if Length(s[0]) == 1 then a as char
    else
      var b: int := s[1] - 0x80;
      if Length(s[0]) == 2 then ((a - 0xC0) * 0x40 + b) as char
      else
        var c: int := s[2] - 0x80;
        if Length(s[0]) == 3 then ((a - 0xE0) * 0x1000 + b * 0x40 + c) as char
        else ((a - 0xF0) * 0x40000 + b * 0x1000 + c * 0x40 + (s[3] - 0x80)) as char
  }

  /** One decoded character and the bytes it takes. */
  function Next(s: seq<byte>): (r: (char, nat))
    requires s != []
    ensures 1 <= r.1 <= |s|
  {
    if Good(s) == Length(s[0]) > 0 then (CodePoint(s), Good(s))
    else (REPLACEMENT, if Good(s) > 0 then Good(s) else 1)
  }

  /** `bytes.decode("utf-8", errors="replace")`. */
  function Decode(s: seq<byte>): (text: string)
    ensures |text| <= |s| && (s != [] ==> text != "")
  {
    if s == [] then "" else [Next(s).0] + Decode(s[Next(s).1..])
  }

  function EncodeChar(c: char): (s: seq<byte>)
    ensures s != []
  {
    var n := c as int;
    if n < 0x80 then [n]
    else if n < 0x800 then [0xC0 + n / 0x40, 0x80 + n % 0x40]
    else if n < 0x10000 then [0xE0 + n / 0x1000, 0x80 + n / 0x40 % 0x40, 0x80 + n % 0x40]
    else [0xF0 + n / 0x40000, 0x80 + n / 0x1000 % 0x40, 0x80 + n / 0x40 % 0x40, 0x80 + n % 0x40]
  }

  /** The bytes the program prints for a text. */
  function Encode(text: string): seq<byte> {
    if text == "" then [] else EncodeChar(text[0]) + Encode(text[1..])
  }

  /** `bytes.decode("utf-8")` raises no error. */
  predicate IsValid(s: seq<byte>)
    decreases |s|
  {
    s == [] || (Good(s) == Length(s[0]) > 0 && IsValid(s[Good(s)..]))
  }

  // ----- the encoder decides -----

  /** The bytes are the encoding of some text. */
  ghost predicate IsText(s: seq<byte>) { exists text :: Encode(text) == s }

  lemma Digits(n: int)
    requires 0 <= n
    ensures n == n / 0x40 * 0x40 + n % 0x40
    ensures n / 0x1000 == n / 0x40 / 0x40 && n / 0x40000 == n / 0x40 / 0x40 / 0x40
    ensures n / 0x40 == n / 0x1000 * 0x40 + n / 0x40 % 0x40
    ensures n / 0x1000 == n / 0x40000 * 0x40 + n / 0x1000 % 0x40
  {
  }

  /** Reading one encoded character gives it back, whatever follows. */
  lemma {:induction false} EncodedIsGood(c: char, rest: seq<byte>)
    ensures var s := EncodeChar(c) + rest;
            Good(s) == Length(s[0]) == |EncodeChar(c)| && CodePoint(s) == c
  {
    Digits(c as int);
    var s := EncodeChar(c) + rest;
    assert forall i :: 0 <= i < |EncodeChar(c)| ==> s[i] == EncodeChar(c)[i];
  }

  lemma SixBits(high: int, low: int)
    requires 0 <= low < 0x40
    ensures (high * 0x40 + low) / 0x40 == high && (high * 0x40 + low) % 0x40 == low
  {
  }

  lemma {:induction false} TwoBytes(s: seq<byte>)
    requires s != [] && Good(s) == Length(s[0]) == 2
    ensures EncodeChar(CodePoint(s)) == [s[0], s[1]]
  {
    SixBits(s[0] - 0xC0, s[1] - 0x80);
  }

  lemma {:induction false} ThreeBytes(s: seq<byte>)
    requires s != [] && Good(s) == Length(s[0]) == 3
    ensures EncodeChar(CodePoint(s)) == [s[0], s[1], s[2]]
  {
    var a: int, b: int, c: int := s[0] - 0xE0, s[1] - 0x80, s[2] - 0x80;
    var n, high := CodePoint(s) as int, a * 0x40 + b;
    assert n == high * 0x40 + c;
    SixBits(high, c);
    SixBits(a, b);
    Digits(n);
    assert 0x800 <= n < 0x10000;
  }

  lemma {:induction false} FourBytes(s: seq<byte>)
    requires s != [] && Good(s) == Length(s[0]) == 4
    ensures EncodeChar(CodePoint(s)) == [s[0], s[1], s[2], s[3]]
  {
    var a: int, b: int, c: int, d: int := s[0] - 0xF0, s[1] - 0x80, s[2] - 0x80, s[3] - 0x80;
    var n, top := CodePoint(s) as int, a * 0x40 + b;
    var high := top * 0x40 + c;
    assert n == high * 0x40 + d;
    SixBits(high, d);
    SixBits(top, c);
    SixBits(a, b);
    Digits(n);
    assert 0x10000 <= n;
  }

  /** A well-formed character is the encoding of what it reads as. */
  lemma {:induction false} GoodIsEncoded(s: seq<byte>)
    requires s != [] && Good(s) == Length(s[0]) > 0
    ensures s == EncodeChar(CodePoint(s)) + s[Good(s)..]
  {
    if Good(s) == 2 {
      TwoBytes(s);
    } else if Good(s) == 3 {
      ThreeBytes(s);
    } else if Good(s) == 4 {
      FourBytes(s);
    }
  }

  /** Decoding undoes encoding. */
  lemma {:induction false} DecodeEncode(text: string)
    ensures Decode(Encode(text)) == text && IsValid(Encode(text))
  {
    if text != "" {
      var s, rest := Encode(text), Encode(text[1..]);
      EncodedIsGood(text[0], rest);
      DecodeEncode(text[1..]);
      assert s[|EncodeChar(text[0])|..] == rest;
      assert text == [text[0]] + text[1..];
    }
  }

  /** Bytes decode without error exactly when they are the encoding of a text; else the decoded text shows
      the replacement character. */
  lemma {:induction false} ValidIffText(s: seq<byte>)
    ensures IsValid(s) <==> IsText(s)
    ensures IsValid(s) ==> Encode(Decode(s)) == s
    ensures !IsValid(s) ==> REPLACEMENT in Decode(s)
  {
    if text :| Encode(text) == s { DecodeEncode(text); }
    ValidEncodes(s);
  }

  lemma {:induction false} ValidEncodes(s: seq<byte>)
    ensures IsValid(s) ==> Encode(Decode(s)) == s
    ensures !IsValid(s) ==> REPLACEMENT in Decode(s)
    decreases |s|
  {
    if s != [] {
      var c, n := Next(s).0, Next(s).1;
      ValidEncodes(s[n..]);
      assert Decode(s)[0] == c && Decode(s)[1..] == Decode(s[n..]);
      if Good(s) == Length(s[0]) > 0 { GoodIsEncoded(s); }
    }
  }
}
