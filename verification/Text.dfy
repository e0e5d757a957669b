/** Byte strings, one char per byte: decimal numbers, fields up to a separator, prefixes. */
module Text {
  import opened Prelude

  // ----- decimal numbers -----

  predicate IsDigit(c: char) { '0' <= c <= '9' }

  predicate IsNumber(s: string) { s != "" && forall i :: 0 <= i < |s| ==> IsDigit(s[i]) }

  function Digit(d: nat): char
    requires d < 10
  {
    '0' + d as char
  }

  function Dec(n: nat): (s: string)
    ensures IsNumber(s)
  {
    if n < 10 then [Digit(n)] else Dec(n / 10) + [Digit(n % 10)]
  }

  function Value(s: string): nat
    requires forall i :: 0 <= i < |s| ==> IsDigit(s[i])
  {
    if s == "" then 0
    else
      var d := s[|s| - 1];
      assert IsDigit(d);
      10 * Value(s[..|s| - 1]) + (d as int - '0' as int)
  }

  lemma {:induction false} DecRoundTrip(n: nat)
    ensures Value(Dec(n)) == n
  {
    if n >= 10 {
      DecRoundTrip(n / 10);
      assert Dec(n)[..|Dec(n)| - 1] == Dec(n / 10);
    } else {
      assert Dec(n)[..0] == "";
    }
  }

  /** A number that was written without leading zeros is printed as it was written. */
  lemma {:induction false} DecOfValue(s: string)
    requires s != "" && (forall i :: 0 <= i < |s| ==> IsDigit(s[i])) && (s[0] != '0' || |s| == 1)
    ensures Dec(Value(s)) == s
  {
    var n := |s| - 1;
    assert IsDigit(s[n]);
    if n == 0 {
      assert Value(s[..0]) == 0;
    } else {
      DecOfValue(s[..n]);
      assert Value(s) / 10 == Value(s[..n]);
    }
  }

  // ----- fields -----

  /** `c` does not occur in `s`. */
  predicate Free(s: string, c: char) { forall i :: 0 <= i < |s| ==> s[i] != c }

  lemma FreeConcat(a: string, b: string, c: char)
    ensures Free(a + b, c) <==> Free(a, c) && Free(b, c)
  {
    assert forall i :: 0 <= i < |a| ==> (a + b)[i] == a[i];
    assert forall i :: 0 <= i < |b| ==> (a + b)[|a| + i] == b[i];
  }

  /** Index of the first `c` at or after `from`, or |s|. */
  function Find(s: string, c: char, from: nat): (i: nat)
    requires from <= |s|
    ensures from <= i <= |s|
    ensures forall j :: from <= j < i ==> s[j] != c
    ensures i < |s| ==> s[i] == c
    decreases |s| - from
  {
    if from == |s| || s[from] == c then from else Find(s, c, from + 1)
  }

  datatype Field = Field(text: string, rest: string)

  /** The text before the first `c`, and what follows it. */
  function Until(s: string, c: char): (f: Option<Field>)
    ensures f.Some? ==> s == f.value.text + [c] + f.value.rest && Free(f.value.text, c)
    ensures f.None? ==> Free(s, c)
  {
    var i := Find(s, c, 0);
    if i < |s| then Some(Field(s[..i], s[i + 1..])) else None
  }

  lemma UntilFinds(text: string, c: char, rest: string)
    requires Free(text, c)
    ensures Until(text + [c] + rest, c) == Some(Field(text, rest))
  {
    var s := text + [c] + rest;
    assert s[|text|] == c;
    var i := Find(s, c, 0);
    assert forall j :: 0 <= j < |text| ==> s[j] == text[j];
    assert i == |text|;
    assert s[..i] == text && s[i + 1..] == rest;
  }

  lemma FreeHasNoField(s: string, c: char)
    requires Free(s, c)
    ensures Until(s, c).None?
  {
    var i := Find(s, c, 0);
  }

  /** What follows a prefix. */
  function Strip(prefix: string, s: string): (r: Option<string>)
    ensures r.Some? <==> prefix <= s
    ensures r.Some? ==> s == prefix + r.value
  {
    if prefix <= s then Some(s[|prefix|..]) else None
  }

  lemma StripPrefix(prefix: string, rest: string)
    ensures Strip(prefix, prefix + rest) == Some(rest)
  {
  }

  /** Python's `s.split(c)`. */
  function Split(s: string, c: char): (parts: seq<string>)
    ensures |parts| > 0
    decreases |s|
  {
    var f := Until(s, c);
    if f.None? then [s] else [f.value.text] + Split(f.value.rest, c)
  }

  function Join(parts: seq<string>, c: char): string
    requires |parts| > 0
  {
    if |parts| == 1 then parts[0] else parts[0] + [c] + Join(parts[1..], c)
  }

  lemma {:induction false} SplitJoin(parts: seq<string>, c: char)
    requires |parts| > 0 && forall p :: p in parts ==> Free(p, c)
    ensures Split(Join(parts, c), c) == parts
  {
    if |parts| == 1 {
      assert Free(parts[0], c);
    } else {
      UntilFinds(parts[0], c, Join(parts[1..], c));
      SplitJoin(parts[1..], c);
    }
  }

  lemma {:induction false} SplitIsJoin(s: string, c: char)
    ensures Join(Split(s, c), c) == s && forall p :: p in Split(s, c) ==> Free(p, c)
    decreases |s|
  {
    var f := Until(s, c);
    if f.Some? {
      SplitIsJoin(f.value.rest, c);
      assert Split(s, c)[1..] == Split(f.value.rest, c);
    }
  }

  /** Without a newline in front, if there is one. */
  function SkipNewline(s: string): string {
    if s != "" && s[0] == '\n' then s[1..] else s
  }

  /** The first `n` bytes, or all there are. */
  function Take(s: string, n: nat): string { if n <= |s| then s[..n] else s }

  function Drop(s: string, n: nat): string { if n <= |s| then s[n..] else "" }
}
