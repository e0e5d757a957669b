/** Length-prefixed frames over a stream that may give fewer bytes than asked for. */
module Frames {
  import opened Prelude

  const FRAME_MAX: nat := 8 * 1024 * 1024

  /** Big-endian, four bytes. */
  function Be32(n: nat): (r: seq<byte>)
    requires n < 0x1_0000_0000
    ensures |r| == 4
  {
    [n / 0x100 / 0x100 / 0x100, n / 0x100 / 0x100 % 0x100, n / 0x100 % 0x100, n % 0x100]
  }

  function FromBe32(s: seq<byte>): (n: nat)
    requires |s| == 4
    ensures n < 0x1_0000_0000
  {
    ((s[0] as int * 0x100 + s[1]) * 0x100 + s[2]) * 0x100 + s[3]
  }

  lemma Be32RoundTrip(n: nat)
    requires n < 0x1_0000_0000
    ensures FromBe32(Be32(n)) == n
  {
    var s := Be32(n);
    assert s[0] as int * 0x100 + s[1] == n / 0x100 / 0x100;
    assert (s[0] as int * 0x100 + s[1]) * 0x100 + s[2] == n / 0x100;
  }

  lemma FromBe32RoundTrip(s: seq<byte>)
    requires |s| == 4
    ensures Be32(FromBe32(s)) == s
  {
    var n := FromBe32(s);
    assert n / 0x100 == (s[0] as int * 0x100 + s[1]) * 0x100 + s[2];
    assert n / 0x100 / 0x100 == s[0] as int * 0x100 + s[1];
  }

  type Body = b: seq<byte> | |b| <= FRAME_MAX

  function Encode(body: Body): seq<byte> {
    Be32(|body|) + body
  }

  function EncodeAll(frames: seq<Body>): seq<byte> {
    if frames == [] then [] else Encode(frames[0]) + EncodeAll(frames[1..])
  }

  /** What `read_frame` makes of the bytes left in a stream. */
  datatype Read = Frame(body: Body, rest: seq<byte>) | End | Truncated | MissingBody | Oversized

  function Parse(s: seq<byte>): Read {
    if s == [] then End
    else if |s| < 4 then Truncated
    else
      var n := FromBe32(s[..4]);
      if n > FRAME_MAX then Oversized
      else if |s| >= 4 + n then Frame(s[4..4 + n], s[4 + n..])
      else if |s| == 4 then MissingBody
      else Truncated
  }

  /** A stream whose reads return any non-empty part of what was asked for, nothing only at its end. */
  class ByteStream {
    var rest: seq<byte>

    constructor (bytes: seq<byte>)
      ensures rest == bytes
    {
      rest := bytes;
    }

    method Read(n: nat) returns (chunk: seq<byte>)
      requires n > 0
      modifies this
      ensures old(rest) == chunk + rest && |chunk| <= n
      ensures chunk == [] <==> old(rest) == []
    {
      if rest == [] { return []; }
      var k: nat :| 1 <= k <= n && k <= |rest|;
      chunk, rest := rest[..k], rest[k..];
    }
  }

  datatype Exact = Bytes(bytes: seq<byte>) | Nothing | Short

  /** `read_exact`: the next `size` bytes whatever the reads return, nothing at the end of the
      stream, an error if the stream ends part way. */
  method ReadExact(stream: ByteStream, size: nat) returns (r: Exact)
    modifies stream
    ensures r == if size <= |old(stream.rest)| then Bytes(old(stream.rest)[..size])
                 else if old(stream.rest) == [] then Nothing else Short
    ensures stream.rest == if size <= |old(stream.rest)| then old(stream.rest)[size..] else []
  {
    var chunks: seq<byte> := [];
    var remaining := size;
    while remaining > 0
      invariant chunks + stream.rest == old(stream.rest)
      invariant remaining >= 0 && |chunks| + remaining == size
    {
      var chunk := stream.Read(remaining);
      if chunk == [] {
        assert old(stream.rest) == chunks;
        return if chunks == [] then Nothing else Short;
      }
      chunks, remaining := chunks + chunk, remaining - |chunk|;
    }
    assert (chunks + stream.rest)[..size] == chunks && (chunks + stream.rest)[size..] == stream.rest;
    r := Bytes(chunks);
  }

  /** `read_frame`. */
  method ReadFrame(stream: ByteStream) returns (r: Read)
    modifies stream
    ensures r == Parse(old(stream.rest))
    ensures r.Frame? ==> stream.rest == r.rest
  {
    ghost var s := stream.rest;
    var prefix := ReadExact(stream, 4);
    if prefix.Nothing? { return End; }
    if prefix.Short? { return Truncated; }
    var length := FromBe32(prefix.bytes);
    if length > FRAME_MAX { return Oversized; }
    ghost var tail := stream.rest;
    assert tail == s[4..];
    var body := ReadExact(stream, length);
    match body
    case Nothing => r := MissingBody;
    case Short => r := Truncated;
    case Bytes(b) =>
      assert b == s[4..4 + length] && stream.rest == s[4 + length..];
      r := Frame(b, stream.rest);
  }

  /** The relay loop's view: read frames until there is none. It succeeds exactly on the bytes of a
      list of frames, and then yields that list. */
  method ReadAll(stream: ByteStream) returns (frames: seq<Body>, ok: bool)
    modifies stream
    ensures ok ==> old(stream.rest) == EncodeAll(frames)
    ensures ok <==> exists fs :: old(stream.rest) == EncodeAll(fs)
  {
    frames := [];
    ghost var s := stream.rest;
    assert EncodeAll([]) + s == s;
    while true
      invariant EncodeAll(frames) + stream.rest == s
      decreases |stream.rest|
    {
      ghost var rest := stream.rest;
      var r := ReadFrame(stream);
      if !r.Frame? {
        ok := r == End;
        OnlyEndIsComplete(s, frames, rest);
        return;
      }
      OneMoreFrame(s, frames, rest, r.body, r.rest);
      frames := frames + [r.body];
    }
  }

  lemma {:induction false} OneMoreFrame(s: seq<byte>, frames: seq<Body>, rest: seq<byte>, body: Body, tail: seq<byte>)
    requires EncodeAll(frames) + rest == s && Parse(rest) == Frame(body, tail)
    ensures EncodeAll(frames + [body]) + tail == s && |tail| < |rest|
  {
    ParseIsEncode(rest);
    AppendFrame(frames, body);
    Assoc(EncodeAll(frames), Encode(body), tail);
  }

  lemma {:induction false} OnlyEndIsComplete(s: seq<byte>, frames: seq<Body>, rest: seq<byte>)
    requires s == EncodeAll(frames) + rest && !Parse(rest).Frame?
    ensures Parse(rest) == End ==> s == EncodeAll(frames)
    ensures Parse(rest) == End <==> exists fs :: s == EncodeAll(fs)
  {
    if fs :| s == EncodeAll(fs) {
      assert s == EncodeAll(fs) + [];
      PrefixCode(fs, [], frames, rest);
    }
  }

  lemma {:induction false} AppendFrame(frames: seq<Body>, f: Body)
    ensures EncodeAll(frames + [f]) == EncodeAll(frames) + Encode(f)
  {
    if frames == [] {
      assert [f][1..] == [];
    } else {
      assert (frames + [f])[1..] == frames[1..] + [f];
      AppendFrame(frames[1..], f);
    }
  }

  /** Reading what was written gives the frame back and leaves the rest. */
  lemma {:induction false} EncodeThenParse(body: Body, rest: seq<byte>)
    ensures Parse(Encode(body) + rest) == Frame(body, rest)
  {
    var s := Encode(body) + rest;
    Be32RoundTrip(|body|);
    assert s[..4] == Be32(|body|);
    assert s[4..4 + |body|] == body && s[4 + |body|..] == rest;
  }

  /** A frame that was read is exactly the bytes that were consumed. */
  lemma {:induction false} ParseIsEncode(s: seq<byte>)
    requires Parse(s).Frame?
    ensures Encode(Parse(s).body) + Parse(s).rest == s
  {
    FromBe32RoundTrip(s[..4]);
    var n := FromBe32(s[..4]);
    assert s == s[..4] + s[4..4 + n] + s[4 + n..];
  }

  /** Frame lists are a prefix code: if two streams are equal and one continues with no further frame,
      then it has all the frames of the other, and the rest follows them. */
  lemma {:induction false} PrefixCode(a: seq<Body>, s: seq<byte>, b: seq<Body>, t: seq<byte>)
    requires EncodeAll(a) + s == EncodeAll(b) + t
    requires !Parse(t).Frame?
    ensures a <= b && s == EncodeAll(b[|a|..]) + t
    decreases |a|
  {
    if a != [] {
      var u := EncodeAll(a[1..]) + s;
      NextFrame(a, s);
      assert b == [] ==> EncodeAll(b) + t == t;
      NextFrame(b, t);
      PrefixCode(a[1..], s, b[1..], t);
      assert a == [a[0]] + a[1..] && b == [b[0]] + b[1..];
      assert b[1..][|a[1..]|..] == b[|a|..];
    }
  }

  lemma NextFrame(a: seq<Body>, s: seq<byte>)
    requires a != []
    ensures Parse(EncodeAll(a) + s) == Frame(a[0], EncodeAll(a[1..]) + s)
  {
    EncodeThenParse(a[0], EncodeAll(a[1..]) + s);
    Assoc(Encode(a[0]), EncodeAll(a[1..]), s);
  }

  /** A cut stream reads as a list of frames only if it was cut between two of them. */
  lemma CutBetweenFrames(frames: seq<Body>, cut: nat, got: seq<Body>)
    requires cut <= |EncodeAll(frames)| && EncodeAll(got) == EncodeAll(frames)[..cut]
    ensures got <= frames && cut == |EncodeAll(frames[..|got|])|
  {
    var s := EncodeAll(frames)[cut..];
    assert EncodeAll(got) + s == EncodeAll(frames) + [];
    PrefixCode(got, s, frames, []);
    assert frames[..|got|] == got;
  }
}
