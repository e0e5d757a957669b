/** Shared vocabulary. */
module Prelude {
  datatype Option<+T> = None | Some(value: T)

  datatype Result<+T> = Ok(value: T) | Err(error: string)

  type byte = b: int | 0 <= b < 256

  function Elems<T>(s: seq<T>): set<T> { set x | x in s }

  /** The blocks one after the other. */
  function Flat<T>(blocks: seq<seq<T>>): seq<T> {
    if blocks == [] then [] else Flat(blocks[..|blocks| - 1]) + blocks[|blocks| - 1]
  }

  lemma FlatSnoc<T>(blocks: seq<seq<T>>, block: seq<T>)
    ensures Flat(blocks + [block]) == Flat(blocks) + block
  {
    assert (blocks + [block])[..|blocks|] == blocks;
  }

  lemma {:induction false} FlatCons<T>(block: seq<T>, rest: seq<seq<T>>)
    ensures Flat([block] + rest) == block + Flat(rest)
  {
    var all := [block] + rest;
    if rest == [] {
      assert all[..0] == [] && all[0] == block;
    } else {
      var n := |rest| - 1;
      FlatCons(block, rest[..n]);
      assert all[..n + 1] == [block] + rest[..n] && all[n + 1] == rest[n];
      Assoc(block, Flat(rest[..n]), rest[n]);
    }
  }

  lemma Assoc<T>(a: seq<T>, b: seq<T>, c: seq<T>)
    ensures a + b + c == a + (b + c)
  {
  }

  function Min(a: int, b: int): int { if a < b then a else b }

  ghost predicate NoDup<T>(s: seq<T>) { forall i, j :: 0 <= i < j < |s| ==> s[i] != s[j] }
}
