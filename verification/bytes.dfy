/** Runs of octets, 16-bit registers, and the C++ narrowing conversions. */
module Bytes {
  import opened ByteValues

  type u16 = x: int | 0 <= x < 0x1_0000

  datatype Option<+T> = None | Some(value: T)

  function Zeros(n: nat): (s: seq<byte>)
    ensures |s| == n
    ensures forall i :: 0 <= i < n ==> s[i] == 0
  {
    seq(n, _ => 0)
  }

  /** All chunks, one after the other. */
  function Concat<T>(chunks: seq<seq<T>>): seq<T> {
    if chunks == [] then [] else chunks[0] + Concat(chunks[1..])
  }

  lemma {:induction false} ConcatAppend<T>(a: seq<seq<T>>, b: seq<seq<T>>)
    ensures Concat(a + b) == Concat(a) + Concat(b)
  {
    if a == [] {
      assert a + b == b;
    } else {
      assert (a + b)[1..] == a[1..] + b;
      ConcatAppend(a[1..], b);
    }
  }

  /** The parts numbered below `n` that are there, in the order of their numbers. */
  function Join<T>(parts: map<nat, seq<T>>, n: nat): seq<T> {
    if n == 0 then []
    else Join(parts, n - 1) + (if n - 1 in parts then parts[n - 1] else [])
  }

  /** Joining a complete set of parts is concatenation. */
  lemma {:induction false} JoinIsConcat<T>(parts: map<nat, seq<T>>, whole: seq<seq<T>>)
    requires forall k :: 0 <= k < |whole| ==> k in parts && parts[k] == whole[k]
    ensures Join(parts, |whole|) == Concat(whole)
  {
    if whole != [] {
      var n := |whole| - 1;
      JoinIsConcat(parts, whole[..n]);
      ConcatAppend(whole[..n], [whole[n]]);
      assert whole == whole[..n] + [whole[n]];
      assert Concat([whole[n]]) == whole[n];
    }
  }

  /** `x` narrowed to a signed 8-bit integer, two's complement. */
  function Signed8(x: int): (r: int)
    ensures -128 <= r < 128 && (x - r) % 256 == 0
  {
    if x % 256 >= 128 then x % 256 - 256 else x % 256
  }

  /** `x` narrowed to a signed 16-bit integer, two's complement. */
  function Signed16(x: int): (r: int)
    ensures -32768 <= r < 32768 && (x - r) % 65536 == 0
  {
    if x % 65536 >= 32768 then x % 65536 - 65536 else x % 65536
  }
}
