/** Little-endian byte strings, as both ends of the wire read and write them. */
module Bytes {

  newtype Byte = x: int | 0 <= x < 0x100

  const TWO32: int := 0x1_0000_0000
  const TWO64: int := 0x1_0000_0000_0000_0000

  ghost function Pow256(n: nat): (p: nat)
    ensures p > 0
  {
    if n == 0 then 1 else 0x100 * Pow256(n - 1)
  }

  /** The n low bytes of v, least significant first; high bits are cut off like a C cast does. */
  function LE(v: nat, n: nat): (b: seq<Byte>)
    ensures |b| == n
  {
    if n == 0 then [] else [(v % 0x100) as Byte] + LE(v / 0x100, n - 1)
  }

  /** The unsigned number a little-endian byte string spells. */
  function Value(b: seq<Byte>): nat {
    if b == [] then 0 else b[0] as nat + 0x100 * Value(b[1..])
  }

  lemma {:induction false} ValueOfLE(v: nat, n: nat)
    requires v < Pow256(n)
    ensures Value(LE(v, n)) == v
  {
    if n == 0 {
    } else {
      assert LE(v, n)[1..] == LE(v / 0x100, n - 1);
      ValueOfLE(v / 0x100, n - 1);
    }
  }

  lemma {:induction false} ValueBound(b: seq<Byte>)
    ensures Value(b) < Pow256(|b|)
  {
    if b != [] {
      ValueBound(b[1..]);
    }
  }

  lemma Powers()
    ensures Pow256(1) == 0x100 && Pow256(2) == 0x1_0000 && Pow256(4) == TWO32 && Pow256(8) == TWO64
  {
    assert Pow256(3) == 0x100 * Pow256(2);
    assert Pow256(4) == 0x100 * Pow256(3);
    assert Pow256(5) == 0x100 * Pow256(4);
    assert Pow256(6) == 0x100 * Pow256(5);
    assert Pow256(7) == 0x100 * Pow256(6);
  }

  /** A list of u32 values back to back. */
  function Words(v: seq<nat>): (b: seq<Byte>)
    ensures |b| == 4 * |v|
  {
    if v == [] then [] else LE(v[0], 4) + Words(v[1..])
  }

  /** The first n u32 values of a byte string. */
  function ReadWords(b: seq<Byte>, n: nat): (v: seq<nat>)
    requires 4 * n <= |b|
    ensures |v| == n
  {
    if n == 0 then [] else [Value(b[..4])] + ReadWords(b[4..], n - 1)
  }

  lemma {:induction false} WordsRoundTrip(v: seq<nat>, tail: seq<Byte>)
    requires forall i :: 0 <= i < |v| ==> v[i] < TWO32
    ensures ReadWords(Words(v) + tail, |v|) == v
  {
    if v == [] {
    } else {
      var b := Words(v) + tail;
      assert b[..4] == LE(v[0], 4);
      assert b[4..] == Words(v[1..]) + tail;
      Powers();
      ValueOfLE(v[0], 4);
      WordsRoundTrip(v[1..], tail);
    }
  }

  lemma {:induction false} ReadWordsAt(b: seq<Byte>, n: nat, i: nat)
    requires 4 * n <= |b| && i < n
    ensures ReadWords(b, n)[i] == Value(b[4 * i..4 * i + 4])
  {
    if i == 0 {
    } else {
      ReadWordsAt(b[4..], n - 1, i - 1);
      assert b[4..][4 * (i - 1)..4 * (i - 1) + 4] == b[4 * i..4 * i + 4];
    }
  }

  /** Words only looks at the bytes it needs. */
  lemma {:induction false} ReadWordsPrefix(b: seq<Byte>, n: nat, tail: seq<Byte>)
    requires 4 * n <= |b|
    ensures ReadWords(b + tail, n) == ReadWords(b, n)
  {
    if n != 0 {
      assert (b + tail)[..4] == b[..4];
      assert (b + tail)[4..] == b[4..] + tail;
      ReadWordsPrefix(b[4..], n - 1, tail);
    }
  }
}
