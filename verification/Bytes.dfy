/** Fixed-width integers as byte sequences, in both byte orders. */
module Bytes {
  import opened Prelude

  /** The number of values `n` bytes can hold. */
  function Pow256(n: nat): (p: nat)
    ensures p >= 1
  {
    if n == 0 then 1 else 256 * Pow256(n - 1)
  }

  /** Value of a big-endian byte sequence. */
  function FromBe(b: seq<byte>): (v: nat)
    ensures v < Pow256(|b|)
  {
    if b == [] then 0 else 256 * FromBe(b[..|b| - 1]) + b[|b| - 1]
  }

  /** Value of a little-endian byte sequence. */
  function FromLe(b: seq<byte>): (v: nat)
    ensures v < Pow256(|b|)
  {
    if b == [] then 0 else b[0] + 256 * FromLe(b[1..])
  }

  /** The `n` bytes of `v`, most significant first. */
  function ToBe(n: nat, v: nat): (b: seq<byte>)
    requires v < Pow256(n)
    ensures |b| == n
  {
    if n == 0 then [] else ToBe(n - 1, v / 256) + [v % 256]
  }

  /** The `n` bytes of `v`, least significant first. */
  function ToLe(n: nat, v: nat): (b: seq<byte>)
    requires v < Pow256(n)
    ensures |b| == n
  {
    if n == 0 then [] else [v % 256] + ToLe(n - 1, v / 256)
  }

  function Reverse(b: seq<byte>): (r: seq<byte>)
    ensures |r| == |b|
    ensures forall i :: 0 <= i < |b| ==> r[i] == b[|b| - 1 - i]
  {
    seq(|b|, i requires 0 <= i < |b| => b[|b| - 1 - i])
  }

  lemma {:induction false} BeWriteRead(n: nat, v: nat)
    requires v < Pow256(n)
    ensures FromBe(ToBe(n, v)) == v
  {
    if n > 0 {
      BeWriteRead(n - 1, v / 256);
      assert ToBe(n, v)[..n - 1] == ToBe(n - 1, v / 256);
    }
  }

  lemma SplitLow(high: nat, low: byte)
    ensures (256 * high + low) / 256 == high && (256 * high + low) % 256 == low
  {
  }

  lemma {:induction false} BeReadWrite(b: seq<byte>)
    ensures ToBe(|b|, FromBe(b)) == b
  {
    if b != [] {
      var init, last := b[..|b| - 1], b[|b| - 1];
      BeReadWrite(init);
      SplitLow(FromBe(init), last);
      assert b == init + [last];
    }
  }

  /** Reading little-endian is reading the reversed bytes big-endian. */
  lemma {:induction false} LeIsReversedBe(b: seq<byte>)
    ensures FromLe(b) == FromBe(Reverse(b))
  {
    if b != [] {
      LeIsReversedBe(b[1..]);
      assert Reverse(b)[..|b| - 1] == Reverse(b[1..]);
    }
  }

  /** Writing little-endian is writing big-endian and reversing. */
  lemma {:induction false} ToLeIsReversedToBe(n: nat, v: nat)
    requires v < Pow256(n)
    ensures ToLe(n, v) == Reverse(ToBe(n, v))
  {
    if n > 0 {
      ToLeIsReversedToBe(n - 1, v / 256);
    }
  }

  lemma {:induction false} LeWriteRead(n: nat, v: nat)
    requires v < Pow256(n)
    ensures FromLe(ToLe(n, v)) == v
  {
    ToLeIsReversedToBe(n, v);
    LeIsReversedBe(ToLe(n, v));
    assert Reverse(Reverse(ToBe(n, v))) == ToBe(n, v);
    BeWriteRead(n, v);
  }

  lemma {:induction false} LeReadWrite(b: seq<byte>)
    ensures ToLe(|b|, FromLe(b)) == b
  {
    LeIsReversedBe(b);
    BeReadWrite(Reverse(b));
    ToLeIsReversedToBe(|b|, FromLe(b));
    assert Reverse(Reverse(b)) == b;
  }
}
