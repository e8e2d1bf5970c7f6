/** NOR flash arithmetic: a write can only pull bits to zero, so what ends up in a cell is the
    bitwise AND of the old and the written value.  An erased cell holds all ones. */
module Nor {

  type byte = x: nat | x < 256
  type half = x: nat | x < 0x1_0000
  type word = x: nat | x < 0x1_0000_0000

  /** Bitwise AND of two unsigned numbers. */
  function BitAnd(a: nat, b: nat): (r: nat)
    ensures r <= a && r <= b
  {
    if a == 0 || b == 0 then 0
    else a % 2 * (b % 2) + 2 * BitAnd(a / 2, b / 2)
  }

  function Pow2(k: nat): nat {
    if k == 0 then 1 else 2 * Pow2(k - 1)
  }

  /** Writing to an erased cell of k bits stores the written value. */
  lemma {:induction false} AndOnes(k: nat, b: nat)
    requires b < Pow2(k)
    ensures BitAnd(Pow2(k) - 1, b) == b
  {
    if k > 0 && b != 0 {
      assert (Pow2(k) - 1) / 2 == Pow2(k - 1) - 1 && (Pow2(k) - 1) % 2 == 1;
      AndOnes(k - 1, b / 2);
    }
  }

  /** Writing the value a cell already holds changes nothing. */
  lemma {:induction false} AndSelf(a: nat)
    ensures BitAnd(a, a) == a
  {
    if a != 0 { AndSelf(a / 2); }
  }

  lemma Pow2Values()
    ensures Pow2(8) == 0x100 && Pow2(16) == 0x1_0000 && Pow2(32) == 0x1_0000_0000
  {
    assert Pow2(4) == 16;
    assert Pow2(8) == 0x100;
    assert Pow2(12) == 0x1000;
    assert Pow2(16) == 0x1_0000;
    assert Pow2(20) == 0x10_0000;
    assert Pow2(24) == 0x100_0000;
    assert Pow2(28) == 0x1000_0000;
  }

  function AndByte(a: byte, b: byte): byte { BitAnd(a, b) }
  function AndHalf(a: half, b: half): half { BitAnd(a, b) }
  function AndWord(a: word, b: word): word { BitAnd(a, b) }

  function AndBytes(a: seq<byte>, b: seq<byte>): (r: seq<byte>)
    requires |a| == |b|
    ensures |r| == |a|
  {
    seq(|a|, i requires 0 <= i < |a| => AndByte(a[i], b[i]))
  }

  function AndHalves(a: seq<half>, b: seq<half>): (r: seq<half>)
    requires |a| == |b|
    ensures |r| == |a|
  {
    seq(|a|, i requires 0 <= i < |a| => AndHalf(a[i], b[i]))
  }

  /** The value `b` can be stored over `a` without an erase: every cell is erased or keeps its value. */
  ghost predicate BytesOverlay(a: seq<byte>, b: seq<byte>) {
    |a| == |b| && forall i :: 0 <= i < |a| ==> a[i] == b[i] || a[i] == 0xFF
  }

  ghost predicate HalvesOverlay(a: seq<half>, b: seq<half>) {
    |a| == |b| && forall i :: 0 <= i < |a| ==> a[i] == b[i] || a[i] == 0xFFFF
  }

  lemma ByteOverlay(a: byte, b: byte)
    requires a == b || a == 0xFF
    ensures AndByte(a, b) == b
  {
    Pow2Values();
    if a == b { AndSelf(a); } else { AndOnes(8, b); }
  }

  lemma HalfOverlay(a: half, b: half)
    requires a == b || a == 0xFFFF
    ensures AndHalf(a, b) == b
  {
    Pow2Values();
    if a == b { AndSelf(a); } else { AndOnes(16, b); }
  }

  lemma WordOverlay(a: word, b: word)
    requires a == b || a == 0xFFFF_FFFF
    ensures AndWord(a, b) == b
  {
    Pow2Values();
    if a == b { AndSelf(a); } else { AndOnes(32, b); }
  }

  lemma AndBytesOverlay(a: seq<byte>, b: seq<byte>)
    requires BytesOverlay(a, b)
    ensures AndBytes(a, b) == b
  {
    forall i | 0 <= i < |a| ensures AndByte(a[i], b[i]) == b[i] { ByteOverlay(a[i], b[i]); }
  }

  lemma AndHalvesOverlay(a: seq<half>, b: seq<half>)
    requires HalvesOverlay(a, b)
    ensures AndHalves(a, b) == b
  {
    forall i | 0 <= i < |a| ensures AndHalf(a[i], b[i]) == b[i] { HalfOverlay(a[i], b[i]); }
  }
}
