/** A file as the list of what its data pages hold, and its bytes. */
module Chunks {
  import opened Nor
  import Layout

  /** The bytes of a file whose data pages hold `c`, in order. */
  function Flatten(c: seq<seq<byte>>): seq<byte> {
    if |c| == 0 then [] else Flatten(c[..|c| - 1]) + c[|c| - 1]
  }

  /** The file offset at which data page s begins; it is s * dps (StartIsProduct). */
  function Start(dps: nat, s: nat): nat {
    if s == 0 then 0 else Start(dps, s - 1) + dps
  }

  /** Every page but the last is full, and the last holds something. */
  ghost predicate Full(c: seq<seq<byte>>, dps: nat) {
    && (forall i :: 0 <= i < |c| - 1 ==> |c[i]| == dps)
    && (|c| > 0 ==> 0 < |c[|c| - 1]| <= dps)
  }

  /** `was` overwritten at `off` with `buf`, growing when `buf` reaches past the end. */
  function Splice(was: seq<byte>, off: nat, buf: seq<byte>): (r: seq<byte>)
    requires off <= |was|
    ensures |r| == if off + |buf| < |was| then |was| else off + |buf|
    ensures forall i :: 0 <= i < |r| ==>
                          r[i] == if off <= i < off + |buf| then buf[i - off] else was[i]
  {
    was[..off] + buf + (if off + |buf| < |was| then was[off + |buf|..] else [])
  }

  lemma {:induction false} StartIsProduct(dps: nat, s: nat)
    ensures Start(dps, s) == s * dps
  {
    if s > 0 {
      StartIsProduct(dps, s - 1);
      assert s * dps == (s - 1) * dps + dps;
    }
  }

  lemma {:induction false} StartMono(dps: nat, s: nat, t: nat)
    requires s <= t
    ensures Start(dps, s) <= Start(dps, t)
    ensures s < t ==> Start(dps, s) + dps <= Start(dps, t)
    decreases t
  {
    if s < t { StartMono(dps, s, t - 1); }
  }

  /** The page an offset falls into, and the place in it. */
  lemma StartOfOffset(dps: nat, pos: nat)
    requires 0 < dps
    ensures Start(dps, pos / dps) + pos % dps == pos && pos % dps < dps
  {
    StartIsProduct(dps, pos / dps);
  }

  lemma {:induction false} FlattenLen(c: seq<seq<byte>>, dps: nat)
    requires Full(c, dps)
    ensures |Flatten(c)| == if |c| == 0 then 0 else Start(dps, |c| - 1) + |c[|c| - 1]|
  {
    if |c| > 1 {
      FlattenLen(c[..|c| - 1], dps);
    } else if |c| == 1 {
      assert Flatten(c[..0]) == [];
      assert Flatten(c) == c[0];
    }
  }

  /** A page replaced by one of the same length leaves the file as long as it was. */
  lemma FlattenSame(c: seq<seq<byte>>, dps: nat, s: nat, p: seq<byte>)
    requires Full(c, dps) && s < |c| && |p| == |c[s]|
    ensures Full(c[s := p], dps) && |Flatten(c[s := p])| == |Flatten(c)|
  {
    FlattenLen(c, dps);
    FlattenLen(c[s := p], dps);
  }

  /** A byte position inside the file falls into a page that holds it. */
  lemma PositionOf(c: seq<seq<byte>>, dps: nat, s: nat, j: nat)
    requires Full(c, dps) && j < dps && Start(dps, s) + j < |Flatten(c)|
    ensures s < |c| && j < |c[s]|
  {
    FlattenLen(c, dps);
    StartMono(dps, if s < |c| then s else |c|, s);
  }

  /** Byte j of page s is byte Start(s) + j of the file. */
  lemma {:induction false} FlattenAt(c: seq<seq<byte>>, dps: nat, s: nat, j: nat)
    requires Full(c, dps) && s < |c| && j < |c[s]|
    ensures Start(dps, s) + j < |Flatten(c)| && Flatten(c)[Start(dps, s) + j] == c[s][j]
  {
    var n := |c|;
    var d := c[..n - 1];
    FlattenLen(d, dps);
    if s < n - 1 { FlattenAt(d, dps, s, j); }
  }

  /** Part of a page is the corresponding part of the file. */
  lemma FlattenSlice(c: seq<seq<byte>>, dps: nat, s: nat, a: nat, b: nat)
    requires Full(c, dps) && s < |c| && a <= b <= |c[s]|
    ensures Start(dps, s) + b <= |Flatten(c)|
    ensures Flatten(c)[Start(dps, s) + a..Start(dps, s) + b] == c[s][a..b]
  {
    var f, at := Flatten(c), Start(dps, s);
    assert |c[s]| > 0;
    FlattenAt(c, dps, s, |c[s]| - 1);
    forall j | a <= j < b ensures f[at + j] == c[s][j] { FlattenAt(c, dps, s, j); }
    forall i | 0 <= i < b - a ensures f[at + a..at + b][i] == c[s][a..b][i] {
      assert f[at + (a + i)] == c[s][a + i];
    }
  }

  lemma SpliceFront(x: seq<byte>, y: seq<byte>, off: nat, buf: seq<byte>)
    requires off + |buf| <= |x|
    ensures Splice(x, off, buf) + y == Splice(x + y, off, buf)
  {
  }

  lemma SpliceBack(x: seq<byte>, y: seq<byte>, off: nat, buf: seq<byte>)
    requires off + |buf| <= |y|
    ensures x + Splice(y, off, buf) == Splice(x + y, |x| + off, buf)
  {
  }

  /** Overwriting part of a page overwrites that part of the file. */
  lemma {:induction false} FlattenUpdate(c: seq<seq<byte>>, dps: nat, s: nat, off: nat, buf: seq<byte>)
    requires Full(c, dps) && s < |c| && off + |buf| <= |c[s]|
    ensures Full(c[s := Splice(c[s], off, buf)], dps)
    ensures Start(dps, s) + off + |buf| <= |Flatten(c)|
    ensures Flatten(c[s := Splice(c[s], off, buf)]) == Splice(Flatten(c), Start(dps, s) + off, buf)
  {
    var n := |c|;
    var d, c' := c[..n - 1], c[s := Splice(c[s], off, buf)];
    assert Flatten(c) == Flatten(d) + c[n - 1];
    if s == n - 1 {
      FlattenLen(d, dps);
      assert c'[..n - 1] == d;
      SpliceBack(Flatten(d), c[s], off, buf);
    } else {
      FlattenUpdate(d, dps, s, off, buf);
      assert c'[..n - 1] == d[s := Splice(d[s], off, buf)];
      SpliceFront(Flatten(d), c[n - 1], Start(dps, s) + off, buf);
    }
  }

  /** Filling up the last page appends to the file. */
  lemma FlattenGrowLast(c: seq<seq<byte>>, dps: nat, buf: seq<byte>)
    requires Full(c, dps) && |c| > 0 && |c[|c| - 1]| + |buf| <= dps
    ensures Full(c[|c| - 1 := c[|c| - 1] + buf], dps)
    ensures Flatten(c[|c| - 1 := c[|c| - 1] + buf]) == Flatten(c) + buf
  {
    var c' := c[|c| - 1 := c[|c| - 1] + buf];
    assert c'[..|c| - 1] == c[..|c| - 1];
  }

  /** A new last page appends to the file. */
  lemma FlattenAppend(c: seq<seq<byte>>, dps: nat, buf: seq<byte>)
    requires Full(c, dps) && (|c| > 0 ==> |c[|c| - 1]| == dps) && 0 < |buf| <= dps
    ensures Full(c + [buf], dps)
    ensures Flatten(c + [buf]) == Flatten(c) + buf
  {
    assert (c + [buf])[..|c|] == c;
  }

  lemma SpliceAppend(was: seq<byte>, buf: seq<byte>)
    ensures Splice(was, |was|, buf) == was + buf
  {
  }

  /** Two adjacent writes are one write. */
  lemma SpliceSplice(was: seq<byte>, off: nat, a: seq<byte>, b: seq<byte>)
    requires off <= |was|
    ensures Splice(Splice(was, off, a), off + |a|, b) == Splice(was, off, a + b)
  {
  }
}
