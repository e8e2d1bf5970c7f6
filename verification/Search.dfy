/** The lookup search: spiffs_obj_lu_find_entry_visitor, with the visitor's verdict on an entry given
    as a predicate on the page the entry stands for. */
module Search {
  import opened Layout

  /** Entries of n blocks of `len` entries each. */
  function Rows(len: nat, n: nat): nat {
    if n == 0 then 0 else Rows(len, n - 1) + len
  }

  lemma {:induction false} RowsIsProduct(len: nat, n: nat)
    ensures Rows(len, n) == n * len
  {
    if n > 0 {
      RowsIsProduct(len, n - 1);
      assert n * len == (n - 1) * len + len;
    }
  }

  function EntryCount(len: nat, blocks: nat): (r: nat)
    ensures r == Rows(len, blocks)
  {
    RowsIsProduct(len, blocks);
    blocks * len
  }

  lemma {:induction false} RowsMono(len: nat, a: nat, b: nat)
    requires a <= b
    ensures Rows(len, a) <= Rows(len, b)
    ensures a < b ==> Rows(len, a) + len <= Rows(len, b)
    decreases b
  {
    if a < b { RowsMono(len, a, b - 1); }
  }

  /** (b, e) comes before (b', e') in the order of the lookup table. */
  predicate Precedes(b: nat, e: nat, b': nat, e': nat) {
    b < b' || (b == b' && e < e')
  }

  /** (b, e) is reached before (b', e') by a search that starts at (sb, se) and wraps around. */
  predicate ReachedBefore(sb: nat, se: nat, b: nat, e: nat, b': nat, e': nat) {
    if Precedes(b, e, sb, se) == Precedes(b', e', sb, se) then Precedes(b, e, b', e')
    else Precedes(b', e', sb, se)
  }

  /** Where a search asked to start at (sb, se) really starts: past the last entry means the next block. */
  function StartBlock(g: Geo, sb: nat, se: nat): nat {
    if se < g.Entries() then sb else if sb + 1 < g.blocks then sb + 1 else 0
  }

  function StartEntry(g: Geo, se: nat): nat {
    if se < g.Entries() then se else 0
  }

  /** The entries a search from (s0, e0) has looked at when it stands at (b, e). */
  ghost predicate Passed(g: Geo, s0: nat, e0: nat, b: nat, e: nat, wrapped: bool, all: bool, b': nat, e': nat) {
    && IsEntry(g, b', e')
    && if all then true
       else if wrapped then Precedes(b', e', b, e) || !Precedes(b', e', s0, e0)
       else Precedes(b', e', b, e) && !Precedes(b', e', s0, e0)
  }

  predicate IsEntry(g: Geo, b: nat, e: nat) { b < g.blocks && e < g.Entries() }

  /** The entries of block b from entry `from` on, counted down one by one. */
  method ScanRow(g: Geo, b: nat, from: nat, left: int, visits: nat -> bool) returns (found: bool, e: nat, count: int)
    requires g.Valid() && IsEntry(g, b, from)
    ensures from <= e && (if found then e < g.Entries() && visits(g.PixOf(b, e)) else e == g.Entries())
    ensures forall e' :: from <= e' < e ==> !visits(g.PixOf(b, e'))
    ensures count == left - (e - from)
  {
    e, count := from, left;
    while e < g.ppb - g.lup
      invariant from <= e <= g.Entries() && count == left - (e - from)
      invariant forall e' :: from <= e' < e ==> !visits(g.PixOf(b, e'))
    {
      if visits(g.PixOf(b, e)) { return true, e, count; }
      count := count - 1;
      e := e + 1;
    }
    return false, e, count;
  }

  /** Nothing that the search has looked at is a match. */
  ghost predicate NoneSeen(g: Geo, s0: nat, e0: nat, b: nat, e: nat, wrapped: bool, all: bool, visits: nat -> bool) {
    forall b', e' :: Passed(g, s0, e0, b, e, wrapped, all, b', e') ==> !visits(g.PixOf(b', e'))
  }

  lemma SeenStart(g: Geo, s0: nat, e0: nat, visits: nat -> bool)
    ensures NoneSeen(g, s0, e0, s0, e0, false, false, visits)
  {
  }

  /** A stretch of block b has been looked at. */
  lemma SeenRow(g: Geo, s0: nat, e0: nat, b: nat, from: nat, e: nat, wrapped: bool, visits: nat -> bool)
    requires NoneSeen(g, s0, e0, b, from, wrapped, false, visits)
    requires forall e' :: from <= e' < e ==> !visits(g.PixOf(b, e'))
    ensures NoneSeen(g, s0, e0, b, e, wrapped, false, visits)
  {
    forall b': nat, e': nat | Passed(g, s0, e0, b, e, wrapped, false, b', e') ensures !visits(g.PixOf(b', e')) {
      assert (b' == b && from <= e' < e) || Passed(g, s0, e0, b, from, wrapped, false, b', e');
    }
  }

  /** From the end of a block to the start of the next, or of the first. */
  lemma SeenNext(g: Geo, s0: nat, e0: nat, b: nat, wrapped: bool, visits: nat -> bool)
    requires g.Valid() && NoneSeen(g, s0, e0, b, g.Entries(), wrapped, false, visits) && b < g.blocks
    ensures NoneSeen(g, s0, e0, b + 1, 0, wrapped, false, visits)
    ensures b + 1 == g.blocks ==> NoneSeen(g, s0, e0, 0, 0, true, false, visits)
    ensures wrapped && s0 <= b ==> forall b'': nat, e'': nat :: NoneSeen(g, s0, e0, b'', e'', true, true, visits)
  {
    forall b', e' | IsEntry(g, b', e')
      ensures Passed(g, s0, e0, b + 1, 0, wrapped, false, b', e') ==> Passed(g, s0, e0, b, g.Entries(), wrapped, false, b', e')
      ensures b + 1 == g.blocks && Passed(g, s0, e0, 0, 0, true, false, b', e') ==>
                Passed(g, s0, e0, b, g.Entries(), wrapped, false, b', e')
      ensures wrapped && s0 <= b ==> Passed(g, s0, e0, b, g.Entries(), wrapped, false, b', e')
    {
    }
  }

  /** A match where the search stands is the first in cyclic order. */
  lemma SeenFirst(g: Geo, s0: nat, e0: nat, b: nat, e: nat, wrapped: bool, visits: nat -> bool)
    requires NoneSeen(g, s0, e0, b, e, wrapped, false, visits) && IsEntry(g, b, e) && visits(g.PixOf(b, e))
    requires !wrapped ==> !Precedes(b, e, s0, e0)
    ensures forall b', e' :: IsEntry(g, b', e') && visits(g.PixOf(b', e')) ==> !ReachedBefore(s0, e0, b', e', b, e)
  {
    assert !wrapped || Precedes(b, e, s0, e0) || Passed(g, s0, e0, b, e, wrapped, false, b, e);
    forall b', e' | IsEntry(g, b', e') && ReachedBefore(s0, e0, b', e', b, e) ensures !visits(g.PixOf(b', e')) {
      assert Passed(g, s0, e0, b, e, wrapped, false, b', e');
    }
  }

  /** Without wrapping, a search that has come to the end has seen all from its start on. */
  lemma SeenToEnd(g: Geo, s0: nat, e0: nat, visits: nat -> bool)
    requires NoneSeen(g, s0, e0, g.blocks, 0, false, false, visits)
    ensures forall b', e' :: IsEntry(g, b', e') && visits(g.PixOf(b', e')) ==> Precedes(b', e', s0, e0)
  {
    forall b', e' | IsEntry(g, b', e') && !Precedes(b', e', s0, e0) ensures !visits(g.PixOf(b', e')) {
      assert Passed(g, s0, e0, g.blocks, 0, false, false, b', e');
    }
  }

  /** Once around, everything has been seen. */
  lemma SeenAll(g: Geo, s0: nat, e0: nat, b: nat, e: nat, all: bool, visits: nat -> bool)
    requires NoneSeen(g, s0, e0, b, e, true, all, visits) && (all || (b == s0 && e == e0))
    ensures forall b', e' :: IsEntry(g, b', e') ==> !visits(g.PixOf(b', e'))
  {
    forall b', e' | IsEntry(g, b', e') ensures !visits(g.PixOf(b', e')) {
      assert Passed(g, s0, e0, b, e, true, all, b', e');
    }
  }

  /** The wrapping search returns the first match in cyclic order, and fails only if nothing matches;
      without wrapping it fails if nothing from the starting entry on matches. */
  method FindEntry(g: Geo, sb: nat, se: nat, noWrap: bool, visits: nat -> bool)
    returns (found: bool, b: nat, e: nat)
    requires g.Valid() && sb < g.blocks
    ensures found ==> IsEntry(g, b, e) && visits(g.PixOf(b, e))
    ensures found ==> forall b', e' :: IsEntry(g, b', e') && visits(g.PixOf(b', e')) ==>
                                         !ReachedBefore(StartBlock(g, sb, se), StartEntry(g, se), b', e', b, e)
    ensures !found ==> forall b', e' :: IsEntry(g, b', e') && visits(g.PixOf(b', e')) ==>
                                          noWrap && Precedes(b', e', sb, se)
    ensures found && noWrap ==> !Precedes(b, e, sb, se)
  {
    hide Passed, NoneSeen, ReachedBefore;
    var len := g.ppb - g.lup;
    var count: int := EntryCount(len, g.blocks);
    b, e := sb, se;
    if e > len - 1 {
      e, b := 0, b + 1;
      if b >= g.blocks {
        if noWrap { return false, b, e; }
        b := 0;
      }
    }
    ghost var s0, e0 := b, e;
    SeenStart(g, s0, e0, visits);
    // whether the search has wrapped around, and whether it has been through all the blocks
    ghost var wrapped, all := false, false;
    while count > 0
      invariant b < g.blocks && e < len
      invariant wrapped ==> !noWrap && e == 0
      invariant !wrapped ==> (s0 < b && e == 0) || (b == s0 && e == e0)
      invariant all ==> wrapped && count <= 0
      invariant !all ==> count + Rows(len, b) + e ==
                         Rows(len, s0) + e0 + (if wrapped then 0 else Rows(len, g.blocks))
      invariant wrapped ==> all || b <= s0
      invariant NoneSeen(g, s0, e0, b, e, wrapped, all, visits)
      decreases count
    {
      ghost var at := e;
      found, e, count := ScanRow(g, b, e, count, visits);
      SeenRow(g, s0, e0, b, at, e, wrapped, visits);
      if found {
        SeenFirst(g, s0, e0, b, e, wrapped, visits);
        return;
      }
      SeenNext(g, s0, e0, b, wrapped, visits);
      RowsMono(len, b + 1, g.blocks);
      if wrapped && s0 <= b {
        RowsMono(len, s0, b);
        all := true;
      }
      e, b := 0, b + 1;
      if b >= g.blocks {
        if noWrap {
          SeenToEnd(g, s0, e0, visits);
          return false, b, e;
        }
        b := 0;
        wrapped := true;
      }
    }
    if !all {
      RowsMono(len, b, g.blocks);
      if wrapped { RowsMono(len, b, s0); }
    }
    SeenAll(g, s0, e0, b, e, all, visits);
    return false, b, e;
  }
}
