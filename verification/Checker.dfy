/** The consistency checker up to its first repair: when it touches nothing. */
module Checker {
  import opened Nor
  import opened Layout
  import opened Image
  import opened Core
  import opened Descriptors
  import opened State
  import opened Objects
  import opened Gc
  import opened Hydro
  import opened Mount
  import Search

  // ---------------------------------------------------------------- lookup entries against page headers

  function OrIx(e: half): half { if e < IX_FLAG then e + IX_FLAG else e }

  /** spiffs_lookup_check_validate has nothing to do for a lookup entry and the header of its page. */
  predicate LuAgrees(e: half, h: Page) {
    && !(e == DELETED_ID && h.flags.delet)
    && !(e == FREE_ID && !h.flags.used)
    && (Live(e) ==> OrIx(h.id) == OrIx(e) && IsIx(e) == !h.flags.index && h.flags.delet && !h.flags.final)
  }

  /** The lookup check finds something to repair exactly when some entry disagrees with its page. */
  method LookupCheck(g: Geo, ghost P: set<nat>, lu: seq<half>, pages: seq<Page>) returns (repair: bool)
    requires Entries(g, P) && |lu| == |pages| == g.Pages()
    ensures !repair <==> forall p :: p in P ==> LuAgrees(lu[p], pages[p])
  {
    var b, e;
    repair, b, e := Search.FindEntry(g, 0, 0, false,
                                     (x: nat) => x < |lu| && x < |pages| && !LuAgrees(lu[x], pages[x]));
    if !repair {
      forall p | p in P ensures LuAgrees(lu[p], pages[p]) {
        assert Search.IsEntry(g, g.BlockOf(p), g.EntryOf(p));
      }
    }
  }

  // ---------------------------------------------------------------- index pages

  /** An index page the index check passes over without looking for its header. */
  predicate IxOrdinary(e: half, h: Page) {
    Live(e) && IsIx(e) ==> !h.flags.index && !h.flags.final && h.flags.delet && h.flags.ixdele
  }

  /** The index check looks further at a page exactly when it is an index page with other flags than
      those of an index page in use; whether the header of an index page exists plays no part. */
  method IndexCheck(g: Geo, ghost P: set<nat>, lu: seq<half>, pages: seq<Page>) returns (examined: bool)
    requires Entries(g, P) && |lu| == |pages| == g.Pages()
    ensures !examined <==> forall p :: p in P ==> IxOrdinary(lu[p], pages[p])
  {
    var b, e;
    examined, b, e := Search.FindEntry(g, 0, 0, false,
                                       (x: nat) => x < |lu| && x < |pages| && !IxOrdinary(lu[x], pages[x]));
    if !examined {
      forall p | p in P ensures IxOrdinary(lu[p], pages[p]) {
        assert Search.IsEntry(g, g.BlockOf(p), g.EntryOf(p));
      }
    }
  }

  // ---------------------------------------------------------------- pages and references

  predicate Used(h: Page) { h.flags.delet && !h.flags.used }

  predicate IxLive(h: Page) { h.flags.delet && h.flags.ixdele && !h.flags.index && !h.flags.used }

  predicate InRange(q: nat, off: nat, n: nat) { off <= q < off + n }

  /** Slot i of page p is a slot of an index page in use. */
  ghost predicate IsRef(g: Geo, P: set<nat>, pages: seq<Page>, p: nat, i: nat) {
    && p in P && p < |pages| && IxLive(pages[p]) && i < g.Slots(pages[p].span) && i < |pages[p].slots|
  }

  /** Two slots name the same page. */
  ghost predicate SameTarget(g: Geo, P: set<nat>, pages: seq<Page>, p: nat, i: nat, p': nat, i': nat) {
    && IsRef(g, P, pages, p, i) && IsRef(g, P, pages, p', i')
    && Target(pages, p, i) == Target(pages, p', i')
  }

  function Target(pages: seq<Page>, p: nat, i: nat): half {
    if p < |pages| && i < |pages[p].slots| then pages[p].slots[i] else FREE_PIX
  }

  /** A slot that names a page beyond the flash, or a lookup page in the range. */
  predicate BadRef(g: Geo, r: half, off: nat, n: nat)
    requires 0 < g.ppb
  {
    (r != FREE_PIX && r as nat > g.Pages()) || (InRange(r, off, n) && g.IsLookup(r))
  }

  /** The header of the page named by slot i of an index page is that of the data page it stands for. */
  predicate HeaderFits(g: Geo, ix: Page, i: nat, h: Page) {
    h.id == IdOf(ix.id) && h.span as nat == g.First(ix.span) + i && h.flags.delet && h.flags.index && !h.flags.used
  }

  predicate RefFine(g: Geo, pages: seq<Page>, p: nat, i: nat, off: nat, n: nat)
    requires 0 < g.ppb
  {
    var r := Target(pages, p, i);
    && p < |pages|
    && !BadRef(g, r, off, n)
    && (InRange(r, off, n) ==> r as nat < |pages| && HeaderFits(g, pages[p], i, pages[r]))
  }

  /** A range of pages the page check leaves alone: what is referenced in it is what the index says and is
      referenced once, and every page in use is an index page or referenced. */
  ghost predicate RangeOk(g: Geo, P: set<nat>, pages: seq<Page>, off: nat, n: nat)
    requires 0 < g.ppb
  {
    && (forall p, i :: IsRef(g, P, pages, p, i) ==> RefFine(g, pages, p, i, off, n))
    && (forall p, i, p', i' :: SameTarget(g, P, pages, p, i, p', i') && InRange(Target(pages, p, i), off, n) ==>
                                 p == p' && i == i')
    && (forall q :: q in P && InRange(q, off, n) && q < |pages| && Used(pages[q]) && !IxLive(pages[q]) ==>
                      exists p, i :: IsRef(g, P, pages, p, i) && Target(pages, p, i) as nat == q)
  }

  // ---------------------------------------------------------------- flash that represents a directory

  /** The last range ends where page numbers still fit: a free slot, 0xFFFF, is in no range. */
  predicate RangeFits(off: nat, n: nat) { off + n <= FREE_PIX as nat }

  /** What owns a live page. */
  lemma LiveIs(g: Geo, P: set<nat>, lu: seq<half>, pages: seq<Page>, dir: Dir, p: nat)
    requires FlashOk(g, P, lu, pages) && Rep(g, P, lu, pages, dir, {}) && NoneDoomed(dir) && p in P && Live(lu[p])
    ensures var id, k := IdOf(lu[p]), pages[p].span;
            && id in dir
            && (IsIx(lu[p]) ==>
                  && k as nat < |dir[id].ix| && dir[id].ix[k] as nat == p
                  && IxOk(g, P, lu, pages, {}, id, dir[id], k as nat)
                  && pages[p] == IxPage(g, id, dir[id], k as nat) && pages[p].flags == INDEX_FLAGS)
            && (!IsIx(lu[p]) ==>
                  && k as nat < |dir[id].data| && dir[id].data[k] as nat == p
                  && DataOk(g, P, lu, pages, id, dir[id], k as nat)
                  && pages[p].flags == DATA_FLAGS && pages[p].id == id)
  {
    assert Owned(lu[p], pages[p].span, p, dir);
  }

  /** Lookup entries and headers agree, and every index page has ordinary flags. */
  lemma HealthyEntries(g: Geo, P: set<nat>, lu: seq<half>, pages: seq<Page>, dir: Dir)
    requires FlashOk(g, P, lu, pages) && Rep(g, P, lu, pages, dir, {}) && NoneDoomed(dir)
    ensures forall p :: p in P ==> LuAgrees(lu[p], pages[p]) && IxOrdinary(lu[p], pages[p])
  {
    forall p | p in P ensures LuAgrees(lu[p], pages[p]) && IxOrdinary(lu[p], pages[p]) {
      if Live(lu[p]) { LiveIs(g, P, lu, pages, dir, p); }
    }
  }

  /** The header of a page tells its entry: any other value in its place would be found. */
  lemma EntryTold(g: Geo, P: set<nat>, lu: seq<half>, pages: seq<Page>, dir: Dir, p: nat, v: half)
    requires FlashOk(g, P, lu, pages) && Rep(g, P, lu, pages, dir, {}) && NoneDoomed(dir) && p in P
    ensures LuAgrees(v, pages[p]) <==> v == lu[p]
  {
    if Live(lu[p]) { LiveIs(g, P, lu, pages, dir, p); }
  }

  /** The index pages that are looked at further are the headers of objects that are being deleted. */
  lemma OrdinaryExact(g: Geo, P: set<nat>, lu: seq<half>, pages: seq<Page>, dir: Dir)
    requires FlashOk(g, P, lu, pages) && Rep(g, P, lu, pages, dir, {})
    ensures (forall p :: p in P ==> IxOrdinary(lu[p], pages[p])) <==> NoneDoomed(dir)
  {
    if NoneDoomed(dir) {
      HealthyEntries(g, P, lu, pages, dir);
    } else {
      var id :| id in dir && dir[id].doomed;
      assert IxOk(g, P, lu, pages, {}, id, dir[id], 0);
      assert !IxOrdinary(lu[dir[id].ix[0]], pages[dir[id].ix[0]]);
    }
  }

  /** A slot of an index page in use belongs to an index page of an object. */
  lemma RefIs(g: Geo, P: set<nat>, lu: seq<half>, pages: seq<Page>, dir: Dir, p: nat, i: nat)
    requires FlashOk(g, P, lu, pages) && Rep(g, P, lu, pages, dir, {}) && NoneDoomed(dir) && IsRef(g, P, pages, p, i)
    ensures IsIx(lu[p]) && IdOf(lu[p]) in dir && pages[p].id == lu[p] && pages[p].span as nat < |dir[IdOf(lu[p])].ix|
    ensures dir[IdOf(lu[p])].ix[pages[p].span] as nat == p
    ensures Target(pages, p, i) == SlotAt(g, dir[IdOf(lu[p])].data, pages[p].span as nat, i)
  {
    assert Live(lu[p]);
    LiveIs(g, P, lu, pages, dir, p);
  }

  /** A slot names no page, or the data page it stands for. */
  lemma TargetIs(g: Geo, P: set<nat>, lu: seq<half>, pages: seq<Page>, dir: Dir, p: nat, i: nat)
    requires FlashOk(g, P, lu, pages) && Rep(g, P, lu, pages, dir, {}) && NoneDoomed(dir) && Unharmed(dir) && IsRef(g, P, pages, p, i)
    ensures var r, s, id := Target(pages, p, i), g.First(pages[p].span) + i, IdOf(lu[p]);
            r == FREE_PIX ||
            (r as nat in P && id in dir && s < |dir[id].data| && dir[id].data[s] == r && pages[r].id == id && pages[r].span as nat == s
             && pages[r].flags == DATA_FLAGS && pages[p].id == id + IX_FLAG)
  {
    RefIs(g, P, lu, pages, dir, p, i);
    var id, s := IdOf(lu[p]), g.First(pages[p].span) + i;
    if Target(pages, p, i) != FREE_PIX { assert DataOk(g, P, lu, pages, id, dir[id], s); }
  }

  /** The slot that stands for page s of an object. */
  lemma SlotOfPage(g: Geo, P: set<nat>, lu: seq<half>, pages: seq<Page>, dir: Dir, id: half, s: nat)
    requires FlashOk(g, P, lu, pages) && Rep(g, P, lu, pages, dir, {}) && NoneDoomed(dir) && g.Valid() && id in dir && s < |dir[id].data|
    ensures g.IxOf(s) < |dir[id].ix| && id < IX_FLAG
    ensures var p := dir[id].ix[g.IxOf(s)] as nat;
            && IsRef(g, P, pages, p, g.SlotOf(s)) && Target(pages, p, g.SlotOf(s)) == dir[id].data[s]
            && pages[p].id == id + IX_FLAG && g.First(pages[p].span) + g.SlotOf(s) == s
  {
    var k := g.IxOf(s);
    IxCovers(g, dir[id], s);
    SlotLaw(g, s);
    assert IxOk(g, P, lu, pages, {}, id, dir[id], k);
    assert pages[dir[id].ix[k]] == IxPage(g, id, dir[id], k);
  }

  /** No page passes for a lost one. */
  lemma NoneFits(g: Geo, P: set<nat>, lu: seq<half>, pages: seq<Page>, dir: Dir, id: half, s: nat, ix: Page, i: nat, q: nat)
    requires FlashOk(g, P, lu, pages) && Rep(g, P, lu, pages, dir, {}) && NoneDoomed(dir)
    requires id in dir && s in dir[id].lost && ix.id == id + IX_FLAG && g.First(ix.span) + i == s && q in P
    ensures !HeaderFits(g, ix, i, pages[q])
  {
    if HeaderFits(g, ix, i, pages[q]) {
      assert Live(lu[q]);
      LiveIs(g, P, lu, pages, dir, q);
      LostIsGone(g, P, lu, pages, dir, {}, id, s, q);
    }
  }

  lemma PageIn(g: Geo, P: set<nat>, q: nat)
    requires Entries(g, P) && q < g.Pages() && !g.IsLookup(q)
    ensures q in P
  {
    DataPagesIn(g, q);
    EntryOfPage(g, q);
  }

  /** A page check that comes to the page which an index names in place of a lost one does not leave it alone. */
  lemma LostIsFound(g: Geo, P: set<nat>, lu: seq<half>, pages: seq<Page>, dir: Dir, id: half, s: nat, off: nat, n: nat)
    requires FlashOk(g, P, lu, pages) && Rep(g, P, lu, pages, dir, {}) && NoneDoomed(dir) && g.Valid()
    requires id in dir && s in dir[id].lost && s < |dir[id].data|
    requires dir[id].data[s] != FREE_PIX && InRange(dir[id].data[s] as nat, off, n)
    ensures !RangeOk(g, P, pages, off, n)
  {
    hide RangeOk, Rep, NoneDoomed, HeaderFits, IsRef;
    SlotOfPage(g, P, lu, pages, dir, id, s);
    var p, j, q := dir[id].ix[g.IxOf(s)] as nat, g.SlotOf(s), dir[id].data[s];
    LastPageIsLookup(g);
    if q as nat < g.Pages() && !g.IsLookup(q) { PageIn(g, P, q as nat); }
    if q as nat in P { NoneFits(g, P, lu, pages, dir, id, s, pages[p], j, q as nat); }
    NotFine(g, P, pages, p, j, off, n);
  }

  lemma NotFine(g: Geo, P: set<nat>, pages: seq<Page>, p: nat, i: nat, off: nat, n: nat)
    requires 0 < g.ppb && IsRef(g, P, pages, p, i) && !RefFine(g, pages, p, i, off, n)
    ensures !RangeOk(g, P, pages, off, n)
  {
  }

  lemma HealthyRefs(g: Geo, P: set<nat>, lu: seq<half>, pages: seq<Page>, dir: Dir, p: nat, i: nat, off: nat, n: nat)
    requires FlashOk(g, P, lu, pages) && Rep(g, P, lu, pages, dir, {}) && NoneDoomed(dir) && Unharmed(dir) && RangeFits(off, n)
    requires IsRef(g, P, pages, p, i)
    ensures RefFine(g, pages, p, i, off, n)
  {
    hide Rep, DataOk, SlotAt;
    TargetIs(g, P, lu, pages, dir, p, i);
    if Target(pages, p, i) != FREE_PIX { LookupByEntry(g, Target(pages, p, i)); }
  }

  lemma HealthyOnce(g: Geo, P: set<nat>, lu: seq<half>, pages: seq<Page>, dir: Dir, p: nat, i: nat, p': nat, i': nat)
    requires FlashOk(g, P, lu, pages) && Rep(g, P, lu, pages, dir, {}) && NoneDoomed(dir) && Unharmed(dir)
    requires SameTarget(g, P, pages, p, i, p', i') && Target(pages, p, i) != FREE_PIX
    ensures p == p' && i == i'
  {
    hide Rep, DataOk, SlotAt;
    TargetIs(g, P, lu, pages, dir, p, i);
    TargetIs(g, P, lu, pages, dir, p', i');
    RefIs(g, P, lu, pages, dir, p, i);
    RefIs(g, P, lu, pages, dir, p', i');
    SlotUnique(g, g.First(pages[p].span) + i, pages[p].span, i);
    SlotUnique(g, g.First(pages[p'].span) + i', pages[p'].span, i');
  }

  lemma HealthyReferenced(g: Geo, P: set<nat>, lu: seq<half>, pages: seq<Page>, dir: Dir, q: nat)
    requires FlashOk(g, P, lu, pages) && Rep(g, P, lu, pages, dir, {}) && NoneDoomed(dir)
    requires q in P && Used(pages[q]) && !IxLive(pages[q])
    ensures exists p, i :: IsRef(g, P, pages, p, i) && Target(pages, p, i) as nat == q
  {
    assert Live(lu[q]);
    LiveIs(g, P, lu, pages, dir, q);
    var id, s := IdOf(lu[q]), pages[q].span as nat;
    var k, j := g.IxOf(s), g.SlotOf(s);
    IxCovers(g, dir[id], s);
    SlotLaw(g, s);
    assert IxOk(g, P, lu, pages, {}, id, dir[id], k);
    var p := dir[id].ix[k] as nat;
    assert pages[p] == IxPage(g, id, dir[id], k) && pages[p].slots[j] as nat == q;
    assert IsRef(g, P, pages, p, j);
  }

  /** Every range of pages that fits is left alone. */
  lemma HealthyRange(g: Geo, P: set<nat>, lu: seq<half>, pages: seq<Page>, dir: Dir, off: nat, n: nat)
    requires FlashOk(g, P, lu, pages) && Rep(g, P, lu, pages, dir, {}) && NoneDoomed(dir) && Unharmed(dir) && RangeFits(off, n)
    ensures g.Valid() && RangeOk(g, P, pages, off, n)
  {
    hide Rep, NoneDoomed, RefFine, SameTarget, Used, IxLive;
    forall p, i | IsRef(g, P, pages, p, i) ensures RefFine(g, pages, p, i, off, n) {
      HealthyRefs(g, P, lu, pages, dir, p, i, off, n);
    }
    forall p, i, p', i' | SameTarget(g, P, pages, p, i, p', i') && InRange(Target(pages, p, i), off, n)
      ensures p == p' && i == i'
    {
      HealthyOnce(g, P, lu, pages, dir, p, i, p', i');
    }
    forall q | q in P && InRange(q, off, n) && q < |pages| && Used(pages[q]) && !IxLive(pages[q])
      ensures exists p, i :: IsRef(g, P, pages, p, i) && Target(pages, p, i) as nat == q
    {
      HealthyReferenced(g, P, lu, pages, dir, q);
    }
  }

  /** A range that reaches page number 0xFFFF takes a free slot for a reference: then the check leaves
      healthy flash alone exactly if no slot is free. */
  lemma RangeExact(g: Geo, P: set<nat>, lu: seq<half>, pages: seq<Page>, dir: Dir, off: nat, n: nat)
    requires FlashOk(g, P, lu, pages) && Rep(g, P, lu, pages, dir, {}) && NoneDoomed(dir) && Unharmed(dir) && off <= FREE_PIX as nat
    ensures g.Valid()
    ensures RangeOk(g, P, pages, off, n) <==>
              RangeFits(off, n) || forall p, i :: IsRef(g, P, pages, p, i) ==> Target(pages, p, i) != FREE_PIX
  {
    hide Rep, NoneDoomed, SameTarget, Used, IxLive;
    if RangeFits(off, n) {
      HealthyRange(g, P, lu, pages, dir, off, n);
    } else if forall p, i :: IsRef(g, P, pages, p, i) ==> Target(pages, p, i) != FREE_PIX {
      FullRange(g, P, lu, pages, dir, off, n);
    } else {
      var p, i :| IsRef(g, P, pages, p, i) && Target(pages, p, i) == FREE_PIX;
      assert !RefFine(g, pages, p, i, off, n);
    }
  }

  lemma FullRange(g: Geo, P: set<nat>, lu: seq<half>, pages: seq<Page>, dir: Dir, off: nat, n: nat)
    requires FlashOk(g, P, lu, pages) && Rep(g, P, lu, pages, dir, {}) && NoneDoomed(dir) && Unharmed(dir)
    requires forall p, i :: IsRef(g, P, pages, p, i) ==> Target(pages, p, i) != FREE_PIX
    ensures g.Valid() && RangeOk(g, P, pages, off, n)
  {
    hide Rep, NoneDoomed, RefFine, SameTarget, Used, IxLive;
    forall p, i | IsRef(g, P, pages, p, i) ensures RefFine(g, pages, p, i, off, n) {
      NamedRefs(g, P, lu, pages, dir, p, i, off, n);
    }
    forall p, i, p', i' | SameTarget(g, P, pages, p, i, p', i') ensures p == p' && i == i' {
      SameIsRef(g, P, pages, p, i, p', i');
      HealthyOnce(g, P, lu, pages, dir, p, i, p', i');
    }
    forall q | q in P && InRange(q, off, n) && q < |pages| && Used(pages[q]) && !IxLive(pages[q])
      ensures exists p, i :: IsRef(g, P, pages, p, i) && Target(pages, p, i) as nat == q
    {
      HealthyReferenced(g, P, lu, pages, dir, q);
    }
  }

  lemma SameIsRef(g: Geo, P: set<nat>, pages: seq<Page>, p: nat, i: nat, p': nat, i': nat)
    requires SameTarget(g, P, pages, p, i, p', i')
    ensures IsRef(g, P, pages, p, i)
  {
  }

  lemma NamedRefs(g: Geo, P: set<nat>, lu: seq<half>, pages: seq<Page>, dir: Dir, p: nat, i: nat, off: nat, n: nat)
    requires FlashOk(g, P, lu, pages) && Rep(g, P, lu, pages, dir, {}) && NoneDoomed(dir) && Unharmed(dir)
    requires IsRef(g, P, pages, p, i) && Target(pages, p, i) != FREE_PIX
    ensures RefFine(g, pages, p, i, off, n)
  {
    hide Rep, DataOk, SlotAt;
    TargetIs(g, P, lu, pages, dir, p, i);
    LookupByEntry(g, Target(pages, p, i));
  }

  // ---------------------------------------------------------------- the bitmap

  /** Bit j of the four bits of a page, the first or second page of its byte. */
  function Mask(second: bool, j: nat): bv8 {
    if second then (if j == 0 then 0x10 else if j == 1 then 0x20 else 0x40)
    else (if j == 0 then 0x01 else if j == 1 then 0x02 else 0x04)
  }

  predicate Bit(b: bv8, second: bool, j: nat) { b & Mask(second, j) != 0 }

  function Bits(b: bv8, second: bool): bv8 { (if second then b >> 4 else b) & 7 }

  lemma SetBit(b: bv8, second: bool, j: nat, second': bool, j': nat)
    requires j < 3 && j' < 3
    ensures Bit(b | Mask(second, j), second', j') <==> (second == second' && j == j') || Bit(b, second', j')
  {
  }

  /** In use, not referenced, not an index page. */
  lemma BitsOne(b: bv8, second: bool)
    ensures Bits(b, second) == 1 <==> Bit(b, second, 0) && !Bit(b, second, 1) && !Bit(b, second, 2)
  {
  }

  /** Bit j of page q in the bitmap of the range that starts at `off`: two pages in a byte. */
  predicate PageBit(w: seq<bv8>, off: nat, q: nat, j: nat) {
    off <= q && (q - off) / 2 < |w| && Bit(w[(q - off) / 2], q % 2 == 1, j)
  }

  /** The three marks of every page of the range. */
  ghost predicate Marks(w: seq<bv8>, off: nat, used: set<nat>, refs: set<nat>, ixs: set<nat>) {
    forall q :: InRange(q, off, 2 * |w|) ==>
                  && PageBit(w, off, q, 0) == (q in used)
                  && PageBit(w, off, q, 1) == (q in refs)
                  && PageBit(w, off, q, 2) == (q in ixs)
  }

  /** Which page of which byte: an even start keeps pairs together. */
  lemma SamePlace(off: nat, q: nat, q': nat)
    requires off % 2 == 0 && off <= q && off <= q'
    ensures (q - off) / 2 == (q' - off) / 2 && (q % 2 == 1) == (q' % 2 == 1) ==> q == q'
  {
  }

  lemma PlaceFits(off: nat, q: nat, len: nat)
    requires InRange(q, off, 2 * len)
    ensures (q - off) / 2 < len
  {
  }

  method Mark(w: array<bv8>, off: nat, q: nat, j: nat)
    requires off % 2 == 0 && InRange(q, off, 2 * w.Length) && j < 3
    modifies w
    ensures forall q', j' :: InRange(q', off, 2 * w.Length) && j' < 3 ==>
                               PageBit(w[..], off, q', j') == ((q' == q && j' == j) || PageBit(old(w[..]), off, q', j'))
  {
    hide Bit;
    PlaceFits(off, q, w.Length);
    var x := (q - off) / 2;
    var second := q % 2 == 1;
    w[x] := w[x] | Mask(second, j);
    forall q', j' | InRange(q', off, 2 * w.Length) && j' < 3
      ensures PageBit(w[..], off, q', j') == ((q' == q && j' == j) || PageBit(old(w[..]), off, q', j'))
    {
      PlaceFits(off, q', w.Length);
      SamePlace(off, q, q');
      SetBit(old(w[x]), second, j, q' % 2 == 1, j');
    }
  }

  // ---------------------------------------------------------------- building the bitmap

  /** Slot i' of page p' has been visited by a scan that has finished the pages `done` and the slots below i
      of page p. */
  ghost predicate Visited(done: set<nat>, p: nat, i: nat, p': nat, i': nat) { p' in done || (p' == p && i' < i) }

  /** The references visited are fine, and `seen` tells for every page of the range which one names it. */
  ghost predicate Seen(g: Geo, P: set<nat>, pages: seq<Page>, off: nat, n: nat, done: set<nat>, p: nat, i: nat,
                       seen: map<nat, (nat, nat)>)
    requires 0 < g.ppb
  {
    && (forall p': nat, i': nat :: IsRef(g, P, pages, p', i') && Visited(done, p, i, p', i') ==>
                           && RefFine(g, pages, p', i', off, n)
                           && (InRange(Target(pages, p', i'), off, n) ==>
                                 Target(pages, p', i') as nat in seen && seen[Target(pages, p', i') as nat] == (p', i')))
    && (forall q :: q in seen ==>
                      && IsRef(g, P, pages, seen[q].0, seen[q].1) && Target(pages, seen[q].0, seen[q].1) as nat == q
                      && InRange(q, off, n) && Visited(done, p, i, seen[q].0, seen[q].1))
  }

  /** One slot that is no reference into the range, or a fine one. */
  lemma SeenStep(g: Geo, P: set<nat>, pages: seq<Page>, off: nat, n: nat, done: set<nat>, p: nat, i: nat,
                 seen: map<nat, (nat, nat)>)
    requires 0 < g.ppb && Seen(g, P, pages, off, n, done, p, i, seen) && IsRef(g, P, pages, p, i) && p !in done
    requires RefFine(g, pages, p, i, off, n)
    requires InRange(Target(pages, p, i), off, n) ==> Target(pages, p, i) as nat !in seen
    ensures var seen' := if InRange(Target(pages, p, i), off, n) then seen[Target(pages, p, i) as nat := (p, i)] else seen;
            Seen(g, P, pages, off, n, done, p, i + 1, seen')
  {
    hide IsRef, RefFine;
    var t := Target(pages, p, i);
    var seen' := if InRange(t, off, n) then seen[t as nat := (p, i)] else seen;
    forall p': nat, i': nat | IsRef(g, P, pages, p', i') && Visited(done, p, i + 1, p', i')
      ensures RefFine(g, pages, p', i', off, n)
      ensures InRange(Target(pages, p', i'), off, n) ==>
                Target(pages, p', i') as nat in seen' && seen'[Target(pages, p', i') as nat] == (p', i')
    {
      if !Visited(done, p, i, p', i') { assert p' == p && i' == i; }
    }
  }

  /** A second reference to the same page. */
  lemma SeenTwice(g: Geo, P: set<nat>, pages: seq<Page>, off: nat, n: nat, done: set<nat>, p: nat, i: nat,
                  seen: map<nat, (nat, nat)>)
    requires 0 < g.ppb && Seen(g, P, pages, off, n, done, p, i, seen) && IsRef(g, P, pages, p, i) && p !in done
    requires InRange(Target(pages, p, i), off, n) && Target(pages, p, i) as nat in seen
    ensures !RangeOk(g, P, pages, off, n)
  {
    hide IsRef, RefFine;
    var q := Target(pages, p, i) as nat;
    assert SameTarget(g, P, pages, p, i, seen[q].0, seen[q].1);
  }

  /** The reference in slot i of page p. */
  method VisitRef(g: Geo, ghost P: set<nat>, pages: seq<Page>, off: nat, w: array<bv8>, p: nat, i: nat,
                  ghost done: set<nat>, ghost used: set<nat>, ghost ixs: set<nat>, ghost seen: map<nat, (nat, nat)>)
    returns (repair: bool, ghost seen': map<nat, (nat, nat)>)
    requires 0 < g.ppb && off % 2 == 0 && IsRef(g, P, pages, p, i) && p !in done
    requires Seen(g, P, pages, off, 2 * w.Length, done, p, i, seen) && Marks(w[..], off, used, seen.Keys, ixs)
    modifies w
    ensures repair ==> !RangeOk(g, P, pages, off, 2 * w.Length)
    ensures !repair ==> Seen(g, P, pages, off, 2 * w.Length, done, p, i + 1, seen')
    ensures !repair ==> Marks(w[..], off, used, seen'.Keys, ixs)
  {
    hide Seen, PageBit, RangeOk, IsRef;
    RefHere(g, P, pages, p, i);
    RefNotFine(g, P, pages, p, i, off, 2 * w.Length);
    seen' := seen;
    var n := 2 * w.Length;
    var r := pages[p].slots[i];
    if BadRef(g, r, off, n) { return true, seen'; }
    if InRange(r, off, n) {
      if r as nat >= |pages| || !HeaderFits(g, pages[p], i, pages[r]) { return true, seen'; }
      if PageBit(w[..], off, r, 1) {
        SeenTwice(g, P, pages, off, n, done, p, i, seen);
        return true, seen';
      }
      SeenStep(g, P, pages, off, n, done, p, i, seen);
      Mark(w, off, r, 1);
      seen' := seen[r as nat := (p, i)];
    } else {
      SeenStep(g, P, pages, off, n, done, p, i, seen);
    }
    repair := false;
  }

  lemma RefHere(g: Geo, P: set<nat>, pages: seq<Page>, p: nat, i: nat)
    requires IsRef(g, P, pages, p, i)
    ensures p < |pages| && i < |pages[p].slots| && Target(pages, p, i) == pages[p].slots[i]
  {
  }

  lemma RefNotFine(g: Geo, P: set<nat>, pages: seq<Page>, p: nat, i: nat, off: nat, n: nat)
    requires 0 < g.ppb && IsRef(g, P, pages, p, i)
    ensures p < |pages| && (!RefFine(g, pages, p, i, off, n) ==> !RangeOk(g, P, pages, off, n))
  {
  }

  /** What the bitmap holds of the pages `done`. */
  ghost predicate Built(g: Geo, P: set<nat>, pages: seq<Page>, off: nat, w: seq<bv8>, done: set<nat>,
                        seen: map<nat, (nat, nat)>)
    requires 0 < g.ppb
  {
    && Seen(g, P, pages, off, 2 * |w|, done, 0, 0, seen)
    && Marks(w, off, UsedIn(pages, done, off, 2 * |w|), seen.Keys, IxIn(pages, done, off, 2 * |w|))
  }

  ghost function UsedIn(pages: seq<Page>, done: set<nat>, off: nat, n: nat): set<nat> {
    set q | q in done && q < |pages| && InRange(q, off, n) && Used(pages[q])
  }

  ghost function IxIn(pages: seq<Page>, done: set<nat>, off: nat, n: nat): set<nat> {
    set q | q in done && q < |pages| && InRange(q, off, n) && IxLive(pages[q])
  }

  /** The marks a page gets for itself. */
  method MarkPage(pages: seq<Page>, off: nat, w: array<bv8>, p: nat, ghost done: set<nat>, ghost refs: set<nat>)
    requires off % 2 == 0 && p < |pages|
    requires Marks(w[..], off, UsedIn(pages, done, off, 2 * w.Length), refs, IxIn(pages, done, off, 2 * w.Length))
    modifies w
    ensures Marks(w[..], off, UsedIn(pages, done + {p}, off, 2 * w.Length), refs, IxIn(pages, done + {p}, off, 2 * w.Length))
  {
    hide PageBit;
    if InRange(p, off, 2 * w.Length) && Used(pages[p]) {
      Mark(w, off, p, 0);
    }
    if IxLive(pages[p]) && InRange(p, off, 2 * w.Length) {
      Mark(w, off, p, 2);
    }
  }

  lemma PageStart(g: Geo, P: set<nat>, pages: seq<Page>, off: nat, n: nat, done: set<nat>, p: nat,
                  seen: map<nat, (nat, nat)>)
    requires 0 < g.ppb && Seen(g, P, pages, off, n, done, 0, 0, seen)
    ensures Seen(g, P, pages, off, n, done, p, 0, seen)
  {
    hide IsRef, RefFine;
  }

  /** After the last slot, or without any, the page is done. */
  lemma PageDone(g: Geo, P: set<nat>, pages: seq<Page>, off: nat, n: nat, done: set<nat>, p: nat, i: nat,
                 seen: map<nat, (nat, nat)>)
    requires 0 < g.ppb && Seen(g, P, pages, off, n, done, p, i, seen)
    requires p < |pages| && (!IxLive(pages[p]) || i >= g.Slots(pages[p].span))
    ensures Seen(g, P, pages, off, n, done + {p}, 0, 0, seen)
  {
    hide RefFine;
    forall p': nat, i': nat | IsRef(g, P, pages, p', i') && Visited(done + {p}, 0, 0, p', i')
      ensures Visited(done, p, i, p', i')
    {
    }
  }

  /** One page: its own marks, and the references in it if it is an index page in use. */
  method VisitPage(g: Geo, ghost P: set<nat>, pages: seq<Page>, off: nat, w: array<bv8>, p: nat, ghost done: set<nat>,
                   ghost seen: map<nat, (nat, nat)>)
    returns (repair: bool, ghost seen': map<nat, (nat, nat)>)
    requires g.Valid() && off % 2 == 0 && p in P && p !in done && p < |pages| && PageShape(g, pages[p])
    requires Built(g, P, pages, off, w[..], done, seen)
    modifies w
    ensures repair ==> !RangeOk(g, P, pages, off, 2 * w.Length)
    ensures !repair ==> Built(g, P, pages, off, w[..], done + {p}, seen')
  {
    hide Seen, Marks, RangeOk, UsedIn, IxIn;
    PageStart(g, P, pages, off, 2 * w.Length, done, p, seen);
    MarkPage(pages, off, w, p, done, seen.Keys);
    ghost var used := UsedIn(pages, done + {p}, off, 2 * w.Length);
    ghost var ixs := IxIn(pages, done + {p}, off, 2 * w.Length);
    repair, seen' := false, seen;
    var i := 0;
    if IxLive(pages[p]) {
      while i < g.Slots(pages[p].span)
        invariant Seen(g, P, pages, off, 2 * w.Length, done, p, i, seen')
        invariant Marks(w[..], off, used, seen'.Keys, ixs)
      {
        repair, seen' := VisitRef(g, P, pages, off, w, p, i, done, used, ixs, seen');
        if repair { return; }
        i := i + 1;
      }
      repair := false;
    }
    PageDone(g, P, pages, off, 2 * w.Length, done, p, i, seen');
  }

  /** The pages the scan has left behind when it stands at entry (b, e). */
  lemma BehindNext(g: Geo, P: set<nat>, b: nat, e: nat)
    requires Entries(g, P) && b < g.blocks && e < g.Entries()
    ensures g.PixOf(b, e) in P && g.PixOf(b, e) !in Before(g, P, b, e) && g.PixOf(b, e) < g.Pages()
    ensures Before(g, P, b, e + 1) == Before(g, P, b, e) + {g.PixOf(b, e)}
  {
    BeforeNext(g, P, b, e);
  }

  lemma BehindRow(g: Geo, P: set<nat>, b: nat)
    requires Entries(g, P) && b < g.blocks
    ensures Before(g, P, b, g.Entries()) == Before(g, P, b + 1, 0)
  {
  }

  lemma BehindAll(g: Geo, P: set<nat>)
    requires Entries(g, P)
    ensures Before(g, P, 0, 0) == {} && Before(g, P, g.blocks, 0) == P
  {
  }

  /** The bitmap of a range, built from the pages of all blocks. */
  method BuildBitmap(g: Geo, ghost P: set<nat>, pages: seq<Page>, off: nat, w: array<bv8>)
    returns (repair: bool, ghost seen: map<nat, (nat, nat)>)
    requires g.Valid() && Entries(g, P) && |pages| == g.Pages() && off % 2 == 0
    requires forall p :: p in P ==> PageShape(g, pages[p])
    requires forall x :: 0 <= x < w.Length ==> w[x] == 0
    modifies w
    ensures repair ==> !RangeOk(g, P, pages, off, 2 * w.Length)
    ensures !repair ==> Built(g, P, pages, off, w[..], P, seen)
  {
    hide Entries, Built, RangeOk, Before, PageShape;
    repair, seen := false, map[];
    BehindAll(g, P);
    NothingBuilt(g, P, pages, off, w[..]);
    EntriesPositive(g, P);
    var b := 0;
    while b < g.blocks
      invariant b <= g.blocks && Built(g, P, pages, off, w[..], Before(g, P, b, 0), seen)
    {
      var e := 0;
      while e < g.Entries()
        invariant e <= g.Entries() && Built(g, P, pages, off, w[..], Before(g, P, b, e), seen)
      {
        BehindNext(g, P, b, e);
        repair, seen := VisitPage(g, P, pages, off, w, g.PixOf(b, e), Before(g, P, b, e), seen);
        if repair { return; }
        e := e + 1;
      }
      BehindRow(g, P, b);
      b := b + 1;
    }
    repair := false;
  }

  lemma EntriesPositive(g: Geo, P: set<nat>)
    requires Entries(g, P)
    ensures 0 < g.Entries()
  {
  }

  lemma NothingBuilt(g: Geo, P: set<nat>, pages: seq<Page>, off: nat, w: seq<bv8>)
    requires 0 < g.ppb && forall x :: 0 <= x < |w| ==> w[x] == 0
    ensures Built(g, P, pages, off, w, {}, map[])
  {
    hide Bit, IsRef, RefFine;
    forall q | InRange(q, off, 2 * |w|)
      ensures !PageBit(w, off, q, 0) && !PageBit(w, off, q, 1) && !PageBit(w, off, q, 2)
    {
      PlaceFits(off, q, |w|);
      ZeroBits(q % 2 == 1);
    }
  }

  lemma ZeroBits(second: bool)
    ensures !Bit(0, second, 0) && !Bit(0, second, 1) && !Bit(0, second, 2)
  {
  }

  // ---------------------------------------------------------------- reading the bitmap

  /** A page in use that is no index page and not referenced. */
  predicate Lost(w: seq<bv8>, off: nat, q: nat) {
    PageBit(w, off, q, 0) && !PageBit(w, off, q, 1) && !PageBit(w, off, q, 2)
  }

  /** The pass over the bitmap, two pages in a byte. */
  method CheckBitmap(w: array<bv8>, off: nat) returns (repair: bool)
    requires off % 2 == 0
    ensures repair <==> exists q :: InRange(q, off, 2 * w.Length) && Lost(w[..], off, q)
  {
    hide Bits, Lost;
    var x := 0;
    while x < w.Length
      invariant x <= w.Length
      invariant forall q :: InRange(q, off, 2 * x) ==> !Lost(w[..], off, q)
    {
      LostIs(w[..], off, x);
      if Bits(w[x], false) == 1 {
        assert InRange(off + 2 * x, off, 2 * w.Length);
        return true;
      }
      if Bits(w[x], true) == 1 {
        assert InRange(off + 2 * x + 1, off, 2 * w.Length);
        return true;
      }
      x := x + 1;
    }
    repair := false;
  }

  lemma LostIs(w: seq<bv8>, off: nat, x: nat)
    requires off % 2 == 0 && x < |w|
    ensures Lost(w, off, off + 2 * x) <==> Bits(w[x], false) == 1
    ensures Lost(w, off, off + 2 * x + 1) <==> Bits(w[x], true) == 1
  {
    hide Bit, Bits;
    assert (off + 2 * x - off) / 2 == x && (off + 2 * x + 1 - off) / 2 == x;
    BitsOne(w[x], false);
    BitsOne(w[x], true);
  }

  /** A finished bitmap without a lost page is the range being as it should. */
  lemma BuiltMeans(g: Geo, P: set<nat>, pages: seq<Page>, off: nat, w: seq<bv8>, seen: map<nat, (nat, nat)>)
    requires g.Valid() && (forall p :: p in P ==> p < |pages|) && Built(g, P, pages, off, w, P, seen)
    ensures RangeOk(g, P, pages, off, 2 * |w|) <==> !exists q :: InRange(q, off, 2 * |w|) && Lost(w, off, q)
  {
    hide Used, IxLive, RefFine, PageBit;
    var n := 2 * |w|;
    forall p: nat, i: nat | IsRef(g, P, pages, p, i)
      ensures RefFine(g, pages, p, i, off, n)
      ensures InRange(Target(pages, p, i), off, n) ==>
                Target(pages, p, i) as nat in seen && seen[Target(pages, p, i) as nat] == (p, i)
    {
      assert Visited(P, 0, 0, p, i);
    }
    if RangeOk(g, P, pages, off, n) {
      forall q | InRange(q, off, n) ensures !Lost(w, off, q) {
        LostMeans(g, P, pages, off, w, seen, q);
      }
    } else {
      var q :| q in P && InRange(q, off, n) && q < |pages| && Used(pages[q]) && !IxLive(pages[q])
               && !exists p, i :: IsRef(g, P, pages, p, i) && Target(pages, p, i) as nat == q;
      LostMeans(g, P, pages, off, w, seen, q);
    }
  }

  lemma LostMeans(g: Geo, P: set<nat>, pages: seq<Page>, off: nat, w: seq<bv8>, seen: map<nat, (nat, nat)>, q: nat)
    requires g.Valid() && (forall p :: p in P ==> p < |pages|) && Built(g, P, pages, off, w, P, seen)
    requires InRange(q, off, 2 * |w|)
    ensures Lost(w, off, q) <==> q in P && Used(pages[q]) && !IxLive(pages[q]) && q !in seen
    ensures q in seen <==> exists p, i :: IsRef(g, P, pages, p, i) && Target(pages, p, i) as nat == q
  {
    hide Used, IxLive, RefFine, PageBit;
    if q in seen {
      assert IsRef(g, P, pages, seen[q].0, seen[q].1);
    }
    forall p: nat, i: nat | IsRef(g, P, pages, p, i) && Target(pages, p, i) as nat == q ensures q in seen {
      assert Visited(P, 0, 0, p, i);
    }
  }

  /** One range: it is left alone exactly if it is as it should be. */
  method CheckRange(g: Geo, ghost P: set<nat>, pages: seq<Page>, off: nat, size: nat) returns (repair: bool)
    requires g.Valid() && Entries(g, P) && |pages| == g.Pages() && off % 2 == 0
    requires forall p :: p in P ==> PageShape(g, pages[p])
    ensures !repair <==> RangeOk(g, P, pages, off, 2 * size)
  {
    hide Built, RangeOk, PageShape, Lost;
    PagesBound(g, P);
    var w := new bv8[size](_ => 0);
    ghost var seen;
    repair, seen := BuildBitmap(g, P, pages, off, w);
    if !repair {
      BuiltMeans(g, P, pages, off, w[..], seen);
      repair := CheckBitmap(w, off);
    }
  }

  lemma PagesBound(g: Geo, P: set<nat>)
    requires Entries(g, P)
    ensures forall p :: p in P ==> p < g.Pages()
  {
  }

  // ---------------------------------------------------------------- the whole check

  /** Where range k would begin if page numbers had no end, and where it begins in 16 bits; n pages in a range. */
  function At(n: nat, k: nat): nat { k * n }

  function Off(n: nat, k: nat): half { At(n, k) % 0x1_0000 }

  lemma SameRest(a: nat, q: nat)
    ensures (q * 0x1_0000 + a) % 0x1_0000 == a % 0x1_0000
  {
    DivModUnique(q * 0x1_0000 + a, 0x1_0000, q + a / 0x1_0000, a % 0x1_0000);
  }

  lemma OffNext(n: nat, k: nat)
    ensures At(n, k + 1) == At(n, k) + n && Off(n, k + 1) == (Off(n, k) + n) % 0x1_0000
  {
    SameRest(Off(n, k) + n, At(n, k) / 0x1_0000);
    assert At(n, k + 1) == At(n, k) + n;
  }

  lemma OffEven(n: nat, k: nat)
    ensures Off(2 * n, k) % 2 == 0
  {
    assert At(2 * n, k) == k * n * 2;
  }

  lemma AtMono(n: nat, j: nat, k: nat)
    requires j <= k
    ensures At(n, j) <= At(n, k) && Off(n, 0) == 0 && (0 < n ==> k <= At(n, k))
  {
    MulMono(j, k, n);
    if 0 < n { MulMono(1, n, k); }
  }

  /** After 0x10000 ranges it is the same again. */
  lemma OffPeriod(n: nat, k: nat)
    ensures Off(n, k) == Off(n, k % 0x1_0000)
  {
    var q, r := k / 0x1_0000, k % 0x1_0000;
    assert At(n, k) == q * n * 0x1_0000 + At(n, r);
    SameRest(At(n, r), q * n);
  }

  /** Range k is checked and left alone, when the ranges before it are. */
  ghost predicate Passes(g: Geo, P: set<nat>, pages: seq<Page>, n: nat, k: nat)
    requires 0 < g.ppb
  {
    Off(n, k) < g.Pages() && RangeOk(g, P, pages, Off(n, k), n)
  }

  /** Range k is the first that is not. */
  ghost predicate StopsAt(g: Geo, P: set<nat>, pages: seq<Page>, n: nat, k: nat)
    requires 0 < g.ppb
  {
    !Passes(g, P, pages, n, k) && forall j :: 0 <= j < k ==> Passes(g, P, pages, n, j)
  }

  /** The check comes to its end, or to something to repair, or goes on for ever. */
  ghost predicate Finishes(g: Geo, P: set<nat>, pages: seq<Page>, n: nat) requires 0 < g.ppb {
    exists k: nat :: StopsAt(g, P, pages, n, k) && Off(n, k) >= g.Pages()
  }

  ghost predicate Stumbles(g: Geo, P: set<nat>, pages: seq<Page>, n: nat) requires 0 < g.ppb {
    exists k: nat :: StopsAt(g, P, pages, n, k) && Off(n, k) < g.Pages()
  }

  ghost predicate Loops(g: Geo, P: set<nat>, pages: seq<Page>, n: nat) requires 0 < g.ppb {
    forall k: nat :: Passes(g, P, pages, n, k)
  }

  /** It is one of the three. */
  lemma StopsOnce(g: Geo, P: set<nat>, pages: seq<Page>, n: nat, k: nat)
    requires 0 < g.ppb && StopsAt(g, P, pages, n, k)
    ensures !Loops(g, P, pages, n)
    ensures Finishes(g, P, pages, n) <==> Off(n, k) >= g.Pages()
    ensures Stumbles(g, P, pages, n) <==> Off(n, k) < g.Pages()
  {
    hide RangeOk, Passes, Off;
    forall j: nat | StopsAt(g, P, pages, n, j) ensures j == k {}
  }

  /** What a check came to: whether it left the flash alone, if it ended at all. */
  datatype Outcome = Untouched | Repairs | Endless

  /** spiffs_page_consistency_check, with a work buffer of `size` bytes.  When 0x10000 ranges have been left alone without
      an end, it never ends. */
  method PageCheck(g: Geo, ghost P: set<nat>, pages: seq<Page>, size: nat) returns (r: Outcome)
    requires g.Valid() && Entries(g, P) && |pages| == g.Pages() && 0 < size < 0x8000
    requires forall p :: p in P ==> PageShape(g, pages[p])
    ensures r.Untouched? <==> Finishes(g, P, pages, 2 * size)
    ensures r.Repairs? <==> Stumbles(g, P, pages, 2 * size)
    ensures r.Endless? <==> Loops(g, P, pages, 2 * size)
  {
    hide RangeOk, PageShape, Entries, Off, Finishes, Stumbles, Loops, StopsAt;
    var n := 2 * size;
    var off: half, k := 0, 0;
    AtMono(n, 0, 0);
    while off < g.Pages()
      invariant k <= 0x1_0000 && off == Off(n, k) && (forall j :: 0 <= j < k ==> Passes(g, P, pages, n, j))
      decreases 0x1_0000 - k
    {
      if k == 0x1_0000 {
        LoopsForever(g, P, pages, n);
        return Endless;
      }
      OffNext(n, k);
      OffEven(size, k);
      var repair := CheckRange(g, P, pages, off, size);
      if repair {
        Stops(g, P, pages, n, k);
        return Repairs;
      }
      off := (off + n) % 0x1_0000;
      k := k + 1;
    }
    Stops(g, P, pages, n, k);
    r := Untouched;
  }

  lemma Stops(g: Geo, P: set<nat>, pages: seq<Page>, n: nat, k: nat)
    requires 0 < g.ppb && (forall j :: 0 <= j < k ==> Passes(g, P, pages, n, j)) && !Passes(g, P, pages, n, k)
    ensures !Loops(g, P, pages, n)
    ensures Finishes(g, P, pages, n) <==> Off(n, k) >= g.Pages()
    ensures Stumbles(g, P, pages, n) <==> Off(n, k) < g.Pages()
  {
    StopsOnce(g, P, pages, n, k);
  }

  lemma LoopsForever(g: Geo, P: set<nat>, pages: seq<Page>, n: nat)
    requires 0 < g.ppb && forall j :: 0 <= j < 0x1_0000 ==> Passes(g, P, pages, n, j)
    ensures Loops(g, P, pages, n) && !Finishes(g, P, pages, n) && !Stumbles(g, P, pages, n)
  {
    hide RangeOk, Off;
    forall k: nat ensures Passes(g, P, pages, n, k) {
      OffPeriod(n, k);
      assert Passes(g, P, pages, n, k % 0x1_0000);
    }
  }

  // ---------------------------------------------------------------- on healthy flash

  /** Every range ends where page numbers still fit. */
  ghost predicate AllFit(g: Geo, n: nat) { forall k: nat :: At(n, k) < g.Pages() ==> RangeFits(At(n, k), n) }

  /** The 16-bit offset gets past the last page at some time. */
  ghost predicate Ends(g: Geo, n: nat) { exists k: nat :: Off(n, k) >= g.Pages() }

  ghost predicate NoFreeSlot(g: Geo, P: set<nat>, pages: seq<Page>) {
    forall p, i :: IsRef(g, P, pages, p, i) ==> Target(pages, p, i) != FREE_PIX
  }

  /** Of the ranges of healthy flash exactly those are left alone that fit, or all of them when no slot is free. */
  lemma HealthyPasses(g: Geo, P: set<nat>, lu: seq<half>, pages: seq<Page>, dir: Dir, n: nat)
    requires FlashOk(g, P, lu, pages) && Rep(g, P, lu, pages, dir, {}) && NoneDoomed(dir) && Unharmed(dir) && g.Valid()
    ensures forall k: nat :: Passes(g, P, pages, n, k) <==>
                               Off(n, k) < g.Pages() && (RangeFits(Off(n, k), n) || NoFreeSlot(g, P, pages))
  {
    hide FlashOk, Rep, NoneDoomed, RangeOk, Off;
    forall k: nat ensures Passes(g, P, pages, n, k) <==>
                            Off(n, k) < g.Pages() && (RangeFits(Off(n, k), n) || NoFreeSlot(g, P, pages))
    {
      RangeExact(g, P, lu, pages, dir, Off(n, k), n);
    }
  }

  /** The least number with a property. */
  lemma {:induction false} Least(p: nat -> bool, k: nat) returns (m: nat)
    requires p(k)
    ensures m <= k && p(m) && forall j :: 0 <= j < m ==> !p(j)
    decreases k
  {
    if j: nat :| j < k && p(j) { m := Least(p, j); } else { m := k; }
  }

  /** While the ranges fit, nothing wraps. */
  lemma {:induction false} FirstLap(g: Geo, n: nat, k: nat)
    requires forall j: nat :: j < k ==> At(n, j) < g.Pages() && RangeFits(At(n, j), n)
    ensures Off(n, k) == At(n, k)
  {
    if k > 0 { OffNext(n, k - 1); } else { AtMono(n, 0, 0); }
  }

  /** The page check of healthy flash: it comes to its end without a repair exactly if all ranges fit, or if no slot is free
      and the offset gets past the end on a later round; it repairs what is right exactly if some range does not fit and a
      slot is free; and it goes on for ever in the other cases. */
  lemma HealthyRanges(g: Geo, P: set<nat>, lu: seq<half>, pages: seq<Page>, dir: Dir, n: nat)
    requires FlashOk(g, P, lu, pages) && Rep(g, P, lu, pages, dir, {}) && NoneDoomed(dir) && Unharmed(dir) && g.Valid() && 0 < n < 0x1_0000
    ensures Finishes(g, P, pages, n) <==> AllFit(g, n) || (NoFreeSlot(g, P, pages) && Ends(g, n))
    ensures Stumbles(g, P, pages, n) <==> !AllFit(g, n) && !NoFreeSlot(g, P, pages)
    ensures Loops(g, P, pages, n) <==> !AllFit(g, n) && NoFreeSlot(g, P, pages) && !Ends(g, n)
  {
    hide FlashOk, Rep, NoneDoomed, RangeOk, Off, At, NoFreeSlot, Passes;
    HealthyPasses(g, P, lu, pages, dir, n);
    if AllFit(g, n) {
      FitsFinish(g, P, pages, n);
    } else if !NoFreeSlot(g, P, pages) {
      UnfitStumbles(g, P, pages, n);
    } else if Ends(g, n) {
      var k: nat :| Off(n, k) >= g.Pages();
      var past := (j: nat) => Off(n, j) >= g.Pages();
      var m := Least(past, k);
      forall j: nat | j < m ensures Passes(g, P, pages, n, j) { assert !past(j); }
      StopsOnce(g, P, pages, n, m);
    } else {
      assert Loops(g, P, pages, n);
    }
  }

  lemma FitsFinish(g: Geo, P: set<nat>, pages: seq<Page>, n: nat)
    requires 0 < g.ppb && 0 < n < 0x1_0000 && AllFit(g, n)
    requires forall k: nat :: Passes(g, P, pages, n, k) <==>
                                Off(n, k) < g.Pages() && (RangeFits(Off(n, k), n) || NoFreeSlot(g, P, pages))
    ensures Finishes(g, P, pages, n) && !Stumbles(g, P, pages, n) && !Loops(g, P, pages, n)
  {
    hide RangeOk, Off, At, NoFreeSlot, Passes;
    AtMono(n, 0, g.Pages());
    var past := (j: nat) => At(n, j) >= g.Pages();
    var m := Least(past, g.Pages());
    forall j: nat | j < m ensures At(n, j) < g.Pages() { assert !past(j); }
    FirstLap(g, n, m);
    forall j: nat | j < m ensures Passes(g, P, pages, n, j) { FirstLap(g, n, j); }
    StopsOnce(g, P, pages, n, m);
  }

  lemma UnfitStumbles(g: Geo, P: set<nat>, pages: seq<Page>, n: nat)
    requires 0 < g.ppb && 0 < n < 0x1_0000 && !AllFit(g, n) && !NoFreeSlot(g, P, pages)
    requires forall k: nat :: Passes(g, P, pages, n, k) <==>
                                Off(n, k) < g.Pages() && (RangeFits(Off(n, k), n) || NoFreeSlot(g, P, pages))
    ensures Stumbles(g, P, pages, n) && !Finishes(g, P, pages, n) && !Loops(g, P, pages, n)
  {
    hide RangeOk, Off, At, NoFreeSlot, Passes;
    var k: nat :| At(n, k) < g.Pages() && !RangeFits(At(n, k), n);
    var unfit := (j: nat) => !RangeFits(At(n, j), n);
    var m := Least(unfit, k);
    forall j: nat | j <= m ensures At(n, j) < g.Pages() && (j < m ==> RangeFits(At(n, j), n)) {
      AtMono(n, j, k);
      assert j < m ==> !unfit(j);
    }
    FirstLap(g, n, m);
    forall j: nat | j < m ensures Passes(g, P, pages, n, j) { FirstLap(g, n, j); }
    StopsOnce(g, P, pages, n, m);
  }

  /** When the length of a range divides 0x10000, as it does for a page size that is a power of 2, the ranges fit exactly if
      the pages and one range more do, and the offset never gets past the end otherwise: then the check ends without a
      repair exactly if all ranges fit. */
  lemma EvenRanges(g: Geo, n: nat, d: nat)
    requires 0 < n && n * d == 0x1_0000 && g.Valid()
    ensures AllFit(g, n) <==> g.Pages() + n <= 0x1_0000
    ensures Ends(g, n) <==> AllFit(g, n)
  {
    hide Off, At;
    LastRange(n, d);
    if g.Pages() + n <= 0x1_0000 {
      forall k: nat | At(n, k) < g.Pages() ensures RangeFits(At(n, k), n) {
        if k >= d { AtMono(n, d, k); }
        BelowLast(n, d, k);
      }
      assert Off(n, d - 1) >= g.Pages();
    } else {
      assert !RangeFits(At(n, d - 1), n);
      forall k: nat ensures Off(n, k) < g.Pages() { OffBelow(n, d, k); }
    }
  }

  lemma LastRange(n: nat, d: nat)
    requires 0 < n && n * d == 0x1_0000
    ensures 0 < d && At(n, d - 1) == 0x1_0000 - n && Off(n, d - 1) == 0x1_0000 - n && At(n, d) == 0x1_0000
  {
    assert At(n, d - 1) == d * n - n;
  }

  lemma BelowLast(n: nat, d: nat, k: nat)
    requires 0 < n && n * d == 0x1_0000 && At(n, k) < 0x1_0000 - n
    ensures RangeFits(At(n, k), n)
  {
  }

  lemma OffBelow(n: nat, d: nat, k: nat)
    requires 0 < n && n * d == 0x1_0000
    ensures Off(n, k) <= 0x1_0000 - n
  {
    LastRange(n, d);
    var q, r := k / d, k % d;
    assert k == q * d + r;
    assert At(n, k) == q * 0x1_0000 + At(n, r) by { assert k * n == q * (d * n) + r * n; }
    SameRest(At(n, r), q);
    AtMono(n, r, d - 1);
  }

  // ---------------------------------------------------------------- the check as a whole

  /** SPIFFS_check between two calls, with a work buffer of `size` bytes.  Its passes over the lookup tables and the index
      pages find nothing; what the page check comes to is told exactly.  When it ends without a repair, the counters have
      been rebuilt and nothing else is different. */
  method CheckFs(fs: Spiffs, size: nat) returns (r: Outcome)
    requires Ready(fs) && Unharmed(fs.dir) && 0 < size < 0x8000
    modifies fs`maxErase, fs`freeBlocks, fs`nAlloc, fs`nDel, fs`surplus
    ensures r.Untouched? <==> AllFit(fs.g, 2 * size) || (NoFreeSlot(fs.g, fs.P, fs.pages) && Ends(fs.g, 2 * size))
    ensures r.Repairs? <==> !AllFit(fs.g, 2 * size) && !NoFreeSlot(fs.g, fs.P, fs.pages)
    ensures r.Endless? <==> !AllFit(fs.g, 2 * size) && NoFreeSlot(fs.g, fs.P, fs.pages) && !Ends(fs.g, 2 * size)
    ensures r.Untouched? ==> Ready(fs) && fs.freeBlocks == |FreeBlocks(fs.g, fs.lu)|
    ensures r.Untouched? ==> fs.nAlloc == |LivePages(fs.P, fs.lu)| && fs.nDel == |DeletedPages(fs.P, fs.lu)|
  {
    hide Rep, NoneDoomed, PageShape, FdsOk, AllTight, AllFit, Ends, NoFreeSlot, LivePages, DeletedPages, FreeBlocks, Finishes,
      Stumbles, Loops;
    ReadyFlash(fs);
    HealthyEntries(fs.g, fs.P, fs.lu, fs.pages, fs.dir);
    var lookup := LookupCheck(fs.g, fs.P, fs.lu, fs.pages);
    var index := IndexCheck(fs.g, fs.P, fs.lu, fs.pages);
    HealthyRanges(fs.g, fs.P, fs.lu, fs.pages, fs.dir, 2 * size);
    r := PageCheck(fs.g, fs.P, fs.pages, size);
    if lookup || index { r := Repairs; }
    if r != Untouched { return; }
    ObjLuScan(fs);
  }

  lemma ReadyFlash(fs: Spiffs)
    requires Ready(fs)
    ensures FlashOk(fs.g, fs.P, fs.lu, fs.pages) && Entries(fs.g, fs.P) && fs.g.Valid()
    ensures Rep(fs.g, fs.P, fs.lu, fs.pages, fs.dir, {}) && NoneDoomed(fs.dir)
    ensures |fs.lu| == |fs.pages| == fs.g.Pages() && forall p :: p in fs.P ==> PageShape(fs.g, fs.pages[p])
  {
  }

  /** Nearly as many pages as page numbers: 4095 blocks of 16 pages, checked in ranges of 512. */
  lemma FullFlash(g: Geo)
    requires g.Valid() && g.ppb == 16 && g.blocks == 4095
    ensures !AllFit(g, 512) && !Ends(g, 512)
  {
    assert 512 * 128 == 0x1_0000;
    EvenRanges(g, 512, 128);
  }

  /** Without any file the check never ends ... */
  lemma EmptyLoops(fs: Spiffs)
    requires Ready(fs) && fs.g.ppb == 16 && fs.g.blocks == 4095 && fs.dir == map[]
    ensures !AllFit(fs.g, 512) && NoFreeSlot(fs.g, fs.P, fs.pages) && !Ends(fs.g, 512)
  {
    ReadyFlash(fs);
    FullFlash(fs.g);
    if p, i :| IsRef(fs.g, fs.P, fs.pages, p, i) {
      RefIs(fs.g, fs.P, fs.lu, fs.pages, fs.dir, p, i);
      assert false;
    }
  }

  /** ... and with an empty file it repairs what is right. */
  lemma EmptyFileRepairs(fs: Spiffs, id: half)
    requires Ready(fs) && fs.g.ppb == 16 && fs.g.blocks == 4095 && id in fs.dir && fs.dir[id].data == []
    ensures !AllFit(fs.g, 512) && !NoFreeSlot(fs.g, fs.P, fs.pages)
  {
    ReadyFlash(fs);
    FullFlash(fs.g);
    assert IxOk(fs.g, fs.P, fs.lu, fs.pages, {}, id, fs.dir[id], 0);
    var p := fs.dir[id].ix[0] as nat;
    assert fs.pages[p] == IxPage(fs.g, id, fs.dir[id], 0);
    assert IsRef(fs.g, fs.P, fs.pages, p, 0) && Target(fs.pages, p, 0) == FREE_PIX;
  }
}
