/** Address and index arithmetic of the file system: the macros of spiffs_nucleus.h. */
module Layout {
  import opened Nor

  const FREE_ID: half := 0xFFFF
  const DELETED_ID: half := 0
  const IX_FLAG: half := 0x8000
  const FREE_PIX: half := 0xFFFF
  const UNDEFINED_LEN: word := 0xFFFF_FFFF

  /** The configured geometry, kept symbolic.
      ppb: pages in a block; lup: lookup pages at the head of a block; blocks: number of blocks;
      dps: data bytes in a page; hdrLen, ixLen: index slots in a header page and in an index page. */
  datatype Geo = Geo(ppb: nat, lup: nat, blocks: nat, dps: nat, hdrLen: nat, ixLen: nat) {

    ghost predicate Valid() {
      && 0 < lup < ppb && 2 <= blocks && 0 < dps && 0 < hdrLen && 0 < ixLen
      && blocks * ppb < FREE_PIX
      && blocks * ppb * dps < 0x8000_0000
    }

    function Pages(): nat { blocks * ppb }

    /** Lookup entries in a block. */
    function Entries(): int { ppb - lup }

    /** First page of a block. */
    function BlockStart(b: nat): nat {
      if b == 0 then 0 else BlockStart(b - 1) + ppb
    }

    /** The page a lookup entry stands for. */
    function PixOf(b: nat, e: nat): nat {
      if e == 0 then BlockStart(b) + lup else PixOf(b, e - 1) + 1
    }

    /** The block a page is in. */
    function BlockOf(p: nat): nat
      requires 0 < ppb
    {
      if p < ppb then 0 else 1 + BlockOf(p - ppb)
    }

    /** The lookup entry of a page, counted from the start of its block; negative for a lookup page. */
    function EntryOf(p: nat): int
      requires 0 < ppb
    {
      if p < ppb then p - lup else EntryOf(p - ppb)
    }

    predicate IsLookup(p: nat) requires 0 < ppb { p % ppb < lup }

    function Slots(k: nat): nat { if k == 0 then hdrLen else ixLen }

    /** Room for slots in the page record: the larger of the two index lengths. */
    function Cap(): nat { if hdrLen < ixLen then ixLen else hdrLen }

    /** Data span indices before index page k; a closed form is FirstClosed below. */
    function First(k: nat): nat {
      if k == 0 then 0 else First(k - 1) + Slots(k - 1)
    }

    /** Index page and slot in it that a data span index is kept in. */
    function IxOf(s: nat): nat requires 0 < ixLen {
      if s < hdrLen then 0 else 1 + (s - hdrLen) / ixLen
    }

    function SlotOf(s: nat): nat requires 0 < ixLen {
      if s < hdrLen then s else (s - hdrLen) % ixLen
    }

    /** Every page that is not a lookup page, among the first n pages. */
    function PagesBelow(n: nat): (r: set<nat>)
      requires 0 < ppb
    {
      if n == 0 then {} else PagesBelow(n - 1) + (if IsLookup(n - 1) then {} else {n - 1})
    }

    function DataPages(): set<nat>
      requires 0 < ppb
    {
      PagesBelow(Pages())
    }
  }

  lemma {:induction false} PagesBelowIn(g: Geo, n: nat, p: nat)
    requires 0 < g.ppb
    ensures p in g.PagesBelow(n) <==> p < n && !g.IsLookup(p)
  {
    if n > 0 { PagesBelowIn(g, n - 1, p); }
  }

  lemma DataPagesIn(g: Geo, p: nat)
    requires 0 < g.ppb
    ensures p in g.DataPages() <==> p < g.Pages() && !g.IsLookup(p)
  {
    PagesBelowIn(g, g.Pages(), p);
  }

  lemma MulMono(a: nat, b: nat, d: nat)
    requires a <= b
    ensures a * d <= b * d
  {
  }

  lemma QuotientUnique(d: nat, q: nat, r: nat, q': nat, r': nat)
    requires r < d && r' < d && q * d + r == q' * d + r'
    ensures q == q' && r == r'
  {
    if q < q' { MulMono(q + 1, q', d); } else if q' < q { MulMono(q' + 1, q, d); }
  }

  /** A quotient and remainder that fit are the quotient and the remainder. */
  lemma DivModUnique(a: nat, d: nat, q: nat, r: nat)
    requires 0 < d && r < d && a == q * d + r
    ensures a / d == q && a % d == r
  {
    assert a == a / d * d + a % d;
    QuotientUnique(d, q, r, a / d, a % d);
  }

  /** The macros between pages, blocks and lookup entries. */
  lemma {:induction false} BlockStartMacro(g: Geo, b: nat)
    ensures g.BlockStart(b) == b * g.ppb
  {
    if b > 0 {
      BlockStartMacro(g, b - 1);
      assert b * g.ppb == (b - 1) * g.ppb + g.ppb;
    }
  }

  lemma {:induction false} PixOfSum(g: Geo, b: nat, e: nat)
    ensures g.PixOf(b, e) == g.BlockStart(b) + g.lup + e
  {
    if e > 0 { PixOfSum(g, b, e - 1); }
  }

  lemma PixOfMacro(g: Geo, b: nat, e: nat)
    ensures g.PixOf(b, e) == b * g.ppb + (g.lup + e)
  {
    PixOfSum(g, b, e);
    BlockStartMacro(g, b);
  }

  lemma {:induction false} BlockStartBlockOf(g: Geo, p: nat)
    requires 0 < g.ppb
    ensures g.BlockStart(g.BlockOf(p)) <= p < g.BlockStart(g.BlockOf(p)) + g.ppb
    ensures g.EntryOf(p) == p - g.BlockStart(g.BlockOf(p)) - g.lup
  {
    if p >= g.ppb { BlockStartBlockOf(g, p - g.ppb); }
  }

  lemma BlockOfMacro(g: Geo, p: nat)
    requires 0 < g.ppb
    ensures g.BlockOf(p) == p / g.ppb && g.EntryOf(p) == p % g.ppb - g.lup
  {
    BlockStartBlockOf(g, p);
    BlockStartMacro(g, g.BlockOf(p));
    DivModUnique(p, g.ppb, g.BlockOf(p), p - g.BlockStart(g.BlockOf(p)));
  }

  lemma {:induction false} BlockStartMono(g: Geo, a: nat, b: nat)
    requires a <= b
    ensures g.BlockStart(a) <= g.BlockStart(b)
    decreases b
  {
    if a < b { BlockStartMono(g, a, b - 1); }
  }

  lemma {:induction false} BlockOfStart(g: Geo, b: nat, i: nat)
    requires i < g.ppb
    ensures g.BlockOf(g.BlockStart(b) + i) == b
  {
    if b > 0 {
      BlockOfStart(g, b - 1, i);
      assert g.BlockStart(b) + i - g.ppb == g.BlockStart(b - 1) + i;
    }
  }

  /** Lookup entries and pages correspond one to one: the page of an entry is no lookup page, and
      its block and entry are the ones it was made from. */
  lemma PageOfEntry(g: Geo, b: nat, e: nat)
    requires g.Valid() && b < g.blocks && e < g.Entries()
    ensures g.PixOf(b, e) in g.DataPages() && g.PixOf(b, e) < g.Pages()
    ensures g.BlockOf(g.PixOf(b, e)) == b && g.EntryOf(g.PixOf(b, e)) == e
  {
    PixOfSum(g, b, e);
    BlockOfStart(g, b, g.lup + e);
    BlockStartBlockOf(g, g.PixOf(b, e));
    BlockStartMono(g, b + 1, g.blocks);
    BlockStartMacro(g, g.blocks);
    BlockOfMacro(g, g.PixOf(b, e));
    DataPagesIn(g, g.PixOf(b, e));
  }

  lemma LookupByEntry(g: Geo, p: nat)
    requires 0 < g.ppb
    ensures g.IsLookup(p) <==> g.EntryOf(p) < 0
  {
    BlockOfMacro(g, p);
  }

  lemma BlockInRange(g: Geo, p: nat)
    requires 0 < g.ppb && p < g.Pages()
    ensures g.BlockOf(p) < g.blocks
  {
    BlockStartBlockOf(g, p);
    BlockStartMacro(g, g.blocks);
    BlockStartMono(g, if g.blocks < g.BlockOf(p) then g.blocks else g.BlockOf(p), g.BlockOf(p));
  }

  /** ... and every page that is not a lookup page comes from an entry. */
  lemma EntryOfPage(g: Geo, p: nat)
    requires g.Valid() && p in g.DataPages()
    ensures p < g.Pages() && g.BlockOf(p) < g.blocks && 0 <= g.EntryOf(p) < g.Entries()
    ensures g.PixOf(g.BlockOf(p), g.EntryOf(p)) == p
  {
    DataPagesIn(g, p);
    LookupByEntry(g, p);
    BlockInRange(g, p);
    BlockStartBlockOf(g, p);
    PixOfSum(g, g.BlockOf(p), g.EntryOf(p));
  }

  /** The correspondence between entries and the data pages P, as one fact. */
  ghost predicate Entries(g: Geo, P: set<nat>) {
    && g.Valid()
    && (forall b, e :: 0 <= b < g.blocks && 0 <= e < g.Entries() ==>
                         && g.PixOf(b, e) in P
                         && g.BlockOf(g.PixOf(b, e)) == b && g.EntryOf(g.PixOf(b, e)) == e)
    && (forall p :: p in P ==> && p < g.Pages() && g.BlockOf(p) < g.blocks && 0 <= g.EntryOf(p) < g.Entries()
                               && g.PixOf(g.BlockOf(p), g.EntryOf(p)) == p)
  }

  lemma EntriesHold(g: Geo)
    requires g.Valid()
    ensures Entries(g, g.DataPages())
  {
    forall b, e | 0 <= b < g.blocks && 0 <= e < g.Entries()
      ensures g.PixOf(b, e) in g.DataPages()
      ensures g.BlockOf(g.PixOf(b, e)) == b && g.EntryOf(g.PixOf(b, e)) == e
    {
      PageOfEntry(g, b, e);
    }
    forall p | p in g.DataPages()
      ensures p < g.Pages() && g.BlockOf(p) < g.blocks && 0 <= g.EntryOf(p) < g.Entries()
      ensures g.PixOf(g.BlockOf(p), g.EntryOf(p)) == p
    {
      EntryOfPage(g, p);
    }
  }

  /** The macro for the first data span index of an index page. */
  lemma {:induction false} FirstClosed(g: Geo, k: nat)
    ensures g.First(k) == if k == 0 then 0 else g.hdrLen + (k - 1) * g.ixLen
  {
    if k > 1 {
      FirstClosed(g, k - 1);
      assert (k - 1) * g.ixLen == (k - 2) * g.ixLen + g.ixLen;
    }
  }

  /** The three index macros agree: the slot a span index is kept in names that span index back. */
  lemma SlotLaw(g: Geo, s: nat)
    requires g.Valid()
    ensures g.First(g.IxOf(s)) + g.SlotOf(s) == s
    ensures g.SlotOf(s) < g.Slots(g.IxOf(s)) <= g.Cap()
  {
    FirstClosed(g, g.IxOf(s));
  }

  lemma {:induction false} FirstMono(g: Geo, a: nat, b: nat)
    requires a <= b
    ensures g.First(a) <= g.First(b)
    ensures a < b ==> g.First(a) + g.Slots(a) <= g.First(b)
    decreases b
  {
    if a < b { FirstMono(g, a, b - 1); }
  }

  /** No other slot keeps the span index. */
  lemma SlotUnique(g: Geo, s: nat, k: nat, j: nat)
    requires g.Valid() && g.First(k) + j == s && j < g.Slots(k)
    ensures k == g.IxOf(s) && j == g.SlotOf(s)
  {
    SlotLaw(g, s);
    var k' := g.IxOf(s);
    if k < k' { FirstMono(g, k, k'); } else if k' < k { FirstMono(g, k', k); }
  }
}
