/** The allocator's view of the flash: lookup entries, the free cursor and the page counters, with
    the invariants that allocation, deletion and block erasure keep. */
module Core {
  import opened Nor
  import opened Layout
  import opened Image

  /** Lookup entries, pages, free cursor and counters of a mounted file system.
      `surplus` counts erasures of blocks that were wholly free already: spiffs_erase_block counts
      such a block as freed a second time. */
  datatype St = St(lu: seq<half>, pages: seq<Page>, freeBlk: nat, freeEnt: nat, freeBlocks: int,
                   nAlloc: int, nDel: int, surplus: nat)

  function LivePages(P: set<nat>, lu: seq<half>): set<nat> {
    set p | p in P && p < |lu| && Live(lu[p])
  }

  function DeletedPages(P: set<nat>, lu: seq<half>): set<nat> {
    set p | p in P && p < |lu| && lu[p] == DELETED_ID
  }

  function FreePages(P: set<nat>, lu: seq<half>): set<nat> {
    set p | p in P && p < |lu| && lu[p] == FREE_ID
  }

  /** Blocks whose entry 0 is free. */
  function FreeBlocks(g: Geo, lu: seq<half>): set<nat> {
    set b | 0 <= b < g.blocks && Entry(g, lu, b, 0) == FREE_ID
  }

  function Entry(g: Geo, lu: seq<half>, b: nat, e: nat): half {
    if g.PixOf(b, e) < |lu| then lu[g.PixOf(b, e)] else 0
  }

  /** The free entries of a block are a suffix of its lookup table. */
  ghost predicate FreeSuffix(g: Geo, lu: seq<half>) {
    forall b, e, e' :: 0 <= b < g.blocks && 0 <= e < e' < g.Entries() && Entry(g, lu, b, e) == FREE_ID ==>
                         Entry(g, lu, b, e') == FREE_ID
  }

  /** What is before the free cursor in its block is in use; what it stands on is free, unless it
      stands on entry 0 or past the end. */
  ghost predicate CursorOk(g: Geo, lu: seq<half>, fb: nat, fe: nat) {
    && fb < g.blocks
    && (fe < g.Entries() ==> forall e :: 0 <= e < fe ==> Entry(g, lu, fb, e) != FREE_ID)
    && (0 < fe < g.Entries() ==> Entry(g, lu, fb, fe) == FREE_ID)
  }

  /** Lookup entries and page contents go together. */
  ghost predicate FlashOk(g: Geo, P: set<nat>, lu: seq<half>, pages: seq<Page>) {
    && Entries(g, P)
    && |lu| == g.Pages() && |pages| == g.Pages()
    && (forall p :: p in P ==> PageShape(g, pages[p]))
    && (forall p :: p in P && lu[p] == FREE_ID ==> pages[p] == Blank(g))
    && (forall p :: p in P && lu[p] == DELETED_ID ==> !pages[p].flags.delet && !pages[p].flags.used)
  }

  /** The invariant of the allocator. */
  ghost predicate Inv(g: Geo, P: set<nat>, s: St) {
    && FlashOk(g, P, s.lu, s.pages)
    && FreeSuffix(g, s.lu)
    && CursorOk(g, s.lu, s.freeBlk, s.freeEnt)
    && s.nAlloc == |LivePages(P, s.lu)|
    && s.nDel == |DeletedPages(P, s.lu)|
    && s.freeBlocks == |FreeBlocks(g, s.lu)| + s.surplus
  }

  /** Page p has been picked for allocation: the cursor has moved past it, and a wholly free block
      has been counted off, but its lookup entry is not written yet. */
  ghost predicate Reserved(g: Geo, P: set<nat>, s: St, p: nat) {
    && FlashOk(g, P, s.lu, s.pages)
    && FreeSuffix(g, s.lu)
    && p in P && s.lu[p] == FREE_ID
    && s.freeBlk == g.BlockOf(p) && s.freeEnt == g.EntryOf(p) + 1
    && (forall e :: 0 <= e < g.EntryOf(p) ==> Entry(g, s.lu, g.BlockOf(p), e) != FREE_ID)
    && s.nAlloc == |LivePages(P, s.lu)|
    && s.nDel == |DeletedPages(P, s.lu)|
    && s.freeBlocks + (if g.EntryOf(p) == 0 then 1 else 0) == |FreeBlocks(g, s.lu)| + s.surplus
  }

  lemma EntryUpdate(g: Geo, P: set<nat>, lu: seq<half>, p: nat, v: half, b: nat, e: nat)
    requires Entries(g, P) && |lu| == g.Pages() && p in P && b < g.blocks && e < g.Entries()
    ensures Entry(g, lu[p := v], b, e) == if b == g.BlockOf(p) && e == g.EntryOf(p) then v else Entry(g, lu, b, e)
  {
  }

  lemma OccupyOrder(g: Geo, P: set<nat>, lu: seq<half>, p: nat, id: half)
    requires Entries(g, P) && |lu| == g.Pages() && p in P && lu[p] == FREE_ID && Live(id)
    requires FreeSuffix(g, lu)
    requires forall e :: 0 <= e < g.EntryOf(p) ==> Entry(g, lu, g.BlockOf(p), e) != FREE_ID
    ensures FreeSuffix(g, lu[p := id]) && CursorOk(g, lu[p := id], g.BlockOf(p), g.EntryOf(p) + 1)
  {
    var lu', b0, e0 := lu[p := id], g.BlockOf(p), g.EntryOf(p);
    forall b, e | 0 <= b < g.blocks && 0 <= e < g.Entries()
      ensures Entry(g, lu', b, e) == if b == b0 && e == e0 then id else Entry(g, lu, b, e)
    {
      EntryUpdate(g, P, lu, p, id, b, e);
    }
    assert Entry(g, lu, b0, e0) == FREE_ID;
  }

  lemma OccupyCounts(g: Geo, P: set<nat>, lu: seq<half>, p: nat, id: half)
    requires Entries(g, P) && |lu| == g.Pages() && p in P && lu[p] == FREE_ID && Live(id)
    ensures |LivePages(P, lu[p := id])| == |LivePages(P, lu)| + 1
    ensures DeletedPages(P, lu[p := id]) == DeletedPages(P, lu)
    ensures |FreeBlocks(g, lu[p := id])| == |FreeBlocks(g, lu)| - (if g.EntryOf(p) == 0 then 1 else 0)
    ensures |FreePages(P, lu[p := id])| == |FreePages(P, lu)| - 1
  {
    var lu', b0, e0 := lu[p := id], g.BlockOf(p), g.EntryOf(p);
    assert LivePages(P, lu') == LivePages(P, lu) + {p};
    assert FreePages(P, lu') == FreePages(P, lu) - {p};
    forall b | 0 <= b < g.blocks
      ensures Entry(g, lu', b, 0) == if b == b0 && e0 == 0 then id else Entry(g, lu, b, 0)
    {
      EntryUpdate(g, P, lu, p, id, b, 0);
    }
    assert Entry(g, lu, b0, e0) == FREE_ID;
    assert FreeBlocks(g, lu') == FreeBlocks(g, lu) - (if e0 == 0 then {b0} else {});
  }

  /** Writing the lookup entry of a reserved page restores the invariant: one page more is allocated. */
  lemma Occupy(g: Geo, P: set<nat>, s: St, p: nat, id: half, page: Page)
    requires Reserved(g, P, s, p) && Live(id) && PageShape(g, page)
    ensures Inv(g, P, s.(lu := s.lu[p := id], pages := s.pages[p := page], nAlloc := s.nAlloc + 1))
  {
    OccupyOrder(g, P, s.lu, p, id);
    OccupyCounts(g, P, s.lu, p, id);
  }

  lemma DeleteOrder(g: Geo, P: set<nat>, lu: seq<half>, p: nat, fb: nat, fe: nat)
    requires Entries(g, P) && |lu| == g.Pages() && p in P && Live(lu[p])
    requires FreeSuffix(g, lu) && CursorOk(g, lu, fb, fe)
    ensures FreeSuffix(g, lu[p := DELETED_ID]) && CursorOk(g, lu[p := DELETED_ID], fb, fe)
    ensures FreeBlocks(g, lu[p := DELETED_ID]) == FreeBlocks(g, lu)
  {
    var lu' := lu[p := DELETED_ID];
    forall b, e | 0 <= b < g.blocks && 0 <= e < g.Entries()
      ensures (Entry(g, lu', b, e) == FREE_ID) == (Entry(g, lu, b, e) == FREE_ID)
    {
      EntryUpdate(g, P, lu, p, DELETED_ID, b, e);
    }
    forall b | 0 <= b < g.blocks ensures (Entry(g, lu', b, 0) == FREE_ID) == (Entry(g, lu, b, 0) == FREE_ID) {}
  }

  lemma DeleteCounts(P: set<nat>, lu: seq<half>, p: nat)
    requires p in P && p < |lu| && Live(lu[p])
    ensures |LivePages(P, lu[p := DELETED_ID])| == |LivePages(P, lu)| - 1
    ensures |DeletedPages(P, lu[p := DELETED_ID])| == |DeletedPages(P, lu)| + 1
  {
    var lu' := lu[p := DELETED_ID];
    assert LivePages(P, lu') == LivePages(P, lu) - {p};
    assert DeletedPages(P, lu') == DeletedPages(P, lu) + {p};
  }

  /** Deleting a live page keeps the invariant: one page fewer is allocated, one more is deleted. */
  lemma Delete(g: Geo, P: set<nat>, s: St, p: nat, page: Page)
    requires Inv(g, P, s) && p in P && Live(s.lu[p])
    requires PageShape(g, page) && !page.flags.delet && !page.flags.used
    ensures Inv(g, P, s.(lu := s.lu[p := DELETED_ID], pages := s.pages[p := page], nAlloc := s.nAlloc - 1,
                         nDel := s.nDel + 1))
  {
    DeleteOrder(g, P, s.lu, p, s.freeBlk, s.freeEnt);
    DeleteCounts(P, s.lu, p);
  }

  /** Rewriting a live page changes nothing for the allocator. */
  lemma Rewrite(g: Geo, P: set<nat>, s: St, p: nat, page: Page)
    requires Inv(g, P, s) && p in P && Live(s.lu[p]) && PageShape(g, page)
    ensures Inv(g, P, s.(pages := s.pages[p := page]))
  {
  }

  /** The pages of a block. */
  function BlockPages(g: Geo, P: set<nat>, b: nat): set<nat>
    requires 0 < g.ppb
  {
    set p | p in P && g.BlockOf(p) == b
  }

  /** Every entry of block b is free again, and nothing else has changed. */
  ghost predicate BlockErased(g: Geo, P: set<nat>, lu: seq<half>, pages: seq<Page>, lu': seq<half>,
                              pages': seq<Page>, b: nat)
  {
    && g.Valid()
    && |lu'| == |lu| == |pages'| == |pages|
    && forall p :: p in P && p < |lu| ==>
                     if g.BlockOf(p) == b then lu'[p] == FREE_ID && pages'[p] == Blank(g)
                     else lu'[p] == lu[p] && pages'[p] == pages[p]
  }

  lemma EraseOrder(g: Geo, P: set<nat>, lu: seq<half>, pages: seq<Page>, lu': seq<half>, pages': seq<Page>,
                   b: nat, fb: nat, fe: nat)
    requires Entries(g, P) && |lu| == g.Pages() && BlockErased(g, P, lu, pages, lu', pages', b)
    requires FreeSuffix(g, lu) && CursorOk(g, lu, fb, fe)
    requires fb == b ==> fe == 0 || fe >= g.Entries()
    ensures FreeSuffix(g, lu') && CursorOk(g, lu', fb, fe)
  {
    forall c, e | 0 <= c < g.blocks && 0 <= e < g.Entries()
      ensures Entry(g, lu', c, e) == if c == b then FREE_ID else Entry(g, lu, c, e)
    {
      assert g.PixOf(c, e) in P;
    }
  }

  lemma EraseFreeBlocks(g: Geo, P: set<nat>, lu: seq<half>, pages: seq<Page>, lu': seq<half>, pages': seq<Page>,
                        b: nat)
    requires Entries(g, P) && |lu| == g.Pages() && b < g.blocks && BlockErased(g, P, lu, pages, lu', pages', b)
    ensures |FreeBlocks(g, lu')| == |FreeBlocks(g, lu)| + (if Entry(g, lu, b, 0) == FREE_ID then 0 else 1)
  {
    forall c | 0 <= c < g.blocks
      ensures Entry(g, lu', c, 0) == if c == b then FREE_ID else Entry(g, lu, c, 0)
    {
      assert g.PixOf(c, 0) in P;
    }
    var was, now := FreeBlocks(g, lu), FreeBlocks(g, lu');
    assert now == was + {b};
    assert b in was <==> Entry(g, lu, b, 0) == FREE_ID;
  }

  lemma ErasePages(g: Geo, P: set<nat>, lu: seq<half>, pages: seq<Page>, lu': seq<half>, pages': seq<Page>, b: nat)
    requires |lu| == g.Pages() && b < g.blocks && BlockErased(g, P, lu, pages, lu', pages', b)
    requires forall p :: p in P && g.BlockOf(p) == b && p < |lu| ==> !Live(lu[p])
    ensures LivePages(P, lu') == LivePages(P, lu)
    ensures |DeletedPages(P, lu')| == |DeletedPages(P, lu)| - |DeletedPages(P, lu) * BlockPages(g, P, b)|
  {
    assert DeletedPages(P, lu') == DeletedPages(P, lu) - DeletedPages(P, lu) * BlockPages(g, P, b);
  }

  /** Erasing block b, which holds no live page and which the free cursor is not inside of, keeps the
      invariant; when entry 0 of the block was free already, the block is counted twice from then on. */
  lemma Erase(g: Geo, P: set<nat>, s: St, s': St, b: nat)
    requires Inv(g, P, s) && b < g.blocks
    requires forall p :: p in P && g.BlockOf(p) == b ==> !Live(s.lu[p])
    requires s.freeBlk == b ==> s.freeEnt == 0 || s.freeEnt >= g.Entries()
    requires BlockErased(g, P, s.lu, s.pages, s'.lu, s'.pages, b)
    requires s'.freeBlk == s.freeBlk && s'.freeEnt == s.freeEnt
    requires s'.nAlloc == s.nAlloc && s'.nDel == s.nDel - |DeletedPages(P, s.lu) * BlockPages(g, P, b)|
    requires s'.freeBlocks == s.freeBlocks + 1
    requires s'.surplus == s.surplus + (if Entry(g, s.lu, b, 0) == FREE_ID then 1 else 0)
    ensures Inv(g, P, s') && OnlyDeletedErased(P, s.lu, s.pages, s'.lu, s'.pages)
  {
    EraseOrder(g, P, s.lu, s.pages, s'.lu, s'.pages, b, s.freeBlk, s.freeEnt);
    EraseFreeBlocks(g, P, s.lu, s.pages, s'.lu, s'.pages, b);
    ErasePages(g, P, s.lu, s.pages, s'.lu, s'.pages, b);
  }
}
