/** How many pages are to be had before two blocks are no longer free: a count that holds in every state, and is exact when the
    free blocks follow the free cursor. */
module Stock {
  import opened Nor
  import opened Layout
  import opened Image
  import opened Core
  import opened State
  import opened Alloc
  import Search

  /** Free entries left in the block that the cursor has begun. */
  function Rest(g: Geo, fe: nat): nat { if 0 < fe < g.Entries() then g.Entries() - fe else 0 }

  /** The rest of the block that has been begun, all pages of the free blocks but the last two, and the page that leaves one
      free block. */
  function Stocked(g: Geo, fe: nat, free: int): nat {
    if free < 2 || g.Entries() <= 0 then 0 else Search.Rows(g.Entries(), free - 2) + Rest(g, fe) + 1
  }

  /** Blocks that count twice are left out. */
  ghost function InStock(fs: Spiffs): nat
    reads fs`freeEnt, fs`freeBlocks, fs`surplus
  {
    Stocked(fs.g, fs.freeEnt, fs.freeBlocks - fs.surplus)
  }

  lemma FreeBlockFree(g: Geo, P: set<nat>, s: St)
    requires Inv(g, P, s) && s.freeBlocks - s.surplus >= 1
    ensures FreePages(P, s.lu) != {}
  {
    assert FreeBlocks(g, s.lu) != {};
    var b :| b in FreeBlocks(g, s.lu);
    assert g.PixOf(b, 0) in FreePages(P, s.lu);
  }

  /** As long as there is anything in stock, there is a page to have ... */
  lemma StockGives(fs: Spiffs)
    requires fs.Ok() && InStock(fs) >= 1
    ensures PageToHave(fs) && fs.freeBlocks >= 2
  {
    FreeBlockFree(fs.g, fs.P, fs.S());
  }

  /** The entry that the cursor has got to in the middle of a block is the next to be taken. */
  lemma MidCursor(g: Geo, P: set<nat>, s: St, s': St, p: nat)
    requires Inv(g, P, s) && TakesNext(g, s, s', p) && 0 < s.freeEnt < g.Entries()
    ensures p == g.PixOf(s.freeBlk, s.freeEnt) && g.EntryOf(p) == s.freeEnt && g.BlockOf(p) == s.freeBlk
  {
    assert Entry(g, s.lu, s.freeBlk, s.freeEnt) == FREE_ID;
    EntryPage(g, P, s.freeBlk, s.freeEnt);
  }

  lemma RowsNext(len: nat, n: nat)
    requires 0 < n
    ensures Search.Rows(len, n) == Search.Rows(len, n - 1) + len
  {
  }

  /** ... and taking it uses up no more than one page of it. */
  lemma StockTaken(g: Geo, P: set<nat>, s: St, s': St, p: nat)
    requires Inv(g, P, s) && TakesNext(g, s, s', p) && p in P
    ensures Stocked(g, s.freeEnt, s.freeBlocks - s.surplus) <= Stocked(g, s'.freeEnt, s'.freeBlocks - s'.surplus) + 1
  {
    hide FlashOk, FreeSuffix, CursorOk, LivePages, DeletedPages, FreeBlocks;
    InvShape(g, P, s);
    InvCursor(g, P, s);
    EntryInBlock(g, P, p);
    if 0 < s.freeEnt < g.Entries() { MidCursor(g, P, s, s', p); }
    if s.freeBlocks - s.surplus > 2 { RowsNext(g.Entries(), s.freeBlocks - s.surplus - 2); }
  }

  lemma EntryInBlock(g: Geo, P: set<nat>, p: nat)
    requires Entries(g, P) && p in P
    ensures 0 <= g.EntryOf(p) < g.Entries() && g.BlockOf(p) < g.blocks && g.PixOf(g.BlockOf(p), g.EntryOf(p)) == p
  {
  }

  // ---------------------------------------------------------------- free blocks that follow the cursor

  /** The block the cursor goes on to when it is done with the one it has begun. */
  function Next(g: Geo, fb: nat, fe: nat): nat {
    Search.StartBlock(g, fb, fe) + if Search.StartEntry(g, fe) > 0 then 1 else 0
  }

  /** As many blocks as count as free follow the cursor, before the end of the flash. */
  ghost predicate Straight(g: Geo, s: St) {
    && s.freeBlocks >= 1 && Next(g, s.freeBlk, s.freeEnt) + s.freeBlocks <= g.blocks
    && forall b :: Next(g, s.freeBlk, s.freeEnt) <= b < Next(g, s.freeBlk, s.freeEnt) + s.freeBlocks ==> Entry(g, s.lu, b, 0) == FREE_ID
  }

  lemma StraightSpot(g: Geo, P: set<nat>, s: St)
    requires Inv(g, P, s) && Straight(g, s)
    ensures IsFree(s.lu, Spot(g, s.freeBlk, s.freeEnt)) && FreePages(P, s.lu) != {}
    ensures Search.IsEntry(g, Search.StartBlock(g, s.freeBlk, s.freeEnt), Search.StartEntry(g, s.freeEnt))
  {
    var b, e := Search.StartBlock(g, s.freeBlk, s.freeEnt), Search.StartEntry(g, s.freeEnt);
    assert Entry(g, s.lu, b, e) == FREE_ID;
    EntryPage(g, P, b, e);
    assert g.PixOf(b, e) in FreePages(P, s.lu);
  }

  /** Then the count is exact: every page taken uses up one. */
  lemma StraightTaken(g: Geo, P: set<nat>, s: St, s': St, p: nat, id: half)
    requires Inv(g, P, s) && Straight(g, s) && s.freeBlocks >= 2 && TakesNext(g, s, s', p) && p in P && s'.lu == s.lu[p := id]
    ensures Straight(g, s') && Stocked(g, s.freeEnt, s.freeBlocks) == Stocked(g, s'.freeEnt, s'.freeBlocks) + 1
  {
    hide FreeSuffix, CursorOk, LivePages, DeletedPages, FreeBlocks;
    StraightSpot(g, P, s);
    var b, e := Search.StartBlock(g, s.freeBlk, s.freeEnt), Search.StartEntry(g, s.freeEnt);
    EntryPage(g, P, b, e);
    assert p == g.PixOf(b, e);
    forall c | Next(g, s'.freeBlk, s'.freeEnt) <= c < Next(g, s'.freeBlk, s'.freeEnt) + s'.freeBlocks
      ensures Entry(g, s'.lu, c, 0) == FREE_ID
    {
      EntryUpdate(g, P, s.lu, p, id, c, 0);
    }
    if s.freeBlocks > 2 { RowsNext(g.Entries(), s.freeBlocks - 2); }
  }

  lemma StraightDeleted(g: Geo, P: set<nat>, s: St, s': St, p: nat)
    requires Inv(g, P, s) && Straight(g, s) && p in P && Live(s.lu[p]) && s'.lu == s.lu[p := DELETED_ID]
    requires s'.freeBlk == s.freeBlk && s'.freeEnt == s.freeEnt && s'.freeBlocks == s.freeBlocks
    ensures Straight(g, s')
  {
    hide FreeSuffix, CursorOk, LivePages, DeletedPages, FreeBlocks;
    forall c | Next(g, s'.freeBlk, s'.freeEnt) <= c < Next(g, s'.freeBlk, s'.freeEnt) + s'.freeBlocks
      ensures Entry(g, s'.lu, c, 0) == FREE_ID
    {
      EntryUpdate(g, P, s.lu, p, DELETED_ID, c, 0);
    }
  }

  // ---------------------------------------------------------------- blocks that are not deleted as a whole

  ghost predicate Stays(g: Geo, lu: seq<half>, gone: set<nat>, b: nat, e: nat) {
    e < g.Entries() && Entry(g, lu, b, e) != DELETED_ID && g.PixOf(b, e) !in gone
  }

  ghost predicate Keeping(g: Geo, lu: seq<half>, gone: set<nat>, b: nat) { exists e: nat :: Stays(g, lu, gone, b, e) }

  /** No block is wholly deleted, even when the pages `gone` are. */
  ghost predicate Shelter(g: Geo, lu: seq<half>, gone: set<nat>) {
    forall b :: 0 <= b < g.blocks ==> Keeping(g, lu, gone, b)
  }

  lemma ShelterNone(g: Geo, lu: seq<half>, gone: set<nat>)
    requires g.Valid() && Shelter(g, lu, gone)
    ensures !SomeDeletedBlock(g, lu)
  {
    forall b | 0 <= b < g.blocks ensures !DeletedUpTo(g, lu, b, g.Entries()) { KeepingNot(g, lu, gone, b); }
  }

  lemma KeepingNot(g: Geo, lu: seq<half>, gone: set<nat>, b: nat)
    requires Keeping(g, lu, gone, b)
    ensures !DeletedUpTo(g, lu, b, g.Entries())
  {
    var e: nat :| Stays(g, lu, gone, b, e);
    assert Entry(g, lu, b, e) != DELETED_ID;
  }

  lemma ShelterSet(g: Geo, P: set<nat>, lu: seq<half>, gone: set<nat>, p: nat, v: half)
    requires Entries(g, P) && |lu| == g.Pages() && p in P && Shelter(g, lu, gone) && (v != DELETED_ID || p in gone)
    ensures Shelter(g, lu[p := v], gone)
  {
    var lu' := lu[p := v];
    forall b | 0 <= b < g.blocks ensures Keeping(g, lu', gone, b) {
      assert Keeping(g, lu, gone, b);
      var e: nat :| Stays(g, lu, gone, b, e);
      EntryUpdate(g, P, lu, p, v, b, e);
      assert Stays(g, lu', gone, b, e);
    }
  }

  ghost predicate Dead(lu: seq<half>, dead: set<nat>) { forall p :: p in dead ==> p < |lu| && lu[p] == DELETED_ID }

  /** A block all of whose pages are dead can be had at once. */
  lemma DeadBlock(g: Geo, P: set<nat>, lu: seq<half>, dead: set<nat>, b: nat)
    requires Entries(g, P) && Dead(lu, dead) && b < g.blocks
    requires forall e :: 0 <= e < g.Entries() ==> g.PixOf(b, e) in dead
    ensures SomeDeletedBlock(g, lu)
  {
    assert DeletedUpTo(g, lu, b, g.Entries());
  }

  /** The free blocks follow the cursor, and no block is wholly deleted, even when the pages `gone` are; the pages `dead` are
      deleted already. */
  ghost predicate Tracked(g: Geo, s: St, gone: set<nat>, dead: set<nat>) {
    Straight(g, s) && Shelter(g, s.lu, gone) && Dead(s.lu, dead)
  }

  /** What is in stock then is exactly what can be had. */
  lemma TrackedGives(fs: Spiffs, gone: set<nat>, dead: set<nat>)
    requires fs.Ok() && !fs.cleaning && Tracked(fs.g, fs.S(), gone, dead)
    ensures PageToHave(fs) <==> Stocked(fs.g, fs.freeEnt, fs.freeBlocks) > 0
    ensures Stocked(fs.g, fs.freeEnt, fs.freeBlocks) > 0 <==> fs.freeBlocks >= 2
  {
    ShelterNone(fs.g, fs.lu, gone);
    StraightSpot(fs.g, fs.P, fs.S());
  }

  /** A page is replaced: the new one is taken from the stock, the old one deleted. */
  lemma TrackedReplaced(g: Geo, P: set<nat>, s: St, t: St, s': St, p: nat, id: half, src: nat, gone: set<nat>, dead: set<nat>)
    requires Inv(g, P, s) && Inv(g, P, t) && Tracked(g, s, gone, dead) && s.freeBlocks >= 2 && TakesNext(g, s, t, p) && p in P
    requires t.lu == s.lu[p := id] && s.lu[p] == FREE_ID && Live(id) && src in P && Live(t.lu[src]) && s'.lu == t.lu[src := DELETED_ID]
    requires s'.freeBlk == t.freeBlk && s'.freeEnt == t.freeEnt && s'.freeBlocks == t.freeBlocks
    ensures Straight(g, s') && Dead(s'.lu, dead + {src}) && (src in gone ==> Shelter(g, s'.lu, gone))
    ensures Stocked(g, s.freeEnt, s.freeBlocks) == Stocked(g, s'.freeEnt, s'.freeBlocks) + 1
  {
    hide FreeSuffix, CursorOk, LivePages, DeletedPages, FreeBlocks, Straight, Shelter, Stocked, TakesNext;
    InvShape(g, P, s);
    StraightTaken(g, P, s, t, p, id);
    StraightDeleted(g, P, t, s', src);
    ShelterSet(g, P, s.lu, gone, p, id);
    if src in gone { ShelterSet(g, P, t.lu, gone, src, DELETED_ID); }
  }

  /** A page is deleted and not replaced. */
  lemma TrackedDeleted(g: Geo, P: set<nat>, s: St, s': St, src: nat, gone: set<nat>, dead: set<nat>)
    requires Inv(g, P, s) && Tracked(g, s, gone, dead) && src in P && Live(s.lu[src]) && s'.lu == s.lu[src := DELETED_ID]
    requires s'.freeBlk == s.freeBlk && s'.freeEnt == s.freeEnt && s'.freeBlocks == s.freeBlocks
    ensures Straight(g, s') && Dead(s'.lu, dead + {src}) && (src in gone ==> Shelter(g, s'.lu, gone))
  {
    hide FreeSuffix, CursorOk, LivePages, DeletedPages, FreeBlocks, Straight, Shelter;
    InvShape(g, P, s);
    StraightDeleted(g, P, s, s', src);
    if src in gone { ShelterSet(g, P, s.lu, gone, src, DELETED_ID); }
  }
}
