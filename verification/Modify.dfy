/** Overwriting part of a file: spiffs_object_modify.

    When a whole data page is to be replaced, the code drops the error of spiffs_page_allocate_data: without a new page it
    deletes the old one all the same, puts whatever `data_pix` holds into the index, and goes on.  The page is lost then, and
    the call may still succeed.  `dropped` tells that such an error has been dropped. */
module Modify {
  import opened Nor
  import opened Layout
  import opened Chunks
  import opened Image
  import opened Core
  import opened Descriptors
  import opened State
  import opened Alloc
  import opened Stock
  import opened Objects
  import opened Gc
  import opened Collect
  import GcRuns

  // ---------------------------------------------------------------- data pages

  /** Bytes are written into the data part of page p, at place `at`, which is erased there. */
  method WriteData(fs: Spiffs, p: half, at: nat, buf: seq<byte>)
    requires fs.Ok() && p as nat in fs.P && Live(fs.lu[p]) && at + |buf| <= fs.g.dps
    requires BytesOverlay(fs.pages[p].data[at..at + |buf|], buf)
    modifies fs`pages
    ensures fs.Ok()
    ensures fs.pages == old(fs.pages)[p := Filled(old(fs.pages)[p], at, buf)]
  {
    ghost var s := fs.S();
    var d := fs.pages[p].data;
    AndBytesOverlay(d[at..at + |buf|], buf);
    fs.pages := fs.pages[p := fs.pages[p].(data := d[..at] + AndBytes(d[at..at + |buf|], buf) + d[at + |buf|..])];
    Rewrite(fs.g, fs.P, s, p, fs.pages[p]);
  }

  function Put(d: seq<byte>, at: nat, buf: seq<byte>): (r: seq<byte>)
    requires at + |buf| <= |d|
    ensures |r| == |d|
    ensures forall i :: 0 <= i < |r| ==> r[i] == if at <= i < at + |buf| then buf[i - at] else d[i]
  {
    d[..at] + buf + d[at + |buf|..]
  }

  function Filled(p: Page, at: nat, buf: seq<byte>): (r: Page)
    requires at + |buf| <= |p.data|
    ensures |r.data| == |p.data| && r.flags == p.flags
  {
    p.(data := Put(p.data, at, buf))
  }

  /** spiffs_phys_cpy between two data pages: bytes a..b of the data part are copied to an erased place. */
  method CopyData(fs: Spiffs, dst: half, src: half, a: nat, b: nat)
    requires fs.Ok() && dst as nat in fs.P && Live(fs.lu[dst]) && src as nat in fs.P && a <= b <= fs.g.dps
    requires forall i :: a <= i < b ==> fs.pages[dst].data[i] == 0xFF
    modifies fs`pages
    ensures fs.Ok()
    ensures fs.pages == old(fs.pages)[dst := Filled(old(fs.pages)[dst], a, old(fs.pages)[src].data[a..b])]
  {
    if a < b {
      WriteData(fs, dst, a, fs.pages[src].data[a..b]);
    } else {
      FilledNothing(fs.pages[dst], a);
      assert fs.pages[src].data[a..b] == [];
    }
  }

  lemma FilledNothing(p: Page, at: nat)
    requires at <= |p.data|
    ensures Filled(p, at, []) == p
  {
    assert Put(p.data, at, []) == p.data;
  }

  /** Erased, and filled with what is to be kept of the old page. */
  function Around(new': Page, was: Page, at: nat, e: nat): Page
    requires at <= e <= |new'.data| == |was.data|
  {
    Filled(Filled(new', 0, was.data[0..at]), e, was.data[e..|was.data|])
  }

  /** ... and with the new bytes. */
  function Rebuilt(new': Page, was: Page, at: nat, buf: seq<byte>): Page
    requires at + |buf| <= |new'.data| == |was.data|
  {
    Filled(Around(new', was, at, at + |buf|), at, buf)
  }

  method CopyAround(fs: Spiffs, q: half, src: half, at: nat, e: nat)
    requires fs.Ok() && q as nat in fs.P && Live(fs.lu[q]) && src as nat in fs.P && src != q && at <= e <= fs.g.dps
    requires fs.pages[q].data == Ones(fs.g.dps)
    modifies fs`pages
    ensures fs.Ok()
    ensures fs.pages == old(fs.pages)[q := Around(old(fs.pages)[q], old(fs.pages)[src], at, e)]
  {
    CopyData(fs, q, src, 0, at);
    CopyData(fs, q, src, e, fs.g.dps);
  }

  lemma RebuiltIs(g: Geo, id: half, s: nat, c: seq<byte>, at: nat, buf: seq<byte>)
    requires s < 0xFFFF && |c| <= g.dps && at + |buf| <= |c|
    ensures Rebuilt(NewPage(g, id, s, ERASED_FLAGS, [], false), DataPage(g, id, s, c), at, buf).(flags := DATA_FLAGS)
         == DataPage(g, id, s, Splice(c, at, buf))
  {
    PutAround(c, Ones(g.dps - |c|), Ones(g.dps), at, buf);
    var was, new' := DataPage(g, id, s, c), NewPage(g, id, s, ERASED_FLAGS, [], false);
    assert new'.data == Ones(g.dps);
    assert was.data[at + |buf|..|was.data|] == was.data[at + |buf|..];
  }

  lemma PutAround(c: seq<byte>, rest: seq<byte>, blank: seq<byte>, at: nat, buf: seq<byte>)
    requires at + |buf| <= |c| && |blank| == |c| + |rest|
    ensures var was, e := c + rest, at + |buf|;
            Put(Put(Put(blank, 0, was[0..at]), e, was[e..]), at, buf) == Splice(c, at, buf) + rest
  {
    var was, e := c + rest, at + |buf|;
    var a := Put(blank, 0, was[0..at]);
    var b := Put(a, e, was[e..]);
    var r := Put(b, at, buf);
    forall i | 0 <= i < |r| ensures r[i] == (Splice(c, at, buf) + rest)[i] {
      if at <= i < e {
        assert r[i] == buf[i - at];
      } else if i < at {
        assert r[i] == a[i] == was[i];
      } else {
        assert r[i] == b[i] == was[i];
      }
    }
  }

  /** The middle of an overwrite: the bytes around the new ones are copied, the new ones written, and
      the page finalized. */
  method RebuildPage(fs: Spiffs, q: half, id: half, s: half, src: half, ghost c: seq<byte>, at: nat, buf: seq<byte>)
    requires fs.Ok() && q as nat in fs.P && Live(fs.lu[q]) && src as nat in fs.P && src != q
    requires s < 0xFFFF && |c| <= fs.g.dps && at + |buf| <= |c| && fs.pages[src] == DataPage(fs.g, id, s, c)
    requires fs.pages[q] == NewPage(fs.g, id, s, ERASED_FLAGS, [], false)
    modifies fs`pages
    ensures fs.Ok()
    ensures fs.pages == old(fs.pages)[q := DataPage(fs.g, id, s, Splice(c, at, buf))]
  {
    hide Inv, DataPage, NewPage;
    ghost var pages := fs.pages;
    EmptyPage(fs.g, id, s);
    RebuildShape(fs, q, id, s, c);
    CopyAround(fs, q, src, at, at + |buf|);
    WriteData(fs, q, at, buf);
    Finalize(fs, q);
    RebuiltIs(fs.g, id, s, c, at, buf);
    assert fs.pages == pages[q := Rebuilt(pages[q], pages[src], at, buf).(flags := DATA_FLAGS)];
  }

  lemma RebuildShape(fs: Spiffs, q: half, id: half, s: half, c: seq<byte>)
    requires fs.Ok() && q as nat in fs.P && s < 0xFFFF && |c| <= fs.g.dps
    ensures |fs.pages| == |fs.lu| && q as nat < |fs.pages| && |fs.pages[q].data| == fs.g.dps
    ensures |DataPage(fs.g, id, s, c).data| == fs.g.dps
    ensures forall p :: p in fs.P ==> p < |fs.pages|
  {
  }

  lemma EmptyPage(g: Geo, id: half, s: half)
    ensures NewPage(g, id, s, ERASED_FLAGS, [], false).flags == ERASED_FLAGS.(used := false)
    ensures NewPage(g, id, s, ERASED_FLAGS, [], false).data == Ones(g.dps)
  {
  }

  /** The final flag of a used data page is cleared. */
  method Finalize(fs: Spiffs, q: half)
    requires fs.Ok() && q as nat in fs.P && Live(fs.lu[q])
    requires NorFlags(fs.pages[q].flags, DATA_FLAGS) == DATA_FLAGS
    modifies fs`pages
    ensures fs.Ok() && fs.pages == old(fs.pages)[q := old(fs.pages)[q].(flags := DATA_FLAGS)]
  {
    ghost var s := fs.S();
    fs.pages := fs.pages[q := fs.pages[q].(flags := NorFlags(fs.pages[q].flags, DATA_FLAGS))];
    Rewrite(fs.g, fs.P, s, q, fs.pages[q]);
  }

  /** A full page of new bytes is a data page that replaces one of the same length. */
  lemma FullPageIs(g: Geo, id: half, s: half, c: seq<byte>, buf: seq<byte>)
    requires s < 0xFFFF && |buf| == g.dps && |c| == g.dps
    ensures NewPage(g, id, s, ERASED_FLAGS, buf, true) == DataPage(g, id, s, Splice(c, 0, buf))
  {
    assert Splice(c, 0, buf) == buf;
  }

  /** The new page for an overwrite: a full one, or one rebuilt from the old page. */
  method AllocateCopy(fs: Spiffs, id: half, s: half, src: half, ghost c: seq<byte>, at: nat, buf: seq<byte>)
    returns (st: Status, q: half, ghost mlu: seq<half>, ghost mpages: seq<Page>)
    requires fs.Ok() && 0 < id < 0x7FFF && src as nat in fs.P && fs.lu[src] == id
    requires s < 0xFFFF && |c| <= fs.g.dps && at + |buf| <= |c| && fs.pages[src] == DataPage(fs.g, id, s, c)
    requires PageDataCheck(fs.g, fs.pages, id, src, s) == OK
    modifies fs`lu, fs`pages, fs`freeBlocks, fs`surplus, fs`maxErase, fs`eraseCnt, fs`nDel, fs`freeBlk, fs`freeEnt,
             fs`nAlloc
    ensures Spacious(st) && (st == OK <==> old(PageToHave(fs)))
    ensures fs.Ok() && OnlyDeletedErased(fs.P, old(fs.lu), old(fs.pages), mlu, mpages)
    ensures st != OK ==> fs.lu == mlu && fs.pages == mpages
    ensures st == OK ==> q as nat in fs.P && q as nat < |mlu| && mlu[q] == FREE_ID && q != src
    ensures st == OK ==> fs.lu == mlu[q := id]
    ensures st == OK ==> fs.pages == mpages[q := DataPage(fs.g, id, s, Splice(c, at, buf))]
    ensures old(fs.freeBlocks) >= 2 ==> mlu == old(fs.lu)
    ensures old(fs.freeBlocks) >= 2 && st == OK ==> TakesNext(fs.g, old(fs.S()), fs.S(), q as nat)
    ensures old(fs.freeBlocks) >= 1 && st != OK ==> fs.S() == old(fs.S())
  {
    hide FreeSuffix, CursorOk, LivePages, DeletedPages, FreeBlocks, FreePages, SomeDeletedBlock, TakesNext;
    if at == 0 && |buf| == fs.g.dps {
      FullPageIs(fs.g, id, s, c, buf);
      st, q, mlu, mpages := PageAllocate(fs, id, s, ERASED_FLAGS, buf, true);
    } else {
      st := PageDataCheck(fs.g, fs.pages, id, src, s);
      st, q, mlu, mpages := PageAllocate(fs, id, s, ERASED_FLAGS, [], false);
      if st != OK { return; }
      ghost var u := fs.S();
      RebuildPage(fs, q, id, s, src, c, at, buf);
      TakenStill(fs.g, old(fs.S()), u, fs.S(), q as nat);
    }
  }

  /** What is written to the page that has been taken is another matter. */
  lemma TakenStill(g: Geo, s: St, t: St, u: St, p: nat)
    requires u == t.(pages := u.pages)
    ensures TakesNext(g, s, t, p) ==> TakesNext(g, s, u, p)
  {
  }

  /** Data page s of an object is to hold the bytes it had with `buf` put over them; the index names page q for it, which holds
      them unless the page is lost. */
  ghost function Overwritten(dir: Dir, id: half, s: nat, q: half, at: nat, buf: seq<byte>, loses: bool): Dir {
    if id in dir && s < |dir[id].data| && s < |dir[id].chunks| && at <= |dir[id].chunks[s]| then
      var o := dir[id];
      dir[id := o.(data := o.data[s := q], chunks := o.chunks[s := Splice(o.chunks[s], at, buf)],
                   lost := if loses then o.lost + {s} else o.lost)]
    else dir
  }

  lemma Replaced(g: Geo, P: set<nat>, lu: seq<half>, pages: seq<Page>, mlu: seq<half>, mpages: seq<Page>, dir: Dir,
                 dirty: set<nat>, id: half, s: nat, q: half, at: nat, buf: seq<byte>)
    requires g.Valid() && Rep(g, P, lu, pages, dir, dirty) && OnlyDeletedErased(P, lu, pages, mlu, mpages)
    requires id in dir && s < |dir[id].data| && s !in dir[id].lost && at + |buf| <= |dir[id].chunks[s]| <= g.dps
    requires g.IxOf(s) < |dir[id].ix| && dir[id].ix[g.IxOf(s)] as nat in dirty
    requires q as nat in P && q as nat < |mlu| && mlu[q] == FREE_ID && dir[id].data[s] as nat < |mlu|
    ensures var src := dir[id].data[s];
            Rep(g, P, mlu[q := id][src := DELETED_ID],
                mpages[q := DataPage(g, id, s, Splice(dir[id].chunks[s], at, buf))][src := Deleted(mpages[src])],
                Overwritten(dir, id, s, q, at, buf, false), dirty)
  {
    var o, src := dir[id], dir[id].data[s];
    EraseStep(g, P, lu, pages, dir, dirty, mlu, mpages);
    assert DataOk(g, P, mlu, mpages, id, o, s);
    PutDataStep(g, P, mlu, mpages, dir, dirty, mlu[q := id][src := DELETED_ID],
                mpages[q := DataPage(g, id, s, Splice(o.chunks[s], at, buf))][src := Deleted(mpages[src])],
                id, s, q, Splice(o.chunks[s], at, buf));
  }

  /** The old page is deleted without a new one. */
  lemma NotReplaced(g: Geo, P: set<nat>, lu: seq<half>, pages: seq<Page>, mlu: seq<half>, mpages: seq<Page>, dir: Dir,
                    dirty: set<nat>, id: half, s: nat, q: half, buf: seq<byte>)
    requires g.Valid() && Rep(g, P, lu, pages, dir, dirty) && OnlyDeletedErased(P, lu, pages, mlu, mpages)
    requires id in dir && s < |dir[id].data| <= g.Pages() && s !in dir[id].lost && |buf| == |dir[id].chunks[s]| == g.dps
    requires g.IxOf(s) < |dir[id].ix| && dir[id].ix[g.IxOf(s)] as nat in dirty && dir[id].data[s] as nat < |mlu|
    ensures var src := dir[id].data[s];
            Rep(g, P, mlu[src := DELETED_ID], mpages[src := Deleted(mpages[src])], Overwritten(dir, id, s, q, 0, buf, true), dirty)
  {
    hide Flatten, Full;
    var o, src := dir[id], dir[id].data[s];
    EraseStep(g, P, lu, pages, dir, dirty, mlu, mpages);
    assert DataOk(g, P, mlu, mpages, id, o, s);
    LoseDataStep(g, P, mlu, mpages, dir, dirty, mlu[src := DELETED_ID], mpages[src := Deleted(mpages[src])],
                 id, s, q, Splice(o.chunks[s], 0, buf));
  }

  /** Whether a piece replaces a whole data page. */
  predicate WholePage(g: Geo, at: nat, buf: seq<byte>) { at == 0 && |buf| == g.dps }

  /** What is in stock, blocks that count twice included. */
  ghost function Left(fs: Spiffs): nat
    reads fs
  {
    Stocked(fs.g, fs.freeEnt, fs.freeBlocks)
  }

  /** The free blocks follow the cursor, `left` pages of them can be had, and the pages `dead` are deleted; as long as `more`, no
      block is deleted as a whole even when the pages `gone` are. */
  ghost predicate Ran(fs: Spiffs, gone: set<nat>, dead: set<nat>, more: bool, left: nat)
    reads fs
  {
    Straight(fs.g, fs.S()) && Dead(fs.lu, dead) && (more ==> Shelter(fs.g, fs.lu, gone)) && Left(fs) == left
  }

  lemma ReplaceStarts(fs: Spiffs, id: half, k: half, s: half, at: nat, buf: seq<byte>)
    requires fs.Ok() && id in fs.dir && k as nat < |fs.dir[id].ix|
    requires Rep(fs.g, fs.P, fs.lu, fs.pages, fs.dir, {fs.dir[id].ix[k] as nat})
    requires s as nat < |fs.dir[id].data| && s as nat !in fs.dir[id].lost && at + |buf| <= |fs.dir[id].chunks[s]|
    ensures |fs.dir[id].chunks| == |fs.dir[id].data|
    ensures fs.g.Valid() && 0 < id < 0x7FFF && s < 0xFFFF && |fs.dir[id].chunks[s]| <= fs.g.dps
    ensures Entries(fs.g, fs.P) && |fs.lu| == |fs.pages| == fs.g.Pages()
    ensures var src := fs.dir[id].data[s];
            && src as nat in fs.P && src as nat < |fs.lu| && fs.lu[src] == id
            && fs.pages[src] == DataPage(fs.g, id, s, fs.dir[id].chunks[s])
            && PageDataCheck(fs.g, fs.pages, id, src, s) == OK
  {
    assert DataOk(fs.g, fs.P, fs.lu, fs.pages, id, fs.dir[id], s as nat);
    DataCheckOk(fs.g, fs.P, fs.lu, fs.pages, fs.dir, {fs.dir[id].ix[k] as nat}, id, s as nat);
  }

  /** The old page is live until it is deleted. */
  lemma StillLive(P: set<nat>, lu: seq<half>, pages: seq<Page>, mlu: seq<half>, mpages: seq<Page>, src: half, id: half)
    requires OnlyDeletedErased(P, lu, pages, mlu, mpages) && src as nat in P && src as nat < |lu| && lu[src] == id && Live(id)
    ensures src as nat < |mlu| == |mpages| && mlu[src] == id
  {
  }

  /** What replacing a page does to what is in stock: t is before, u behind the allocation, v behind the deletion. */
  lemma AfterReplace(g: Geo, P: set<nat>, t: St, u: St, v: St, q: half, id: half, src: half, ok: bool, gone: set<nat>, dead: set<nat>)
    requires Inv(g, P, t) && Inv(g, P, u) && src as nat in P && Live(u.lu[src]) && Live(id)
    requires ok && t.freeBlocks >= 2 ==> TakesNext(g, t, u, q as nat) && q as nat in P && t.lu[q] == FREE_ID && u.lu == t.lu[q := id]
    requires !ok && t.freeBlocks >= 1 ==> u == t
    requires v == u.(lu := u.lu[src := DELETED_ID], pages := v.pages, nAlloc := v.nAlloc, nDel := v.nDel)
    requires Tracked(g, t, gone, dead) ==> (ok <==> t.freeBlocks >= 2)
    ensures ok && t.freeBlocks >= 2 ==>
              Stocked(g, t.freeEnt, t.freeBlocks - t.surplus) <= Stocked(g, v.freeEnt, v.freeBlocks - v.surplus) + 1
    ensures Tracked(g, t, gone, dead) ==>
              && Straight(g, v) && Dead(v.lu, dead + {src as nat}) && (src as nat in gone ==> Shelter(g, v.lu, gone))
              && Stocked(g, v.freeEnt, v.freeBlocks) ==
                 if Stocked(g, t.freeEnt, t.freeBlocks) > 0 then Stocked(g, t.freeEnt, t.freeBlocks) - 1 else 0
  {
    hide FlashOk, FreeSuffix, CursorOk, LivePages, DeletedPages, FreeBlocks, Straight, Shelter, Dead, TakesNext;
    if ok && t.freeBlocks >= 2 { StockTaken(g, P, t, u, q as nat); }
    if Tracked(g, t, gone, dead) {
      StockedMeans(g, P, t);
      StraightFree(g, t);
      if ok {
        TrackedReplaced(g, P, t, u, v, q as nat, id, src as nat, gone, dead);
      } else {
        TrackedDeleted(g, P, t, v, src as nat, gone, dead);
      }
    }
  }

  lemma StockedMeans(g: Geo, P: set<nat>, s: St)
    requires Inv(g, P, s)
    ensures Stocked(g, s.freeEnt, s.freeBlocks) > 0 <==> s.freeBlocks >= 2
  {
  }

  /** A data page is replaced by a new one, with part of it overwritten.  Without a new page nothing is done to a page of which
      part is to be kept; a page that is to be replaced as a whole is deleted all the same, and `dataPix` is what the index
      names then. */
  method ReplaceData(fs: Spiffs, id: half, k: half, s: half, src: half, at: nat, buf: seq<byte>, dataPix: half,
                     ghost gone: set<nat>, ghost dead: set<nat>)
    returns (st: Status, q: half, dropped: bool)
    requires fs.Ok() && !fs.cleaning && id in fs.dir && k as nat < |fs.dir[id].ix|
    requires Rep(fs.g, fs.P, fs.lu, fs.pages, fs.dir, {fs.dir[id].ix[k] as nat})
    requires s as nat < |fs.dir[id].data| <= fs.g.Pages() && s as nat !in fs.dir[id].lost
    requires fs.dir[id].data[s] == src && fs.g.IxOf(s) == k as nat
    requires at + |buf| <= |fs.dir[id].chunks[s]|
    modifies fs`lu, fs`pages, fs`freeBlocks, fs`surplus, fs`maxErase, fs`eraseCnt, fs`nDel, fs`freeBlk, fs`freeEnt,
             fs`nAlloc, fs`dir
    ensures Spacious(st) && (st == OK <==> old(PageToHave(fs)) || WholePage(fs.g, at, buf))
    ensures dropped <==> WholePage(fs.g, at, buf) && !old(PageToHave(fs))
    ensures fs.Ok() && Rep(fs.g, fs.P, fs.lu, fs.pages, fs.dir, {old(fs.dir)[id].ix[k] as nat})
    ensures fs.dir == if st == OK then Overwritten(old(fs.dir), id, s, q, at, buf, dropped) else old(fs.dir)
    ensures dropped ==> q == dataPix
    ensures old(InStock(fs)) >= 1 ==> old(PageToHave(fs)) && InStock(fs) + 1 >= old(InStock(fs))
    ensures old(Tracked(fs.g, fs.S(), gone, dead)) ==> (old(PageToHave(fs)) <==> old(Left(fs)) > 0)
    ensures old(Tracked(fs.g, fs.S(), gone, dead)) && st == OK ==>
              Ran(fs, gone, dead + {src as nat}, src as nat in gone, if old(Left(fs)) > 0 then old(Left(fs)) - 1 else 0)
  {
    hide Inv, Rep, Flatten, Full, Stocked, TakesNext, Straight, Shelter, Dead, PageToHave, DataPage, OnlyDeletedErased,
      PageDataCheck, Overwritten, Splice;
    ghost var dir, lu, pages, o, t := fs.dir, fs.lu, fs.pages, fs.dir[id], fs.S();
    ghost var dirty := {o.ix[k] as nat};
    ReplaceStarts(fs, id, k, s, at, buf);
    if InStock(fs) >= 1 { StockGives(fs); }
    if Tracked(fs.g, t, gone, dead) { TrackedGives(fs, gone, dead); }
    ghost var mlu, mpages;
    st, q, mlu, mpages := AllocateCopy(fs, id, s, src, o.chunks[s], at, buf);
    dropped := false;
    if st != OK {
      if at != 0 || |buf| != fs.g.dps {
        EraseStep(fs.g, fs.P, lu, pages, dir, dirty, mlu, mpages);
        return;
      }
      dropped := true;
      q := dataPix;
    }
    StillLive(fs.P, lu, pages, mlu, mpages, src, id);
    TakeOut(fs, id, s, src, q, at, buf, lu, pages, mlu, mpages, dirty, dropped, t, gone, dead);
    st := OK;
  }

  /** The old page is deleted. */
  method TakeOut(fs: Spiffs, id: half, s: half, src: half, ghost q: half, ghost at: nat, ghost buf: seq<byte>, ghost lu: seq<half>,
                 ghost pages: seq<Page>, ghost mlu: seq<half>, ghost mpages: seq<Page>, ghost dirty: set<nat>, ghost dropped: bool,
                 ghost t: St, ghost gone: set<nat>, ghost dead: set<nat>)
    requires fs.Ok() && Rep(fs.g, fs.P, lu, pages, fs.dir, dirty) && OnlyDeletedErased(fs.P, lu, pages, mlu, mpages)
    requires fs.g.Valid() && id in fs.dir && Live(id) && s as nat < |fs.dir[id].data| == |fs.dir[id].chunks| && s as nat !in fs.dir[id].lost
    requires |fs.dir[id].data| <= fs.g.Pages()
    requires fs.dir[id].data[s] == src && src as nat in fs.P && src as nat < |lu| && lu[src] == id
    requires at + |buf| <= |fs.dir[id].chunks[s]| <= fs.g.dps && (dropped ==> at == 0 && |buf| == |fs.dir[id].chunks[s]| == fs.g.dps)
    requires fs.g.IxOf(s) < |fs.dir[id].ix| && fs.dir[id].ix[fs.g.IxOf(s)] as nat in dirty && s < 0xFFFF
    requires if dropped then fs.lu == mlu && fs.pages == mpages
             else q as nat in fs.P && q as nat < |mlu| == |mpages| && mlu[q] == FREE_ID && q != src && fs.lu == mlu[q := id]
                  && fs.pages == mpages[q := DataPage(fs.g, id, s, Splice(fs.dir[id].chunks[s], at, buf))]
    requires Inv(fs.g, fs.P, t)
    requires !dropped && t.freeBlocks >= 2 ==>
               TakesNext(fs.g, t, fs.S(), q as nat) && t.lu[q] == FREE_ID && fs.lu == t.lu[q := id]
    requires dropped && t.freeBlocks >= 1 ==> fs.S() == t
    requires Tracked(fs.g, t, gone, dead) ==> (!dropped <==> t.freeBlocks >= 2)
    modifies fs`lu, fs`pages, fs`nDel, fs`nAlloc, fs`dir
    ensures fs.Ok() && Rep(fs.g, fs.P, fs.lu, fs.pages, fs.dir, dirty)
    ensures fs.dir == Overwritten(old(fs.dir), id, s, q, at, buf, dropped)
    ensures !dropped && t.freeBlocks >= 2 ==> Stocked(fs.g, t.freeEnt, t.freeBlocks - t.surplus) <= InStock(fs) + 1
    ensures Tracked(fs.g, t, gone, dead) ==>
              var left := Stocked(fs.g, t.freeEnt, t.freeBlocks);
              Ran(fs, gone, dead + {src as nat}, src as nat in gone, if left > 0 then left - 1 else 0)
  {
    hide Inv, Rep, Flatten, Full, Stocked, TakesNext, Straight, Shelter, Dead, Tracked, DataPage, OnlyDeletedErased, Overwritten,
      Splice;
    ghost var dir, u := fs.dir, fs.S();
    StillLive(fs.P, lu, pages, mlu, mpages, src, id);
    PageDelete(fs, src);
    if dropped {
      NotReplaced(fs.g, fs.P, lu, pages, mlu, mpages, dir, dirty, id, s, q, buf);
    } else {
      Replaced(fs.g, fs.P, lu, pages, mlu, mpages, dir, dirty, id, s, q, at, buf);
    }
    AfterReplace(fs.g, fs.P, t, u, fs.S(), q, id, src, !dropped, gone, dead);
    fs.dir := Overwritten(dir, id, s, q, at, buf, dropped);
  }

  // ---------------------------------------------------------------- what an operation on one object changes

  /** Nothing is different but where pages are and what object `id` holds. */
  ghost predicate OnlyContent(dir: Dir, dir': Dir, id: half) {
    && dir'.Keys == dir.Keys
    && (forall x :: x in dir ==> dir'[x].name == dir[x].name && dir'[x].doomed == dir[x].doomed)
    && (forall x :: x in dir && x != id ==>
                      && dir'[x].chunks == dir[x].chunks && dir'[x].lost == dir[x].lost
                      && |dir'[x].ix| == |dir[x].ix| && |dir'[x].data| == |dir[x].data|)
  }

  /** Object `id` has as many index and data pages as before. */
  ghost predicate SameLens(dir: Dir, dir': Dir, id: half) {
    id in dir && id in dir' && |dir'[id].ix| == |dir[id].ix| && |dir'[id].data| == |dir[id].data|
  }

  lemma ContentTransitive(a: Dir, b: Dir, c: Dir, id: half)
    requires OnlyContent(a, b, id) && OnlyContent(b, c, id)
    ensures OnlyContent(a, c, id)
    ensures SameLens(a, b, id) && SameLens(b, c, id) ==> SameLens(a, c, id)
  {
  }

  lemma ContentRefl(dir: Dir, id: half)
    requires id in dir
    ensures OnlyContent(dir, dir, id) && SameLens(dir, dir, id)
  {
  }

  lemma MeaningIsContent(dir: Dir, dir': Dir, id: half)
    requires SameMeaning(dir, dir') && id in dir
    ensures OnlyContent(dir, dir', id) && SameLens(dir, dir', id) && Bytes(dir'[id]) == Bytes(dir[id])
    ensures dir'[id].lost == dir[id].lost
  {
  }

  // ---------------------------------------------------------------- one data page

  /** The work buffer holds index page k of object `id`; the page on flash may be out of date. */
  ghost predicate Loaded(fs: Spiffs, id: half, k: nat)
    reads fs
  {
    && id in fs.dir && k < |fs.dir[id].ix| && k < 0xFFFF
    && Mid(fs, Op({fs.dir[id].ix[k] as nat}, {}, 0))
    && fs.work == IxPage(fs.g, id, fs.dir[id], k)
  }

  /** ... and that page is `pix`. */
  ghost predicate LoadedAt(fs: Spiffs, id: half, k: nat, pix: half)
    reads fs
  {
    Loaded(fs, id, k) && fs.dir[id].ix[k] == pix
  }

  lemma LoadedTorn(fs: Spiffs, id: half, k: half)
    requires Loaded(fs, id, k)
    ensures Torn(fs, id, {})
  {
    MidTorn(fs, Op({fs.dir[id].ix[k] as nat}, {}, 0), id, {});
  }

  lemma LoadedShape(fs: Spiffs, id: half, k: nat)
    requires Loaded(fs, id, k)
    ensures fs.g.Valid() && DirOk(fs.g, fs.dir) && 0 !in fs.dir && id in fs.dir && ObjShape(fs.g, fs.dir[id])
    ensures FdsOk(fs.fds, fs.wc, fs.dir, 0, {})
  {
  }

  lemma MidShape(fs: Spiffs, op: Op)
    requires Mid(fs, op)
    ensures fs.g.Valid() && DirOk(fs.g, fs.dir) && 0 !in fs.dir
    ensures forall id :: id in fs.dir ==> ObjShape(fs.g, fs.dir[id])
  {
  }

  /** Where the index page names data page s. */
  lemma SlotNames(g: Geo, id: half, o: Obj, s: nat)
    requires g.Valid() && ObjShape(g, o) && id < IX_FLAG && s < |o.data|
    ensures g.IxOf(s) < 0xFFFF && (if g.IxOf(s) == 0 then s else g.SlotOf(s)) == g.SlotOf(s) < g.Cap()
    ensures IxPage(g, id, o, g.IxOf(s)).slots[g.SlotOf(s)] == o.data[s]
  {
    IxCovers(g, o, s);
    SlotLaw(g, s);
  }

  /** The index page after data page s has been replaced. */
  lemma OverwrittenIx(g: Geo, id: half, o: Obj, s: nat, q: half, at: nat, buf: seq<byte>, loses: bool)
    requires g.Valid() && ObjShape(g, o) && id < IX_FLAG && s < |o.data| && at + |buf| <= |o.chunks[s]|
    requires loses ==> |o.chunks[s]| == g.dps && s < g.Pages()
    ensures var o' := o.(data := o.data[s := q], chunks := o.chunks[s := Splice(o.chunks[s], at, buf)],
                         lost := if loses then o.lost + {s} else o.lost);
            && ObjShape(g, o') && g.IxOf(s) < 0xFFFF && g.SlotOf(s) < g.Cap()
            && Bytes(o') == Spliced(Bytes(o), Start(g.dps, s) + at, buf) && |Bytes(o')| == |Bytes(o)|
            && var was := IxPage(g, id, o, g.IxOf(s));
               IxPage(g, id, o', g.IxOf(s)) == was.(slots := was.slots[g.SlotOf(s) := q])
  {
    hide Flatten, Full, IxPage;
    var o' := o.(data := o.data[s := q], chunks := o.chunks[s := Splice(o.chunks[s], at, buf)],
                 lost := if loses then o.lost + {s} else o.lost);
    IxCovers(g, o, s);
    OverwrittenShape(g, o, s, q, at, buf, loses);
    OverwrittenSlots(g, id, o, o', s, q);
  }

  lemma OverwrittenShape(g: Geo, o: Obj, s: nat, q: half, at: nat, buf: seq<byte>, loses: bool)
    requires g.Valid() && ObjShape(g, o) && s < |o.data| && at + |buf| <= |o.chunks[s]|
    requires loses ==> |o.chunks[s]| == g.dps && s < g.Pages()
    ensures var o' := o.(data := o.data[s := q], chunks := o.chunks[s := Splice(o.chunks[s], at, buf)],
                         lost := if loses then o.lost + {s} else o.lost);
            && ObjShape(g, o') && Bytes(o') == Spliced(Bytes(o), Start(g.dps, s) + at, buf) && |Bytes(o')| == |Bytes(o)|
  {
    hide Flatten, Full;
    FlattenUpdate(o.chunks, g.dps, s, at, buf);
  }

  lemma OverwrittenSlots(g: Geo, id: half, o: Obj, o': Obj, s: nat, q: half)
    requires g.Valid() && ObjShape(g, o) && ObjShape(g, o') && id < IX_FLAG && s < |o.data|
    requires o'.data == o.data[s := q] && o'.name == o.name && o'.doomed == o.doomed && |Bytes(o')| == |Bytes(o)|
    ensures g.IxOf(s) < 0xFFFF && g.SlotOf(s) < g.Cap()
    ensures var was := IxPage(g, id, o, g.IxOf(s));
            IxPage(g, id, o', g.IxOf(s)) == was.(slots := was.slots[g.SlotOf(s) := q])
  {
    hide Flatten, Full;
    IxCovers(g, o, s);
    SlotsForUpdate(g, o.data, s, q, g.IxOf(s));
  }

  /** Splice, made total. */
  function Spliced(was: seq<byte>, off: nat, buf: seq<byte>): seq<byte> {
    if off <= |was| then Splice(was, off, buf) else was
  }

  /** One data page is overwritten, and its slot in the work buffer follows. */
  method ReplaceDataWork(fs: Spiffs, id: half, k: half, s: half, at: nat, buf: seq<byte>, dataPix: half,
                         ghost gone: set<nat>, ghost dead: set<nat>)
    returns (st: Status, q: half, dropped: bool)
    requires fs.Ok() && !fs.cleaning && id in fs.dir && k as nat < |fs.dir[id].ix|
    requires Rep(fs.g, fs.P, fs.lu, fs.pages, fs.dir, {fs.dir[id].ix[k] as nat})
    requires fs.work == IxPage(fs.g, id, fs.dir[id], k as nat)
    requires s as nat < |fs.dir[id].data| <= fs.g.Pages() && s as nat !in fs.dir[id].lost
    requires fs.g.IxOf(s) == k as nat && at + |buf| <= |fs.dir[id].chunks[s]|
    modifies fs`lu, fs`pages, fs`freeBlocks, fs`surplus, fs`maxErase, fs`eraseCnt, fs`nDel, fs`freeBlk, fs`freeEnt,
             fs`nAlloc, fs`dir, fs`work
    ensures Spacious(st) && (st == OK <==> old(PageToHave(fs)) || WholePage(fs.g, at, buf))
    ensures dropped <==> WholePage(fs.g, at, buf) && !old(PageToHave(fs))
    ensures fs.Ok() && Rep(fs.g, fs.P, fs.lu, fs.pages, fs.dir, {old(fs.dir)[id].ix[k] as nat})
    ensures fs.dir == if st == OK then Overwritten(old(fs.dir), id, s, q, at, buf, dropped) else old(fs.dir)
    ensures id in fs.dir && fs.work == IxPage(fs.g, id, fs.dir[id], k as nat)
    ensures st != OK || dropped ==> q == dataPix
    ensures old(InStock(fs)) >= 1 ==> old(PageToHave(fs)) && InStock(fs) + 1 >= old(InStock(fs))
    ensures old(Tracked(fs.g, fs.S(), gone, dead)) ==> (old(PageToHave(fs)) <==> old(Left(fs)) > 0)
    ensures old(Tracked(fs.g, fs.S(), gone, dead)) && st == OK ==>
              var src := old(fs.dir)[id].data[s] as nat;
              Ran(fs, gone, dead + {src}, src in gone, if old(Left(fs)) > 0 then old(Left(fs)) - 1 else 0)
  {
    hide Inv, Rep, Flatten, Full, Stocked, Straight, Shelter, Dead, PageToHave, IxPage;
    ghost var o := fs.dir[id];
    WorkShape(fs, id, k, s, at, buf);
    SlotNames(fs.g, id, o, s);
    var slot := if k == 0 then s as nat else fs.g.SlotOf(s);
    var src, dst := fs.work.slots[slot], dataPix;
    st, dst, dropped := ReplaceData(fs, id, k, s, src, at, buf, dataPix, gone, dead);
    if st != OK {
      q := dataPix;
      return;
    }
    q := dst;
    OverwrittenIx(fs.g, id, o, s, q, at, buf, dropped);
    fs.work := fs.work.(slots := fs.work.slots[slot := dst]);
  }

  lemma WorkShape(fs: Spiffs, id: half, k: half, s: half, at: nat, buf: seq<byte>)
    requires fs.Ok() && id in fs.dir && k as nat < |fs.dir[id].ix|
    requires Rep(fs.g, fs.P, fs.lu, fs.pages, fs.dir, {fs.dir[id].ix[k] as nat})
    requires s as nat < |fs.dir[id].data| && s as nat !in fs.dir[id].lost && at + |buf| <= |fs.dir[id].chunks[s]|
    ensures fs.g.Valid() && ObjShape(fs.g, fs.dir[id]) && 0 < id < 0x7FFF && |fs.work.slots| == fs.g.Cap()
    ensures |fs.dir[id].chunks[s]| <= fs.g.dps && |fs.dir[id].name| == NAME_LEN && k < 0xFFFF
  {
    ReplaceStarts(fs, id, k, s, at, buf);
  }

  lemma OverwrittenContent(g: Geo, dir: Dir, id: half, s: nat, q: half, at: nat, buf: seq<byte>, loses: bool)
    requires g.Valid() && DirOk(g, dir) && id in dir
    requires s < |dir[id].data| && at + |buf| <= |dir[id].chunks[s]| && (loses ==> |dir[id].chunks[s]| == g.dps && s < g.Pages())
    ensures var dir' := Overwritten(dir, id, s, q, at, buf, loses);
            && OnlyContent(dir, dir', id) && SameLens(dir, dir', id) && dir'.Keys == dir.Keys
            && (forall x :: x in dir ==> dir'[x].ix == dir[x].ix)
            && Bytes(dir'[id]) == Spliced(Bytes(dir[id]), Start(g.dps, s) + at, buf) && |Bytes(dir'[id])| == |Bytes(dir[id])|
            && dir'[id].lost == (if loses then dir[id].lost + {s} else dir[id].lost) && dir'[id].data == dir[id].data[s := q]
  {
    hide Flatten, Full, IxPage, Splice;
    OverwrittenIx(g, id, dir[id], s, q, at, buf, loses);
  }

  /** Descriptors have nothing to do with where data pages are, nor with what is in them. */
  lemma ContentFds(fds: seq<Fd>, wc: seq<CPage>, dir: Dir, dir': Dir, id: half)
    requires FdsOk(fds, wc, dir, 0, {}) && id in dir && 0 !in dir && OnlyContent(dir, dir', id)
    requires forall x :: x in dir ==> dir'[x].ix == dir[x].ix
    requires |Bytes(dir'[id])| == |Bytes(dir[id])|
    ensures FdsOk(fds, wc, dir', 0, {})
  {
    PixFrame(fds, dir, dir', {});
    OffFrame(fds, fds, wc, dir, dir', 0);
    OpenHaveIds(fds, dir, {});
    SizeFrame(fds, dir, dir', 0, 0, {});
  }

  /** ... the descriptors have nothing to do with it.  The page is lost if and only if it is replaced as a whole and there is no
      page to have.  Any page in stock makes sure that there is; and while the free blocks follow the cursor and no block is
      deleted as a whole, that is when there is. */
  method OverwritePage(fs: Spiffs, id: half, k: half, s: half, at: nat, buf: seq<byte>, dataPix: half,
                       ghost gone: set<nat>, ghost dead: set<nat>)
    returns (st: Status, q: half, dropped: bool)
    requires Loaded(fs, id, k) && !fs.cleaning
    requires s as nat < |fs.dir[id].data| <= fs.g.Pages() && s as nat !in fs.dir[id].lost
    requires fs.g.IxOf(s) == k as nat && at + |buf| <= |fs.dir[id].chunks[s]|
    modifies fs`lu, fs`pages, fs`freeBlocks, fs`surplus, fs`maxErase, fs`eraseCnt, fs`nDel, fs`freeBlk, fs`freeEnt,
             fs`nAlloc, fs`dir, fs`work
    ensures Spacious(st) && (st == OK <==> old(PageToHave(fs)) || WholePage(fs.g, at, buf))
    ensures dropped <==> WholePage(fs.g, at, buf) && !old(PageToHave(fs))
    ensures Loaded(fs, id, k) && fs.dir[id].ix == old(fs.dir)[id].ix
    ensures OnlyContent(old(fs.dir), fs.dir, id) && SameLens(old(fs.dir), fs.dir, id)
    ensures st != OK ==> fs.dir == old(fs.dir)
    ensures st == OK ==> Bytes(fs.dir[id]) == Spliced(Bytes(old(fs.dir)[id]), Start(fs.g.dps, s) + at, buf)
    ensures fs.dir[id].lost == if dropped then old(fs.dir)[id].lost + {s as nat} else old(fs.dir)[id].lost
    ensures st == OK ==> fs.dir[id].data == old(fs.dir)[id].data[s := q]
    ensures st != OK || dropped ==> q == dataPix
    ensures old(InStock(fs)) >= 1 ==> old(PageToHave(fs)) && InStock(fs) + 1 >= old(InStock(fs))
    ensures old(Tracked(fs.g, fs.S(), gone, dead)) ==> (old(PageToHave(fs)) <==> old(Left(fs)) > 0)
    ensures old(Tracked(fs.g, fs.S(), gone, dead)) && st == OK ==>
              var src := old(fs.dir)[id].data[s] as nat;
              Ran(fs, gone, dead + {src}, src in gone, if old(Left(fs)) > 0 then old(Left(fs)) - 1 else 0)
  {
    hide FdsOk, Inv, IxPage, Overwritten, OnlyContent, SameLens, Spliced, Flatten, PageShape, IxOk, DataOk, Owned, Start,
      PageToHave, Tracked, Ran, Stocked, Full;
    ghost var dir := fs.dir;
    LoadedShape(fs, id, k);
    st, q, dropped := ReplaceDataWork(fs, id, k, s, at, buf, dataPix, gone, dead);
    ContentRefl(dir, id);
    if st != OK { return; }
    WholeChunk(fs.g, dir[id], s, at, buf);
    OverwrittenContent(fs.g, dir, id, s, q, at, buf, dropped);
    ContentFds(fs.fds, fs.wc, dir, fs.dir, id);
  }

  lemma WholeChunk(g: Geo, o: Obj, s: nat, at: nat, buf: seq<byte>)
    requires ObjShape(g, o) && s < |o.data| && at + |buf| <= |o.chunks[s]|
    ensures WholePage(g, at, buf) ==> |o.chunks[s]| == g.dps
  {
  }

  // ---------------------------------------------------------------- index pages

  /** Descriptor f is open on object `id`. */
  ghost predicate OpenOn(fs: Spiffs, f: nat, id: half)
    reads fs
  {
    f < |fs.fds| && fs.fds[f].fileNbr != 0 && IdOf(fs.fds[f].objId) == id
  }

  lemma UserOpen(fds: seq<Fd>, fs: Spiffs, f: nat, id: half)
    requires f < |fds| && fds[f].fileNbr != 0 && IdOf(fds[f].objId) == id && SameUser(fds, fs.fds)
    ensures OpenOn(fs, f, id)
  {
  }

  /** The descriptor remembers the index page under its cursor. */
  method SetCursor(fs: Spiffs, f: nat, id: half, k: half, pix: half, ghost op: Op)
    requires f < |fs.fds| && FdsOk(fs.fds, fs.wc, fs.dir, op.busy, op.except)
    requires id in fs.dir && k as nat < |fs.dir[id].ix| && fs.dir[id].ix[k] == pix && IdOf(fs.fds[f].objId) == id
    modifies fs`fds
    ensures FdsOk(fs.fds, fs.wc, fs.dir, op.busy, op.except) && SameUser(old(fs.fds), fs.fds)
  {
    ghost var fds := fs.fds;
    fs.fds := fs.fds[f := fs.fds[f].(curPix := pix, curSpix := k)];
    forall i | 0 <= i < |fds| && i !in op.except ensures FdPix(fs.fds[i], fs.dir) { assert FdPix(fds[i], fs.dir); }
    forall i | 0 <= i < |fds| && i !in op.except && IdOf(fds[i].objId) != op.busy ensures FdSize(fs.fds[i], fs.dir) {
      assert FdSize(fds[i], fs.dir);
    }
    forall i | 0 <= i < |fds| && IdOf(fds[i].objId) != 0 ensures FdOff(fs.fds[i], fs.dir, fs.wc) {
      assert FdOff(fds[i], fs.dir, fs.wc);
    }
  }

  /** Flash and directory agree, and descriptor f, open on object `id`, knows where its pages are and how long it is. */
  ghost predicate Sound(fs: Spiffs, f: nat, id: half)
    reads fs
  {
    && id in fs.dir && OpenOn(fs, f, id) && fs.Ok() && Rep(fs.g, fs.P, fs.lu, fs.pages, fs.dir, {}) && NoneDoomed(fs.dir)
    && FdPix(fs.fds[f], fs.dir) && FdSize(fs.fds[f], fs.dir)
  }

  /** Only the cursor of descriptor f may be different. */
  ghost predicate OnlyCursor(fds: seq<Fd>, fds': seq<Fd>, f: nat) {
    && |fds'| == |fds| && f < |fds|
    && fds' == fds[f := fds[f].(curPix := fds'[f].curPix, curSpix := fds'[f].curSpix)]
  }

  lemma CursorThen(a: seq<Fd>, b: seq<Fd>, c: seq<Fd>, f: nat)
    requires OnlyCursor(a, b, f) && OnlyCursor(b, c, f)
    ensures OnlyCursor(a, c, f)
  {
  }

  lemma CursorRefl(fds: seq<Fd>, f: nat)
    requires f < |fds|
    ensures OnlyCursor(fds, fds, f)
  {
  }

  lemma CursorFds(fds: seq<Fd>, fds': seq<Fd>, wc: seq<CPage>, dir: Dir, f: nat)
    requires FdsOk(fds, wc, dir, 0, {}) && OnlyCursor(fds, fds', f) && FdPix(fds'[f], dir)
    ensures FdsOk(fds', wc, dir, 0, {}) && SameUser(fds, fds')
  {
    forall i | 0 <= i < |fds'| ensures FdPix(fds'[i], dir) { if i != f { assert FdPix(fds[i], dir); } }
    forall i | 0 <= i < |fds'| && IdOf(fds'[i].objId) != 0 ensures FdSize(fds'[i], dir) && FdOff(fds'[i], dir, wc) {
      assert FdSize(fds[i], dir) && FdOff(fds[i], dir, wc);
    }
  }

  /** Where index page k is: on a sound file the descriptor's hint and the search through the lookup tables agree. */
  method LocateIndex(fs: Spiffs, f: nat, id: half, k: half) returns (st: Status, pix: half)
    requires fs.Ok() && f < |fs.fds| && 0 < id < 0x7FFF
    modifies fs`curBlk, fs`curEnt
    ensures fs.Ok()
    ensures old(Sound(fs, f, id)) && k as nat < |fs.dir[id].ix| ==> Sound(fs, f, id) && st == OK && pix == fs.dir[id].ix[k]
  {
    hide ObjShape, DirOk, PageShape, FlashOk, FreeSuffix, CursorOk, LivePages, DeletedPages, FreeBlocks, FreePages,
      SomeDeletedBlock, Rep, Flatten;
    ghost var sound := Sound(fs, f, id);
    st := OK;
    if k == 0 {
      pix := fs.fds[f].hdrPix;
    } else if fs.fds[f].curSpix == k {
      pix := fs.fds[f].curPix;
    } else {
      st, pix := FindIdAndSpan(fs, id + IX_FLAG, k, 0);
      if sound && k as nat < |fs.dir[id].ix| {
        FoundIx(fs.g, fs.P, fs.lu, fs.pages, fs.dir, id, k, st, pix);
      }
    }
  }

  lemma FoundIx(g: Geo, P: set<nat>, lu: seq<half>, pages: seq<Page>, dir: Dir, id: half, k: half, st: Status, pix: half)
    requires Rep(g, P, lu, pages, dir, {}) && NoneDoomed(dir) && id in dir && k as nat < |dir[id].ix|
    requires st == OK ==> pix as nat in P && Matches(lu, pages, id + IX_FLAG, k, pix as nat)
    requires st != OK ==> forall q :: q in P ==> !Matches(lu, pages, id + IX_FLAG, k, q)
    ensures st == OK && pix == dir[id].ix[k]
  {
    assert IxOk(g, P, lu, pages, {}, id, dir[id], k as nat);
    MatchesIx(g, P, lu, pages, dir, {}, id, k, dir[id].ix[k] as nat);
    if st == OK { MatchesIx(g, P, lu, pages, dir, {}, id, k, pix as nat); }
  }

  /** The work buffer holds index page k of object `id`, as it is on flash. */
  ghost predicate Viewing(fs: Spiffs, id: half, k: nat)
    reads fs
  {
    && fs.Ok() && Rep(fs.g, fs.P, fs.lu, fs.pages, fs.dir, {})
    && id in fs.dir && k < |fs.dir[id].ix| && k < 0xFFFF && fs.work == IxPage(fs.g, id, fs.dir[id], k)
  }

  ghost predicate IsIxPage(dir: Dir, id: half, k: half, pix: half) {
    id in dir && k as nat < |dir[id].ix| && k < 0xFFFF && pix == dir[id].ix[k]
  }

  /** A page is read into the work buffer and validated.  What is no page of the flash, or has not the form of an index
      page, counts as an error. */
  method FetchPage(fs: Spiffs, id: half, k: half, pix: half) returns (st: Status)
    requires fs.Ok() && id < IX_FLAG
    modifies fs`work
    ensures fs.Ok()
    ensures Rep(fs.g, fs.P, fs.lu, fs.pages, fs.dir, {}) && NoneDoomed(fs.dir) && IsIxPage(fs.dir, id, k, pix) ==>
              st == OK && Viewing(fs, id, k)
  {
    if id in fs.dir && k as nat < |fs.dir[id].ix| && Rep(fs.g, fs.P, fs.lu, fs.pages, fs.dir, {}) {
      assert IxOk(fs.g, fs.P, fs.lu, fs.pages, {}, id, fs.dir[id], k as nat);
    }
    if pix as nat >= |fs.pages| || !PageShape(fs.g, fs.pages[pix]) { return ERR_OUT_OF_FLASH; }
    fs.work := fs.pages[pix];
    st := ValidateIx(fs.work, id + IX_FLAG, k);
  }

  /** Index page k is put into the work buffer, and the cursor of the descriptor on it. */
  method FetchIndex(fs: Spiffs, f: nat, id: half, k: half) returns (st: Status, pix: half)
    requires fs.Ok() && f < |fs.fds| && 0 < id < 0x7FFF
    modifies fs`work, fs`curBlk, fs`curEnt, fs`fds
    ensures fs.Ok() && OnlyCursor(old(fs.fds), fs.fds, f)
    ensures old(Sound(fs, f, id)) && k as nat < |fs.dir[id].ix| ==>
              st == OK && Sound(fs, f, id) && Viewing(fs, id, k) && pix == fs.dir[id].ix[k]
  {
    hide Rep, Inv, NoneDoomed, Flatten;
    CursorRefl(fs.fds, f);
    if Sound(fs, f, id) && k as nat < |fs.dir[id].ix| { SoundIx(fs, f, id); }
    st, pix := LocateIndex(fs, f, id, k);
    if st != OK { return; }
    st := FetchPage(fs, id, k, pix);
    if st != OK { return; }
    fs.fds := fs.fds[f := fs.fds[f].(curPix := pix, curSpix := k)];
  }

  lemma SoundIx(fs: Spiffs, f: nat, id: half)
    requires Sound(fs, f, id)
    ensures |fs.dir[id].ix| < 0xFFFF
  {
  }

  lemma MidSound(fs: Spiffs, f: nat, id: half)
    requires Mid(fs, IDLE) && NoneDoomed(fs.dir) && OpenOn(fs, f, id) && id in fs.dir
    ensures Sound(fs, f, id) && 0 < id < 0x7FFF
  {
    assert FdPix(fs.fds[f], fs.dir) && FdSize(fs.fds[f], fs.dir);
  }

  /** ... to be looked at only. */
  method ViewIndex(fs: Spiffs, f: nat, id: half, k: half) returns (st: Status, pix: half)
    requires Mid(fs, IDLE) && NoneDoomed(fs.dir) && OpenOn(fs, f, id) && id in fs.dir && k as nat < |fs.dir[id].ix|
    requires k < 0xFFFF
    modifies fs`work, fs`curBlk, fs`curEnt, fs`fds
    ensures SameUser(old(fs.fds), fs.fds)
    ensures st == OK && Mid(fs, IDLE) && Viewing(fs, id, k) && pix == fs.dir[id].ix[k]
  {
    hide Rep, FdsOk, SameUser, Inv, NoneDoomed, FdPix, FdSize;
    ghost var fds := fs.fds;
    MidSound(fs, f, id);
    st, pix := FetchIndex(fs, f, id, k);
    CursorFds(fds, fs.fds, fs.wc, fs.dir, f);
  }

  /** ... or to be changed. */
  method LoadIndex(fs: Spiffs, f: nat, id: half, k: half) returns (st: Status, pix: half)
    requires Mid(fs, IDLE) && NoneDoomed(fs.dir) && OpenOn(fs, f, id) && id in fs.dir && k as nat < |fs.dir[id].ix|
    requires k < 0xFFFF
    modifies fs`work, fs`curBlk, fs`curEnt, fs`fds
    ensures st == OK && LoadedAt(fs, id, k, pix)
    ensures SameUser(old(fs.fds), fs.fds)
  {
    st, pix := ViewIndex(fs, f, id, k);
    RepWeaken(fs.g, fs.P, fs.lu, fs.pages, fs.dir, {}, {pix as nat});
  }

  /** The index page in the work buffer is stored; the descriptor remembers where. */
  method StoreIndex(fs: Spiffs, f: nat, id: half, k: half, pix: half) returns (st: Status, q: half)
    requires Loaded(fs, id, k) && !fs.cleaning && pix == fs.dir[id].ix[k] && |Bytes(fs.dir[id])| > 0
    requires OpenOn(fs, f, id)
    modifies fs
    ensures Spacious(st)
    ensures !fs.cleaning
    ensures st == OK ==> Intact(old(fs.dir), old(fs.fds), old(fs.wc), fs) && Mid(fs, IDLE)
    ensures st == OK ==> id in fs.dir && |fs.dir[id].ix| == |old(fs.dir)[id].ix| && fs.dir[id].ix[k] == q
    ensures st != OK ==> LoadedAt(fs, id, k, pix) && fs.dir == old(fs.dir) && fs.fds == old(fs.fds) && fs.wc == old(fs.wc)
    ensures st == OK <==> old(PageToHave(fs))
    ensures old(InStock(fs)) >= 1 ==> old(PageToHave(fs)) && InStock(fs) + 1 >= old(InStock(fs))
  {
    hide Rep, Inv, FdsOk, PageIndexCheck, IxPage, Flatten, PageToHave, Stocked;
    q := 0;
    StockFor(fs, Op({pix as nat}, {}, 0));
    StorableIndex(fs, f, id, k, pix);
    assert {pix as nat} - {pix as nat} == {};
    ghost var dir := fs.dir;
    if k == 0 {
      st, q := UpdateIndexHdr(fs, Some(f), id, fs.fds[f].hdrPix, true, None, 0, Op({pix as nat}, {}, 0));
    } else {
      st := PageIndexCheck(fs.g, fs.pages, id + IX_FLAG, pix, k);
      if st != OK { return; }
      st, q := StoreIx(fs, id, k, pix, 0, IxUpd, Op({pix as nat}, {}, 0));
    }
    WithIxMeaning(dir, id, k as nat, q);
  }

  lemma StockFor(fs: Spiffs, op: Op)
    requires Mid(fs, op)
    ensures InStock(fs) >= 1 ==> PageToHave(fs)
  {
    if InStock(fs) >= 1 { StockGives(fs); }
  }

  /** The index page in the work buffer can be stored: its old page and the descriptor's header page are right. */
  lemma StorableIndex(fs: Spiffs, f: nat, id: half, k: half, pix: half)
    requires Loaded(fs, id, k) && pix == fs.dir[id].ix[k] && OpenOn(fs, f, id)
    ensures fs.g.Valid() && |fs.pages| == fs.g.Pages() && 0 < id < 0x7FFF && pix as nat < |fs.pages|
    ensures Mid(fs, Op({pix as nat}, {}, 0)) && fs.fds[f].hdrPix == fs.dir[id].ix[0]
    ensures fs.work == IxPage(fs.g, id, fs.dir[id], k as nat) && HdrPatched(fs.work, None, 0) == fs.work
    ensures PageIndexCheck(fs.g, fs.pages, id + IX_FLAG, pix, k) == OK
  {
    assert FdPix(fs.fds[f], fs.dir);
    assert IxOk(fs.g, fs.P, fs.lu, fs.pages, {pix as nat}, id, fs.dir[id], k as nat);
    IndexCheckOk(fs.g, fs.P, fs.lu, fs.pages, fs.dir, {pix as nat}, id, k as nat);
  }

  // ---------------------------------------------------------------- the loop

  /** What the collector is asked for: the data and an extra page, in 32 bits. */
  function WithMeta(g: Geo, n: nat): word { (n + g.dps) % 0x1_0000_0000 }

  /** So when the request is granted, the free pages, those of two blocks aside, hold the data and are one more than that takes. */
  lemma GrantedRoom(fs: Spiffs, n: nat)
    requires fs.Ok() && n + fs.g.dps < 0x8000_0000
    requires GcRuns.Signed(WithMeta(fs.g, n)) <= GcRuns.FreeEstimate(fs.g, fs.nAlloc, fs.nDel) * fs.g.dps
    ensures n <= (|FreePages(fs.P, fs.lu)| - 2 * fs.g.Entries() - 1) * fs.g.dps
  {
    hide Inv, FreePages;
    GcRuns.EstimateIsFree(fs.g, fs.P, fs.S());
    var free := |FreePages(fs.P, fs.lu)| - 2 * fs.g.Entries();
    assert (free - 1) * fs.g.dps == free * fs.g.dps - fs.g.dps;
  }

  /** Since the directory was `dir` and the descriptors `fds`, only object `id` has changed, to hold `bytes`. */
  ghost predicate Wrote(dir: Dir, fds: seq<Fd>, wc: seq<CPage>, fs: Spiffs, id: half, bytes: seq<byte>)
    reads fs
  {
    && OnlyContent(dir, fs.dir, id) && id in fs.dir && Bytes(fs.dir[id]) == bytes
    && SameUser(fds, fs.fds) && fs.wc == wc
  }

  lemma IntactWrote(dir: Dir, fds: seq<Fd>, wc: seq<CPage>, dir': Dir, fds': seq<Fd>, fs: Spiffs, id: half, bytes: seq<byte>)
    requires OnlyContent(dir, dir', id) && id in dir' && Bytes(dir'[id]) == bytes && SameUser(fds, fds')
    requires Intact(dir', fds', wc, fs)
    ensures Wrote(dir, fds, wc, fs, id, bytes) && SameLens(dir', fs.dir, id) && fs.dir[id].lost == dir'[id].lost
  {
    MeaningIsContent(dir', fs.dir, id);
    ContentTransitive(dir, dir', fs.dir, id);
    SameUserTransitive(fds, fds', fs.fds);
  }

  /** The index page in the work buffer, if any, is stored, and index page k loaded instead. */
  method SwitchIndex(fs: Spiffs, f: nat, id: half, first: bool, prev: half, was: half, k: half) returns (st: Status, pix: half)
    requires if first then Mid(fs, IDLE) else Loaded(fs, id, prev) && was == fs.dir[id].ix[prev]
    requires OpenOn(fs, f, id) && id in fs.dir && |Bytes(fs.dir[id])| > 0 && NoneDoomed(fs.dir) && !fs.cleaning
    requires k as nat < |fs.dir[id].ix| && k < 0xFFFF
    modifies fs
    ensures Spacious(st)
    ensures !fs.cleaning
    ensures st == OK ==> Loaded(fs, id, k) && pix == fs.dir[id].ix[k]
    ensures Intact(old(fs.dir), old(fs.fds), old(fs.wc), fs)
    ensures st != OK ==> Loaded(fs, id, prev) && fs.dir == old(fs.dir)
    ensures first ==> st == OK && fs.S() == old(fs.S()) && fs.dir == old(fs.dir)
    ensures !first && old(InStock(fs)) >= 1 ==> st == OK && InStock(fs) + 1 >= old(InStock(fs))
  {
    hide Rep, Inv, FdsOk, IxPage, Flatten, PageToHave, Stocked;
    IntactRefl(fs);
    if !first {
      st, pix := StoreIndex(fs, f, id, prev, was);
      if st != OK { return; }
    }
    ghost var dir, fds := fs.dir, fs.fds;
    st, pix := LoadIndex(fs, f, id, k);
    IntactTransitive(old(fs.dir), old(fs.fds), old(fs.wc), dir, fds, fs);
  }

  /** Bytes at..at + n of what page s may hold are in the file. */
  lemma ChunkHolds(g: Geo, o: Obj, s: nat, at: nat, n: nat)
    requires g.Valid() && ObjShape(g, o) && 0 < n && at + n <= g.dps && Start(g.dps, s) + at + n <= |Bytes(o)|
    ensures s < |o.data| && s < 0xFFFF && at + n <= |o.chunks[s]| && g.IxOf(s) < |o.ix| && g.IxOf(s) < 0xFFFF
  {
    PositionOf(o.chunks, g.dps, s, at + n - 1);
    IxCovers(g, o, s);
  }

  /** One more piece of the data has been put over the file. */
  lemma PieceWritten(was: seq<byte>, offset: nat, data: seq<byte>, w: nat, n: nat)
    requires offset <= |was| && w + n <= |data|
    ensures Spliced(Spliced(was, offset, data[..w]), offset + w, data[w..w + n]) == Spliced(was, offset, data[..w + n])
  {
    SpliceSplice(was, offset, data[..w], data[w..w + n]);
    assert data[..w] + data[w..w + n] == data[..w + n];
  }

  lemma WroteIs(dir: Dir, fds: seq<Fd>, wc: seq<CPage>, fs: Spiffs, id: half, bytes: seq<byte>)
    requires Wrote(dir, fds, wc, fs, id, bytes)
    ensures OnlyContent(dir, fs.dir, id) && id in fs.dir && Bytes(fs.dir[id]) == bytes && SameUser(fds, fs.fds) && fs.wc == wc
  {
  }

  lemma WroteTransitive(dir: Dir, fds: seq<Fd>, wc: seq<CPage>, dir': Dir, fds': seq<Fd>, fs: Spiffs, id: half, bytes: seq<byte>)
    requires OnlyContent(dir, dir', id) && id in dir' && SameUser(fds, fds')
    requires Wrote(dir', fds', wc, fs, id, bytes)
    ensures Wrote(dir, fds, wc, fs, id, bytes)
    ensures SameLens(dir, dir', id) && SameLens(dir', fs.dir, id) ==> SameLens(dir, fs.dir, id)
  {
    ContentTransitive(dir, dir', fs.dir, id);
    SameUserTransitive(fds, fds', fs.fds);
  }

  /** No index page has to be stored for the next turn. */
  predicate SameIndex(g: Geo, first: bool, prev: nat, spix: nat) requires 0 < g.ixLen { first || g.IxOf(spix) == prev }

  /** One turn of the loop: the right index page is loaded ... */
  method ModifyIndex(fs: Spiffs, f: nat, id: half, first: bool, prev: half, was: half, spix: nat)
    returns (st: Status, k: half, pix: half)
    requires if first then Mid(fs, IDLE) else LoadedAt(fs, id, prev, was)
    requires OpenOn(fs, f, id) && id in fs.dir && NoneDoomed(fs.dir) && !fs.cleaning
    requires 0 < fs.g.ixLen && fs.g.IxOf(spix) < 0xFFFF && fs.g.IxOf(spix) < |fs.dir[id].ix|
    requires |Bytes(fs.dir[id])| > 0
    modifies fs
    ensures Spacious(st)
    ensures !fs.cleaning
    ensures st == OK ==> LoadedAt(fs, id, k, pix) && k as nat == fs.g.IxOf(spix)
    ensures Intact(old(fs.dir), old(fs.fds), old(fs.wc), fs)
    ensures st != OK ==> Torn(fs, id, {})
    ensures SameIndex(fs.g, first, prev, spix) ==> st == OK && fs.S() == old(fs.S()) && fs.dir == old(fs.dir)
    ensures SameIndex(fs.g, first, prev, spix) ==>
              PageToHave(fs) == old(PageToHave(fs)) && InStock(fs) == old(InStock(fs)) && Left(fs) == old(Left(fs))
    ensures !SameIndex(fs.g, first, prev, spix) && old(InStock(fs)) >= 1 ==> st == OK && InStock(fs) + 1 >= old(InStock(fs))
  {
    hide Mid, Loaded, SameMeaning, SameUser, NoneDoomed, Stocked, Flatten, Torn;
    st, pix := OK, was;
    k := fs.g.IxOf(spix);
    IntactRefl(fs);
    if first || k != prev {
      st, pix := SwitchIndex(fs, f, id, first, prev, was, k);
      if st != OK { LoadedTorn(fs, id, prev); }
    }
  }

  /** ... and one data page overwritten.  `broke` tells that no page could be allocated for one of which part is to be kept: the
      loop ends, but what has been written is still to be stored.  `had` tells whether there was a page to have when it came to
      the data page.  The page is lost exactly if there was none and it is replaced as a whole. */
  method ModifyStep(fs: Spiffs, f: nat, id: half, first: bool, prev: half, was: half, spix: nat, at: nat, buf: seq<byte>,
                    dataPix: half, ghost gone: set<nat>, ghost dead: set<nat>)
    returns (st: Status, k: half, pix: half, broke: bool, q: half, dropped: bool, ghost had: bool)
    requires if first then Mid(fs, IDLE) else LoadedAt(fs, id, prev, was)
    requires OpenOn(fs, f, id) && id in fs.dir && NoneDoomed(fs.dir) && !fs.cleaning
    requires spix !in fs.dir[id].lost && |fs.dir[id].data| <= fs.g.Pages()
    requires 0 < |buf| && at + |buf| <= fs.g.dps && Start(fs.g.dps, spix) + at + |buf| <= |Bytes(fs.dir[id])|
    modifies fs
    ensures Spacious(st)
    ensures !fs.cleaning && (broke ==> st != OK)
    ensures if st == OK || broke then LoadedAt(fs, id, k, pix) && 0 < fs.g.ixLen && k as nat == fs.g.IxOf(spix) else Torn(fs, id, {})
    ensures OpenOn(fs, f, id) && SameLens(old(fs.dir), fs.dir, id) && NoneDoomed(fs.dir)
    ensures Wrote(old(fs.dir), old(fs.fds), old(fs.wc), fs, id,
                  Spliced(Bytes(old(fs.dir)[id]), Start(fs.g.dps, spix) + at, if st == OK then buf else []))
    ensures st == OK || broke ==> (dropped <==> WholePage(fs.g, at, buf) && !had) && (broke <==> !WholePage(fs.g, at, buf) && !had)
    ensures dropped ==> st == OK
    ensures fs.dir[id].lost == if dropped then old(fs.dir)[id].lost + {spix} else old(fs.dir)[id].lost
    ensures st != OK || dropped ==> q == dataPix
    ensures 0 < fs.g.ixLen && SameIndex(fs.g, first, prev, spix) ==>
              && (st == OK || broke) && had == old(PageToHave(fs)) && spix < |old(fs.dir)[id].data|
              && (st == OK ==> fs.dir[id].data == old(fs.dir)[id].data[spix := q])
    ensures 0 < fs.g.ixLen && old(InStock(fs)) >= (if SameIndex(fs.g, first, prev, spix) then 1 else 2) ==>
              st == OK && had && InStock(fs) + (if SameIndex(fs.g, first, prev, spix) then 1 else 2) >= old(InStock(fs))
    ensures 0 < fs.g.ixLen && SameIndex(fs.g, first, prev, spix) && old(Tracked(fs.g, fs.S(), gone, dead)) ==>
              && spix < |old(fs.dir)[id].data| && (had <==> old(Left(fs)) > 0)
              && var src := old(fs.dir)[id].data[spix] as nat;
                 st == OK ==> Ran(fs, gone, dead + {src}, src in gone, if old(Left(fs)) > 0 then old(Left(fs)) - 1 else 0)
  {
    hide Rep, FdsOk, Inv, IxPage, Spliced, Flatten, Start, SameMeaning, OnlyContent, SameLens, NoneDoomed, ObjShape, Full,
      Spacious, SameUser, InStock, Left, Tracked, Ran, PageToHave, Torn, Mid, Loaded, Intact, DirOk, PageShape, FdsPix, FdsSize,
      FdsOff, CacheRefs;
    broke, dropped, q, had := false, false, dataPix, true;
    StepShape(fs, id, first, prev, was);
    ChunkHolds(fs.g, fs.dir[id], spix, at, |buf|);
    st, k, pix := ModifyIndex(fs, f, id, first, prev, was, spix);
    ghost var dir, fds := fs.dir, fs.fds;
    IntactMeans(old(fs.dir), old(fs.fds), old(fs.wc), fs, f, id);
    SplicedNothing(Bytes(dir[id]), Start(fs.g.dps, spix) + at);
    ContentUndoomed(old(fs.dir), fs.dir, id);
    if st != OK { return; }
    LoadedShape(fs, id, k);
    ShapeCounts(fs.g, dir[id]);
    ChunkHolds(fs.g, dir[id], spix, at, |buf|);
    had := PageToHave(fs);
    st, q, dropped := OverwritePage(fs, id, k, spix, at, buf, dataPix, gone, dead);
    broke := st != OK;
    ContentTransitive(old(fs.dir), dir, fs.dir, id);
    ContentUndoomed(old(fs.dir), fs.dir, id);
  }

  lemma ContentUndoomed(dir: Dir, dir': Dir, id: half)
    requires NoneDoomed(dir) && OnlyContent(dir, dir', id)
    ensures NoneDoomed(dir')
  {
  }

  lemma ShapeCounts(g: Geo, o: Obj)
    requires ObjShape(g, o)
    ensures |o.data| == |o.chunks|
  {
  }

  lemma SplicedNothing(was: seq<byte>, off: nat)
    ensures Spliced(was, off, []) == was
  {
  }

  lemma StepShape(fs: Spiffs, id: half, first: bool, prev: half, was: half)
    requires if first then Mid(fs, IDLE) else LoadedAt(fs, id, prev, was)
    requires id in fs.dir
    ensures fs.g.Valid() && ObjShape(fs.g, fs.dir[id])
  {
  }

  /** Where the loop is: page spix, place pageOffs in it. */
  ghost predicate At(dps: nat, pos: nat, spix: nat, pageOffs: nat) {
    Start(dps, spix) + pageOffs == pos && pageOffs < dps
  }

  lemma AtStart(dps: nat, pos: nat)
    requires 0 < dps
    ensures At(dps, pos, pos / dps, pos % dps)
  {
    StartOfOffset(dps, pos);
  }

  /** The data page that the last of n bytes from `offset` on falls into. */
  function LastSpan(dps: nat, offset: nat, n: nat): nat { FirstSpan(dps, if n == 0 then offset else offset + n - 1) }

  function FirstSpan(dps: nat, offset: nat): nat { if 0 < dps then offset / dps else 0 }

  /** n bytes at `offset` are on one page. */
  predicate OnePage(dps: nat, offset: nat, n: nat) { 0 < dps && offset % dps + n <= dps }

  /** A write of n bytes at `offset` replaces data page s as a whole. */
  predicate Replaces(dps: nat, offset: nat, n: nat, s: nat) { offset <= Start(dps, s) && Start(dps, s) + dps <= offset + n }

  lemma AtDiv(dps: nat, pos: nat, spix: nat, at: nat)
    requires At(dps, pos, spix, at)
    ensures pos / dps == spix && pos % dps == at
  {
    StartIsProduct(dps, spix);
    DivModUnique(pos, dps, spix, at);
  }

  lemma DivMono(dps: nat, a: nat, b: nat)
    requires 0 < dps && a <= b
    ensures a / dps <= b / dps
  {
    assert a == a / dps * dps + a % dps && b == b / dps * dps + b % dps;
    if a / dps > b / dps { MulMono(b / dps + 1, a / dps, dps); }
  }

  /** Where the piece that is due begins and ends, and whether it is a whole page. */
  lemma PieceDue(dps: nat, offset: nat, n: nat, written: nat, spix: nat, at: nat, piece: nat)
    requires At(dps, offset + written, spix, at) && written < n
    requires piece == if n - written < dps - at then n - written else dps - at
    ensures 0 < piece && at + piece <= dps && Start(dps, spix) + at + piece <= offset + n
    ensures spix <= LastSpan(dps, offset, n) && (written + piece == n ==> spix == LastSpan(dps, offset, n))
    ensures written + piece < n ==> At(dps, offset + written + piece, spix + 1, 0) && spix < LastSpan(dps, offset, n)
    ensures written == 0 ==> spix == FirstSpan(dps, offset)
    ensures (written == 0 || at == 0) ==> (at == 0 && piece == dps <==> Replaces(dps, offset, n, spix))
  {
    var next := offset + written + piece;
    StartIsProduct(dps, spix);
    AtDiv(dps, offset + written, spix, at);
    DivModUnique(next - 1, dps, spix, at + piece - 1);
    DivMono(dps, next - 1, offset + n - 1);
    if written + piece < n {
      AtDiv(dps, next, spix + 1, 0);
      DivMono(dps, next, offset + n - 1);
    }
  }

  /** A run of whole pages of file `o`, from s0 to s0 + n, named by one index page, when `left` pages can be had and no block is
      deleted as a whole even when the first m of the old ones are. */
  datatype Course = Course(o: Obj, s0: nat, n: nat, m: nat, left: nat)

  const NO_RUN := Course(Obj([], [], [], [], false), 0, 0, 0, 0)

  function DataSet(o: Obj, a: nat, b: nat): set<nat> { set s | a <= s < b && s < |o.data| :: o.data[s] as nat }

  lemma DataSetNext(o: Obj, a: nat, b: nat)
    requires a <= b < |o.data|
    ensures DataSet(o, a, b + 1) == DataSet(o, a, b) + {o.data[b] as nat}
  {
  }

  /** The run as it stands when the pages below spix are done: as many have been replaced as could be had, and the rest are
      lost. */
  ghost predicate OnCourse(fs: Spiffs, id: half, c: Course, spix: nat)
    reads fs
  {
    && id in fs.dir && |fs.dir[id].data| == |c.o.data| && c.s0 <= spix <= c.s0 + c.n <= |c.o.data| && c.n <= c.m + 1 && c.m <= c.n
    && (forall t :: spix <= t < |c.o.data| ==> fs.dir[id].data[t] == c.o.data[t])
    && (forall s :: s in fs.dir[id].lost <==> c.s0 + c.left <= s < spix)
    && Straight(fs.g, fs.S()) && Left(fs) == (if spix - c.s0 < c.left then c.left - (spix - c.s0) else 0)
    && Dead(fs.lu, DataSet(c.o, c.s0, spix))
    && (spix <= c.s0 + c.m ==> Shelter(fs.g, fs.lu, DataSet(c.o, c.s0, c.s0 + c.m)))
  }

  lemma CourseTracked(fs: Spiffs, id: half, c: Course, spix: nat)
    requires OnCourse(fs, id, c, spix)
    ensures spix < c.s0 + c.n ==> Tracked(fs.g, fs.S(), DataSet(c.o, c.s0, c.s0 + c.m), DataSet(c.o, c.s0, spix))
    ensures Left(fs) == if spix - c.s0 < c.left then c.left - (spix - c.s0) else 0
    ensures forall t :: spix <= t < |c.o.data| ==> t < |fs.dir[id].data| && fs.dir[id].data[t] == c.o.data[t]
    ensures id in fs.dir && |fs.dir[id].data| == |c.o.data| && c.s0 <= spix <= c.s0 + c.n <= |c.o.data| && c.n <= c.m + 1 && c.m <= c.n
    ensures forall s :: s in fs.dir[id].lost <==> c.s0 + c.left <= s < spix
  {
  }

  lemma CourseOn(fs: Spiffs, id: half, c: Course, spix: nat, was: Obj, q: half, had: bool)
    requires id in fs.dir && |was.data| == |c.o.data| && c.s0 <= spix < c.s0 + c.n <= |c.o.data| && c.n <= c.m + 1 && c.m <= c.n
    requires (forall t :: spix <= t < |c.o.data| ==> was.data[t] == c.o.data[t]) && fs.dir[id].data == was.data[spix := q]
    requires (forall s :: s in was.lost <==> c.s0 + c.left <= s < spix)
    requires fs.dir[id].lost == if had then was.lost else was.lost + {spix}
    requires had <==> spix - c.s0 < c.left
    requires var left := if spix - c.s0 < c.left then c.left - (spix - c.s0) else 0;
             var gone, src := DataSet(c.o, c.s0, c.s0 + c.m), was.data[spix] as nat;
             Ran(fs, gone, DataSet(c.o, c.s0, spix) + {src}, src in gone, if left > 0 then left - 1 else 0)
    ensures OnCourse(fs, id, c, spix + 1)
  {
    hide Straight, Shelter, Dead, Stocked, DataSet;
    DataSetNext(c.o, c.s0, spix);
    if spix < c.s0 + c.m { DataSetIn(c.o, c.s0, c.s0 + c.m, spix); }
  }

  lemma DataSetIn(o: Obj, a: nat, b: nat, s: nat)
    requires a <= s < b && s < |o.data|
    ensures o.data[s] as nat in DataSet(o, a, b)
  {
  }

  /** One turn of the loop, on the piece that is due. */
  method ModifyTurn(fs: Spiffs, f: nat, id: half, offset: nat, data: seq<byte>, written: nat, prev: half, was: half,
                    spix: nat, at: nat, ghost bytes: seq<byte>, dataPix: half, ghost c: Course)
    returns (st: Status, k: half, pix: half, broke: bool, now: nat, q: half, dropped: bool, ghost had: bool)
    requires if written == 0 then Mid(fs, IDLE) else LoadedAt(fs, id, prev, was)
    requires OpenOn(fs, f, id) && id in fs.dir && NoneDoomed(fs.dir) && !fs.cleaning
    requires spix !in fs.dir[id].lost && |fs.dir[id].data| <= fs.g.Pages()
    requires written < |data| && offset + |data| <= |bytes| && Bytes(fs.dir[id]) == Spliced(bytes, offset, data[..written])
    requires At(fs.g.dps, offset + written, spix, at) && (written > 0 ==> at == 0)
    modifies fs
    ensures Spacious(st)
    ensures !fs.cleaning && (broke ==> st != OK) && written <= now <= |data| && (st != OK <==> now == written)
    ensures if st == OK || broke then LoadedAt(fs, id, k, pix) && 0 < fs.g.ixLen && k as nat == fs.g.IxOf(spix) else Torn(fs, id, {})
    ensures OpenOn(fs, f, id) && SameLens(old(fs.dir), fs.dir, id) && NoneDoomed(fs.dir)
    ensures Wrote(old(fs.dir), old(fs.fds), old(fs.wc), fs, id, Spliced(bytes, offset, data[..now]))
    ensures st == OK && now < |data| ==> At(fs.g.dps, offset + now, spix + 1, 0)
    ensures spix <= LastSpan(fs.g.dps, offset, |data|)
    ensures st == OK ==> (now == |data| <==> spix == LastSpan(fs.g.dps, offset, |data|))
    ensures dropped ==> st == OK
    ensures st == OK || broke ==>
              && (dropped <==> Replaces(fs.g.dps, offset, |data|, spix) && !had)
              && (broke <==> !Replaces(fs.g.dps, offset, |data|, spix) && !had)
    ensures fs.dir[id].lost == if dropped then old(fs.dir)[id].lost + {spix} else old(fs.dir)[id].lost
    ensures st != OK || dropped ==> q == dataPix
    ensures written == 0 ==> (st == OK || broke) && had == old(PageToHave(fs))
    ensures 0 < fs.g.ixLen && old(InStock(fs)) >= (if SameIndex(fs.g, written == 0, prev, spix) then 1 else 2) ==>
              st == OK && had && InStock(fs) + (if SameIndex(fs.g, written == 0, prev, spix) then 1 else 2) >= old(InStock(fs))
    ensures 0 < fs.g.ixLen && SameIndex(fs.g, written == 0, prev, spix) && old(OnCourse(fs, id, c, spix)) && spix < c.s0 + c.n &&
            Replaces(fs.g.dps, offset, |data|, spix) ==>
              st == OK && OnCourse(fs, id, c, spix + 1)
  {
    hide Mid, Loaded, LoadedAt, OnlyContent, SameUser, NoneDoomed, SameLens, Flatten, Spliced, PageToHave, Stocked, Tracked, Ran,
      OnCourse, DataSet, Torn, Spacious, Replaces;
    ghost var course, o := OnCourse(fs, id, c, spix), fs.dir[id];
    if course { CourseTracked(fs, id, c, spix); }
    StepShape(fs, id, written == 0, prev, was);
    var toWrite := if |data| - written < fs.g.dps - at then |data| - written else fs.g.dps - at;
    PieceDue(fs.g.dps, offset, |data|, written, spix, at, toWrite);
    SplicedLen(bytes, offset, data[..written]);
    PieceWritten(bytes, offset, data, written, toWrite);
    PieceWritten(bytes, offset, data, written, 0);
    st, k, pix, broke, q, dropped, had :=
      ModifyStep(fs, f, id, written == 0, prev, was, spix, at, data[written..written + toWrite], dataPix,
                 DataSet(c.o, c.s0, c.s0 + c.m), DataSet(c.o, c.s0, spix));
    now := if st != OK then written else written + toWrite;
    NothingLeft(data, written);
    if course && st == OK && spix < c.s0 + c.n && 0 < fs.g.ixLen && SameIndex(fs.g, written == 0, prev, spix) &&
       Replaces(fs.g.dps, offset, |data|, spix) {
      CourseOn(fs, id, c, spix, o, q, had);
    }
  }

  lemma SplicedLen(was: seq<byte>, off: nat, buf: seq<byte>)
    requires off + |buf| <= |was|
    ensures |Spliced(was, off, buf)| == |was|
  {
  }

  lemma NothingLeft(data: seq<byte>, w: nat)
    requires w <= |data|
    ensures data[w..w + 0] == []
  {
  }

  lemma IxMono(g: Geo, a: nat, b: nat)
    requires 0 < g.ixLen && a <= b
    ensures g.IxOf(a) <= g.IxOf(b)
  {
    if a >= g.hdrLen { DivMono(g.ixLen, a - g.hdrLen, b - g.hdrLen); }
  }

  /** How many pages overwriting n bytes from `offset` on takes: one for every data page it touches, and one for every index
      page. */
  function Need(g: Geo, offset: nat, n: nat): nat {
    if 0 < g.ixLen then Ahead(g, FirstSpan(g.dps, offset), LastSpan(g.dps, offset, n), g.IxOf(FirstSpan(g.dps, offset))) else 0
  }

  /** ... from data page spix on, while index page `ix` is in the work buffer. */
  function Ahead(g: Geo, spix: nat, last: nat, ix: nat): nat
    requires 0 < g.ixLen
  {
    (if spix <= last then last - spix + 1 else 0) + (if ix <= g.IxOf(last) then g.IxOf(last) - ix else 0) + 1
  }

  lemma AheadNext(g: Geo, spix: nat, last: nat, ix: nat)
    requires 0 < g.ixLen && spix <= last && ix <= g.IxOf(spix)
    ensures Ahead(g, spix + 1, last, g.IxOf(spix)) + (if g.IxOf(spix) == ix then 1 else 2) <= Ahead(g, spix, last, ix)
  {
    IxMono(g, spix, last);
  }

  /** Which pages are lost: those replaced as a whole for which there was no page to have.  `had` says for every data page that
      was due, from s0 on, whether there was one. */
  ghost predicate Tally(dps: nat, offset: nat, n: nat, s0: nat, had: seq<bool>, lost: set<nat>, dropped: bool) {
    && (forall s :: s in lost <==> s0 <= s < s0 + |had| && Replaces(dps, offset, n, s) && !had[s - s0])
    && (dropped <==> lost != {})
  }

  lemma TallyStart(dps: nat, offset: nat, n: nat, s0: nat)
    ensures Tally(dps, offset, n, s0, [], {}, false)
  {
  }

  lemma TallyNext(dps: nat, offset: nat, n: nat, s0: nat, had: seq<bool>, lost: set<nat>, dropped: bool, h: bool, d: bool)
    requires Tally(dps, offset, n, s0, had, lost, dropped) && (d <==> Replaces(dps, offset, n, s0 + |had|) && !h)
    ensures Tally(dps, offset, n, s0, had + [h], if d then lost + {s0 + |had|} else lost, dropped || d)
  {
    hide Replaces;
    if d { assert s0 + |had| in lost + {s0 + |had|}; }
  }

  lemma TallyBelow(dps: nat, offset: nat, n: nat, s0: nat, had: seq<bool>, lost: set<nat>, dropped: bool)
    requires Tally(dps, offset, n, s0, had, lost, dropped)
    ensures s0 + |had| !in lost && (lost == {} <==> !dropped)
    ensures (forall s :: !Replaces(dps, offset, n, s)) ==> lost == {}
  {
  }

  /** The write is the run: whole pages that one index page names. */
  ghost predicate IsRun(g: Geo, offset: nat, n: nat, c: Course) {
    && 0 < g.dps && 0 < g.ixLen && 0 < c.n && offset == Start(g.dps, c.s0) && offset + n == Start(g.dps, c.s0 + c.n)
    && g.IxOf(c.s0) == g.IxOf(c.s0 + c.n - 1)
  }

  lemma RunPage(g: Geo, offset: nat, n: nat, c: Course, spix: nat)
    requires IsRun(g, offset, n, c) && c.s0 <= spix < c.s0 + c.n
    ensures Replaces(g.dps, offset, n, spix) && g.IxOf(spix) == g.IxOf(c.s0)
  {
    StartMono(g.dps, c.s0, spix);
    StartMono(g.dps, spix, c.s0 + c.n);
    IxMono(g, c.s0, spix);
    IxMono(g, spix, c.s0 + c.n - 1);
  }

  lemma RunFirst(g: Geo, offset: nat, n: nat, c: Course)
    requires IsRun(g, offset, n, c)
    ensures FirstSpan(g.dps, offset) == c.s0 && LastSpan(g.dps, offset, n) == c.s0 + c.n - 1 && 0 < c.n
  {
    StartIsProduct(g.dps, c.s0);
    StartMono(g.dps, c.s0, c.s0 + c.n);
    DivModUnique(offset, g.dps, c.s0, 0);
    StartIsProduct(g.dps, c.s0 + c.n - 1);
    DivModUnique(offset + n - 1, g.dps, c.s0 + c.n - 1, g.dps - 1);
  }

  /** A block of which all pages are replaced. */
  ghost predicate Vacated(g: Geo, c: Course) {
    exists b: nat :: VacatedBlock(g, c, b)
  }

  ghost predicate VacatedBlock(g: Geo, c: Course, b: nat) {
    b < g.blocks && forall e: nat :: e < g.Entries() ==> g.PixOf(b, e) in DataSet(c.o, c.s0, c.s0 + c.n)
  }

  lemma VacatedDead(g: Geo, P: set<nat>, lu: seq<half>, c: Course)
    requires Entries(g, P) && Dead(lu, DataSet(c.o, c.s0, c.s0 + c.n)) && Vacated(g, c)
    ensures SomeDeletedBlock(g, lu)
  {
    hide Dead, DataSet, SomeDeletedBlock, Entries;
    var b: nat :| VacatedBlock(g, c, b);
    DeadBlock(g, P, lu, DataSet(c.o, c.s0, c.s0 + c.n), b);
  }

  /** Whether there is a page for the index page at the end of the run. */
  lemma CourseEnds(fs: Spiffs, id: half, c: Course)
    requires OnCourse(fs, id, c, c.s0 + c.n) && fs.Ok() && !fs.cleaning
    ensures forall s :: s in fs.dir[id].lost <==> c.s0 + c.left <= s < c.s0 + c.n
    ensures c.n < c.left || Vacated(fs.g, c) ==> PageToHave(fs)
    ensures c.n >= c.left && c.m == c.n ==> !PageToHave(fs)
  {
    hide Inv, FreePages, Straight, Shelter, Dead, DataSet, SomeDeletedBlock, Vacated, Stocked;
    StockedMeans(fs.g, fs.P, fs.S());
    StraightSpot(fs.g, fs.P, fs.S());
    StraightFree(fs.g, fs.S());
    InvShape(fs.g, fs.P, fs.S());
    if c.m == c.n { ShelterNone(fs.g, fs.lu, DataSet(c.o, c.s0, c.s0 + c.m)); }
    if Vacated(fs.g, c) { VacatedDead(fs.g, fs.P, fs.lu, c); }
  }

  lemma CourseEnded(fs: Spiffs, id: half, k: half, pix: half, c: Course)
    requires OnCourse(fs, id, c, c.s0 + c.n) && LoadedAt(fs, id, k, pix) && !fs.cleaning
    ensures forall s :: s in fs.dir[id].lost <==> c.s0 + c.left <= s < c.s0 + c.n
    ensures c.n < c.left || Vacated(fs.g, c) ==> PageToHave(fs)
    ensures c.n >= c.left && c.m == c.n ==> !PageToHave(fs)
  {
    hide OnCourse, Inv, Rep, FdsOk, PageToHave;
    CourseEnds(fs, id, c);
  }

  lemma StraightFree(g: Geo, s: St)
    requires Straight(g, s)
    ensures s.freeBlocks >= 1
  {
  }

  /** What the loop knows before its next turn; `was` is the stock and `page` whether there was a page to have at the start. */
  ghost predicate LoopAt(fs: Spiffs, id: half, offset: nat, n: nat, written: nat, k: half, spix: nat, had: seq<bool>, dropped: bool,
                         ok: bool, stock: nat, page: bool, c: Course, course: bool)
    requires 0 < fs.g.dps && 0 < fs.g.ixLen
    reads fs
  {
    var s0 := FirstSpan(fs.g.dps, offset);
    && id in fs.dir && spix == s0 + |had| && Tally(fs.g.dps, offset, n, s0, had, fs.dir[id].lost, dropped)
    && (written == 0 <==> had == [] || (|had| == 1 && !ok))
    && (had == [] ==> ok && page == PageToHave(fs)) && (had != [] ==> had[0] == page)
    && (ok && written > 0 ==> k as nat == fs.g.IxOf(spix - 1))
    && (ok ==> spix <= LastSpan(fs.g.dps, offset, n) + 1 && (spix == LastSpan(fs.g.dps, offset, n) + 1 <==> written == n))
    && (stock >= Need(fs.g, offset, n) ==>
          ok && !dropped && InStock(fs) + Need(fs.g, offset, n) >=
                            stock + Ahead(fs.g, spix, LastSpan(fs.g.dps, offset, n), if written == 0 then fs.g.IxOf(s0) else k as nat))
    && (course ==> ok && OnCourse(fs, id, c, spix))
  }

  /** What comes of a run of whole pages: as many are replaced as could be had, and all others are lost.  The call succeeds, losses
      or not, if pages are left over or a block has been vacated; it fails if neither is the case and every block keeps a page. */
  ghost predicate RunResult(fs: Spiffs, id: half, c: Course, st: Status)
    reads fs
  {
    && id in fs.dir && (forall s :: s in fs.dir[id].lost <==> c.s0 + c.left <= s < c.s0 + c.n)
    && (c.n < c.left || Vacated(fs.g, c) ==> st == OK) && (c.n >= c.left && c.m == c.n ==> st != OK)
  }

  lemma LoopGives(fs: Spiffs, id: half, offset: nat, n: nat, written: nat, k: half, spix: nat, had: seq<bool>, dropped: bool, ok: bool,
                  stock: nat, page: bool, c: Course, course: bool)
    requires 0 < fs.g.dps && 0 < fs.g.ixLen && LoopAt(fs, id, offset, n, written, k, spix, had, dropped, ok, stock, page, c, course)
    requires course ==> IsRun(fs.g, offset, n, c)
    requires written <= n
    ensures id in fs.dir && spix !in fs.dir[id].lost
    ensures var s0 := FirstSpan(fs.g.dps, offset);
            && spix == s0 + |had| && Tally(fs.g.dps, offset, n, s0, had, fs.dir[id].lost, dropped)
            && (ok ==> (written == 0 <==> had == [])) && (written > 0 || !ok ==> had != [])
            && (had != [] ==> had[0] == page) && (had == [] ==> page == PageToHave(fs))
            && (ok && written > 0 ==> k as nat == fs.g.IxOf(spix - 1))
            && (ok && written < n ==> spix <= LastSpan(fs.g.dps, offset, n))
            && (stock >= Need(fs.g, offset, n) ==>
                  ok && !dropped && InStock(fs) + Need(fs.g, offset, n) >= stock + 1
                  && InStock(fs) + Need(fs.g, offset, n) >=
                     stock + Ahead(fs.g, spix, LastSpan(fs.g.dps, offset, n), if written == 0 then fs.g.IxOf(s0) else k as nat))
    ensures stock >= Need(fs.g, offset, n) && written < n ==> InStock(fs) >= if SameIndex(fs.g, written == 0, k as nat, spix) then 1 else 2
    ensures course ==> ok && c.s0 <= spix && OnCourse(fs, id, c, spix)
    ensures course && written < n ==> spix < c.s0 + c.n && Replaces(fs.g.dps, offset, n, spix) && SameIndex(fs.g, written == 0, k as nat, spix)
    ensures course && written == n ==> spix == c.s0 + c.n
  {
    hide OnCourse, Stocked, FreePages, SomeDeletedBlock, Replaces, LastSpan, IsRun;
    TallyBelow(fs.g.dps, offset, n, FirstSpan(fs.g.dps, offset), had, fs.dir[id].lost, dropped);
    if ok && written > 0 { IxMono(fs.g, spix - 1, spix); }
    if ok && written < n { IxMono(fs.g, spix, LastSpan(fs.g.dps, offset, n)); }
    if course {
      RunFirst(fs.g, offset, n, c);
      if written < n {
        RunPage(fs.g, offset, n, c, spix);
        if written > 0 { RunPage(fs.g, offset, n, c, spix - 1); }
      }
    }
  }

  lemma LoopBegins(fs: Spiffs, id: half, offset: nat, n: nat, k: half, c: Course, course: bool)
    requires 0 < fs.g.dps && 0 < fs.g.ixLen && id in fs.dir && fs.dir[id].lost == {} && 0 < n
    requires course ==> IsRun(fs.g, offset, n, c) && OnCourse(fs, id, c, c.s0)
    ensures LoopAt(fs, id, offset, n, 0, k, FirstSpan(fs.g.dps, offset), [], false, true, InStock(fs), PageToHave(fs), c, course)
  {
    hide OnCourse, Stocked, FreePages, SomeDeletedBlock;
    TallyStart(fs.g.dps, offset, n, FirstSpan(fs.g.dps, offset));
    DivMono(fs.g.dps, offset, offset + n - 1);
    if course { RunFirst(fs.g, offset, n, c); }
  }

  /** What a turn leaves behind, put together for the next one. */
  lemma LoopNext(fs: Spiffs, id: half, offset: nat, n: nat, written: nat, prev: half, k: half, spix: nat, had: seq<bool>, dropped: bool,
                 stock: nat, page: bool, c: Course, course: bool, now: nat, ok: bool, d: bool, h: bool, lost: set<nat>, left: nat)
    requires 0 < fs.g.dps && 0 < fs.g.ixLen && id in fs.dir && written < n && 0 <= |had|
    requires var s0 := FirstSpan(fs.g.dps, offset);
             && spix == s0 + |had| && Tally(fs.g.dps, offset, n, s0, had, lost, dropped) && (written == 0 <==> had == [])
             && (had != [] ==> had[0] == page) && (had == [] ==> h == page) && (written > 0 ==> prev as nat == fs.g.IxOf(spix - 1))
             && (stock >= Need(fs.g, offset, n) ==>
                   !dropped && left + Need(fs.g, offset, n) >=
                               stock + Ahead(fs.g, spix, LastSpan(fs.g.dps, offset, n), if written == 0 then fs.g.IxOf(s0) else prev as nat))
    requires fs.dir[id].lost == (if d then lost + {spix} else lost) && (d ==> ok)
    requires (d <==> Replaces(fs.g.dps, offset, n, spix) && !h) && (!ok <==> !Replaces(fs.g.dps, offset, n, spix) && !h)
    requires k as nat == fs.g.IxOf(spix) && spix <= LastSpan(fs.g.dps, offset, n)
    requires written <= now <= n && (!ok <==> now == written) && (ok ==> (now == n <==> spix == LastSpan(fs.g.dps, offset, n)))
    requires var cost := if SameIndex(fs.g, written == 0, prev as nat, spix) then 1 else 2;
             left >= cost ==> ok && h && InStock(fs) + cost >= left
    requires course ==> ok && OnCourse(fs, id, c, spix + 1)
    ensures LoopAt(fs, id, offset, n, now, k, spix + 1, had + [h], dropped || d, ok, stock, page, c, course)
  {
    hide OnCourse, Stocked, Tally, FreePages, SomeDeletedBlock, Replaces, LastSpan;
    var s0 := FirstSpan(fs.g.dps, offset);
    var ix := if written == 0 then fs.g.IxOf(s0) else prev as nat;
    TallyNext(fs.g.dps, offset, n, s0, had, lost, dropped, h, d);
    if written > 0 { IxMono(fs.g, spix - 1, spix); }
    AheadNext(fs.g, spix, LastSpan(fs.g.dps, offset, n), ix);
  }

  /** The loop.  The first `done` bytes of data are written; `ended` tells that the last index page is in the work buffer and
      still to be stored, and st is the error that ended the loop, if any. */
  method ModifyPieces(fs: Spiffs, f: nat, id: half, offset: nat, data: seq<byte>, ghost c: Course)
    returns (st: Status, ended: bool, k: half, pix: half, done: nat, dropped: bool, ghost had: seq<bool>)
    requires Mid(fs, IDLE) && NoneDoomed(fs.dir) && !fs.cleaning && OpenOn(fs, f, id) && id in fs.dir && fs.dir[id].lost == {}
    requires 0 < |data| && offset + |data| <= |Bytes(fs.dir[id])|
    modifies fs
    ensures Spacious(st) && !fs.cleaning && done <= |data| && (!ended ==> st != OK) && (st == OK ==> done == |data|)
    ensures st != OK ==> done < |data|
    ensures NoneDoomed(fs.dir) && SameLens(old(fs.dir), fs.dir, id) && OpenOn(fs, f, id)
    ensures Wrote(old(fs.dir), old(fs.fds), old(fs.wc), fs, id, Spliced(Bytes(old(fs.dir)[id]), offset, data[..done]))
    ensures if ended then LoadedAt(fs, id, k, pix) else Torn(fs, id, {f})
    ensures id in fs.dir && Tally(fs.g.dps, offset, |data|, FirstSpan(fs.g.dps, offset), had, fs.dir[id].lost, dropped)
    ensures had != [] && had[0] == old(PageToHave(fs))
    ensures old(InStock(fs)) >= Need(fs.g, offset, |data|) ==>
              st == OK && !dropped && InStock(fs) + Need(fs.g, offset, |data|) >= old(InStock(fs)) + 1
    ensures old(OnCourse(fs, id, c, c.s0)) && IsRun(fs.g, offset, |data|, c) ==> st == OK && OnCourse(fs, id, c, c.s0 + c.n)
  {
    hide Mid, Loaded, LoadedAt, OnlyContent, SameUser, NoneDoomed, SameLens, Flatten, Spliced, At, Spacious, Torn, PageToHave,
      Stocked, OnCourse, LoopAt, Tally, Replaces, IsRun, LastSpan, Need, SameIndex, InStock, OpenOn, Wrote, ObjShape, DirOk,
      PageShape;
    OkSpacious();
    st, ended, done, dropped, had := OK, true, 0, false, [];
    MidShape(fs, IDLE);
    AtStart(fs.g.dps, offset);
    ghost var was, stock, page := Bytes(fs.dir[id]), InStock(fs), PageToHave(fs);
    ghost var course := OnCourse(fs, id, c, c.s0) && IsRun(fs.g, offset, |data|, c);
    LoopStart(fs, id, offset, data);
    DataCount(fs, id);
    var span: nat, pageOffs: nat := offset / fs.g.dps, offset % fs.g.dps;
    k, pix := 0, 0;
    var dataPix: half := *;
    LoopBegins(fs, id, offset, |data|, k, c, course);
    while st == OK && done < |data|
      invariant done <= |data| && !fs.cleaning && NoneDoomed(fs.dir) && OpenOn(fs, f, id) && Spacious(st) && ended
      invariant SameLens(old(fs.dir), fs.dir, id) && (st == OK || done < |data|)
      invariant id in fs.dir && |fs.dir[id].data| <= fs.g.Pages()
      invariant Wrote(old(fs.dir), old(fs.fds), old(fs.wc), fs, id, Spliced(was, offset, data[..done]))
      invariant if st == OK && done == 0 then Mid(fs, IDLE) else LoadedAt(fs, id, k, pix)
      invariant st == OK && done < |data| ==> At(fs.g.dps, offset + done, span, pageOffs) && (done > 0 ==> pageOffs == 0)
      invariant LoopAt(fs, id, offset, |data|, done, k, span, had, dropped, st == OK, stock, page, c, course)
      decreases |data| - done, st == OK
    {
      ghost var dir, fds, left, prev := fs.dir, fs.fds, InStock(fs), k;
      LoopGives(fs, id, offset, |data|, done, k, span, had, dropped, st == OK, stock, page, c, course);
      var broke, now, lost;
      ghost var h;
      WroteIs(old(fs.dir), old(fs.fds), old(fs.wc), fs, id, Spliced(was, offset, data[..done]));
      st, k, pix, broke, now, dataPix, lost, h := ModifyTurn(fs, f, id, offset, data, done, k, pix, span, pageOffs, was, dataPix, c);
      WroteTransitive(old(fs.dir), old(fs.fds), old(fs.wc), dir, fds, fs, id, Spliced(was, offset, data[..now]));
      LensCount(dir, fs.dir, id);
      if st != OK && !broke {
        TornMore(fs, id, f);
        ended := false;
        return;
      }
      LoopNext(fs, id, offset, |data|, done, prev, k, span, had, dropped, stock, page, c, course, now, st == OK, lost, h, dir[id].lost, left);
      pageOffs := 0;
      span := span + 1;
      done := now;
      had := had + [h];
      dropped := dropped || lost;
    }
    LoopGives(fs, id, offset, |data|, done, k, span, had, dropped, st == OK, stock, page, c, course);
  }

  /** The loop, and the storing of the last index page.  The first `done` bytes of data are written; `stored` tells
      that the index pages on flash are up to date, too.  `had` says for every data page that was due whether there was a page
      to have then; a page is lost exactly if there was none and it is replaced as a whole.  None is when as many pages are in
      stock as the write needs; and `c` tells exactly what comes of a run of whole pages. */
  method ModifyLoop(fs: Spiffs, f: nat, id: half, offset: nat, data: seq<byte>, ghost c: Course)
    returns (st: Status, ghost stored: bool, ghost done: nat, dropped: bool, ghost had: seq<bool>)
    requires Mid(fs, IDLE) && NoneDoomed(fs.dir) && !fs.cleaning && OpenOn(fs, f, id) && id in fs.dir && fs.dir[id].lost == {}
    requires 0 < |data| && offset + |data| <= |Bytes(fs.dir[id])|
    modifies fs
    ensures Spacious(st)
    ensures !fs.cleaning && done <= |data| && (st == OK <==> stored && done == |data|)
    ensures if stored then Mid(fs, IDLE) else Torn(fs, id, {f})
    ensures NoneDoomed(fs.dir) && SameLens(old(fs.dir), fs.dir, id)
    ensures Wrote(old(fs.dir), old(fs.fds), old(fs.wc), fs, id, Spliced(Bytes(old(fs.dir)[id]), offset, data[..done]))
    ensures id in fs.dir && Tally(fs.g.dps, offset, |data|, FirstSpan(fs.g.dps, offset), had, fs.dir[id].lost, dropped)
    ensures had != [] && had[0] == old(PageToHave(fs))
    ensures old(InStock(fs)) >= Need(fs.g, offset, |data|) ==>
              st == OK && !dropped && InStock(fs) + Need(fs.g, offset, |data|) >= old(InStock(fs))
    ensures old(OnCourse(fs, id, c, c.s0)) && IsRun(fs.g, offset, |data|, c) ==> RunResult(fs, id, c, st)
  {
    hide Mid, Loaded, LoadedAt, OnlyContent, SameUser, NoneDoomed, SameLens, Flatten, Spliced, Spacious, Torn, PageToHave,
      Stocked, OnCourse, Tally, IsRun, Need, Vacated, FirstSpan;
    ghost var was := Bytes(fs.dir[id]);
    ghost var course := OnCourse(fs, id, c, c.s0) && IsRun(fs.g, offset, |data|, c);
    MidShape(fs, IDLE);
    var ended, k, pix, written;
    st, ended, k, pix, written, dropped, had := ModifyPieces(fs, f, id, offset, data, c);
    stored, done := false, written;
    if !ended { return; }
    ghost var dir, fds := fs.dir, fs.fds;
    SplicedLen(was, offset, data[..written]);
    if course { CourseEnded(fs, id, k, pix, c); }
    var st2 := ModifyEnd(fs, f, id, k, pix);
    IntactWrote(old(fs.dir), old(fs.fds), old(fs.wc), dir, fds, fs, id, Spliced(was, offset, data[..written]));
    EndLens(old(fs.dir), dir, fs.dir, id);
    if st2 != OK { return st2, false, done, dropped, had; }
    stored := true;
  }

  lemma DataCount(fs: Spiffs, id: half)
    requires Mid(fs, IDLE) && id in fs.dir && fs.dir[id].lost == {}
    ensures |fs.dir[id].data| <= fs.g.Pages()
  {
    FitsData(fs.g, fs.P, fs.lu, fs.pages, fs.dir, {}, id);
  }

  lemma LensCount(dir: Dir, dir': Dir, id: half)
    requires SameLens(dir, dir', id)
    ensures id in dir && id in dir' && |dir'[id].data| == |dir[id].data|
  {
  }

  lemma TornMore(fs: Spiffs, id: half, f: nat)
    requires Torn(fs, id, {})
    ensures Torn(fs, id, {f})
  {
  }

  lemma LoopStart(fs: Spiffs, id: half, offset: nat, data: seq<byte>)
    requires id in fs.dir && offset <= |Bytes(fs.dir[id])|
    ensures Wrote(fs.dir, fs.fds, fs.wc, fs, id, Spliced(Bytes(fs.dir[id]), offset, data[..0]))
    ensures SameLens(fs.dir, fs.dir, id)
  {
  }

  lemma EndLens(a: Dir, b: Dir, c: Dir, id: half)
    requires SameLens(a, b, id) && SameLens(b, c, id) && OnlyContent(a, c, id) && NoneDoomed(b) && OnlyContent(a, b, id)
    ensures SameLens(a, c, id) && NoneDoomed(c)
  {
    forall x | x in c ensures !c[x].doomed { assert !b[x].doomed; }
  }

  /** The last index page is stored.  When there is no page for one that is not the header, the code sets the cursor
      of the descriptor to a page number that was never assigned. */
  method ModifyEnd(fs: Spiffs, f: nat, id: half, k: half, pix: half) returns (st: Status)
    requires LoadedAt(fs, id, k, pix) && !fs.cleaning && |Bytes(fs.dir[id])| > 0
    requires OpenOn(fs, f, id)
    modifies fs
    ensures Spacious(st)
    ensures !fs.cleaning
    ensures Intact(old(fs.dir), old(fs.fds), old(fs.wc), fs)
    ensures if st == OK then Mid(fs, IDLE) else Torn(fs, id, {f})
    ensures st == OK <==> old(PageToHave(fs))
    ensures old(InStock(fs)) >= 1 ==> st == OK && InStock(fs) + 1 >= old(InStock(fs))
  {
    hide Rep, FdsOk, Inv, IxPage, Flatten, PageToHave, Stocked;
    var q;
    st, q := StoreIndex(fs, f, id, k, pix);
    if st != OK {
      LoadedTorn(fs, id, k);
      IntactRefl(fs);
      if k != 0 {
        var unset: half := *;
        LoseCursor(fs, f, id, k, unset);
      } else {
        TornMore(fs, id, f);
      }
      return;
    }
    ghost var fds := fs.fds;
    SetCursor(fs, f, id, k, q, IDLE);
    SameUserTransitive(old(fs.fds), fds, fs.fds);
  }

  /** The descriptor remembers a page that may be anything. */
  method LoseCursor(fs: Spiffs, f: nat, id: half, k: half, pix: half)
    requires Torn(fs, id, {}) && f < |fs.fds|
    modifies fs`fds
    ensures Torn(fs, id, {f}) && SameUser(old(fs.fds), fs.fds)
  {
    ghost var fds := fs.fds;
    fs.fds := fs.fds[f := fs.fds[f].(curPix := pix, curSpix := k)];
    forall i | 0 <= i < |fds| && i != f ensures FdPix(fs.fds[i], fs.dir) { assert FdPix(fds[i], fs.dir); }
    forall i | 0 <= i < |fds| && i != f && IdOf(fds[i].objId) != id ensures FdSize(fs.fds[i], fs.dir) {
      assert FdSize(fds[i], fs.dir);
    }
  }

  lemma IntactMeans(dir: Dir, fds: seq<Fd>, wc: seq<CPage>, fs: Spiffs, f: nat, id: half)
    requires Intact(dir, fds, wc, fs) && id in dir
    ensures OnlyContent(dir, fs.dir, id) && SameLens(dir, fs.dir, id) && Bytes(fs.dir[id]) == Bytes(dir[id])
    ensures SameUser(fds, fs.fds) && fs.wc == wc && fs.dir[id].lost == dir[id].lost
    ensures f < |fds| && fds[f].fileNbr != 0 && IdOf(fds[f].objId) == id ==> OpenOn(fs, f, id)
  {
  }

  /** spiffs_object_modify with something to write to a file that has lost no page.  The first `done` bytes of `data` are put over
      the file at `offset`, all of them on success, but for pages that are lost.  `stored` tells that flash and directory agree;
      when they do not, for lack of a page to store an index page, at most this object is torn, unless no page at all is free.
      Names and bytes of other objects, and what users of descriptors see, are kept in every case; and when even the deleted
      pages do not make room, nothing is touched.

      Which pages are lost: those that are replaced as a whole when there is no page to have, `had` telling for every data page
      that was due whether there was one.  So a write that covers no whole page of the file loses none.  When there is no need
      to collect: a write to one page loses it exactly if it covers it and no page at all is free; and of a run of whole pages
      it can be told exactly how many are lost, and whether the call succeeds all the same (RunResult).  None is lost, and the
      call succeeds, when as many pages are sure to be had as the write needs, with or without collecting. */
  method ObjectModify(fs: Spiffs, f: nat, id: half, offset: nat, data: seq<byte>, room: nat, ghost c: Course)
    returns (st: Status, ghost stored: bool, ghost done: nat, dropped: bool, ghost had: seq<bool>)
    requires Mid(fs, IDLE) && NoneDoomed(fs.dir) && !fs.cleaning && 0 < room
    requires OpenOn(fs, f, id) && id in fs.dir && fs.dir[id].lost == {}
    requires 0 < |data| && offset + |data| <= |Bytes(fs.dir[id])|
    modifies fs
    ensures Spacious(st)
    ensures !fs.cleaning && done <= |data| && (st == OK <==> stored && done == |data|)
    ensures if stored then Mid(fs, IDLE) else Survived(fs, id, {f})
    ensures NoneDoomed(fs.dir) && SameLens(old(fs.dir), fs.dir, id)
    ensures Wrote(old(fs.dir), old(fs.fds), old(fs.wc), fs, id, Spliced(Bytes(old(fs.dir)[id]), offset, data[..done]))
    ensures old(Hopeless(fs, WithMeta(fs.g, |data|))) ==> st == ERR_FULL && stored && done == 0 && unchanged(fs)
    ensures id in fs.dir && Tally(fs.g.dps, offset, |data|, FirstSpan(fs.g.dps, offset), had, fs.dir[id].lost, dropped)
    ensures old(Safe(fs, offset, |data|)) ==> !dropped
    ensures old(Quiet(fs, WithMeta(fs.g, |data|))) && OnePage(fs.g.dps, offset, |data|) ==>
              (dropped <==> |data| == fs.g.dps && old(Exhausted(fs)))
    ensures var sure, need := old(Assured(fs, WithMeta(fs.g, |data|))), Need(fs.g, offset, |data|);
            sure >= need ==> st == OK && !dropped && InStock(fs) + need >= sure
    ensures old(Quiet(fs, WithMeta(fs.g, |data|)) && OnCourse(fs, id, c, c.s0)) && IsRun(fs.g, offset, |data|, c) ==> RunResult(fs, id, c, st)
  {
    hide Mid, OnlyContent, SameMeaning, SameUser, Flatten, Spliced, Torn, Hopeless, Quiet, Tally, OnCourse, IsRun, RunResult,
      Stocked, Replaces, LastSpan, FreePages, SomeDeletedBlock, Need, Assured, RunsEnded, ObjShape, DirOk, PageShape, Rep;
    stored, done, dropped, had := false, 0, false, [];
    ModifyShape(fs);
    NeedsOne(fs.g, offset, |data|);
    TallyStart(fs.g.dps, offset, |data|, FirstSpan(fs.g.dps, offset));
    SplicedNothing(Bytes(fs.dir[id]), offset);
    ghost var quiet := Quiet(fs, WithMeta(fs.g, |data|));
    if quiet { QuietPage(fs, WithMeta(fs.g, |data|)); }
    ghost var runs;
    st, runs := GcCheck(fs, WithMeta(fs.g, |data|), room);
    ghost var dir, fds := fs.dir, fs.fds;
    IntactMeans(old(fs.dir), old(fs.fds), old(fs.wc), fs, f, id);
    if st != OK {
      stored := Mid(fs, IDLE);
      return;
    }
    st, stored, done, dropped, had := ModifyLoop(fs, f, id, offset, data, c);
    WroteTransitive(old(fs.dir), old(fs.fds), old(fs.wc), dir, fds, fs, id,
                    Spliced(Bytes(old(fs.dir)[id]), offset, data[..done]));
    TallySmall(fs.g.dps, offset, |data|, had, fs.dir[id].lost, dropped);
  }

  /** A write of n bytes at `offset` of a file loses no page: it covers none as a whole, or the pages it needs are in stock. */
  ghost predicate Safe(fs: Spiffs, offset: nat, n: nat)
    reads fs`lu, fs`pages, fs`freeBlk, fs`freeEnt, fs`freeBlocks, fs`nAlloc, fs`nDel, fs`surplus, fs`eraseCnt, fs`maxErase
  {
    (forall s :: !Replaces(fs.g.dps, offset, n, s)) || Assured(fs, WithMeta(fs.g, n)) >= Need(fs.g, offset, n)
  }

  lemma NeedsOne(g: Geo, offset: nat, n: nat)
    requires 0 < g.ixLen
    ensures Need(g, offset, n) >= 1
  {
  }

  /** With enough in stock there is no need to collect, and a write is sure of all of it. */
  lemma StockAssures(fs: Spiffs, n: nat)
    requires fs.Ok() && InStock(fs) > 2 * fs.g.Entries() && n < (InStock(fs) - 2) * fs.g.dps
    ensures Quiet(fs, WithMeta(fs.g, n)) && Assured(fs, WithMeta(fs.g, n)) == InStock(fs)
  {
    hide Inv, Stocked;
    assert (InStock(fs) - 1) * fs.g.dps == (InStock(fs) - 2) * fs.g.dps + fs.g.dps;
    StockIsQuiet(fs, WithMeta(fs.g, n));
  }

  lemma ModifyShape(fs: Spiffs)
    requires Mid(fs, IDLE)
    ensures 0 < fs.g.dps && 0 < fs.g.ixLen
  {
  }

  lemma QuietPage(fs: Spiffs, len: word)
    requires Quiet(fs, len)
    ensures PageToHave(fs) <==> !Exhausted(fs)
  {
  }

  /** Pages are lost only where the write covers them; within one page it is the one page. */
  lemma TallySmall(dps: nat, offset: nat, n: nat, had: seq<bool>, lost: set<nat>, dropped: bool)
    requires 0 < dps && 0 < n && Tally(dps, offset, n, FirstSpan(dps, offset), had, lost, dropped) && had != []
    ensures (forall s :: !Replaces(dps, offset, n, s)) ==> !dropped
    ensures OnePage(dps, offset, n) ==> (dropped <==> n == dps && !had[0])
  {
    TallyBelow(dps, offset, n, FirstSpan(dps, offset), had, lost, dropped);
    if OnePage(dps, offset, n) {
      var s0 := FirstSpan(dps, offset);
      forall s | s in lost ensures s == s0 && n == dps && !had[0] {
        StartOfOffset(dps, offset);
        StartMono(dps, s0, s);
      }
      if n == dps {
        StartOfOffset(dps, offset);
        assert Replaces(dps, offset, n, s0);
        assert !had[0] ==> s0 in lost;
      }
    }
  }
}
