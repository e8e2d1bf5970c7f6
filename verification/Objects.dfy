/** Index pages and headers of objects: validation, lookup, and storing them. */
module Objects {
  datatype Option<T> = None | Some(value: T)

  import opened Nor
  import opened Layout
  import opened Chunks
  import opened Image
  import opened Core
  import opened Descriptors
  import opened State
  import opened Alloc
  import opened Stock
  import opened Events

  // ---------------------------------------------------------------- validation

  /** SPIFFS_VALIDATE_OBJIX. */
  function ValidateIx(p: Page, objId: half, span: nat): Status {
    if p.flags.used then ERR_IS_FREE
    else if !p.flags.delet then ERR_DELETED
    else if p.flags.final then ERR_NOT_FINALIZED
    else if p.flags.index then ERR_NOT_INDEX
    else if !IsIx(objId) then ERR_NOT_INDEX
    else if p.span != span then ERR_INDEX_SPAN_MISMATCH
    else OK
  }

  /** SPIFFS_VALIDATE_DATA. */
  function ValidateData(p: Page, objId: half, span: nat): Status {
    if p.flags.used then ERR_IS_FREE
    else if !p.flags.delet then ERR_DELETED
    else if p.flags.final then ERR_NOT_FINALIZED
    else if !p.flags.index then ERR_IS_INDEX
    else if IsIx(objId) then ERR_IS_INDEX
    else if p.span != span then ERR_DATA_SPAN_MISMATCH
    else OK
  }

  lemma LastPageIsLookup(g: Geo)
    requires g.Valid()
    ensures g.IsLookup(g.Pages())
  {
    DivModUnique(g.Pages(), g.ppb, g.blocks, 0);
  }

  /** spiffs_page_data_check. */
  function PageDataCheck(g: Geo, pages: seq<Page>, objId: half, pix: half, span: nat): Status
    requires g.Valid() && |pages| == g.Pages()
  {
    LastPageIsLookup(g);
    if pix == FREE_PIX then ERR_INDEX_REF_FREE
    else if g.IsLookup(pix) then ERR_INDEX_REF_LU
    else if pix as nat > g.Pages() then ERR_INDEX_REF_INVALID
    else ValidateData(pages[pix], IdOf(objId), span)
  }

  /** spiffs_page_index_check. */
  function PageIndexCheck(g: Geo, pages: seq<Page>, objId: half, pix: half, span: nat): Status
    requires g.Valid() && |pages| == g.Pages()
  {
    LastPageIsLookup(g);
    if pix == FREE_PIX then ERR_INDEX_FREE
    else if g.IsLookup(pix) then ERR_INDEX_LU
    else if pix as nat > g.Pages() then ERR_INDEX_INVALID
    else ValidateIx(pages[pix], objId, span)
  }

  /** A page of an object passes the check that guards its use. */
  lemma DataCheckOk(g: Geo, P: set<nat>, lu: seq<half>, pages: seq<Page>, dir: Dir, dirty: set<nat>, id: half, s: nat)
    requires FlashOk(g, P, lu, pages) && Rep(g, P, lu, pages, dir, dirty)
    requires id in dir && s < |dir[id].data| && s !in dir[id].lost && DataOk(g, P, lu, pages, id, dir[id], s)
    ensures PageDataCheck(g, pages, id + IX_FLAG, dir[id].data[s], s) == OK
    ensures PageDataCheck(g, pages, id, dir[id].data[s], s) == OK
  {
    LookupByEntry(g, dir[id].data[s]);
  }

  lemma IndexCheckOk(g: Geo, P: set<nat>, lu: seq<half>, pages: seq<Page>, dir: Dir, dirty: set<nat>, id: half, k: nat)
    requires FlashOk(g, P, lu, pages) && Rep(g, P, lu, pages, dir, dirty)
    requires id in dir && k < |dir[id].ix| && IxOk(g, P, lu, pages, dirty, id, dir[id], k)
    ensures PageIndexCheck(g, pages, id + IX_FLAG, dir[id].ix[k], k) == OK
  {
    LookupByEntry(g, dir[id].ix[k]);
  }

  /** A page that is no lookup page is one of the pages of the flash. */
  lemma PlainPage(g: Geo, P: set<nat>, p: half)
    requires Entries(g, P)
    ensures p as nat in P <==> p as nat <= g.Pages() && !g.IsLookup(p as nat)
  {
    LookupByEntry(g, p as nat);
    LastPageIsLookup(g);
    if p as nat < g.Pages() && !g.IsLookup(p as nat) {
      DataPagesIn(g, p as nat);
      EntryOfPage(g, p as nat);
      assert g.PixOf(g.BlockOf(p as nat), g.EntryOf(p as nat)) in P;
    }
  }

  /** And nothing else does: what passes is a data page of some object with that span index.  The check does not compare the
      object. */
  lemma DataCheckExact(g: Geo, P: set<nat>, lu: seq<half>, pages: seq<Page>, dir: Dir, dirty: set<nat>, id: half, p: half, s: nat)
    requires FlashOk(g, P, lu, pages) && Rep(g, P, lu, pages, dir, dirty)
    ensures PageDataCheck(g, pages, id, p, s) == OK <==> exists x :: HasDataAt(dir, x, s, p)
  {
    PlainPage(g, P, p);
    FreeIsNone(g, P, p);
    if p as nat in P {
      PageKinds(g, P, lu, pages, dir, dirty, p);
      if PageDataCheck(g, pages, id, p, s) == OK { assert HasDataAt(dir, lu[p], s, p); }
    }
    forall x | HasDataAt(dir, x, s, p) ensures PageDataCheck(g, pages, id, p, s) == OK {
      assert DataOk(g, P, lu, pages, x, dir[x], s);
    }
  }

  lemma IndexCheckExact(g: Geo, P: set<nat>, lu: seq<half>, pages: seq<Page>, dir: Dir, dirty: set<nat>, id: half, p: half, k: nat)
    requires FlashOk(g, P, lu, pages) && Rep(g, P, lu, pages, dir, dirty) && IsIx(id)
    ensures PageIndexCheck(g, pages, id, p, k) == OK <==> exists x :: HasIxAt(dir, x, k, p)
  {
    PlainPage(g, P, p);
    FreeIsNone(g, P, p);
    if p as nat in P {
      PageKinds(g, P, lu, pages, dir, dirty, p);
      if PageIndexCheck(g, pages, id, p, k) == OK { assert HasIxAt(dir, IdOf(lu[p]), k, p); }
    }
    forall x | HasIxAt(dir, x, k, p) ensures PageIndexCheck(g, pages, id, p, k) == OK {
      assert IxOk(g, P, lu, pages, dirty, x, dir[x], k);
    }
  }

  ghost predicate HasDataAt(dir: Dir, x: half, s: nat, p: half) {
    x in dir && s < |dir[x].data| && s !in dir[x].lost && dir[x].data[s] == p
  }

  ghost predicate HasIxAt(dir: Dir, x: half, k: nat, p: half) { x in dir && k < |dir[x].ix| && dir[x].ix[k] == p }

  lemma FreeIsNone(g: Geo, P: set<nat>, p: half)
    requires Entries(g, P)
    ensures p as nat in P ==> p != FREE_PIX
  {
  }

  /** Header flags tell what a page is. */
  lemma PageKinds(g: Geo, P: set<nat>, lu: seq<half>, pages: seq<Page>, dir: Dir, dirty: set<nat>, p: half)
    requires FlashOk(g, P, lu, pages) && Rep(g, P, lu, pages, dir, dirty) && p as nat in P
    ensures var f := pages[p].flags;
            if lu[p] == FREE_ID then f.used
            else if lu[p] == DELETED_ID then !f.delet
            else if IsIx(lu[p]) then !f.index && HasIxAt(dir, IdOf(lu[p]), pages[p].span as nat, p)
            else f.index && HasDataAt(dir, lu[p], pages[p].span as nat, p)
  {
    if Live(lu[p]) {
      assert Owned(lu[p], pages[p].span as nat, p as nat, dir);
      if IsIx(lu[p]) {
        assert IxOk(g, P, lu, pages, dirty, IdOf(lu[p]), dir[IdOf(lu[p])], pages[p].span as nat);
      } else {
        assert DataOk(g, P, lu, pages, lu[p], dir[lu[p]], pages[p].span as nat);
      }
    }
  }

  // ---------------------------------------------------------------- finding index pages

  /** The lookup finds exactly the index page the directory names. */
  lemma MatchesIx(g: Geo, P: set<nat>, lu: seq<half>, pages: seq<Page>, dir: Dir, dirty: set<nat>, id: half, k: half, p: nat)
    requires Rep(g, P, lu, pages, dir, dirty) && 0 < id < 0x7FFF && p in P
    ensures Matches(lu, pages, id + IX_FLAG, k, p) <==>
              id in dir && k as nat < |dir[id].ix| && dir[id].ix[k] as nat == p && !(k == 0 && dir[id].doomed)
  {
    if Matches(lu, pages, id + IX_FLAG, k, p) {
      assert Owned(lu[p], pages[p].span, p, dir);
    }
    if id in dir && k as nat < |dir[id].ix| { assert IxOk(g, P, lu, pages, dirty, id, dir[id], k as nat); }
  }

  /** ... and exactly the data page. */
  lemma MatchesData(g: Geo, P: set<nat>, lu: seq<half>, pages: seq<Page>, dir: Dir, dirty: set<nat>, id: half, s: half, p: nat)
    requires Rep(g, P, lu, pages, dir, dirty) && 0 < id < 0x7FFF && p in P
    ensures Matches(lu, pages, id, s, p) <==>
              id in dir && s as nat < |dir[id].data| && dir[id].data[s] as nat == p && s as nat !in dir[id].lost
  {
    if Matches(lu, pages, id, s, p) {
      assert Owned(lu[p], pages[p].span, p, dir);
    }
    if id in dir && s as nat < |dir[id].data| { assert DataOk(g, P, lu, pages, id, dir[id], s as nat); }
  }

  /** An operation in progress: index pages whose content is still in the work buffer, descriptors it
      owns, and the object it has not yet announced the size of (0 for none). */
  datatype Op = Op(dirty: set<nat>, except: set<nat>, busy: half)

  /** Everything agrees but what the operation in progress is responsible for. */
  ghost predicate Mid(fs: Spiffs, op: Op)
    reads fs
  {
    && fs.Ok()
    && Rep(fs.g, fs.P, fs.lu, fs.pages, fs.dir, op.dirty)
    && FdsOk(fs.fds, fs.wc, fs.dir, op.busy, op.except)
  }

  lemma RepWeaken(g: Geo, P: set<nat>, lu: seq<half>, pages: seq<Page>, dir: Dir, dirty: set<nat>, dirty': set<nat>)
    requires Rep(g, P, lu, pages, dir, dirty) && dirty <= dirty'
    ensures Rep(g, P, lu, pages, dir, dirty')
  {
    forall id, k | id in dir && 0 <= k < |dir[id].ix| ensures IxOk(g, P, lu, pages, dirty', id, dir[id], k) {
      assert IxOk(g, P, lu, pages, dirty, id, dir[id], k);
    }
  }

  /** An operation that was refused a page has changed nothing, but for deleted pages that may have been erased. */
  ghost predicate Refused(dir: Dir, fds: seq<Fd>, wc: seq<CPage>, fs: Spiffs, op: Op)
    reads fs
  {
    Mid(fs, op) && fs.dir == dir && fs.fds == fds && fs.wc == wc
  }

  function IxSet(o: Obj): set<nat> { set k | 0 <= k < |o.ix| :: o.ix[k] as nat }

  /** What an operation on object `id` leaves behind when it breaks off for lack of a page: index pages of `id` on
      flash may be out of date, and its descriptors may be wrong about its size; the cursors of the descriptors
      `lost` cannot be relied on.  Every other object is on flash as the directory says, and its descriptors agree. */
  ghost predicate Torn(fs: Spiffs, id: half, lost: set<nat>)
    reads fs
  {
    && id in fs.dir && fs.Ok()
    && Rep(fs.g, fs.P, fs.lu, fs.pages, fs.dir, IxSet(fs.dir[id]))
    && FdsPix(fs.fds, fs.dir, lost) && FdsSize(fs.fds, fs.dir, id, lost) && CacheRefs(fs.fds, fs.wc)
  }

  lemma MidTorn(fs: Spiffs, op: Op, id: half, lost: set<nat>)
    requires Mid(fs, op) && id in fs.dir && op.dirty <= IxSet(fs.dir[id]) && (op.busy == 0 || op.busy == id)
    requires op.except <= lost
    ensures Torn(fs, id, lost)
  {
    RepWeaken(fs.g, fs.P, fs.lu, fs.pages, fs.dir, op.dirty, IxSet(fs.dir[id]));
    forall i | 0 <= i < |fs.fds| && i !in lost && IdOf(fs.fds[i].objId) != id ensures FdSize(fs.fds[i], fs.dir) {
      if IdOf(fs.fds[i].objId) == 0 { assert FdPix(fs.fds[i], fs.dir); }
    }
  }

  /** Nothing is half done, or one object is torn. */
  ghost predicate Stalled(fs: Spiffs)
    reads fs
  {
    Mid(fs, Op({}, {}, 0)) || exists x :: Torn(fs, x, {})
  }

  /** What is left after an operation on object `id` got no page: at most `id` is torn, or no page at all is free
      and some one object is. */
  ghost predicate Survived(fs: Spiffs, id: half, lost: set<nat>)
    reads fs
  {
    Torn(fs, id, lost) || (Exhausted(fs) && Stalled(fs))
  }

  /** Every data page of an object has its index page. */
  lemma IxCovers(g: Geo, o: Obj, s: nat)
    requires g.Valid() && ObjShape(g, o) && s < |o.data|
    ensures g.IxOf(s) < |o.ix| && g.IxOf(s) < 0xFFFF && g.SlotOf(s) < g.Slots(g.IxOf(s)) <= g.Cap()
  {
    SlotLaw(g, s);
    FirstMono(g, if |o.ix| < g.IxOf(s) then |o.ix| else g.IxOf(s), g.IxOf(s));
  }

  /** Finding an index page of an object through the lookup tables. */
  method FindIx(fs: Spiffs, id: half, k: half, ghost dirty: set<nat>) returns (st: Status, p: half)
    requires fs.Ok() && Rep(fs.g, fs.P, fs.lu, fs.pages, fs.dir, dirty) && 0 < id < 0x7FFF
    modifies fs`curBlk, fs`curEnt
    ensures fs.Ok()
    ensures st == OK <==> id in fs.dir && k as nat < |fs.dir[id].ix| && !(k == 0 && fs.dir[id].doomed)
    ensures st == OK ==> p == fs.dir[id].ix[k]
    ensures st == OK || st == ERR_NOT_FOUND
  {
    st, p := FindIdAndSpan(fs, id + IX_FLAG, k, 0);
    if st == OK {
      MatchesIx(fs.g, fs.P, fs.lu, fs.pages, fs.dir, dirty, id, k, p as nat);
    } else if id in fs.dir && k as nat < |fs.dir[id].ix| {
      assert IxOk(fs.g, fs.P, fs.lu, fs.pages, dirty, id, fs.dir[id], k as nat);
      MatchesIx(fs.g, fs.P, fs.lu, fs.pages, fs.dir, dirty, id, k, fs.dir[id].ix[k] as nat);
    }
  }

  // ---------------------------------------------------------------- storing index pages

  /** The directory after index page k of an object has moved to page q. */
  ghost function WithIx(dir: Dir, id: half, k: nat, q: half): Dir {
    if id in dir && k < |dir[id].ix| then dir[id := dir[id].(ix := dir[id].ix[k := q])] else dir
  }

  /** The free cursor stands right behind page q. */
  ghost predicate CursorBehind(fs: Spiffs, q: nat)
    requires 0 < fs.g.ppb
    reads fs
  {
    fs.freeBlk == fs.g.BlockOf(q) && fs.freeEnt == fs.g.EntryOf(q) + 1
  }

  /** Page src has moved to the free page q; nothing else has changed in the lookup tables. */
  ghost predicate LuMoved(lu: seq<half>, lu': seq<half>, id: half, src: half, q: half) {
    && src as nat < |lu| && q as nat < |lu| && lu[q] == FREE_ID
    && lu' == lu[q := id][src := DELETED_ID]
  }

  /** Every object means what it meant: only page numbers differ. */
  ghost predicate SameMeaning(dir: Dir, dir': Dir) {
    && dir'.Keys == dir.Keys
    && forall id :: id in dir ==>
                      && dir'[id].name == dir[id].name && dir'[id].chunks == dir[id].chunks
                      && dir'[id].doomed == dir[id].doomed && dir'[id].lost == dir[id].lost
                      && |dir'[id].ix| == |dir[id].ix| && |dir'[id].data| == |dir[id].data|
  }

  /** What spiffs_page_move does to the flash, as the two steps the directory sees. */
  lemma MovedIx(g: Geo, P: set<nat>, lu: seq<half>, pages: seq<Page>, mlu: seq<half>, mpages: seq<Page>, dir: Dir,
                dirty: set<nat>, id: half, k: nat, q: half)
    requires Rep(g, P, lu, pages, dir, dirty) && id in dir && k < |dir[id].ix|
    requires OnlyDeletedErased(P, lu, pages, mlu, mpages)
    requires q as nat in P && q as nat < |mlu| && mlu[q] == FREE_ID && dir[id].ix[k] as nat < |mlu|
    ensures var src := dir[id].ix[k];
            Rep(g, P, mlu[q := id + IX_FLAG][src := DELETED_ID],
                mpages[q := IxPage(g, id, dir[id], k)][src := Deleted(mpages[src])],
                WithIx(dir, id, k, q), dirty - {src as nat})
  {
    EraseStep(g, P, lu, pages, dir, dirty, mlu, mpages);
    assert IxOk(g, P, mlu, mpages, dirty, id, dir[id], k);
    var src := dir[id].ix[k];
    MoveIxStep(g, P, mlu, mpages, dir, dirty, mlu[q := id + IX_FLAG][src := DELETED_ID],
               mpages[q := IxPage(g, id, dir[id], k)][src := Deleted(mpages[src])], id, k, q);
  }

  /** Storing index page k, which the work buffer holds, in a new place, and telling the descriptors. */
  method StoreIx(fs: Spiffs, id: half, k: half, src: half, newSize: word, ev: Event, ghost op: Op)
    returns (st: Status, q: half)
    requires Mid(fs, op) && id in fs.dir && k as nat < |fs.dir[id].ix| && src == fs.dir[id].ix[k]
    requires fs.work == IxPage(fs.g, id, fs.dir[id], k as nat)
    requires ev != IxDel
    requires newSize == 0 || (k == 0 && newSize == |Bytes(fs.dir[id])|)
    requires op.busy == 0 || op.busy == id
    modifies fs
    ensures old(fs.cleaning) && st != OK ==> Exhausted(fs)
    ensures old(fs.cleaning) ==> fs.eraseCnt == old(fs.eraseCnt) && fs.maxErase == old(fs.maxErase)
    ensures Spacious(st)
    ensures fs.cleaning == old(fs.cleaning)
    ensures st == OK ==> q as nat in fs.P && q < FREE_PIX
    ensures st == OK ==> Mid(fs, Op(op.dirty - {src as nat}, op.except, if newSize == 0 then op.busy else 0))
    ensures st == OK ==> fs.dir == WithIx(old(fs.dir), id, k as nat, q) && fs.work == old(fs.work)
    ensures st == OK ==> SameUser(old(fs.fds), fs.fds) && fs.wc == old(fs.wc)
    ensures st == OK && old(fs.cleaning) ==>
              LuMoved(old(fs.lu), fs.lu, id + IX_FLAG, src, q) && CursorBehind(fs, q)
    ensures st != OK ==> Refused(old(fs.dir), old(fs.fds), old(fs.wc), fs, op) && fs.work == old(fs.work)
    ensures st != OK && old(fs.cleaning) ==> fs.lu == old(fs.lu)
    ensures st == OK <==> old(PageToHave(fs))
    ensures old(InStock(fs)) >= 1 ==> InStock(fs) + 1 >= old(InStock(fs))
  {
    hide Inv, Rep, FdsOk, IxPage, SameUser, LuMoved, WithIx, Stocked, LivePages, DeletedPages, FreeBlocks, FreePages,
      SomeDeletedBlock, FdsPix, FdsSize, FdsOff, CacheRefs, Flatten;
    MidDir(fs, op);
    ghost var dir := fs.dir;
    st, q := MoveIx(fs, id, k, src, op.dirty);
    if st != OK { return; }
    TellMove(fs, id, k, q, newSize, ev, dir, op.except, op.busy);
  }

  lemma MidDir(fs: Spiffs, op: Op)
    requires Mid(fs, op)
    ensures 0 !in fs.dir && fs.g.Valid()
    ensures forall id :: id in fs.dir ==> 0 < id < 0x7FFF && |Bytes(fs.dir[id])| < UNDEFINED_LEN && |fs.dir[id].ix| > 0
    ensures forall id :: id in fs.dir ==> |fs.dir[id].name| == NAME_LEN
  {
  }

  lemma IxPlace(g: Geo, P: set<nat>, lu: seq<half>, pages: seq<Page>, dir: Dir, dirty: set<nat>, id: half, k: nat)
    requires Rep(g, P, lu, pages, dir, dirty) && id in dir && k < |dir[id].ix|
    ensures var p := dir[id].ix[k];
            && 0 < id < 0x7FFF && p as nat in P && p as nat < |lu| == |pages| && lu[p] == id + IX_FLAG
            && k < 0xFFFF && |dir[id].name| == NAME_LEN && |Bytes(dir[id])| < UNDEFINED_LEN
            && Moved(IxPage(g, id, dir[id], k)) == IxPage(g, id, dir[id], k)
  {
    assert IxOk(g, P, lu, pages, dirty, id, dir[id], k);
  }

  /** The page move of an index page, and what it means. */
  method MoveIx(fs: Spiffs, id: half, k: half, src: half, ghost dirty: set<nat>) returns (st: Status, q: half)
    requires fs.Ok() && Rep(fs.g, fs.P, fs.lu, fs.pages, fs.dir, dirty)
    requires id in fs.dir && k as nat < |fs.dir[id].ix| && src == fs.dir[id].ix[k]
    requires fs.work == IxPage(fs.g, id, fs.dir[id], k as nat)
    modifies fs`lu, fs`pages, fs`freeBlocks, fs`surplus, fs`maxErase, fs`eraseCnt, fs`nDel, fs`freeBlk, fs`freeEnt,
             fs`nAlloc, fs`work, fs`dir
    ensures old(fs.cleaning) && st != OK ==> Exhausted(fs)
    ensures old(fs.cleaning) ==> fs.eraseCnt == old(fs.eraseCnt) && fs.maxErase == old(fs.maxErase)
    ensures Spacious(st)
    ensures fs.Ok()
    ensures st == OK ==> q as nat in fs.P && q < FREE_PIX
    ensures st == OK ==> Rep(fs.g, fs.P, fs.lu, fs.pages, fs.dir, dirty - {src as nat})
    ensures st == OK ==> fs.dir == WithIx(old(fs.dir), id, k as nat, q) && fs.work == old(fs.work)
    ensures st == OK && old(fs.cleaning) ==>
              LuMoved(old(fs.lu), fs.lu, id + IX_FLAG, src, q) && CursorBehind(fs, q)
    ensures st != OK ==> Rep(fs.g, fs.P, fs.lu, fs.pages, fs.dir, dirty)
    ensures st != OK ==> fs.dir == old(fs.dir) && fs.work == old(fs.work)
    ensures st != OK ==> OnlyDeletedErased(fs.P, old(fs.lu), old(fs.pages), fs.lu, fs.pages)
    ensures st != OK && old(fs.cleaning) ==> fs.lu == old(fs.lu)
    ensures st == OK <==> old(PageToHave(fs))
    ensures old(InStock(fs)) >= 1 ==> InStock(fs) + 1 >= old(InStock(fs))
  {
    hide FlashOk, FreeSuffix, CursorOk, LivePages, DeletedPages, FreeBlocks, Rep, IxPage, PageToHave, TakesNext, Stocked;
    q := 0;
    if InStock(fs) >= 1 { StockGives(fs); }
    ghost var s := fs.S();
    IxPlace(fs.g, fs.P, fs.lu, fs.pages, fs.dir, dirty, id, k as nat);
    ghost var lu, pages, dir := fs.lu, fs.pages, fs.dir;
    ghost var mlu, mpages;
    st, q, mlu, mpages := PageMove(fs, true, id + IX_FLAG, src);
    if st != OK {
      EraseStep(fs.g, fs.P, lu, pages, dir, dirty, mlu, mpages);
      return;
    }
    MovedIx(fs.g, fs.P, lu, pages, mlu, mpages, dir, dirty, id, k as nat, q);
    if s.freeBlocks >= 2 { StockTaken(fs.g, fs.P, s, fs.S(), q as nat); }
    fs.dir := WithIx(dir, id, k as nat, q);
  }

  /** Telling the descriptors about a moved index page. */
  method TellMove(fs: Spiffs, id: half, k: half, q: half, newSize: word, ev: Event, ghost dir: Dir,
                  ghost except: set<nat>, ghost busy: half)
    requires FdsOk(fs.fds, fs.wc, dir, busy, except)
    requires id in dir && 0 < id < 0x7FFF && k as nat < |dir[id].ix| && ev != IxDel && 0 !in dir
    requires newSize == 0 || (k == 0 && newSize == |Bytes(dir[id])| && newSize != UNDEFINED_LEN)
    requires busy == 0 || busy == id
    requires fs.dir == WithIx(dir, id, k as nat, q)
    modifies fs`fds, fs`wc
    ensures FdsOk(fs.fds, fs.wc, fs.dir, if newSize == 0 then busy else 0, except)
    ensures SameUser(old(fs.fds), fs.fds) && fs.wc == old(fs.wc)
  {
    hide Flatten, AfterEvent;
    ghost var fds := fs.fds;
    ObjectEvent(fs, ev, id + IX_FLAG, k, q, newSize);
    EventAfterMove(fds, fs.fds, fs.wc, dir, except, ev, id + IX_FLAG, k, q, newSize);
    EventKeepsUser(fds, fs.fds, fs.wc, dir, ev, id + IX_FLAG, k, q, newSize);
    OffFrame(fds, fs.fds, fs.wc, dir, fs.dir, 0);
    OpenHaveIds(fds, dir, except);
    if newSize == 0 {
      SizeFrame(fds, dir, fs.dir, busy, busy, except);
      EventKeepsSize(fds, fs.fds, fs.wc, fs.dir, ev, id + IX_FLAG, k, q, busy, except);
    } else {
      SizeFrame(fds, dir, fs.dir, busy, id, except);
      EventSetsSize(fds, fs.fds, fs.wc, dir, fs.dir, ev, id + IX_FLAG, q, newSize, except);
    }
  }

  /** The header page as spiffs_object_update_index_hdr is about to store it. */
  function HdrPatched(p: Page, name: Option<seq<byte>>, size: word): Page {
    p.(name := if name.Some? then name.value else p.name, size := if size != 0 then size else p.size)
  }

  /** The header page is put into the work buffer, validated and patched. */
  method PrepareHdr(fs: Spiffs, id: half, hdrPix: half, fromWork: bool, name: Option<seq<byte>>, size: word)
    returns (st: Status)
    requires hdrPix as nat < |fs.pages| && id < IX_FLAG
    modifies fs`work
    ensures var p := if fromWork then old(fs.work) else fs.pages[hdrPix];
            && st == ValidateIx(p, id + IX_FLAG, 0)
            && fs.work == if st == OK then HdrPatched(p, name, size) else p
  {
    if !fromWork { fs.work := fs.pages[hdrPix]; }
    st := ValidateIx(fs.work, id + IX_FLAG, 0);
    if st != OK { return; }
    fs.work := HdrPatched(fs.work, name, size);
  }

  /** The caller's descriptor is told the new header page, whether or not the event reached it. */
  method SetHdrPix(fs: Spiffs, f: nat, id: half, q: half, ghost op: Op)
    requires f < |fs.fds| && FdsOk(fs.fds, fs.wc, fs.dir, op.busy, op.except)
    requires id in fs.dir && |fs.dir[id].ix| > 0 && fs.dir[id].ix[0] == q && IdOf(fs.fds[f].objId) == id
    modifies fs`fds
    ensures FdsOk(fs.fds, fs.wc, fs.dir, op.busy, op.except) && SameUser(old(fs.fds), fs.fds)
    ensures fs.fds[f].hdrPix == q
  {
    ghost var fds := fs.fds;
    fs.fds := fs.fds[f := fs.fds[f].(hdrPix := q)];
    forall i | 0 <= i < |fds| && i !in op.except ensures FdPix(fs.fds[i], fs.dir) { assert FdPix(fds[i], fs.dir); }
    forall i | 0 <= i < |fds| && i !in op.except && IdOf(fds[i].objId) != op.busy ensures FdSize(fs.fds[i], fs.dir) {
      assert FdSize(fds[i], fs.dir);
    }
    forall i | 0 <= i < |fds| && IdOf(fds[i].objId) != 0 ensures FdOff(fs.fds[i], fs.dir, fs.wc) {
      assert FdOff(fds[i], fs.dir, fs.wc);
    }
  }

  lemma SameUserTransitive(a: seq<Fd>, b: seq<Fd>, c: seq<Fd>)
    requires SameUser(a, b) && SameUser(b, c)
    ensures SameUser(a, c)
  {
  }

  /** Storing the header page and telling the caller's descriptor. */
  method StoreHdr(fs: Spiffs, f: Option<nat>, id: half, hdrPix: half, ev: Event, ghost op: Op)
    returns (st: Status, q: half)
    requires Mid(fs, op) && id in fs.dir && |Bytes(fs.dir[id])| > 0 && (op.busy == 0 || op.busy == id)
    requires hdrPix == fs.dir[id].ix[0] && ev != IxDel && fs.work == IxPage(fs.g, id, fs.dir[id], 0)
    requires f.Some? ==> f.value < |fs.fds| && IdOf(fs.fds[f.value].objId) == id
    modifies fs
    ensures old(fs.cleaning) && st != OK ==> Exhausted(fs)
    ensures old(fs.cleaning) ==> fs.eraseCnt == old(fs.eraseCnt) && fs.maxErase == old(fs.maxErase)
    ensures Spacious(st)
    ensures fs.cleaning == old(fs.cleaning)
    ensures st == OK ==> q as nat in fs.P && q < FREE_PIX
    ensures st == OK ==> Mid(fs, Op(op.dirty - {hdrPix as nat}, op.except, 0))
    ensures st == OK ==> fs.dir == WithIx(old(fs.dir), id, 0, q) && fs.work == old(fs.work)
    ensures st == OK ==> SameUser(old(fs.fds), fs.fds) && fs.wc == old(fs.wc)
    ensures st == OK && f.Some? ==> fs.fds[f.value].hdrPix == q
    ensures st == OK && old(fs.cleaning) ==>
              LuMoved(old(fs.lu), fs.lu, id + IX_FLAG, hdrPix, q) && CursorBehind(fs, q)
    ensures st != OK ==> Refused(old(fs.dir), old(fs.fds), old(fs.wc), fs, op) && fs.work == old(fs.work)
    ensures st != OK && old(fs.cleaning) ==> fs.lu == old(fs.lu)
    ensures st == OK <==> old(PageToHave(fs))
    ensures old(InStock(fs)) >= 1 ==> InStock(fs) + 1 >= old(InStock(fs))
  {
    hide Inv, Rep, FdsOk, LuMoved, Stocked;
    MidDir(fs, op);
    st, q := StoreIx(fs, id, 0, hdrPix, fs.work.size, ev, op);
    if st == OK && f.Some? {
      ghost var fds := fs.fds;
      SetHdrPix(fs, f.value, id, q, Op(op.dirty, op.except, 0));
      SameUserTransitive(old(fs.fds), fds, fs.fds);
    }
  }

  /** spiffs_object_update_index_hdr on an object with content; f is the caller's descriptor, if any. */
  method UpdateIndexHdr(fs: Spiffs, f: Option<nat>, id: half, hdrPix: half, fromWork: bool,
                        name: Option<seq<byte>>, size: word, ghost op: Op) returns (st: Status, q: half)
    requires Mid(fs, op) && id in fs.dir && |Bytes(fs.dir[id])| > 0 && (op.busy == 0 || op.busy == id)
    requires hdrPix == fs.dir[id].ix[0] && hdrPix as nat < |fs.pages|
    requires HdrPatched(if fromWork then fs.work else fs.pages[hdrPix], name, size) == IxPage(fs.g, id, fs.dir[id], 0)
    requires f.Some? ==> f.value < |fs.fds| && IdOf(fs.fds[f.value].objId) == id
    modifies fs
    ensures old(fs.cleaning) && st != OK ==> Exhausted(fs)
    ensures old(fs.cleaning) ==> fs.eraseCnt == old(fs.eraseCnt) && fs.maxErase == old(fs.maxErase)
    ensures Spacious(st)
    ensures fs.cleaning == old(fs.cleaning)
    ensures st == OK ==> q as nat in fs.P && q < FREE_PIX
    ensures st == OK ==> Mid(fs, Op(op.dirty - {hdrPix as nat}, op.except, 0))
    ensures st == OK ==> fs.dir == WithIx(old(fs.dir), id, 0, q) && fs.work == IxPage(fs.g, id, old(fs.dir)[id], 0)
    ensures st == OK ==> SameUser(old(fs.fds), fs.fds) && fs.wc == old(fs.wc)
    ensures st == OK && f.Some? ==> fs.fds[f.value].hdrPix == q
    ensures st == OK && old(fs.cleaning) ==>
              LuMoved(old(fs.lu), fs.lu, id + IX_FLAG, hdrPix, q) && CursorBehind(fs, q)
    ensures st != OK ==> Refused(old(fs.dir), old(fs.fds), old(fs.wc), fs, op)
    ensures st != OK && old(fs.cleaning) ==> fs.lu == old(fs.lu)
    ensures st != OK ==> fs.work == IxPage(fs.g, id, old(fs.dir)[id], 0)
    ensures st == OK <==> old(PageToHave(fs))
    ensures old(InStock(fs)) >= 1 ==> InStock(fs) + 1 >= old(InStock(fs))
  {
    hide FlashOk, FreeSuffix, CursorOk, LivePages, DeletedPages, FreeBlocks, Stocked, LuMoved, FreePages, SomeDeletedBlock;
    q := 0;
    st := PrepareHdr(fs, id, hdrPix, fromWork, name, size);
    if st != OK { return; }
    st, q := StoreHdr(fs, f, id, hdrPix, if fromWork then IxUpd else IxUpdHdr, op);
  }
}
