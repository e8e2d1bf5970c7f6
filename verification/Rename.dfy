/** Renaming files and closing descriptors: SPIFFS_rename and SPIFFS_close. */
module Rename {
  import opened Nor
  import opened Layout
  import opened Chunks
  import opened Image
  import opened Core
  import opened Descriptors
  import opened State
  import opened Alloc
  import opened Stock
  import opened Events
  import opened Objects
  import opened Gc
  import opened Modify
  import opened Append
  import opened Hydro
  import opened Truncate
  import opened FreeId
  import opened Files
  import WriteCache

  /** Only the name of object `id` is different, and no page has been lost. */
  ghost predicate Renamed(dir: Dir, dir': Dir, id: half, name: seq<byte>) {
    && dir'.Keys == dir.Keys
    && forall x :: x in dir ==>
                     && dir'[x].name == (if x == id then name else dir[x].name)
                     && dir'[x].chunks == dir[x].chunks && dir'[x].doomed == dir[x].doomed && dir'[x].lost == dir[x].lost
                     && |dir'[x].ix| == |dir[x].ix| && |dir'[x].data| == |dir[x].data|
  }

  /** Where an open descriptor stands afterwards: a file without stored content sends its descriptors back to
      its start, even those with cached writes. */
  function OffsetAfter(fd: Fd, id: half, stored: nat): nat {
    if IdOf(fd.objId) == id && stored == 0 then 0 else fd.fdoffset
  }

  ghost predicate UsersAfter(fds: seq<Fd>, fds': seq<Fd>, id: half, stored: nat) {
    && |fds'| == |fds|
    && forall i :: 0 <= i < |fds| ==>
                     && fds'[i].fileNbr == fds[i].fileNbr && fds'[i].objId == fds[i].objId
                     && fds'[i].flags == fds[i].flags
                     && (fds[i].fileNbr != 0 ==> fds'[i].fdoffset == OffsetAfter(fds[i], id, stored))
  }

  /** What the new header does to the write cache: nothing while the file has stored content; otherwise write pages of the
      file that begin at offset 2 or behind it are dropped. */
  ghost predicate CacheAfterName(fds: seq<Fd>, fds': seq<Fd>, wc: seq<CPage>, wc': seq<CPage>, id: half, stored: nat) {
    if stored > 0 then wc' == wc && SameRefs(fds, fds') else PagesDropped(fds, fds', wc, wc', id, 2)
  }

  lemma SameUserAfter(fds: seq<Fd>, fds': seq<Fd>, id: half, stored: nat)
    requires SameUser(fds, fds') && 0 < stored
    ensures UsersAfter(fds, fds', id, stored) && SameRefs(fds, fds')
  {
  }

  lemma UsersThen(fds: seq<Fd>, fds1: seq<Fd>, fds2: seq<Fd>, wc: seq<CPage>, wc': seq<CPage>, id: half, stored: nat)
    requires UsersAfter(fds, fds1, id, stored) && SameUser(fds1, fds2) && CacheAfterName(fds, fds1, wc, wc', id, stored)
    ensures UsersAfter(fds, fds2, id, stored) && CacheAfterName(fds, fds2, wc, wc', id, stored)
  {
    hide OffsetAfter, UsersAfter;
    assert UsersAfter(fds, fds2, id, stored) by { UsersBoth(fds, fds1, fds2, id, stored); }
    if stored == 0 { DroppedStays(fds, fds1, fds2, wc, wc', id, 2); }
  }

  lemma UsersBoth(fds: seq<Fd>, fds1: seq<Fd>, fds2: seq<Fd>, id: half, stored: nat)
    requires UsersAfter(fds, fds1, id, stored) && SameUser(fds1, fds2)
    ensures UsersAfter(fds, fds2, id, stored)
  {
  }

  /** The descriptors are told that the header of a file without content has moved. */
  method TellEmpty(fs: Spiffs, id: half, q: half, ghost dir: Dir)
    requires FdsOk(fs.fds, fs.wc, dir, 0, {}) && 0 !in dir && id in dir && 0 < id < 0x7FFF
    requires |dir[id].ix| > 0 && |Bytes(dir[id])| == 0 && fs.dir == WithIx(dir, id, 0, q)
    modifies fs`fds, fs`wc
    ensures FdsOk(fs.fds, fs.wc, fs.dir, 0, {}) && UsersAfter(old(fs.fds), fs.fds, id, 0)
    ensures PagesDropped(old(fs.fds), fs.fds, old(fs.wc), fs.wc, id, 2)
  {
    hide Taken, PagesDropped;
    ghost var fds, wc := fs.fds, fs.wc;
    ObjectEvent(fs, IxUpdHdr, id + IX_FLAG, 0, q, UNDEFINED_LEN);
    TakenNames(fds, fs.fds, wc, fs.wc, dir, IxUpdHdr, id);
    EventAfterMove(fds, fs.fds, wc, dir, {}, IxUpdHdr, id + IX_FLAG, 0, q, UNDEFINED_LEN);
    OpenHaveIds(fds, dir, {});
    SizeFrame(fds, dir, fs.dir, 0, id, {});
    EventSetsSize(fds, fs.fds, wc, dir, fs.dir, IxUpdHdr, id + IX_FLAG, q, UNDEFINED_LEN, {});
    EmptyUsers(fds, fs.fds, wc, dir, id, q);
    EmptyOffsets(fds, fs.fds, wc, fs.wc, dir, fs.dir, id);
  }

  lemma EmptyUsers(fds: seq<Fd>, fds': seq<Fd>, wc: seq<CPage>, dir: Dir, id: half, q: half)
    requires 0 < id < 0x7FFF && FdsPix(fds, dir, {}) && OthersKeep(fds, fds', id + IX_FLAG)
    requires FdsAfter(fds, fds', wc, IxUpdHdr, id + IX_FLAG, 0, q, UNDEFINED_LEN)
    ensures UsersAfter(fds, fds', id, 0)
  {
    forall i | 0 <= i < |fds|
      ensures fds'[i].fileNbr == fds[i].fileNbr && fds'[i].objId == fds[i].objId && fds'[i].flags == fds[i].flags
      ensures fds[i].fileNbr != 0 ==> fds'[i].fdoffset == OffsetAfter(fds[i], id, 0)
    {
      assert FdPix(fds[i], dir);
      assert Bare(fds'[i]).fileNbr == fds'[i].fileNbr && Bare(fds'[i]).objId == fds'[i].objId;
      assert Bare(fds'[i]).fdoffset == fds'[i].fdoffset && Bare(fds'[i]).flags == fds'[i].flags;
    }
  }

  lemma EmptyOffsets(fds: seq<Fd>, fds': seq<Fd>, wc: seq<CPage>, wc': seq<CPage>, dir: Dir, dir': Dir, id: half)
    requires 0 < id < 0x7FFF && 0 !in dir
    requires FdsOff(fds, dir, wc, 0) && UsersAfter(fds, fds', id, 0) && OthersKeep(fds, fds', id + IX_FLAG)
    requires GivenUp(wc, wc', id) && CacheRefs(fds, wc) && CacheRefs(fds', wc')
    requires FdsPix(fds, dir, {})
    requires dir'.Keys == dir.Keys && forall x :: x in dir ==> Bytes(dir'[x]) == Bytes(dir[x])
    ensures FdsOff(fds', dir', wc', 0)
  {
    forall i | 0 <= i < |fds'| && IdOf(fds'[i].objId) != 0 ensures FdOff(fds'[i], dir', wc') {
      assert FdOff(fds[i], dir, wc);
    }
  }

  /** The directory with a new name for object `id`. */
  ghost function WithName(dir: Dir, id: half, name: seq<byte>): Dir {
    if id in dir then dir[id := dir[id].(name := name)] else dir
  }

  lemma NamedDir(g: Geo, P: set<nat>, lu: seq<half>, pages: seq<Page>, dir: Dir, id: half, name: seq<byte>)
    requires Rep(g, P, lu, pages, dir, {}) && id in dir && |name| == NAME_LEN
    ensures var dir' := WithName(dir, id, name);
            && 0 < id < 0x7FFF && |dir[id].ix| > 0 && dir[id].ix[0] as nat < |pages| && |Bytes(dir[id])| < UNDEFINED_LEN
            && Rep(g, P, lu, pages, dir', {dir[id].ix[0] as nat})
            && |dir'[id].name| == NAME_LEN
            && HdrPatched(pages[dir[id].ix[0]], Some(name), 0) == IxPage(g, id, dir'[id], 0)
            && ValidateIx(pages[dir[id].ix[0]], id + IX_FLAG, 0) == OK
  {
    assert IxOk(g, P, lu, pages, {}, id, dir[id], 0);
    RepWeaken(g, P, lu, pages, dir, {}, {dir[id].ix[0] as nat});
    RenameStep(g, P, lu, pages, dir, {dir[id].ix[0] as nat}, id, name);
  }

  /** The header page with the new name goes to a new page. */
  method MoveHeader(fs: Spiffs, f: nat, id: half, name: seq<byte>) returns (st: Status, q: half)
    requires Ready(fs) && Points(fs, f, id) && id in fs.dir && |name| == NAME_LEN
    modifies fs`lu, fs`pages, fs`freeBlocks, fs`surplus, fs`maxErase, fs`eraseCnt, fs`nDel, fs`freeBlk, fs`freeEnt,
             fs`nAlloc, fs`work, fs`dir
    ensures Spacious(st) && fs.Ok() && Rep(fs.g, fs.P, fs.lu, fs.pages, fs.dir, {})
    ensures st == OK <==> old(PageToHave(fs))
    ensures fs.dir == if st == OK then WithIx(WithName(old(fs.dir), id, name), id, 0, q) else old(fs.dir)
    ensures st == OK ==> fs.work.size == SizeField(|Bytes(old(fs.dir)[id])|)
    ensures old(InStock(fs)) >= 1 ==> st == OK && InStock(fs) + 1 >= old(InStock(fs))
  {
    hide Rep, Inv, IxPage, FdsOk, AllTight, SizeField, HdrPatched, OnlyDeletedErased, FreePages, SomeDeletedBlock, PageToHave,
      Stocked, WithIx, Flatten, NoneDoomed, PageShape, LuMoved, CursorBehind, Exhausted, FdsPix, FdsSize, FdsOff, CacheRefs;
    if InStock(fs) >= 1 { StockGives(fs); }
    q := 0;
    ghost var lu, pages, dir := fs.lu, fs.pages, fs.dir;
    HdrOfPointed(fs, f, id);
    NamedDir(fs.g, fs.P, fs.lu, fs.pages, fs.dir, id, name);
    var hdr := fs.fds[f].hdrPix;
    st := PrepareHdr(fs, id, hdr, false, Some(name), 0);
    fs.dir := WithName(fs.dir, id, name);
    WorkSize(fs.g, id, fs.dir[id]);
    assert {hdr as nat} - {hdr as nat} == {};
    st, q := MoveIx(fs, id, 0, hdr, {hdr as nat});
    if st != OK {
      fs.dir := dir;
      EraseStep(fs.g, fs.P, lu, pages, dir, {}, fs.lu, fs.pages);
    }
  }

  lemma HdrOfPointed(fs: Spiffs, f: nat, id: half)
    requires Ready(fs) && Points(fs, f, id)
    ensures |fs.dir[id].ix| > 0 && fs.fds[f].hdrPix == fs.dir[id].ix[0] && |Bytes(fs.dir[id])| < UNDEFINED_LEN
    ensures FdsOk(fs.fds, fs.wc, fs.dir, 0, {}) && 0 !in fs.dir && 0 < id < 0x7FFF
  {
  }

  lemma WorkSize(g: Geo, id: half, o: Obj)
    requires id < IX_FLAG && |o.name| == NAME_LEN && |Bytes(o)| < UNDEFINED_LEN
    ensures IxPage(g, id, o, 0).size == SizeField(|Bytes(o)|)
  {
  }

  lemma NameFds(fds: seq<Fd>, wc: seq<CPage>, dir: Dir, id: half, name: seq<byte>)
    requires FdsOk(fds, wc, dir, 0, {}) && 0 !in dir
    ensures FdsOk(fds, wc, WithName(dir, id, name), 0, {})
  {
    FdsFrame(fds, wc, dir, WithName(dir, id, name), 0, 0, {});
  }

  lemma RenamedReady(g: Geo, dir: Dir, dir': Dir, id: half, name: seq<byte>)
    requires AllTight(g, dir) && NoneDoomed(dir) && Renamed(dir, dir', id, name)
    ensures AllTight(g, dir') && NoneDoomed(dir')
  {
    forall x | x in dir' ensures Tight(g, dir'[x]) { assert Tight(g, dir[x]); }
  }

  /** The descriptors are told about the header page with the new name. */
  method TellName(fs: Spiffs, id: half, q: half, size: word, ghost dir: Dir)
    requires FdsOk(fs.fds, fs.wc, dir, 0, {}) && 0 !in dir && id in dir && 0 < id < 0x7FFF
    requires |dir[id].ix| > 0 && |Bytes(dir[id])| < UNDEFINED_LEN && size == SizeField(|Bytes(dir[id])|)
    requires fs.dir == WithIx(dir, id, 0, q)
    modifies fs`fds, fs`wc
    ensures FdsOk(fs.fds, fs.wc, fs.dir, 0, {}) && UsersAfter(old(fs.fds), fs.fds, id, |Bytes(dir[id])|)
    ensures CacheAfterName(old(fs.fds), fs.fds, old(fs.wc), fs.wc, id, |Bytes(dir[id])|)
  {
    hide FdsOk, UsersAfter, SameUser, Flatten, PagesDropped, SameRefs;
    ghost var fds := fs.fds;
    if size != UNDEFINED_LEN {
      TellMove(fs, id, 0, q, size, IxUpdHdr, dir, {}, 0);
      SameUserAfter(fds, fs.fds, id, |Bytes(dir[id])|);
    } else {
      TellEmpty(fs, id, q, dir);
    }
  }

  /** spiffs_object_update_index_hdr with a new name: contents stay as they are, whatever the size.  It succeeds exactly if
      there is a page for the header, and otherwise nothing has changed. */
  method NewName(fs: Spiffs, f: nat, id: half, name: seq<byte>) returns (st: Status)
    requires Ready(fs) && Points(fs, f, id) && id in fs.dir && |name| == NAME_LEN
    modifies fs
    ensures Spacious(st) && Ready(fs) && (st == OK <==> old(PageToHave(fs)))
    ensures st == OK ==> Renamed(old(fs.dir), fs.dir, id, name)
    ensures st == OK ==> UsersAfter(old(fs.fds), fs.fds, id, |Bytes(old(fs.dir)[id])|)
    ensures st == OK ==> CacheAfterName(old(fs.fds), fs.fds, old(fs.wc), fs.wc, id, |Bytes(old(fs.dir)[id])|)
    ensures st != OK ==> fs.dir == old(fs.dir) && fs.fds == old(fs.fds) && fs.wc == old(fs.wc)
    ensures old(InStock(fs)) >= 1 ==> st == OK && InStock(fs) + 1 >= old(InStock(fs))
  {
    hide Rep, Inv, FdsOk, AllTight, UsersAfter, SameUser, CacheAfterName, FreePages, SomeDeletedBlock, Flatten, Stocked,
      PageToHave;
    HdrOfPointed(fs, f, id);
    NameFds(fs.fds, fs.wc, fs.dir, id, name);
    ghost var dir, fds, wc := fs.dir, fs.fds, fs.wc;
    ghost var named := WithName(dir, id, name);
    var q;
    st, q := MoveHeader(fs, f, id, name);
    if st != OK { return; }
    TellName(fs, id, q, fs.work.size, named);
    ghost var told := fs.fds;
    StillThere(fds, told, f, id, |Bytes(dir[id])|);
    SetHdrPix(fs, f, id, q, IDLE);
    UsersThen(fds, told, fs.fds, wc, fs.wc, id, |Bytes(dir[id])|);
    RenamedReady(fs.g, dir, fs.dir, id, name);
  }

  lemma StillThere(fds: seq<Fd>, fds': seq<Fd>, f: nat, id: half, stored: nat)
    requires f < |fds| && IdOf(fds[f].objId) == id && UsersAfter(fds, fds', id, stored)
    ensures f < |fds'| && IdOf(fds'[f].objId) == id
  {
  }

  /** The descriptor used on the way is returned. */
  method Return(fs: Spiffs, f: nat)
    requires Ready(fs) && f < |fs.fds| && fs.fds[f].cache.NoCache?
    modifies fs`fds
    ensures Ready(fs) && fs.fds == old(fs.fds)[f := old(fs.fds)[f].(fileNbr := 0)]
  {
    ghost var fds := fs.fds;
    fs.fds := fs.fds[f := fs.fds[f].(fileNbr := 0)];
    forall i | 0 <= i < |fds| ensures FdPix(fs.fds[i], fs.dir) { assert FdPix(fds[i], fs.dir); }
    forall i | 0 <= i < |fds| && IdOf(fs.fds[i].objId) != 0 ensures FdSize(fs.fds[i], fs.dir) && FdOff(fs.fds[i], fs.dir, fs.wc) {
      assert FdSize(fds[i], fs.dir) && FdOff(fds[i], fs.dir, fs.wc);
    }
  }

  /** SPIFFS_close: what was written through the descriptor and is cached is stored first.  When that fails, the descriptor
      stays open, and what the flush did not store, its first `done` bytes aside, is lost.  `dropped` tells of pages of the
      file that are lost, whether it fails or not. */
  method Close(fs: Spiffs, f: nat, id: half, psz: nat, room: nat)
    returns (st: Status, ghost stored: bool, ghost done: nat, dropped: bool)
    requires WriteCache.Good(fs, psz) && OpenOn(fs, f, id) && id in fs.dir && 0 < room && WriteCache.Flushable(fs, id)
    requires fs.fds[f].flags.direct ==> WriteCache.PageOf(fs.wc, id, 0) == |fs.wc|
    modifies fs
    ensures Spacious(st) && id in fs.dir && f < |fs.fds| && (st == OK <==> fs.fds[f].fileNbr == 0)
    ensures st == OK ==> WriteCache.Good(fs, psz) && Bytes(fs.dir[id]) == WriteCache.Logical(old(fs.wc), old(fs.dir), id)
    ensures WriteCache.Since(old(fs.wc), old(fs.dir), old(fs.fds)[f := fs.fds[f]], fs, id)
    ensures WriteCache.PageOf(fs.wc, id, 0) == |fs.wc|
    ensures st != OK ==> OpenOn(fs, f, id) && WriteCache.OwnPage(old(fs.wc), id).WrPage? && done <= |WriteCache.OwnPage(old(fs.wc), id).data|
    ensures st != OK ==> Bytes(fs.dir[id]) == WriteCache.Flushed(old(fs.wc), old(fs.dir), id, done)
    ensures st != OK ==> if stored then WriteCache.Loose(fs, id) else Survived(fs, id, {f})
    ensures dropped <==> fs.dir[id].lost != old(fs.dir)[id].lost
    ensures old(WriteCache.SafeFlush(fs, id)) ==> !dropped
    ensures old(WriteCache.FlushStores(fs, id)) ==>
              st == OK && !dropped && InStock(fs) + WriteCache.FlushNeed(fs.g, old(fs.wc), old(fs.dir), id) >= old(WriteCache.FlushSure(fs, id))
  {
    hide Stocked, WriteCache.FlushStores, WriteCache.FlushNeed, WriteCache.FlushSure, Ready, Flatten, WriteCache.PagesOk,
      WriteCache.OthersLogical, OnlyContent, Spliced, WriteCache.Flushed, WriteCache.Loose, Survived, Referenced,
      WriteCache.SafeFlush;
    st, stored, done, dropped := WriteCache.Flush(fs, f, id, psz, room);
    if st != OK { return; }
    WriteCache.NoRefs(fs, id);
    ghost var fds := fs.fds;
    Return(fs, f);
    WriteCache.RefsStay(fds, fs.fds, fs.wc, fs.wc);
  }

  lemma ReadyStock(fs: Spiffs)
    requires Ready(fs) && InStock(fs) >= 1
    ensures PageToHave(fs)
  {
    hide Inv, Rep, FdsOk, Stocked, PageToHave;
    StockGives(fs);
  }

  lemma NamesStay(dir: Dir, dir': Dir, id: half, name: seq<byte>, n: nat, ps: nat)
    requires UniqueNames(dir) && 0 < ps && AllAllotted(dir, n, ps) && Renamed(dir, dir', id, name) && id in dir
    requires forall x :: !Has(dir, name, x)
    ensures UniqueNames(dir') && AllAllotted(dir', n, ps)
  {
    forall x, y | x in dir' && y in dir' && SameName(dir'[x].name, dir'[y].name) ensures x == y {
      assert !Has(dir, name, x) && !Has(dir, name, y);
    }
  }

  lemma HasIn(dir: Dir, name: seq<byte>, id: half)
    requires Has(dir, name, id)
    ensures id in dir
  {
  }

  predicate TooLong(path: seq<byte>) { |path| > NAME_LEN - 1 }

  /** What users of the other descriptors notice. */
  ghost predicate OthersAfter(fds: seq<Fd>, fds': seq<Fd>, f: nat, id: half, stored: nat) {
    && |fds'| == |fds|
    && forall i :: 0 <= i < |fds| && i != f ==>
                     && fds'[i].fileNbr == fds[i].fileNbr && fds'[i].objId == fds[i].objId
                     && fds'[i].flags == fds[i].flags
                     && (fds[i].fileNbr != 0 ==> fds'[i].fdoffset == OffsetAfter(fds[i], id, stored))
  }

  /** SPIFFS_rename, with the closed descriptor that is used on the way, if there is one.  On success the file
      has the new name and every file the bytes it had, cached or not; a name that is taken, the old one included, is
      refused.  When the names are right and there is a descriptor, it succeeds exactly if there is a page for the new
      header.  Descriptors stay where they are, but those of a file without stored content go back to its start.  When it
      fails, nothing has changed. */
  method RenameFile(fs: Spiffs, slot: Option<nat>, oldPath: seq<byte>, newPath: seq<byte>, n: nat, ps: nat)
    returns (st: Status, ghost id: half)
    requires 129 <= ps <= 2048 && Settled(fs, n, ps)
    requires slot.Some? ==> slot.value < |fs.fds| && fs.fds[slot.value].fileNbr == 0
    modifies fs
    ensures Settled(fs, n, ps)
    ensures TooLong(oldPath) || TooLong(newPath) ==> st == ERR_NAME_TOO_LONG
    ensures !TooLong(oldPath) && !TooLong(newPath) && (forall x :: !Has(old(fs.dir), Pad(oldPath), x)) ==> st == ERR_NOT_FOUND
    ensures !TooLong(oldPath) && !TooLong(newPath) && (exists x :: Has(old(fs.dir), Pad(oldPath), x)) ==>
              if exists x :: Has(old(fs.dir), Pad(newPath), x) then st == ERR_CONFLICTING_NAME
              else if slot.None? then st == ERR_OUT_OF_FILE_DESCS
              else Spacious(st) && (st == OK <==> old(PageToHave(fs)))
    ensures st == OK ==> slot.Some? && !TooLong(oldPath) && !TooLong(newPath)
    ensures st == OK ==> Has(old(fs.dir), Pad(oldPath), id) && Renamed(old(fs.dir), fs.dir, id, Pad(newPath))
    ensures st == OK ==> OthersAfter(old(fs.fds), fs.fds, slot.value, id, |Bytes(old(fs.dir)[id])|)
    ensures st == OK ==> fs.fds[slot.value].fileNbr == 0
    ensures st == OK ==> CacheAfterName(old(fs.fds), fs.fds, old(fs.wc), fs.wc, id, |Bytes(old(fs.dir)[id])|)
    ensures old(WriteCache.Good(fs, ps)) ==>
              WriteCache.Good(fs, ps) && fs.wc == old(fs.wc) && OthersSeen(old(fs.wc), old(fs.dir), fs.wc, fs.dir, 0)
    ensures st != OK ==> fs.dir == old(fs.dir) && fs.wc == old(fs.wc) && |fs.fds| == |old(fs.fds)|
    ensures st != OK ==> if slot.Some? then fs.fds == old(fs.fds)[slot.value := fs.fds[slot.value]] && fs.fds[slot.value].fileNbr == 0
                         else fs.fds == old(fs.fds)
    ensures old(InStock(fs)) >= 1 ==> old(PageToHave(fs)) && InStock(fs) + 1 >= old(InStock(fs))
  {
    hide Stocked, PageToHave, UniqueNames, AllAllotted, Flatten, Pad, Ready, SameName, Renamed, Has, OthersAfter, CacheAfterName,
      FreePages, SomeDeletedBlock, WriteCache.PagesOk, OthersSeen, Referenced;
    id := 0;
    NothingYet(fs, 0);
    if InStock(fs) >= 1 { ReadyStock(fs); }
    if TooLong(newPath) || TooLong(oldPath) { return ERR_NAME_TOO_LONG, id; }
    var pix;
    st, pix, id := FindByName(fs, Pad(oldPath));
    if st != OK { return; }
    ghost var other;
    var dummy;
    st, dummy, other := FindByName(fs, Pad(newPath));
    if st == OK { return ERR_CONFLICTING_NAME, id; }
    if slot.None? { return ERR_OUT_OF_FILE_DESCS, id; }
    ghost var dir := fs.dir;
    HasIn(dir, Pad(oldPath), id);
    st := RenameFound(fs, slot.value, id, pix, Pad(newPath), ps);
    if st == OK { NamesStay(dir, fs.dir, id, Pad(newPath), n, ps); }
  }

  /** The descriptor that is used on the way refers to no cache page. */
  lemma NamedCache(fds: seq<Fd>, fds': seq<Fd>, wc: seq<CPage>, wc': seq<CPage>, f: nat, id: half, stored: nat)
    requires f < |fds| && fds[f].cache.NoCache? && (fds' == fds || CacheAfterName(fds, fds', wc, wc', id, stored))
    ensures |fds'| == |fds| && fds'[f].cache.NoCache?
  {
  }

  /** ... and nobody else sees it. */
  lemma NamedOthers(fds: seq<Fd>, fds1: seq<Fd>, fds2: seq<Fd>, fds3: seq<Fd>, wc: seq<CPage>, wc': seq<CPage>, f: nat, id: half,
                    stored: nat)
    requires f < |fds| == |fds1| && fds1 == fds[f := fds1[f]] && fds[f].fileNbr == 0 && fds[f].cache.NoCache? && fds1[f].cache.NoCache?
    requires UsersAfter(fds1, fds2, id, stored) && CacheAfterName(fds1, fds2, wc, wc', id, stored)
    requires |fds2| == |fds1| && fds3 == fds2[f := fds2[f].(fileNbr := 0)]
    ensures OthersAfter(fds, fds3, f, id, stored) && CacheAfterName(fds, fds3, wc, wc', id, stored)
  {
    forall i, w ensures Names(fds1, i, id, w) <==> Names(fds, i, id, w) {}
    forall i | 0 <= i < |fds| ensures fds1[i].cache == fds[i].cache {}
  }

  /** A new name does not concern the write cache. */
  lemma NamedGood(dir: Dir, wc: seq<CPage>, fds: seq<Fd>, fs: Spiffs, f: nat, id: half, name: seq<byte>, stored: nat, ps: nat, ok: bool)
    requires Ready(fs) && f < |fds| == |fs.fds| && fds[f].fileNbr == 0 && CacheRefs(fds, wc) && id in dir && stored == |Bytes(dir[id])|
    requires ok ==> Renamed(dir, fs.dir, id, name) && CacheAfterName(fds, fs.fds, wc, fs.wc, id, stored)
    requires ok ==> OthersAfter(fds, fs.fds, f, id, stored)
    requires !ok ==> fs.dir == dir && fs.wc == wc && fs.fds == fds[f := fs.fds[f]]
    ensures WriteCache.PagesOk(wc, dir, ps) && Referenced(fds, wc) && Ample(fs.g) ==>
              WriteCache.Good(fs, ps) && fs.wc == wc && OthersSeen(wc, dir, fs.wc, fs.dir, 0)
  {
    hide Flatten, Ready, PagesDropped, CacheRefs;
    if WriteCache.PagesOk(wc, dir, ps) && Referenced(fds, wc) {
      if ok && stored == 0 {
        DroppedOnly(fds, fs.fds, wc, fs.wc, id, 2);
        assert fs.wc == wc;
        RefsRemain(fds, fs.fds, wc, fs.wc, id, 2);
      } else {
        WriteCache.RefsStay(fds, fs.fds, wc, wc);
      }
    }
  }

  /** The part of it after both names have been looked up. */
  method RenameFound(fs: Spiffs, f: nat, ghost id: half, pix: half, name: seq<byte>, ghost ps: nat) returns (st: Status)
    requires Ready(fs) && f < |fs.fds| && fs.fds[f].fileNbr == 0 && id in fs.dir && |name| == NAME_LEN
    requires |fs.dir[id].ix| > 0 && pix == fs.dir[id].ix[0]
    modifies fs
    ensures Spacious(st) && Ready(fs) && (st == OK <==> old(PageToHave(fs)))
    ensures st == OK ==> Renamed(old(fs.dir), fs.dir, id, name)
    ensures st == OK ==> OthersAfter(old(fs.fds), fs.fds, f, id, |Bytes(old(fs.dir)[id])|)
    ensures st == OK ==> CacheAfterName(old(fs.fds), fs.fds, old(fs.wc), fs.wc, id, |Bytes(old(fs.dir)[id])|)
    ensures |fs.fds| == |old(fs.fds)| && fs.fds[f].fileNbr == 0
    ensures st != OK ==> fs.dir == old(fs.dir) && fs.wc == old(fs.wc) && fs.fds == old(fs.fds)[f := fs.fds[f]]
    ensures old(WriteCache.Good(fs, ps)) ==>
              WriteCache.Good(fs, ps) && fs.wc == old(fs.wc) && OthersSeen(old(fs.wc), old(fs.dir), fs.wc, fs.dir, 0)
    ensures old(InStock(fs)) >= 1 ==> st == OK && InStock(fs) + 1 >= old(InStock(fs))
  {
    hide Stocked, Flatten, Ready, Renamed, UsersAfter, OthersAfter, CacheAfterName, FreePages, SomeDeletedBlock,
      WriteCache.PagesOk, OthersSeen, Referenced, Points, CacheRefs, Ample, PageToHave, FdsPix, FdsSize, FdsOff, Rep, Inv;
    ghost var dir, wc, fds, stored := fs.dir, fs.wc, fs.fds, |Bytes(fs.dir[id])|;
    ReadyMid(fs);
    ClosedNoCache(fs, f);
    PointTo(fs, f, id, pix);
    ghost var fds1 := fs.fds;
    st := NewName(fs, f, IdOf(fs.fds[f].objId), name);
    ghost var fds2 := fs.fds;
    NamedCache(fds1, fds2, wc, fs.wc, f, id, stored);
    Return(fs, f);
    if st == OK { NamedOthers(fds, fds1, fds2, fs.fds, wc, fs.wc, f, id, stored); }
    NamedGood(dir, wc, fds, fs, f, id, name, stored, ps, st == OK);
  }
}
