/** File descriptors and write-cache pages as values: what an object event does to a descriptor, and
    when a descriptor agrees with the directory. */
module Descriptors {
  import opened Nor
  import opened Layout
  import opened Image

  datatype OpenFlags = OpenFlags(append: bool, trunc: bool, creat: bool, rd: bool, wr: bool, direct: bool, excl: bool)

  datatype CacheRef = NoCache | Cached(slot: nat)

  /** A descriptor; file number 0 means closed, score 0 never used.  `objId` carries the index flag. */
  datatype Fd = Fd(fileNbr: nat, objId: half, size: word, hdrPix: half, curPix: half, curSpix: half,
                   fdoffset: nat, flags: OpenFlags, cache: CacheRef, nameHash: nat, score: nat)

  /** A cache page: a write page of an object, or anything else. */
  datatype CPage = Other | WrPage(objId: half, offset: nat, data: seq<byte>) {
    function End(): nat requires WrPage? { offset + |data| }
  }

  datatype Event = IxUpd | IxNew | IxDel | IxMov | IxUpdHdr

  function IdOf(e: half): half { if e >= IX_FLAG then e - IX_FLAG else e }

  /** The file size an event announces, for the purpose of clipping offsets. */
  function ActSize(fd: Fd, wc: seq<CPage>, newSize: word): nat {
    var act := if newSize == UNDEFINED_LEN then 0 else newSize;
    if act > 0 && fd.cache.Cached? && fd.cache.slot < |wc| && wc[fd.cache.slot].WrPage? && act < wc[fd.cache.slot].End()
    then wc[fd.cache.slot].End() else act
  }

  /** spiffs_cb_object_event on one descriptor, apart from the release of its cache page. */
  function AfterEvent(fd: Fd, wc: seq<CPage>, ev: Event, id: half, spix: half, newPix: half, newSize: word): Fd {
    if IdOf(fd.objId) != IdOf(id) then fd
    else if spix == 0 && ev != IxDel && fd.score == 0 then fd
    else
      var fd1 :=
        if spix != 0 then fd
        else if ev == IxDel then fd.(fileNbr := 0, objId := DELETED_ID)
        else if newSize == 0 then fd.(hdrPix := newPix)
        else
          var act := ActSize(fd, wc, newSize);
          fd.(hdrPix := newPix, size := newSize, fdoffset := if fd.fdoffset > act then act else fd.fdoffset);
      if fd1.curSpix == spix then fd1.(curPix := if ev == IxDel then 0 else newPix) else fd1
  }

  /** Whether the event takes away the descriptor's cache page. */
  predicate DropsCache(fd: Fd, wc: seq<CPage>, ev: Event, id: half, spix: half, newSize: word) {
    && IdOf(fd.objId) == IdOf(id) && spix == 0
    && fd.cache.Cached? && fd.cache.slot < |wc| && wc[fd.cache.slot].WrPage?
    && if ev == IxDel then fd.fileNbr != 0
       else fd.score != 0 && newSize != 0 && wc[fd.cache.slot].offset > ActSize(fd, wc, newSize) + 1
  }

  // ---------------------------------------------------------------- agreement with the directory

  /** The pages an open descriptor remembers are its object's header page and the index page under its cursor. */
  ghost predicate FdPix(fd: Fd, dir: Dir) {
    fd.fileNbr != 0 ==>
      && fd.score > 0
      && IsIx(fd.objId) && IdOf(fd.objId) in dir
      && var o := dir[IdOf(fd.objId)];
         && |o.ix| > 0 && fd.hdrPix == o.ix[0]
         && (fd.curSpix as nat < |o.ix| ==> fd.curPix == o.ix[fd.curSpix])
  }

  /** The size an open descriptor remembers is that of its object. */
  ghost predicate FdSize(fd: Fd, dir: Dir) {
    fd.fileNbr != 0 && IdOf(fd.objId) in dir && |Bytes(dir[IdOf(fd.objId)])| < UNDEFINED_LEN ==>
      fd.size == SizeField(|Bytes(dir[IdOf(fd.objId)])|)
  }

  /** The offset of an open descriptor is not beyond its file as it will be once the descriptor's cache
      page is written back. */
  ghost predicate FdOff(fd: Fd, dir: Dir, wc: seq<CPage>) {
    fd.fileNbr != 0 && IdOf(fd.objId) in dir ==>
      || fd.fdoffset <= |Bytes(dir[IdOf(fd.objId)])|
      || (fd.cache.Cached? && fd.cache.slot < |wc| && wc[fd.cache.slot].WrPage? && fd.fdoffset <= wc[fd.cache.slot].End())
  }

  ghost predicate RefersTo(wc: seq<CPage>, slot: nat, objId: half) {
    slot < |wc| && wc[slot].WrPage? && wc[slot].objId == objId
  }

  /** A descriptor's cache page is a write page of its own object; closed descriptors have none. */
  ghost predicate CacheRefs(fds: seq<Fd>, wc: seq<CPage>) {
    forall i :: 0 <= i < |fds| ==>
                  && (fds[i].fileNbr == 0 ==> fds[i].cache.NoCache?)
                  && (fds[i].cache.Cached? ==> RefersTo(wc, fds[i].cache.slot, fds[i].objId))
  }

  /** Open descriptor i refers to cache page w. */
  ghost predicate RefersBy(fds: seq<Fd>, i: nat, w: nat) {
    i < |fds| && fds[i].fileNbr != 0 && fds[i].cache == Cached(w)
  }

  /** Every write page is one that an open descriptor refers to. */
  ghost predicate Referenced(fds: seq<Fd>, wc: seq<CPage>) {
    forall w :: 0 <= w < |wc| && wc[w].WrPage? ==> exists i: nat :: RefersBy(fds, i, w)
  }

  ghost predicate FdsPix(fds: seq<Fd>, dir: Dir, except: set<nat>) {
    forall i :: 0 <= i < |fds| && i !in except ==> FdPix(fds[i], dir)
  }

  /** Sizes are right, except perhaps for the object `busy` (0 for none). */
  ghost predicate FdsSize(fds: seq<Fd>, dir: Dir, busy: half, except: set<nat>) {
    forall i :: 0 <= i < |fds| && i !in except && IdOf(fds[i].objId) != busy ==> FdSize(fds[i], dir)
  }

  ghost predicate FdsOff(fds: seq<Fd>, dir: Dir, wc: seq<CPage>, busy: half) {
    forall i :: 0 <= i < |fds| && IdOf(fds[i].objId) != busy ==> FdOff(fds[i], dir, wc)
  }

  /** A descriptor's cache page aside. */
  function Bare(fd: Fd): Fd { fd.(cache := NoCache) }

  /** What the event does to every descriptor, cache pages aside. */
  ghost predicate FdsAfter(fds: seq<Fd>, fds': seq<Fd>, wc: seq<CPage>, ev: Event, id: half, spix: half, newPix: half,
                           newSize: word)
  {
    && |fds'| == |fds|
    && forall i :: 0 <= i < |fds| ==>
                     Bare(fds'[i]) == Bare(AfterEvent(fds[i], wc, ev, id, spix, newPix, newSize))
  }

  /** What a descriptor's user sees is unchanged. */
  ghost predicate SameUser(fds: seq<Fd>, fds': seq<Fd>) {
    && |fds'| == |fds|
    && forall i :: 0 <= i < |fds| ==>
                     && fds'[i].fileNbr == fds[i].fileNbr && fds'[i].objId == fds[i].objId
                     && (fds[i].fileNbr != 0 ==> fds'[i].fdoffset == fds[i].fdoffset)
                     && fds'[i].flags == fds[i].flags
                     && fds'[i].cache == fds[i].cache && fds'[i].score == fds[i].score
                     && fds'[i].nameHash == fds[i].nameHash
  }

  /** After the event for a moved index page no open descriptor remembers the old page. */
  lemma EventAfterMove(fds: seq<Fd>, fds': seq<Fd>, wc: seq<CPage>, dir: Dir, except: set<nat>, ev: Event, id: half,
                       k: half, q: half, newSize: word)
    requires FdsPix(fds, dir, except) && ev != IxDel && IdOf(id) in dir
    requires FdsAfter(fds, fds', wc, ev, id, k, q, newSize)
    requires k as nat < |dir[IdOf(id)].ix|
    ensures var o := dir[IdOf(id)];
            FdsPix(fds', dir[IdOf(id) := o.(ix := o.ix[k := q])], except)
  {
    forall i | 0 <= i < |fds'| && i !in except
      ensures FdPix(fds'[i], dir[IdOf(id) := dir[IdOf(id)].(ix := dir[IdOf(id)].ix[k := q])])
    {
      assert FdPix(fds[i], dir);
      assert FdPix(Bare(fds'[i]), dir[IdOf(id) := dir[IdOf(id)].(ix := dir[IdOf(id)].ix[k := q])]);
    }
  }

  /** ... nor after the event for a new index page behind the last. */
  lemma EventAfterNewIx(fds: seq<Fd>, fds': seq<Fd>, wc: seq<CPage>, dir: Dir, except: set<nat>, ev: Event, id: half,
                        k: half, q: half, newSize: word)
    requires FdsPix(fds, dir, except) && ev != IxDel && IdOf(id) in dir
    requires FdsAfter(fds, fds', wc, ev, id, k, q, newSize)
    requires k as nat == |dir[IdOf(id)].ix| && k > 0
    ensures var o := dir[IdOf(id)];
            FdsPix(fds', dir[IdOf(id) := o.(ix := o.ix + [q])], except)
  {
    forall i | 0 <= i < |fds'| && i !in except
      ensures FdPix(fds'[i], dir[IdOf(id) := dir[IdOf(id)].(ix := dir[IdOf(id)].ix + [q])])
    {
      assert FdPix(fds[i], dir);
      assert FdPix(Bare(fds'[i]), dir[IdOf(id) := dir[IdOf(id)].(ix := dir[IdOf(id)].ix + [q])]);
    }
  }

  /** ... nor after the event for a deleted last index page. */
  lemma EventAfterDropIx(fds: seq<Fd>, fds': seq<Fd>, wc: seq<CPage>, dir: Dir, except: set<nat>, id: half, k: half,
                         pix: half)
    requires FdsPix(fds, dir, except) && IdOf(id) in dir
    requires FdsAfter(fds, fds', wc, IxDel, id, k, pix, 0)
    requires k as nat == |dir[IdOf(id)].ix| - 1 && k > 0
    ensures var o := dir[IdOf(id)];
            FdsPix(fds', dir[IdOf(id) := o.(ix := o.ix[..k])], except)
  {
    forall i | 0 <= i < |fds'| && i !in except
      ensures FdPix(fds'[i], dir[IdOf(id) := dir[IdOf(id)].(ix := dir[IdOf(id)].ix[..k])])
    {
      assert FdPix(fds[i], dir);
      assert FdPix(Bare(fds'[i]), dir[IdOf(id) := dir[IdOf(id)].(ix := dir[IdOf(id)].ix[..k])]);
    }
  }

  /** Descriptors only look at index pages: changes to data pages, contents and names do not concern them. */
  lemma PixFrame(fds: seq<Fd>, dir: Dir, dir': Dir, except: set<nat>)
    requires FdsPix(fds, dir, except)
    requires forall id :: id in dir ==> id in dir' && dir'[id].ix == dir[id].ix
    ensures FdsPix(fds, dir', except)
  {
    forall i | 0 <= i < |fds| && i !in except ensures FdPix(fds[i], dir') { assert FdPix(fds[i], dir); }
  }

  /** An event that announces no size, or the size the file has, changes nothing a user sees. */
  lemma EventKeepsUser(fds: seq<Fd>, fds': seq<Fd>, wc: seq<CPage>, dir: Dir, ev: Event, id: half, spix: half,
                       newPix: half, newSize: word)
    requires |fds'| == |fds|
    requires forall i :: 0 <= i < |fds| ==> fds'[i] == AfterEvent(fds[i], wc, ev, id, spix, newPix, newSize)
    requires CacheRefs(fds, wc) && FdsOff(fds, dir, wc, 0)
    requires ev != IxDel && newSize != UNDEFINED_LEN && IdOf(id) != 0
    requires newSize != 0 ==> IdOf(id) in dir && newSize == |Bytes(dir[IdOf(id)])|
    ensures SameUser(fds, fds') && CacheRefs(fds', wc)
  {
    forall i | 0 <= i < |fds| && fds[i].fileNbr != 0 && IdOf(fds[i].objId) == IdOf(id)
      ensures fds'[i].fdoffset == fds[i].fdoffset
    {
      assert FdOff(fds[i], dir, wc);
    }
  }

  /** Offsets stay within their files while these only grow. */
  lemma OffFrame(fds: seq<Fd>, fds': seq<Fd>, wc: seq<CPage>, dir: Dir, dir': Dir, busy: half)
    requires SameUser(fds, fds') && FdsOff(fds, dir, wc, busy)
    requires forall id :: id in dir ==> id in dir' && |Bytes(dir[id])| <= |Bytes(dir'[id])|
    requires forall id :: id in dir' ==> id in dir
    ensures FdsOff(fds', dir', wc, busy)
  {
    forall i | 0 <= i < |fds'| && IdOf(fds'[i].objId) != busy ensures FdOff(fds'[i], dir', wc) {
      assert FdOff(fds[i], dir, wc);
    }
  }

  /** After a header event that announces the size the file has, every descriptor has it. */
  lemma EventSetsSize(fds: seq<Fd>, fds': seq<Fd>, wc: seq<CPage>, was: Dir, dir: Dir, ev: Event, id: half,
                      newPix: half, newSize: word, except: set<nat>)
    requires FdsSize(fds, dir, IdOf(id), except) && FdsPix(fds, was, except)
    requires FdsAfter(fds, fds', wc, ev, id, 0, newPix, newSize)
    requires ev != IxDel && newSize != 0 && IdOf(id) in dir && |Bytes(dir[IdOf(id)])| < UNDEFINED_LEN
    requires newSize == SizeField(|Bytes(dir[IdOf(id)])|)
    ensures FdsSize(fds', dir, 0, except)
  {
    forall i | 0 <= i < |fds'| && i !in except ensures FdSize(fds'[i], dir) {
      assert FdPix(fds[i], was);
      if IdOf(fds[i].objId) != IdOf(id) { assert FdSize(fds[i], dir); }
      assert FdSize(Bare(fds'[i]), dir);
    }
  }

  /** Events about other index pages announce no size. */
  lemma EventKeepsSize(fds: seq<Fd>, fds': seq<Fd>, wc: seq<CPage>, dir: Dir, ev: Event, id: half, spix: half,
                       newPix: half, busy: half, except: set<nat>)
    requires FdsSize(fds, dir, busy, except)
    requires FdsAfter(fds, fds', wc, ev, id, spix, newPix, 0)
    requires ev != IxDel || spix != 0
    ensures FdsSize(fds', dir, busy, except)
  {
    forall i | 0 <= i < |fds'| && i !in except && IdOf(fds'[i].objId) != busy ensures FdSize(fds'[i], dir) {
      assert Bare(fds'[i]).objId == fds[i].objId;
      assert FdSize(fds[i], dir);
      assert FdSize(Bare(fds'[i]), dir);
    }
  }

  /** Sizes stay right while no file but the busy one changes its length. */
  lemma SizeFrame(fds: seq<Fd>, dir: Dir, dir': Dir, busy: half, busy': half, except: set<nat>)
    requires FdsSize(fds, dir, busy, except)
    requires busy == 0 || busy == busy'
    requires forall i :: 0 <= i < |fds| && i !in except && IdOf(fds[i].objId) == 0 ==> fds[i].fileNbr == 0
    requires forall id :: id in dir' && id != busy' ==> id in dir && |Bytes(dir'[id])| == |Bytes(dir[id])|
    ensures FdsSize(fds, dir', busy', except)
  {
    forall i | 0 <= i < |fds| && i !in except && IdOf(fds[i].objId) != busy' ensures FdSize(fds[i], dir') {
      if IdOf(fds[i].objId) != busy { assert FdSize(fds[i], dir); }
    }
  }

  lemma OpenHaveIds(fds: seq<Fd>, dir: Dir, except: set<nat>)
    requires FdsPix(fds, dir, except) && forall id :: id in dir ==> id != 0
    ensures forall i :: 0 <= i < |fds| && i !in except && IdOf(fds[i].objId) == 0 ==> fds[i].fileNbr == 0
  {
    forall i | 0 <= i < |fds| && i !in except && IdOf(fds[i].objId) == 0 ensures fds[i].fileNbr == 0 {
      assert FdPix(fds[i], dir);
    }
  }

  /** What descriptors have to agree with the directory on. */
  ghost predicate FdsOk(fds: seq<Fd>, wc: seq<CPage>, dir: Dir, busy: half, except: set<nat>) {
    && FdsPix(fds, dir, except) && FdsSize(fds, dir, busy, except)
    && CacheRefs(fds, wc) && FdsOff(fds, dir, wc, 0)
  }

  /** Moving data pages, renaming, and lengthening the busy file do not concern descriptors. */
  lemma FdsFrame(fds: seq<Fd>, wc: seq<CPage>, dir: Dir, dir': Dir, busy: half, busy': half, except: set<nat>)
    requires FdsOk(fds, wc, dir, busy, except) && 0 !in dir && dir'.Keys == dir.Keys
    requires busy == 0 || busy == busy'
    requires forall id :: id in dir ==> dir'[id].ix == dir[id].ix
    requires forall id :: id in dir && id != busy' ==> dir'[id].chunks == dir[id].chunks
    requires forall id :: id in dir ==> |Bytes(dir[id])| <= |Bytes(dir'[id])|
    ensures FdsOk(fds, wc, dir', busy', except)
  {
    PixFrame(fds, dir, dir', except);
    OffFrame(fds, fds, wc, dir, dir', 0);
    OpenHaveIds(fds, dir, except);
    SizeFrame(fds, dir, dir', busy, busy', except);
  }
}
