/** Runs of writes to one object through several descriptors: the write cache cannot be seen. */
module WriteRuns {
  import opened Nor
  import opened Image
  import opened Descriptors
  import opened State
  import opened Objects
  import opened Modify
  import opened Hydro
  import opened Append
  import opened WriteCache
  import opened Layout
  import opened Stock

  /** A call of SPIFFS_write: the descriptor, what is written, and the cache slot that is free for it, if any. */
  datatype Call = Call(f: nat, buf: seq<byte>, slot: Option<nat>)

  /** How far the calls move descriptor f. */
  ghost function Reach(calls: seq<Call>, f: nat): nat {
    if calls == [] then 0 else
      var c := calls[|calls| - 1];
      Reach(calls[..|calls| - 1], f) + if c.f == f then |c.buf| else 0
  }

  /** What a file of `bytes` becomes when every call is carried out on it at once: an appending descriptor
      writes at the end, any other where it was at the start and its own writes have moved it. */
  ghost function Play(bytes: seq<byte>, fds: seq<Fd>, calls: seq<Call>): seq<byte> {
    if calls == [] then bytes else
      var c, before := calls[|calls| - 1], calls[..|calls| - 1];
      var was := Play(bytes, fds, before);
      Spliced(was, Place(fds, c.f, |was|, Reach(before, c.f)), c.buf)
  }

  /** Where a write through descriptor f goes in a file of `size` bytes, after its own writes have moved it. */
  ghost function Place(fds: seq<Fd>, f: nat, size: nat, reach: nat): nat {
    if f >= |fds| || fds[f].flags.append then size else fds[f].fdoffset + reach
  }

  /** A call goes to an open, writable descriptor of the object that uses the cache. */
  ghost predicate Proper(fds: seq<Fd>, id: half, c: Call) {
    && c.f < |fds| && fds[c.f].fileNbr != 0 && IdOf(fds[c.f].objId) == id && IsIx(fds[c.f].objId)
    && fds[c.f].flags.wr && !fds[c.f].flags.direct && |c.buf| > 0
  }

  /** What the descriptors have in common with those the run began with: who they belong to and how they were
      opened, and, for those that do not append, where their own writes have taken them. */
  ghost predicate Moved(fds: seq<Fd>, fds': seq<Fd>, calls: seq<Call>) {
    && |fds'| == |fds|
    && forall i :: 0 <= i < |fds| ==>
                     && fds'[i].fileNbr == fds[i].fileNbr && fds'[i].objId == fds[i].objId && fds'[i].flags == fds[i].flags
                     && (fds[i].fileNbr != 0 && !fds[i].flags.append ==>
                           fds'[i].fdoffset == fds[i].fdoffset + Reach(calls, i))
  }

  /** The state of a run after the calls so far. */
  ghost predicate Running(wc: seq<CPage>, dir: Dir, fds: seq<Fd>, fs: Spiffs, id: half, psz: nat, calls: seq<Call>)
    reads fs
  {
    && Good(fs, psz) && id in dir && id in fs.dir && fs.dir[id].lost == {} && OthersLogical(wc, dir, fs.wc, fs.dir, id)
    && Moved(fds, fs.fds, calls) && Logical(fs.wc, fs.dir, id) == Play(Logical(wc, dir, id), fds, calls)
  }

  lemma ReachLast(calls: seq<Call>, c: Call, f: nat)
    ensures Reach(calls + [c], f) == Reach(calls, f) + if c.f == f then |c.buf| else 0
  {
    assert (calls + [c])[..|calls|] == calls;
  }

  lemma PlayLast(bytes: seq<byte>, fds: seq<Fd>, calls: seq<Call>, c: Call)
    ensures var was := Play(bytes, fds, calls);
            Play(bytes, fds, calls + [c]) == Spliced(was, Place(fds, c.f, |was|, Reach(calls, c.f)), c.buf)
  {
    assert (calls + [c])[..|calls|] == calls;
  }

  lemma MovedOn(fds: seq<Fd>, fds1: seq<Fd>, fds2: seq<Fd>, calls: seq<Call>, c: Call)
    requires Moved(fds, fds1, calls) && SameUserBut(fds1, fds2, c.f) && c.f < |fds|
    requires !fds[c.f].flags.append ==> fds2[c.f].fdoffset == fds1[c.f].fdoffset + |c.buf|
    ensures Moved(fds, fds2, calls + [c])
  {
    forall i | 0 <= i < |fds| ensures Reach(calls + [c], i) == Reach(calls, i) + if c.f == i then |c.buf| else 0 {
      ReachLast(calls, c, i);
    }
  }

  /** Users of descriptors on other objects notice nothing. */
  ghost predicate OthersUsers(fds: seq<Fd>, fds': seq<Fd>, id: half) {
    && |fds'| == |fds|
    && forall i :: 0 <= i < |fds| ==>
                     && fds'[i].fileNbr == fds[i].fileNbr && fds'[i].objId == fds[i].objId && fds'[i].flags == fds[i].flags
                     && (fds[i].fileNbr != 0 && IdOf(fds[i].objId) != id ==> fds'[i].fdoffset == fds[i].fdoffset)
  }

  /** What the first call that fails, or that costs the object a page, leaves behind: other objects and their users have
      noticed nothing of the whole run, and at most this object is torn, unless no page at all is free. */
  ghost predicate Stopped(wc: seq<CPage>, dir: Dir, fds: seq<Fd>, fs: Spiffs, id: half, psz: nat)
    reads fs
  {
    && id in fs.dir && OthersLogical(wc, dir, fs.wc, fs.dir, id) && OthersUsers(fds, fs.fds, id) && PagesOk(fs.wc, fs.dir, psz)
    && exists f: nat :: SoundBut(fs, id, f)
  }

  ghost predicate SoundBut(fs: Spiffs, id: half, f: nat)
    reads fs
  {
    Loose(fs, id) || Survived(fs, id, {f})
  }

  lemma FailedStops(wc: seq<CPage>, dir: Dir, fds: seq<Fd>, wc1: seq<CPage>, dir1: Dir, fds1: seq<Fd>, fs: Spiffs, f: nat, id: half,
                    psz: nat)
    requires OthersLogical(wc, dir, wc1, dir1, id) && OthersUsers(fds, fds1, id) && f < |fds| && IdOf(fds[f].objId) == id
    requires Failed(wc1, dir1, fds1, fs, f, id, psz)
    ensures Stopped(wc, dir, fds, fs, id, psz)
  {
    hide Loose, Survived, PagesOk, OnlyContent, Logical;
    assert SoundBut(fs, id, f);
  }

  /** No call takes more pages: for the old write page, and for what is written. */
  function CallMost(g: Geo, psz: nat, c: Call): nat { Most(g, psz) + Most(g, |c.buf|) }

  /** ... and no run. */
  function RunMost(g: Geo, psz: nat, calls: seq<Call>): nat {
    if calls == [] then 0 else RunMost(g, psz, calls[..|calls| - 1]) + CallMost(g, psz, calls[|calls| - 1])
  }

  lemma MostLast(g: Geo, psz: nat, calls: seq<Call>, c: Call)
    ensures RunMost(g, psz, calls + [c]) == RunMost(g, psz, calls) + CallMost(g, psz, c)
  {
    assert (calls + [c])[..|calls|] == calls;
  }

  lemma {:induction false} MostOfPart(g: Geo, psz: nat, calls: seq<Call>, i: nat)
    requires i <= |calls|
    ensures RunMost(g, psz, calls[..i]) <= RunMost(g, psz, calls)
    decreases |calls|
  {
    if i < |calls| {
      MostOfPart(g, psz, calls[..|calls| - 1], i);
      assert calls[..|calls| - 1][..i] == calls[..i];
    } else {
      assert calls[..i] == calls;
    }
  }

  /** With that much in stock, and two blocks more, the call succeeds. */
  lemma CallGranted(fs: Spiffs, id: half, psz: nat, c: Call)
    requires Good(fs, psz) && id in fs.dir && Proper(fs.fds, id, c) && InStock(fs) >= CallMost(fs.g, psz, c) + TwoBlocks(fs.g)
    ensures var small, at := Small(fs.fds[c.f], |c.buf|, psz), WriteAt(fs, c.f, id);
            && CallStores(fs, id, c.slot, small, at, |c.buf|, psz) && CallSure(fs, id, c.slot, small, at, |c.buf|, psz) == InStock(fs)
            && CallNeed(fs.g, fs.wc, fs.dir, id, c.slot, small, at, |c.buf|, psz) <= CallMost(fs.g, psz, c)
  {
    hide Good, Logical, InStock, Most, TwoBlocks, CallNeed, CallStores, CallSure, Small;
    WithinLogical(fs, c.f, id, psz);
    StockedCall(fs, id, c.slot, Small(fs.fds[c.f], |c.buf|, psz), WriteAt(fs, c.f, id), |c.buf|, psz);
  }

  /** One call of the run. */
  method OneCall(ghost wc: seq<CPage>, ghost dir: Dir, ghost fds: seq<Fd>, fs: Spiffs, id: half, psz: nat, room: nat,
                 ghost calls: seq<Call>, c: Call) returns (st: Status, dropped: bool)
    requires Running(wc, dir, fds, fs, id, psz, calls) && Proper(fds, id, c) && OthersUsers(fds, fs.fds, id) && 0 < room
    modifies fs
    ensures Spacious(st)
    ensures id in fs.dir && (dropped <==> fs.dir[id].lost != {})
    ensures OthersLogical(wc, dir, fs.wc, fs.dir, id) && OthersUsers(fds, fs.fds, id)
    ensures if st == OK && !dropped then Running(wc, dir, fds, fs, id, psz, calls + [c]) else Stopped(wc, dir, fds, fs, id, psz)
    ensures old(InStock(fs)) >= CallMost(fs.g, psz, c) + TwoBlocks(fs.g) ==>
              st == OK && !dropped && InStock(fs) + CallMost(fs.g, psz, c) >= old(InStock(fs))
  {
    hide Good, Logical, Spliced, OnlyContent, Play, Reach, Stopped, Failed, InStock, CallMost, TwoBlocks, CallNeed, CallStores,
      CallSure, Small;
    if InStock(fs) >= CallMost(fs.g, psz, c) + TwoBlocks(fs.g) { CallGranted(fs, id, psz, c); }
    PlayLast(Logical(wc, dir, id), fds, calls, c);
    ghost var fds1, wc1, dir1 := fs.fds, fs.wc, fs.dir;
    st, dropped := Write(fs, c.f, id, c.buf, psz, c.slot, room);
    if st == OK && !dropped {
      MovedOn(fds, fds1, fs.fds, calls, c);
    } else {
      FailedStops(wc, dir, fds, wc1, dir1, fds1, fs, c.f, id, psz);
      StoppedOthers(wc, dir, fds, fs, id, psz);
    }
  }

  lemma StoppedOthers(wc: seq<CPage>, dir: Dir, fds: seq<Fd>, fs: Spiffs, id: half, psz: nat)
    requires Stopped(wc, dir, fds, fs, id, psz)
    ensures id in fs.dir && OthersLogical(wc, dir, fs.wc, fs.dir, id) && OthersUsers(fds, fs.fds, id)
  {
  }

  /** Any run of small and big writes through any cached descriptors of one object that has lost no page, and a flush: unless a
      call fails or a page is lost, the file holds what the same writes give when each is carried out at once.  In any case
      other objects hold what they held for their users, and these notice nothing.  With enough in stock for all of it, and two
      blocks more, no call fails and no page is lost. */
  method WriteRun(fs: Spiffs, id: half, f: nat, calls: seq<Call>, psz: nat, room: nat) returns (st: Status, dropped: bool)
    requires Good(fs, psz) && id in fs.dir && fs.dir[id].lost == {} && OpenOn(fs, f, id) && !fs.fds[f].flags.direct && 0 < room
    requires forall c :: c in calls ==> Proper(fs.fds, id, c)
    modifies fs
    ensures Spacious(st)
    ensures st == OK && !dropped ==> Good(fs, psz) && id in fs.dir && PageOf(fs.wc, id, 0) == |fs.wc|
    ensures st == OK && !dropped ==> Bytes(fs.dir[id]) == Play(Logical(old(fs.wc), old(fs.dir), id), old(fs.fds), calls)
    ensures OthersLogical(old(fs.wc), old(fs.dir), fs.wc, fs.dir, id) && OthersUsers(old(fs.fds), fs.fds, id)
    ensures id in fs.dir && (dropped <==> fs.dir[id].lost != {})
    ensures st != OK || dropped ==> Stopped(old(fs.wc), old(fs.dir), old(fs.fds), fs, id, psz)
    ensures old(InStock(fs)) >= RunMost(fs.g, psz, calls) + Most(fs.g, psz) + TwoBlocks(fs.g) ==> st == OK && !dropped
  {
    hide Good, Logical, Spliced, OnlyContent, Play, Reach, Moved, OthersLogical, OthersUsers, Stopped, Loose, Survived, InStock,
      CallMost, RunMost, TwoBlocks, Most, FlushStores, FlushSure, FlushNeed;
    ghost var enough := InStock(fs) >= RunMost(fs.g, psz, calls) + Most(fs.g, psz) + TwoBlocks(fs.g);
    NoneTaken(fs.g, psz);
    ghost var wc, dir, fds := fs.wc, fs.dir, fs.fds;
    RunStarts(wc, dir, fds, id);
    var i := 0;
    st, dropped := OK, false;
    while i < |calls|
      invariant i <= |calls| && Running(wc, dir, fds, fs, id, psz, calls[..i]) && OthersUsers(fds, fs.fds, id)
      invariant enough ==> InStock(fs) + RunMost(fs.g, psz, calls[..i]) >= old(InStock(fs))
    {
      MostOfPart(fs.g, psz, calls, i + 1);
      MostLast(fs.g, psz, calls[..i], calls[i]);
      assert calls[..i] + [calls[i]] == calls[..i + 1];
      st, dropped := OneCall(wc, dir, fds, fs, id, psz, room, calls[..i], calls[i]);
      if st != OK || dropped { return; }
      i := i + 1;
    }
    assert calls[..i] == calls;
    StillOpen(fds, fs, f, id, calls);
    ghost var wc1, dir1, fds1 := fs.wc, fs.dir, fs.fds;
    ghost var stored, done;
    if enough { StockedFlush(fs, id, psz); }
    st, stored, done, dropped := Flush(fs, f, id, psz, room);
    OthersTransitive(wc, dir, wc1, dir1, fs.wc, fs.dir, id);
    FlushUsers(fds, fds1, fs.fds, id);
    if st == OK { GoodLoose(fs, id, psz); }
    StopsAfterFlush(wc, dir, fds, fs, f, id, psz);
  }

  lemma NoneTaken(g: Geo, psz: nat)
    ensures RunMost(g, psz, []) == 0
  {
  }

  lemma FlushUsers(fds: seq<Fd>, fds1: seq<Fd>, fds2: seq<Fd>, id: half)
    requires OthersUsers(fds, fds1, id) && SameUserButCache(fds1, fds2)
    ensures OthersUsers(fds, fds2, id)
  {
  }

  lemma StopsAfterFlush(wc: seq<CPage>, dir: Dir, fds: seq<Fd>, fs: Spiffs, f: nat, id: half, psz: nat)
    requires id in fs.dir && OthersLogical(wc, dir, fs.wc, fs.dir, id) && OthersUsers(fds, fs.fds, id) && PagesOk(fs.wc, fs.dir, psz)
    requires Loose(fs, id) || Survived(fs, id, {f})
    ensures Stopped(wc, dir, fds, fs, id, psz)
  {
    assert SoundBut(fs, id, f);
  }

  lemma RunStarts(wc: seq<CPage>, dir: Dir, fds: seq<Fd>, id: half)
    ensures Moved(fds, fds, []) && OthersLogical(wc, dir, wc, dir, id) && OthersUsers(fds, fds, id)
    ensures id in dir ==> Play(Logical(wc, dir, id), fds, []) == Logical(wc, dir, id)
  {
  }

  lemma StillOpen(fds: seq<Fd>, fs: Spiffs, f: nat, id: half, calls: seq<Call>)
    requires f < |fds| && fds[f].fileNbr != 0 && IdOf(fds[f].objId) == id && Moved(fds, fs.fds, calls)
    ensures OpenOn(fs, f, id) && fs.fds[f].flags == fds[f].flags
  {
  }

  lemma OthersTransitive(wc: seq<CPage>, dir: Dir, wc1: seq<CPage>, dir1: Dir, wc2: seq<CPage>, dir2: Dir, id: half)
    requires OthersLogical(wc, dir, wc1, dir1, id) && OthersLogical(wc1, dir1, wc2, dir2, id)
    ensures OthersLogical(wc, dir, wc2, dir2, id)
  {
  }
}
