/** Runs of calls by name and by descriptor: what users see is a set of files with names and bytes, whatever the write
    cache, the collector and the pages underneath do. */
module Sessions {
  import opened Nor
  import opened Layout
  import opened Chunks
  import opened Image
  import opened Descriptors
  import opened State
  import opened Alloc
  import opened Stock
  import opened Core
  import opened Gc
  import opened Collect
  import opened GcRuns
  import opened Objects
  import opened Modify
  import opened Append
  import opened Hydro
  import opened Truncate
  import opened FreeId
  import opened Files
  import opened Rename
  import opened Read
  import WriteCache

  // ---------------------------------------------------------------- what users see

  datatype File = File(name: seq<byte>, bytes: seq<byte>)

  datatype User = Closed | Opened(id: half, offset: nat, flags: OpenFlags)

  datatype View = View(files: map<half, File>, users: seq<User>)

  function UserOf(fd: Fd): User {
    if fd.fileNbr == 0 then Closed else Opened(IdOf(fd.objId), fd.fdoffset, fd.flags)
  }

  /** Files hold what has been written to them, cached writes included. */
  ghost function Seen(fs: Spiffs): (v: View)
    reads fs
    ensures v.files.Keys == fs.dir.Keys && |v.users| == |fs.fds|
    ensures forall id :: id in fs.dir ==> v.files[id] == File(fs.dir[id].name, WriteCache.Logical(fs.wc, fs.dir, id))
    ensures forall i :: 0 <= i < |fs.fds| ==> v.users[i] == UserOf(fs.fds[i])
  {
    var fds := fs.fds;
    View(map id | id in fs.dir :: File(fs.dir[id].name, WriteCache.Logical(fs.wc, fs.dir, id)),
         seq(|fds|, i requires 0 <= i < |fds| => UserOf(fds[i])))
  }

  // ---------------------------------------------------------------- what calls do

  /** Calls, with what the functions below cannot see: the descriptor that is picked and the cache slot that is free. */
  datatype Call =
    | Creat(path: seq<byte>)
    | Open(f: nat, path: seq<byte>, flags: OpenFlags, hash: nat)
    | Write(f: nat, buf: seq<byte>, slot: Option<nat>)
    | Read(f: nat, len: nat)
    | Flush(f: nat)
    | Close(f: nat)
    | Remove(f: nat, path: seq<byte>)
    | Rename(f: nat, path: seq<byte>, to: seq<byte>)

  /** The name as it is stored; no file has the empty one. */
  function Padded(path: seq<byte>): seq<byte> { if |path| < NAME_LEN then Pad(path) else [] }

  ghost predicate IsCalled(v: View, id: half, path: seq<byte>) { id in v.files && SameName(v.files[id].name, Padded(path)) }

  ghost predicate Unused(v: View, path: seq<byte>) { forall id :: !IsCalled(v, id, path) }

  /** One file more, empty and of that name. */
  ghost predicate Added(v: View, v': View, id: half, path: seq<byte>) {
    id !in v.files && Unused(v, path) && v'.files == v.files[id := File(Padded(path), [])]
  }

  /** Users of other descriptors notice nothing. */
  ghost predicate OthersStay(v: View, v': View, f: nat) {
    |v'.users| == |v.users| && forall i :: 0 <= i < |v.users| && i != f ==> v'.users[i] == v.users[i]
  }

  /** ... but that those of file `id` may be sent back to its start. */
  ghost predicate OthersBack(v: View, v': View, f: nat, id: half) {
    && |v'.users| == |v.users|
    && forall i :: 0 <= i < |v.users| && i != f ==>
                     || v'.users[i] == v.users[i]
                     || (v.users[i].Opened? && v.users[i].id == id && v'.users[i] == v.users[i].(offset := 0))
  }

  /** What a truncation leaves of file `id`: nothing, or what is still in the cache of its first bytes. */
  ghost predicate Emptied(v: View, v': View, id: half) {
    && id in v.files && id in v'.files && v'.files[id].bytes <= v.files[id].bytes
    && v'.files == v.files[id := v.files[id].(bytes := v'.files[id].bytes)]
  }

  /** The effect of a successful call; `dst` is what a read gives. */
  ghost predicate Does(v: View, c: Call, dst: seq<byte>, v': View) {
    match c
    case Creat(path) => v'.users == v.users && exists id :: Added(v, v', id, path)
    case Open(f, path, flags, _) =>
      && f < |v.users| && v.users[f].Closed? && |v'.users| == |v.users|
      && exists id ::
           && v'.users[f] == Opened(id, 0, flags) && (if flags.trunc then OthersBack(v, v', f, id) else OthersStay(v, v', f))
           && if !IsCalled(v, id, path) then flags.creat && Added(v, v', id, path)
              else if flags.trunc then Emptied(v, v', id) else v'.files == v.files
    case Write(f, buf, _) =>
      && f < |v.users| && v.users[f].Opened? && v.users[f].flags.wr && v.users[f].id in v.files && OthersStay(v, v', f)
      && (var u := v.users[f];
          var was := v.files[u.id];
          && v'.files == v.files[u.id := was.(bytes := Spliced(was.bytes, if u.flags.append then |was.bytes| else u.offset, buf))]
          && v'.users[f].Opened? && v'.users[f].id == u.id && v'.users[f].flags == u.flags
          && (!u.flags.append ==> v'.users[f].offset == u.offset + |buf|))
    case Read(f, len) =>
      && f < |v.users| && v.users[f].Opened? && v.users[f].flags.rd && v.users[f].id in v.files && OthersStay(v, v', f)
      && v'.files == v.files && v'.users[f] == v.users[f].(offset := v.users[f].offset + |dst|)
      && dst == WriteCache.ReadFrom(v.files[v.users[f].id].bytes, v.users[f].offset, len)
    case Flush(f) => v' == v
    case Close(f) => f < |v.users| && v.users[f].Opened? && v' == v.(users := v.users[f := Closed])
    case Remove(f, path) =>
      && f < |v.users| && v.users[f].Closed?
      && exists id ::
           && IsCalled(v, id, path) && v'.files == v.files - {id} && |v'.users| == |v.users|
           && forall i :: 0 <= i < |v.users| ==>
                            v'.users[i] == if v.users[i].Opened? && v.users[i].id == id then Closed else v.users[i]
    case Rename(f, path, to) =>
      && f < |v.users| && v.users[f].Closed?
      && exists id ::
           && IsCalled(v, id, path) && Unused(v, to) && v'.files == v.files[id := v.files[id].(name := Padded(to))]
           && |v'.users| == |v.users|
           && forall i :: 0 <= i < |v.users| ==>
                            || v'.users[i] == v.users[i]
                            || (v.users[i].Opened? && v.users[i].id == id && v'.users[i] == v.users[i].(offset := 0))
  }

  /** A call that fails, or costs a file a page, may leave this file damaged. */
  ghost predicate Risks(v: View, c: Call, id: half) {
    match c
    case Open(_, path, flags, _) => flags.trunc && IsCalled(v, id, path)
    case Write(f, _, _) => f < |v.users| && v.users[f].Opened? && v.users[f].id == id
    case Read(f, _) => f < |v.users| && v.users[f].Opened? && v.users[f].id == id
    case Flush(f) => f < |v.users| && v.users[f].Opened? && v.users[f].id == id
    case Close(f) => f < |v.users| && v.users[f].Opened? && v.users[f].id == id
    case _ => false
  }

  /** The descriptor a call goes through. */
  predicate Through(c: Call, f: nat) {
    match c
    case Creat(_) => false
    case _ => f == c.f
  }

  /** What a call that fails, or costs a file a page, leaves behind: every file is there with its name, and any other with
      what it held; users of other descriptors notice nothing, unless they are on a file that could not be truncated. */
  ghost predicate Leaves(v: View, c: Call, v': View) {
    && v'.files.Keys == v.files.Keys && |v'.users| == |v.users|
    && (forall id :: id in v.files ==> v'.files[id].name == v.files[id].name && (!Risks(v, c, id) ==> v'.files[id] == v.files[id]))
    && forall i :: 0 <= i < |v.users| && !Through(c, i) && !(c.Open? && v.users[i].Opened? && Risks(v, c, v.users[i].id)) ==>
                     v'.users[i] == v.users[i]
  }

  // ---------------------------------------------------------------- one call

  /** Between the calls of a run: nothing is half done, no page is lost, and no descriptor goes past the cache. */
  ghost predicate Running(fs: Spiffs, n: nat, ps: nat)
    reads fs
  {
    && 129 <= ps <= 2048 && Settled(fs, n, ps) && WriteCache.Good(fs, ps) && Unharmed(fs.dir)
    && forall i :: 0 <= i < |fs.fds| && fs.fds[i].fileNbr != 0 ==> !fs.fds[i].flags.direct
  }

  predicate IsOpen(fds: seq<Fd>, f: nat) { f < |fds| && fds[f].fileNbr != 0 }

  predicate IsClosed(fds: seq<Fd>, f: nat) { f < |fds| && fds[f].fileNbr == 0 }

  /** No write page begins at offset 1, where a truncation would strand it. */
  predicate NoneAtOne(wc: seq<CPage>) { forall w | 0 <= w < |wc| :: wc[w].WrPage? ==> wc[w].offset != 1 }

  /** The calls of which the run consists: descriptors are what they have to be, nothing is opened to go past the cache, no
      truncation strands a write page, and writes write something or go to the end. */
  predicate Proper(fds: seq<Fd>, wc: seq<CPage>, c: Call) {
    match c
    case Creat(_) => true
    case Open(f, _, flags, _) => IsClosed(fds, f) && !flags.direct && (flags.trunc ==> NoneAtOne(wc))
    case Write(f, buf, _) => IsOpen(fds, f) && (|buf| > 0 || fds[f].flags.append)
    case Read(f, _) => IsOpen(fds, f)
    case Flush(f) => IsOpen(fds, f)
    case Close(f) => IsOpen(fds, f)
    case Remove(f, _) => IsClosed(fds, f)
    case Rename(f, _, _) => IsClosed(fds, f)
  }

  lemma OpenHas(fs: Spiffs, n: nat, ps: nat, f: nat)
    requires Running(fs, n, ps) && IsOpen(fs.fds, f)
    ensures IdOf(fs.fds[f].objId) in fs.dir && OpenOn(fs, f, IdOf(fs.fds[f].objId)) && !fs.fds[f].flags.direct
    ensures 0 < IdOf(fs.fds[f].objId) < 0x7FFF
  {
    assert FdPix(fs.fds[f], fs.dir);
  }

  lemma NoneOf(v: View, path: seq<byte>, dir: Dir)
    requires |path| < NAME_LEN && v.files.Keys == dir.Keys && forall id :: id in dir ==> v.files[id].name == dir[id].name
    ensures forall id :: Has(dir, Pad(path), id) <==> IsCalled(v, id, path)
    ensures Unused(v, path) <==> forall id :: !Has(dir, Pad(path), id)
  {
  }

  // ---------------------------------------------------------------- when calls succeed

  /** What stands in the way of a call for its user to see. */
  ghost predicate Denied(v: View, c: Call, n: nat, ps: nat)
    requires 0 < ps
  {
    match c
    case Creat(path) => |path| >= NAME_LEN || !Unused(v, path) || AllUsed(IdsOf(v), n, ps)
    case Open(_, path, flags, _) =>
      || |path| >= NAME_LEN
      || if Unused(v, path) then !flags.creat || AllUsed(IdsOf(v), n, ps) else flags.creat && flags.excl
    case Write(f, _, _) => f < |v.users| && v.users[f].Opened? && !v.users[f].flags.wr
    case Read(f, _) => f < |v.users| && v.users[f].Opened? && !v.users[f].flags.rd
    case Remove(_, path) => |path| >= NAME_LEN || Unused(v, path)
    case Rename(_, path, to) => |path| >= NAME_LEN || |to| >= NAME_LEN || Unused(v, path) || !Unused(v, to)
    case _ => false
  }

  ghost function IdsOf(v: View): set<nat> { set id | id in v.files }

  /** No call takes more pages: a write and a read for what is in the cache, a write for what is written besides, and a
      truncation for the index pages of the file. */
  ghost function Cost(g: Geo, ps: nat, v: View, c: Call): nat {
    match c
    case Creat(_) => 1
    case Open(_, path, flags, _) =>
      if flags.trunc && !Unused(v, path) then var id :| IsCalled(v, id, path); Most(g, |v.files[id].bytes|) else 1
    case Write(_, buf, _) => Most(g, ps) + Most(g, |buf|)
    case Read(_, _) => Most(g, ps)
    case Flush(_) => Most(g, ps)
    case Close(_) => Most(g, ps)
    case Remove(_, _) => 0
    case Rename(_, _, _) => 1
  }

  /** A read of something in a file whose content is all in the cache, which is taken to have ended. */
  predicate Early(fds: seq<Fd>, wc: seq<CPage>, c: Call) {
    && c.Read? && c.f < |fds| && fds[c.f].flags.rd && c.len > 0
    && fds[c.f].size == UNDEFINED_LEN && WriteCache.PageOf(wc, IdOf(fds[c.f].objId), 0) < |wc|
  }

  /** A call never succeeds when something stands in its way, and otherwise does as long as the pages that it may take are in
      stock, and two blocks more.  `stock` is what was there before. */
  ghost predicate Due(v: View, c: Call, n: nat, ps: nat, fs: Spiffs, stock: nat, ok: bool)
    requires 0 < ps
    reads fs
  {
    && (Denied(v, c, n, ps) ==> !ok)
    && (stock >= Cost(fs.g, ps, v, c) + TwoBlocks(fs.g) ==>
          && (ok || Denied(v, c, n, ps) || Early(fs.fds, fs.wc, c))
          && (ok ==> InStock(fs) + Cost(fs.g, ps, v, c) >= stock))
  }

  lemma IdsSame(v: View, dir: Dir)
    requires v.files.Keys == dir.Keys
    ensures IdsOf(v) == Ids(dir)
  {
    assert forall id :: id in v.files <==> id in v.files.Keys;
  }

  /** With that much in stock an object can be created ... */
  lemma StockCreates(fs: Spiffs)
    requires Ready(fs)
    ensures InStock(fs) >= TwoBlocks(fs.g) ==> Assured(fs, WithMeta(fs.g, 0)) == InStock(fs) > 0
  {
    hide Rep, FdsOk, Inv, NoneDoomed, AllTight, Stocked, Assured;
    MidShape(fs, IDLE);
    if InStock(fs) >= TwoBlocks(fs.g) {
      MulMono(1, InStock(fs) - 2, fs.g.dps);
      StockAssures(fs, 0);
    }
  }

  lemma IxAtMost(g: Geo, o: Obj)
    requires g.Valid() && ObjShape(g, o) && Tight(g, o) && |Bytes(o)| > 0
    ensures |o.ix| <= Most(g, |Bytes(o)|)
  {
    hide Flatten, Start;
    var last := |o.data| - 1;
    if |o.data| == 0 { assert o.chunks == []; }
    FlattenLen(o.chunks, g.dps);
    StartIsProduct(g.dps, last);
    if |Bytes(o)| / g.dps < last { MulMono(|Bytes(o)| / g.dps + 1, last, g.dps); }
    IxStep(g, 0, last);
  }

  lemma TightOne(fs: Spiffs, id: half)
    requires Ready(fs) && id in fs.dir
    ensures fs.g.Valid() && ObjShape(fs.g, fs.dir[id]) && Tight(fs.g, fs.dir[id])
  {
    hide Rep, FdsOk, Inv, NoneDoomed;
    MidShape(fs, IDLE);
  }

  /** ... and a file emptied. */
  lemma StockClears(fs: Spiffs)
    requires Ready(fs)
    ensures InStock(fs) >= TwoBlocks(fs.g) > 0 ==> ClearSure(fs) == InStock(fs)
    ensures TwoBlocks(fs.g) > 0
  {
    hide Rep, FdsOk, Inv, NoneDoomed, Stocked, Quiet, AllTight;
    MidShape(fs, IDLE);
    if InStock(fs) >= TwoBlocks(fs.g) {
      MulMono(4, InStock(fs) - 1, fs.g.dps);
      MulMono(4, fs.g.Pages(), fs.g.dps);
      StockIsQuiet(fs, fs.g.dps * 2 % 0x1_0000_0000);
    }
  }

  /** Creating a file needs a name, an id and a page. */
  lemma CreatDue(v: View, c: Call, n: nat, ps: nat, dir: Dir, fs: Spiffs, st: Status, stock: nat, free: bool, quiet: bool, spent: bool,
                 sure: nat)
    requires c.Creat? && 0 < ps && v.files.Keys == dir.Keys && forall id :: id in dir ==> v.files[id].name == dir[id].name
    requires if |c.path| >= NAME_LEN then st != OK
             else if exists x :: Has(dir, Pad(c.path), x) then st != OK else CreateResult(fs, st, free, quiet, spent, sure)
    requires (free <==> !AllUsed(Ids(dir), n, ps)) && (stock >= TwoBlocks(fs.g) ==> sure == stock > 0)
    ensures Due(v, c, n, ps, fs, stock, st == OK)
  {
    hide Stocked, Pad, SameName, AllUsed;
    IdsSame(v, dir);
    if |c.path| < NAME_LEN { NoneOf(v, c.path, dir); }
  }

  method DoCreat(fs: Spiffs, c: Call, n: nat, ps: nat, room: nat) returns (st: Status)
    requires Running(fs, n, ps) && c.Creat? && 0 < room
    modifies fs
    ensures st == OK ==> Running(fs, n, ps) && Does(old(Seen(fs)), c, [], Seen(fs))
    ensures st != OK ==> Leaves(old(Seen(fs)), c, Seen(fs))
    ensures Due(old(Seen(fs)), c, n, ps, fs, old(InStock(fs)), st == OK)
  {
    hide UniqueNames, AllAllotted, WriteCache.Logical, WriteCache.PagesOk, Ready, SameName, Pad, Referenced, Does, Leaves,
      SameMeaning, Ample, Stocked, Quiet, Exhausted, Assured, CreateResult, TwoBlocks, Due, AllUsed, Stalled;
    ghost var v, fds := Seen(fs), fs.fds;
    ghost var id, dir := 0, fs.dir;
    ghost var stock, quiet, spent, sure := InStock(fs), Quiet(fs, WithMeta(fs.g, 0)), Exhausted(fs), Assured(fs, WithMeta(fs.g, 0));
    StockCreates(fs);
    st, id := Files.Creat(fs, c.path, n, ps, room);
    CreatDue(v, c, n, ps, dir, fs, st, stock, !AllUsed(Ids(dir), n, ps), quiet, spent, sure);
    if st != OK {
      MeaningSeen(fs, v, dir);
      SameUsers(fds, fs.fds);
      SeenLeaves(fs, v, c);
      return;
    }
    NoneOf(v, c.path, dir);
    FilesWith(fs, v, id, File(Padded(c.path), []));
    SameUsers(fds, fs.fds);
    UsersSame(fs, v);
    CreatedStep(v, c, Seen(fs), id);
  }

  /** Nothing has changed for any file. */
  lemma MeaningSeen(fs: Spiffs, v: View, dir: Dir)
    requires v.files.Keys == dir.Keys && SameMeaning(dir, fs.dir)
    requires forall id :: id in dir ==> v.files[id] == File(dir[id].name, WriteCache.Logical(fs.wc, dir, id))
    ensures Seen(fs).files == v.files
  {
    hide Flatten;
    forall id | id in dir ensures WriteCache.Logical(fs.wc, fs.dir, id) == WriteCache.Logical(fs.wc, dir, id) {}
  }

  /** ... and none but the user of the descriptor that was used has noticed anything. */
  lemma SeenLeaves(fs: Spiffs, v: View, c: Call)
    requires Seen(fs).files == v.files && |fs.fds| == |v.users|
    requires forall i :: 0 <= i < |v.users| && !Through(c, i) ==> UserOf(fs.fds[i]) == v.users[i]
    ensures Leaves(v, c, Seen(fs))
  {
  }

  lemma CreatedStep(v: View, c: Call, v': View, id: half)
    requires c.Creat? && v'.users == v.users && Added(v, v', id, c.path)
    ensures Does(v, c, [], v')
  {
  }

  lemma SameUsers(fds: seq<Fd>, fds': seq<Fd>)
    requires SameUser(fds, fds')
    ensures |fds'| == |fds| && forall i :: 0 <= i < |fds| ==> UserOf(fds'[i]) == UserOf(fds[i])
  {
  }

  /** The files are what they were, but for one. */
  lemma FilesWith(fs: Spiffs, v: View, id: half, file: File)
    requires id in fs.dir && Seen(fs).files[id] == file && fs.dir.Keys == v.files.Keys + {id}
    requires forall x :: x in v.files && x != id ==> Seen(fs).files[x] == v.files[x]
    ensures Seen(fs).files == v.files[id := file]
  {
  }

  lemma UsersSame(fs: Spiffs, v: View)
    requires |v.users| == |fs.fds| && forall i :: 0 <= i < |fs.fds| ==> v.users[i] == UserOf(fs.fds[i])
    ensures Seen(fs).users == v.users
  {
  }

  /** Opening a file that is there. */
  lemma OpenedStep(fs: Spiffs, v: View, c: Call, id: half)
    requires c.Open? && c.f < |v.users| && v.users[c.f].Closed? && |fs.fds| == |v.users|
    requires UserOf(fs.fds[c.f]) == Opened(id, 0, c.flags)
    requires if c.flags.trunc then OthersBack(v, Seen(fs), c.f, id) else OthersStay(v, Seen(fs), c.f)
    requires if !IsCalled(v, id, c.path) then c.flags.creat && Added(v, Seen(fs), id, c.path)
             else if c.flags.trunc then Emptied(v, Seen(fs), id) else Seen(fs).files == v.files
    ensures Does(v, c, [], Seen(fs))
  {
  }

  /** Descriptors on other files stay where they are, those on the file that is truncated may be at its start. */
  lemma OpenBack(fs: Spiffs, v: View, fds: seq<Fd>, f: nat, id: half)
    requires |v.users| == |fds| && forall i :: 0 <= i < |fds| ==> v.users[i] == UserOf(fds[i])
    requires Stayed(fds, fs.fds, f) && Unnoticed(fds, fs.fds, f, id)
    ensures OthersBack(v, Seen(fs), f, id)
  {
  }

  /** What a truncation leaves is a part of the beginning. */
  lemma OpenedEmptied(wc: seq<CPage>, dir: Dir, id: half)
    requires id in dir
    ensures Files.Opened(wc, dir, id, true) <= WriteCache.Logical(wc, dir, id)
  {
    hide Flatten;
    var w := WriteCache.PageOf(wc, id, 0);
    if w < |wc| && wc[w].WrPage? && wc[w].offset == 0 {
      assert WriteCache.Logical(wc, dir, id) == Splice(Bytes(dir[id]), 0, wc[w].data);
    }
  }

  lemma NotStranded(wc: seq<CPage>, dir: Dir)
    requires NoneAtOne(wc)
    ensures forall id :: !Stranded(wc, dir, id)
  {
  }

  lemma StockOpens(fs: Spiffs)
    requires Ready(fs)
    ensures InStock(fs) >= TwoBlocks(fs.g) ==> Assured(fs, WithMeta(fs.g, 0)) == InStock(fs) > 0 && ClearSure(fs) == InStock(fs)
    ensures forall x :: x in fs.dir && |Bytes(fs.dir[x])| > 0 ==> |fs.dir[x].ix| <= Most(fs.g, |Bytes(fs.dir[x])|)
    ensures TwoBlocks(fs.g) > 0
  {
    hide Ready, Stocked, Assured, ClearSure, Most, Flatten, Tight, ObjShape;
    StockCreates(fs);
    StockClears(fs);
    forall x | x in fs.dir && |Bytes(fs.dir[x])| > 0 ensures |fs.dir[x].ix| <= Most(fs.g, |Bytes(fs.dir[x])|) {
      TightOne(fs, x);
      IxAtMost(fs.g, fs.dir[x]);
    }
  }

  /** Opening a file takes no page, unless it has to be created or is truncated. */
  lemma OpenDue(v: View, c: Call, n: nat, ps: nat, dir: Dir, wc: seq<CPage>, fs: Spiffs, st: Status, stock: nat, free: bool, quiet: bool,
                spent: bool, sure: nat, clear: nat)
    requires c.Open? && 0 < ps && v.files.Keys == dir.Keys
    requires forall x :: x in dir ==> v.files[x] == File(dir[x].name, WriteCache.Logical(wc, dir, x))
    requires if |c.path| >= NAME_LEN then st != OK
             else if forall x :: !Has(dir, Pad(c.path), x) then
               if c.flags.creat then CreateResult(fs, st, free, quiet, spent, sure) else st != OK
             else if c.flags.creat && c.flags.excl then st != OK
             else forall x :: Has(dir, Pad(c.path), x) ==> OpenResult(fs, st, dir[x], c.flags.trunc, stock, clear)
    requires forall x :: x in dir && |Bytes(dir[x])| > 0 ==> |dir[x].ix| <= Most(fs.g, |Bytes(dir[x])|)
    requires (free <==> !AllUsed(Ids(dir), n, ps)) && (stock >= TwoBlocks(fs.g) ==> sure == stock > 0 && clear == stock)
    requires TwoBlocks(fs.g) > 0
    ensures Due(v, c, n, ps, fs, stock, st == OK)
  {
    hide Stocked, Pad, SameName, AllUsed, Most, WriteCache.Logical, TwoBlocks, IsCalled, Has;
    IdsSame(v, dir);
    if |c.path| < NAME_LEN {
      NoneOf(v, c.path, dir);
      if !Unused(v, c.path) {
        CostChoice(fs.g, ps, v, c);
        var id: half :| IsCalled(v, id, c.path) && id in v.files && (c.flags.trunc ==> Cost(fs.g, ps, v, c) == Most(fs.g, |v.files[id].bytes|));
        assert Has(dir, Pad(c.path), id);
        HasIn(dir, Pad(c.path), id);
        StoredShorter(wc, dir, id);
        MostGrows(fs.g, |Bytes(dir[id])|, |v.files[id].bytes|);
      }
    }
  }

  lemma CostChoice(g: Geo, ps: nat, v: View, c: Call)
    requires c.Open? && !Unused(v, c.path)
    ensures exists id: half :: IsCalled(v, id, c.path) && id in v.files && (c.flags.trunc ==> Cost(g, ps, v, c) == Most(g, |v.files[id].bytes|))
  {
    hide Most, SameName;
    var id: half :| IsCalled(v, id, c.path);
    assert IsCalled(v, id, c.path) && id in v.files;
  }

  lemma StoredShorter(wc: seq<CPage>, dir: Dir, id: half)
    requires id in dir
    ensures |Bytes(dir[id])| <= |WriteCache.Logical(wc, dir, id)|
  {
    hide Flatten;
  }

  method DoOpen(fs: Spiffs, c: Call, n: nat, ps: nat, room: nat) returns (st: Status)
    requires Running(fs, n, ps) && c.Open? && Proper(fs.fds, fs.wc, c) && 0 < room
    modifies fs
    ensures st == OK ==> Running(fs, n, ps) && Does(old(Seen(fs)), c, [], Seen(fs))
    ensures st != OK ==> Leaves(old(Seen(fs)), c, Seen(fs))
    ensures Due(old(Seen(fs)), c, n, ps, fs, old(InStock(fs)), st == OK)
  {
    hide UniqueNames, AllAllotted, WriteCache.Logical, WriteCache.PagesOk, WriteCache.OwnPage, Ready, SameName, Pad, Referenced,
      Does, Leaves, SameMeaning, Ample, Stranded, Files.Opened, Stayed, Survived, NoneAtOne, OnlyNamed, Rewound, Unharmed,
      OthersMeaning, OthersSeen, Unnoticed, UserOf, Stocked, Quiet, Exhausted, Assured, CreateResult, OpenResult, TwoBlocks, Due,
      AllUsed, Stalled, ClearSure, Most, Has;
    ghost var v, fds := Seen(fs), fs.fds;
    ghost var id, dir, wc := 0, fs.dir, fs.wc;
    ghost var stock, quiet, spent, sure := InStock(fs), Quiet(fs, WithMeta(fs.g, 0)), Exhausted(fs), Assured(fs, WithMeta(fs.g, 0));
    ghost var clear := ClearSure(fs);
    StockOpens(fs);
    OpenNonzero(fs, n, ps);
    UnharmedNamed(dir, c.path);
    if NoneAtOne(wc) { NotStranded(wc, dir); }
    st, id := Files.Open(fs, Some(c.f), c.path, c.flags, c.hash, n, ps, room);
    OpenDue(v, c, n, ps, dir, wc, fs, st, stock, !AllUsed(Ids(dir), n, ps), quiet, spent, sure, clear);
    if st != OK {
      OpenFails(fs, v, dir, fds, c, id);
      return;
    }
    OpenIndirect(fds, fs.fds, c, id);
    MeaningUnharmed(dir, fs.dir, id);
    OpenDone(fs, v, dir, wc, fds, c, id);
  }

  lemma UnharmedNamed(dir: Dir, path: seq<byte>)
    requires Unharmed(dir)
    ensures |path| < NAME_LEN ==> NoneLost(dir, Pad(path))
    ensures forall id :: id in dir ==> dir[id].lost == {}
  {
  }

  lemma MeaningUnharmed(dir: Dir, dir': Dir, id: half)
    requires Unharmed(dir) && OthersMeaning(dir, dir', id) && id in dir' && dir'[id].lost == {}
    ensures Unharmed(dir')
  {
  }

  lemma OpenIndirect(fds: seq<Fd>, fds': seq<Fd>, c: Call, id: half)
    requires c.Open? && c.f < |fds| && !c.flags.direct && c.f < |fds'| && fds'[c.f].flags == c.flags
    requires forall i :: 0 <= i < |fds| && fds[i].fileNbr != 0 ==> !fds[i].flags.direct && IdOf(fds[i].objId) != 0
    requires if c.flags.trunc then Stayed(fds, fds', c.f) && Unnoticed(fds, fds', c.f, id) else Unnoticed(fds, fds', c.f, 0)
    ensures forall i :: 0 <= i < |fds'| && fds'[i].fileNbr != 0 ==> !fds'[i].flags.direct
  {
  }

  lemma OpenDone(fs: Spiffs, v: View, dir: Dir, wc: seq<CPage>, fds: seq<Fd>, c: Call, id: half)
    requires c.Open? && c.f < |fds| == |v.users| && c.f < |fs.fds| && v.files.Keys == dir.Keys && fds[c.f].fileNbr == 0 && |c.path| < NAME_LEN
    requires forall i :: 0 <= i < |fds| ==> v.users[i] == UserOf(fds[i])
    requires forall i :: 0 <= i < |fds| && fds[i].fileNbr != 0 ==> IdOf(fds[i].objId) != 0
    requires forall x :: x in dir ==> v.files[x] == File(dir[x].name, WriteCache.Logical(wc, dir, x))
    requires OpenOn(fs, c.f, id) && fs.fds[c.f].fdoffset == 0 && fs.fds[c.f].flags == c.flags
    requires OthersMeaning(dir, fs.dir, id) && OthersSeen(wc, dir, fs.wc, fs.dir, id) && id in fs.dir
    requires if c.flags.trunc then Stayed(fds, fs.fds, c.f) && Unnoticed(fds, fs.fds, c.f, id) else Unnoticed(fds, fs.fds, c.f, 0)
    requires WriteCache.Logical(fs.wc, fs.dir, id) == Files.Opened(wc, dir, id, c.flags.trunc)
    requires id in dir ==> Has(dir, Pad(c.path), id) && fs.dir[id].name == dir[id].name
    requires id !in dir ==> c.flags.creat && fs.dir[id].name == Pad(c.path) && forall x :: !Has(dir, Pad(c.path), x)
    ensures Does(v, c, [], Seen(fs))
  {
    hide WriteCache.Logical, Files.Opened, Pad, Stayed, Does, Has, Emptied, OthersBack, Added, OthersStay, IsCalled;
    NoneOf(v, c.path, dir);
    if c.flags.trunc { OpenBack(fs, v, fds, c.f, id); } else { OpenStay(fs, v, fds, c.f); }
    if id in dir {
      FilesWith(fs, v, id, v.files[id].(bytes := WriteCache.Logical(fs.wc, fs.dir, id)));
      OpenedFiles(fs, v, wc, dir, id, c.flags.trunc);
    } else {
      OpenedNone(wc, dir, id, c.flags.trunc);
      FilesWith(fs, v, id, File(Padded(c.path), []));
      OpenedNew(v, Seen(fs), id, c.path);
    }
    OpenedStep(fs, v, c, id);
  }

  lemma OpenStay(fs: Spiffs, v: View, fds: seq<Fd>, f: nat)
    requires |v.users| == |fds| && forall i :: 0 <= i < |fds| ==> v.users[i] == UserOf(fds[i])
    requires Unnoticed(fds, fs.fds, f, 0) && forall i :: 0 <= i < |fds| && fds[i].fileNbr != 0 ==> IdOf(fds[i].objId) != 0
    ensures OthersStay(v, Seen(fs), f)
  {
    OpenUsers(fds, fs.fds, f);
  }

  lemma OpenedFiles(fs: Spiffs, v: View, wc: seq<CPage>, dir: Dir, id: half, trunc: bool)
    requires id in dir && id in v.files && v.files[id].bytes == WriteCache.Logical(wc, dir, id) && id in fs.dir
    requires Seen(fs).files == v.files[id := v.files[id].(bytes := WriteCache.Logical(fs.wc, fs.dir, id))]
    requires WriteCache.Logical(fs.wc, fs.dir, id) == Files.Opened(wc, dir, id, trunc)
    ensures if trunc then Emptied(v, Seen(fs), id) else Seen(fs).files == v.files
  {
    hide WriteCache.Logical, Flatten;
    if trunc {
      OpenedEmptied(wc, dir, id);
    } else {
      assert v.files[id := v.files[id]] == v.files;
    }
  }

  lemma OpenedNone(wc: seq<CPage>, dir: Dir, id: half, trunc: bool)
    requires id !in dir
    ensures Files.Opened(wc, dir, id, trunc) == []
  {
  }

  lemma OpenedNew(v: View, v': View, id: half, path: seq<byte>)
    requires id !in v.files && Unused(v, path) && v'.files == v.files[id := File(Padded(path), [])]
    ensures Added(v, v', id, path)
  {
  }

  lemma OpenFails(fs: Spiffs, v: View, dir: Dir, fds: seq<Fd>, c: Call, id: half)
    requires c.Open? && c.f < |fds| && fds[c.f].fileNbr == 0 && |v.users| == |fds| && v.files.Keys == dir.Keys
    requires forall i :: 0 <= i < |fds| ==> v.users[i] == UserOf(fds[i])
    requires forall x :: x in dir ==> v.files[x].name == dir[x].name
    requires forall i :: 0 <= i < |fds| && fds[i].fileNbr != 0 ==> IdOf(fds[i].objId) != 0
    requires OnlyNamed(dir, fs.dir, id)
    requires forall x :: x in dir ==> v.files[x] == File(dir[x].name, WriteCache.Logical(fs.wc, dir, x))
    requires OthersSeen(fs.wc, dir, fs.wc, fs.dir, id)
    requires || (SameMeaning(dir, fs.dir) && Unnoticed(fds, fs.fds, c.f, 0))
             || (|c.path| < NAME_LEN && c.flags.trunc && Has(dir, Pad(c.path), id) && Unnoticed(fds, fs.fds, c.f, id))
    ensures Leaves(v, c, Seen(fs))
  {
    hide WriteCache.Logical, SameName, SameMeaning, Pad;
    if SameMeaning(dir, fs.dir) && Unnoticed(fds, fs.fds, c.f, 0) {
      MeaningSeen(fs, v, dir);
      OpenUsers(fds, fs.fds, c.f);
      SeenLeaves(fs, v, c);
    } else {
      NoneOf(v, c.path, dir);
      assert Risks(v, c, id);
    }
  }

  lemma OpenNonzero(fs: Spiffs, n: nat, ps: nat)
    requires Running(fs, n, ps)
    ensures forall i :: 0 <= i < |fs.fds| && fs.fds[i].fileNbr != 0 ==> IdOf(fs.fds[i].objId) != 0
  {
    forall i | 0 <= i < |fs.fds| && fs.fds[i].fileNbr != 0 ensures IdOf(fs.fds[i].objId) != 0 { OpenHas(fs, n, ps, i); }
  }

  lemma OpenUsers(fds: seq<Fd>, fds': seq<Fd>, f: nat)
    requires Unnoticed(fds, fds', f, 0) && forall i :: 0 <= i < |fds| && fds[i].fileNbr != 0 ==> IdOf(fds[i].objId) != 0
    ensures |fds'| == |fds| && forall i :: 0 <= i < |fds| && i != f ==> UserOf(fds'[i]) == UserOf(fds[i])
  {
  }

  /** What a call through descriptor f finds. */
  lemma Underway(fs: Spiffs, n: nat, ps: nat, f: nat)
    requires Running(fs, n, ps) && IsOpen(fs.fds, f)
    ensures WriteCache.Good(fs, ps) && Kept(fs.dir, fs.fds, n, ps)
    ensures var id := IdOf(fs.fds[f].objId);
            && id in fs.dir && fs.dir[id].lost == {} && OpenOn(fs, f, id) && !fs.fds[f].flags.direct && 0 < id < 0x7FFF
            && WriteCache.Flushable(fs, id)
            && WriteCache.WriteAt(fs, f, id) == if fs.fds[f].flags.append then |WriteCache.Logical(fs.wc, fs.dir, id)| else fs.fds[f].fdoffset
  {
    assert FdPix(fs.fds[f], fs.dir);
  }

  /** What a call that only changes the bytes of a file does not touch. */
  ghost predicate Kept(dir: Dir, fds: seq<Fd>, n: nat, ps: nat) {
    && 129 <= ps <= 2048 && UniqueNames(dir) && AllAllotted(dir, n, ps) && Unharmed(dir)
    && forall i :: 0 <= i < |fds| && fds[i].fileNbr != 0 ==> !fds[i].flags.direct
  }

  lemma GoesOn(fs: Spiffs, dir: Dir, fds: seq<Fd>, f: nat, id: half, n: nat, ps: nat)
    requires Kept(dir, fds, n, ps) && WriteCache.Good(fs, ps) && OnlyContent(dir, fs.dir, id) && id in fs.dir && fs.dir[id].lost == {}
    requires || WriteCache.SameUserBut(fds, fs.fds, f) || WriteCache.SameUserButCache(fds, fs.fds)
             || (f < |fs.fds| && f < |fds| && fs.fds[f].fileNbr == 0 && WriteCache.SameUserButCache(fds[f := fs.fds[f]], fs.fds))
    ensures Running(fs, n, ps)
  {
  }

  lemma NotIdle(fs: Spiffs, f: nat, id: half, n: nat, ps: nat)
    requires f < |fs.fds| && id in fs.dir && (n > 0 || fs.fds[f].flags.append)
    ensures !WriteCache.Idle(fs, f, id, n, ps)
  {
  }

  lemma WriteParts(wc: seq<CPage>, dir: Dir, fds: seq<Fd>, fs: Spiffs, f: nat, id: half, ps: nat, ok: bool, bytes: seq<byte>)
    requires if ok then WriteCache.Written(wc, dir, fds, fs, f, id, bytes) else WriteCache.Failed(wc, dir, fds, fs, f, id, ps)
    ensures OnlyContent(dir, fs.dir, id) && WriteCache.OthersLogical(wc, dir, fs.wc, fs.dir, id) && WriteCache.SameUserBut(fds, fs.fds, f)
    ensures id in dir && (ok ==> id in fs.dir && WriteCache.Logical(fs.wc, fs.dir, id) == bytes)
  {
    hide OnlyContent, WriteCache.OthersLogical, WriteCache.SameUserBut, WriteCache.Loose, Survived, WriteCache.Logical;
  }

  /** A call through a descriptor that may do what it asks for needs nothing but pages. */
  lemma DueBy(v: View, c: Call, n: nat, ps: nat, dir: Dir, wc: seq<CPage>, fds: seq<Fd>, fs: Spiffs, stock: nat, may: bool, ok: bool)
    requires (c.Write? || c.Read? || c.Flush? || c.Close?) && 0 < ps && Shown(v, dir, wc, fds) && c.f < |fds| && fds[c.f].fileNbr != 0
    requires may == if c.Write? then fds[c.f].flags.wr else if c.Read? then fds[c.f].flags.rd else true
    requires !may ==> !ok
    requires may && stock >= Cost(fs.g, ps, v, c) + TwoBlocks(fs.g) ==>
               (ok || Early(fs.fds, fs.wc, c)) && (ok ==> InStock(fs) + Cost(fs.g, ps, v, c) >= stock)
    ensures Due(v, c, n, ps, fs, stock, ok)
  {
    hide Stocked, Cost, TwoBlocks, WriteCache.Logical, Early;
  }

  /** With that much in stock, a write gets its pages ... */
  lemma WriteGranted(fs: Spiffs, v: View, c: Call, id: half, ps: nat)
    requires WriteCache.Good(fs, ps) && c.Write? && OpenOn(fs, c.f, id) && id in fs.dir
    requires InStock(fs) >= Cost(fs.g, ps, v, c) + TwoBlocks(fs.g)
    ensures var small, at := WriteCache.Small(fs.fds[c.f], |c.buf|, ps), WriteCache.WriteAt(fs, c.f, id);
            && WriteCache.CallStores(fs, id, c.slot, small, at, |c.buf|, ps)
            && WriteCache.CallSure(fs, id, c.slot, small, at, |c.buf|, ps) == InStock(fs)
            && WriteCache.CallNeed(fs.g, fs.wc, fs.dir, id, c.slot, small, at, |c.buf|, ps) <= Cost(fs.g, ps, v, c)
  {
    hide WriteCache.Good, WriteCache.Logical, InStock, Most, TwoBlocks, WriteCache.CallNeed, WriteCache.CallStores,
      WriteCache.CallSure, WriteCache.Small;
    WriteCache.WithinLogical(fs, c.f, id, ps);
    WriteCache.StockedCall(fs, id, c.slot, WriteCache.Small(fs.fds[c.f], |c.buf|, ps), WriteCache.WriteAt(fs, c.f, id), |c.buf|, ps);
  }

  /** ... and so does a flush. */
  lemma FlushGranted(fs: Spiffs, v: View, c: Call, id: half, ps: nat)
    requires WriteCache.Good(fs, ps) && (c.Read? || c.Flush? || c.Close?) && id in fs.dir
    requires InStock(fs) >= Cost(fs.g, ps, v, c) + TwoBlocks(fs.g)
    ensures WriteCache.FlushStores(fs, id) && WriteCache.FlushSure(fs, id) == InStock(fs)
    ensures WriteCache.FlushNeed(fs.g, fs.wc, fs.dir, id) <= Cost(fs.g, ps, v, c)
  {
    hide WriteCache.Good, InStock, Most, TwoBlocks, WriteCache.FlushNeed, WriteCache.FlushStores, WriteCache.FlushSure;
    WriteCache.StockedFlush(fs, id, ps);
  }

  method DoWrite(fs: Spiffs, c: Call, n: nat, ps: nat, room: nat) returns (st: Status, dropped: bool)
    requires Running(fs, n, ps) && c.Write? && Proper(fs.fds, fs.wc, c) && 0 < room
    modifies fs
    ensures st == OK && !dropped ==> Running(fs, n, ps) && Does(old(Seen(fs)), c, [], Seen(fs))
    ensures st != OK || dropped ==> Leaves(old(Seen(fs)), c, Seen(fs))
    ensures Due(old(Seen(fs)), c, n, ps, fs, old(InStock(fs)), st == OK && !dropped)
  {
    hide Due, Cost, TwoBlocks, Stocked, WriteCache.Small, WriteCache.CallNeed, WriteCache.CallStores, WriteCache.CallSure,
      Running, Kept, Shown, WriteCache.Good, WriteCache.Logical, WriteCache.PagesOk, Does, Spliced, OnlyContent,
      WriteCache.OthersLogical, Leaves, WriteCache.Loose, Survived, WriteCache.SafeCall, WriteCache.WriteAt, StoredWork,
      WriteCache.Idle, WriteCache.PageOf, WriteCache.Written, WriteCache.Failed, WriteCache.SameUserBut;
    ghost var v, fds, dir, wc := Seen(fs), fs.fds, fs.dir, fs.wc;
    SeenShows(fs);
    Underway(fs, n, ps, c.f);
    var id := IdOf(fs.fds[c.f].objId);
    var writable := fs.fds[c.f].flags.wr;
    NotIdle(fs, c.f, id, |c.buf|, ps);
    ghost var stock := InStock(fs);
    if stock >= Cost(fs.g, ps, v, c) + TwoBlocks(fs.g) { WriteGranted(fs, v, c, id, ps); }
    st, dropped := WriteCache.Write(fs, c.f, id, c.buf, ps, c.slot, room);
    DueBy(v, c, n, ps, dir, wc, fds, fs, stock, writable, st == OK && !dropped);
    if !writable {
      SeenLeaves(fs, v, c);
      return;
    }
    ghost var bytes := Spliced(WriteCache.Logical(wc, dir, id), old(WriteCache.WriteAt(fs, c.f, id)), c.buf);
    WriteParts(wc, dir, fds, fs, c.f, id, ps, st == OK && !dropped, bytes);
    OtherLeaves(fs, v, c, dir, wc, fds, id);
    if st != OK || dropped { return; }
    GoesOn(fs, dir, fds, c.f, id, n, ps);
    OtherFiles(fs, v, dir, wc, fds, id, bytes);
    WrittenStep(v, c, fs, fds, dir, wc);
  }

  ghost predicate SameBut(fds: seq<Fd>, fds': seq<Fd>, f: nat) {
    |fds'| == |fds| && forall i :: 0 <= i < |fds| && i != f ==> UserOf(fds'[i]) == UserOf(fds[i])
  }

  lemma UsersBut(fds: seq<Fd>, fds': seq<Fd>, f: nat)
    requires f < |fds|
    requires || WriteCache.SameUserBut(fds, fds', f) || WriteCache.SameUserButCache(fds, fds')
             || (f < |fds'| && WriteCache.SameUserButCache(fds[f := fds'[f]], fds'))
    ensures SameBut(fds, fds', f)
  {
  }

  /** The view is what users see of these. */
  ghost predicate Shown(v: View, dir: Dir, wc: seq<CPage>, fds: seq<Fd>) {
    && v.files.Keys == dir.Keys && (forall x :: x in dir ==> v.files[x] == File(dir[x].name, WriteCache.Logical(wc, dir, x)))
    && |v.users| == |fds| && forall i :: 0 <= i < |fds| ==> v.users[i] == UserOf(fds[i])
  }

  lemma SeenShows(fs: Spiffs)
    ensures Shown(Seen(fs), fs.dir, fs.wc, fs.fds)
  {
  }

  /** Only the bytes of file `id` are different, and the user of the descriptor has noticed. */
  lemma OtherLeaves(fs: Spiffs, v: View, c: Call, dir: Dir, wc: seq<CPage>, fds: seq<Fd>, id: half)
    requires (c.Write? || c.Read? || c.Flush? || c.Close?) && Shown(v, dir, wc, fds) && c.f < |fds|
    requires fds[c.f].fileNbr != 0 && IdOf(fds[c.f].objId) == id && id in dir
    requires OnlyContent(dir, fs.dir, id) && WriteCache.OthersLogical(wc, dir, fs.wc, fs.dir, id)
    requires || WriteCache.SameUserBut(fds, fs.fds, c.f) || WriteCache.SameUserButCache(fds, fs.fds)
             || (c.f < |fs.fds| && WriteCache.SameUserButCache(fds[c.f := fs.fds[c.f]], fs.fds))
    ensures Leaves(v, c, Seen(fs)) && id in fs.dir
  {
    hide OnlyContent, WriteCache.OthersLogical, WriteCache.Logical, SameBut, Leaves;
    ContentSeen(dir, wc, fs, v, id);
    UsersBut(fds, fs.fds, c.f);
    ContentLeaves(fs, v, c, fds, id);
  }

  /** ... and the file holds `bytes`. */
  lemma OtherFiles(fs: Spiffs, v: View, dir: Dir, wc: seq<CPage>, fds: seq<Fd>, id: half, bytes: seq<byte>)
    requires Shown(v, dir, wc, fds) && id in dir && id in fs.dir
    requires OnlyContent(dir, fs.dir, id) && WriteCache.OthersLogical(wc, dir, fs.wc, fs.dir, id)
    requires WriteCache.Logical(fs.wc, fs.dir, id) == bytes
    ensures id in v.files && Seen(fs).files == v.files[id := v.files[id].(bytes := bytes)]
    ensures v.files[id].bytes == WriteCache.Logical(wc, dir, id)
  {
    hide OnlyContent, WriteCache.OthersLogical, WriteCache.Logical;
    ContentSeen(dir, wc, fs, v, id);
    FilesWith(fs, v, id, v.files[id].(bytes := bytes));
  }

  /** ... namely what it held. */
  lemma OtherSame(fs: Spiffs, v: View, dir: Dir, wc: seq<CPage>, fds: seq<Fd>, id: half)
    requires Shown(v, dir, wc, fds) && id in dir && id in fs.dir
    requires OnlyContent(dir, fs.dir, id) && WriteCache.OthersLogical(wc, dir, fs.wc, fs.dir, id)
    requires WriteCache.PageOf(fs.wc, id, 0) == |fs.wc| && Bytes(fs.dir[id]) == WriteCache.Logical(wc, dir, id)
    ensures id in v.files && Seen(fs).files == v.files && v.files[id].bytes == Bytes(fs.dir[id])
  {
    hide OnlyContent, WriteCache.OthersLogical, WriteCache.Logical, Flatten;
    NoPageLogical(fs.wc, fs.dir, id);
    OtherFiles(fs, v, dir, wc, fds, id, Bytes(fs.dir[id]));
    assert v.files[id := v.files[id]] == v.files;
  }

  lemma ContentLeaves(fs: Spiffs, v: View, c: Call, fds: seq<Fd>, id: half)
    requires (c.Write? || c.Read? || c.Flush? || c.Close?) && |v.users| == |fds| && c.f < |fds|
    requires forall i :: 0 <= i < |fds| ==> v.users[i] == UserOf(fds[i])
    requires fds[c.f].fileNbr != 0 && IdOf(fds[c.f].objId) == id && id in v.files && Seen(fs).files.Keys == v.files.Keys
    requires Seen(fs).files[id].name == v.files[id].name
    requires forall x :: x in v.files && x != id ==> Seen(fs).files[x] == v.files[x]
    requires SameBut(fds, fs.fds, c.f)
    ensures Leaves(v, c, Seen(fs))
  {
  }

  lemma ContentSeen(dir: Dir, wc: seq<CPage>, fs: Spiffs, v: View, id: half)
    requires OnlyContent(dir, fs.dir, id) && WriteCache.OthersLogical(wc, dir, fs.wc, fs.dir, id) && id in dir
    requires v.files.Keys == dir.Keys && forall x :: x in dir ==> v.files[x] == File(dir[x].name, WriteCache.Logical(wc, dir, x))
    ensures id in fs.dir && fs.dir.Keys == v.files.Keys + {id}
    ensures Seen(fs).files[id] == v.files[id].(bytes := WriteCache.Logical(fs.wc, fs.dir, id))
    ensures forall x :: x in v.files && x != id ==> Seen(fs).files[x] == v.files[x]
  {
    hide WriteCache.Logical;
  }

  lemma WrittenStep(v: View, c: Call, fs: Spiffs, fds: seq<Fd>, dir: Dir, wc: seq<CPage>)
    requires c.Write? && Shown(v, dir, wc, fds) && c.f < |fds| && c.f < |fs.fds| && fds[c.f].fileNbr != 0 && fds[c.f].flags.wr
    requires WriteCache.SameUserBut(fds, fs.fds, c.f)
    requires !fds[c.f].flags.append ==> fs.fds[c.f].fdoffset == fds[c.f].fdoffset + |c.buf|
    requires var id := IdOf(fds[c.f].objId);
             && id in v.files
             && var was := v.files[id];
                Seen(fs).files ==
                v.files[id := was.(bytes := Spliced(was.bytes, if fds[c.f].flags.append then |was.bytes| else fds[c.f].fdoffset, c.buf))]
    ensures Does(v, c, [], Seen(fs))
  {
    hide Spliced, WriteCache.Logical;
  }

  /** SPIFFS_read: the end of the file is no error, but a file whose content is all in the cache ends early. */
  method DoRead(fs: Spiffs, c: Call, n: nat, ps: nat, room: nat) returns (st: Status, dst: seq<byte>, dropped: bool)
    requires Running(fs, n, ps) && c.Read? && IsOpen(fs.fds, c.f) && 0 < room
    modifies fs
    ensures st == OK && !dropped ==> Running(fs, n, ps) && Does(old(Seen(fs)), c, dst, Seen(fs))
    ensures st != OK || dropped ==> Leaves(old(Seen(fs)), c, Seen(fs))
    ensures Due(old(Seen(fs)), c, n, ps, fs, old(InStock(fs)), st == OK && !dropped)
  {
    hide Due, Cost, TwoBlocks, Stocked, WriteCache.FlushNeed, WriteCache.FlushStores, WriteCache.FlushSure, Running, Kept, Shown,
      WriteCache.Good, WriteCache.Logical, WriteCache.PagesOk, Does, Flatten, OnlyContent, WriteCache.OthersLogical,
      WriteCache.CannotStore, WriteCache.Loose, WriteCache.Flushed, Leaves, Survived, WriteCache.SafeFlush, WriteCache.PageOf,
      WriteCache.SameUserBut, WriteCache.OwnPage, WriteCache.ReadFrom, WriteCache.ReadWell, Seen, OpenOn;
    ghost var v, fds, dir, wc := Seen(fs), fs.fds, fs.dir, fs.wc;
    SeenShows(fs);
    Underway(fs, n, ps, c.f);
    var id, flushed := IdOf(fs.fds[c.f].objId), OK;
    ghost var stored, done;
    var early := fs.fds[c.f].size == UNDEFINED_LEN && WriteCache.PageOf(fs.wc, id, 0) < |fs.wc| && c.len > 0;
    WriteCache.WithinLogical(fs, c.f, id, ps);
    StoredLogical(fs, id);
    StoredShorter(wc, dir, id);
    ghost var stock := InStock(fs);
    if stock >= Cost(fs.g, ps, v, c) + TwoBlocks(fs.g) { FlushGranted(fs, v, c, id, ps); }
    st, dst, flushed, stored, done, dropped := WriteCache.HydroRead(fs, c.f, id, c.len, ps, room);
    OtherLeaves(fs, v, c, dir, wc, fds, id);
    ReadAll(fs, c.f, id, fds[c.f].fdoffset, c.len, st, dst);
    if st == ERR_END_OF_OBJECT && !early { st := OK; }
    if st == OK && flushed != OK { st := flushed; }
    DueBy(v, c, n, ps, dir, wc, fds, fs, stock, fds[c.f].flags.rd, st == OK && !dropped);
    if st != OK || dropped { return; }
    GoesOn(fs, dir, fds, c.f, id, n, ps);
    NoneRead(Bytes(fs.dir[id]), fds[c.f].fdoffset, c.len);
    OtherSame(fs, v, dir, wc, fds, id);
    ReadStep(v, c, dst, fs, fds, dir, wc);
  }

  lemma ReadStep(v: View, c: Call, dst: seq<byte>, fs: Spiffs, fds: seq<Fd>, dir: Dir, wc: seq<CPage>)
    requires c.Read? && Shown(v, dir, wc, fds) && c.f < |fds| && c.f < |fs.fds| && fds[c.f].fileNbr != 0 && fds[c.f].flags.rd
    requires WriteCache.SameUserBut(fds, fs.fds, c.f) && fs.fds[c.f].fdoffset == fds[c.f].fdoffset + |dst|
    requires var id := IdOf(fds[c.f].objId);
             id in v.files && Seen(fs).files == v.files && dst == WriteCache.ReadFrom(v.files[id].bytes, fds[c.f].fdoffset, c.len)
    ensures Does(v, c, dst, Seen(fs))
  {
    hide WriteCache.ReadFrom, WriteCache.Logical;
  }

  /** A read of a file that has lost no page gives what is there, and at its end nothing. */
  lemma ReadAll(fs: Spiffs, f: nat, id: half, at: nat, len: nat, st: Status, dst: seq<byte>)
    requires id in fs.dir
    ensures WriteCache.ReadWell(fs, f, id, at, len, st, dst) && fs.dir[id].lost == {} && at <= |Bytes(fs.dir[id])| ==>
              && f < |fs.fds| && fs.fds[f].fdoffset == at + |dst|
              && (st == OK || st == ERR_END_OF_OBJECT ==> dst == WriteCache.ReadFrom(Bytes(fs.dir[id]), at, len))
              && (|Bytes(fs.dir[id])| > 0 || len == 0 ==> st == OK || st == ERR_END_OF_OBJECT)
  {
    hide Flatten;
    NoneRead(Bytes(fs.dir[id]), at, len);
  }

  /** At the end there is nothing to read. */
  lemma NoneRead(bytes: seq<byte>, at: nat, len: nat)
    ensures at == |bytes| ==> WriteCache.ReadFrom(bytes, at, len) == []
  {
  }

  lemma StoredLogical(fs: Spiffs, id: half)
    requires id in fs.dir
    ensures WriteCache.PageOf(fs.wc, id, 0) == |fs.wc| ==> WriteCache.Logical(fs.wc, fs.dir, id) == Bytes(fs.dir[id])
  {
  }

  lemma NoPageLogical(wc: seq<CPage>, dir: Dir, id: half)
    requires id in dir && WriteCache.PageOf(wc, id, 0) == |wc|
    ensures WriteCache.Logical(wc, dir, id) == Bytes(dir[id])
  {
  }

  method DoFlush(fs: Spiffs, c: Call, n: nat, ps: nat, room: nat) returns (st: Status, dropped: bool)
    requires Running(fs, n, ps) && c.Flush? && IsOpen(fs.fds, c.f) && 0 < room
    modifies fs
    ensures st == OK && !dropped ==> Running(fs, n, ps) && Does(old(Seen(fs)), c, [], Seen(fs))
    ensures st != OK || dropped ==> Leaves(old(Seen(fs)), c, Seen(fs))
    ensures Due(old(Seen(fs)), c, n, ps, fs, old(InStock(fs)), st == OK && !dropped)
  {
    hide Due, Cost, TwoBlocks, Stocked, WriteCache.FlushNeed, WriteCache.FlushStores, WriteCache.FlushSure, Running, Kept, Shown,
      WriteCache.Good, WriteCache.Logical, WriteCache.PagesOk, Does, Flatten, OnlyContent, WriteCache.OthersLogical,
      WriteCache.CannotStore, WriteCache.Loose, WriteCache.Flushed, Leaves, Survived, WriteCache.SafeFlush, WriteCache.PageOf,
      WriteCache.SameUserButCache, WriteCache.OwnPage;
    ghost var v, fds, dir, wc := Seen(fs), fs.fds, fs.dir, fs.wc;
    SeenShows(fs);
    Underway(fs, n, ps, c.f);
    var id := IdOf(fs.fds[c.f].objId);
    ghost var stored, done;
    ghost var stock := InStock(fs);
    if stock >= Cost(fs.g, ps, v, c) + TwoBlocks(fs.g) { FlushGranted(fs, v, c, id, ps); }
    st, stored, done, dropped := WriteCache.Flush(fs, c.f, id, ps, room);
    DueBy(v, c, n, ps, dir, wc, fds, fs, stock, true, st == OK && !dropped);
    OtherLeaves(fs, v, c, dir, wc, fds, id);
    if st != OK || dropped { return; }
    GoesOn(fs, dir, fds, c.f, id, n, ps);
    OtherSame(fs, v, dir, wc, fds, id);
    FlushStep(v, c, fs, fds, dir, wc);
  }

  lemma FlushStep(v: View, c: Call, fs: Spiffs, fds: seq<Fd>, dir: Dir, wc: seq<CPage>)
    requires c.Flush? && Shown(v, dir, wc, fds) && Seen(fs).files == v.files && WriteCache.SameUserButCache(fds, fs.fds)
    ensures Does(v, c, [], Seen(fs))
  {
    hide WriteCache.Logical;
    assert Seen(fs).users == v.users;
  }

  method DoClose(fs: Spiffs, c: Call, n: nat, ps: nat, room: nat) returns (st: Status, dropped: bool)
    requires Running(fs, n, ps) && c.Close? && IsOpen(fs.fds, c.f) && 0 < room
    modifies fs
    ensures st == OK && !dropped ==> Running(fs, n, ps) && Does(old(Seen(fs)), c, [], Seen(fs))
    ensures st != OK || dropped ==> Leaves(old(Seen(fs)), c, Seen(fs))
    ensures Due(old(Seen(fs)), c, n, ps, fs, old(InStock(fs)), st == OK && !dropped)
  {
    hide Due, Cost, TwoBlocks, Stocked, WriteCache.FlushNeed, WriteCache.FlushStores, WriteCache.FlushSure, Running, Kept, Shown,
      WriteCache.Good, WriteCache.Logical, WriteCache.PagesOk, Does, Flatten, OnlyContent, WriteCache.OthersLogical,
      WriteCache.CannotStore, WriteCache.Loose, WriteCache.Flushed, Leaves, Survived, WriteCache.SafeFlush, WriteCache.PageOf,
      WriteCache.SameUserButCache, WriteCache.OwnPage;
    ghost var v, fds, dir, wc := Seen(fs), fs.fds, fs.dir, fs.wc;
    SeenShows(fs);
    Underway(fs, n, ps, c.f);
    var id := IdOf(fs.fds[c.f].objId);
    ghost var stored, done;
    ghost var stock := InStock(fs);
    if stock >= Cost(fs.g, ps, v, c) + TwoBlocks(fs.g) { FlushGranted(fs, v, c, id, ps); }
    st, stored, done, dropped := Rename.Close(fs, c.f, id, ps, room);
    DueBy(v, c, n, ps, dir, wc, fds, fs, stock, true, st == OK && !dropped);
    OtherLeaves(fs, v, c, dir, wc, fds, id);
    if st != OK || dropped { return; }
    GoesOn(fs, dir, fds, c.f, id, n, ps);
    OtherSame(fs, v, dir, wc, fds, id);
    CloseStep(v, c, fs, fds, dir, wc);
  }

  lemma CloseStep(v: View, c: Call, fs: Spiffs, fds: seq<Fd>, dir: Dir, wc: seq<CPage>)
    requires c.Close? && Shown(v, dir, wc, fds) && c.f < |fds| && c.f < |fs.fds| && fds[c.f].fileNbr != 0 && Seen(fs).files == v.files
    requires fs.fds[c.f].fileNbr == 0 && WriteCache.SameUserButCache(fds[c.f := fs.fds[c.f]], fs.fds)
    ensures Does(v, c, [], Seen(fs))
  {
    hide WriteCache.Logical;
    assert Seen(fs).users == v.users[c.f := Closed];
  }

  /** Removing a file takes no page ... */
  lemma RemoveDue(v: View, c: Call, n: nat, ps: nat, dir: Dir, fs: Spiffs, stock: nat, ok: bool)
    requires c.Remove? && 0 < ps && v.files.Keys == dir.Keys && forall id :: id in dir ==> v.files[id].name == dir[id].name
    requires ok <==> |c.path| < NAME_LEN && exists x :: Has(dir, Pad(c.path), x)
    requires InStock(fs) == stock
    ensures Due(v, c, n, ps, fs, stock, ok)
  {
    hide Stocked, Pad, SameName, TwoBlocks;
    if |c.path| < NAME_LEN { NoneOf(v, c.path, dir); }
  }

  /** ... and a new name one. */
  lemma RenameDue(v: View, c: Call, n: nat, ps: nat, dir: Dir, fs: Spiffs, stock: nat, ok: bool)
    requires c.Rename? && 0 < ps && v.files.Keys == dir.Keys && forall id :: id in dir ==> v.files[id].name == dir[id].name
    requires ok ==> |c.path| < NAME_LEN && |c.to| < NAME_LEN
    requires |c.path| < NAME_LEN && |c.to| < NAME_LEN ==>
               if (forall x :: !Has(dir, Pad(c.path), x)) || (exists x :: Has(dir, Pad(c.to), x)) then !ok
               else stock >= 1 ==> ok && InStock(fs) + 1 >= stock
    requires TwoBlocks(fs.g) > 0
    ensures Due(v, c, n, ps, fs, stock, ok)
  {
    hide Stocked, Pad, SameName, TwoBlocks;
    if |c.path| < NAME_LEN { NoneOf(v, c.path, dir); }
    if |c.to| < NAME_LEN { NoneOf(v, c.to, dir); }
  }

  lemma TwoBlocksMany(fs: Spiffs, n: nat, ps: nat)
    requires Running(fs, n, ps)
    ensures TwoBlocks(fs.g) > 0
  {
    hide Rep, FdsOk, Inv, NoneDoomed, AllTight;
    MidShape(fs, IDLE);
  }

  method DoRemove(fs: Spiffs, c: Call, n: nat, ps: nat) returns (st: Status)
    requires Running(fs, n, ps) && c.Remove? && Proper(fs.fds, fs.wc, c)
    modifies fs
    ensures st == OK ==> Running(fs, n, ps) && Does(old(Seen(fs)), c, [], Seen(fs))
    ensures st != OK ==> Leaves(old(Seen(fs)), c, Seen(fs))
    ensures Due(old(Seen(fs)), c, n, ps, fs, old(InStock(fs)), st == OK)
  {
    hide Due, Stocked, UniqueNames, AllAllotted, WriteCache.Logical, WriteCache.PagesOk, Ready, SameName, Referenced, Does,
      Flatten, Pad, PagesDropped, Leaves, Ample;
    ghost var v, fds, dir := Seen(fs), fs.fds, fs.dir;
    ghost var id;
    OpenNonzero(fs, n, ps);
    ghost var stock := InStock(fs);
    st, id := Files.Remove(fs, Some(c.f), c.path, n, ps);
    RemoveDue(v, c, n, ps, dir, fs, stock, st == OK);
    if st != OK {
      SeenLeaves(fs, v, c);
      return;
    }
    NoneOf(v, c.path, dir);
    FilesWithout(fs, v, id);
    RemovedStep(v, c, Seen(fs), fds, fs.fds, id);
  }

  lemma FilesWithout(fs: Spiffs, v: View, id: half)
    requires fs.dir.Keys == v.files.Keys - {id} && forall x :: x in v.files && x != id ==> Seen(fs).files[x] == v.files[x]
    ensures Seen(fs).files == v.files - {id}
  {
  }

  lemma RemovedStep(v: View, c: Call, v': View, fds: seq<Fd>, fds': seq<Fd>, id: half)
    requires c.Remove? && c.f < |fds| == |v.users| == |fds'| == |v'.users| && fds[c.f].fileNbr == 0 && fds'[c.f].fileNbr == 0
    requires forall i :: 0 <= i < |fds| ==> v.users[i] == UserOf(fds[i]) && v'.users[i] == UserOf(fds'[i])
    requires Unnoticed(fds, fds', c.f, id) && forall i :: 0 <= i < |fds| && IdOf(fds[i].objId) == id ==> fds'[i].fileNbr == 0
    requires IsCalled(v, id, c.path) && v'.files == v.files - {id}
    ensures Does(v, c, [], v')
  {
    forall i | 0 <= i < |v.users|
      ensures v'.users[i] == if v.users[i].Opened? && v.users[i].id == id then Closed else v.users[i]
    {
    }
  }

  method DoRename(fs: Spiffs, c: Call, n: nat, ps: nat) returns (st: Status)
    requires Running(fs, n, ps) && c.Rename? && Proper(fs.fds, fs.wc, c)
    modifies fs
    ensures st == OK ==> Running(fs, n, ps) && Does(old(Seen(fs)), c, [], Seen(fs))
    ensures st != OK ==> Leaves(old(Seen(fs)), c, Seen(fs))
    ensures Due(old(Seen(fs)), c, n, ps, fs, old(InStock(fs)), st == OK)
  {
    hide Due, Stocked, TwoBlocks, UniqueNames, AllAllotted, WriteCache.Logical, WriteCache.PagesOk, Ready, SameName, Referenced,
      Does, Flatten, Pad, CacheAfterName, PageToHave, Leaves, Ample;
    ghost var v, fds, dir := Seen(fs), fs.fds, fs.dir;
    ghost var id;
    NonzeroDir(fs, n, ps);
    TwoBlocksMany(fs, n, ps);
    ghost var stock := InStock(fs);
    st, id := RenameFile(fs, Some(c.f), c.path, c.to, n, ps);
    RenameDue(v, c, n, ps, dir, fs, stock, st == OK);
    if st != OK {
      SeenLeaves(fs, v, c);
      return;
    }
    NoneOf(v, c.path, dir);
    NoneOf(v, c.to, dir);
    FilesWith(fs, v, id, v.files[id].(name := Padded(c.to)));
    RenamedStep(v, c, Seen(fs), fds, fs.fds, id, |Bytes(dir[id])|);
  }

  lemma NonzeroDir(fs: Spiffs, n: nat, ps: nat)
    requires Running(fs, n, ps)
    ensures 0 !in fs.dir
  {
  }

  lemma RenamedStep(v: View, c: Call, v': View, fds: seq<Fd>, fds': seq<Fd>, id: half, stored: nat)
    requires c.Rename? && c.f < |fds| == |v.users| == |fds'| == |v'.users| && fds[c.f].fileNbr == 0 && fds'[c.f].fileNbr == 0
    requires forall i :: 0 <= i < |fds| ==> v.users[i] == UserOf(fds[i]) && v'.users[i] == UserOf(fds'[i])
    requires OthersAfter(fds, fds', c.f, id, stored)
    requires IsCalled(v, id, c.path) && Unused(v, c.to) && v'.files == v.files[id := v.files[id].(name := Padded(c.to))]
    ensures Does(v, c, [], v')
  {
    forall i | 0 <= i < |v.users|
      ensures || v'.users[i] == v.users[i]
              || (v.users[i].Opened? && v.users[i].id == id && v'.users[i] == v.users[i].(offset := 0))
    {
    }
  }

  // ---------------------------------------------------------------- runs

  /** Every call took the users' view to the next one, as it should. */
  ghost predicate Runs(views: seq<View>, calls: seq<Call>, results: seq<seq<byte>>) {
    && |views| == |results| + 1 && |results| <= |calls|
    && forall i :: 0 <= i < |results| ==> Does(views[i], calls[i], results[i], views[i + 1])
  }

  method DoCall(fs: Spiffs, c: Call, n: nat, ps: nat, room: nat) returns (st: Status, dst: seq<byte>, dropped: bool)
    requires Running(fs, n, ps) && Proper(fs.fds, fs.wc, c) && 0 < room
    modifies fs
    ensures st == OK && !dropped ==> Running(fs, n, ps) && Does(old(Seen(fs)), c, dst, Seen(fs))
    ensures st != OK || dropped ==> Leaves(old(Seen(fs)), c, Seen(fs))
    ensures Due(old(Seen(fs)), c, n, ps, fs, old(InStock(fs)), st == OK && !dropped)
  {
    hide Running, Does, Leaves, Due, Stocked;
    dst, dropped := [], false;
    match c {
      case Creat(_) => st := DoCreat(fs, c, n, ps, room);
      case Open(_, _, _, _) => st := DoOpen(fs, c, n, ps, room);
      case Write(_, _, _) => st, dropped := DoWrite(fs, c, n, ps, room);
      case Read(_, _) => st, dst, dropped := DoRead(fs, c, n, ps, room);
      case Flush(_) => st, dropped := DoFlush(fs, c, n, ps, room);
      case Close(_) => st, dropped := DoClose(fs, c, n, ps, room);
      case Remove(_, _) => st := DoRemove(fs, c, n, ps);
      case Rename(_, _, _) => st := DoRename(fs, c, n, ps);
    }
  }

  /** What the first k calls of a run may take. */
  ghost function Total(g: Geo, ps: nat, views: seq<View>, calls: seq<Call>, k: nat): nat
    requires k <= |calls| && k <= |views|
  {
    if k == 0 then 0 else Total(g, ps, views, calls, k - 1) + Cost(g, ps, views[k - 1], calls[k - 1])
  }

  lemma {:induction false} TotalStays(g: Geo, ps: nat, views: seq<View>, v: View, calls: seq<Call>, k: nat)
    requires k <= |calls| && k <= |views|
    ensures Total(g, ps, views + [v], calls, k) == Total(g, ps, views, calls, k)
  {
    hide Cost;
    if k > 0 { TotalStays(g, ps, views, v, calls, k - 1); }
  }

  lemma NextTotal(g: Geo, ps: nat, views: seq<View>, calls: seq<Call>, k: nat)
    requires k < |calls| && k < |views|
    ensures Total(g, ps, views, calls, k + 1) == Total(g, ps, views, calls, k) + Cost(g, ps, views[k], calls[k])
  {
    hide Cost;
  }

  lemma SizeOf(fs: Spiffs, n: nat, ps: nat)
    requires Running(fs, n, ps)
    ensures 0 < ps
  {
  }

  /** A run ends with a call that is not one of those it may consist of, that something stands in the way of, that reads a file
      whose content is all in the cache, or that may take more pages than there were in stock for the run, two blocks aside. */
  ghost predicate Ends(fs: Spiffs, views: seq<View>, calls: seq<Call>, k: nat, n: nat, ps: nat, stock: nat)
    requires 0 < ps && k < |calls| && k < |views|
    reads fs
  {
    || (!Proper(fs.fds, fs.wc, calls[k]) && Seen(fs) == views[k])
    || Denied(views[k], calls[k], n, ps) || Early(fs.fds, fs.wc, calls[k])
    || stock < Total(fs.g, ps, views, calls, k + 1) + TwoBlocks(fs.g)
  }

  /** Any run of calls, up to the first that fails or costs a file a page: what users see of files and descriptors is what the
      calls do to a set of files, one after the other.  Which pages hold the files, what is still in the write cache, and when
      the collector was at work cannot be seen.  The call that ends the run leaves other files, and users of other descriptors,
      alone; and as long as there are pages in stock, a run ends only where its user can tell why. */
  method Session(fs: Spiffs, calls: seq<Call>, n: nat, ps: nat, room: nat)
    returns (st: Status, dropped: bool, results: seq<seq<byte>>, ghost views: seq<View>)
    requires Running(fs, n, ps) && 0 < room
    modifies fs
    ensures Runs(views, calls, results) && views[0] == old(Seen(fs))
    ensures st == OK && !dropped ==> |results| == |calls| && Running(fs, n, ps) && Seen(fs) == views[|results|]
    ensures st != OK || dropped ==>
              && |results| < |calls|
              && (Seen(fs) == views[|results|] || Leaves(views[|results|], calls[|results|], Seen(fs)))
              && Ends(fs, views, calls, |results|, n, ps, old(InStock(fs)))
    ensures forall i :: 0 <= i < |results| ==> !Denied(views[i], calls[i], n, ps)
  {
    hide Running, Does, Proper, Leaves, Denied, Cost, Early, TwoBlocks, Stocked, Total;
    assert 0 < ps by { SizeOf(fs, n, ps); }
    st, dropped, results, views := OK, false, [], [Seen(fs)];
    while |results| < |calls|
      invariant st == OK && !dropped && Running(fs, n, ps) && Runs(views, calls, results)
      invariant views[0] == old(Seen(fs)) && Seen(fs) == views[|results|]
      invariant forall i :: 0 <= i < |results| ==> !Denied(views[i], calls[i], n, ps)
      invariant old(InStock(fs)) >= Total(fs.g, ps, views, calls, |results|) + TwoBlocks(fs.g) ==>
                  InStock(fs) + Total(fs.g, ps, views, calls, |results|) >= old(InStock(fs))
      decreases |calls| - |results|
    {
      var c := calls[|results|];
      if !Proper(fs.fds, fs.wc, c) { return ERR_BAD_DESCRIPTOR, false, results, views; }
      var dst;
      NextTotal(fs.g, ps, views, calls, |results|);
      st, dst, dropped := DoCall(fs, c, n, ps, room);
      TotalStays(fs.g, ps, views, Seen(fs), calls, |results| + 1);
      if st != OK || dropped { return; }
      results, views := results + [dst], views + [Seen(fs)];
    }
  }

  /** The call is about file `id`: it truncates it, writes to it, removes it or gives it another name. */
  ghost predicate Concerns(v: View, c: Call, id: half) {
    match c
    case Open(_, path, flags, _) => flags.trunc && IsCalled(v, id, path)
    case Write(f, _, _) => f < |v.users| && v.users[f].Opened? && v.users[f].id == id
    case Remove(_, path) => IsCalled(v, id, path)
    case Rename(_, path, _) => IsCalled(v, id, path)
    case _ => false
  }

  /** In a run that is not about a file, the file stays what it was. */
  lemma {:induction false} FileStays(views: seq<View>, calls: seq<Call>, results: seq<seq<byte>>, id: half)
    requires Runs(views, calls, results) && id in views[0].files
    requires forall i :: 0 <= i < |results| ==> !Concerns(views[i], calls[i], id)
    ensures id in views[|results|].files && views[|results|].files[id] == views[0].files[id]
    decreases |results|
  {
    var n := |results|;
    if n > 0 {
      FileStays(views[..n], calls, results[..n - 1], id);
      assert Does(views[n - 1], calls[n - 1], results[n - 1], views[n]);
    }
  }

  ghost predicate Unique(v: View) {
    forall x, y :: x in v.files && y in v.files && SameName(v.files[x].name, v.files[y].name) ==> x == y
  }

  /** Names stay unique. */
  lemma {:induction false} NamesUnique(views: seq<View>, calls: seq<Call>, results: seq<seq<byte>>)
    requires Runs(views, calls, results) && Unique(views[0])
    ensures Unique(views[|results|])
    decreases |results|
  {
    var n := |results|;
    if n > 0 {
      NamesUnique(views[..n], calls, results[..n - 1]);
      UniqueStep(views[n - 1], calls[n - 1], results[n - 1], views[n]);
    }
  }

  lemma UniqueStep(v: View, c: Call, dst: seq<byte>, v': View)
    requires Does(v, c, dst, v') && Unique(v)
    ensures Unique(v')
  {
    hide SameName, Padded, Spliced, WriteCache.ReadFrom;
    match c {
      case Creat(path) => { var id :| Added(v, v', id, path); AddedUnique(v, v', id, path); }
      case Open(f, path, flags, _) => {
        var id :| v'.users[f] == Opened(id, 0, flags) &&
                  if !IsCalled(v, id, path) then flags.creat && Added(v, v', id, path)
                  else if flags.trunc then Emptied(v, v', id) else v'.files == v.files;
        if !IsCalled(v, id, path) { AddedUnique(v, v', id, path); }
      }
      case Rename(f, path, to) => {
        var id :| IsCalled(v, id, path) && Unused(v, to) && v'.files == v.files[id := v.files[id].(name := Padded(to))];
        assert forall x :: x in v.files ==> !IsCalled(v, x, to);
        SameNameBoth(v, to);
      }
      case _ =>
    }
  }

  lemma AddedUnique(v: View, v': View, id: half, path: seq<byte>)
    requires Added(v, v', id, path) && Unique(v)
    ensures Unique(v')
  {
    assert forall x :: x in v.files ==> !IsCalled(v, x, path);
    SameNameBoth(v, path);
  }

  lemma SameNameBoth(v: View, path: seq<byte>)
    requires forall x :: x in v.files ==> !IsCalled(v, x, path)
    ensures forall x :: x in v.files ==> !SameName(v.files[x].name, Padded(path)) && !SameName(Padded(path), v.files[x].name)
  {
  }

  /** What is written through one descriptor is what another one that stands where it went reads next. */
  lemma ReadAfterWrite(v: View, w: Call, v1: View, r: Call, dst: seq<byte>, v2: View)
    requires w.Write? && r.Read? && w.f != r.f && r.len == |w.buf| && Does(v, w, [], v1) && Does(v1, r, dst, v2)
    requires r.f < |v.users| && v.users[r.f].Opened? && v.users[r.f].id == v.users[w.f].id
    requires v.users[r.f].offset <= |v.files[v.users[r.f].id].bytes|
    requires v.users[r.f].offset == if v.users[w.f].flags.append then |v.files[v.users[w.f].id].bytes| else v.users[w.f].offset
    ensures dst == w.buf
  {
    var was, at := v.files[v.users[r.f].id].bytes, v.users[r.f].offset;
    var now := Splice(was, at, w.buf);
    assert v1.files[v.users[r.f].id].bytes == now;
    assert now[at..at + |w.buf|] == w.buf;
  }
}
