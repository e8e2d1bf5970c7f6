/** The read cache in front of the flash: spiffs_phys_rd, spiffs_phys_wr, and the slots behind them. */
module ReadCache {
  import opened Nor
  import opened Chunks
  import FlashDriver

  /** A cache slot: in use or free; a write page (kept elsewhere) or a copy of flash page pix. */
  datatype Slot = Slot(used: bool, wr: bool, dirty: bool, thru: bool, pix: nat, mem: seq<byte>, last: nat)

  datatype Op = Delete | WriteThrough | Plain

  /** What a cell region holds after a write. */
  function Anded(was: seq<byte>, src: seq<byte>): (r: seq<byte>)
    requires |was| == |src|
    ensures |r| == |was|
  {
    AndBytes(was, src)
  }

  /** The write pulls bits to zero, or leaves them, and sets none. */
  ghost predicate ClearsOnly(was: seq<byte>, src: seq<byte>) {
    |was| == |src| && forall i :: 0 <= i < |was| ==> AndByte(was[i], src[i]) == src[i]
  }

  /** `d` with `src` put at `at`. */
  function Patched(d: seq<byte>, at: nat, src: seq<byte>): (r: seq<byte>)
    requires at + |src| <= |d|
    ensures |r| == |d|
    ensures forall i :: 0 <= i < |r| ==> r[i] == if at <= i < at + |src| then src[i - at] else d[i]
  {
    d[..at] + src + d[at + |src|..]
  }

  ghost predicate IsRead(s: Slot) { s.used && !s.wr }

  /** Slot s holds what flash page s.pix holds. */
  ghost predicate Agrees(flash: seq<byte>, psz: nat, s: Slot) {
    var at := Start(psz, s.pix);
    s.thru && !s.dirty && |s.mem| == psz && at + psz <= |flash| && s.mem == flash[at..at + psz]
  }

  /** Every copy agrees with the flash, but perhaps those of pages from lo up to hi; no page has two copies. */
  ghost predicate CoherentBut(flash: seq<byte>, psz: nat, slots: seq<Slot>, lo: nat, hi: nat) {
    && (forall i :: 0 <= i < |slots| && IsRead(slots[i]) && !(lo <= slots[i].pix < hi) ==> Agrees(flash, psz, slots[i]))
    && (forall i :: 0 <= i < |slots| && IsRead(slots[i]) ==> |slots[i].mem| == psz && slots[i].thru && !slots[i].dirty)
    && (forall i, j :: 0 <= i < j < |slots| && IsRead(slots[i]) && IsRead(slots[j]) ==> slots[i].pix != slots[j].pix)
  }

  ghost predicate Coherent(flash: seq<byte>, psz: nat, slots: seq<Slot>) {
    CoherentBut(flash, psz, slots, 0, 0)
  }

  /** Write pages are not touched. */
  ghost predicate WritePagesKept(slots: seq<Slot>, slots': seq<Slot>) {
    && |slots'| == |slots|
    && forall i :: 0 <= i < |slots| && slots[i].used && slots[i].wr ==> slots'[i] == slots[i]
  }

  /** No copy is newer than the clock. */
  ghost predicate Aged(slots: seq<Slot>, now: nat) { forall i :: 0 <= i < |slots| && IsRead(slots[i]) ==> slots[i].last <= now }

  function Freed(s: Slot): Slot { s.(used := false, wr := false, dirty := false, thru := false) }

  ghost predicate AnyFree(slots: seq<Slot>) { exists i :: 0 <= i < |slots| && !slots[i].used }

  /** Slot c holds a copy, and none has not been accessed for longer. */
  ghost predicate Oldest(slots: seq<Slot>, c: nat) {
    && c < |slots| && IsRead(slots[c])
    && forall i :: 0 <= i < |slots| && IsRead(slots[i]) ==> slots[c].last <= slots[i].last
  }

  /** Slot c is made free: no other was, and it held an oldest copy, older than the clock; or there is no c and nothing to do. */
  ghost predicate MadeRoom(slots: seq<Slot>, slots': seq<Slot>, c: nat, now: nat) {
    if c < |slots| then !AnyFree(slots) && Oldest(slots, c) && slots[c].last < now && slots' == slots[c := Freed(slots[c])]
    else slots' == slots && (AnyFree(slots) || forall i :: 0 <= i < |slots| && IsRead(slots[i]) ==> slots[i].last >= now)
  }

  /** Slot ix, the first that was free, holds a copy of the page; or there was none. */
  ghost predicate Filled(slots: seq<Slot>, slots': seq<Slot>, ix: nat, pix: nat, mem: seq<byte>, now: nat) {
    && (forall j :: 0 <= j < ix && j < |slots| ==> slots[j].used)
    && if ix < |slots| then !slots[ix].used && slots' == slots[ix := Slot(true, false, false, true, pix, mem, now)]
       else slots' == slots
  }

  /** What a read leaves in the slots: the copy in slot ix is marked as accessed; or, unless second level lookup functions are
      reading, slot c is made free and slot ix filled. */
  ghost predicate AfterRead(slots: seq<Slot>, slots': seq<Slot>, lu2: bool, pix: nat, mem: seq<byte>, now: nat, c: nat, ix: nat) {
    if HasCopy(slots, pix) then
      ix < |slots| && IsRead(slots[ix]) && slots[ix].pix == pix && slots' == slots[ix := slots[ix].(last := now)]
    else if lu2 then slots' == slots
    else exists mid :: MadeRoom(slots, mid, c, now) && Filled(mid, slots', ix, pix, mem, now)
  }

  /** Slot i holds the same page as before, if any. */
  ghost predicate SamePage(s: Slot, s': Slot) { s' == s.(last := s'.last) }

  /** Slot i was an oldest copy when no slot was free, and is the place of the new copy. */
  ghost predicate Replaced(slots: seq<Slot>, slots': seq<Slot>, i: nat, pix: nat) {
    && !AnyFree(slots) && Oldest(slots, i) && |slots'| == |slots| && IsRead(slots'[i]) && slots'[i].pix == pix
    && forall j :: 0 <= j < |slots| && j != i ==> slots'[j] == slots[j]
  }

  /** A miss makes a copy, unless every slot is a write page. */
  lemma MissIsCached(slots: seq<Slot>, mid: seq<Slot>, slots': seq<Slot>, pix: nat, mem: seq<byte>, now: nat, c: nat, ix: nat)
    requires !HasCopy(slots, pix) && MadeRoom(slots, mid, c, now) && Filled(mid, slots', ix, pix, mem, now) && Aged(slots, now) && 0 < now
    requires forall i :: 0 <= i < |slots| && IsRead(slots[i]) ==> slots[i].last < now
    ensures |slots'| == |slots|
    ensures HasCopy(slots', pix) <==> exists i :: 0 <= i < |slots| && !(slots[i].used && slots[i].wr)
    ensures (forall i :: 0 <= i < |slots| && slots[i].used ==> SamePage(slots[i], slots'[i])) || Replaced(slots, slots', c, pix)
  {
    if c < |slots| { assert !mid[c].used; }
    if ix < |mid| {
      assert IsRead(slots'[ix]) && slots'[ix].pix == pix;
      assert !(slots[ix].used && slots[ix].wr);
    }
  }

  /** So a page that has been read has a copy, unless second level lookup functions have read it first, or every slot is a write
      page; and at most one copy of another page has made way for it, an oldest one, and only if no slot was free. */
  lemma ReadIsCached(slots: seq<Slot>, slots': seq<Slot>, lu2: bool, pix: nat, mem: seq<byte>, now: nat, c: nat, ix: nat)
    requires AfterRead(slots, slots', lu2, pix, mem, now, c, ix) && 0 < now
    requires forall i :: 0 <= i < |slots| && IsRead(slots[i]) ==> slots[i].last < now
    ensures |slots'| == |slots|
    ensures HasCopy(slots', pix) <==>
              HasCopy(slots, pix) || (!lu2 && exists i :: 0 <= i < |slots| && !(slots[i].used && slots[i].wr))
    ensures (forall i :: 0 <= i < |slots| && slots[i].used ==> SamePage(slots[i], slots'[i])) || Replaced(slots, slots', c, pix)
  {
    hide MadeRoom, Filled;
    if HasCopy(slots, pix) {
      assert IsRead(slots'[ix]) && slots'[ix].pix == pix;
    } else if !lu2 {
      var mid :| MadeRoom(slots, mid, c, now) && Filled(mid, slots', ix, pix, mem, now);
      MissIsCached(slots, mid, slots', pix, mem, now, c, ix);
    }
  }

  lemma StillNone(slots: seq<Slot>, mid: seq<Slot>, c: nat, now: nat, pix: nat)
    requires MadeRoom(slots, mid, c, now) && !HasCopy(slots, pix)
    ensures forall i :: 0 <= i < |mid| ==> !(IsRead(mid[i]) && mid[i].pix == pix)
  {
    forall i | 0 <= i < |mid| && IsRead(mid[i]) ensures mid[i].pix != pix { assert mid[i] == slots[i]; }
  }

  /** What a write leaves in the slot with the copy of the page. */
  function AfterWrite(s: Slot, op: Op, isLu: bool, off: nat, src: seq<byte>, now: nat): Slot
    requires off + |src| <= |s.mem|
  {
    if op == WriteThrough then s.(last := now)
    else if op == Delete && !isLu then Freed(s.(last := now))
    else s.(mem := Patched(s.mem, off, src), last := now + 1)
  }

  /** Two different pages do not overlap. */
  lemma Apart(psz: nat, p: nat, q: nat)
    requires p != q
    ensures Start(psz, p) + psz <= Start(psz, q) || Start(psz, q) + psz <= Start(psz, p)
  {
    if p < q { StartMono(psz, p, q); } else { StartMono(psz, q, p); }
  }

  /** A flash write inside one page leaves the copies of all other pages right. */
  lemma OthersAgree(flash: seq<byte>, flash': seq<byte>, psz: nat, pix: nat, s: Slot)
    requires |flash'| == |flash| && s.pix != pix && Agrees(flash, psz, s)
    requires forall i :: 0 <= i < |flash| && !(Start(psz, pix) <= i < Start(psz, pix) + psz) ==> flash'[i] == flash[i]
    ensures Agrees(flash', psz, s)
  {
    Apart(psz, s.pix, pix);
    var at := Start(psz, s.pix);
    assert forall i :: at <= i < at + psz ==> flash'[i] == flash[i];
  }

  /** Part of a copied page is the corresponding part of the flash. */
  lemma PartOfPage(flash: seq<byte>, at: nat, psz: nat, off: nat, len: nat)
    requires at + psz <= |flash| && off + len <= psz
    ensures flash[at..at + psz][off..off + len] == flash[at + off..at + off + len]
  {
    var page := flash[at..at + psz];
    assert forall i :: off <= i < off + len ==> page[i] == flash[at + i];
  }

  ghost predicate HasCopy(slots: seq<Slot>, pix: nat) {
    exists i :: 0 <= i < |slots| && IsRead(slots[i]) && slots[i].pix == pix
  }

  /** What the flash holds after a write of src at addr. */
  ghost predicate FlashAfter(was: seq<byte>, now: seq<byte>, addr: nat, src: seq<byte>) {
    && |now| == |was| && addr + |src| <= |was|
    && forall i :: 0 <= i < |was| ==>
                     now[i] == if addr <= i < addr + |src| then AndByte(was[i], src[i - addr]) else was[i]
  }

  /** Copies of other pages than the one that is written stay right. */
  lemma WrittenAround(was: seq<byte>, now: seq<byte>, psz: nat, slots: seq<Slot>, pix: nat, addr: nat, src: seq<byte>)
    requires CoherentBut(was, psz, slots, pix, pix + 1) && FlashAfter(was, now, addr, src)
    requires Start(psz, pix) <= addr && addr + |src| <= Start(psz, pix) + psz
    ensures CoherentBut(now, psz, slots, pix, pix + 1)
    ensures !HasCopy(slots, pix) ==> Coherent(now, psz, slots)
  {
    forall i | 0 <= i < |slots| && IsRead(slots[i]) && slots[i].pix != pix ensures Agrees(now, psz, slots[i]) {
      OthersAgree(was, now, psz, pix, slots[i]);
    }
  }

  /** Two pages that agree outside a region are equal exactly if the regions are. */
  lemma PagesEqual(mem: seq<byte>, page: seq<byte>, off: nat, a: seq<byte>, b: seq<byte>)
    requires |mem| == |page| && |a| == |b| && off + |a| <= |mem|
    requires forall i :: 0 <= i < |mem| && !(off <= i < off + |a|) ==> mem[i] == page[i]
    requires forall i :: 0 <= i < |a| ==> mem[off + i] == a[i] && page[off + i] == b[i]
    ensures mem == page <==> a == b
  {
    if mem == page {
      forall i | 0 <= i < |a| ensures a[i] == b[i] { assert mem[off + i] == page[off + i]; }
    } else if a == b {
      forall i | 0 <= i < |mem| ensures mem[i] == page[i] {
        if off <= i < off + |a| { assert mem[off + (i - off)] == a[i - off]; }
      }
    }
  }

  /** The page after a write, by the page and the region before it. */
  lemma WrittenPage(was: seq<byte>, now: seq<byte>, at: nat, psz: nat, off: nat, src: seq<byte>)
    requires FlashAfter(was, now, at + off, src) && off + |src| <= psz && at + psz <= |was|
    ensures var page, mem, both := now[at..at + psz], was[at..at + psz], Anded(was[at + off..at + off + |src|], src);
            && (forall i :: 0 <= i < psz && !(off <= i < off + |src|) ==> page[i] == mem[i])
            && (forall i :: 0 <= i < |src| ==> page[off + i] == both[i] && mem[off + i] == was[at + off..at + off + |src|][i])
  {
    var page, mem, region := now[at..at + psz], was[at..at + psz], was[at + off..at + off + |src|];
    var both := Anded(region, src);
    forall i | 0 <= i < |src| ensures page[off + i] == both[i] && mem[off + i] == region[i] {
      assert now[at + (off + i)] == AndByte(was[at + off + i], src[i]);
    }
  }

  /** A copy that is updated along with the flash stays right exactly when the write only clears bits. */
  lemma UpdatedAgrees(was: seq<byte>, now: seq<byte>, psz: nat, s: Slot, off: nat, addr: nat, src: seq<byte>)
    requires Agrees(was, psz, s) && FlashAfter(was, now, addr, src) && addr == Start(psz, s.pix) + off && off + |src| <= psz
    ensures Agrees(now, psz, s.(mem := Patched(s.mem, off, src))) <==> ClearsOnly(was[addr..addr + |src|], src)
  {
    hide Start, Anded;
    var at := Start(psz, s.pix);
    WrittenPage(was, now, at, psz, off, src);
    PagesEqual(Patched(s.mem, off, src), now[at..at + psz], off, src, Anded(was[addr..addr + |src|], src));
    ClearsIs(was[addr..addr + |src|], src);
  }

  lemma ClearsIs(was: seq<byte>, src: seq<byte>)
    requires |was| == |src|
    ensures ClearsOnly(was, src) <==> src == Anded(was, src)
  {
    assert forall i :: 0 <= i < |src| ==> Anded(was, src)[i] == AndByte(was[i], src[i]);
  }

  /** A copy that is by-passed stays right exactly when the write changes nothing. */
  lemma BypassedAgrees(was: seq<byte>, now: seq<byte>, psz: nat, s: Slot, off: nat, addr: nat, src: seq<byte>)
    requires Agrees(was, psz, s) && FlashAfter(was, now, addr, src) && addr == Start(psz, s.pix) + off && off + |src| <= psz
    ensures Agrees(now, psz, s) <==> Anded(was[addr..addr + |src|], src) == was[addr..addr + |src|]
  {
    hide Start, Anded;
    var at := Start(psz, s.pix);
    WrittenPage(was, now, at, psz, off, src);
    PagesEqual(s.mem, now[at..at + psz], off, was[addr..addr + |src|], Anded(was[addr..addr + |src|], src));
  }

  /** With one copy of the page written, everything hangs on that copy. */
  lemma HangsOn(now: seq<byte>, psz: nat, slots: seq<Slot>, ix: nat)
    requires ix < |slots| && IsRead(slots[ix]) && CoherentBut(now, psz, slots, slots[ix].pix, slots[ix].pix + 1)
    ensures Coherent(now, psz, slots) <==> Agrees(now, psz, slots[ix])
  {
  }

  /** An erase of part of the flash, and what is written there right after it. */
  method Renew(flash: array<byte>, at: nat, content: seq<byte>)
    requires at + |content| <= flash.Length
    modifies flash
    ensures flash[..] == Patched(old(flash[..]), at, content)
  {
    var n := 0;
    while n < |content|
      invariant n <= |content|
      invariant forall i :: 0 <= i < flash.Length ==> flash[i] == if at <= i < at + n then content[i - at] else old(flash[i])
    {
      flash[at + n] := content[n];
      n := n + 1;
    }
  }

  class Cache {
    const psz: nat
    const flash: array<byte>
    var slots: seq<Slot>
    var lastAccess: nat

    ghost predicate Valid()
      reads this, flash
    {
      0 < psz && Coherent(flash[..], psz, slots) && Aged(slots, lastAccess)
    }

    constructor (psz: nat, flash: array<byte>, n: nat)
      requires 0 < psz
      ensures Valid() && this.psz == psz && this.flash == flash && |slots| == n
    {
      this.psz, this.flash := psz, flash;
      slots := seq(n, i => Slot(false, false, false, false, 0, [], 0));
      lastAccess := 0;
    }

    /** spiffs_cache_page_get: the slot with a copy of the page, or |slots|; a hit is marked as accessed. */
    method Get(pix: nat) returns (ix: nat)
      modifies this`slots
      ensures |slots| == |old(slots)| && ix <= |slots|
      ensures ix < |slots| ==> IsRead(old(slots)[ix]) && old(slots)[ix].pix == pix
      ensures ix < |slots| ==> slots == old(slots)[ix := old(slots)[ix].(last := lastAccess)]
      ensures ix == |slots| ==> slots == old(slots) && forall i :: 0 <= i < |slots| ==> !(IsRead(slots[i]) && slots[i].pix == pix)
    {
      ix := 0;
      while ix < |slots|
        invariant ix <= |slots| && slots == old(slots)
        invariant forall i :: 0 <= i < ix ==> !(IsRead(slots[i]) && slots[i].pix == pix)
      {
        if slots[ix].used && !slots[ix].wr && slots[ix].pix == pix {
          slots := slots[ix := slots[ix].(last := lastAccess)];
          return;
        }
        ix := ix + 1;
      }
    }

    /** spiffs_cache_page_free; a dirty copy would be written back, but copies are never dirty. */
    method Free(ix: nat, writeBack: bool)
      requires Valid() && ix < |slots| && slots[ix].used && !slots[ix].wr
      modifies this`slots
      ensures Valid() && slots == old(slots)[ix := Freed(old(slots)[ix])]
    {
      slots := slots[ix := slots[ix].(used := false, wr := false, dirty := false, thru := false)];
    }

    /** spiffs_cache_page_remove_oldest for read pages: if no slot is free, the copy that was not accessed for
        the longest time goes; write pages stay. */
    method RemoveOldest() returns (ghost c: nat)
      requires Valid()
      modifies this`slots
      ensures Valid() && WritePagesKept(old(slots), slots) && MadeRoom(old(slots), slots, c, lastAccess)
    {
      var i: nat, cand: nat, oldest: int := 0, |slots|, 0;
      while i < |slots| && slots[i].used
        invariant i <= |slots| && forall j :: 0 <= j < i ==> slots[j].used
      {
        i := i + 1;
      }
      if i < |slots| {
        assert !slots[i].used;
        return |slots|;
      }
      i := 0;
      while i < |slots|
        invariant i <= |slots| && slots == old(slots) && cand <= |slots| && (cand == |slots| ==> oldest == 0)
        invariant cand < |slots| ==> IsRead(slots[cand]) && slots[cand].used && oldest == lastAccess - slots[cand].last > 0
        invariant forall j :: 0 <= j < i && IsRead(slots[j]) ==> lastAccess - slots[j].last <= oldest
      {
        if lastAccess - slots[i].last > oldest && !slots[i].wr {
          oldest, cand := lastAccess - slots[i].last, i;
        }
        i := i + 1;
      }
      c := cand;
      if cand < |slots| { Free(cand, true); }
    }

    /** The first free slot, or |slots|. */
    method Allocate() returns (ix: nat)
      ensures ix <= |slots| && (ix < |slots| ==> !slots[ix].used) && forall i :: 0 <= i < ix ==> slots[i].used
    {
      ix := 0;
      while ix < |slots| && slots[ix].used
        invariant ix <= |slots| && forall i :: 0 <= i < ix ==> slots[i].used
      {
        ix := ix + 1;
      }
    }

    /** spiffs_phys_rd within one page: a read gives what is on the flash, cached or not. */
    method Rd(lu2: bool, addr: nat, len: nat) returns (dst: seq<byte>, ghost c: nat, ghost ix: nat)
      requires Valid() && addr % psz + len <= psz && addr / psz * psz + psz <= flash.Length
      modifies this
      ensures Valid() && addr + len <= flash.Length && dst == flash[addr..addr + len] && WritePagesKept(old(slots), slots)
      ensures lastAccess == old(lastAccess) + 1
      ensures AfterRead(old(slots), slots, lu2, addr / psz, flash[addr - addr % psz..addr - addr % psz + psz], lastAccess, c, ix)
    {
      StartOfOffset(psz, addr);
      StartIsProduct(psz, addr / psz);
      dst, c, ix := RdPage(lu2, addr / psz, addr % psz, addr, len);
    }

    lemma ValidShape()
      requires Valid()
      ensures 0 < psz && forall i :: 0 <= i < |slots| && IsRead(slots[i]) ==> |slots[i].mem| == psz
    {
    }

    lemma OneCopy(pix: nat)
      requires Valid()
      ensures forall i, j | 0 <= i < j < |slots| && IsRead(slots[i]) && IsRead(slots[j]) :: slots[i].pix != pix || slots[j].pix != pix
    {
    }

    lemma CopyIs(slots0: seq<Slot>, ix: nat)
      requires Coherent(flash[..], psz, slots0) && ix < |slots0| && IsRead(slots0[ix])
      ensures Agrees(flash[..], psz, slots0[ix])
    {
    }

    /** Access times aside, nothing has changed. */
    lemma ValidTouched(slots0: seq<Slot>, ix: nat)
      requires 0 < psz && Coherent(flash[..], psz, slots0) && Aged(slots0, lastAccess)
      requires slots == if ix < |slots0| then slots0[ix := slots0[ix].(last := lastAccess)] else slots0
      ensures Valid()
    {
    }

    method RdPage(lu2: bool, pix: nat, off: nat, addr: nat, len: nat) returns (dst: seq<byte>, ghost c: nat, ghost at: nat)
      requires Valid() && Start(psz, pix) + off == addr && off + len <= psz && Start(psz, pix) + psz <= flash.Length
      modifies this
      ensures Valid() && dst == flash[addr..addr + len] && WritePagesKept(old(slots), slots)
      ensures lastAccess == old(lastAccess) + 1
      ensures AfterRead(old(slots), slots, lu2, pix, flash[addr - off..addr - off + psz], lastAccess, c, at)
    {
      hide CoherentBut, Start, MadeRoom, Filled;
      ValidShape();
      ghost var was := slots;
      var ix := Get(pix);
      c, at := |slots|, ix;
      lastAccess := lastAccess + 1;
      assert HasCopy(was, pix) <==> ix < |slots|;
      if ix < |slots| {
        PartOfPage(flash[..], addr - off, psz, off, len);
        CopyIs(was, ix);
        slots := slots[ix := slots[ix].(last := lastAccess)];
        ValidTouched(was, ix);
        dst := slots[ix].mem[off..off + len];
      } else if lu2 {
        ValidTouched(was, ix);
        dst := flash[addr..addr + len];
      } else {
        ValidTouched(was, ix);
        c := RemoveOldest();
        StillNone(was, slots, c, lastAccess, pix);
        dst, at := Fill(pix, addr, off, len);
      }
    }

    /** A miss: the page is copied into a free slot, if there is one. */
    method Fill(pix: nat, addr: nat, off: nat, len: nat) returns (dst: seq<byte>, ghost into: nat)
      requires Valid() && Start(psz, pix) + off == addr && off + len <= psz && Start(psz, pix) + psz <= flash.Length
      requires forall i :: 0 <= i < |slots| ==> !(IsRead(slots[i]) && slots[i].pix == pix)
      modifies this`slots
      ensures Valid() && dst == flash[addr..addr + len] && WritePagesKept(old(slots), slots)
      ensures Filled(old(slots), slots, into, pix, flash[addr - off..addr - off + psz], lastAccess)
    {
      var ix := Allocate();
      into := ix;
      if ix < |slots| {
        var at := addr - off;
        PartOfPage(flash[..], at, psz, off, len);
        slots := slots[ix := Slot(true, false, false, true, pix, flash[at..at + psz], lastAccess)];
        dst := slots[ix].mem[off..off + len];
      } else {
        dst := flash[addr..addr + len];
      }
    }

    /** The flash below the cache takes a write. */
    method HalWrite(addr: nat, src: seq<byte>)
      requires addr + |src| <= flash.Length
      modifies flash
      ensures FlashAfter(old(flash[..]), flash[..], addr, src)
    {
      FlashDriver.SpiWrite(flash, addr, src);
    }

    /** spiffs_phys_wr within one page.  The flash takes the write in every case.  The cache agrees with it
        afterwards if and only if the page has no copy, or the copy is given up, or is updated by a write that
        only clears bits, or is by-passed by a write that changes nothing. */
    method Wr(op: Op, isLu: bool, addr: nat, src: seq<byte>)
      requires Valid() && addr % psz + |src| <= psz && addr / psz * psz + psz <= flash.Length
      modifies this, flash
      ensures addr + |src| <= flash.Length && FlashAfter(old(flash[..]), flash[..], addr, src)
      ensures WritePagesKept(old(slots), slots)
      ensures Valid() <==> (HasCopy(old(slots), addr / psz) ==>
                              || (op == Delete && !isLu)
                              || (op == WriteThrough && Anded(old(flash[..])[addr..addr + |src|], src) == old(flash[..])[addr..addr + |src|])
                              || (op != WriteThrough && ClearsOnly(old(flash[..])[addr..addr + |src|], src)))
      ensures !HasCopy(old(slots), addr / psz) ==> slots == old(slots)
      ensures forall ix :: 0 <= ix < |old(slots)| && IsRead(old(slots)[ix]) && old(slots)[ix].pix == addr / psz ==>
                             slots == old(slots)[ix := AfterWrite(old(slots)[ix], op, isLu, addr % psz, src, old(lastAccess))]
    {
      StartOfOffset(psz, addr);
      StartIsProduct(psz, addr / psz);
      WrPage(op, isLu, addr / psz, addr % psz, addr, src);
    }

    method WrPage(op: Op, isLu: bool, pix: nat, off: nat, addr: nat, src: seq<byte>)
      requires Valid() && Start(psz, pix) + off == addr && off + |src| <= psz && Start(psz, pix) + psz <= flash.Length
      modifies this, flash
      ensures FlashAfter(old(flash[..]), flash[..], addr, src) && WritePagesKept(old(slots), slots)
      ensures Valid() <==> (HasCopy(old(slots), pix) ==>
                              || (op == Delete && !isLu)
                              || (op == WriteThrough && Anded(old(flash[..])[addr..addr + |src|], src) == old(flash[..])[addr..addr + |src|])
                              || (op != WriteThrough && ClearsOnly(old(flash[..])[addr..addr + |src|], src)))
      ensures !HasCopy(old(slots), pix) ==> slots == old(slots)
      ensures forall ix :: 0 <= ix < |old(slots)| && IsRead(old(slots)[ix]) && old(slots)[ix].pix == pix ==>
                             slots == old(slots)[ix := AfterWrite(old(slots)[ix], op, isLu, off, src, old(lastAccess))]
    {
      hide CoherentBut, FlashAfter, ClearsOnly, Anded, Start, Agrees;
      ValidShape();
      OneCopy(pix);
      ghost var was := slots;
      var ix := Get(pix);
      assert HasCopy(was, pix) <==> ix < |slots|;
      if ix < |slots| { ValidTouched(was, ix); }
      if ix < |slots| && op != WriteThrough {
        if op == Delete && !isLu {
          Free(ix, false);
          WriteFlash(pix, off, addr, src, ix, false);
        } else {
          UpdateCopy(ix, pix, off, addr, src);
        }
      } else {
        WriteFlash(pix, off, addr, src, ix, ix < |slots|);
      }
    }

    /** Only the flash is written; `copied` says whether slot ix holds a copy of the page. */
    method WriteFlash(pix: nat, off: nat, addr: nat, src: seq<byte>, ghost ix: nat, ghost copied: bool)
      requires Valid() && Start(psz, pix) + off == addr && off + |src| <= psz && Start(psz, pix) + psz <= flash.Length
      requires if copied then ix < |slots| && IsRead(slots[ix]) && slots[ix].pix == pix else !HasCopy(slots, pix)
      modifies flash
      ensures FlashAfter(old(flash[..]), flash[..], addr, src)
      ensures Valid() <==> (copied ==> Anded(old(flash[..])[addr..addr + |src|], src) == old(flash[..])[addr..addr + |src|])
    {
      ghost var was := flash[..];
      HalWrite(addr, src);
      WrittenAround(was, flash[..], psz, slots, pix, addr, src);
      if copied {
        BypassedAgrees(was, flash[..], psz, slots[ix], off, addr, src);
        HangsOn(flash[..], psz, slots, ix);
      }
    }

    /** The copy and the flash are written. */
    method UpdateCopy(ix: nat, pix: nat, off: nat, addr: nat, src: seq<byte>)
      requires Valid() && ix < |slots| && IsRead(slots[ix]) && slots[ix].pix == pix
      requires Start(psz, pix) + off == addr && off + |src| <= psz && Start(psz, pix) + psz <= flash.Length
      modifies this, flash
      ensures FlashAfter(old(flash[..]), flash[..], addr, src) && WritePagesKept(old(slots), slots)
      ensures slots == old(slots)[ix := old(slots)[ix].(mem := Patched(old(slots)[ix].mem, off, src), last := old(lastAccess) + 1)]
      ensures Valid() <==> ClearsOnly(old(flash[..])[addr..addr + |src|], src)
    {
      ghost var was, s := flash[..], slots[ix];
      var mem := Patched(slots[ix].mem, off, src);
      lastAccess := lastAccess + 1;
      slots := slots[ix := slots[ix].(mem := mem, last := lastAccess)];
      HalWrite(addr, src);
      UpdatedAgrees(was, flash[..], psz, s.(last := lastAccess), off, addr, src);
      WrittenAround(was, flash[..], psz, slots, pix, addr, src);
      HangsOn(flash[..], psz, slots, ix);
    }

    /** spiffs_cache_drop_page. */
    method Drop(pix: nat, ghost hi: nat)
      requires 0 < psz && CoherentBut(flash[..], psz, slots, pix, hi) && pix < hi && Aged(slots, lastAccess)
      modifies this`slots
      ensures CoherentBut(flash[..], psz, slots, pix + 1, hi) && WritePagesKept(old(slots), slots) && Aged(slots, lastAccess)
      ensures |slots| == |old(slots)|
      ensures forall i :: 0 <= i < |slots| ==>
                            if IsRead(old(slots)[i]) && old(slots)[i].pix == pix then !slots[i].used else slots[i] == old(slots)[i]
    {
      var ix := Get(pix);
      if ix < |slots| {
        slots := slots[ix := slots[ix].(used := false, wr := false, dirty := false, thru := false)];
      }
    }

    /** spiffs_gc_erase_block on the pages from `first` up to `end`: whatever the erase, and the writes by-passing
        the cache that follow it, leave in the block (`content`), the cache agrees with the flash again once
        the pages of the block have been dropped. */
    method EraseAndDrop(first: nat, end: nat, content: seq<byte>)
      requires Valid() && first <= end && Start(psz, end) <= flash.Length && |content| == Start(psz, end) - Start(psz, first)
      modifies this`slots, flash
      ensures Valid() && WritePagesKept(old(slots), slots)
      ensures flash[..] == Patched(old(flash[..]), Start(psz, first), content)
      ensures forall i :: 0 <= i < |slots| ==>
                            if IsRead(old(slots)[i]) && first <= old(slots)[i].pix < end then !slots[i].used else slots[i] == old(slots)[i]
    {
      ghost var was := flash[..];
      Renew(flash, Start(psz, first), content);
      BlockWritten(was, flash[..], psz, slots, first, end);
      var pix := first;
      while pix < end
        invariant first <= pix <= end && CoherentBut(flash[..], psz, slots, pix, end)
        invariant flash[..] == Patched(was, Start(psz, first), content)
        invariant WritePagesKept(old(slots), slots) && Aged(slots, lastAccess)
        invariant forall i :: 0 <= i < |slots| ==>
                                if IsRead(old(slots)[i]) && first <= old(slots)[i].pix < pix then !slots[i].used else slots[i] == old(slots)[i]
      {
        Drop(pix, end);
        pix := pix + 1;
      }
    }
  }

  /** Changes inside a block leave the copies of all other pages right. */
  lemma BlockWritten(was: seq<byte>, now: seq<byte>, psz: nat, slots: seq<Slot>, first: nat, end: nat)
    requires Coherent(was, psz, slots) && |now| == |was| && first <= end
    requires forall i :: 0 <= i < |was| && !(Start(psz, first) <= i < Start(psz, end)) ==> now[i] == was[i]
    ensures CoherentBut(now, psz, slots, first, end)
  {
    forall i | 0 <= i < |slots| && IsRead(slots[i]) && !(first <= slots[i].pix < end) ensures Agrees(now, psz, slots[i]) {
      var s := slots[i];
      var at := Start(psz, s.pix);
      if s.pix < first { StartMono(psz, s.pix, first); } else { StartMono(psz, end, s.pix); }
      assert forall k :: at <= k < at + psz ==> now[k] == was[k];
    }
  }
}
