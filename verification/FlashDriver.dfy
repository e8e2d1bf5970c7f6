/** The flash access of the file system: esp_spiffs_write and esp_spiffs_erase, on top of 4-byte aligned
    reads and writes of the flash chip. */
module FlashDriver {
  import opened Nor
  import opened Layout

  const ALIGN: nat := 4
  const PAGE: nat := 256
  const SECTOR: nat := 4096

  /** An aligned write of the chip: every cell ends up with the AND of what it held and what is written. */
  method SpiWrite(flash: array<byte>, addr: nat, buf: seq<byte>)
    requires addr + |buf| <= flash.Length
    modifies flash
    ensures forall i :: 0 <= i < flash.Length ==>
                          flash[i] == if addr <= i < addr + |buf| then AndByte(old(flash[i]), buf[i - addr]) else old(flash[i])
  {
    var n := 0;
    while n < |buf|
      invariant n <= |buf|
      invariant forall i :: 0 <= i < flash.Length ==>
                              flash[i] == if addr <= i < addr + n then AndByte(old(flash[i]), buf[i - addr]) else old(flash[i])
    {
      flash[addr + n] := AndByte(flash[addr + n], buf[n]);
      n := n + 1;
    }
  }

  /** Where the file system may write: the driver's own boundary check. */
  predicate InBounds(fsStart: nat, fsEnd: nat, addr: nat, size: nat) {
    var start := addr / ALIGN * ALIGN;
    fsStart <= start < fsEnd && start + size / ALIGN * ALIGN <= fsEnd
  }

  /** The check rounds the length down, so it lets a range through that ends up to 6 bytes behind the file system; for
      aligned addresses and lengths it is exact. */
  lemma BoundsSlack(fsStart: nat, fsEnd: nat, addr: nat, size: nat)
    requires InBounds(fsStart, fsEnd, addr, size)
    ensures fsStart <= addr && addr + size <= fsEnd + 6
    ensures addr % ALIGN == 0 && size % ALIGN == 0 ==> addr + size <= fsEnd
  {
    assert addr == addr / ALIGN * ALIGN + addr % ALIGN && size == size / ALIGN * ALIGN + size % ALIGN;
  }

  /** Which of the ranges that pass the check end behind a file system with an aligned end: those whose whole words reach
      its end and that have bytes left over, and those whose whole words end one word before it and that have more than
      four left over. */
  lemma BoundsExact(fsStart: nat, fsEnd: nat, addr: nat, size: nat)
    requires InBounds(fsStart, fsEnd, addr, size) && fsEnd % ALIGN == 0
    ensures var gap, rest := fsEnd - addr / ALIGN * ALIGN - size / ALIGN * ALIGN, addr % ALIGN + size % ALIGN;
            addr + size > fsEnd <==> (gap == 0 && rest > 0) || (gap == ALIGN && rest > ALIGN)
  {
    assert addr == addr / ALIGN * ALIGN + addr % ALIGN && size == size / ALIGN * ALIGN + size % ALIGN;
    var gap := fsEnd / ALIGN - addr / ALIGN - size / ALIGN;
    assert fsEnd - addr / ALIGN * ALIGN - size / ALIGN * ALIGN == ALIGN * gap;
  }

  /** Seven bytes at the last address of the file system pass, and end six bytes behind it. */
  lemma SlackReached(fsStart: nat, fsEnd: nat)
    requires fsEnd % ALIGN == 0 && fsStart + ALIGN <= fsEnd
    ensures InBounds(fsStart, fsEnd, fsEnd - 1, 7) && fsEnd - 1 + 7 == fsEnd + 6
  {
    assert fsEnd - 1 == (fsEnd / ALIGN - 1) * ALIGN + 3;
    DivModUnique(fsEnd - 1, ALIGN, fsEnd / ALIGN - 1, 3);
  }

  /** What the flash holds after the first `done` bytes of src have been written at addr. */
  ghost predicate WrittenUpTo(was: seq<byte>, now: seq<byte>, addr: nat, src: seq<byte>, done: nat) {
    && |now| == |was| && done <= |src| && addr + |src| <= |was|
    && forall i :: 0 <= i < |was| ==> now[i] == if addr <= i < addr + done then AndByte(was[i], src[i - addr]) else was[i]
  }

  /** Reading a page from the chip, putting the bytes that are due over it, and writing it back. */
  method WriteChunk(flash: array<byte>, start: nat, skip: nat, part: seq<byte>)
    requires start + PAGE <= flash.Length && skip + |part| <= PAGE
    modifies flash
    ensures forall i :: 0 <= i < flash.Length ==>
                          flash[i] == if start + skip <= i < start + skip + |part|
                                      then AndByte(old(flash[i]), part[i - (start + skip)]) else old(flash[i])
  {
    var buffer := flash[start..start + PAGE];
    buffer := buffer[..skip] + part + buffer[skip + |part|..];
    ghost var was := flash[..];
    SpiWrite(flash, start, buffer);
    forall i | 0 <= i < flash.Length
      ensures flash[i] == if start + skip <= i < start + skip + |part|
                          then AndByte(was[i], part[i - (start + skip)]) else was[i]
    {
      AndSelf(was[i]);
    }
  }

  /** esp_spiffs_write: at any address and for any length, each byte of the range becomes the AND of what it
      was and the byte written to it, and every other byte of the chip stays as it is. */
  method EspWrite(flash: array<byte>, fsStart: nat, fsEnd: nat, addr: nat, src: seq<byte>) returns (ok: bool)
    requires fsEnd + PAGE + 2 * ALIGN <= flash.Length && addr + |src| <= flash.Length
    modifies flash
    ensures ok <==> InBounds(fsStart, fsEnd, addr, |src|)
    ensures !ok ==> flash[..] == old(flash[..])
    ensures ok ==> WrittenUpTo(old(flash[..]), flash[..], addr, src, |src|)
  {
    var start: nat, align: nat := addr / ALIGN * ALIGN, addr % ALIGN;
    if !InBounds(fsStart, fsEnd, addr, |src|) { return false; }
    ok := true;
    BoundsSlack(fsStart, fsEnd, addr, |src|);
    var done := 0;
    while done < |src|
      invariant done <= |src| && align < ALIGN && (done < |src| ==> start + align == addr + done)
      invariant WrittenUpTo(old(flash[..]), flash[..], addr, src, done)
    {
      var n := if |src| - done > PAGE - align then PAGE - align else |src| - done;
      WriteChunk(flash, start, align, src[done..done + n]);
      if |src| - done > PAGE - align {
        start := start + PAGE;
        align := 0;
      }
      done := done + n;
    }
  }

  // ---------------------------------------------------------------- erasing

  /** Sector s of the chip. */
  predicate InSector(i: nat, s: nat) { s * SECTOR <= i < s * SECTOR + SECTOR }

  method SpiEraseSector(flash: array<byte>, s: nat)
    requires s * SECTOR + SECTOR <= flash.Length
    modifies flash
    ensures forall i :: 0 <= i < flash.Length ==> flash[i] == if InSector(i, s) then 0xFF else old(flash[i])
  {
    var n := 0;
    while n < SECTOR
      invariant n <= SECTOR
      invariant forall i :: 0 <= i < flash.Length ==>
                              flash[i] == if s * SECTOR <= i < s * SECTOR + n then 0xFF else old(flash[i])
    {
      flash[s * SECTOR + n] := 0xFF;
      n := n + 1;
    }
  }

  /** The first sector that a range touches, and the one behind the last. */
  function FirstSector(addr: nat): nat { addr / SECTOR }

  function EndSector(addr: nat, size: nat): nat {
    if size == 0 then addr / SECTOR else (addr + size - 1) / SECTOR + 1
  }

  /** esp_spiffs_erase: exactly the sectors that the range overlaps are erased. */
  method EspErase(flash: array<byte>, fsStart: nat, fsEnd: nat, addr: nat, size: nat) returns (ok: bool)
    requires EndSector(addr, size) * SECTOR <= flash.Length
    modifies flash
    ensures ok <==> InBounds(fsStart, fsEnd, addr, size)
    ensures !ok ==> flash[..] == old(flash[..])
    ensures ok ==> forall i :: 0 <= i < flash.Length ==>
                                 flash[i] == if FirstSector(addr) * SECTOR <= i < EndSector(addr, size) * SECTOR
                                             then 0xFF else old(flash[i])
  {
    if !InBounds(fsStart, fsEnd, addr, size) { return false; }
    ok := true;
    var sector: nat, offset: nat, rest: nat := addr / SECTOR, addr % SECTOR, size;
    ghost var end := EndSector(addr, size);
    while rest > 0
      invariant offset < SECTOR && FirstSector(addr) <= sector <= end
      invariant if rest > 0 then sector * SECTOR + offset + rest == addr + size && sector < end else sector == end
      invariant forall i :: 0 <= i < flash.Length ==>
                              flash[i] == if FirstSector(addr) * SECTOR <= i < sector * SECTOR then 0xFF else old(flash[i])
    {
      SpiEraseSector(flash, sector);
      if rest > SECTOR - offset {
        rest := rest - (SECTOR - offset);
        sector := sector + 1;
        offset := 0;
      } else {
        rest := 0;
        sector := sector + 1;
      }
    }
  }
}
