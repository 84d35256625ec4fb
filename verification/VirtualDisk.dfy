/** The UF2 side of the virtual disk: the tracker of a download, the one-slot queue to the worker
    and the worker's execution of a task on memory. */
module VirtualDisk {
  import opened Memory
  import opened Tasks
  import opened Deliveries

  const MAX_RAM_BLOCKS := 1280
  const MAX_FLASH_BLOCKS := 123360
  const MAX_CLEARED_PAGES := 7710
  const CLEARED_PAGES_RESET := 7704   // whole bytes of the cleared-pages bitmap
  const NO_ADDRESS := 0xffff_ffff

  /** A sector as the host writes it, split into the fields of a UF2 block. */
  datatype Sector = Sector(magicStart0: nat, magicStart1: nat, magicEnd: nat, familyPresent: bool, notMainFlash: bool,
                           fileSize: nat, payloadSize: nat, targetAddr: nat, blockNo: nat, numBlocks: nat,
                           data: seq<byte>)

  /** A block of a UF2 file for this chip. */
  predicate IsUf2(s: Sector) {
    && s.magicStart0 == 0x0a32_4655 && s.magicStart1 == 0x9e5d_5157 && s.magicEnd == 0x0ab1_6f30
    && s.familyPresent && s.fileSize == 0xe48b_ff56 && !s.notMainFlash && s.payloadSize == PAGE
  }

  /** Every field that says so, written out: the three magic numbers of the UF2 format, the family of
      this chip present and its number in place of the file size, and a payload of a page. */
  lemma Uf2Fields(s: Sector)
    ensures IsUf2(s) <==>
            s == Sector(0x0A32_4655, 0x9E5D_5157, 0x0AB1_6F30, true, false, 0xE48B_FF56, 256, s.targetAddr, s.blockNo,
                        s.numBlocks, s.data)
  {
  }

  predicate ForRam(s: Sector) { IsAddressRam(s.targetAddr) && IsAddressRam(s.targetAddr + PAGE - 1) }

  predicate ForFlash(s: Sector) { IsAddressFlash(s.targetAddr) && IsAddressFlash(s.targetAddr + PAGE - 1) }

  /** A block that does not make the tracker give up for its address. */
  predicate Acceptable(s: Sector) {
    s.numBlocks != 0 && (ForRam(s) || ForFlash(s)) && (ForFlash(s) ==> s.targetAddr % 256 == 0)
  }

  /** A flash page lies within what flash commands can address; the flash routines assert it. */
  predicate Reachable(s: Sector) {
    |s.data| == PAGE && (IsUf2(s) && ForFlash(s) && !ForRam(s) ==> s.targetAddr + PAGE <= FLASH_END)
  }

  /** An address the tracker has accepted for a page. */
  predicate PageAddress(a: nat, ram: bool) {
    if ram then IsAddressRam(a) && IsAddressRam(a + PAGE - 1) && (a < SRAM_BASE ==> a % 256 == 0)
    else XIP_MAIN_BASE <= a && a + PAGE <= FLASH_END && a % 256 == 0
  }

  /** The worker's range check for a RAM page, whose end it takes one byte later than the tracker. */
  predicate DirectPage(a: nat) { IsAddressRam(a) && IsAddressRam(a + PAGE) }

  /** There is one address at which the difference shows. */
  lemma OneAddressTurnedDown(a: nat)
    requires PageAddress(a, true)
    ensures DirectPage(a) <==> a != SRAM_END - 255
  {
  }

  /** How the two flash bitmaps share the 16 KiB of the XIP cache, and what clearing whole bytes
      leaves out: the last six erase bits, which no image within 16 MiB reaches. */
  lemma BitmapSizes()
    ensures var bits := (XIP_SRAM_END - XIP_SRAM_BASE) * 8;
            && MAX_FLASH_BLOCKS == bits * SECTOR / (PAGE + SECTOR) / 32 * 32
            && MAX_FLASH_BLOCKS + MAX_CLEARED_PAGES <= bits
    ensures MAX_CLEARED_PAGES == MAX_FLASH_BLOCKS * PAGE / SECTOR && CLEARED_PAGES_RESET == MAX_CLEARED_PAGES / 8 * 8
    ensures MAX_CLEARED_PAGES - CLEARED_PAGES_RESET == 6
    ensures forall b :: 0 <= b < (FLASH_END - XIP_MAIN_BASE) / PAGE ==> Group(b) < CLEARED_PAGES_RESET
  {
  }

  lemma GroupInRange(b: nat)
    requires b < MAX_FLASH_BLOCKS
    ensures Group(b) < MAX_CLEARED_PAGES
  {
  }

  /** The download since the tracker was last reset: the erase bits left over from before, the
      blocks delivered, and of the tasks executed so far which have succeeded. */
  datatype History = History(stale: set<nat>, delivered: seq<Delivery>, results: seq<bool>)

  const NewHistory := History({}, [], [])

  /** lowest is the lowest address in SRAM of the given blocks, if there is one. */
  ghost predicate LowestOf(ds: seq<Delivery>, lowest: nat) {
    && (forall i :: 0 <= i < |ds| && ds[i].addr >= SRAM_BASE ==> lowest <= ds[i].addr)
    && (lowest == NO_ADDRESS || (lowest >= SRAM_BASE && exists i :: 0 <= i < |ds| && ds[i].addr == lowest))
  }

  /** Every block below n has been delivered. */
  ghost predicate AllDelivered(ds: seq<Delivery>, n: nat) {
    forall b :: 0 <= b < n ==> Has(ds, b)
  }

  /** What has been delivered went where the tracker accepts it, once for each block, and the first
      of each group erases. */
  ghost predicate RecordedFor(h: History, ram: bool) {
    && AllInMemory(h.delivered, ram) && Distinct(h.delivered) && FirstErases(h.delivered, ram, h.stale)
    && (forall i :: 0 <= i < |h.delivered| ==> PageAddress(h.delivered[i].addr, ram))
    && (forall g :: g in h.stale ==> CLEARED_PAGES_RESET <= g < MAX_CLEARED_PAGES)
  }

  lemma HasMore(ds: seq<Delivery>, d: Delivery)
    ensures forall b :: Has(ds + [d], b) <==> Has(ds, b) || b == d.block
    ensures forall g :: HasGroup(ds + [d], g) <==> HasGroup(ds, g) || g == Group(d.block)
  {
    hide Group;
    var es := ds + [d];
    assert es[|ds|] == d;
    forall b | Has(ds, b) ensures Has(es, b) {
      var i :| 0 <= i < |ds| && ds[i].block == b;
      assert es[i] == ds[i];
    }
    forall g | HasGroup(ds, g) ensures HasGroup(es, g) {
      var i :| 0 <= i < |ds| && Group(ds[i].block) == g;
      assert es[i] == ds[i];
    }
  }

  lemma RecordMore(h: History, ram: bool, d: Delivery)
    requires RecordedFor(h, ram) && !Has(h.delivered, d.block) && InMemory(d, ram) && PageAddress(d.addr, ram)
    requires d.erase <==> !ram && Group(d.block) !in h.stale && !HasGroup(h.delivered, Group(d.block))
    ensures RecordedFor(h.(delivered := h.delivered + [d]), ram)
  {
    hide Group, InMemory, PageAddress;
    var ds, es := h.delivered, h.delivered + [d];
    forall i | 0 <= i < |es|
      ensures es[i].erase <==> !ram && Group(es[i].block) !in h.stale && !HasGroup(es[..i], Group(es[i].block))
    {
      assert es[..i] == ds[..i];
      assert ds[..|ds|] == ds;
    }
  }

  lemma RecordResult(h: History, ram: bool, ok: bool)
    requires RecordedFor(h, ram)
    ensures RecordedFor(h.(results := h.results + [ok]), ram)
  {
  }

  /** The task that writes a block, with the erase of its sector if it is the first in its group. */
  function PageTask(token: nat, a: nat, erase: bool, exitXip: bool): Task {
    Task(token, a, if erase then SectorBase(a) else 0, if erase then SECTOR else 0, PAGE, exitXip, erase, true,
         DiskSource, false)
  }

  lemma TaskChecks(ram: bool, d: Delivery, t: Task)
    requires InMemory(d, ram) && PageAddress(d.addr, ram) && t == PageTask(t.token, d.addr, d.erase, t.exitXip)
    ensures Addressable(t) && EraseOk(t) && (WriteOk(t) <==> (ram ==> DirectPage(d.addr)))
    ensures !ram ==> !DirectAccess(t)
  {
    hide SectorBase;
    if !ram { SectorHolds(d.addr); }
  }

  /** A task set up by the tracker passes every check of the worker, whoever changed memory last,
      but for the end of a RAM page; and it stores its delivery. */
  lemma TaskStores(m: seq<byte>, ram: bool, d: Delivery, t: Task, last: Source)
    requires |m| == MEMORY_END && InMemory(d, ram) && PageAddress(d.addr, ram)
    requires t == PageTask(t.token, d.addr, d.erase, t.exitXip)
    ensures Addressable(t) && SourceOk(t, last) && EraseOk(t) && (WriteOk(t) <==> (ram ==> DirectPage(d.addr)))
    ensures WriteOk(t) ==> Written(Erased(m, t), t, d.data) == Stored(m, ram, d)
    ensures !WriteOk(t) ==> Erased(m, t) == m
  {
    hide ErasedRange, Overwrite;
    if !ram { SectorHolds(d.addr); }
    TaskChecks(ram, d, t);
    hide SectorBase, Addressable, EraseOk, WriteOk;
    if d.erase { OneSector(m, SectorBase(d.addr)); }
    assert d.data[..PAGE] == d.data;
  }

  class Device {
    // _uf2_info
    var numBlocks: nat
    var infoToken: nat
    var validCount: nat
    var lowestAddr: nat
    var blockNo: nat
    var isRam: bool
    var nextTask: Task
    const ramValid: array<bool>       // uf2_valid_ram_blocks, one entry a bit
    const flashValid: array<bool>     // the bitmaps in the XIP cache
    const clearedPages: array<bool>
    // the queue, the worker, memory
    var queueFull: bool
    var queueDisable: bool
    var queueTask: Task
    var sectorBuf: seq<byte>
    var mem: seq<byte>
    var lastSource: Source
    var rebooting: bool
    var rebootAddr: nat

    ghost var h: History

    function MaxBlocks(): nat
      reads this`isRam
    {
      if isRam then MAX_RAM_BLOCKS else MAX_FLASH_BLOCKS
    }

    function ValidBits(): array<bool>
      reads this`isRam
    {
      if isRam then ramValid else flashValid
    }

    ghost predicate Sizes() {
      && ramValid.Length == MAX_RAM_BLOCKS && flashValid.Length == MAX_FLASH_BLOCKS
      && clearedPages.Length == MAX_CLEARED_PAGES
      && ramValid != flashValid && ramValid != clearedPages && flashValid != clearedPages
    }

    /** The bitmaps describe the blocks delivered so far. */
    ghost predicate Bitmaps()
      reads this`numBlocks, this`isRam, this`h, ramValid, flashValid, clearedPages
    {
      && Sizes()
      && (numBlocks != 0 ==>
            && numBlocks <= MaxBlocks()
            && (forall i :: 0 <= i < |h.delivered| ==> h.delivered[i].block < numBlocks)
            && (forall b :: 0 <= b < numBlocks ==> (ValidBits()[b] <==> Has(h.delivered, b)))
            && (!isRam ==> forall g :: 0 <= g < MAX_CLEARED_PAGES ==>
                 (clearedPages[g] <==> g in h.stale || HasGroup(h.delivered, g))))
    }

    ghost predicate Recorded()
      reads this`isRam, this`h, this`validCount
    {
      RecordedFor(h, isRam) && validCount == |h.delivered|
    }

    ghost predicate Lowest()
      reads this`numBlocks, this`h, this`lowestAddr
    {
      numBlocks != 0 ==> LowestOf(h.delivered, lowestAddr)
    }

    /** All blocks delivered have been executed but the one waiting in the queue. */
    ghost predicate Waiting()
      reads this`infoToken, this`queueFull, this`queueTask, this`sectorBuf, this`h
    {
      && |sectorBuf| == PAGE
      && if queueFull then
           && |h.delivered| == |h.results| + 1
           && var d := h.delivered[|h.results|];
           d.data == sectorBuf && queueTask == PageTask(infoToken, d.addr, d.erase, queueTask.exitXip)
         else |h.delivered| == |h.results|
    }

    ghost predicate Valid()
      reads this, ramValid, flashValid, clearedPages
    {
      |mem| == MEMORY_END && Bitmaps() && Recorded() && Lowest() && Waiting()
    }

    method EraseRange(addr: nat, size: nat)
      requires |mem| == MEMORY_END && addr + size <= FLASH_END && size % SECTOR == 0
      modifies this`mem
      ensures mem == ErasedRange(old(mem), addr, size)
      ensures forall a :: 0 <= a < MEMORY_END && !(addr <= a < addr + size) ==> mem[a] == old(mem)[a]
    {
      hide Overwrite, Blank;
      var a, end := addr, addr + size;
      while a < end
        invariant addr <= a <= end && (end - a) % SECTOR == 0 && |mem| == MEMORY_END
        invariant ErasedRange(mem, a, end - a) == ErasedRange(old(mem), addr, size)
      {
        mem := EraseSector(mem, a);
        a := a + SECTOR;
      }
      forall k | 0 <= k < MEMORY_END && !(addr <= k < addr + size) ensures mem[k] == old(mem)[k] {
        ErasedElsewhere(old(mem), addr, size, k);
      }
    }

    /** _execute_task, for the task kinds that change memory. */
    method ExecuteTask(t: Task, data: seq<byte>) returns (result: Result)
      requires |mem| == MEMORY_END && |data| == PAGE && Addressable(t)
      modifies this`mem, this`lastSource
      ensures |mem| == MEMORY_END
      ensures result == Ok <==> !rebooting && SourceOk(t, old(lastSource)) && EraseOk(t) && WriteOk(t)
      ensures result == Ok ==> mem == Written(Erased(old(mem), t), t, data)
      ensures rebooting ==> result == Rebooting
      ensures !rebooting && !SourceOk(t, old(lastSource)) ==> result == InterleavedWrite
      ensures !rebooting && SourceOk(t, old(lastSource)) && !EraseOk(t) ==>
                result ==
                if t.eraseAddr % SECTOR != 0 || t.eraseSize % SECTOR != 0 then BadAlignment else InvalidAddress
      ensures !rebooting && SourceOk(t, old(lastSource)) && EraseOk(t) && !WriteOk(t) ==>
                result == (if FlashAccess(t) then BadAlignment else InvalidAddress) && mem == Erased(old(mem), t)
      ensures rebooting || !SourceOk(t, old(lastSource)) || !EraseOk(t) ==> mem == old(mem)
      ensures lastSource ==
              if !rebooting && (t.write || t.flashErase) && SourceOk(t, old(lastSource)) then t.source
              else old(lastSource)
      ensures !t.write && !t.flashErase ==> mem == old(mem)
      ensures forall a :: 0 <= a < MEMORY_END && !Touches(t, a) ==> mem[a] == old(mem)[a]
    {
      if rebooting { return Rebooting; }
      if t.write || t.flashErase {
        if t.checkSource && lastSource != t.source { return InterleavedWrite; }
        lastSource := t.source;
      }
      if t.flashErase {
        if t.eraseAddr % SECTOR != 0 { return BadAlignment; }
        if t.eraseSize % SECTOR != 0 { return BadAlignment; }
        if !(IsAddressFlash(t.eraseAddr) && IsAddressFlash(t.eraseAddr + t.eraseSize)) { return InvalidAddress; }
        EraseRange(t.eraseAddr, t.eraseSize);
      }
      if t.write {
        var directAccess := false;
        if IsAddressRam(t.transferAddr) && IsAddressRam(t.transferAddr + t.dataLength) {
          directAccess := true;
        } else if IsAddressFlash(t.transferAddr) && IsAddressFlash(t.transferAddr + t.dataLength) {
          if t.transferAddr % PAGE != 0 { return BadAlignment; }
        } else {
          return InvalidAddress;
        }
        if directAccess {
          mem := Overwrite(mem, t.transferAddr, data[..t.dataLength]);
        } else {
          mem := ProgramPage(mem, t.transferAddr, data);
        }
      }
      return Ok;
    }

    constructor (mem: seq<byte>)
      requires |mem| == MEMORY_END
      ensures Valid() && !queueFull && !queueDisable && numBlocks == 0 && !rebooting && this.mem == mem
              && h == NewHistory
    {
      ramValid := new bool[MAX_RAM_BLOCKS];
      flashValid := new bool[MAX_FLASH_BLOCKS];
      clearedPages := new bool[MAX_CLEARED_PAGES];
      numBlocks, infoToken, validCount, lowestAddr, blockNo, isRam := 0, 0, 0, 0, 0, false;
      sectorBuf := Blank(PAGE);
      this.mem := mem;
      queueFull, queueDisable, rebooting, rebootAddr := false, false, false, 0;
      queueTask, nextTask, lastSource := NoTask, NoTask, NoSource;
      h := NewHistory;
    }

    // ---- Receiving a sector ----

    /** _clear_bitset: whole bytes only. */
    method ClearBitset(bits: array<bool>, count: nat)
      requires count <= bits.Length
      modifies bits
      ensures forall i :: 0 <= i < count / 8 * 8 ==> !bits[i]
      ensures forall i :: count / 8 * 8 <= i < bits.Length ==> bits[i] == old(bits[i])
    {
      forall i | 0 <= i < count / 8 * 8 {
        bits[i] := false;
      }
    }

    method ClearBitmaps(flash: bool)
      requires Sizes()
      modifies ramValid, flashValid, clearedPages
      ensures forall b :: 0 <= b < ValidBits().Length ==> !ValidBits()[b]
      ensures flash ==> forall g :: 0 <= g < CLEARED_PAGES_RESET ==> !clearedPages[g]
    {
      assert MaxBlocks() / 8 * 8 == MaxBlocks();
      ClearBitset(ValidBits(), MaxBlocks());
      if flash {
        ClearBitset(clearedPages, MAX_CLEARED_PAGES);
      }
    }

    /** memset of the tracker. */
    method ClearInfo(ram: bool)
      requires Valid() && !queueFull
      modifies this`numBlocks, this`infoToken, this`validCount, this`lowestAddr, this`blockNo, this`nextTask
      modifies this`isRam, this`h
      ensures Valid() && numBlocks == 0 && isRam == ram && h == NewHistory
    {
      numBlocks, infoToken, validCount, lowestAddr, blockNo, nextTask := 0, 0, 0, 0, 0, NoTask;
      isRam := ram;
      h := NewHistory;
    }

    /** The erase bits that clearing whole bytes has left set. */
    ghost function StaleBits(): set<nat>
      requires Sizes()
      reads clearedPages
    {
      set g: nat | CLEARED_PAGES_RESET <= g < MAX_CLEARED_PAGES && clearedPages[g]
    }

    /** The reset of _update_current_uf2_info for a new image. */
    method StartDownload(s: Sector) returns (fits: bool)
      requires Valid() && !queueFull && IsUf2(s) && Acceptable(s)
      modifies this`numBlocks, this`infoToken, this`validCount, this`lowestAddr, this`blockNo, this`nextTask
      modifies this`isRam, this`h, ramValid, flashValid, clearedPages
      ensures Valid() && isRam == ForRam(s) && h.delivered == [] && h.results == []
      ensures fits <==> s.numBlocks <= MaxBlocks()
      ensures numBlocks == if fits then s.numBlocks else 0
    {
      hide LowestOf;
      ClearInfo(ForRam(s));
      ClearBitmaps(ForFlash(s));
      if s.numBlocks > MaxBlocks() { return false; }
      numBlocks := s.numBlocks;
      validCount := 0;
      lowestAddr := NO_ADDRESS;
      h := History(if isRam then {} else StaleBits(), [], []);
      NothingLowest(lowestAddr);
      return true;
    }

    /** What decides whether the tracker goes on with the image of a block. */
    ghost predicate Fits(s: Sector)
      reads this`numBlocks, this`isRam
    {
      && Acceptable(s) && s.blockNo < s.numBlocks
      && (if numBlocks == s.numBlocks then isRam == ForRam(s)
          else s.numBlocks <= if ForRam(s) then MAX_RAM_BLOCKS else MAX_FLASH_BLOCKS)
    }

    /** _update_current_uf2_info: true when the block belongs to the image being downloaded. */
    method UpdateCurrentUf2Info(s: Sector, token: nat) returns (ok: bool)
      requires Valid() && !queueFull && IsUf2(s)
      modifies this`numBlocks, this`infoToken, this`validCount, this`lowestAddr, this`blockNo, this`nextTask
      modifies this`isRam, this`h, ramValid, flashValid, clearedPages
      ensures Valid()
      ensures ok <==> !queueDisable && old(Fits(s))
      ensures ok ==> Acceptable(s) && s.blockNo < s.numBlocks
      ensures !ok ==> numBlocks == 0
      ensures ok ==> && numBlocks == s.numBlocks && blockNo == s.blockNo && infoToken == token && isRam == ForRam(s)
                     && nextTask == Task(token, s.targetAddr, 0, 0, PAGE, nextTask.exitXip, false, true,
                                         DiskSource, false)
                     && nextTask.exitXip == (old(numBlocks) != s.numBlocks && ForFlash(s))
      ensures ok ==> if old(numBlocks) == s.numBlocks then h == old(h) else h.delivered == [] && h.results == []
    {
      hide Valid, IsUf2;
      var ram := IsAddressRam(s.targetAddr) && IsAddressRam(s.targetAddr + PAGE - 1);
      var flash := IsAddressFlash(s.targetAddr) && IsAddressFlash(s.targetAddr + PAGE - 1);
      if !(s.numBlocks != 0 && (ram || flash)) || (flash && s.targetAddr % 256 != 0) {
        // received garbage
      } else if !queueDisable {
        var exitXip := false;
        if numBlocks != s.numBlocks {
          var fits := StartDownload(s);
          if !fits { return false; }
          if flash { exitXip := true; }
        }
        if ram == isRam {
          if s.blockNo < s.numBlocks {
            SetUpBlock(s, token, exitXip);
            return true;
          }
        }
      }
      VdReset();                              // invalid
      return false;
    }

    method SetUpBlock(s: Sector, token: nat, exitXip: bool)
      requires Valid() && !queueFull
      modifies this`infoToken, this`blockNo, this`nextTask
      ensures Valid() && blockNo == s.blockNo && infoToken == token
      ensures nextTask == Task(token, s.targetAddr, 0, 0, PAGE, exitXip, false, true, DiskSource, false)
    {
      hide Bitmaps, Recorded, Lowest;
      blockNo := s.blockNo;
      infoToken := token;
      nextTask := Task(token, s.targetAddr, 0, 0, PAGE, exitXip, false, true, DiskSource, false);
    }

    /** vd_reset. */
    method VdReset()
      requires Valid()
      modifies this`numBlocks
      ensures Valid() && numBlocks == 0
    {
      hide RecordedFor, LowestOf;
      numBlocks := 0;
    }

    /** The block set up by UpdateCurrentUf2Info and not looked up yet. */
    ghost predicate Ready(a: nat)
      reads this`numBlocks, this`isRam, this`blockNo, this`nextTask, this`infoToken
    {
      && numBlocks != 0 && blockNo < numBlocks && PageAddress(a, isRam)
      && nextTask == Task(infoToken, a, 0, 0, PAGE, nextTask.exitXip, false, true, DiskSource, false)
    }

    /** The address bookkeeping of _write_uf2_page: the XIP cache never counts as lowest. */
    method NoteAddress(ghost d: Delivery)
      requires LowestOf(h.delivered, lowestAddr) && nextTask.transferAddr == d.addr <= NO_ADDRESS
      modifies this`lowestAddr
      ensures LowestOf(h.delivered + [d], lowestAddr)
    {
      var xipCacheNext := nextTask.transferAddr < SRAM_BASE;
      var xipCacheLowest := lowestAddr < SRAM_BASE;
      LowestMore(h.delivered, lowestAddr, d);
      if (nextTask.transferAddr < lowestAddr && xipCacheNext == xipCacheLowest) || (xipCacheLowest && !xipCacheNext) {
        lowestAddr := nextTask.transferAddr;
      }
    }

    /** The erase decision for a flash block: the first block of its group erases the sector. */
    method DecideErase() returns (ghost erase: bool)
      requires Bitmaps() && numBlocks != 0 && blockNo < numBlocks && !isRam
      requires !nextTask.flashErase && nextTask.eraseAddr == nextTask.eraseSize == 0
      modifies this`nextTask, clearedPages
      ensures erase <==> Group(blockNo) !in h.stale && !HasGroup(h.delivered, Group(blockNo))
      ensures nextTask == old(nextTask).(flashErase := erase,
                eraseAddr := if erase then SectorBase(nextTask.transferAddr) else 0,
                eraseSize := if erase then SECTOR else 0)
      ensures forall g :: 0 <= g < MAX_CLEARED_PAGES ==>
                (clearedPages[g] <==> g in h.stale || HasGroup(h.delivered, g) || g == Group(blockNo))
    {
      GroupInRange(blockNo);
      var pageNo := blockNo * PAGE / SECTOR;
      erase := !clearedPages[pageNo];
      if !clearedPages[pageNo] {
        nextTask := nextTask.(eraseAddr := SectorBase(nextTask.transferAddr), eraseSize := SECTOR, flashErase := true);
        clearedPages[pageNo] := true;
      }
    }

    /** queue_task: the slot is overwritten, the data stays where it is. */
    method QueueTask()
      modifies this`queueTask, this`queueFull
      ensures queueFull && queueTask == nextTask
    {
      queueTask := nextTask;
      queueFull := true;
    }

    /** The rest of _write_uf2_page, once the erase is decided: the block is marked valid and its
        task queued. */
    method AcceptBlock(ghost d: Delivery)
      requires Sizes() && blockNo < numBlocks <= MaxBlocks() && !Has(h.delivered, blockNo) && d.block == blockNo
      requires forall b :: 0 <= b < numBlocks ==> (ValidBits()[b] <==> Has(h.delivered, b))
      modifies this`validCount, this`nextTask, this`queueTask, this`queueFull, this`h, ramValid, flashValid
      ensures queueFull && queueTask == old(nextTask) && h == old(h).(delivered := old(h).delivered + [d])
      ensures forall b :: 0 <= b < numBlocks ==> (ValidBits()[b] <==> Has(h.delivered, b))
      ensures validCount == old(validCount) + 1
    {
      hide Has;
      HasMore(h.delivered, d);
      validCount := validCount + 1;
      ValidBits()[blockNo] := true;
      h := h.(delivered := h.delivered + [d]);
      QueueTask();
      // after the first write, check the source
      nextTask := nextTask.(checkSource := true);
    }

    /** _write_uf2_page: a block seen for the first time is queued, a duplicate is ignored. */
    method WriteUf2Page(a: nat) returns (async: bool)
      requires Valid() && !queueFull && Ready(a)
      modifies this`validCount, this`lowestAddr, this`nextTask, this`queueTask, this`queueFull, this`h
      modifies ramValid, flashValid, clearedPages
      ensures Valid() && async == queueFull
      ensures async <==> !Has(old(h).delivered, blockNo)
      ensures !async ==> h == old(h)
      ensures async ==>
                var g := Group(blockNo);
                var erase := !isRam && g !in old(h).stale && !HasGroup(old(h).delivered, g);
                h == old(h).(delivered := old(h).delivered + [Delivery(blockNo, a, sectorBuf, erase)])
    {
      hide LowestOf, RecordedFor, PageAddress, Group, Has, HasGroup;
      if ValidBits()[blockNo] { return false; }
      ghost var was, erase := h, false;
      PageReachable(a, isRam);
      NoteAddress(Delivery(blockNo, a, sectorBuf, erase));
      LowestIgnores(h.delivered, Delivery(blockNo, a, sectorBuf, false), Delivery(blockNo, a, sectorBuf, true),
                    lowestAddr);
      if !isRam { erase := DecideErase(); }
      ghost var d := Delivery(blockNo, a, sectorBuf, erase);
      AcceptBlock(d);
      HasMore(was.delivered, d);
      NewPageInMemory(d, isRam);
      RecordMore(was, isRam, d);
      return true;
    }

    /** vd_write_block: the sector in _sector_buf has arrived. */
    method VdWriteBlock(s: Sector, token: nat) returns (async: bool)
      requires Valid() && !queueFull && Reachable(s)
      modifies this`numBlocks, this`infoToken, this`validCount, this`lowestAddr, this`blockNo, this`nextTask
      modifies this`isRam, this`h, this`queueTask, this`queueFull, this`sectorBuf, ramValid, flashValid, clearedPages
      ensures Valid() && async == queueFull
      ensures !IsUf2(s) ==> !async && h == old(h) && numBlocks == old(numBlocks) && isRam == old(isRam)
      ensures IsUf2(s) && (queueDisable || !old(Fits(s))) ==> !async && numBlocks == 0
      ensures IsUf2(s) && !queueDisable && old(Fits(s)) ==>
                var was := if old(numBlocks) == s.numBlocks then old(h) else History(h.stale, [], []);
                var g := Group(s.blockNo);
                var d := Delivery(s.blockNo, s.targetAddr, s.data,
                                  !isRam && g !in was.stale && !HasGroup(was.delivered, g));
                && numBlocks == s.numBlocks && isRam == ForRam(s)
                && (async <==> !Has(was.delivered, s.blockNo))
                && h == if async then was.(delivered := was.delivered + [d]) else was
    {
      hide Valid, Fits, Group, Has, HasGroup, PageAddress;
      SetBuffer(s.data);
      async := false;
      if IsUf2(s) {
        var ok := UpdateCurrentUf2Info(s, token);
        if ok {
          BlockAddress(s);
          async := WriteUf2Page(s.targetAddr);
        }
      }
    }

    method SetBuffer(data: seq<byte>)
      requires Valid() && !queueFull && |data| == PAGE
      modifies this`sectorBuf
      ensures Valid() && sectorBuf == data
    {
      hide LowestOf, RecordedFor;
      sectorBuf := data;
    }

    // ---- The worker ----

    /** Whether the worker carries out the waiting task: not under exclusive access, not once a
        reboot is requested, and a RAM page only if its end is in range. */
    ghost predicate WillStore()
      requires Waiting() && queueFull
      reads this`infoToken, this`queueFull, this`queueTask, this`sectorBuf, this`h
      reads this`queueDisable, this`rebooting, this`isRam
    {
      !queueDisable && !rebooting && (isRam ==> DirectPage(h.delivered[|h.results|].addr))
    }

    /** dequeue_task and execute_task. */
    method WorkerExecutes() returns (task: Task, result: Result)
      requires Valid() && queueFull
      modifies this`queueFull, this`mem, this`lastSource
      ensures |mem| == MEMORY_END && !queueFull && task == queueTask && task.token == infoToken
      ensures result == Ok <==> old(WillStore())
      ensures mem == if result == Ok then Stored(old(mem), isRam, h.delivered[|h.results|]) else old(mem)
      ensures lastSource == if !queueDisable && !rebooting then DiskSource else old(lastSource)
    {
      hide Bitmaps, Lowest, Stored, EraseOk, WriteOk, Addressable, SourceOk, Written, Erased, Touches;
      ghost var d := h.delivered[|h.results|];
      TaskStores(mem, isRam, d, queueTask, lastSource);
      task := queueTask;
      queueFull := false;                     // dequeue_task
      if queueDisable {
        result := QueueDisabled;
      } else {
        result := ExecuteTask(task, sectorBuf);
      }
    }

    /** _write_uf2_page_complete. */
    method PageComplete(task: Task, result: Result)
      modifies this`rebooting, this`rebootAddr
      ensures rebooting == (old(rebooting) || (task.token == infoToken && result == Ok && validCount == numBlocks))
      ensures rebootAddr == if task.token == infoToken && result == Ok && validCount == numBlocks
                            then (if isRam then lowestAddr else 0) else old(rebootAddr)
    {
      if task.token == infoToken {
        if result == Ok && validCount == numBlocks {
          rebootAddr := if isRam then lowestAddr else 0;
          rebooting := true;                  // safe_reboot
        }
      }
    }

    /** A queued task executed and completed. It stores its page or changes nothing, and a reboot is
        requested exactly by the task that succeeds when every block of the image has been delivered
        since the tracker was reset; a RAM image is then started at its lowest address in SRAM. */
    method WorkerTurn()
      requires Valid() && queueFull
      modifies this`queueFull, this`mem, this`lastSource, this`h, this`rebooting, this`rebootAddr
      ensures Valid() && !queueFull
      ensures h == old(h).(results := old(h).results + [old(WillStore())])
      ensures mem == if old(WillStore()) then Stored(old(mem), isRam, h.delivered[|old(h).results|]) else old(mem)
      ensures lastSource == if !queueDisable && !old(rebooting) then DiskSource else old(lastSource)
      ensures rebooting <==>
                old(rebooting) || (old(WillStore()) && numBlocks != 0 && AllDelivered(h.delivered, numBlocks))
      ensures !old(rebooting) && rebooting ==>
                if isRam then LowestOf(h.delivered, rebootAddr) else rebootAddr == 0
      ensures old(rebooting) ==> rebootAddr == old(rebootAddr)
    {
      hide Stored, RecordedFor, LowestOf, AllDelivered;
      var task, result := WorkerExecutes();
      if numBlocks != 0 { CountIsFull(); }
      RecordResult(h, isRam, result == Ok);
      h := h.(results := h.results + [result == Ok]);
      PageComplete(task, result);
    }

    lemma CountIsFull()
      requires Bitmaps() && Recorded() && numBlocks != 0
      ensures validCount == numBlocks <==> AllDelivered(h.delivered, numBlocks)
    {
      hide Has;
      EveryBlock(h.delivered, numBlocks);
    }

    /** The exclusive-access command of the other interface, executed between disk tasks. */
    method SetExclusive(exclusive: bool)
      requires Valid()
      modifies this`queueDisable
      ensures Valid() && queueDisable == exclusive
    {
      hide LowestOf, RecordedFor;
      queueDisable := exclusive;
    }

    lemma BlockAddress(s: Sector)
      requires Reachable(s) && IsUf2(s) && Acceptable(s) && s.blockNo < s.numBlocks
      requires numBlocks == s.numBlocks && blockNo == s.blockNo && isRam == ForRam(s)
      requires nextTask == Task(infoToken, s.targetAddr, 0, 0, PAGE, nextTask.exitXip, false, true, DiskSource, false)
      ensures Ready(s.targetAddr)
    {
    }
  }

  lemma PageReachable(a: nat, ram: bool)
    requires PageAddress(a, ram)
    ensures a <= NO_ADDRESS
  {
  }

  lemma NewPageInMemory(d: Delivery, ram: bool)
    requires PageAddress(d.addr, ram) && |d.data| == PAGE && (ram ==> !d.erase)
    ensures InMemory(d, ram)
  {
  }

  lemma NothingLowest(lowest: nat)
    ensures lowest == NO_ADDRESS ==> LowestOf([], lowest)
  {
  }

  lemma LowestIgnores(ds: seq<Delivery>, d: Delivery, e: Delivery, lowest: nat)
    requires d.addr == e.addr && LowestOf(ds + [d], lowest)
    ensures LowestOf(ds + [e], lowest)
  {
    var x, y := ds + [d], ds + [e];
    assert forall i :: 0 <= i < |x| ==> x[i].addr == y[i].addr;
  }

  lemma LowestMore(ds: seq<Delivery>, lowest: nat, d: Delivery)
    requires LowestOf(ds, lowest) && d.addr <= NO_ADDRESS
    ensures d.addr < SRAM_BASE || lowest <= d.addr ==> LowestOf(ds + [d], lowest)
    ensures SRAM_BASE <= d.addr < lowest ==> LowestOf(ds + [d], d.addr)
  {
    var x := ds + [d];
    assert x[|ds|] == d && forall i :: 0 <= i < |ds| ==> x[i] == ds[i];
  }

  // ---- Counting blocks ----

  lemma {:induction false} EveryBlock(ds: seq<Delivery>, n: nat)
    requires Distinct(ds) && forall i :: 0 <= i < |ds| ==> ds[i].block < n
    ensures |ds| == n <==> AllDelivered(ds, n)
  {
    var s := BlocksOf(ds);
    if |ds| == n { Pigeonhole(s, n); }
    if AllDelivered(ds, n) {
      Covering(s, n);
      Crowded(s, n);
    }
  }

  ghost function BlocksOf(ds: seq<Delivery>): (s: set<nat>)
    requires Distinct(ds)
    ensures |s| == |ds| && forall b :: b in s <==> Has(ds, b)
  {
    if ds == [] then {}
    else
      var n := |ds| - 1;
      assert ds == ds[..n] + [ds[n]];
      HasMore(ds[..n], ds[n]);
      BlocksOf(ds[..n]) + {ds[n].block}
  }

  lemma {:induction false} Pigeonhole(s: set<nat>, n: nat)
    requires |s| == n && forall b :: b in s ==> b < n
    ensures forall b :: 0 <= b < n ==> b in s
  {
    if n > 0 {
      var t := s - {n - 1};
      if n - 1 in s {
        Pigeonhole(t, n - 1);
      } else {
        assert t == s;
        Crowded(s, n - 1);
      }
    }
  }

  lemma {:induction false} Covering(s: set<nat>, n: nat)
    requires forall b :: 0 <= b < n ==> b in s
    ensures |s| >= n
  {
    if n > 0 {
      assert s == (s - {n - 1}) + {n - 1};
      Covering(s - {n - 1}, n - 1);
    }
  }

  lemma {:induction false} Crowded(s: set<nat>, n: nat)
    requires forall b :: b in s ==> b < n
    ensures |s| <= n
  {
    if n > 0 {
      assert s - {n - 1} + (s * {n - 1}) == s;
      Crowded(s - {n - 1}, n - 1);
    } else {
      assert s == {};
    }
  }
}
