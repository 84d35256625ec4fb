/** The tasks the worker executes, and what they do to memory. */
module Tasks {
  import opened Memory

  datatype Source = NoSource | DiskSource | PicobootSource

  datatype Result = Ok | QueueDisabled | Rebooting | InterleavedWrite | BadAlignment | InvalidAddress

  datatype Task = Task(token: nat, transferAddr: nat, eraseAddr: nat, eraseSize: nat, dataLength: nat,
                       exitXip: bool, flashErase: bool, write: bool, source: Source, checkSource: bool)

  const NoTask := Task(0, 0, 0, 0, 0, false, false, false, NoSource, false)

  predicate EraseOk(t: Task) {
    t.flashErase ==>
      && t.eraseAddr % SECTOR == 0 && t.eraseSize % SECTOR == 0
      && IsAddressFlash(t.eraseAddr) && IsAddressFlash(t.eraseAddr + t.eraseSize)
  }

  predicate DirectAccess(t: Task) { IsAddressRam(t.transferAddr) && IsAddressRam(t.transferAddr + t.dataLength) }

  predicate FlashAccess(t: Task) {
    !DirectAccess(t) && IsAddressFlash(t.transferAddr) && IsAddressFlash(t.transferAddr + t.dataLength)
  }

  predicate WriteOk(t: Task) {
    t.write ==> (DirectAccess(t) || (FlashAccess(t) && t.transferAddr % PAGE == 0))
  }

  predicate SourceOk(t: Task, last: Source) {
    (t.write || t.flashErase) && t.checkSource ==> last == t.source
  }

  /** What passes the checks stays within what flash commands can address; the flash routines
      assert it. */
  predicate Addressable(t: Task) {
    && t.dataLength <= PAGE
    && (t.flashErase && EraseOk(t) ==> t.eraseAddr + t.eraseSize <= FLASH_END)
    && (t.write && FlashAccess(t) && t.transferAddr % PAGE == 0 ==> t.transferAddr + PAGE <= FLASH_END)
  }

  function ErasedRange(m: seq<byte>, a: nat, size: nat): (r: seq<byte>)
    requires size % SECTOR == 0 && a + size <= |m|
    ensures |r| == |m|
    decreases size
  {
    if size == 0 then m else ErasedRange(EraseSector(m, a), a + SECTOR, size - SECTOR)
  }

  function Erased(m: seq<byte>, t: Task): (r: seq<byte>)
    requires EraseOk(t) && Addressable(t) && |m| == MEMORY_END
    ensures |r| == |m|
  {
    if t.flashErase then ErasedRange(m, t.eraseAddr, t.eraseSize) else m
  }

  function Written(m: seq<byte>, t: Task, data: seq<byte>): (r: seq<byte>)
    requires WriteOk(t) && Addressable(t) && |m| == MEMORY_END && |data| == PAGE
    ensures |r| == |m|
  {
    if !t.write then m
    else if DirectAccess(t) then Overwrite(m, t.transferAddr, data[..t.dataLength])
    else ProgramPage(m, t.transferAddr, data)
  }

  /** The bytes a task may change. */
  predicate Touches(t: Task, a: nat) {
    || (t.flashErase && t.eraseAddr <= a < t.eraseAddr + t.eraseSize)
    || (t.write && t.transferAddr <= a < t.transferAddr + PAGE)
  }

  lemma {:induction false} ErasedElsewhere(m: seq<byte>, at: nat, size: nat, a: nat)
    requires size % SECTOR == 0 && at + size <= |m| && a < |m| && !(at <= a < at + size)
    ensures ErasedRange(m, at, size)[a] == m[a]
    decreases size
  {
    if size > 0 { ErasedElsewhere(EraseSector(m, at), at + SECTOR, size - SECTOR, a); }
  }

  lemma OneSector(m: seq<byte>, a: nat)
    requires a + SECTOR <= |m|
    ensures ErasedRange(m, a, SECTOR) == EraseSector(m, a)
  {
    assert ErasedRange(EraseSector(m, a), a + SECTOR, 0) == EraseSector(m, a);
  }

  /** The task of one chunk of a PICOBOOT write command. */
  function ChunkTask(token: nat, addr: nat, len: nat, check: bool): Task {
    Task(token, addr, 0, 0, len, false, false, true, PicobootSource, check)
  }

  /** Which chunks pass the worker's checks, by their range: those within SRAM or the XIP cache, both
      ends counting, and those below SRAM that start at a page. */
  lemma ChunkPasses(token: nat, a: nat, n: nat, check: bool)
    requires 0 < n <= 256
    ensures WriteOk(ChunkTask(token, a, n, check)) <==>
            || (SRAM_BASE <= a && a + n <= SRAM_END)
            || (XIP_SRAM_BASE <= a && a + n <= XIP_SRAM_END)
            || (XIP_MAIN_BASE <= a && a + n <= SRAM_BASE && a % 256 == 0)
  {
  }

  /** The task of a PICOBOOT erase command. */
  function EraseTask(token: nat, addr: nat, size: nat): Task {
    Task(token, addr, addr, size, 0, false, true, false, PicobootSource, false)
  }

  /** Which erases pass: whole sectors below SRAM. */
  lemma ErasePasses(token: nat, a: nat, n: nat)
    ensures EraseOk(EraseTask(token, a, n)) <==>
            a % 4096 == 0 && n % 4096 == 0 && XIP_MAIN_BASE <= a && a + n <= SRAM_BASE
  {
  }

  /** An erased range holds ones, and every other byte is as before. */
  lemma {:induction false} ErasedMeans(m: seq<byte>, at: nat, size: nat, a: nat)
    requires size % 4096 == 0 && at + size <= |m| && a < |m|
    ensures ErasedRange(m, at, size)[a] == if at <= a < at + size then 0xff else m[a]
    decreases size
  {
    if size > 0 {
      ErasedMeans(EraseSector(m, at), at + 4096, size - 4096, a);
      SectorBytes(m, at, a);
    }
  }

  lemma SectorBytes(m: seq<byte>, at: nat, a: nat)
    requires at + SECTOR <= |m| && a < |m|
    ensures |EraseSector(m, at)| == |m| && EraseSector(m, at)[a] == if at <= a < at + SECTOR then 0xff else m[a]
  {
    var r := EraseSector(m, at);
    if at <= a < at + SECTOR { assert r[a] == r[at..at + SECTOR][a - at]; }
  }
}
