/** PICOBOOT write and erase commands. The stream of a write is taken apart into chunks, each is
    executed by the worker, and disk tasks may run in between. */
module Picoboot {
  import opened Memory
  import opened Tasks
  import opened UsbStream
  import opened VirtualDisk

  predicate InRam(a: nat, n: nat) {
    (SRAM_BASE <= a && a + n <= SRAM_END) || (XIP_SRAM_BASE <= a && a + n <= XIP_SRAM_END)
  }

  /** A write that starts at a flash page stays within what flash commands can address. */
  predicate Reachable(a: nat, n: nat) {
    a < SRAM_BASE && a % 256 == 0 ==> a + n <= FLASH_END || InRam(a, n)
  }

  /** The ranges in which a write succeeds. */
  predicate InRange(a: nat, n: nat) {
    InRam(a, n) || (XIP_MAIN_BASE <= a && a + n <= FLASH_END && a % 256 == 0)
  }

  predicate ToFlash(a: nat) { a < FLASH_END }

  function PagesEnd(n: nat): nat { (n + 255) / 256 * 256 }

  /** What memory looks like after p bytes of the stream have been stored at a. A RAM range holds
      them; in flash each byte has only lost bits, and the page of the last byte is zeroed beyond it. */
  ghost predicate Stored(was: seq<byte>, mem: seq<byte>, a: nat, s: seq<byte>, p: nat)
    requires |was| == |mem| == MEMORY_END && p <= |s| && a + p <= MEMORY_END
  {
    if ToFlash(a) then
      && (forall i :: 0 <= i < p ==> mem[a + i] == was[a + i] & s[i])
      && (forall i {:trigger mem[i]} :: 0 <= i < MEMORY_END && (i < a || i >= a + PagesEnd(p)) ==> mem[i] == was[i])
      && (forall i {:trigger mem[i]} :: a + p <= i < a + PagesEnd(p) && i < MEMORY_END ==> mem[i] == 0)
    else mem == Overwrite(was, a, s[..p])
  }

  /** What the worker may do between two chunks: execute a task of the disk, or complete one that
      requests the reboot. */
  datatype Between = DiskTask(task: Task, data: seq<byte>) | Reboot

  predicate Happens(e: Between) {
    e.DiskTask? ==> e.task.source == DiskSource && |e.data| == PAGE && Addressable(e.task)
  }

  /** What makes the next chunk fail: a reboot, or for all but the first chunk a disk task that
      changes memory without asking who did last. */
  predicate Disturbs(e: Between, first: bool, disabled: bool) {
    e.Reboot? || (!first && !disabled && (e.task.write || e.task.flashErase) && !e.task.checkSource)
  }

  predicate Undisturbed(events: seq<Between>, first: bool, disabled: bool) {
    forall i :: 0 <= i < |events| ==> !Disturbs(events[i], first, disabled)
  }

  predicate NoReboot(events: seq<Between>) {
    forall i :: 0 <= i < |events| ==> !events[i].Reboot?
  }

  /** Between two chunks: if no disk task has passed for the last to change memory, memory is as it
      was. */
  method Interlude(d: Device, events: seq<Between>)
    requires |d.mem| == MEMORY_END && forall i :: 0 <= i < |events| ==> Happens(events[i])
    modifies d`mem, d`lastSource, d`rebooting
    ensures |d.mem| == MEMORY_END
    ensures !d.rebooting <==> !old(d.rebooting) && NoReboot(events)
    ensures d.lastSource == PicobootSource ==> old(d.lastSource) == PicobootSource && d.mem == old(d.mem)
    ensures !d.rebooting ==>
              (d.lastSource == PicobootSource
               <==> old(d.lastSource) == PicobootSource && Undisturbed(events, false, d.queueDisable))
  {
    hide Addressable, EraseOk, WriteOk, Written, Erased, Touches;
    for k := 0 to |events|
      invariant |d.mem| == MEMORY_END
      invariant !d.rebooting <==> !old(d.rebooting) && NoReboot(events[..k])
      invariant d.lastSource == PicobootSource ==> old(d.lastSource) == PicobootSource && d.mem == old(d.mem)
      invariant !d.rebooting ==>
                  (d.lastSource == PicobootSource
                   <==> old(d.lastSource) == PicobootSource && Undisturbed(events[..k], false, d.queueDisable))
    {
      assert events[..k + 1] == events[..k] + [events[k]];
      match events[k]
      case Reboot =>
        d.rebooting := true;
      case DiskTask(t, data) =>
        if !d.queueDisable { var result := d.ExecuteTask(t, data); }
    }
    assert events[..|events|] == events;
  }

  lemma OverwriteMore(m: seq<byte>, a: nat, x: seq<byte>, y: seq<byte>)
    requires a + |x| + |y| <= |m|
    ensures Overwrite(Overwrite(m, a, x), a + |x|, y) == Overwrite(m, a, x + y)
  {
    var l, r := Overwrite(Overwrite(m, a, x), a + |x|, y), Overwrite(m, a, x + y);
    assert r[a..a + |x| + |y|] == x + y;
  }

  /** Between chunks: the part stored so far is a whole number of pages. */
  predicate WholePages(p: nat) { p % 256 == 0 }

  lemma RamChunk(was: seq<byte>, mem: seq<byte>, a: nat, s: seq<byte>, p: nat, len: nat, contents: seq<byte>)
    requires |was| == |mem| == MEMORY_END && p + len <= |s| && a + p + len <= MEMORY_END && !ToFlash(a)
    requires Stored(was, mem, a, s, p) && len <= |contents| && contents[..len] == s[p..p + len]
    ensures Stored(was, Overwrite(mem, a + p, contents[..len]), a, s, p + len)
  {
    assert s[..p] + s[p..p + len] == s[..p + len];
    OverwriteMore(was, a, s[..p], s[p..p + len]);
  }

  lemma ProgrammedByte(mem: seq<byte>, at: nat, contents: seq<byte>, i: nat)
    requires at + PAGE <= |mem| && |contents| == PAGE && i < |mem|
    ensures ProgramPage(mem, at, contents)[i] == if at <= i < at + PAGE then mem[i] & contents[i - at] else mem[i]
  {
    var page, now := Programmed(mem[at..at + PAGE], contents), ProgramPage(mem, at, contents);
    if at <= i < at + PAGE {
      assert page[i - at] == mem[at..at + PAGE][i - at] & contents[i - at];
      assert now[at..at + PAGE] == page && now[at..at + PAGE][i - at] == now[i];
    }
  }

  lemma StoredByte(was: seq<byte>, mem: seq<byte>, a: nat, s: seq<byte>, p: nat, len: nat, contents: seq<byte>, i: nat)
    requires |was| == |mem| == MEMORY_END && p + len <= |s| && a + p + PAGE <= FLASH_END && ToFlash(a)
    requires WholePages(p) && 0 < len <= PAGE && contents == Padded(s[p..p + len], PAGE) && Stored(was, mem, a, s, p)
    requires i < p + len
    ensures ProgramPage(mem, a + p, contents)[a + i] == was[a + i] & s[i]
  {
    hide ProgramPage;
    ProgrammedByte(mem, a + p, contents, a + i);
    assert PagesEnd(p) == p;
    if i >= p { assert contents[i - p] == s[i]; }
  }

  lemma FlashChunk(was: seq<byte>, mem: seq<byte>, a: nat, s: seq<byte>, p: nat, len: nat, contents: seq<byte>)
    requires |was| == |mem| == MEMORY_END && p + len <= |s| && a + p + PAGE <= FLASH_END && ToFlash(a)
    requires WholePages(p) && 0 < len <= PAGE && contents == Padded(s[p..p + len], PAGE) && Stored(was, mem, a, s, p)
    ensures Stored(was, ProgramPage(mem, a + p, contents), a, s, p + len)
  {
    var b, now := a + p, ProgramPage(mem, a + p, contents);
    assert PagesEnd(p) == p && PagesEnd(p + len) == p + PAGE;
    hide PagesEnd, ProgramPage;
    forall i | 0 <= i < p + len ensures now[a + i] == was[a + i] & s[i] {
      StoredByte(was, mem, a, s, p, len, contents, i);
    }
    forall i | 0 <= i < MEMORY_END && (i < a || i >= a + p + PAGE) ensures now[i] == was[i] {
      ProgrammedByte(mem, b, contents, i);
    }
    forall i | b + len <= i < b + PAGE ensures now[i] == 0 {
      ProgrammedByte(mem, b, contents, i);
      AndZero(mem[i]);
    }
  }

  lemma AndZero(b: byte)
    ensures b & 0 == 0
  {
  }

  /** A chunk whose task succeeds goes where the stream says. */
  lemma ChunkStored(was: seq<byte>, mem: seq<byte>, a: nat, s: seq<byte>, p: nat, t: Task, contents: seq<byte>)
    requires |was| == |mem| == MEMORY_END && p <= |s| && a + p <= MEMORY_END && Stored(was, mem, a, s, p)
    requires ToFlash(a) ==> a % 256 == 0 && a + |s| <= FLASH_END
    requires 0 < t.dataLength <= PAGE && p + t.dataLength <= |s| && WholePages(p)
    requires contents == Padded(s[p..p + t.dataLength], PAGE)
    requires t == ChunkTask(t.token, a + p, t.dataLength, t.checkSource) && WriteOk(t) && Addressable(t)
    ensures a + p + t.dataLength <= MEMORY_END && Stored(was, Written(mem, t, contents), a, s, p + t.dataLength)
  {
    hide Stored;
    assert contents[..t.dataLength] == s[p..p + t.dataLength];
    if ToFlash(a) {
      FlashChunk(was, mem, a, s, p, t.dataLength, contents);
    } else {
      RamChunk(was, mem, a, s, p, t.dataLength, contents);
    }
  }

  lemma ChunkIsAddressable(token: nat, a: nat, n: nat, p: nat, len: nat, check: bool)
    requires Reachable(a, n) && p + len <= n && 0 < len <= PAGE && WholePages(p)
    ensures Addressable(ChunkTask(token, a + p, len, check))
  {
  }

  /** A write to flash goes on only if it starts at a page. */
  lemma FirstPasses(token: nat, a: nat, n: nat, len: nat, check: bool)
    requires Reachable(a, n) && 0 < len <= 256 && len <= n && WriteOk(ChunkTask(token, a, len, check))
    ensures a <= MEMORY_END && (ToFlash(a) ==> a % 256 == 0 && a + n <= FLASH_END)
  {
    ChunkPasses(token, a, len, check);
  }

  lemma NothingStored(was: seq<byte>, a: nat, s: seq<byte>)
    requires |was| == MEMORY_END && a <= MEMORY_END
    ensures Stored(was, was, a, s, 0)
  {
  }

  /** The execution of one chunk's task by the worker, after any number of disk tasks. The first
      chunk does not ask who has last changed memory, the others do. */
  method ExecuteChunk(d: Device, events: seq<Between>, token: nat, addr: nat, len: nat, check: bool,
                      contents: seq<byte>, ghost was: seq<byte>, ghost a: nat, ghost s: seq<byte>,
                      ghost p: nat)
    returns (result: Result, ghost start: seq<byte>)
    requires |d.mem| == |was| == MEMORY_END && Reachable(a, |s|)
    requires addr == a + p && check == (p > 0) && forall i :: 0 <= i < |events| ==> Happens(events[i])
    requires 0 < len <= PAGE && p + len <= |s| && WholePages(p) && contents == Padded(s[p..p + len], PAGE)
    requires p > 0 ==> d.lastSource == PicobootSource && a + p <= MEMORY_END && Stored(was, d.mem, a, s, p)
    requires p > 0 && ToFlash(a) ==> a % 256 == 0 && a + |s| <= FLASH_END
    modifies d`mem, d`lastSource, d`rebooting
    ensures |d.mem| == |start| == MEMORY_END && (p > 0 ==> start == was)
    ensures result == Ok <==> !old(d.rebooting) && Undisturbed(events, p == 0, d.queueDisable)
                              && WriteOk(ChunkTask(token, addr, len, check))
    ensures result == Ok ==> !d.rebooting && d.lastSource == PicobootSource
    ensures result == Ok ==> a + p + len <= MEMORY_END && Stored(start, d.mem, a, s, p + len)
    ensures result == Ok && ToFlash(a) ==> a % 256 == 0 && a + |s| <= FLASH_END
  {
    hide Stored, Reachable, Addressable, WriteOk, Written, DirectAccess, FlashAccess, Happens, Padded, Touches;
    Interlude(d, events);
    ghost var before := d.mem;
    start := if p > 0 then was else before;
    var task := ChunkTask(token, addr, len, check);
    ChunkIsAddressable(token, a, |s|, p, len, check);
    result := d.ExecuteTask(task, contents);
    if result == Ok {
      if p == 0 {
        FirstPasses(token, a, |s|, len, check);
        NothingStored(before, a, s);
      }
      ChunkStored(start, before, a, s, p, task, contents);
    }
  }

  function ChunkCount(n: nat): nat { (n + 255) / 256 }

  function ChunkLength(n: nat, k: nat): nat
    requires k < ChunkCount(n)
  {
    if n < 256 * k + 256 then n - 256 * k else 256
  }

  /** What chunk k of a write of n bytes at a needs to succeed. */
  predicate Goes(a: nat, n: nat, k: nat, events: seq<Between>, disabled: bool)
    requires k < ChunkCount(n)
  {
    Undisturbed(events, k == 0, disabled) && WriteOk(ChunkTask(0, a + 256 * k, ChunkLength(n, k), k > 0))
  }

  /** All chunks of a write are in range exactly if the write is. */
  lemma AllChunksPass(a: nat, n: nat)
    requires n > 0 && Reachable(a, n)
    ensures (forall k :: 0 <= k < ChunkCount(n) ==> WriteOk(ChunkTask(0, a + 256 * k, ChunkLength(n, k), k > 0)))
            <==> InRange(a, n)
  {
    hide WriteOk;
    forall k | 0 <= k < ChunkCount(n)
      ensures InRange(a, n) ==> WriteOk(ChunkTask(0, a + 256 * k, ChunkLength(n, k), k > 0))
    {
      ChunkPasses(0, a + 256 * k, ChunkLength(n, k), k > 0);
    }
    if !InRange(a, n) { SomeChunkFails(a, n); }
  }

  lemma SomeChunkFails(a: nat, n: nat)
    requires n > 0 && Reachable(a, n) && !InRange(a, n)
    ensures exists k :: 0 <= k < ChunkCount(n) && !WriteOk(ChunkTask(0, a + 256 * k, ChunkLength(n, k), k > 0))
  {
    hide WriteOk;
    var k := if XIP_SRAM_BASE <= a < XIP_SRAM_END then (XIP_SRAM_END - a) / 256 else 0;
    if a >= SRAM_BASE { k := ChunkCount(n) - 1; }
    assert (a + 256 * k) % 256 == a % 256;
    ChunkPasses(0, a + 256 * k, ChunkLength(n, k), k > 0);
    assert !WriteOk(ChunkTask(0, a + 256 * k, ChunkLength(n, k), k > 0));
  }

  /** A disk task that does not change memory, or says so. */
  predicate Passes(e: Between, k: nat, disabled: bool) {
    e.DiskTask? && (k == 0 || disabled || !(e.task.write || e.task.flashErase) || e.task.checkSource)
  }

  lemma AllGo(a: nat, n: nat, schedule: seq<seq<Between>>, disabled: bool)
    requires n > 0 && Reachable(a, n) && |schedule| == ChunkCount(n)
    ensures (forall k :: 0 <= k < |schedule| ==> Goes(a, n, k, schedule[k], disabled))
            <==> InRange(a, n)
                 && forall k, i :: 0 <= k < |schedule| && 0 <= i < |schedule[k]| ==> Passes(schedule[k][i], k, disabled)
  {
    hide WriteOk, Reachable, InRange, ChunkCount, ChunkLength;
    AllChunksPass(a, n);
    if forall k :: 0 <= k < |schedule| ==> Goes(a, n, k, schedule[k], disabled) {
      forall k | 0 <= k < |schedule|
        ensures WriteOk(ChunkTask(0, a + 256 * k, ChunkLength(n, k), k > 0))
        ensures Undisturbed(schedule[k], k == 0, disabled)
      {
        assert Goes(a, n, k, schedule[k], disabled);
      }
    }
  }

  /** A write command of any length to any address, between any disk tasks. It succeeds exactly if
      its range lies in SRAM, in the XIP cache or, from a page on, in flash, no reboot is requested,
      and no disk task changes memory unasked between two of its chunks. It has then stored exactly
      the stream, once and in one place, over memory as it was when the first chunk was executed. */
  method StoreStream(d: Device, schedule: seq<seq<Between>>, sink: Stream, token: nat, a: nat, s: seq<byte>)
    returns (ok: bool, ghost was: seq<byte>)
    requires |d.mem| == MEMORY_END && |s| > 0 && |schedule| == (|s| + 255) / 256
    requires a < SRAM_BASE && a % 256 == 0 ==>
               a + |s| <= FLASH_END || (XIP_SRAM_BASE <= a && a + |s| <= XIP_SRAM_END)
    requires forall k, i :: 0 <= k < |schedule| && 0 <= i < |schedule[k]| ==> Happens(schedule[k][i])
    requires sink.Receiving(s, 0) && sink.offset == sink.start == 0 && sink.chunkSize == 256
    modifies d`mem, d`lastSource, d`rebooting, sink, sink.chunkBuffer
    ensures |d.mem| == |was| == MEMORY_END
    ensures ok <==>
            && !old(d.rebooting)
            && (|| (SRAM_BASE <= a && a + |s| <= SRAM_END)
                || (XIP_SRAM_BASE <= a && a + |s| <= XIP_SRAM_END)
                || (XIP_MAIN_BASE <= a && a + |s| <= FLASH_END && a % 256 == 0))
            && (forall k, i :: 0 <= k < |schedule| && 0 <= i < |schedule[k]| ==>
                  var e := schedule[k][i];
                  e.DiskTask?
                  && (k == 0 || d.queueDisable || !(e.task.write || e.task.flashErase) || e.task.checkSource))
    ensures ok ==> a + |s| <= MEMORY_END && Stored(was, d.mem, a, s, |s|) && sink.delivered == Chunks(s, 256)
  {
    hide Stored, Taken, Chunks, Padded, Happens, WriteOk;
    AllGo(a, |s|, schedule, d.queueDisable);
    ok, was := StoreChunks(d, schedule, sink, token, a, s);
  }

  /** The loop over the packets of a write. */
  method StoreChunks(d: Device, schedule: seq<seq<Between>>, sink: Stream, token: nat, a: nat, s: seq<byte>)
    returns (ok: bool, ghost was: seq<byte>)
    requires |d.mem| == MEMORY_END && Reachable(a, |s|) && |s| > 0
    requires |schedule| == ChunkCount(|s|)
    requires forall k, i :: 0 <= k < |schedule| && 0 <= i < |schedule[k]| ==> Happens(schedule[k][i])
    requires sink.Receiving(s, 0) && sink.offset == sink.start == 0 && sink.chunkSize == PAGE
    modifies d`mem, d`lastSource, d`rebooting, sink, sink.chunkBuffer
    ensures |d.mem| == |was| == MEMORY_END
    ensures ok <==> !old(d.rebooting)
                    && forall k :: 0 <= k < |schedule| ==> Goes(a, |s|, k, schedule[k], d.queueDisable)
    ensures ok ==> a + |s| <= MEMORY_END && Stored(was, d.mem, a, s, |s|) && sink.delivered == Chunks(s, PAGE)
  {
    hide Stored, Reachable, Taken, Chunks, Padded, Happens, WriteOk, Undisturbed, Goes, ChunkCount, ChunkLength;
    var addr, check, k := a, false, 0;
    was := d.mem;
    while sink.offset < |s|
      invariant |d.mem| == |was| == MEMORY_END && sink.Receiving(s, sink.offset) && sink.offset <= |s|
      invariant addr == a + sink.start && sink.start <= sink.offset && (sink.offset == |s| ==> sink.start == |s|)
      invariant k <= |schedule| && check == (sink.start > 0) == (k > 0)
      invariant if sink.offset < |s| then sink.start == 256 * k else k == |schedule|
      invariant if k == 0 then d.rebooting == old(d.rebooting) else !d.rebooting && !old(d.rebooting)
      invariant k > 0 ==> d.lastSource == PicobootSource && (ToFlash(a) ==> a % 256 == 0 && a + |s| <= FLASH_END)
      invariant k > 0 ==> a + sink.start <= MEMORY_END && Stored(was, d.mem, a, s, sink.start)
      invariant forall j :: 0 <= j < k ==> Goes(a, |s|, j, schedule[j], d.queueDisable)
      decreases |s| - sink.offset
    {
      var data := s[sink.offset..if sink.offset + PACKET < |s| then sink.offset + PACKET else |s|];
      ghost var p := sink.start;
      var chunkLen := sink.PacketHandler(data, s);
      if chunkLen > 0 {
        var result;
        SameChunk(token, a, |s|, k, chunkLen, schedule, d.queueDisable);
        result, was := ExecuteChunk(d, schedule[k], token, addr, chunkLen, check, sink.chunkBuffer[..], was, a, s, p);
        if result != Ok { return false, was; }
        check := true;
        addr := addr + chunkLen;
        k := k + 1;
      }
      sink.PacketHandlerComplete(|data|, s);
    }
    AllTaken(s, PAGE, sink.start, sink.chunkBuffer[..], sink.delivered);
    return true, was;
  }

  lemma SameChunk(token: nat, a: nat, n: nat, k: nat, len: nat, schedule: seq<seq<Between>>, disabled: bool)
    requires 0 < len <= 256 && 256 * k + len <= n && (len == 256 || 256 * k + len == n) && |schedule| == ChunkCount(n)
    ensures k < |schedule| && (256 * k + len == n <==> k + 1 == |schedule|)
    ensures Goes(a, n, k, schedule[k], disabled)
            <==> Undisturbed(schedule[k], k == 0, disabled) && WriteOk(ChunkTask(token, a + 256 * k, len, k > 0))
  {
    hide Undisturbed;
  }

  /** What that means. In RAM the stream is there and no other byte has changed. In flash every byte
      has kept the bits it has in common with the stream, which over erased flash is the stream; the
      rest of its last page is zero; and no byte outside its pages has changed. */
  lemma StoredMeans(was: seq<byte>, mem: seq<byte>, a: nat, s: seq<byte>, i: nat)
    requires |was| == |mem| == MEMORY_END && a + |s| <= MEMORY_END && Stored(was, mem, a, s, |s|) && i < MEMORY_END
    ensures a >= FLASH_END ==> mem[i] == if a <= i < a + |s| then s[i - a] else was[i]
    ensures a < FLASH_END && a <= i < a + |s| ==> mem[i] == was[i] & s[i - a] && (was[i] == 0xff ==> mem[i] == s[i - a])
    ensures a < FLASH_END && a + |s| <= i < a + (|s| + 255) / 256 * 256 ==> mem[i] == 0
    ensures a < FLASH_END && (i < a || i >= a + (|s| + 255) / 256 * 256) ==> mem[i] == was[i]
  {
    assert s[..|s|] == s;
    if ToFlash(a) {
      if a <= i < a + |s| {
        assert mem[a + (i - a)] == was[a + (i - a)] & s[i - a];
        OnesAnd(s[i - a]);
      }
    } else if a <= i < a + |s| {
      assert mem[i] == mem[a..a + |s|][i - a];
    }
  }

  lemma OnesAnd(b: byte)
    ensures 0xff & b == b
  {
  }

  /** A PICOBOOT erase command: it succeeds exactly for whole sectors of flash, unless a reboot is
      requested, and has then set every byte of them and changed no other. */
  method EraseFlash(d: Device, token: nat, a: nat, n: nat) returns (result: Result)
    requires |d.mem| == MEMORY_END
    requires a % 4096 == 0 && n % 4096 == 0 && XIP_MAIN_BASE <= a && a + n <= SRAM_BASE ==> a + n <= FLASH_END
    modifies d`mem, d`lastSource
    ensures |d.mem| == MEMORY_END
    ensures result == Ok <==>
            !d.rebooting && a % 4096 == 0 && n % 4096 == 0 && XIP_MAIN_BASE <= a && a + n <= FLASH_END
    ensures forall i :: 0 <= i < MEMORY_END ==>
              d.mem[i] == if result == Ok && a <= i < a + n then 0xff else old(d.mem)[i]
  {
    hide ErasedRange;
    ErasePasses(token, a, n);
    result := d.ExecuteTask(EraseTask(token, a, n), Blank(PAGE));
    if result == Ok {
      forall i | 0 <= i < MEMORY_END ensures d.mem[i] == if a <= i < a + n then 0xff else old(d.mem)[i] {
        ErasedMeans(old(d.mem), a, n, i);
      }
    }
  }
}
