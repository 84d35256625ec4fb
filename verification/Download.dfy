/** Runs of the virtual disk: sectors arrive, the worker executes tasks, the other interface takes
    exclusive access and writes chunks of its own. What becomes of one image, and of memory. */
module Download {
  import opened Memory
  import opened Tasks
  import opened Deliveries
  import opened VirtualDisk

  /** The host waits for the task of a sector, so that a sector arrives with no task waiting. */
  datatype Event =
    | Arrives(sector: Sector, token: nat)
    | Works
    | SetsExclusive(on: bool)
    | Chunk(task: Task, data: seq<byte>)

  /** The most blocks for which every erase bit is cleared when the download starts. */
  function MostBlocks(ram: bool): nat { if ram then MAX_RAM_BLOCKS else 16 * CLEARED_PAGES_RESET }

  /** A UF2 block of an image of n blocks; other sectors are of no interest. */
  predicate OfImage(s: Sector, n: nat, ram: bool) {
    && Reachable(s) && n <= MostBlocks(ram)
    && (IsUf2(s) ==> Acceptable(s) && ForRam(s) == ram && s.numBlocks == n && s.blockNo < n)
  }

  predicate ChunkOf(t: Task, data: seq<byte>) {
    |data| == PAGE && Addressable(t) && t == ChunkTask(t.token, t.transferAddr, t.dataLength, t.checkSource)
  }

  predicate EventOf(e: Event, n: nat, ram: bool) {
    (e.Arrives? ==> OfImage(e.sector, n, ram)) && (e.Chunk? ==> ChunkOf(e.task, e.data))
  }

  // ---- The course of a download, by its events alone ----

  /** base is memory as it was when the tracker was last reset or a chunk last stored, since the
      number of tasks executed before that; held says of each task executed whether the other
      interface had exclusive access then. */
  datatype Course = Course(exclusive: bool, open: bool, reboot: bool, last: Source, base: seq<byte>, since: nat,
                           h: History, held: seq<bool>)

  /** Whether the worker carries out the task of a delivery. */
  predicate CarriedOut(ram: bool, d: Delivery, exclusive: bool) { !exclusive && (ram ==> DirectPage(d.addr)) }

  ghost predicate CourseOk(c: Course, n: nat, ram: bool) {
    && |c.base| == MEMORY_END && c.since <= |c.h.results| <= |c.h.delivered| <= |c.h.results| + 1
    && c.h.stale == {} && RecordedFor(c.h, ram) && |c.held| == |c.h.results|
    && (forall i :: 0 <= i < |c.held| ==> (c.h.results[i] <==> CarriedOut(ram, c.h.delivered[i], c.held[i])))
    && (forall i :: 0 <= i < |c.h.delivered| ==> c.h.delivered[i].block < n)
    && (c.reboot ==> AllDelivered(c.h.delivered, n) && |c.h.results| == |c.h.delivered|)
  }

  lemma SuffixInMemory(h: History, ram: bool, k: nat)
    requires RecordedFor(h, ram) && k <= |h.delivered|
    ensures AllInMemory(h.delivered, ram) && AllInMemory(h.delivered[k..], ram)
  {
  }

  ghost function Mem(c: Course, n: nat, ram: bool): (r: seq<byte>)
    requires CourseOk(c, n, ram)
    ensures |r| == MEMORY_END
  {
    SuffixInMemory(c.h, ram, c.since);
    Replay(c.base, ram, c.h.delivered[c.since..], c.h.results[c.since..])
  }

  /** The worker's turn: a task is turned down under exclusive access, or if it is for a RAM page
      whose end is out of range. */
  ghost function Work(c: Course, n: nat, ram: bool): (r: Course)
    requires CourseOk(c, n, ram) && !c.reboot
    ensures CourseOk(r, n, ram)
  {
    hide RecordedFor, AllDelivered;
    if |c.h.results| == |c.h.delivered| then c
    else
      var ok := CarriedOut(ram, c.h.delivered[|c.h.results|], c.exclusive);
      RecordResult(c.h, ram, ok);
      c.(h := c.h.(results := c.h.results + [ok]), held := c.held + [c.exclusive],
         last := if c.exclusive then c.last else DiskSource, reboot := ok && c.open && AllDelivered(c.h.delivered, n))
  }

  /** A UF2 block arrives: under exclusive access the tracker gives up, otherwise the block is
      delivered unless it has been before. */
  ghost function Take(c: Course, s: Sector, n: nat, ram: bool): (r: Course)
    requires CourseOk(c, n, ram) && !c.reboot && OfImage(s, n, ram) && IsUf2(s) && |c.h.results| == |c.h.delivered|
    ensures CourseOk(r, n, ram)
  {
    hide RecordedFor, AllDelivered, Has, HasGroup, Group, IsUf2, OfImage, InMemory, PageAddress;
    if c.exclusive then c.(open := false)
    else
      NothingRecorded(ram);
      var o := if c.open then c else c.(open := true, base := Mem(c, n, ram), since := 0, h := NewHistory, held := []);
      if Has(o.h.delivered, s.blockNo) then o
      else
        var d := Delivery(s.blockNo, s.targetAddr, s.data, !ram && !HasGroup(o.h.delivered, Group(s.blockNo)));
        SectorInMemory(s, n, ram, d);
        RecordMore(o.h, ram, d);
        o.(h := o.h.(delivered := o.h.delivered + [d]))
  }

  lemma NothingRecorded(ram: bool)
    ensures RecordedFor(NewHistory, ram)
  {
  }

  lemma SectorInMemory(s: Sector, n: nat, ram: bool, d: Delivery)
    requires OfImage(s, n, ram) && IsUf2(s) && d.addr == s.targetAddr && d.data == s.data && (ram ==> !d.erase)
    ensures InMemory(d, ram) && PageAddress(d.addr, ram) && s.blockNo < n
  {
  }

  /** A chunk of the other interface: it asks who changed memory last, if at all, only for itself. */
  ghost function Store(c: Course, t: Task, data: seq<byte>, n: nat, ram: bool): (r: Course)
    requires CourseOk(c, n, ram) && !c.reboot && ChunkOf(t, data)
    ensures CourseOk(r, n, ram)
  {
    hide RecordedFor, AllDelivered, Addressable, WriteOk;
    if !SourceOk(t, c.last) then c
    else if !WriteOk(t) then c.(last := PicobootSource)
    else c.(last := PicobootSource, base := Written(Mem(c, n, ram), t, data), since := |c.h.results|)
  }

  /** After the reboot has been requested nothing changes any more. */
  ghost function Next(c: Course, e: Event, n: nat, ram: bool): (r: Course)
    requires CourseOk(c, n, ram) && EventOf(e, n, ram)
    ensures CourseOk(r, n, ram)
  {
    hide CourseOk, OfImage, ChunkOf, IsUf2;
    if c.reboot then c
    else match e
      case Works => Work(c, n, ram)
      case SetsExclusive(on) => WithExclusive(c, on, n, ram)
      case Chunk(t, data) => Store(c, t, data, n, ram)
      case Arrives(s, _) =>
        var w := Work(c, n, ram);
        WorkEnds(c, n, ram);
        if w.reboot || !IsUf2(s) then w else Take(w, s, n, ram)
  }

  ghost function WithExclusive(c: Course, on: bool, n: nat, ram: bool): (r: Course)
    requires CourseOk(c, n, ram)
    ensures CourseOk(r, n, ram)
  {
    c.(exclusive := on)
  }

  lemma WorkEnds(c: Course, n: nat, ram: bool)
    requires CourseOk(c, n, ram) && !c.reboot
    ensures |Work(c, n, ram).h.results| == |Work(c, n, ram).h.delivered|
  {
    hide RecordedFor, AllDelivered;
  }

  ghost function Follow(c: Course, es: seq<Event>, n: nat, ram: bool): (r: Course)
    requires CourseOk(c, n, ram) && forall i :: 0 <= i < |es| ==> EventOf(es[i], n, ram)
    ensures CourseOk(r, n, ram)
  {
    if es == [] then c else Next(Follow(c, es[..|es| - 1], n, ram), es[|es| - 1], n, ram)
  }

  /** No image has been started, and none of its tasks is waiting. */
  function Start(mem: seq<byte>, exclusive: bool, last: Source): Course {
    Course(exclusive, false, false, last, mem, 0, NewHistory, [])
  }

  // ---- What memory holds along the course ----

  lemma WorkMem(c: Course, n: nat, ram: bool)
    requires CourseOk(c, n, ram) && !c.reboot && |c.h.results| < |c.h.delivered|
    ensures InMemory(c.h.delivered[|c.h.results|], ram)
    ensures var r := Work(c, n, ram);
            Mem(r, n, ram) ==
              if r.h.results[|c.h.results|] then Stored(Mem(c, n, ram), ram, c.h.delivered[|c.h.results|])
              else Mem(c, n, ram)
  {
    hide RecordedFor, AllDelivered, Stored;
    SuffixInMemory(c.h, ram, c.since);
    var r, ds := Work(c, n, ram), c.h.delivered[c.since..];
    var ok := r.h.results[c.since..];
    assert ok[..|ok| - 1] == c.h.results[c.since..];
    assert ds[|ok| - 1] == c.h.delivered[|c.h.results|];
  }

  lemma TakeMem(c: Course, s: Sector, n: nat, ram: bool)
    requires CourseOk(c, n, ram) && !c.reboot && OfImage(s, n, ram) && IsUf2(s) && |c.h.results| == |c.h.delivered|
    ensures Mem(Take(c, s, n, ram), n, ram) == Mem(c, n, ram)
  {
    hide RecordedFor, AllDelivered, Stored, OfImage, IsUf2, Has, HasGroup, Group;
    var r := Take(c, s, n, ram);
    SuffixInMemory(r.h, ram, r.since);
    if !c.exclusive {
      SuffixInMemory(c.h, ram, c.since);
      assert NewHistory.results[0..] == [];
      if c.open {
        ReplayPrefix(c.base, ram, c.h.delivered[c.since..], r.h.delivered[c.since..], c.h.results[c.since..]);
      } else {
        assert r.h.results[0..] == [];
      }
    }
  }

  lemma StoreMem(c: Course, t: Task, data: seq<byte>, n: nat, ram: bool)
    requires CourseOk(c, n, ram) && !c.reboot && ChunkOf(t, data)
    ensures Mem(Store(c, t, data, n, ram), n, ram)
            == if SourceOk(t, c.last) && WriteOk(t) then Written(Mem(c, n, ram), t, data) else Mem(c, n, ram)
  {
    hide RecordedFor, AllDelivered, Stored, Addressable, WriteOk, Written;
    assert c.h.results[|c.h.results|..] == [];
  }

  // ---- The device follows its course ----

  ghost predicate Follows(d: Device, c: Course, n: nat, ram: bool)
    reads d, d.ramValid, d.flashValid, d.clearedPages
  {
    && d.Valid() && CourseOk(c, n, ram) && d.rebooting == c.reboot && d.mem == Mem(c, n, ram)
    && (c.reboot ==> if ram then LowestOf(c.h.delivered, d.rebootAddr) else d.rebootAddr == 0)
    && (!c.reboot ==>
          && d.queueDisable == c.exclusive && d.lastSource == c.last && d.numBlocks == (if c.open then n else 0)
          && (d.queueFull <==> |c.h.results| < |c.h.delivered|)
          && (c.open || d.queueFull ==>
                d.isRam == ram && d.h.delivered == c.h.delivered && d.h.results == c.h.results))
  }


  lemma WaitingDelivery(d: Device, c: Course, n: nat, ram: bool)
    requires Follows(d, c, n, ram) && d.queueFull
    ensures |d.mem| == MEMORY_END && d.Waiting() && |d.h.results| < |d.h.delivered|
    ensures !c.reboot ==> && n > 0 && |c.h.results| < |c.h.delivered| && d.h.delivered == c.h.delivered
                          && d.h.results == c.h.results && d.isRam == ram
  {
    hide RecordedFor, LowestOf, AllDelivered, Device.Bitmaps;
  }

  lemma NoWork(c: Course, n: nat, ram: bool)
    requires CourseOk(c, n, ram) && !c.reboot && |c.h.results| >= |c.h.delivered|
    ensures Work(c, n, ram) == c
  {
    hide RecordedFor;
  }

  method WorksNext(d: Device, ghost c: Course, ghost n: nat, ghost ram: bool)
    requires Follows(d, c, n, ram)
    modifies d
    ensures !d.queueFull && Follows(d, if c.reboot then c else Work(c, n, ram), n, ram)
  {
    hide Device.Valid, CourseOk, Mem, Stored, AllDelivered, DirectPage;
    if d.queueFull {
      WaitingDelivery(d, c, n, ram);
      if !c.reboot { WorkMem(c, n, ram); }
      d.WorkerTurn();
    } else {
      if !c.reboot { NoWork(c, n, ram); }
    }
  }

  method Takes(d: Device, s: Sector, token: nat, ghost c: Course, ghost n: nat, ghost ram: bool)
    requires Follows(d, c, n, ram) && !d.queueFull && OfImage(s, n, ram)
    modifies d, d.ramValid, d.flashValid, d.clearedPages
    ensures c.reboot || !IsUf2(s) ==> Follows(d, c, n, ram)
    ensures !c.reboot && IsUf2(s) ==> CourseOk(c, n, ram) && |c.h.results| == |c.h.delivered|
    ensures !c.reboot && IsUf2(s) ==> Follows(d, Take(c, s, n, ram), n, ram)
  {
    hide Device.Valid, CourseOk, Mem, IsUf2, Has, HasGroup, Group, RecordedFor, Acceptable, ForRam;
    if !c.reboot { NothingWaits(d, c, n, ram); }
    if !c.reboot && IsUf2(s) { TakeMem(c, s, n, ram); }
    var async := d.VdWriteBlock(s, token);
    if IsUf2(s) && !ram { NoneLeftOver(d, s, n, ram); }
  }

  lemma NothingWaits(d: Device, c: Course, n: nat, ram: bool)
    requires Follows(d, c, n, ram) && !d.queueFull && !c.reboot
    ensures |c.h.results| == |c.h.delivered|
  {
    hide RecordedFor, AllDelivered, Device.Valid;
  }

  /** No erase bit that a block of the image may use is ever left over. */
  lemma NoneLeftOver(d: Device, s: Sector, n: nat, ram: bool)
    requires d.Valid() && OfImage(s, n, ram) && IsUf2(s) && !ram
    ensures Group(s.blockNo) !in d.h.stale
  {
    hide LowestOf, Device.Bitmaps, IsUf2, Acceptable, Has, HasGroup;
  }

  method Stores(d: Device, t: Task, data: seq<byte>, ghost c: Course, ghost n: nat, ghost ram: bool)
    requires Follows(d, c, n, ram) && ChunkOf(t, data)
    modifies d`mem, d`lastSource
    ensures Follows(d, if c.reboot then c else Store(c, t, data, n, ram), n, ram)
  {
    hide CourseOk, Mem, Addressable, WriteOk, Written, Device.Bitmaps, Device.Waiting, Device.Recorded, Device.Lowest;
    if !c.reboot { StoreMem(c, t, data, n, ram); }
    var result := d.ExecuteTask(t, data);
    assert t.write && !t.flashErase;
  }

  method Excludes(d: Device, on: bool, ghost c: Course, ghost n: nat, ghost ram: bool)
    requires Follows(d, c, n, ram)
    modifies d
    ensures Follows(d, if c.reboot then c else WithExclusive(c, on, n, ram), n, ram)
  {
    hide RecordedFor, Device.Valid, AllDelivered;
    d.SetExclusive(on);
  }

  /** One event on the device. */
  method Step(d: Device, e: Event, ghost c: Course, ghost n: nat, ghost ram: bool)
    requires Follows(d, c, n, ram) && EventOf(e, n, ram)
    modifies d, d.ramValid, d.flashValid, d.clearedPages
    ensures Follows(d, Next(c, e, n, ram), n, ram)
  {
    hide Follows, CourseOk, OfImage, ChunkOf, IsUf2;
    FollowsOk(d, c, n, ram);
    match e
    case Works => WorksNext(d, c, n, ram);
    case SetsExclusive(on) => Excludes(d, on, c, n, ram);
    case Chunk(t, data) => Stores(d, t, data, c, n, ram);
    case Arrives(s, token) =>
      WorksNext(d, c, n, ram);
      ghost var w := if c.reboot then c else Work(c, n, ram);
      Takes(d, s, token, w, n, ram);
  }

  lemma FollowsOk(d: Device, c: Course, n: nat, ram: bool)
    requires Follows(d, c, n, ram)
    ensures CourseOk(c, n, ram)
  {
    hide Device.Valid;
  }

  /** Over every run of events the device keeps to the course of its download. */
  method Run(d: Device, events: seq<Event>, ghost c: Course, ghost n: nat, ghost ram: bool)
    requires Follows(d, c, n, ram) && forall i :: 0 <= i < |events| ==> EventOf(events[i], n, ram)
    modifies d, d.ramValid, d.flashValid, d.clearedPages
    ensures CourseOk(c, n, ram) && Follows(d, Follow(c, events, n, ram), n, ram)
  {
    hide Follows, CourseOk, EventOf, Next;
    FollowsOk(d, c, n, ram);
    assert events[..0] == [];
    for i := 0 to |events|
      invariant Follows(d, Follow(c, events[..i], n, ram), n, ram)
    {
      assert events[..i + 1][..i] == events[..i];
      Step(d, events[i], Follow(c, events[..i], n, ram), n, ram);
    }
    assert events[..|events|] == events;
  }

  // ---- What memory holds at the reboot ----

  lemma StartFollows(d: Device, n: nat, ram: bool)
    requires d.Valid() && !d.queueFull && d.numBlocks == 0 && !d.rebooting
    ensures Follows(d, Start(d.mem, d.queueDisable, d.lastSource), n, ram)
  {
    hide LowestOf;
  }

  /** When the reboot is requested every block has been delivered, once, and memory is what the tasks
      carried out have made of it. */
  lemma AtReboot(c: Course, n: nat, ram: bool)
    requires CourseOk(c, n, ram) && c.reboot
    ensures |c.h.delivered| == |c.h.results| == |c.held| == n && AllDelivered(c.h.delivered, n)
    ensures AllInMemory(c.h.delivered, ram) && FirstErases(c.h.delivered, ram, {})
    ensures c.since == 0 ==> Mem(c, n, ram) == Replay(c.base, ram, c.h.delivered, c.h.results)
  {
    hide PageAddress, Has, HasGroup, Replay, InMemory;
    EveryBlock(c.h.delivered, n);
    assert c.h.delivered[0..] == c.h.delivered && c.h.results[0..] == c.h.results;
  }

  /** If no chunk has been stored since the tracker was reset, an image whose blocks do not disturb
      each other is in memory at the reboot, whatever memory held at that reset, exactly if each of
      its tasks was carried out or could do no harm by not being: no other interface had exclusive
      access when the worker came to it, and its end was in range if it was for RAM. */
  lemma RightAtReboot(c: Course, n: nat, ram: bool)
    requires CourseOk(c, n, ram) && c.reboot && c.since == 0 && Placed(c.h.delivered, ram)
    ensures |c.h.delivered| == |c.h.results| == |c.held| == n && AllInMemory(c.h.delivered, ram)
    ensures Mem(c, n, ram) == Replay(c.base, ram, c.h.delivered, c.h.results)
    ensures AlwaysRight(ram, c.h.delivered, c.h.results)
            <==> forall i :: 0 <= i < n ==>
                   CarriedOut(ram, c.h.delivered[i], c.held[i]) || Harmless(ram, c.h.delivered[i])
  {
    hide AlwaysRight, Placed, FirstErases, CarriedOut, Harmless, RecordedFor, AllDelivered, Mem, Replay;
    AtReboot(c, n, ram);
    TurnedDown(ram, c.h.delivered, c.h.results, {});
  }

  /** Page by page, whether carried out or turned down: a task carried out leaves its data, in flash
      over an erased sector or over what was there if the eraser was turned down; one turned down
      leaves what was there, or an erased page. */
  lemma PageAtReboot(d: Device, c: Course, n: nat, ram: bool, i: nat)
    requires Follows(d, c, n, ram) && d.rebooting && c.since == 0 && Placed(c.h.delivered, ram) && i < n
    ensures |d.mem| == |c.base| == MEMORY_END && |c.h.delivered| == |c.h.results| == |c.held| == n
    ensures AllInMemory(c.h.delivered, ram)
    ensures var e := c.h.delivered[i];
            var was := PageAt(c.base, e.addr);
            var erased := if !ram && SectorErased(c.h.delivered, c.h.results, e.addr) then Blank(PAGE) else was;
            PageAt(d.mem, e.addr) ==
            if !CarriedOut(ram, e, c.held[i]) then erased else if ram then e.data else Programmed(erased, e.data)
  {
    hide Device.Valid, Placed, FirstErases, CarriedOut, RecordedFor, AllDelivered, Mem, Replay, SectorErased;
    AtReboot(c, n, ram);
    var ds := c.h.delivered;
    FirstIsOnlyEraser(ds, ram, {});
    PlacedOnce(ds, ram);
    if ram {
      RamOutcome(c.base, ds, c.h.results, i);
    } else {
      ReplayPage(c.base, ds, c.h.results, ds[i].addr);
      PageOutcome(PageAt(c.base, ds[i].addr), ds, c.h.results, i);
    }
  }

  lemma PlacedOnce(ds: seq<Delivery>, ram: bool)
    requires Placed(ds, ram)
    ensures if ram then RamPlaced(ds) else FlashPlaced(ds)
    ensures forall i :: 0 <= i < |ds| ==> ds[i].addr + PAGE <= MEMORY_END && (!ram ==> FlashPage(ds[i].addr))
  {
  }

  /** If chunks have been stored, and every flash task after the last of them was carried out, the
      image is in memory at the reboot exactly if memory was still right after that chunk. */
  lemma RightAfterChunks(c: Course, n: nat)
    requires CourseOk(c, n, false) && c.reboot && FlashPlaced(c.h.delivered)
    requires forall i :: c.since <= i < |c.held| ==> !c.held[i]
    ensures AllInMemory(c.h.delivered, false)
    ensures ImageIn(Mem(c, n, false), false, c.h.delivered) <==> StillRight(c.base, c.h.delivered, c.since)
  {
    hide ImageIn, StillRight, FlashPlaced, FirstErases, RecordedFor, AllDelivered, Replay;
    AtReboot(c, n, false);
    FirstIsOnlyEraser(c.h.delivered, false, {});
    assert c.h.results[c.since..] == AllTrue(n - c.since);
    OthersMayWrite(c.base, c.h.delivered, c.since);
  }

  // ---- Sectors one by one, each task executed before the next ----

  function Sent(sectors: seq<Sector>, tokens: seq<nat>): (r: seq<Event>)
    requires |tokens| == |sectors|
    ensures |r| == 2 * |sectors|
  {
    if sectors == [] then []
    else
      var k := |sectors| - 1;
      Sent(sectors[..k], tokens[..k]) + [Arrives(sectors[k], tokens[k]), Works]
  }

  lemma {:induction false} SentEvents(sectors: seq<Sector>, tokens: seq<nat>, n: nat, ram: bool)
    requires |tokens| == |sectors| && forall i :: 0 <= i < |sectors| ==> OfImage(sectors[i], n, ram)
    ensures forall i :: 0 <= i < |Sent(sectors, tokens)| ==> EventOf(Sent(sectors, tokens)[i], n, ram)
  {
    hide OfImage;
    if sectors != [] {
      SentEvents(sectors[..|sectors| - 1], tokens[..|sectors| - 1], n, ram);
    }
  }

  /** The block of a sector, delivered unless it has been before. */
  function Adding(ds: seq<Delivery>, s: Sector, ram: bool): (r: seq<Delivery>) {
    if IsUf2(s) && !Has(ds, s.blockNo) then
      ds + [Delivery(s.blockNo, s.targetAddr, s.data, !ram && !HasGroup(ds, Group(s.blockNo)))]
    else ds
  }

  /** The first delivery of each block, whatever the order and the duplicates. */
  function Collected(sectors: seq<Sector>, ram: bool): (ds: seq<Delivery>) {
    if sectors == [] then []
    else
      Adding(Collected(sectors[..|sectors| - 1], ram), sectors[|sectors| - 1], ram)
  }

  ghost predicate Smooth(c: Course, mem: seq<byte>, n: nat, ram: bool) {
    && CourseOk(c, n, ram) && !c.exclusive && c.since == 0 && c.base == mem
    && c.h.results == AllTrue(|c.h.delivered|) && (!c.open ==> c.h.delivered == [])
    && (c.reboot <==> c.h.delivered != [] && AllDelivered(c.h.delivered, n))
  }

  lemma SmoothTake(c: Course, mem: seq<byte>, s: Sector, n: nat, ram: bool)
    requires Smooth(c, mem, n, ram) && !c.reboot && OfImage(s, n, ram) && IsUf2(s)
    ensures var r := Take(c, s, n, ram);
            && !r.exclusive && r.since == 0 && r.base == mem && r.open && !r.reboot
            && r.h.results == AllTrue(|c.h.delivered|) && r.h.delivered == Adding(c.h.delivered, s, ram)
  {
    hide IsUf2, OfImage, Has, HasGroup, Group, RecordedFor, AllDelivered, CarriedOut;
    if !c.open {
      assert c.h.results[0..] == [] && c.h.delivered[0..] == [];
      assert Mem(c, n, ram) == mem by { SuffixInMemory(c.h, ram, 0); }
    }
  }

  lemma SmoothWork(c: Course, mem: seq<byte>, k: nat, n: nat, ram: bool)
    requires CourseOk(c, n, ram) && !c.exclusive && c.since == 0 && c.base == mem && c.open && !c.reboot
    requires k == |c.h.results| < |c.h.delivered| && c.h.results == AllTrue(k)
    requires ram ==> DirectPage(c.h.delivered[k].addr)
    ensures Smooth(Work(c, n, ram), mem, n, ram) && Work(c, n, ram).h.delivered == c.h.delivered
  {
    hide RecordedFor, DirectPage, Has;
    assert AllTrue(k) + [true] == AllTrue(k + 1);
  }

  /** A block of a RAM image ends where the worker's range check allows. */
  predicate EndsInRange(s: Sector, ram: bool) { IsUf2(s) && ram ==> DirectPage(s.targetAddr) }

  lemma SmoothStep(c: Course, mem: seq<byte>, s: Sector, token: nat, n: nat, ram: bool)
    requires Smooth(c, mem, n, ram) && OfImage(s, n, ram) && EndsInRange(s, ram)
    ensures var r := Next(Next(c, Arrives(s, token), n, ram), Works, n, ram);
            Smooth(r, mem, n, ram) && r.h.delivered == Adding(c.h.delivered, s, ram)
  {
    hide IsUf2, OfImage, Has, HasGroup, Group, RecordedFor, CarriedOut, Work, Take, DirectPage;
    if c.reboot {
      if IsUf2(s) { BlockOfImage(s, n, ram); }
    } else {
      NoWork(c, n, ram);
      if IsUf2(s) {
        SmoothTake(c, mem, s, n, ram);
        var t := Take(c, s, n, ram);
        if Has(c.h.delivered, s.blockNo) {
          NoWork(t, n, ram);
        } else {
          SmoothWork(t, mem, |c.h.delivered|, n, ram);
        }
      }
    }
  }

  lemma BlockOfImage(s: Sector, n: nat, ram: bool)
    requires OfImage(s, n, ram) && IsUf2(s)
    ensures s.blockNo < n
  {
    hide IsUf2;
  }

  lemma {:induction false} SmoothRun(mem: seq<byte>, last: Source, sectors: seq<Sector>, tokens: seq<nat>, n: nat,
                                     ram: bool)
    requires |mem| == MEMORY_END && |tokens| == |sectors|
    requires forall i :: 0 <= i < |sectors| ==> OfImage(sectors[i], n, ram) && EndsInRange(sectors[i], ram)
    ensures forall i :: 0 <= i < |Sent(sectors, tokens)| ==> EventOf(Sent(sectors, tokens)[i], n, ram)
    ensures CourseOk(Start(mem, false, last), n, ram)
    ensures var c := Follow(Start(mem, false, last), Sent(sectors, tokens), n, ram);
            Smooth(c, mem, n, ram) && c.h.delivered == Collected(sectors, ram)
  {
    hide Smooth, OfImage, Adding, Next, EndsInRange;
    var c := Start(mem, false, last);
    StartSmooth(mem, last, n, ram);
    SentEvents(sectors, tokens, n, ram);
    if sectors != [] {
      var k := |sectors| - 1;
      var s, es := sectors[k], Sent(sectors[..k], tokens[..k]);
      SmoothRun(mem, last, sectors[..k], tokens[..k], n, ram);
      SmoothStep(Follow(c, es, n, ram), mem, s, tokens[k], n, ram);
      FollowTwo(c, es, Arrives(s, tokens[k]), Works, n, ram);
    }
  }

  lemma StartSmooth(mem: seq<byte>, last: Source, n: nat, ram: bool)
    requires |mem| == MEMORY_END
    ensures Smooth(Start(mem, false, last), mem, n, ram)
  {
  }

  lemma FollowTwo(c: Course, es: seq<Event>, e: Event, f: Event, n: nat, ram: bool)
    requires CourseOk(c, n, ram) && EventOf(e, n, ram) && EventOf(f, n, ram)
    requires forall i :: 0 <= i < |es| ==> EventOf(es[i], n, ram)
    ensures Follow(c, es + [e, f], n, ram) == Next(Next(Follow(c, es, n, ram), e, n, ram), f, n, ram)
  {
    hide EventOf, Next, CourseOk;
    var more := es + [e, f];
    assert more[..|more| - 1] == es + [e] && (es + [e])[..|es|] == es;
  }

  /** The sector is the first to bring its block. */
  predicate IsFirst(sectors: seq<Sector>, i: nat)
    requires i < |sectors|
  {
    && IsUf2(sectors[i])
    && forall j :: 0 <= j < i && IsUf2(sectors[j]) ==> sectors[j].blockNo != sectors[i].blockNo
  }

  predicate Sends(sectors: seq<Sector>, b: nat) {
    exists i :: 0 <= i < |sectors| && IsUf2(sectors[i]) && sectors[i].blockNo == b
  }

  /** What has been collected is exactly what arrived first. */
  lemma {:induction false} CollectedMeans(sectors: seq<Sector>, b: nat, ram: bool)
    ensures Has(Collected(sectors, ram), b) <==> Sends(sectors, b)
    ensures forall i :: 0 <= i < |sectors| && IsFirst(sectors, i) && sectors[i].blockNo == b ==>
              exists k :: 0 <= k < |Collected(sectors, ram)| && Collected(sectors, ram)[k].block == b
                          && Collected(sectors, ram)[k].addr == sectors[i].targetAddr
                          && Collected(sectors, ram)[k].data == sectors[i].data
  {
    hide IsUf2, Group, HasGroup;
    if sectors != [] {
      var n := |sectors| - 1;
      var before, ds := Collected(sectors[..n], ram), Collected(sectors, ram);
      CollectedMeans(sectors[..n], b, ram);
      assert forall i :: 0 <= i < n ==> sectors[..n][i] == sectors[i];
      assert forall k :: 0 <= k < |before| ==> ds[k] == before[k];
      if ds != before { HasMore(before, ds[|before|]); }
      forall i | 0 <= i < |sectors| && IsFirst(sectors, i) && sectors[i].blockNo == b
        ensures exists k :: 0 <= k < |ds| && ds[k].block == b && ds[k].addr == sectors[i].targetAddr
                            && ds[k].data == sectors[i].data
      {
        if i < n {
          assert IsFirst(sectors[..n], i);
          var k :| 0 <= k < |before| && before[k].block == b && before[k].addr == sectors[i].targetAddr
                   && before[k].data == sectors[i].data;
          assert ds[k] == before[k];
        } else {
          assert !Sends(sectors[..n], b);
          assert ds[|before|].block == b;
        }
      }
    }
  }

  ghost predicate Everything(sectors: seq<Sector>, n: nat) {
    forall b :: 0 <= b < n ==> Sends(sectors, b)
  }

  /** The device has no image under way. */
  ghost predicate Idle(d: Device)
    reads d, d.ramValid, d.flashValid, d.clearedPages
  {
    d.Valid() && !d.queueFull && d.numBlocks == 0 && !d.rebooting
  }

  /** Sectors of one image written to the device, each task executed before the next: it follows a
      course without trouble. */
  method SendSectors(d: Device, sectors: seq<Sector>, tokens: seq<nat>, ghost n: nat, ghost ram: bool)
    returns (ghost c: Course)
    requires Idle(d) && !d.queueDisable && |tokens| == |sectors|
    requires forall i :: 0 <= i < |sectors| ==> OfImage(sectors[i], n, ram) && EndsInRange(sectors[i], ram)
    modifies d, d.ramValid, d.flashValid, d.clearedPages
    ensures Follows(d, c, n, ram) && old(|d.mem|) == MEMORY_END && Smooth(c, old(d.mem), n, ram)
    ensures c.h.delivered == Collected(sectors, ram)
  {
    hide Follows, Smooth, OfImage, Device.Valid, Next, EndsInRange;
    StartFollows(d, n, ram);
    c := Start(d.mem, false, d.lastSource);
    StartMemory(d, c, n, ram);
    SmoothRun(d.mem, d.lastSource, sectors, tokens, n, ram);
    Run(d, Sent(sectors, tokens), c, n, ram);
    c := Follow(c, Sent(sectors, tokens), n, ram);
  }

  lemma StartMemory(d: Device, c: Course, n: nat, ram: bool)
    requires Follows(d, c, n, ram)
    ensures |d.mem| == MEMORY_END
  {
    hide Device.Valid, CourseOk;
  }

  lemma SmoothReboots(c: Course, mem: seq<byte>, sectors: seq<Sector>, n: nat, ram: bool)
    requires |mem| == MEMORY_END && Smooth(c, mem, n, ram) && c.h.delivered == Collected(sectors, ram)
    ensures AllInMemory(c.h.delivered, ram) && Distinct(c.h.delivered) && FirstErases(c.h.delivered, ram, {})
    ensures Mem(c, n, ram) == Replay(mem, ram, c.h.delivered, AllTrue(|c.h.delivered|))
    ensures c.reboot <==> n > 0 && Everything(sectors, n)
  {
    hide PageAddress, HasGroup, Replay, InMemory, Sends;
    if n > 0 { assert Has(c.h.delivered, 0) <==> Sends(sectors, 0) by { CollectedMeans(sectors, 0, ram); } }
    assert c.h.delivered[0..] == c.h.delivered && c.h.results[0..] == c.h.results;
    forall b: nat ensures Has(c.h.delivered, b) <==> Sends(sectors, b) { CollectedMeans(sectors, b, ram); }
    assert AllDelivered(c.h.delivered, n) <==> Everything(sectors, n);
    assert c.h.delivered != [] ==> c.h.delivered[0].block < n;
  }

  /** If the image is in memory, so is every payload that arrived first. */
  lemma FirstsAreThere(m: seq<byte>, sectors: seq<Sector>, ram: bool)
    requires |m| == MEMORY_END && AllInMemory(Collected(sectors, ram), ram) && ImageIn(m, ram, Collected(sectors, ram))
    ensures forall i :: 0 <= i < |sectors| && IsFirst(sectors, i) ==>
              sectors[i].targetAddr + PAGE <= MEMORY_END
              && PageAt(m, sectors[i].targetAddr) == sectors[i].data
  {
    hide IsUf2, Collected, IsFirst;
    var ds := Collected(sectors, ram);
    forall i | 0 <= i < |sectors| && IsFirst(sectors, i)
      ensures sectors[i].targetAddr + PAGE <= MEMORY_END && PageAt(m, sectors[i].targetAddr) == sectors[i].data
    {
      CollectedMeans(sectors, sectors[i].blockNo, ram);
      var k :| 0 <= k < |ds| && ds[k].addr == sectors[i].targetAddr && ds[k].data == sectors[i].data;
    }
  }

  /** Every task carried out, an image whose blocks do not disturb each other is in memory. */
  lemma AllRight(m: seq<byte>, ds: seq<Delivery>, ram: bool)
    requires |m| == MEMORY_END && Placed(ds, ram) && FirstErases(ds, ram, {})
    ensures AllInMemory(ds, ram) && ImageIn(Replay(m, ram, ds, AllTrue(|ds|)), ram, ds)
  {
    hide FirstErases, ImageIn, Replay;
    TurnedDown(ram, ds, AllTrue(|ds|), {});
  }

  // ---- A download to flash, and where it goes wrong ----

  /** A UF2 block of the flash image of n blocks at base; other sectors are of no interest. */
  predicate BlockOf(s: Sector, n: nat, base: nat) {
    && |s.data| == PAGE
    && (IsUf2(s) ==> s.numBlocks == n && s.blockNo < n && s.targetAddr == base + 256 * s.blockNo)
  }

  /** The image lies in flash, page by page. */
  predicate FlashImage(n: nat, base: nat) {
    base % 256 == 0 && XIP_MAIN_BASE <= base && base + n * 256 <= FLASH_END
  }

  lemma BlockIsOfImage(s: Sector, n: nat, base: nat)
    requires FlashImage(n, base) && BlockOf(s, n, base)
    ensures OfImage(s, n, false)
  {
  }

  /** The sectors of flash that hold the image. */
  ghost predicate InImage(a: nat, n: nat, base: nat) {
    exists b :: 0 <= b < n && SectorBase(base + 256 * b) == SectorBase(a)
  }

  /** Exactly one of the deliveries erases the group of block b. */
  ghost predicate ErasedOnce(ds: seq<Delivery>, b: nat) {
    exists i :: 0 <= i < |ds| && ds[i].erase && Group(ds[i].block) == Group(b)
                && forall j :: 0 <= j < |ds| && ds[j].erase && Group(ds[j].block) == Group(b) ==> j == i
  }

  lemma OncePerGroup(ds: seq<Delivery>, b: nat)
    requires FirstErases(ds, false, {}) && Has(ds, b)
    ensures ErasedOnce(ds, b)
  {
    hide Group;
    var k :| 0 <= k < |ds| && ds[k].block == b;
    var i := EraserOf(ds, {}, k);
    FirstIsOnlyEraser(ds, false, {});
    forall j | 0 <= j < |ds| && ds[j].erase && Group(ds[j].block) == Group(b) ensures j == i {
      assert ds[i].erase && Group(ds[i].block) == Group(ds[j].block);
    }
  }

  lemma {:induction false} CollectedFrom(sectors: seq<Sector>, n: nat, base: nat)
    requires forall i :: 0 <= i < |sectors| ==> BlockOf(sectors[i], n, base)
    ensures Contiguous(Collected(sectors, false), base)
    ensures forall i :: 0 <= i < |Collected(sectors, false)| ==> Collected(sectors, false)[i].block < n
  {
    hide IsUf2, Group, Has, HasGroup;
    if sectors != [] { CollectedFrom(sectors[..|sectors| - 1], n, base); }
  }

  lemma ImageIsThere(m: seq<byte>, ds: seq<Delivery>, sectors: seq<Sector>, n: nat, base: nat)
    requires |m| == MEMORY_END && ds == Collected(sectors, false) && FlashImage(n, base) && Aligned(n, base)
    requires AllInMemory(ds, false) && Distinct(ds) && FirstErases(ds, false, {})
    requires forall i :: 0 <= i < |sectors| ==> BlockOf(sectors[i], n, base)
    ensures forall i :: 0 <= i < |sectors| && IsFirst(sectors, i) ==>
              sectors[i].targetAddr + PAGE <= MEMORY_END
              && PageAt(Replay(m, false, ds, AllTrue(|ds|)), sectors[i].targetAddr) == sectors[i].data
  {
    hide BlockOf, Aligned, FirstErases, Replay, FlashPlaced, IsFirst, ImageIn, Collected;
    CollectedFrom(sectors, n, base);
    AlignedIsPlaced(ds, n, base);
    AllRight(m, ds, false);
    FirstsAreThere(Replay(m, false, ds, AllTrue(|ds|)), sectors, false);
  }

  /** Bytes outside the image's sectors never change. */
  lemma {:induction false} ReplayOutside(m: seq<byte>, ds: seq<Delivery>, ok: seq<bool>, n: nat, base: nat, a: nat)
    requires |m| == MEMORY_END && AllInMemory(ds, false) && |ok| <= |ds| && a < MEMORY_END && !InImage(a, n, base)
    requires Contiguous(ds, base) && forall i :: 0 <= i < |ds| ==> ds[i].block < n
    ensures Replay(m, false, ds, ok)[a] == m[a]
    decreases |ok|
  {
    hide SectorBase, Stored;
    if ok != [] {
      var k := |ok| - 1;
      ReplayOutside(m, ds, ok[..k], n, base, a);
      if ok[k] {
        assert SectorBase(base + 256 * ds[k].block) != SectorBase(a);
        StoredOutside(Replay(m, false, ds, ok[..k]), ds[k], a);
      }
    }
  }

  lemma StoredOutside(m: seq<byte>, d: Delivery, a: nat)
    requires |m| == MEMORY_END && InMemory(d, false) && a < MEMORY_END && SectorBase(d.addr) != SectorBase(a)
    ensures Stored(m, false, d)[a] == m[a]
  {
    SectorHolds(d.addr);
    InSector(a, d.addr);
    hide SectorBase;
  }

  lemma InSector(a: nat, b: nat)
    ensures SectorBase(b) <= a < SectorBase(b) + SECTOR ==> SectorBase(a) == SectorBase(b)
  {
  }

  /** A download into flash, its blocks in any order, with any duplicates, among any other sectors
      written to the disk, to an image that starts at a sector or does not leave the one it starts
      in: a reboot is requested exactly when every block has arrived, and then flash holds the
      payloads that arrived first, each sector having been erased once. Bytes outside the image's
      sectors never change. */
  method DownloadImage(d: Device, sectors: seq<Sector>, tokens: seq<nat>, ghost n: nat, ghost base: nat)
    requires d.Valid() && !d.queueFull && d.numBlocks == 0 && !d.rebooting && !d.queueDisable
    requires |tokens| == |sectors| && base % 256 == 0 && XIP_MAIN_BASE <= base && base + n * 256 <= FLASH_END
    requires base % 4096 == 0 || base % 4096 + n * 256 <= 4096
    requires forall i :: 0 <= i < |sectors| ==> |sectors[i].data| == PAGE
    requires forall i :: 0 <= i < |sectors| && IsUf2(sectors[i]) ==>
               && sectors[i].numBlocks == n && sectors[i].blockNo < n
               && sectors[i].targetAddr == base + 256 * sectors[i].blockNo
    modifies d, d.ramValid, d.flashValid, d.clearedPages
    ensures d.Valid() && |d.mem| == old(|d.mem|) == MEMORY_END
    ensures d.rebooting <==> n > 0 && forall b :: 0 <= b < n ==> Sends(sectors, b)
    ensures d.rebooting ==> d.rebootAddr == 0
    ensures d.rebooting ==> forall i :: 0 <= i < |sectors| && IsFirst(sectors, i) ==>
              sectors[i].targetAddr + PAGE <= MEMORY_END
              && PageAt(d.mem, sectors[i].targetAddr) == sectors[i].data
    ensures AllInMemory(Collected(sectors, false), false)
    ensures d.mem == Replay(old(d.mem), false, Collected(sectors, false), AllTrue(|Collected(sectors, false)|))
    ensures d.rebooting ==> forall b :: 0 <= b < n ==> ErasedOnce(Collected(sectors, false), b)
    ensures forall a :: 0 <= a < MEMORY_END && !(base / 4096 * 4096 <= a < (base + n * 256 + 4095) / 4096 * 4096) ==>
              d.mem[a] == old(d.mem)[a]
  {
    hide Device.Valid, BlockOf, InImage, FlashImage, IsFirst, ErasedOnce, Sends, OfImage, EndsInRange, Collected;
    hide AllInMemory, Distinct, FirstErases, Replay;
    BlocksAreOfImage(sectors, n, base);
    var c := SendSectors(d, sectors, tokens, n, false);
    SmoothReboots(c, old(d.mem), sectors, n, false);
    CollectedFrom(sectors, n, base);
    ghost var ds := Collected(sectors, false);
    if d.rebooting {
      ImageIsThere(old(d.mem), ds, sectors, n, base);
      EachErasedOnce(sectors, ds, n);
    }
    forall a | 0 <= a < MEMORY_END && !(base / 4096 * 4096 <= a < (base + n * 256 + 4095) / 4096 * 4096)
      ensures d.mem[a] == old(d.mem)[a]
    {
      ImageBounds(a, n, base);
      ReplayOutside(old(d.mem), ds, AllTrue(|ds|), n, base, a);
    }
  }

  lemma BlocksAreOfImage(sectors: seq<Sector>, n: nat, base: nat)
    requires base % 256 == 0 && XIP_MAIN_BASE <= base && base + n * 256 <= FLASH_END
    requires forall i :: 0 <= i < |sectors| ==> |sectors[i].data| == PAGE
    requires forall i :: 0 <= i < |sectors| && IsUf2(sectors[i]) ==>
               && sectors[i].numBlocks == n && sectors[i].blockNo < n
               && sectors[i].targetAddr == base + 256 * sectors[i].blockNo
    ensures FlashImage(n, base)
    ensures forall i :: 0 <= i < |sectors| ==>
              BlockOf(sectors[i], n, base) && OfImage(sectors[i], n, false) && EndsInRange(sectors[i], false)
  {
    hide IsUf2, OfImage;
    forall i | 0 <= i < |sectors| ensures BlockOf(sectors[i], n, base) && OfImage(sectors[i], n, false) {
      BlockIsOfImage(sectors[i], n, base);
    }
  }

  lemma EachErasedOnce(sectors: seq<Sector>, ds: seq<Delivery>, n: nat)
    requires ds == Collected(sectors, false) && FirstErases(ds, false, {}) && Everything(sectors, n)
    ensures forall b :: 0 <= b < n ==> ErasedOnce(ds, b)
  {
    hide Collected, FirstErases, ErasedOnce, Has;
    forall b | 0 <= b < n ensures ErasedOnce(ds, b) {
      CollectedMeans(sectors, b, false);
      assert Sends(sectors, b);
      OncePerGroup(ds, b);
    }
  }

  lemma ImageBounds(a: nat, n: nat, base: nat)
    requires base % 256 == 0 && !(base / 4096 * 4096 <= a < (base + n * 256 + 4095) / 4096 * 4096)
    ensures !InImage(a, n, base)
  {
    forall b | 0 <= b < n ensures SectorBase(base + 256 * b) != SectorBase(a) {
      PageBounds(a, b, n, base);
    }
  }

  lemma PageBounds(a: nat, b: nat, n: nat, base: nat)
    requires b < n && !(base / 4096 * 4096 <= a < (base + n * 256 + 4095) / 4096 * 4096)
    ensures SectorBase(base + 256 * b) != SectorBase(a)
  {
  }

  /** The blocks of an image of n blocks in turn, each once. */
  predicate AllInTurn(sectors: seq<Sector>, n: nat) {
    |sectors| == n && forall i :: 0 <= i < n ==> IsUf2(sectors[i]) && sectors[i].blockNo == i
  }

  function Payloads(sectors: seq<Sector>): (r: seq<seq<byte>>)
    ensures |r| == |sectors|
  {
    seq(|sectors|, i requires 0 <= i < |sectors| => sectors[i].data)
  }

  lemma {:induction false} CollectedInTurn(sectors: seq<Sector>, n: nat, base: nat, k: nat)
    requires FlashImage(n, base) && AllInTurn(sectors, n) && k <= n
    requires forall i :: 0 <= i < n ==> BlockOf(sectors[i], n, base)
    ensures Collected(sectors[..k], false) == InTurn(n, base, Payloads(sectors))[..k]
  {
    hide IsUf2, Group, HasGroup;
    var ds := InTurn(n, base, Payloads(sectors));
    if k > 0 {
      CollectedInTurn(sectors, n, base, k - 1);
      InTurnIsComplete(n, base, Payloads(sectors));
      assert sectors[..k][..k - 1] == sectors[..k - 1];
      assert !Has(ds[..k - 1], k - 1);
      assert ds[k - 1].block == k - 1 && ds[k - 1].data == sectors[k - 1].data;
      assert Collected(sectors[..k], false) == Adding(Collected(sectors[..k - 1], false), sectors[k - 1], false);
      assert ds[..k] == ds[..k - 1] + [ds[k - 1]];
    }
  }

  /** An image that starts inside a sector and leaves it, its blocks delivered in turn: the reboot is
      requested, and the first page past the first sector has been written without an erase or, in
      an image of more than 16 blocks, erased by block 16 after it was written. */
  method DamagedDownload(d: Device, sectors: seq<Sector>, tokens: seq<nat>, ghost n: nat, ghost base: nat)
    requires Idle(d) && !d.queueDisable && |tokens| == |sectors| && FlashImage(n, base) && !Aligned(n, base)
    requires AllInTurn(sectors, n) && forall i :: 0 <= i < |sectors| ==> BlockOf(sectors[i], n, base)
    modifies d, d.ramValid, d.flashValid, d.clearedPages
    ensures d.Valid() && |d.mem| == old(|d.mem|) == MEMORY_END && d.rebooting
    ensures var b := FirstOutside(base);
            && b < n && |sectors[b].data| == PAGE && sectors[b].targetAddr + PAGE <= MEMORY_END
            && PageAt(d.mem, sectors[b].targetAddr) ==
               if n <= 16 then Programmed(PageAt(old(d.mem), sectors[b].targetAddr), sectors[b].data) else Blank(PAGE)
  {
    hide Device.Valid, Aligned, FirstOutside, Programmed, Blank, IsUf2, Replay, InTurn, SectorBase, Collected;
    hide Contiguous, Distinct, FirstErases, RecordedFor, AllDelivered;
    forall i | 0 <= i < |sectors| ensures OfImage(sectors[i], n, false) && EndsInRange(sectors[i], false) {
      BlockIsOfImage(sectors[i], n, base);
    }
    var c := SendSectors(d, sectors, tokens, n, false);
    SmoothReboots(c, old(d.mem), sectors, n, false);
    UnalignedImage(n, base);
    forall b | 0 <= b < n ensures Sends(sectors, b) { assert sectors[b].blockNo == b; }
    CollectedInTurn(sectors, n, base, n);
    var ds := InTurn(n, base, Payloads(sectors));
    assert sectors[..n] == sectors && ds[..n] == ds;
    UnalignedIsWrong(old(d.mem), n, base, Payloads(sectors));
  }

  lemma UnalignedImage(n: nat, base: nat)
    requires FlashImage(n, base) && !Aligned(n, base)
    ensures n > 0
  {
  }

  lemma WholeBlock(s: Sector, n: nat, base: nat)
    requires FlashImage(n, base) && BlockOf(s, n, base) && IsUf2(s)
    ensures OfImage(s, n, false) && !ForRam(s) && s.targetAddr == base + 256 * s.blockNo && n > 0
    ensures s.targetAddr + PAGE <= FLASH_END && s.targetAddr % 256 == 0
  {
    hide IsUf2;
  }

  /** The first block of an image arrives, and its task is waiting. */
  method FirstArrives(d: Device, s: Sector, token: nat, ghost n: nat, ghost base: nat)
    requires Idle(d) && !d.queueDisable && FlashImage(n, base) && BlockOf(s, n, base) && IsUf2(s)
    modifies d, d.ramValid, d.flashValid, d.clearedPages
    ensures d.Valid() && d.queueFull && !d.rebooting && !d.queueDisable && d.mem == old(d.mem) && |d.mem| == MEMORY_END
    ensures d.numBlocks == n && !d.isRam && d.h.results == []
    ensures d.h.delivered == [Delivery(s.blockNo, s.targetAddr, s.data, true)]
  {
    hide IsUf2, ForRam, Acceptable, Device.Valid, Group, HasGroup;
    WholeBlock(s, n, base);
    BlockFits(d, s, n);
    NothingYet(s.blockNo);
    var async := d.VdWriteBlock(s, token);
    NoneLeftOver(d, s, n, false);
    DeviceMemory(d);
  }

  lemma NothingYet(b: nat)
    ensures !Has([], b) && !HasGroup([], Group(b))
  {
  }

  lemma BlockFits(d: Device, s: Sector, n: nat)
    requires OfImage(s, n, false) && IsUf2(s) && (d.numBlocks == 0 || (d.numBlocks == n && !d.isRam)) && n > 0
    ensures d.Fits(s)
  {
    hide IsUf2;
  }

  lemma DeviceMemory(d: Device)
    requires d.Valid()
    ensures |d.mem| == MEMORY_END
    ensures d.queueFull ==> d.Waiting()
  {
    hide Device.Bitmaps, Device.Recorded, Device.Lowest;
  }

  /** The second of two blocks arrives and is executed: its page is written without an erase, and
      the reboot follows. */
  method SecondExecuted(d: Device, s: Sector, token: nat, ghost base: nat, ghost x: seq<byte>)
    requires d.Valid() && !d.queueFull && !d.queueDisable && !d.rebooting && d.numBlocks == 2 && !d.isRam
    requires FlashImage(2, base) && BlockOf(s, 2, base) && IsUf2(s) && s.blockNo == 1
    requires d.h.delivered == [Delivery(0, base, x, true)] && |d.h.results| == 1
    modifies d, d.ramValid, d.flashValid, d.clearedPages
    ensures d.Valid() && d.rebooting && |d.mem| == old(|d.mem|) == MEMORY_END
    ensures d.mem == ProgramPage(old(d.mem), base + 256, s.data)
  {
    hide IsUf2, ForRam, Acceptable, Device.Valid, ProgramPage;
    WholeBlock(s, 2, base);
    BlockFits(d, s, 2);
    DeviceMemory(d);
    BothDelivered(d.h.delivered, s.data);
    var async := d.VdWriteBlock(s, token);
    DeviceMemory(d);
    d.WorkerTurn();
  }

  lemma BothDelivered(ds: seq<Delivery>, data: seq<byte>)
    requires |ds| == 1 && ds[0].block == 0
    ensures !Has(ds, 1) && HasGroup(ds, Group(1))
    ensures forall d: Delivery :: d.block == 1 ==> AllDelivered(ds + [d], 2)
  {
    assert Group(ds[0].block) == Group(1);
    forall d: Delivery | d.block == 1 ensures AllDelivered(ds + [d], 2) {
      assert (ds + [d])[0].block == 0 && (ds + [d])[1].block == 1;
    }
  }

  /** A page turned down is lost: the other interface takes exclusive access between the delivery of
      a block and its execution. The block still counts as delivered, so the rest of the image
      brings the reboot; flash then holds what it held before where the page should be, and the
      other page is written over a sector that has not been erased. */
  method LostPage(d: Device, s: Sector, t: Sector, token: nat, ghost base: nat)
    requires Idle(d) && !d.queueDisable && FlashImage(2, base) && BlockOf(s, 2, base) && BlockOf(t, 2, base)
    requires IsUf2(s) && IsUf2(t) && s.blockNo == 0 && t.blockNo == 1
    modifies d, d.ramValid, d.flashValid, d.clearedPages
    ensures d.Valid() && d.rebooting && |d.mem| == old(|d.mem|) == MEMORY_END
    ensures PageAt(d.mem, base) == old(PageAt(d.mem, base))
    ensures PageAt(d.mem, base + 256) == Programmed(old(PageAt(d.mem, base + 256)), t.data)
  {
    hide IsUf2, ForRam, Acceptable, Device.Valid, Overwrite;
    WholeBlock(s, 2, base);
    FirstArrives(d, s, token, 2, base);
    d.SetExclusive(true);
    DeviceMemory(d);
    d.WorkerTurn();
    d.SetExclusive(false);
    SecondExecuted(d, t, token, base, s.data);
    PageWritten(old(d.mem), base + 256, t.data, base);
  }

  /** Programming a page leaves the one before it alone. */
  lemma PageWritten(m: seq<byte>, a: nat, data: seq<byte>, b: nat)
    requires |data| == PAGE && a + PAGE <= |m| && b + PAGE <= a
    ensures PageAt(ProgramPage(m, a, data), a) == Programmed(PageAt(m, a), data)
    ensures PageAt(ProgramPage(m, a, data), b) == PageAt(m, b)
  {
    PageKept(m, a, Programmed(m[a..a + PAGE], data), b);
  }

  lemma OneIsNotAll(ds: seq<Delivery>)
    requires |ds| == 1 && ds[0].block == 0
    ensures !AllDelivered(ds, 2)
  {
    assert !Has(ds, 1);
  }

  lemma FirstStored(m: seq<byte>, d: Delivery)
    requires |m| == MEMORY_END && InMemory(d, false) && d.erase
    ensures PageAt(Stored(m, false, d), d.addr) == d.data
  {
    hide Overwrite;
    SectorHolds(d.addr);
    StoredPage(m, d, d.addr);
    ProgrammingBlank(Blank(PAGE), d.data);
  }

  /** The worker executes the first chunk of a write of the other interface. */
  method ChunkExecuted(d: Device, data: seq<byte>, token: nat, base: nat)
    requires d.Valid() && |d.mem| == MEMORY_END && !d.queueFull && !d.rebooting && |data| == PAGE
    requires base % 256 == 0 && XIP_MAIN_BASE <= base && base + PAGE <= FLASH_END
    modifies d`mem, d`lastSource
    ensures d.Valid() && d.mem == ProgramPage(old(d.mem), base, data)
  {
    hide ProgramPage, Device.Bitmaps, Device.Recorded, Device.Lowest;
    var result := d.ExecuteTask(ChunkTask(token, base, PAGE, false), data);
  }

  /** A chunk of the other interface between two blocks is not noticed. Here it goes to the page just
      written: the reboot comes, and the page has only the bits that both have left. */
  method ChunkBetween(d: Device, s: Sector, t: Sector, x: seq<byte>, token: nat, base: nat)
    requires Idle(d) && !d.queueDisable && FlashImage(2, base) && BlockOf(s, 2, base) && BlockOf(t, 2, base)
    requires IsUf2(s) && IsUf2(t) && s.blockNo == 0 && t.blockNo == 1 && |x| == PAGE
    modifies d, d.ramValid, d.flashValid, d.clearedPages
    ensures d.Valid() && d.rebooting && |d.mem| == MEMORY_END && PageAt(d.mem, base) == Programmed(s.data, x)
  {
    hide IsUf2, ForRam, Acceptable, Device.Valid, Overwrite, Programmed, Stored, ProgramPage, AllDelivered;
    WholeBlock(s, 2, base);
    FirstArrives(d, s, token, 2, base);
    DeviceMemory(d);
    OneIsNotAll(d.h.delivered);
    FirstStored(d.mem, d.h.delivered[0]);
    d.WorkerTurn();
    ghost var m := d.mem;
    ChunkExecuted(d, x, token, base);
    SamePage(m, base, x);
    m := d.mem;
    SecondExecuted(d, t, token, base, s.data);
    PageWritten(m, base + 256, t.data, base);
  }

  lemma SamePage(m: seq<byte>, a: nat, data: seq<byte>)
    requires |data| == PAGE && a + PAGE <= |m|
    ensures |ProgramPage(m, a, data)| == |m| && PageAt(ProgramPage(m, a, data), a) == Programmed(PageAt(m, a), data)
  {
    hide Programmed;
  }
}
