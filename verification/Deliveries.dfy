/** The blocks a download has delivered, in order, and what executing their tasks makes of memory,
    independent of the tracker's bitmaps. */
module Deliveries {
  import opened Memory

  /** A block as it was first delivered: where it goes, and whether its task erases its sector. */
  datatype Delivery = Delivery(block: nat, addr: nat, data: seq<byte>, erase: bool)

  function Group(b: nat): nat { b * PAGE / SECTOR }

  function SectorBase(a: nat): nat { a / SECTOR * SECTOR }

  predicate Has(ds: seq<Delivery>, b: nat) {
    exists i :: 0 <= i < |ds| && ds[i].block == b
  }

  predicate HasGroup(ds: seq<Delivery>, g: nat) {
    exists i :: 0 <= i < |ds| && Group(ds[i].block) == g
  }

  predicate Distinct(ds: seq<Delivery>) {
    forall i, j :: 0 <= i < j < |ds| ==> ds[i].block != ds[j].block
  }

  /** The first block of a group erases, unless the group's bit was left over from before. */
  predicate FirstErases(ds: seq<Delivery>, ram: bool, stale: set<nat>) {
    forall i :: 0 <= i < |ds| ==>
      (ds[i].erase <==> !ram && Group(ds[i].block) !in stale && !HasGroup(ds[..i], Group(ds[i].block)))
  }

  /** The task of a delivery writes within memory, a flash page within what flash commands address. */
  predicate InMemory(d: Delivery, ram: bool) {
    && |d.data| == PAGE
    && if ram then d.addr + PAGE <= MEMORY_END && !d.erase
       else XIP_MAIN_BASE <= d.addr && d.addr + PAGE <= FLASH_END && d.addr % 256 == 0
  }

  predicate AllInMemory(ds: seq<Delivery>, ram: bool) {
    forall i :: 0 <= i < |ds| ==> InMemory(ds[i], ram)
  }

  lemma SectorHolds(a: nat)
    requires a % 256 == 0
    ensures SectorBase(a) <= a && a + PAGE <= SectorBase(a) + SECTOR && SectorBase(a) % 4096 == 0
    ensures a < FLASH_END ==> SectorBase(a) + SECTOR <= FLASH_END
  {
    var k, j := a / 256 / 16, a / 256 % 16;
    assert a == 4096 * k + 256 * j;
    assert a / 4096 == k;
  }

  // ---- Executing deliveries ----

  /** What a task that succeeds does: erase the sector if it is to, then write the page. */
  function Stored(m: seq<byte>, ram: bool, d: Delivery): (r: seq<byte>)
    requires |m| == MEMORY_END && InMemory(d, ram)
    ensures |r| == |m|
  {
    if ram then Overwrite(m, d.addr, d.data)
    else
      SectorHolds(d.addr);
      ProgramPage(if d.erase then EraseSector(m, SectorBase(d.addr)) else m, d.addr, d.data)
  }

  /** Executing deliveries in order, ok saying which tasks succeed; the others change nothing. */
  function Replay(m: seq<byte>, ram: bool, ds: seq<Delivery>, ok: seq<bool>): (r: seq<byte>)
    requires |m| == MEMORY_END && |ok| <= |ds| && AllInMemory(ds, ram)
    ensures |r| == |m|
    decreases |ok|
  {
    if ok == [] then m
    else
      var n := |ok| - 1;
      var before := Replay(m, ram, ds, ok[..n]);
      if ok[n] then Stored(before, ram, ds[n]) else before
  }

  /** Only the executed deliveries matter. */
  lemma {:induction false} ReplayPrefix(m: seq<byte>, ram: bool, ds: seq<Delivery>, es: seq<Delivery>, ok: seq<bool>)
    requires |m| == MEMORY_END && |ok| <= |ds| && ds <= es && AllInMemory(es, ram) && AllInMemory(ds, ram)
    ensures Replay(m, ram, ds, ok) == Replay(m, ram, es, ok)
    decreases |ok|
  {
    if ok != [] {
      ReplayPrefix(m, ram, ds, es, ok[..|ok| - 1]);
    }
  }

  /** The image as delivered is in memory. */
  ghost predicate ImageIn(m: seq<byte>, ram: bool, ds: seq<Delivery>)
    requires |m| == MEMORY_END && AllInMemory(ds, ram)
  {
    forall i :: 0 <= i < |ds| ==> PageAt(m, ds[i].addr) == ds[i].data
  }

  // ---- One flash page ----

  /** What one delivery makes of the flash page at p. */
  function PageStored(q: seq<byte>, d: Delivery, p: nat): (r: seq<byte>)
    requires |q| == |d.data| == PAGE
    ensures |r| == PAGE
  {
    var e := if d.erase && SectorBase(d.addr) == SectorBase(p) then Blank(PAGE) else q;
    if d.addr == p then Programmed(e, d.data) else e
  }

  function PageReplay(q: seq<byte>, ds: seq<Delivery>, ok: seq<bool>, p: nat): (r: seq<byte>)
    requires |q| == PAGE && |ok| <= |ds| && AllInMemory(ds, false)
    ensures |r| == PAGE
    decreases |ok|
  {
    if ok == [] then q
    else
      var n := |ok| - 1;
      var before := PageReplay(q, ds, ok[..n], p);
      if ok[n] then PageStored(before, ds[n], p) else before
  }

  predicate FlashPage(p: nat) { XIP_MAIN_BASE <= p && p + PAGE <= FLASH_END && p % 256 == 0 }

  lemma SectorsApart(a: nat, b: nat)
    requires a % 256 == 0 && SectorBase(a) != SectorBase(b)
    ensures a + PAGE <= SectorBase(b) || SectorBase(b) + SECTOR <= a
  {
  }

  lemma PagesApart(a: nat, b: nat)
    requires a % 256 == 0 && b % 256 == 0 && a != b
    ensures a + PAGE <= b || b + PAGE <= a
  {
  }

  lemma StoredPage(m: seq<byte>, d: Delivery, p: nat)
    requires |m| == MEMORY_END && InMemory(d, false) && FlashPage(p)
    ensures PageAt(Stored(m, false, d), p) == PageStored(PageAt(m, p), d, p)
  {
    hide SectorBase, Overwrite;
    SectorHolds(d.addr);
    SectorHolds(p);
    var e := if d.erase then EraseSector(m, SectorBase(d.addr)) else m;
    if d.erase {
      if SectorBase(d.addr) == SectorBase(p) {
        PageErased(m, SectorBase(d.addr), p);
      } else {
        SectorsApart(p, d.addr);
        PageKept(m, SectorBase(d.addr), Blank(SECTOR), p);
      }
    }
    var page := Programmed(e[d.addr..d.addr + PAGE], d.data);
    if d.addr == p {
      assert Overwrite(e, d.addr, page)[d.addr..d.addr + PAGE] == page;
    } else {
      PagesApart(p, d.addr);
      PageKept(e, d.addr, page, p);
    }
  }

  /** Replaying deliveries page by page. */
  lemma {:induction false} ReplayPage(m: seq<byte>, ds: seq<Delivery>, ok: seq<bool>, p: nat)
    requires |m| == MEMORY_END && |ok| <= |ds| && AllInMemory(ds, false) && FlashPage(p)
    ensures PageAt(Replay(m, false, ds, ok), p) == PageReplay(PageAt(m, p), ds, ok, p)
    decreases |ok|
  {
    hide Stored, PageStored;
    if ok != [] {
      var n := |ok| - 1;
      ReplayPage(m, ds, ok[..n], p);
      if ok[n] { StoredPage(Replay(m, false, ds, ok[..n]), ds[n], p); }
    }
  }

  // ---- Images whose blocks are placed as the erase bits suppose ----

  /** Blocks go to pages of their own, and share a sector exactly when they share an erase bit. */
  ghost predicate FlashPlaced(ds: seq<Delivery>) {
    && AllInMemory(ds, false)
    && forall i, j :: 0 <= i < |ds| && 0 <= j < |ds| ==>
         && (i != j ==> ds[i].addr != ds[j].addr)
         && (Group(ds[i].block) == Group(ds[j].block) <==> SectorBase(ds[i].addr) == SectorBase(ds[j].addr))
  }

  /** Blocks go to pages that do not overlap. */
  ghost predicate RamPlaced(ds: seq<Delivery>) {
    && AllInMemory(ds, true)
    && forall i, j :: 0 <= i < |ds| && 0 <= j < |ds| && i != j ==>
         ds[i].addr + PAGE <= ds[j].addr || ds[j].addr + PAGE <= ds[i].addr
  }

  ghost predicate Placed(ds: seq<Delivery>, ram: bool) {
    if ram then RamPlaced(ds) else FlashPlaced(ds)
  }

  /** No block erases after another of its group. */
  predicate OneEraser(ds: seq<Delivery>) {
    forall i, j :: 0 <= i < j < |ds| && ds[j].erase ==> Group(ds[i].block) != Group(ds[j].block)
  }

  lemma FirstIsOnlyEraser(ds: seq<Delivery>, ram: bool, stale: set<nat>)
    requires FirstErases(ds, ram, stale)
    ensures OneEraser(ds)
  {
    forall i, j | 0 <= i < j < |ds| && ds[j].erase ensures Group(ds[i].block) != Group(ds[j].block) {
      assert ds[..j][i] == ds[i];
    }
  }

  /** Every group has its eraser. */
  lemma {:induction false} EraserOf(ds: seq<Delivery>, stale: set<nat>, i: nat) returns (j: nat)
    requires FirstErases(ds, false, stale) && i < |ds| && Group(ds[i].block) !in stale
    ensures j <= i && ds[j].erase && Group(ds[j].block) == Group(ds[i].block)
  {
    j := i;
    if !ds[i].erase {
      var k :| 0 <= k < i && Group(ds[..i][k].block) == Group(ds[i].block);
      assert ds[..i][k] == ds[k];
      j := EraserOf(ds, stale, k);
    }
  }

  /** The sector of p has been erased. */
  ghost predicate SectorErased(ds: seq<Delivery>, ok: seq<bool>, p: nat)
    requires |ok| <= |ds|
  {
    exists j :: 0 <= j < |ok| && ok[j] && ds[j].erase && SectorBase(ds[j].addr) == SectorBase(p)
  }

  /** What a flash page of the image holds in the end: at most one erase, then at most one write. */
  lemma {:induction false} PageOutcome(q: seq<byte>, ds: seq<Delivery>, ok: seq<bool>, i: nat)
    requires FlashPlaced(ds) && OneEraser(ds) && i < |ds| && |ok| <= |ds| && |q| == PAGE
    ensures var x := if SectorErased(ds, ok, ds[i].addr) then Blank(PAGE) else q;
            PageReplay(q, ds, ok, ds[i].addr) == if i < |ok| && ok[i] then Programmed(x, ds[i].data) else x
    decreases |ok|
  {
    hide Group, SectorBase, Programmed, Blank;
    if ok != [] {
      var n, p := |ok| - 1, ds[i].addr;
      PageOutcome(q, ds, ok[..n], i);
      assert SectorErased(ds, ok, p) <==>
          SectorErased(ds, ok[..n], p) || (ok[n] && ds[n].erase && SectorBase(ds[n].addr) == SectorBase(p)) by {
        if j :| 0 <= j < n && ok[j] && ds[j].erase && SectorBase(ds[j].addr) == SectorBase(p) {
          assert ok[..n][j];
        }
      }
    }
  }

  lemma {:induction false} RamOutcome(m: seq<byte>, ds: seq<Delivery>, ok: seq<bool>, i: nat)
    requires RamPlaced(ds) && i < |ds| && |ok| <= |ds| && |m| == MEMORY_END
    ensures PageAt(Replay(m, true, ds, ok), ds[i].addr)
            == if i < |ok| && ok[i] then ds[i].data else PageAt(m, ds[i].addr)
    decreases |ok|
  {
    hide Overwrite;
    if ok != [] {
      var n := |ok| - 1;
      RamOutcome(m, ds, ok[..n], i);
      if ok[n] && n != i { PageKept(Replay(m, true, ds, ok[..n]), ds[n].addr, ds[n].data, ds[i].addr); }
    }
  }

  ghost predicate NoneStale(ds: seq<Delivery>, stale: set<nat>) {
    forall i :: 0 <= i < |ds| ==> Group(ds[i].block) !in stale
  }

  /** Whatever memory held before, the image is in it afterwards. */
  ghost predicate AlwaysRight(ram: bool, ds: seq<Delivery>, ok: seq<bool>)
    requires |ok| <= |ds| && AllInMemory(ds, ram)
  {
    forall m: seq<byte> :: |m| == MEMORY_END ==> ImageIn(Replay(m, ram, ds, ok), ram, ds)
  }

  /** A task that is turned down does no harm: it would have written a blank page over an erased one. */
  predicate Harmless(ram: bool, d: Delivery) { !ram && !d.erase && d.data == Blank(|d.data|) }

  /** Of an image placed as it should be, with some tasks turned down, memory holds every page
      whatever it held before exactly if each of those tasks is harmless. */
  lemma TurnedDown(ram: bool, ds: seq<Delivery>, ok: seq<bool>, stale: set<nat>)
    requires Placed(ds, ram) && FirstErases(ds, ram, stale) && NoneStale(ds, stale) && |ok| == |ds|
    ensures AlwaysRight(ram, ds, ok) <==> forall i :: 0 <= i < |ds| ==> ok[i] || Harmless(ram, ds[i])
  {
    hide ImageIn, Replay, FirstErases;
    if forall i :: 0 <= i < |ds| ==> ok[i] || Harmless(ram, ds[i]) {
      forall m: seq<byte> | |m| == MEMORY_END ensures ImageIn(Replay(m, ram, ds, ok), ram, ds) {
        HarmlessIsRight(m, ram, ds, ok, stale);
      }
    } else {
      var i :| 0 <= i < |ds| && !ok[i] && !Harmless(ram, ds[i]);
      var m := WrongMemory(ram, ds, ok, stale, i);
      assert !ImageIn(Replay(m, ram, ds, ok), ram, ds);
    }
  }

  lemma HarmlessIsRight(m: seq<byte>, ram: bool, ds: seq<Delivery>, ok: seq<bool>, stale: set<nat>)
    requires |m| == MEMORY_END && Placed(ds, ram) && FirstErases(ds, ram, stale) && NoneStale(ds, stale) && |ok| == |ds|
    requires forall i :: 0 <= i < |ds| ==> ok[i] || Harmless(ram, ds[i])
    ensures ImageIn(Replay(m, ram, ds, ok), ram, ds)
  {
    hide Replay, FirstErases, Programmed;
    forall i | 0 <= i < |ds| ensures PageAt(Replay(m, ram, ds, ok), ds[i].addr) == ds[i].data {
      if ram {
        RamOutcome(m, ds, ok, i);
      } else {
        FirstIsOnlyEraser(ds, ram, stale);
        var j := EraserOf(ds, stale, i);
        assert ok[j];
        ReplayPage(m, ds, ok, ds[i].addr);
        PageOutcome(PageAt(m, ds[i].addr), ds, ok, i);
        ProgrammingBlank(Blank(PAGE), ds[i].data);
      }
    }
  }

  function Filled(n: nat, b: byte): (r: seq<byte>)
    ensures |r| == n && forall i :: 0 <= i < n ==> r[i] == b
  {
    seq(n, _ => b)
  }

  /** A memory that a harmful turning down leaves wrong: it holds another byte where the page goes. */
  lemma WrongMemory(ram: bool, ds: seq<Delivery>, ok: seq<bool>, stale: set<nat>, i: nat) returns (m: seq<byte>)
    requires Placed(ds, ram) && FirstErases(ds, ram, stale) && NoneStale(ds, stale) && |ok| == |ds|
    requires i < |ds| && !ok[i] && !Harmless(ram, ds[i])
    ensures |m| == MEMORY_END && PageAt(Replay(m, ram, ds, ok), ds[i].addr) != ds[i].data
    ensures !ImageIn(Replay(m, ram, ds, ok), ram, ds)
  {
    hide Replay, FirstErases;
    var a := ds[i].addr;
    m := Filled(MEMORY_END, if ds[i].data[0] == 0 then 1 else 0);
    assert PageAt(m, a)[0] == m[a] != ds[i].data[0];
    if ram {
      RamOutcome(m, ds, ok, i);
    } else {
      FirstIsOnlyEraser(ds, ram, stale);
      ReplayPage(m, ds, ok, a);
      PageOutcome(PageAt(m, a), ds, ok, i);
      if SectorErased(ds, ok, a) { ErasedByAnother(ds, ok, i); }
    }
  }

  lemma ErasedByAnother(ds: seq<Delivery>, ok: seq<bool>, i: nat)
    requires FlashPlaced(ds) && OneEraser(ds) && |ok| <= |ds| && i < |ds| && (i < |ok| ==> !ok[i])
    requires SectorErased(ds, ok, ds[i].addr)
    ensures !ds[i].erase
  {
    hide Group, SectorBase;
    var j :| 0 <= j < |ok| && ok[j] && ds[j].erase && SectorBase(ds[j].addr) == SectorBase(ds[i].addr);
    assert Group(ds[i].block) == Group(ds[j].block);
  }

  // ---- Contiguous images ----

  /** Block b of the image goes 256 * b past its base. */
  predicate Contiguous(ds: seq<Delivery>, base: nat) {
    forall i :: 0 <= i < |ds| ==> ds[i].addr == base + 256 * ds[i].block
  }

  /** The image starts at a sector, or does not leave the one it starts in. */
  predicate Aligned(n: nat, base: nat) {
    base % 4096 == 0 || base % 4096 + n * 256 <= 4096
  }

  lemma SectorOfBlock(base: nat, b: nat, n: nat)
    requires base % 256 == 0 && b < n && Aligned(n, base)
    ensures SectorBase(base + 256 * b) == SectorBase(base) + 4096 * Group(b)
  {
    var k, r := base / 4096, base % 4096;
    assert 256 * b == Group(b) * 4096 + 256 * b % 4096;
    if r == 0 {
      SectorOfParts(k + Group(b), 256 * b % 4096);
    } else {
      SectorOfParts(k, r + 256 * b);
    }
    SectorOfParts(k, r);
  }

  lemma SectorOfParts(k: nat, r: nat)
    requires r < 4096
    ensures SectorBase(k * 4096 + r) == k * 4096
  {
  }

  lemma AlignedIsPlaced(ds: seq<Delivery>, n: nat, base: nat)
    requires AllInMemory(ds, false) && Distinct(ds) && Contiguous(ds, base) && base % 256 == 0 && Aligned(n, base)
    requires forall i :: 0 <= i < |ds| ==> ds[i].block < n
    ensures FlashPlaced(ds)
  {
    hide Group, SectorBase, Aligned;
    forall i | 0 <= i < |ds| ensures SectorBase(ds[i].addr) == SectorBase(base) + 4096 * Group(ds[i].block) {
      SectorOfBlock(base, ds[i].block, n);
    }
  }

  function AllTrue(n: nat): (r: seq<bool>)
    ensures |r| == n && forall i :: 0 <= i < n ==> r[i]
  {
    seq(n, _ => true)
  }

  /** A complete delivery of a contiguous flash image of n blocks, in any order. */
  ghost predicate Complete(ds: seq<Delivery>, n: nat, base: nat) {
    && |ds| == n && AllInMemory(ds, false) && Distinct(ds) && Contiguous(ds, base) && FirstErases(ds, false, {})
    && forall i :: 0 <= i < n ==> ds[i].block < n
  }

  /** The image is in flash after every complete delivery, whatever flash held before. */
  ghost predicate SafeBase(n: nat, base: nat) {
    forall ds: seq<Delivery> :: Complete(ds, n, base) ==> AlwaysRight(false, ds, AllTrue(n))
  }

  /** The blocks of an image delivered in turn: every sixteenth erases. */
  function InTurn(n: nat, base: nat, pages: seq<seq<byte>>): (r: seq<Delivery>)
    requires |pages| == n
    ensures |r| == n
  {
    seq(n, b requires 0 <= b < n => Delivery(b, base + 256 * b, pages[b], b % 16 == 0))
  }

  lemma InTurnIsComplete(n: nat, base: nat, pages: seq<seq<byte>>)
    requires |pages| == n && (forall b :: 0 <= b < n ==> |pages[b]| == PAGE)
    requires base % 256 == 0 && XIP_MAIN_BASE <= base && base + n * 256 <= FLASH_END
    ensures Complete(InTurn(n, base, pages), n, base)
  {
    hide Group;
    var ds := InTurn(n, base, pages);
    forall i | 0 <= i < n ensures ds[i].erase <==> !HasGroup(ds[..i], Group(i)) {
      if i % 16 == 0 {
        forall j | 0 <= j < i ensures Group(ds[..i][j].block) != Group(i) { FirstOfGroup(j, i); }
      } else {
        FirstOfGroup(i - 1, i);
        assert ds[..i][i - 1].block == i - 1;
      }
    }
  }

  lemma FirstOfGroup(j: nat, i: nat)
    requires j < i
    ensures i % 16 == 0 ==> Group(j) != Group(i)
    ensures i % 16 != 0 && j == i - 1 ==> Group(j) == Group(i)
  {
  }

  /** The first block past the sector in which an unaligned image starts. */
  function FirstOutside(base: nat): nat { (4096 - base % 4096) / 256 }

  lemma OutsideFacts(n: nat, base: nat)
    requires base % 256 == 0 && !Aligned(n, base)
    ensures var b := FirstOutside(base);
            && 0 < b < 16 && b < n && SectorBase(base + 256 * b) == base + 256 * b
            && SectorBase(base) != base + 256 * b && SectorBase(base + 256 * 16) == base + 256 * b
  {
    hide SectorBase, FirstOutside;
    var k, r := base / 4096, base % 4096;
    OutsideBlock(base);
    SectorOfParts(k, r);
    SectorOfParts(k + 1, 0);
    SectorOfParts(k + 1, r);
  }

  lemma OutsideBlock(base: nat)
    requires base % 256 == 0 && base % 4096 != 0
    ensures 0 < FirstOutside(base) < 16 && 256 * FirstOutside(base) == 4096 - base % 4096
  {
  }

  lemma LaterSectors(base: nat, b: nat, j: nat)
    requires base % 256 == 0 && 0 < b < 16 && SectorBase(base + 256 * b) == base + 256 * b
    requires j % 16 == 0 && j >= 32
    ensures SectorBase(base + 256 * j) != base + 256 * b
  {
  }

  /** What block j of an unaligned image does to the first page past the first sector. */
  lemma EffectOutside(q: seq<byte>, n: nat, base: nat, pages: seq<seq<byte>>, j: nat)
    requires |pages| == n && (forall b :: 0 <= b < n ==> |pages[b]| == PAGE) && |q| == PAGE && j < n
    requires base % 256 == 0 && !Aligned(n, base)
    ensures FirstOutside(base) < n
    ensures var b := FirstOutside(base);
            PageStored(q, InTurn(n, base, pages)[j], base + 256 * b)
            == if j == b then Programmed(q, pages[b]) else if j == 16 then Blank(PAGE) else q
  {
    hide SectorBase, FirstOutside, Programmed, Blank, Aligned;
    OutsideFacts(n, base);
    if j >= 32 && j % 16 == 0 { LaterSectors(base, FirstOutside(base), j); }
  }

  /** An unaligned image delivered in turn: the page of its first block past the first sector is
      written without an erase, or erased by block 16 after it is written. */
  lemma {:induction false} UnalignedOutcome(q: seq<byte>, n: nat, base: nat, pages: seq<seq<byte>>, k: nat)
    requires |pages| == n && (forall b :: 0 <= b < n ==> |pages[b]| == PAGE) && |q| == PAGE && k <= n
    requires base % 256 == 0 && XIP_MAIN_BASE <= base && base + n * 256 <= FLASH_END && !Aligned(n, base)
    ensures AllInMemory(InTurn(n, base, pages), false) && FirstOutside(base) < n
    ensures var b := FirstOutside(base);
            PageReplay(q, InTurn(n, base, pages), AllTrue(k), base + 256 * b)
            == if k <= b then q else if k <= 16 then Programmed(q, pages[b]) else Blank(PAGE)
    decreases k
  {
    hide SectorBase, FirstOutside, Programmed, Blank, Aligned, PageStored;
    OutsideFacts(n, base);
    if k > 0 {
      UnalignedOutcome(q, n, base, pages, k - 1);
      assert AllTrue(k)[..k - 1] == AllTrue(k - 1);
      var before := PageReplay(q, InTurn(n, base, pages), AllTrue(k - 1), base + 256 * FirstOutside(base));
      EffectOutside(before, n, base, pages, k - 1);
    }
  }

  lemma UnalignedIsWrong(m: seq<byte>, n: nat, base: nat, pages: seq<seq<byte>>)
    requires |m| == MEMORY_END && |pages| == n && (forall b :: 0 <= b < n ==> |pages[b]| == PAGE)
    requires base % 256 == 0 && XIP_MAIN_BASE <= base && base + n * 256 <= FLASH_END && !Aligned(n, base)
    ensures AllInMemory(InTurn(n, base, pages), false) && FirstOutside(base) < n
    ensures var b := FirstOutside(base);
            && base + 256 * b + PAGE <= MEMORY_END
            && PageAt(Replay(m, false, InTurn(n, base, pages), AllTrue(n)), base + 256 * b)
               == if n <= 16 then Programmed(PageAt(m, base + 256 * b), pages[b]) else Blank(PAGE)
  {
    hide Replay, FirstOutside, Programmed, Blank, Aligned, PageReplay, SectorBase, InTurn;
    OutsideFacts(n, base);
    var p := base + 256 * FirstOutside(base);
    UnalignedOutcome(PageAt(m, p), n, base, pages, n);
    ReplayPage(m, InTurn(n, base, pages), AllTrue(n), p);
  }

  /** Erasing by block number is right for a contiguous image exactly if it starts at a sector or
      fits in one. */
  lemma SafeBaseIff(n: nat, base: nat)
    requires base % 256 == 0 && XIP_MAIN_BASE <= base && base + n * 256 <= FLASH_END
    ensures SafeBase(n, base) <==> Aligned(n, base)
  {
    hide Aligned, AlwaysRight, FirstErases;
    if Aligned(n, base) {
      forall ds: seq<Delivery> | Complete(ds, n, base) ensures AlwaysRight(false, ds, AllTrue(n)) {
        AlignedIsPlaced(ds, n, base);
        TurnedDown(false, ds, AllTrue(n), {});
      }
    } else {
      var pages := seq(n, _ => Filled(PAGE, 0x55));
      InTurnIsComplete(n, base, pages);
      ZeroMemoryIsWrong(n, base, pages);
    }
  }

  lemma ZeroMemoryIsWrong(n: nat, base: nat, pages: seq<seq<byte>>)
    requires base % 256 == 0 && XIP_MAIN_BASE <= base && base + n * 256 <= FLASH_END && !Aligned(n, base)
    requires pages == seq(n, _ => Filled(PAGE, 0x55))
    ensures AllInMemory(InTurn(n, base, pages), false) && !AlwaysRight(false, InTurn(n, base, pages), AllTrue(n))
  {
    hide Replay, FirstOutside, Aligned;
    var m := Filled(MEMORY_END, 0);
    UnalignedIsWrong(m, n, base, pages);
    var b, ds := FirstOutside(base), InTurn(n, base, pages);
    var p := base + 256 * b;
    var now := Replay(m, false, ds, AllTrue(n));
    assert PageAt(m, p)[0] == 0;
    ZeroAnd(0x55);
    assert PageAt(now, p)[0] != ds[b].data[0];
    assert !ImageIn(now, false, ds);
  }

  lemma ZeroAnd(b: byte)
    ensures 0 & b == 0
  {
  }

  // ---- Memory changed by others while an image is being delivered ----

  /** Of the first k blocks the page is still there, of the others it can still be written: because
      its sector is yet to be erased, or has every bit the page needs. */
  ghost predicate StillRight(m: seq<byte>, ds: seq<Delivery>, k: nat)
    requires |m| == MEMORY_END && AllInMemory(ds, false) && k <= |ds|
  {
    forall i :: 0 <= i < |ds| ==> PageStillRight(m, ds, k, i)
  }

  ghost predicate PageStillRight(m: seq<byte>, ds: seq<Delivery>, k: nat, i: nat)
    requires |m| == MEMORY_END && AllInMemory(ds, false) && k <= |ds| && i < |ds|
  {
    if i < k then PageAt(m, ds[i].addr) == ds[i].data
    else
      || Programmed(PageAt(m, ds[i].addr), ds[i].data) == ds[i].data
      || exists j :: k <= j < |ds| && ds[j].erase && SectorBase(ds[j].addr) == SectorBase(ds[i].addr)
  }

  /** Whatever has happened to memory when the first k blocks have been written, the image is in
      flash after the others exactly if memory was still right then. */
  lemma OthersMayWrite(m: seq<byte>, ds: seq<Delivery>, k: nat)
    requires |m| == MEMORY_END && FlashPlaced(ds) && OneEraser(ds) && k <= |ds|
    ensures AllInMemory(ds[k..], false)
    ensures ImageIn(Replay(m, false, ds[k..], AllTrue(|ds| - k)), false, ds) <==> StillRight(m, ds, k)
  {
    hide Replay, SectorBase, Programmed, FlashPlaced, OneEraser;
    assert AllInMemory(ds, false) by { PlacedInMemory(ds); }
    forall i | 0 <= i < |ds|
      ensures PageAt(Replay(m, false, ds[k..], AllTrue(|ds| - k)), ds[i].addr) == ds[i].data
              <==> PageStillRight(m, ds, k, i)
    {
      PageMayStay(m, ds, k, i);
    }
  }

  lemma PlacedInMemory(ds: seq<Delivery>)
    requires FlashPlaced(ds)
    ensures AllInMemory(ds, false)
  {
  }

  lemma PageMayStay(m: seq<byte>, ds: seq<Delivery>, k: nat, i: nat)
    requires |m| == MEMORY_END && FlashPlaced(ds) && OneEraser(ds) && k <= |ds| && i < |ds|
    ensures AllInMemory(ds[k..], false)
    ensures PageAt(Replay(m, false, ds[k..], AllTrue(|ds| - k)), ds[i].addr) == ds[i].data
            <==> PageStillRight(m, ds, k, i)
  {
    hide Replay, Group, SectorBase, Programmed, PageReplay;
    var es, ok, p := ds[k..], AllTrue(|ds| - k), ds[i].addr;
    ReplayPage(m, es, ok, p);
    if i < k {
      Untouched(PageAt(m, p), ds, k, i, |ds| - k);
    } else {
      PageOutcome(PageAt(m, p), es, ok, i - k);
      assert es[i - k] == ds[i];
      ProgrammingBlank(Blank(PAGE), ds[i].data);
      SameErasers(ds, k, p);
    }
  }

  lemma SameErasers(ds: seq<Delivery>, k: nat, p: nat)
    requires k <= |ds|
    ensures SectorErased(ds[k..], AllTrue(|ds| - k), p)
            <==> exists j :: k <= j < |ds| && ds[j].erase && SectorBase(ds[j].addr) == SectorBase(p)
  {
    hide SectorBase;
    if j :| k <= j < |ds| && ds[j].erase && SectorBase(ds[j].addr) == SectorBase(p) {
      assert ds[k..][j - k] == ds[j];
    }
  }

  /** A page written before is left alone. */
  lemma {:induction false} Untouched(q: seq<byte>, ds: seq<Delivery>, k: nat, i: nat, n: nat)
    requires FlashPlaced(ds) && OneEraser(ds) && i < k <= |ds| && n <= |ds| - k && |q| == PAGE
    ensures AllInMemory(ds[k..], false) && PageReplay(q, ds[k..], AllTrue(n), ds[i].addr) == q
    decreases n
  {
    hide Group, SectorBase, Programmed;
    if n > 0 {
      Untouched(q, ds, k, i, n - 1);
      assert AllTrue(n)[..n - 1] == AllTrue(n - 1);
      assert ds[k..][n - 1] == ds[k + n - 1];
    }
  }

  /** Changes that leave the pages of the image alone are harmless. */
  lemma ElsewhereIsHarmless(m: seq<byte>, now: seq<byte>, ds: seq<Delivery>, k: nat)
    requires |m| == |now| == MEMORY_END && FlashPlaced(ds) && FirstErases(ds, false, {}) && k <= |ds|
    requires forall i :: 0 <= i < |ds| ==>
               PageAt(now, ds[i].addr) == PageAt(Replay(m, false, ds, AllTrue(k)), ds[i].addr)
    ensures StillRight(now, ds, k)
  {
    hide Replay, SectorBase, Group, Programmed, FirstErases, Blank;
    FirstIsOnlyEraser(ds, false, {});
    forall i | 0 <= i < |ds| ensures PageStillRight(now, ds, k, i) {
      var j := EraserOf(ds, {}, i);
      ReplayPage(m, ds, AllTrue(k), ds[i].addr);
      PageOutcome(PageAt(m, ds[i].addr), ds, AllTrue(k), i);
      ProgrammingBlank(Blank(PAGE), ds[i].data);
      if j < k { assert AllTrue(k)[j] && SectorErased(ds, AllTrue(k), ds[i].addr); }
    }
  }
}
