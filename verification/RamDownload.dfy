/** A whole UF2 download to RAM, stated by addresses alone. */
module RamDownload {
  import opened Memory
  import opened Deliveries
  import opened VirtualDisk
  import opened Download

  /** A page of SRAM, at any address, or a page of the XIP cache at a multiple of its size. */
  predicate RamPage(a: nat) {
    || (SRAM_BASE <= a && a + 256 <= SRAM_END)
    || (XIP_SRAM_BASE <= a && a + 256 <= XIP_SRAM_END && a % 256 == 0)
  }

  /** The pages of an image lie in RAM and do not overlap. */
  ghost predicate Apart(addrs: seq<nat>) {
    && (forall i :: 0 <= i < |addrs| ==> RamPage(addrs[i]))
    && forall i, j :: 0 <= i < |addrs| && 0 <= j < |addrs| && i != j ==>
         addrs[i] + 256 <= addrs[j] || addrs[j] + 256 <= addrs[i]
  }

  // ---- Every such image fits the tracker ----

  /** The bitmap for RAM images has a bit for each page that RAM has room for. */
  lemma BitmapSuffices()
    ensures ((SRAM_END - SRAM_BASE) + (XIP_SRAM_END - XIP_SRAM_BASE)) / 256 == 1120 <= MAX_RAM_BLOCKS
  {
  }

  /** Numbers the pages of RAM; pages that do not overlap have different numbers. */
  function Slot(a: nat): nat
    requires RamPage(a)
  {
    if a >= SRAM_BASE then (a - SRAM_BASE) / 256 else 1056 + (a - XIP_SRAM_BASE) / 256
  }

  lemma SlotsDiffer(a: nat, b: nat)
    requires RamPage(a) && RamPage(b) && (a + 256 <= b || b + 256 <= a)
    ensures Slot(a) != Slot(b) && Slot(a) < 1120
  {
  }

  ghost predicate HasSlot(addrs: seq<nat>, x: nat)
    requires Apart(addrs)
  {
    exists i :: 0 <= i < |addrs| && Slot(addrs[i]) == x
  }

  lemma FrontApart(addrs: seq<nat>)
    requires Apart(addrs) && addrs != []
    ensures Apart(addrs[..|addrs| - 1])
  {
    hide RamPage;
  }

  lemma NewSlot(addrs: seq<nat>)
    requires Apart(addrs) && addrs != []
    ensures var n := |addrs| - 1;
            && Apart(addrs[..n]) && Slot(addrs[n]) < 1120 && !HasSlot(addrs[..n], Slot(addrs[n]))
            && HasSlot(addrs, Slot(addrs[n]))
            && forall x: nat :: HasSlot(addrs[..n], x) ==> HasSlot(addrs, x)
  {
    hide Slot, RamPage;
    var n := |addrs| - 1;
    FrontApart(addrs);
    OneSlot(addrs[n]);
    if HasSlot(addrs[..n], Slot(addrs[n])) {
      var i :| 0 <= i < n && Slot(addrs[..n][i]) == Slot(addrs[n]);
      SlotsDiffer(addrs[i], addrs[n]);
    }
    forall x: nat | HasSlot(addrs[..n], x) ensures HasSlot(addrs, x) {
      var i :| 0 <= i < n && Slot(addrs[..n][i]) == x;
      assert addrs[..n][i] == addrs[i];
    }
  }

  lemma {:induction false} Slots(addrs: seq<nat>) returns (s: set<nat>)
    requires Apart(addrs)
    ensures |s| == |addrs| && forall x :: x in s ==> x < 1120 && HasSlot(addrs, x)
  {
    hide Slot, RamPage, HasSlot;
    s := {};
    if addrs != [] {
      NewSlot(addrs);
      var front := Slots(addrs[..|addrs| - 1]);
      s := front + {Slot(addrs[|addrs| - 1])};
    }
  }

  lemma OneSlot(a: nat)
    requires RamPage(a)
    ensures Slot(a) < 1120
  {
  }

  /** An image whose pages do not overlap has no more blocks than the tracker has bits for. */
  lemma ImageFits(addrs: seq<nat>)
    requires Apart(addrs)
    ensures |addrs| <= 1120 <= MAX_RAM_BLOCKS
  {
    var s := Slots(addrs);
    Crowded(s, 1120);
  }

  // ---- The download ----

  /** A UF2 block of the image; other sectors are of no interest. */
  predicate BlockOf(s: Sector, addrs: seq<nat>) {
    && |s.data| == PAGE
    && (IsUf2(s) ==> s.numBlocks == |addrs| && s.blockNo < |addrs| && s.targetAddr == addrs[s.blockNo])
  }

  lemma PageIsAccepted(s: Sector, n: nat)
    requires IsUf2(s) && RamPage(s.targetAddr) && s.numBlocks == n && s.blockNo < n <= MAX_RAM_BLOCKS
    requires |s.data| == PAGE
    ensures OfImage(s, n, true) && EndsInRange(s, true)
  {
    hide IsUf2;
  }

  lemma BlocksAreOfImage(sectors: seq<Sector>, addrs: seq<nat>)
    requires Apart(addrs) && forall i :: 0 <= i < |sectors| ==> BlockOf(sectors[i], addrs)
    ensures forall i :: 0 <= i < |sectors| ==> OfImage(sectors[i], |addrs|, true) && EndsInRange(sectors[i], true)
  {
    hide IsUf2, RamPage, OfImage;
    ImageFits(addrs);
    forall i | 0 <= i < |sectors|
      ensures OfImage(sectors[i], |addrs|, true) && EndsInRange(sectors[i], true)
    {
      if IsUf2(sectors[i]) { PageIsAccepted(sectors[i], |addrs|); } else { OtherSector(sectors[i], |addrs|); }
    }
  }

  lemma OtherSector(s: Sector, n: nat)
    requires !IsUf2(s) && |s.data| == PAGE && n <= MAX_RAM_BLOCKS
    ensures OfImage(s, n, true) && EndsInRange(s, true)
  {
    hide IsUf2;
  }

  lemma {:induction false} CollectedFrom(sectors: seq<Sector>, addrs: seq<nat>)
    requires forall i :: 0 <= i < |sectors| ==> BlockOf(sectors[i], addrs)
    ensures forall k :: 0 <= k < |Collected(sectors, true)| ==>
              var d := Collected(sectors, true)[k];
              d.block < |addrs| && d.addr == addrs[d.block]
  {
    hide IsUf2, Group, Has, HasGroup;
    if sectors != [] { CollectedFrom(sectors[..|sectors| - 1], addrs); }
  }

  lemma CollectedIsPlaced(ds: seq<Delivery>, addrs: seq<nat>)
    requires Apart(addrs) && AllInMemory(ds, true) && Distinct(ds)
    requires forall k :: 0 <= k < |ds| ==> ds[k].block < |addrs| && ds[k].addr == addrs[ds[k].block]
    ensures RamPlaced(ds)
  {
    hide RamPage, InMemory;
  }

  /** Bytes of no page of the image never change. */
  lemma {:induction false} ReplayOutside(m: seq<byte>, ds: seq<Delivery>, ok: seq<bool>, addrs: seq<nat>, a: nat)
    requires |m| == MEMORY_END && AllInMemory(ds, true) && |ok| <= |ds| && a < MEMORY_END
    requires forall k :: 0 <= k < |ds| ==> ds[k].block < |addrs| && ds[k].addr == addrs[ds[k].block]
    requires forall i :: 0 <= i < |addrs| ==> !(addrs[i] <= a < addrs[i] + 256)
    ensures Replay(m, true, ds, ok)[a] == m[a]
    decreases |ok|
  {
    if ok != [] {
      ReplayOutside(m, ds, ok[..|ok| - 1], addrs, a);
    }
  }

  /** The address a RAM image is started at: its lowest in SRAM. */
  lemma LowestOfAll(ds: seq<Delivery>, addrs: seq<nat>, lowest: nat)
    requires LowestOf(ds, lowest) && forall b :: 0 <= b < |addrs| ==> Has(ds, b)
    requires forall k :: 0 <= k < |ds| ==> ds[k].block < |addrs| && ds[k].addr == addrs[ds[k].block]
    ensures forall i :: 0 <= i < |addrs| && addrs[i] >= SRAM_BASE ==> lowest <= addrs[i]
    ensures (lowest in addrs && lowest >= SRAM_BASE) || lowest == 0xffff_ffff
  {
    forall i | 0 <= i < |addrs| && addrs[i] >= SRAM_BASE ensures lowest <= addrs[i] {
      assert Has(ds, i);
      var k :| 0 <= k < |ds| && ds[k].block == i;
    }
  }

  /** A download into RAM, its blocks in any order, with any duplicates, among any other sectors
      written to the disk, each going to the page given for its number: a reboot is requested exactly
      when every block has arrived, and then memory holds the payloads that arrived first. The image
      is started at the lowest of its addresses in SRAM; if all of it goes to the XIP cache, at the
      value the tracker starts from. Bytes outside its pages never change. */
  method DownloadRamImage(d: Device, sectors: seq<Sector>, tokens: seq<nat>, ghost addrs: seq<nat>)
    requires d.Valid() && !d.queueFull && d.numBlocks == 0 && !d.rebooting && !d.queueDisable
    requires |tokens| == |sectors|
    requires forall i :: 0 <= i < |addrs| ==>
               || (SRAM_BASE <= addrs[i] && addrs[i] + 256 <= SRAM_END)
               || (XIP_SRAM_BASE <= addrs[i] && addrs[i] + 256 <= XIP_SRAM_END && addrs[i] % 256 == 0)
    requires forall i, j :: 0 <= i < |addrs| && 0 <= j < |addrs| && i != j ==>
               addrs[i] + 256 <= addrs[j] || addrs[j] + 256 <= addrs[i]
    requires forall i :: 0 <= i < |sectors| ==> |sectors[i].data| == PAGE
    requires forall i :: 0 <= i < |sectors| && IsUf2(sectors[i]) ==>
               && sectors[i].numBlocks == |addrs| && sectors[i].blockNo < |addrs|
               && sectors[i].targetAddr == addrs[sectors[i].blockNo]
    modifies d, d.ramValid, d.flashValid, d.clearedPages
    ensures d.Valid() && |d.mem| == old(|d.mem|) == MEMORY_END
    ensures d.rebooting <==> |addrs| > 0 && forall b :: 0 <= b < |addrs| ==> Sends(sectors, b)
    ensures d.rebooting ==> forall i :: 0 <= i < |sectors| && IsFirst(sectors, i) ==>
              sectors[i].targetAddr + PAGE <= MEMORY_END
              && PageAt(d.mem, sectors[i].targetAddr) == sectors[i].data
    ensures d.rebooting ==> forall i :: 0 <= i < |addrs| && addrs[i] >= SRAM_BASE ==> d.rebootAddr <= addrs[i]
    ensures d.rebooting ==>
              if exists i :: 0 <= i < |addrs| && addrs[i] >= SRAM_BASE
              then d.rebootAddr in addrs && d.rebootAddr >= SRAM_BASE else d.rebootAddr == 0xffff_ffff
    ensures forall a :: 0 <= a < MEMORY_END && (forall i :: 0 <= i < |addrs| ==> !(addrs[i] <= a < addrs[i] + 256)) ==>
              d.mem[a] == old(d.mem)[a]
  {
    hide Device.Valid, IsFirst, Sends, OfImage, EndsInRange, Collected, IsUf2, LowestOf;
    hide AllInMemory, Distinct, FirstErases, Replay, ImageIn, RamPlaced, Has;
    BlocksAreOfImage(sectors, addrs);
    var c := SendSectors(d, sectors, tokens, |addrs|, true);
    SmoothReboots(c, old(d.mem), sectors, |addrs|, true);
    CollectedFrom(sectors, addrs);
    ghost var ds := Collected(sectors, true);
    CollectedIsPlaced(ds, addrs);
    AllRight(old(d.mem), ds, true);
    FirstsAreThere(Replay(old(d.mem), true, ds, AllTrue(|ds|)), sectors, true);
    if d.rebooting {
      EveryBlockHas(sectors, ds, |addrs|);
      LowestOfAll(ds, addrs, d.rebootAddr);
    }
    forall a | 0 <= a < MEMORY_END && (forall i :: 0 <= i < |addrs| ==> !(addrs[i] <= a < addrs[i] + 256))
      ensures d.mem[a] == old(d.mem)[a]
    {
      ReplayOutside(old(d.mem), ds, AllTrue(|ds|), addrs, a);
    }
  }

  lemma EveryBlockHas(sectors: seq<Sector>, ds: seq<Delivery>, n: nat)
    requires ds == Collected(sectors, true) && Everything(sectors, n)
    ensures forall b :: 0 <= b < n ==> Has(ds, b)
  {
    hide Collected, Has;
    forall b | 0 <= b < n ensures Has(ds, b) {
      CollectedMeans(sectors, b, true);
      assert Sends(sectors, b);
    }
  }
}
