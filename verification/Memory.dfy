/** The RP2040's address space as the boot code writes to it, with NOR flash behind part of it. */
module Memory {
  type byte = bv8

  const XIP_MAIN_BASE := 0x1000_0000
  const XIP_SRAM_BASE := 0x1500_0000
  const XIP_SRAM_END := 0x1500_4000
  const SRAM_BASE := 0x2000_0000
  const SRAM_END := 0x2004_2000
  const FLASH_END := 0x1100_0000      // flash commands carry 24 address bits
  const MEMORY_END := 0x2100_0000

  const PAGE := 256
  const SECTOR := 4096

  // both ends included, as callers test the first and the last byte of a range

  predicate IsAddressRam(a: nat) {
    SRAM_BASE <= a <= SRAM_END || XIP_SRAM_BASE <= a <= XIP_SRAM_END
  }

  predicate IsAddressFlash(a: nat) {
    XIP_MAIN_BASE <= a <= SRAM_BASE
  }

  function Overwrite(m: seq<byte>, at: nat, t: seq<byte>): (r: seq<byte>)
    requires at + |t| <= |m|
    ensures |r| == |m| && r[at..at + |t|] == t
    ensures forall i :: 0 <= i < |m| && !(at <= i < at + |t|) ==> r[i] == m[i]
  {
    m[..at] + t + m[at + |t|..]
  }

  function Blank(n: nat): (r: seq<byte>)
    ensures |r| == n && forall i :: 0 <= i < n ==> r[i] == 0xff
  {
    seq(n, _ => 0xff)
  }

  /** What NOR programming leaves: bits can only be cleared. */
  function Programmed(old_: seq<byte>, data: seq<byte>): (r: seq<byte>)
    requires |old_| == |data|
    ensures |r| == |data|
  {
    seq(|data|, i requires 0 <= i < |data| => old_[i] & data[i])
  }

  lemma ProgrammingBlank(old_: seq<byte>, data: seq<byte>)
    requires |old_| == |data| && old_ == Blank(|data|)
    ensures Programmed(old_, data) == data
  {
    forall i | 0 <= i < |data| ensures Programmed(old_, data)[i] == data[i] {
      assert old_[i] == 0xff;
      assert (0xff as byte) & data[i] == data[i];
    }
  }

  function EraseSector(m: seq<byte>, a: nat): (r: seq<byte>)
    requires a + SECTOR <= |m|
  {
    Overwrite(m, a, Blank(SECTOR))
  }

  function ProgramPage(m: seq<byte>, a: nat, data: seq<byte>): (r: seq<byte>)
    requires |data| == PAGE && a + PAGE <= |m|
  {
    Overwrite(m, a, Programmed(m[a..a + PAGE], data))
  }

  function PageAt(m: seq<byte>, a: nat): seq<byte>
    requires a + PAGE <= |m|
  {
    m[a..a + PAGE]
  }

  /** A page away from a write keeps its bytes. */
  lemma PageKept(m: seq<byte>, at: nat, t: seq<byte>, a: nat)
    requires at + |t| <= |m| && a + PAGE <= |m| && (a + PAGE <= at || at + |t| <= a)
    ensures PageAt(Overwrite(m, at, t), a) == PageAt(m, a)
  {
    var r := Overwrite(m, at, t);
    assert forall i :: a <= i < a + PAGE ==> r[i] == m[i];
  }

  lemma PageErased(m: seq<byte>, at: nat, a: nat)
    requires at + SECTOR <= |m| && at <= a && a + PAGE <= at + SECTOR
    ensures PageAt(EraseSector(m, at), a) == Blank(PAGE)
  {
    var r := EraseSector(m, at);
    assert forall i :: a <= i < a + PAGE ==> r[i] == r[at..at + SECTOR][i - at];
  }
}
