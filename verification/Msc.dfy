/** The data phase of a READ(10) or WRITE(10) command over USB mass storage: how much is moved, which
    endpoint is halted and what the command status wrapper says. */
module Msc {
  const SECTOR := 512
  const PACKET := 64

  type word = x: int | 0 <= x < 0x1_0000_0000

  datatype Direction = NoDirection | In | Out

  datatype Status = Passed | Failed | PhaseError

  /** The parts of a command block wrapper that matter here. */
  datatype Cbw = Cbw(requested: word, fromDevice: bool)

  datatype Csw = Csw(residue: word, status: Status)

  function DirectionOf(cbw: Cbw): Direction { if cbw.fromDevice then In else Out }

  /** What the host and the device want moved agree in direction and length. */
  predicate Agree(cbw: Cbw, blocks: nat, dir: Direction) {
    DirectionOf(cbw) == dir && SECTOR * blocks == cbw.requested
  }

  function Min(a: nat, b: nat): nat { if a < b then a else b }

  /** Section 6.7 of USB Mass Storage Bulk-Only Transport 1.0: the cases in which the device reports a
      phase error, from the expectations of host and device alone. */
  predicate PhaseErrorCase(cbw: Cbw, blocks: nat, dir: Direction) {
    if blocks == 0 then false                          // the device wants no data: cases 1, 4, 9
    else if cbw.requested == 0 then true               // 2, 3
    else if DirectionOf(cbw) != dir then true          // 8, 10
    else SECTOR * blocks > cbw.requested               // 7, 13; not 5, 6, 11, 12
  }

  /** The status this device gives unless a sector fails. It differs from the standard for a command
      that asks for no blocks with the direction bit of the other direction, and only for that. */
  function StatusOf(cbw: Cbw, blocks: nat, dir: Direction): Status {
    if DirectionOf(cbw) != dir || SECTOR * blocks > cbw.requested then PhaseError else Passed
  }

  lemma StatusIsStandard(cbw: Cbw, blocks: nat, dir: Direction)
    ensures (StatusOf(cbw, blocks, dir) == PhaseError <==> PhaseErrorCase(cbw, blocks, dir))
            <==> !(blocks == 0 && DirectionOf(cbw) != dir)
  {
  }

  class MassStorage {
    var residue: word
    var status: Status
    var dataPhaseLength: nat
    var stall: Direction
    var sendCswOnUnstall: bool
    var inHalted: bool
    var outHalted: bool
    ghost var sent: seq<Csw>          // wrappers handed to the IN endpoint

    /** The data phase is over: the wrapper has been sent, or will be when the host clears the halt
        of the IN endpoint. */
    ghost predicate Answered(before: seq<Csw>, halted: Direction, csw: Csw)
      reads this
    {
      && stall == NoDirection && inHalted == (halted == In) && outHalted == (halted == Out)
      && (if halted == In then sendCswOnUnstall && sent == before && Csw(residue, status) == csw
          else !sendCswOnUnstall && sent == before + [csw])
    }

    method SendCsw()
      modifies this`sendCswOnUnstall, this`sent
      ensures !sendCswOnUnstall && sent == old(sent) + [Csw(residue, status)]
    {
      sendCswOnUnstall := false;
      sent := sent + [Csw(residue, status)];
    }

    /** _msc_data_phase_complete. */
    method DataPhaseComplete()
      requires !inHalted && !outHalted && !sendCswOnUnstall
      modifies this`stall, this`sendCswOnUnstall, this`inHalted, this`outHalted, this`sent
      ensures Answered(old(sent), old(stall), Csw(residue, status))
    {
      if stall == In {
        stall := NoDirection;
        sendCswOnUnstall := true;
        inHalted := true;
      } else {
        if stall == Out {
          stall := NoDirection;
          outHalted := true;
        }
        SendCsw();
      }
    }

    /** _msc_in_on_stall_change, when the host clears the halt of the IN endpoint. */
    method InUnstalled()
      modifies this`inHalted, this`sendCswOnUnstall, this`sent
      ensures !inHalted && !sendCswOnUnstall
      ensures sent == if old(sendCswOnUnstall) then old(sent) + [Csw(residue, status)] else old(sent)
    {
      inHalted := false;
      if sendCswOnUnstall { SendCsw(); }
    }

    /** _msc_init_for_di_or_do: true when there is data to move. */
    method InitForDiOrDo(cbw: Cbw, expected: nat, dir: Direction) returns (more: bool)
      requires !inHalted && !outHalted && !sendCswOnUnstall && dir != NoDirection
      requires residue == cbw.requested && status == Passed
      modifies this
      ensures residue == old(residue)
      ensures status == if DirectionOf(cbw) != dir || expected > cbw.requested then PhaseError else Passed
      ensures var wanted := if DirectionOf(cbw) == dir then Min(expected, cbw.requested) else 0;
              var halt :=
                if DirectionOf(cbw) != dir || expected != cbw.requested then DirectionOf(cbw) else NoDirection;
              && more == (wanted > 0)
              && if more then
                   && dataPhaseLength == wanted && stall == halt
                   && !inHalted && !outHalted && !sendCswOnUnstall && sent == old(sent)
                 else Answered(old(sent), halt, Csw(residue, status))
    {
      stall := NoDirection;
      dataPhaseLength := 0;
      var cbwDir := DirectionOf(cbw);
      if cbwDir != dir {
        stall := cbwDir;
        status := PhaseError;
      } else {
        if expected != cbw.requested { stall := dir; }
        if expected > cbw.requested { status := PhaseError; }
        dataPhaseLength := Min(expected, cbw.requested);
      }
      if dataPhaseLength == 0 {
        DataPhaseComplete();
        return false;
      }
      return true;
    }

    /** _scsi_read_or_write_blocks: the transfer is started with the whole packets both sides want,
        none if they do not agree on the direction. */
    method ReadOrWriteBlocks(cbw: Cbw, blocks: nat, dir: Direction) returns (packets: nat)
      requires !inHalted && !outHalted && !sendCswOnUnstall && dir != NoDirection && blocks < 0x1_0000
      requires residue == cbw.requested && status == Passed
      modifies this
      ensures residue == cbw.requested && status == StatusOf(cbw, blocks, dir)
      ensures cbw.fromDevice != (dir == In) ==> packets == 0
      ensures cbw.fromDevice == (dir == In) ==>
                && 64 * packets <= 512 * blocks && 64 * packets <= cbw.requested
                && (512 * blocks < 64 * packets + 64 || cbw.requested < 64 * packets + 64)
      ensures var halt := if Agree(cbw, blocks, dir) then NoDirection else DirectionOf(cbw);
              if packets > 0 then stall == halt && !inHalted && !outHalted && !sendCswOnUnstall && sent == old(sent)
              else Answered(old(sent), halt, Csw(residue, status))
    {
      packets := 0;
      var expected := blocks * 512 % 0x1_0000_0000;
      var more := InitForDiOrDo(cbw, expected, dir);
      if more {
        packets := dataPhaseLength / 64;
        if packets == 0 { DataPhaseComplete(); }
      }
    }

    /** _msc_on_sector_stream_packet_complete, in the arithmetic of 32-bit words. */
    method PacketComplete()
      modifies this`residue
      ensures old(residue) >= PACKET ==> residue == old(residue) - PACKET
    {
      residue := (residue + 0x1_0000_0000 - 64) % 0x1_0000_0000;
    }

    /** vd_async_complete for a sector that could not be written: the data phase ends here. */
    method SectorFailed()
      requires !inHalted && !outHalted && !sendCswOnUnstall
      modifies this
      ensures Answered(old(sent), Out, Csw(old(residue), Failed)) && residue == old(residue)
    {
      status := Failed;
      stall := Out;
      DataPhaseComplete();
    }

    /** A whole command. written[k] says whether the k-th sector of a WRITE(10) could be written; the
        data phase ends with the last packet of the first that could not. Otherwise exactly the whole
        packets that both sides want are moved, all of them if they want the same. Either way one
        wrapper is sent or waits for the IN endpoint to be cleared, and its residue is what was asked
        for less what was moved, the packet that ended a sector in failure not counted. */
    method Command(cbw: Cbw, blocks: nat, dir: Direction, written: seq<bool>) returns (moved: nat, failed: bool)
      requires !inHalted && !outHalted && !sendCswOnUnstall && dir != NoDirection && blocks < 0x1_0000
      requires |written| == blocks
      modifies this
      ensures failed <==> dir == Out && !cbw.fromDevice
                          && exists k :: 0 <= k < blocks && 512 * k + 64 <= cbw.requested && !written[k]
      ensures failed ==>
                var k := moved / 8;
                && k < blocks && !written[k] && (forall j :: 0 <= j < k ==> written[j])
                && 64 * moved + 64 <= cbw.requested
                && (moved == 8 * k + 7 || cbw.requested < 64 * moved + 128)
      ensures !failed && cbw.fromDevice != (dir == In) ==> moved == 0
      ensures !failed && cbw.fromDevice == (dir == In) ==>
                && 64 * moved <= 512 * blocks && 64 * moved <= cbw.requested
                && (512 * blocks < 64 * moved + 64 || cbw.requested < 64 * moved + 64)
                && (512 * blocks == cbw.requested ==> cbw.requested - 64 * moved == 0)
      ensures 64 * moved <= cbw.requested
      ensures var agree := cbw.fromDevice == (dir == In) && 512 * blocks == cbw.requested;
              && inHalted == (!failed && !agree && cbw.fromDevice)
              && outHalted == (failed || (!agree && !cbw.fromDevice))
      ensures var csw := Csw(cbw.requested - 64 * moved, if failed then Failed else StatusOf(cbw, blocks, dir));
              if inHalted then sendCswOnUnstall && sent == old(sent) && Csw(residue, status) == csw
              else !sendCswOnUnstall && sent == old(sent) + [csw]
    {
      hide StatusOf;
      residue, status := cbw.requested, Passed;
      var packets := ReadOrWriteBlocks(cbw, blocks, dir);
      moved, failed := 0, false;
      ghost var halt := if Agree(cbw, blocks, dir) then NoDirection else DirectionOf(cbw);
      while moved < packets
        invariant moved <= packets
        invariant residue == cbw.requested - PACKET * moved && status == StatusOf(cbw, blocks, dir)
        invariant packets > 0 ==>
                    stall == halt && !inHalted && !outHalted && !sendCswOnUnstall && sent == old(sent)
        invariant packets == 0 ==> Answered(old(sent), halt, Csw(cbw.requested, status))
        invariant dir == Out ==> forall k :: 0 <= k < blocks && 8 * k + 8 <= moved ==> written[k]
        invariant dir == Out && moved == packets ==> forall k :: 0 <= k < blocks && 8 * k < packets ==> written[k]
      {
        // on_chunk is called with the last packet of a sector
        if dir == Out && (moved % 8 == 7 || moved == packets - 1) {
          if !written[moved / 8] {
            SectorFailed();
            PacketComplete();                 // usb_stream_chunk_done, after the wrapper is sent
            return moved, true;
          }
        }
        PacketComplete();
        moved := moved + 1;
      }
      if packets > 0 { DataPhaseComplete(); }
    }
  }
}
