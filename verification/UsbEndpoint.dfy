/** One endpoint of the USB device library: buffer ownership, double buffering, re-entrant packet
    handlers, data toggle and halt.

    The hardware is the queue hw of buffers it owns, which it completes in order. The packet
    handler (on_packet) and the completion callback (on_complete) are the library's clients: they
    are free to act at once or later, and the contracts hold whatever they choose. */
module UsbEndpoint {

  /** enum usb_halt_state, in increasing rank. */
  datatype Halt = None | NonHaltStall | Halted | HaltedOnCondition {
    function Rank(): nat {
      match this
      case None => 0
      case NonHaltStall => 1
      case Halted => 2
      case HaltedOnCondition => 3
    }
  }

  /** A buffer the hardware owns: which of the two, and the data toggle and the selector bit it was
      given. */
  datatype Given = Given(which: nat, pid: nat, sel: bool)

  class Endpoint {
    const isIn: bool
    const doubleBuffered: bool
    const prompt: bool            // the client's handlers answer at once and never halt
    var owned: nat                // owned_buffer_count
    var give: nat                 // current_give_buffer
    var take: nat                 // current_take_buffer
    var nextPid: nat
    var halt: Halt
    var firstAfterReset: bool
    // the current transfer
    var active: bool
    var toSubmit: nat             // remaining_packets_to_submit
    var toHandle: nat             // remaining_packets_to_handle
    var outstanding: bool
    var queued: bool
    // the hardware and the packet numbers in the two buffers
    var hw: seq<Given>
    ghost var held: seq<nat>
    // history
    ghost var bus: nat            // packets completed on the bus since the last reset
    ghost var done: nat           // packets completed on the bus since the host reset the toggle
    ghost var inStep: bool        // no toggle has been lost
    ghost var log: seq<nat>       // OUT: packets the handler was given; IN: packets sent
    ghost var goal: nat           // what bus will be when the current transfer ends
    ghost var started: nat        // transfers started
    var completed: nat            // transfers that reached on_complete
    ghost var aborted: nat        // transfers dropped by a halt or a reset
    var starting: bool            // inside usb_start_transfer

    function Count(): nat { if doubleBuffered then 2 else 1 }

    ghost function Queued(): nat
      reads this`queued
    {
      if queued then 1 else 0
    }

    /** Buffers are either ours or the hardware's; the hardware's are in turn, with alternating
        toggles that follow the packets already completed. */
    ghost predicate Buffers(loose: nat)
      reads this`owned, this`hw, this`give, this`take, this`nextPid, this`held, this`firstAfterReset
    {
      && owned + |hw| + loose == Count()
      && give < Count() && take < Count() && nextPid < 2 && |held| == 2
      && (firstAfterReset ==> give == 0 && hw == [])
      && (|hw| > 0 ==> hw[0].which == if doubleBuffered && |hw| == 1 then 1 - give else give)
      && (|hw| > 1 ==> hw[1].which == 1 - give)
    }

    /** The toggle of every packet on the bus alternates, starting with DATA0, and the selector bit is
        given with the first buffer after a reset and no other. */
    ghost predicate ToggleInStep()
      reads this`nextPid, this`hw, this`done, this`inStep, this`firstAfterReset, this`bus
    {
      && (inStep ==>
            && nextPid == (done + |hw|) % 2
            && (|hw| > 0 ==> hw[0].pid == done % 2)
            && (|hw| > 1 ==> hw[1].pid == (done + 1) % 2))
      && (firstAfterReset <==> bus + |hw| == 0)
      && (|hw| > 0 ==> (hw[0].sel <==> bus == 0))
      && (|hw| > 1 ==> !hw[1].sel)
    }

    /** Every packet is handed over exactly once and in bus order, `late` of them still to come. */
    ghost predicate InOrder(late: nat)
      requires |held| == 2
      reads this`log, this`bus, this`hw, this`held, this`halt
    {
      && (halt == None ==> |log| + late == bus)
      && (forall i :: 0 <= i < |log| ==> log[i] == i)
      && (isIn && |hw| > 0 ==> hw[0].which < 2 && held[hw[0].which] == bus)
      && (isIn && |hw| > 1 ==> hw[1].which < 2 && held[hw[1].which] == bus + 1)
    }

    /** The counts of the current transfer, `extra` packets being handled just now. */
    ghost predicate Counts(extra: nat)
      reads this`active, this`halt, this`toHandle, this`toSubmit, this`hw, this`queued, this`outstanding
      reads this`started, this`completed, this`aborted, this`goal, this`bus
    {
      && (active && halt == None ==>
            toHandle == toSubmit + |hw| + Queued() + extra && goal == bus + toSubmit + |hw|)
      && (!active ==> !outstanding && !queued && (halt == None ==> hw == []))
      && (queued ==> doubleBuffered && hw == [])
      && started == completed + aborted + if active then 1 else 0
    }

    ghost predicate NotGiven(which: nat)
      reads this`hw
    {
      (|hw| > 0 ==> hw[0].which != which) && (|hw| > 1 ==> hw[1].which != which)
    }

    /** Where the packet being worked on sits: never in a buffer the hardware owns. */
    ghost predicate Held()
      requires |held| == 2 && give < 2 && take < 2
      reads this`outstanding, this`owned, this`halt, this`toSubmit, this`held, this`give, this`bus, this`hw
      reads this`take, this`queued
    {
      && (outstanding ==> owned > 0)
      && (isIn && outstanding && halt == None ==> toSubmit > 0 && held[give] == bus + |hw|)
      && (!isIn && outstanding ==> NotGiven(take))
      && (!isIn && queued ==> held[1 - take] + 1 == bus)
    }

    ghost predicate Inv(extra: nat, loose: nat, late: nat)
      reads this
    {
      Buffers(loose) && ToggleInStep() && InOrder(late) && Counts(extra) && Held()
    }

    ghost function Late(): nat
      reads this`queued
    {
      if isIn then 0 else Queued()
    }

    /** A transfer that waits for no handler has given the hardware all it can. */
    ghost predicate Flowing()
      reads this`active, this`halt, this`outstanding, this`toSubmit, this`owned
    {
      && (active && halt == None && !outstanding ==> toSubmit == 0 || owned == 0)
      && (prompt ==> !outstanding)
    }

    /** What holds whenever the library is not running: at every event boundary. */
    ghost predicate Valid()
      reads this
    {
      && Inv(0, 0, Late()) && Flowing()
      && !starting && (queued ==> outstanding)
      && (active && halt == None ==> toHandle > 0 || outstanding)
    }

    constructor (isIn: bool, doubleBuffered: bool, prompt: bool)
      ensures Valid() && !active && halt == None && log == [] && started == 0
      ensures this.isIn == isIn && this.doubleBuffered == doubleBuffered && this.prompt == prompt
      ensures hw == [] && nextPid == done == bus == 0
    {
      this.isIn, this.doubleBuffered, this.prompt := isIn, doubleBuffered, prompt;
      owned, give, take, nextPid := if doubleBuffered then 2 else 1, 0, 0, 0;
      halt, firstAfterReset := None, true;
      active, toSubmit, toHandle, outstanding, queued := false, 0, 0, false, false;
      hw, held := [], [0, 0];
      bus, done, inStep, log, goal := 0, 0, true, [], 0;
      started, completed, aborted, starting := 0, 0, 0, false;
    }

    /** _usb_give_buffer: hand the next buffer to the hardware. */
    method GiveBuffer(ghost late: nat)
      requires Buffers(0) && ToggleInStep() && InOrder(late) && owned > 0 && toSubmit > 0 && halt == None
      requires isIn ==> held[give] == bus + |hw|
      modifies this`owned, this`give, this`nextPid, this`firstAfterReset, this`toSubmit, this`hw
      ensures Buffers(0) && ToggleInStep() && InOrder(late)
      ensures owned == old(owned) - 1 && toSubmit == old(toSubmit) - 1
      ensures hw == old(hw) + [Given(old(give), old(nextPid), old(firstAfterReset))]
      ensures !firstAfterReset && nextPid == 1 - old(nextPid) && give == (old(give) + 1) % Count()
    {
      var sel := firstAfterReset;
      if firstAfterReset { firstAfterReset := false; }
      var pid := nextPid;
      nextPid := 1 - nextPid;
      hw := hw + [Given(give, pid, sel)];
      owned := owned - 1;
      toSubmit := toSubmit - 1;
      if doubleBuffered { give := 1 - give; }
    }

    // ---- The mutually recursive engine ----

    /** The transfer in hand when its packet handler is called. */
    ghost predicate ReadyForPacket(extra: nat)
      reads this
    {
      && extra <= 1 && active && halt == None && !outstanding && !queued && toHandle > 0 && owned > 0
      && (if isIn then toSubmit > 0
          else extra == 1 && !starting && take < 2 && |held| == 2 && held[take] + 1 == bus
               && NotGiven(take))
    }

    /** The same transfer is still running, or the handler halted the endpoint and dropped it. */
    twostate predicate StillRunning()
      reads this
    {
      && bus == old(bus) && done == old(done) && inStep == old(inStep) && starting == old(starting)
      && started == old(started) && completed == old(completed) && !queued
      && (if halt == None then active && toHandle == old(toHandle) && toSubmit <= old(toSubmit) && goal == old(goal)
          else !active && !prompt)
    }

    /** What an event makes of the transfer in hand: it goes on, or has completed with all its packets
        completed on the bus. */
    twostate predicate Advanced()
      reads this
    {
      && bus == old(bus) && old(completed) <= completed <= old(completed) + 1
      && (old(halt) == None && old(active) ==>
            && (halt == None && completed == old(completed) ==>
                  active && goal == old(goal) && toSubmit <= old(toSubmit) && toHandle <= old(toHandle))
            && (completed > old(completed) ==> bus == old(goal))
            && (prompt ==> halt == None))
    }

    /** _usb_stall_endpoint. */
    method Stall(hs: Halt)
      requires hs != None
      modifies this`halt
      ensures halt == if hs.Rank() > old(halt).Rank() then hs else old(halt)
    {
      if halt == None {
        halt := hs;
      } else if hs.Rank() > halt.Rank() {
        halt := hs;
      }
    }

    /** The client's handler: it consumes an OUT packet or fills an IN packet, and reports it done
        now or later. It may halt the endpoint, but then reports at once. While a double-buffered
        IN transfer is being started it does not put off the second packet. */
    method OnPacket(ghost extra: nat)
      requires Inv(extra, 0, if isIn then 0 else 1) && active && halt == None && outstanding && !queued && toHandle > 0
      requires extra <= 1 && (!isIn ==> extra == 1 && held[take] + 1 == bus && !starting)
      modifies this
      ensures Inv(extra, 0, 0) && StillRunning() && Flowing()
      ensures isIn && halt == None ==> owned <= old(owned)
      ensures isIn && halt == None && outstanding && toSubmit > 0 ==>
                (owned == old(owned) && (starting ==> owned == Count())) || (!starting && old(owned) == 2)
      ensures isIn && halt == None && owned == old(owned) ==> outstanding
      ensures log == if isIn then old(log) else old(log) + [old(held[take])]
      decreases 0, 0, if isIn then owned else 0, 5
    {
      hide ToggleInStep;
      if !isIn { log := log + [held[take]]; }
      if prompt {
        PacketDone(extra);
      } else if * {
        var hs :| hs != None;
        Stall(hs);
        PacketDone(extra);
      } else if * {
        PacketDone(extra);
      } else if isIn && starting && owned < Count() {
        PacketDone(extra);
      }
    }

    /** _usb_call_on_packet. */
    method CallOnPacket(ghost extra: nat)
      requires Inv(extra, 0, if isIn then 0 else 1) && ReadyForPacket(extra)
      modifies this
      ensures Inv(extra, 0, 0) && StillRunning() && Flowing()
      ensures isIn && halt == None ==> owned <= old(owned)
      ensures isIn && halt == None && outstanding && toSubmit > 0 ==>
                (owned == old(owned) && (starting ==> owned == Count())) || (!starting && old(owned) == 2)
      ensures isIn && halt == None && owned == old(owned) ==> outstanding
      ensures log == if isIn then old(log) else old(log) + [old(held[take])]
      decreases 0, 0, if isIn then owned else 0, 6
    {
      outstanding := true;
      if isIn { held := held[give := bus + |hw|]; }
      OnPacket(extra);
    }

    /** _usb_give_as_many_buffers_as_possible: unless a handler puts its packet off or halts the
        endpoint, the hardware ends up with every buffer the transfer has a use for. */
    method GiveAsMany(ghost extra: nat)
      requires Inv(extra, 0, 0) && active && !outstanding && !queued && toHandle > 0
      requires extra <= 1 && (isIn ==> starting || owned <= 1)
      modifies this
      ensures old(halt) != None ==> unchanged(this)
      ensures old(halt) == None ==> Inv(extra, 0, 0) && StillRunning() && Flowing() && log == old(log)
      ensures isIn && halt == None ==> owned <= old(owned)
      ensures !isIn ==> !outstanding && halt == old(halt)
      ensures isIn && halt == None && outstanding && starting ==> owned == Count()
      decreases 0, 0, if isIn then owned else 0, if isIn then 7 else 1
    {
      while active && toSubmit > 0 && owned > 0 && halt == None
        invariant old(halt) != None ==> unchanged(this)
        invariant old(halt) == None ==> Inv(extra, 0, 0) && StillRunning() && log == old(log)
        invariant halt == None ==> owned <= old(owned)
        invariant !isIn ==> !outstanding && halt == old(halt)
        invariant !(isIn && halt == None && outstanding) && (prompt ==> !outstanding)
        decreases if active then owned + 1 else 0
      {
        if isIn {
          var was := owned;
          CallOnPacket(extra);
          if was == owned { break; }
        } else {
          GiveBuffer(0);
        }
      }
    }

    /** usb_packet_done: the handler has finished with its packet. */
    method PacketDone(ghost extra: nat)
      requires Inv(extra, 0, Late()) && active && outstanding && (prompt ==> halt == None)
      requires extra <= 1 && (extra == 1 ==> !queued && toHandle > 0)
      requires queued || (!isIn && extra == 0) ==> !starting
      modifies this
      ensures !old(queued) && (isIn || extra == 1) ==>
                && Inv(extra, 0, 0) && StillRunning() && (isIn && halt == None ==> owned < old(owned))
                && (isIn && halt == None && outstanding ==> !starting && old(owned) == 2)
                && Flowing() && log == old(log)
      ensures extra == 0 && !old(starting) ==> Valid() && Advanced() && Closer()
      ensures old(halt) != None ==> halt == old(halt) && hw == old(hw)
      decreases if queued then 1 else 0, if extra == 0 && toHandle == 0 then 1 else 0, if isIn then owned else 0, 4
    {
      hide ToggleInStep;
      outstanding := false;
      var finished := CheckCompletion(extra);
      if !finished { AfterPacket(extra); }
    }

    /** A report leaves less to do, or nothing to report. */
    twostate predicate Closer()
      reads this
    {
      old(halt) == None && halt == None && completed == old(completed) ==>
        && toSubmit + toHandle <= old(toSubmit) + old(toHandle)
        && (outstanding ==> toSubmit + toHandle < old(toSubmit) + old(toHandle))
    }

    /** The rest of usb_packet_done for a transfer that goes on. */
    method AfterPacket(ghost extra: nat)
      requires Buffers(0) && ToggleInStep() && InOrder(Late()) && Counts(extra) && Held()
      requires active && halt == None && !outstanding && toHandle > 0 && owned > 0
      requires isIn ==> toSubmit > 0 && held[give] == bus + |hw|
      requires extra <= 1 && (extra == 1 ==> !queued)
      requires queued || (!isIn && extra == 0) ==> !starting
      modifies this
      ensures !old(queued) && (isIn || extra == 1) ==>
                && Inv(extra, 0, 0) && StillRunning() && (isIn && halt == None ==> owned < old(owned))
                && (isIn && halt == None && outstanding ==> !starting && old(owned) == 2)
                && Flowing() && log == old(log)
      ensures extra == 0 && !old(starting) ==> Valid() && Advanced() && Closer()
      decreases if queued then 1 else 0, 0, if isIn then owned else 0, 3
    {
      hide ToggleInStep, InOrder;
      if isIn { GiveBuffer(0); }
      if queued {
        queued := false;
        owned := owned - 1;
        HandleTransfer(1 - take);
      } else {
        GiveAsMany(extra);                    // top up the double buffer
      }
    }

    /** _usb_check_for_transfer_completion; true when the transfer it looked at has completed. */
    method CheckCompletion(ghost extra: nat) returns (finished: bool)
      requires Buffers(0) && ToggleInStep() && InOrder(Late()) && Counts(extra) && Held() && active
      requires extra <= 1 && (extra == 1 ==> !queued && toHandle > 0)
      requires halt == None && starting ==> toHandle > 0
      requires prompt ==> halt == None && !outstanding
      modifies this
      ensures finished <==> old(halt) != None || (old(toHandle) == 0 && !old(outstanding))
      ensures !finished ==> unchanged(this)
      ensures finished && old(halt) != None ==>
                && !active && halt == old(halt) && Inv(0, 0, 0) && aborted == old(aborted) + 1
                && started == old(started) && completed == old(completed) && bus == old(bus) && done == old(done)
                && starting == old(starting) && owned == old(owned) && hw == old(hw) && inStep == old(inStep)
      ensures finished && old(halt) == None ==> completed == old(completed) + 1 && Advanced()
      ensures finished && !old(starting) ==> Valid()
      ensures log == old(log)
      decreases if queued then 1 else 0, if toHandle == 0 then 1 else 0, if isIn then owned else 0, 2
    {
      hide ToggleInStep, InOrder, Held;
      finished := halt != None || !(toHandle > 0 || outstanding);
      if finished {
        if halt != None {
          Abort();
        } else {
          Complete();
        }
      }
    }

    /** The halted half of the completion: the transfer and its flags are dropped. */
    method Abort()
      requires Buffers(0) && ToggleInStep() && InOrder(Late()) && active && halt != None
      requires started == completed + aborted + 1
      modifies this`active, this`outstanding, this`queued, this`toSubmit, this`toHandle, this`aborted
      ensures !active && Inv(0, 0, 0) && aborted == old(aborted) + 1
      ensures !starting ==> Valid()
    {
      hide ToggleInStep, Buffers;
      active := false;
      outstanding, queued := false, false;
      aborted := aborted + 1;
      toSubmit, toHandle := 0, 0;
    }

    /** The regular half: every packet is handled and every buffer has come back. */
    method Complete()
      requires Buffers(0) && ToggleInStep() && InOrder(Late()) && Counts(0) && Held()
      requires active && halt == None && toHandle == 0 && !outstanding && !starting
      modifies this
      ensures Valid() && completed == old(completed) + 1 && Advanced() && log == old(log)
      decreases 0, 1, if isIn then owned else 0, 1
    {
      hide ToggleInStep, InOrder;
      assert owned == Count() && goal == bus;
      active := false;
      completed := completed + 1;
      OnComplete();
    }

    /** The client's on_complete, or a chained transfer: it may start another transfer. */
    method OnComplete()
      requires Inv(0, 0, 0) && !active && halt == None && !starting && !queued && !outstanding
      modifies this
      ensures Valid() && completed == old(completed) && bus == old(bus) && log == old(log)
      ensures prompt ==> halt == None
      decreases 0, 1, if isIn then owned else 0, 0
    {
      if * {
        var n :| n > 0;
        StartTransfer(n);
      }
    }

    /** usb_start_transfer for a transfer of n packets: the hardware is given a buffer for each of
        them, or all there are, unless a handler has put off or refused the first. On a halted
        endpoint it is given none. */
    method StartTransfer(n: nat)
      requires Inv(0, 0, 0) && !active && !starting && n > 0
      modifies this
      ensures Valid() && started == old(started) + 1 && completed == old(completed) && bus == old(bus)
      ensures log == old(log)
      ensures old(halt) != None ==> active && halt == old(halt) && hw == old(hw)
      ensures halt == None ==>
                && active && toHandle == n && goal == bus + n
                && |hw| == if outstanding then 0 else if n < Count() then n else Count()
      ensures !isIn || prompt ==> halt == old(halt) && !outstanding
      decreases 0, 0, if isIn then owned + 1 else 0, 8
    {
      hide ToggleInStep, InOrder, Buffers, Held;
      SetUp(n);
      GiveAsMany(0);
      starting := false;
      if halt == None { AllGiven(n); }
    }

    method SetUp(n: nat)
      requires Inv(0, 0, 0) && !active && !starting && n > 0
      modifies this`active, this`toSubmit, this`toHandle, this`goal, this`outstanding, this`queued, this`started
      modifies this`starting
      ensures Inv(0, 0, 0) && active && !outstanding && !queued && starting && started == old(started) + 1
      ensures toSubmit == toHandle == n && goal == bus + n
    {
      hide ToggleInStep, InOrder, Buffers;
      active, toSubmit, toHandle, goal := true, n, n, bus + n;
      outstanding, queued := false, false;
      started := started + 1;
      starting := true;
    }

    lemma AllGiven(n: nat)
      requires Buffers(0) && Counts(0) && active && halt == None && toHandle == n && !queued
      requires if outstanding then owned == Count() else toSubmit == 0 || owned == 0
      ensures |hw| == if outstanding then 0 else if n < Count() then n else Count()
    {
    }

    /** _usb_handle_transfer: the hardware has completed buffer `which`. Without a transfer the
        endpoint halts; behind an outstanding packet the buffer is queued; otherwise the handler has
        it. */
    method HandleTransfer(which: nat)
      requires halt == None && Inv(1, 1, if isIn then 0 else 1) && !starting && !queued && which < Count()
      requires active ==> toHandle > 0
      requires active && outstanding ==> doubleBuffered && (!isIn ==> which != take)
      requires !isIn ==> held[which] + 1 == bus && NotGiven(which)
      requires prompt ==> !outstanding
      modifies this
      ensures Valid() && Advanced()
      ensures !old(active) ==> halt == Halted && !active && log == old(log)
      ensures old(active) && old(outstanding) ==>
                halt == None && queued && outstanding && hw == old(hw) && log == old(log) && toHandle == old(toHandle)
      ensures old(active) && !old(outstanding) ==> log == if isIn then old(log) else old(log) + [old(held[which])]
      ensures old(active) && !old(outstanding) && halt == None && completed == old(completed) ==>
                toHandle < old(toHandle)
      decreases 0, 1, if isIn then owned + 1 else 0, 9
    {
      owned := owned + 1;
      if !active {
        Stall(Halted);                        // unexpected packet
        return;
      }
      if outstanding {
        queued := true;
      } else {
        HandlePacket(which);
      }
    }

    /** The rest of _usb_handle_transfer: nothing is outstanding, so the packet goes straight on. */
    method HandlePacket(which: nat)
      requires halt == None && Inv(1, 0, if isIn then 0 else 1) && !starting && !queued && which < Count()
      requires active && toHandle > 0 && !outstanding && owned > 0
      requires !isIn ==> held[which] + 1 == bus && NotGiven(which)
      modifies this
      ensures Valid() && Advanced()
      ensures log == if isIn then old(log) else old(log) + [old(held[which])]
      ensures halt == None && completed == old(completed) ==> toHandle < old(toHandle)
      decreases 0, 1, if isIn then owned else 0, 8
    {
      hide ToggleInStep, InOrder, Held, Buffers;
      PassOn(which);
      if active {                             // not completed by a stall
        toHandle := toHandle - 1;
        var finished := CheckCompletion(0);
      }
    }

    method PassOn(which: nat)
      requires halt == None && Inv(1, 0, if isIn then 0 else 1) && !starting && !queued && which < Count()
      requires active && toHandle > 0 && !outstanding && owned > 0
      requires !isIn ==> held[which] + 1 == bus && NotGiven(which)
      modifies this
      ensures Inv(1, 0, 0) && StillRunning() && Flowing() && (isIn && halt == None ==> owned <= old(owned))
      ensures log == if isIn then old(log) else old(log) + [old(held[which])]
      decreases 0, 1, if isIn then owned else 0, 7
    {
      hide ToggleInStep;
      take := which;
      if !isIn || toSubmit > 0 { CallOnPacket(1); }
    }

    // ---- Events ----

    /** The hardware completes the buffer at the head of its queue; an OUT packet arrives in it. The
        handler has the packet at once, unless it still holds the one before. */
    method HardwareCompletes()
      requires Valid() && halt == None && hw != []
      modifies this
      ensures Valid() && bus == old(bus) + 1 && old(completed) <= completed <= old(completed) + 1
      ensures log == if isIn || !old(outstanding) then old(log) + [old(bus)] else old(log)
      ensures halt == None && completed == old(completed) ==> active && goal == old(goal)
      ensures completed > old(completed) ==> bus == old(goal)
      ensures prompt ==> halt == None
    {
      hide ToggleInStep, Held;
      var which := hw[0].which;
      HardwareDone();
      HandleTransfer(which);
    }

    method HardwareDone()
      requires Valid() && halt == None && hw != []
      modifies this`hw, this`log, this`held, this`bus, this`done
      ensures Inv(1, 1, if isIn then 0 else 1) && hw == old(hw)[1..] && bus == old(bus) + 1
      ensures active && goal >= bus && toHandle > 0 && !queued
      ensures var which := old(hw)[0].which;
              && which < Count() && (!isIn ==> held[which] == old(bus) && NotGiven(which))
              && (outstanding ==> doubleBuffered && (!isIn ==> which != take))
      ensures log == if isIn then old(log) + [old(bus)] else old(log)
    {
      var which := hw[0].which;
      hw := hw[1..];
      if isIn { log := log + [held[which]]; } else { held := held[which := bus]; }
      bus, done := bus + 1, done + 1;
    }

    /** A handler that put its packet off reports it done. */
    method HandlerReports()
      requires Valid() && outstanding
      modifies this
      ensures Valid() && Advanced() && Closer()
      ensures old(halt) != None ==> halt == old(halt) && hw == old(hw)
    {
      PacketDone(0);
    }

    // ---- Halting and resetting ----

    /** SET_FEATURE(ENDPOINT_HALT), usb_halt_endpoint and usb_halt_endpoint_on_condition. */
    method HaltEndpoint(hs: Halt)
      requires Valid() && hs != None
      modifies this`halt
      ensures Valid() && halt != None
      ensures halt == if hs.Rank() > old(halt).Rank() then hs else old(halt)
    {
      Stall(hs);
    }

    /** usb_clear_halt_condition. */
    method ClearHaltCondition()
      requires Valid()
      modifies this`halt
      ensures Valid() && halt == if old(halt) == HaltedOnCondition then Halted else old(halt)
    {
      if halt == HaltedOnCondition { halt := Halted; }
    }

    /** _usb_reset_buffers: take every buffer back; a toggle handed out but never used is undone. */
    method ResetBuffers()
      requires Buffers(0) && ToggleInStep()
      modifies this`owned, this`give, this`take, this`nextPid, this`firstAfterReset, this`hw
      ensures Buffers(0) && hw == [] && owned == Count() && give == take == 0 && firstAfterReset
      ensures nextPid == if |old(hw)| == 1 then 1 - old(nextPid) else old(nextPid)
      ensures inStep ==> nextPid == done % 2
    {
      Parity(done, |hw|);
      if hw != [] && (!doubleBuffered || owned == 1) {
        nextPid := 1 - nextPid;
      }
      hw := [];
      owned := Count();
      give, take := 0, 0;
      firstAfterReset := true;
    }

    /** _usb_reset_endpoint; a default transfer started afterwards is an event of its own. Whatever
        the reset takes back from the hardware, a soft reset leaves the toggle with the parity of
        the packets completed, provided no toggle was lost before. */
    method ResetEndpoint(hard: bool)
      requires Valid()
      modifies this
      ensures Valid() && halt == None && hw == [] && !active && log == [] && firstAfterReset
      ensures hard ==> nextPid == 0 && done == 0
      ensures !hard ==> done == old(done)
      ensures inStep <==> nextPid == done % 2
      ensures hard || old(inStep) ==> inStep
      ensures !hard ==> nextPid == if |old(hw)| == 1 then 1 - old(nextPid) else old(nextPid)
    {
      DropTransfer();
      ResetBuffers();
      Restart(hard);
    }

    method DropTransfer()
      requires Counts(0)
      modifies this`active, this`outstanding, this`queued, this`aborted
      ensures !active && !outstanding && !queued && started == completed + aborted
    {
      if active { aborted := aborted + 1; }
      active, outstanding, queued := false, false, false;
    }

    method Restart(hard: bool)
      requires Buffers(0) && hw == [] && firstAfterReset && !active && !outstanding && !queued && !starting
      requires started == completed + aborted
      modifies this`nextPid, this`done, this`halt, this`bus, this`log, this`inStep
      ensures Valid() && halt == None && log == [] && bus == 0
      ensures nextPid == (if hard then 0 else old(nextPid)) && done == if hard then 0 else old(done)
      ensures inStep <==> nextPid == done % 2
    {
      if hard { nextPid, done := 0, 0; }
      inStep := nextPid == done % 2;
      bus, log := 0, [];
      halt := None;
    }

    lemma Parity(a: nat, b: nat)
      ensures ((a + b) % 2 + b) % 2 == a % 2
    {
    }

    /** CLEAR_FEATURE(ENDPOINT_HALT): a hard reset, unless the halt is on a condition, when only the
        toggle is reset. Buffers still given to the hardware then hold stale toggles. */
    method ClearHaltFeature()
      requires Valid()
      modifies this
      ensures Valid() && nextPid == 0 && done == 0
      ensures old(halt) != HaltedOnCondition ==> halt == None && hw == [] && inStep
      ensures old(halt) == HaltedOnCondition ==> halt == HaltedOnCondition && hw == old(hw) && (inStep <==> hw == [])
    {
      if halt.Rank() < HaltedOnCondition.Rank() {
        ResetEndpoint(true);
      } else {
        nextPid := 0;
        done, inStep := 0, hw == [];
      }
    }

    /** Clearing the halt of an endpoint halted on a condition and then resetting it softly, as a
        mass storage reset does: the toggle the host expects next, DATA0, is the one the endpoint
        uses exactly when the hardware did not own a single buffer. */
    method ClearThenSoftReset()
      requires Valid() && halt == HaltedOnCondition
      modifies this
      ensures Valid() && halt == None
      ensures done == 0 && (nextPid == 0 <==> |old(hw)| != 1)
    {
      ClearHaltFeature();
      ClearHaltCondition();
      ResetEndpoint(false);
    }

    // ---- Runs ----

    /** A transfer that waits for no handler is with the hardware. */
    lemma WithHardware()
      requires Valid() && active && halt == None
      ensures outstanding || hw != []
      ensures goal >= bus
    {
      hide ToggleInStep, InOrder, Held;
    }

    /** A transfer of n packets, from its start to its end: as long as no handler halts the endpoint
        there is always a packet with the hardware or with a handler, and once the hardware has
        completed n packets and the handlers have reported theirs the transfer completes; clients
        that answer at once have nothing to report. */
    method RunTransfer(n: nat) returns (completions: nat, reports: nat)
      requires Valid() && !active && halt == None && n > 0
      modifies this
      ensures Valid() && bus == old(bus) + completions
      ensures halt == None ==> completed == old(completed) + 1 && completions == n
      ensures halt == None ==> |log| + Late() == bus && forall i :: 0 <= i < |log| ==> log[i] == i
      ensures prompt ==> halt == None && reports == 0
    {
      hide ToggleInStep, Held, Flowing;
      completions, reports := 0, 0;
      var before := completed;
      StartTransfer(n);
      while halt == None && completed == before
        invariant Valid() && bus == old(bus) + completions && before <= completed <= before + 1
        invariant halt == None && completed == old(completed) ==> active && goal == old(bus) + n
        invariant completed > old(completed) ==> completions == n
        invariant prompt ==> halt == None && reports == 0
        decreases if halt == None && completed == before then 1 else 0, goal - bus, toSubmit + toHandle, outstanding
      {
        WithHardware();
        if {
          case hw != [] =>
            HardwareCompletes();
            completions := completions + 1;
          case outstanding =>
            NotPrompt();
            HandlerReports();
            reports := reports + 1;
        }
      }
    }

    lemma NotPrompt()
      requires Valid() && outstanding
      ensures !prompt
    {
      hide ToggleInStep, InOrder, Held, Buffers, Counts;
    }

    /** Any number of events of an endpoint halted on a condition, as long as the condition is not
        cleared and the endpoint not reset: the halt stays and no buffer is given. */
    method HaltedRun(events: nat)
      requires Valid() && halt == HaltedOnCondition
      modifies this
      ensures Valid() && halt == HaltedOnCondition && hw == old(hw)
    {
      for i := 0 to events
        invariant Valid() && halt == HaltedOnCondition && hw == old(hw)
      {
        if {
          case true =>
            var hs :| hs != None;
            HaltEndpoint(hs);
          case true => ClearHaltFeature();
          case outstanding => HandlerReports();
          case !active =>
            var n :| n > 0;
            StartTransfer(n);
        }
      }
    }

    /** Any number of events of a running endpoint, in any order and with any choices of the
        client, keep the boundary invariant; once everything has come back, each transfer that was
        not dropped has completed exactly once. */
    method Run(events: nat)
      requires Valid()
      modifies this
      ensures Valid()
      ensures halt == None && !active ==> owned == Count() && started == completed + aborted
      ensures halt == None && active ==> outstanding || hw != []
      ensures halt == None && active && !outstanding ==> toSubmit == 0 || owned == 0
      ensures halt == None ==> forall i :: 0 <= i < |log| ==> log[i] == i
      ensures halt == None ==> |log| + Late() == bus
      ensures !isIn && outstanding ==> forall b :: b in hw ==> b.which != take
      ensures !isIn && queued ==> hw == []
      ensures inStep ==> forall i :: 0 <= i < |hw| ==> hw[i].pid == (done + i) % 2
      ensures forall i :: 0 <= i < |hw| ==> (hw[i].sel <==> bus + i == 0)
    {
      for i := 0 to events
        invariant Valid()
      {
        if {
          case halt == None && hw != [] => HardwareCompletes();
          case outstanding => HandlerReports();
          case !active =>
            var n :| n > 0;
            StartTransfer(n);
          case true =>
            var hs :| hs != None;
            HaltEndpoint(hs);
          case true => ClearHaltCondition();
          case true => ClearHaltFeature();
          case true => ResetEndpoint(true);
          case true => ResetEndpoint(false);
        }
      }
    }
  }

  /** A run that loses the toggle: an IN endpoint whose one packet is with the hardware is halted on
      a condition, the host clears the halt and then resets the interface. The host expects DATA0
      next and the endpoint uses DATA1. */
  method LoseToggle(doubleBuffered: bool) returns (e: Endpoint)
    ensures fresh(e) && e.Valid() && e.halt == None && e.done == 0 && e.nextPid == 1
  {
    e := new Endpoint(true, doubleBuffered, true);
    e.StartTransfer(1);
    e.HaltEndpoint(HaltedOnCondition);
    e.ClearThenSoftReset();
  }
}
