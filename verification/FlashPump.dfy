/** Moving bytes between the processor and the flash chip through the serial interface, which works
    at its own pace between any two accesses to its registers. */
module FlashPump {
  type byte = x: int | 0 <= x < 256

  const FIFO_DEPTH := 16
  const MAX_IN_FLIGHT := 16 - 2       // of the receive FIFO, two bytes being inside the interface

  /** The serial interface, the flash chip behind it and the abort switch. */
  class Ssi {
    var txFifo: seq<byte>
    var inside: seq<byte>             // being shifted, at most two
    var rxFifo: seq<byte>
    var overflow: bool                // a byte has been lost
    var selected: bool                // chip select is low
    var log: seq<seq<byte>>           // what the chip has received in earlier selections
    var seen: seq<byte>               // and in this one
    ghost var taken: nat              // replies to it the processor has read
    var patience: nat                 // register accesses before a busy interface moves
    var aborted: bool
    const mayAbort: bool
    const answer: (seq<seq<byte>>, seq<byte>) -> byte   // the chip's reply to the last byte it has seen

    ghost function InFlight(): nat
      reads this`txFifo, this`inside, this`rxFifo
    {
      |txFifo| + |inside| + |rxFifo|
    }

    /** What has been sent in this selection, whether the chip has seen it yet or not. */
    ghost function Sent(): seq<byte>
      reads this`txFifo, this`inside, this`seen
    {
      seen + inside + txFifo
    }

    /** Moves the interface still has to make. */
    ghost function Work(): nat
      reads this`txFifo, this`inside
    {
      2 * |txFifo| + |inside|
    }

    /** Every reply is on its way or has been read, in order. */
    ghost predicate Lossless()
      reads this`inside, this`rxFifo, this`overflow, this`log, this`seen, this`taken
    {
      && |inside| <= 2 && !overflow && |seen| == taken + |rxFifo|
      && forall j :: 0 <= j < |rxFifo| ==> rxFifo[j] == answer(log, seen[..taken + j + 1])
    }

    constructor (mayAbort: bool, answer: (seq<seq<byte>>, seq<byte>) -> byte)
      ensures Lossless() && InFlight() == 0 && log == [] && seen == [] && !aborted && this.mayAbort == mayAbort
    {
      txFifo, inside, rxFifo, overflow, selected := [], [], [], false, false;
      log, seen, taken, patience, aborted := [], [], 0, 0, false;
      this.mayAbort := mayAbort;
      this.answer := answer;
    }

    /** One move: into the shifter, or out of it with the reply going to the receive FIFO. */
    method Move()
      requires Lossless() && Work() > 0
      modifies this`txFifo, this`inside, this`rxFifo, this`overflow, this`seen
      ensures overflow <==> InFlight() != old(InFlight())
      ensures old(InFlight()) <= FIFO_DEPTH ==> Lossless()
      ensures Sent() == old(Sent()) && Work() < old(Work())
      ensures |rxFifo| >= old(|rxFifo|)
    {
      if * {
        if |txFifo| > 0 && |inside| < 2 {
          inside, txFifo := inside + [txFifo[0]], txFifo[1..];
          return;
        }
      }
      if |inside| > 0 {
        ReplyComes();
      } else {
        inside, txFifo := inside + [txFifo[0]], txFifo[1..];
      }
    }

    /** The chip has seen the byte at the head of the shifter. */
    method ReplyComes()
      requires Lossless() && |inside| > 0
      modifies this`inside, this`rxFifo, this`overflow, this`seen
      ensures inside == old(inside)[1..] && seen + inside == old(seen) + old(inside)
      ensures if old(|rxFifo|) < FIFO_DEPTH then Lossless() && |rxFifo| == old(|rxFifo|) + 1
              else overflow && rxFifo == old(rxFifo)
    {
      ghost var was := seen;
      seen, inside := seen + [inside[0]], inside[1..];
      assert forall k :: 0 <= k <= |was| ==> seen[..k] == was[..k];
      assert seen[..|seen|] == seen;
      if |rxFifo| < FIFO_DEPTH {
        rxFifo := rxFifo + [answer(log, seen)];
      } else {
        overflow := true;
      }
    }

    /** What happens between two register accesses: any number of moves, and if the interface has
        work it does not put it off for ever. */
    method Runs()
      requires Lossless() && InFlight() <= FIFO_DEPTH
      modifies this`txFifo, this`inside, this`rxFifo, this`overflow, this`seen, this`patience
      ensures Lossless() && InFlight() == old(InFlight()) && Sent() == old(Sent()) && |rxFifo| >= old(|rxFifo|)
      ensures old(Work()) > 0 ==> Work() < old(Work()) || (Work() == old(Work()) && patience < old(patience))
      ensures old(Work()) == 0 ==> Work() == 0
    {
      var moves :| moves >= 0;
      ghost var start := Work();
      if |txFifo| + |inside| == 0 { return; }
      if moves == 0 {
        if patience > 0 {
          patience := patience - 1;
          return;
        }
        moves := 1;
      }
      while moves > 0 && |txFifo| + |inside| > 0
        invariant Lossless() && InFlight() == old(InFlight()) && Sent() == old(Sent()) && |rxFifo| >= old(|rxFifo|)
        invariant Work() < start || (moves > 0 && Work() == start)
        decreases moves
      {
        Move();
        moves := moves - 1;
      }
      var pause :| pause >= 0;
      patience := pause;
    }

    method Txflr() returns (level: nat)
      requires Lossless() && InFlight() <= FIFO_DEPTH
      modifies this`txFifo, this`inside, this`rxFifo, this`overflow, this`seen, this`patience
      ensures Lossless() && InFlight() == old(InFlight()) && Sent() == old(Sent())
      ensures old(Work()) > 0 ==> Work() < old(Work()) || (Work() == old(Work()) && patience < old(patience))
      ensures old(Work()) == 0 ==> Work() == 0
      ensures level == |txFifo|
    {
      Runs();
      level := |txFifo|;
    }

    method Rxflr() returns (level: nat)
      requires Lossless() && InFlight() <= FIFO_DEPTH
      modifies this`txFifo, this`inside, this`rxFifo, this`overflow, this`seen, this`patience
      ensures Lossless() && InFlight() == old(InFlight()) && Sent() == old(Sent())
      ensures old(Work()) > 0 ==> Work() < old(Work()) || (Work() == old(Work()) && patience < old(patience))
      ensures old(Work()) == 0 ==> Work() == 0
      ensures level == |rxFifo| >= old(|rxFifo|)
    {
      Runs();
      level := |rxFifo|;
    }

    /** The two levels in the order the code reads them. A byte that moves on in between is counted
        twice rather than missed. */
    method Levels() returns (txLevel: nat, rxLevel: nat)
      requires Lossless() && InFlight() <= FIFO_DEPTH
      modifies this`txFifo, this`inside, this`rxFifo, this`overflow, this`seen, this`patience
      ensures Lossless() && InFlight() == old(InFlight()) && Sent() == old(Sent())
      ensures InFlight() <= txLevel + rxLevel + 2 && txLevel <= InFlight() && |rxFifo| == rxLevel <= InFlight()
      ensures rxLevel == 0 && InFlight() > 0 ==>
                Work() < old(Work()) || (Work() == old(Work()) && patience < old(patience))
    {
      txLevel := Txflr();
      rxLevel := Rxflr();
    }

    lemma AllSeen()
      requires Lossless() && InFlight() == 0
      ensures Sent() == seen && |inside| + |rxFifo| + |txFifo| == 0
    {
    }

    method WriteDr0(b: byte)
      requires Lossless() && InFlight() <= FIFO_DEPTH
      modifies this`txFifo, this`inside, this`rxFifo, this`overflow, this`seen, this`patience
      ensures old(InFlight()) < FIFO_DEPTH ==>
                Lossless() && InFlight() == old(InFlight()) + 1 && Sent() == old(Sent()) + [b]
      ensures |rxFifo| >= old(|rxFifo|)
    {
      Runs();
      if |txFifo| < FIFO_DEPTH {
        txFifo := txFifo + [b];
      } else {
        overflow := true;
      }
    }

    method ReadDr0() returns (b: byte)
      requires Lossless() && InFlight() <= FIFO_DEPTH && |rxFifo| > 0
      modifies this`txFifo, this`inside, this`rxFifo, this`overflow, this`seen, this`patience, this`taken
      ensures Lossless() && InFlight() == old(InFlight()) - 1 && Sent() == old(Sent())
      ensures 1 <= old(InFlight()) <= |Sent()| && b == answer(log, Sent()[..|Sent()| - old(InFlight()) + 1])
    {
      Runs();
      assert Sent()[..taken + 1] == seen[..taken + 1];
      b := rxFifo[0];
      rxFifo := rxFifo[1..];
      taken := taken + 1;
    }

    /** flash_was_aborted: the switch can be thrown at any time, and stays. */
    method WasAborted() returns (r: bool)
      modifies this`aborted
      ensures r == aborted && (old(aborted) ==> aborted) && (aborted ==> old(aborted) || mayAbort)
    {
      var thrown: bool := *;
      if mayAbort && thrown { aborted := true; }
      r := aborted;
    }

    /** flash_cs_force: a selection ends when the line goes high. */
    method CsForce(high: bool)
      modifies this`selected, this`log, this`seen, this`taken
      ensures selected == !high
      ensures log == if high && old(selected) then old(log) + [old(seen)] else old(log)
      ensures old(Lossless()) && InFlight() == 0 && (high || !old(selected)) ==> Lossless() && seen == []
      ensures !high && old(selected) ==> seen == old(seen) && taken == old(taken)
    {
      if high {
        if selected { log := log + [seen]; }
        seen, taken := [], 0;
      } else if !selected {
        seen, taken := [], 0;
      }
      selected := !high;
    }
  }

  /** The bytes a transfer sends: those of the buffer, or zeros. */
  ghost function Outgoing(tx: array?<byte>, count: nat): (r: seq<byte>)
    requires tx != null ==> count <= tx.Length
    reads tx
    ensures |r| == count
  {
    if tx == null then seq(count, _ => 0) else tx[..count]
  }

  /** The chip's replies to the bytes of a transfer, sent after others in the same selection. */
  ghost function Replies(answer: (seq<seq<byte>>, seq<byte>) -> byte, log: seq<seq<byte>>, before: seq<byte>,
                         out: seq<byte>): (r: seq<byte>)
    ensures |r| == |out|
  {
    seq(|out|, i requires 0 <= i < |out| => answer(log, before + out[..i + 1]))
  }

  /** The buffers after n replies have been stored: what is still to be sent is as it was. */
  ghost predicate Stored(tx: array?<byte>, rx: array?<byte>, out: seq<byte>, replies: seq<byte>, was: seq<byte>, n: nat)
    requires n <= |out| == |replies|
    reads tx, rx
  {
    && (tx != null ==> |out| <= tx.Length && forall i :: (if tx == rx then n else 0) <= i < |out| ==> tx[i] == out[i])
    && (rx != null ==> |out| <= rx.Length == |was| && rx[..n] == replies[..n] && rx[n..] == was[n..])
  }

  method Store(tx: array?<byte>, rx: array?<byte>, ghost out: seq<byte>, ghost replies: seq<byte>,
               ghost was: seq<byte>, n: nat, b: byte)
    requires n < |out| == |replies| && Stored(tx, rx, out, replies, was, n) && b == replies[n]
    modifies rx
    ensures Stored(tx, rx, out, replies, was, n + 1)
  {
    if rx != null {
      ghost var before := rx[..];
      rx[n] := b;
      assert forall i :: 0 <= i < n ==> rx[i] == before[..n][i] == replies[..n][i];
      assert forall i :: n < i < rx.Length ==> rx[i] == before[n..][i - n] == was[n..][i - n];
    }
  }

  method Fetch(tx: array?<byte>, rx: array?<byte>, ghost out: seq<byte>, ghost replies: seq<byte>,
               ghost was: seq<byte>, ghost n: nat, i: nat) returns (b: byte)
    requires n <= i < |out| == |replies| && Stored(tx, rx, out, replies, was, n)
    requires tx == null ==> out[i] == 0
    ensures b == out[i]
  {
    b := if tx != null then tx[i] else 0;
  }

  lemma NextReply(answer: (seq<seq<byte>>, seq<byte>) -> byte, log: seq<seq<byte>>, before: seq<byte>,
                  out: seq<byte>, sent: nat, i: nat)
    requires i < sent <= |out|
    ensures Replies(answer, log, before, out)[i] == answer(log, (before + out[..sent])[..|before| + i + 1])
  {
    assert (before + out[..sent])[..|before| + i + 1] == before + out[..i + 1];
  }

  lemma NextSent(before: seq<byte>, out: seq<byte>, n: nat)
    requires n < |out|
    ensures before + out[..n] + [out[n]] == before + out[..n + 1]
  {
  }

  /** The interface while a transfer goes on. */
  ghost predicate Flow(ssi: Ssi, before: seq<byte>, out: seq<byte>, txNext: nat, rxNext: nat, rxSkip: nat)
    reads ssi`txFifo, ssi`inside, ssi`rxFifo, ssi`overflow, ssi`log, ssi`seen, ssi`taken
  {
    && rxNext <= txNext <= |out| && (rxSkip > 0 ==> rxNext == 0)
    && ssi.Lossless() && ssi.InFlight() <= FIFO_DEPTH && ssi.InFlight() == rxSkip + txNext - rxNext
    && ssi.Sent() == before + out[..txNext]
  }

  method Poll(ssi: Ssi, ghost before: seq<byte>, ghost out: seq<byte>, ghost txNext: nat, ghost rxNext: nat,
              ghost rxSkip: nat)
    returns (txLevel: nat, rxLevel: nat)
    requires Flow(ssi, before, out, txNext, rxNext, rxSkip)
    modifies ssi`txFifo, ssi`inside, ssi`rxFifo, ssi`overflow, ssi`seen, ssi`patience
    ensures Flow(ssi, before, out, txNext, rxNext, rxSkip)
    ensures ssi.InFlight() <= txLevel + rxLevel + 2 && rxLevel == |ssi.rxFifo|
    ensures rxLevel == 0 && (txLevel >= MAX_IN_FLIGHT || txNext == |out|) && (rxSkip > 0 || rxNext < |out|) ==>
              ssi.Work() < old(ssi.Work()) || (ssi.Work() == old(ssi.Work()) && ssi.patience < old(ssi.patience))
  {
    hide Ssi.Lossless, Ssi.InFlight, Ssi.Sent, Ssi.Work;
    txLevel, rxLevel := ssi.Levels();
  }

  /** A byte is sent only when the two levels leave room for it in the receive FIFO. */
  method SendNext(ssi: Ssi, b: byte, txLevel: nat, rxLevel: nat, ghost before: seq<byte>, ghost out: seq<byte>,
                  ghost txNext: nat, ghost rxNext: nat, ghost rxSkip: nat)
    requires Flow(ssi, before, out, txNext, rxNext, rxSkip) && txNext < |out| && b == out[txNext]
    requires ssi.InFlight() <= txLevel + rxLevel + 2 && txLevel + rxLevel < MAX_IN_FLIGHT
    modifies ssi`txFifo, ssi`inside, ssi`rxFifo, ssi`overflow, ssi`seen, ssi`patience
    ensures Flow(ssi, before, out, txNext + 1, rxNext, rxSkip) && |ssi.rxFifo| >= old(|ssi.rxFifo|)
  {
    hide Ssi.Lossless, Ssi.InFlight, Ssi.Sent;
    NextSent(before, out, txNext);
    ssi.WriteDr0(b);
  }

  method TakeNext(ssi: Ssi, ghost before: seq<byte>, ghost out: seq<byte>, ghost txNext: nat, ghost rxNext: nat,
                  ghost rxSkip: nat) returns (b: byte)
    requires Flow(ssi, before, out, txNext, rxNext, rxSkip) && |ssi.rxFifo| > 0
    modifies ssi`txFifo, ssi`inside, ssi`rxFifo, ssi`overflow, ssi`seen, ssi`patience, ssi`taken
    ensures if rxSkip > 0 then Flow(ssi, before, out, txNext, rxNext, rxSkip - 1)
            else Flow(ssi, before, out, txNext, rxNext + 1, 0)
    ensures rxSkip == 0 ==> rxNext < |out| && b == Replies(ssi.answer, ssi.log, before, out)[rxNext]
  {
    hide Ssi.Lossless, Ssi.InFlight, Ssi.Sent, Replies;
    b := ssi.ReadDr0();
    if rxSkip == 0 { NextReply(ssi.answer, ssi.log, before, out, txNext, rxNext); }
  }

  /** The loop of flash_put_get. */
  method Pump(ssi: Ssi, tx: array?<byte>, rx: array?<byte>, ghost before: seq<byte>, ghost out: seq<byte>,
              ghost replies: seq<byte>,
              ghost was: seq<byte>, count: nat, skip: nat) returns (ghost received: nat)
    requires count == |out| && skip <= FIFO_DEPTH && Flow(ssi, before, out, 0, 0, skip)
    requires replies == Replies(ssi.answer, ssi.log, before, out) && Stored(tx, rx, out, replies, was, 0)
    requires tx == null ==> forall i :: 0 <= i < count ==> out[i] == 0
    modifies ssi, rx
    ensures received <= count && Stored(tx, rx, out, replies, was, received)
    ensures ssi.Lossless() && ssi.log == old(ssi.log) && ssi.selected == old(ssi.selected)
    ensures !ssi.aborted ==> received == count && Flow(ssi, before, out, count, count, 0)
    ensures ssi.aborted ==> old(ssi.aborted) || ssi.mayAbort
  {
    hide Flow, Stored, Replies, Ssi.Lossless, Ssi.InFlight, Ssi.Sent, Ssi.Work;
    var txCount, rxCount, rxSkip, txNext, rxNext := count, count, skip, 0, 0;
    InFlow(ssi, before, out, 0, 0, skip);
    while txCount > 0 || rxSkip > 0 || rxCount > 0
      invariant 0 <= txCount <= count && 0 <= rxCount <= count && 0 <= rxSkip
      invariant txNext == count - txCount && rxNext == count - rxCount
      invariant Flow(ssi, before, out, txNext, rxNext, rxSkip) && Stored(tx, rx, out, replies, was, rxNext)
      invariant ssi.Lossless() && ssi.log == old(ssi.log) && ssi.selected == old(ssi.selected)
      invariant ssi.aborted ==> old(ssi.aborted) || ssi.mayAbort
      decreases txCount + rxSkip + rxCount, ssi.Work(), ssi.patience
    {
      var txLevel, rxLevel := Poll(ssi, before, out, txNext, rxNext, rxSkip);
      var didSomething := false;
      if txCount > 0 && txLevel + rxLevel < MAX_IN_FLIGHT {
        InFlow(ssi, before, out, txNext, rxNext, rxSkip);
        var b := Fetch(tx, rx, out, replies, was, rxNext, txNext);
        SendNext(ssi, b, txLevel, rxLevel, before, out, txNext, rxNext, rxSkip);
        txNext := txNext + 1;
        txCount := txCount - 1;
        didSomething := true;
      }
      if rxLevel > 0 {
        var rxByte := TakeNext(ssi, before, out, txNext, rxNext, rxSkip);
        didSomething := true;
        if rxSkip > 0 {
          rxSkip := rxSkip - 1;
        } else {
          Store(tx, rx, out, replies, was, rxNext, rxByte);
          rxNext := rxNext + 1;
          rxCount := rxCount - 1;
        }
      }
      InFlow(ssi, before, out, txNext, rxNext, rxSkip);
      if !didSomething {
        var aborted := ssi.WasAborted();
        if aborted { break; }
      }
    }
    received := rxNext;
  }

  lemma InFlow(ssi: Ssi, before: seq<byte>, out: seq<byte>, txNext: nat, rxNext: nat, rxSkip: nat)
    requires Flow(ssi, before, out, txNext, rxNext, rxSkip)
    ensures rxNext <= txNext <= |out| && ssi.Lossless()
  {
  }

  /** flash_put_get. The receive FIFO never overflows, whatever the interleaving. Unless aborted,
      count bytes are sent, in the end nothing is in flight, and rx[i] is the chip's reply to the
      i-th of them, also when tx and rx are the same buffer; a transfer that is aborted has left a
      prefix of that in rx. */
  method PutGet(ssi: Ssi, tx: array?<byte>, rx: array?<byte>, count: nat, skip: nat) returns (ghost received: nat)
    requires ssi.Lossless() && ssi.InFlight() == skip <= FIFO_DEPTH
    requires (tx != null ==> count <= tx.Length) && (rx != null ==> count <= rx.Length)
    modifies ssi, rx
    ensures received <= count && (!ssi.aborted ==> received == count)
    ensures var before, out := old(ssi.Sent()), old(Outgoing(tx, count));
            && (rx != null ==> rx[..received] == Replies(ssi.answer, old(ssi.log), before, out)[..received])
            && (!ssi.aborted ==> ssi.log == if old(ssi.selected) then old(ssi.log) + [before + out] else old(ssi.log))
    ensures rx != null ==> rx[received..] == old(rx[..])[received..]
    ensures !ssi.aborted ==> ssi.Lossless() && ssi.InFlight() == 0 && ssi.seen == []
    ensures ssi.aborted ==> old(ssi.aborted) || ssi.mayAbort
    ensures !ssi.overflow && !ssi.selected
  {
    ghost var before, out, was := ssi.Sent(), Outgoing(tx, count), if rx == null then [] else rx[..];
    ghost var replies := Replies(ssi.answer, ssi.log, before, out);
    hide Ssi.InFlight, Ssi.Sent, Replies;
    assert before + out[..0] == before;
    received := Pump(ssi, tx, rx, before, out, replies, was, count, skip);
    assert out[..|out|] == out;
    if !ssi.aborted { ssi.AllSeen(); }
    ssi.CsForce(true);
  }
}
