/** Starting an IN transfer: the handler is asked to fill one packet for each buffer owned. It may do
    so at once, which hands the buffer over and asks for the next from within the call, or later. */
module UsbInStart {
  function Min(a: nat, b: nat): nat { if a < b then a else b }

  /** How many packets the handler fills at once before the first it defers. */
  function Leading(atOnce: seq<bool>): nat {
    if atOnce == [] || !atOnce[0] then 0 else 1 + Leading(atOnce[1..])
  }

  lemma {:induction false} LeadingMeans(atOnce: seq<bool>)
    ensures Leading(atOnce) <= |atOnce| && forall i :: 0 <= i < Leading(atOnce) ==> atOnce[i]
    ensures Leading(atOnce) < |atOnce| ==> !atOnce[Leading(atOnce)]
  {
    if atOnce != [] && atOnce[0] { LeadingMeans(atOnce[1..]); }
  }

  class InEndpoint {
    var owned: nat
    var toSubmit: nat
    var outstanding: bool
    var reentered: bool               // the handler has been called with a packet outstanding

    constructor (owned: nat, toSubmit: nat)
      ensures this.owned == owned && this.toSubmit == toSubmit && !outstanding && !reentered
    {
      this.owned, this.toSubmit, outstanding, reentered := owned, toSubmit, false, false;
    }

    /** _usb_give_as_many_buffers_as_possible on an IN endpoint that is not halted, up to a call of
        the handler that must not be made. Such a call is made exactly when the handler fills some
        but not all of the packets at once and then defers one. */
    method GiveAsMany(atOnce: seq<bool>) returns (rest: seq<bool>)
      requires !outstanding && !reentered
      modifies this
      ensures var all, d := Min(old(owned), old(toSubmit)), Leading(atOnce);
              && (reentered <==> 0 < d < all)
              && (!reentered ==> owned == old(owned) - Min(d, all) && toSubmit == old(toSubmit) - Min(d, all))
              && (!reentered ==> (outstanding <==> d == 0 && all > 0))
      decreases toSubmit
    {
      rest := atOnce;
      while toSubmit > 0 && owned > 0
        invariant !reentered && owned <= old(owned) && toSubmit <= old(toSubmit)
        invariant (owned == old(owned) && toSubmit == old(toSubmit) && !outstanding && rest == atOnce) ||
                  (var all, d := Min(old(owned), old(toSubmit)), Leading(atOnce);
                   && d > 0 && owned < old(owned) && (outstanding <==> d == 1 < all) && !(1 < d < all)
                   && owned == old(owned) - Min(d, all) && toSubmit == old(toSubmit) - Min(d, all))
        decreases toSubmit, !reentered
      {
        var was := owned;
        if outstanding {
          reentered := true;
          return;
        }
        rest := CallOnPacket(rest);
        if reentered { return; }
        if was == owned { break; }
      }
    }

    /** _usb_call_on_packet with a handler that calls usb_packet_done at once or later. */
    method CallOnPacket(atOnce: seq<bool>) returns (rest: seq<bool>)
      requires !outstanding && !reentered && owned > 0 && toSubmit > 0
      modifies this
      ensures var all, d := Min(old(owned), old(toSubmit)), Leading(atOnce);
              && (reentered <==> 1 < d < all)
              && (!reentered ==> owned == old(owned) - Min(d, all) && toSubmit == old(toSubmit) - Min(d, all))
              && (!reentered ==> (outstanding <==> d == 0 || d == 1 < all))
      decreases toSubmit, 0
    {
      outstanding := true;
      rest := if atOnce == [] then [] else atOnce[1..];
      if atOnce != [] && atOnce[0] {
        rest := PacketDone(rest);
      }
    }

    /** usb_packet_done for a filled packet, with none queued. */
    method PacketDone(atOnce: seq<bool>) returns (rest: seq<bool>)
      requires outstanding && !reentered && owned > 0 && toSubmit > 0
      modifies this
      ensures var all, d := Min(old(owned), old(toSubmit)) - 1, Leading(atOnce);
              && (reentered <==> 0 < d < all)
              && (!reentered ==> owned == old(owned) - 1 - Min(d, all) && toSubmit == old(toSubmit) - 1 - Min(d, all))
              && (!reentered ==> (outstanding <==> d == 0 && all > 0))
      decreases toSubmit, 0, 0
    {
      outstanding := false;
      owned := owned - 1;
      toSubmit := toSubmit - 1;
      rest := GiveAsMany(atOnce);
    }
  }
}
