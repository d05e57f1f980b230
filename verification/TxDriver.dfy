/** The transmit path of lwip-1.3.1/port/ethernetif.c as it runs on the descriptor tables, with
    the MAC at work between two polls. */
module TxDriver {
  import opened CInt
  import opened HardwareClock
  import opened RxRing
  import opened TxRing
  import opened RxDriver

  datatype Err = ERR_OK | ERR_IF | ERR_INPROGRESS

  /** What the MAC does before a poll: nothing, or its next step; the time counts when that step
      sends the frame. */
  datatype Tick = Nothing | Advance(seconds: UInt32, subseconds: UInt32)

  /** The number of MAC steps in a schedule. */
  function Count(ticks: seq<Tick>): nat {
    if |ticks| == 0 then 0 else Count(ticks[..|ticks| - 1]) + if ticks[|ticks| - 1].Advance? then 1 else 0
  }

  lemma {:induction false} CountTake(ticks: seq<Tick>, k: nat)
    requires k <= |ticks|
    ensures Count(ticks[..k]) <= Count(ticks)
    ensures k < |ticks| ==> Count(ticks[..k + 1]) == Count(ticks[..k]) + if ticks[k].Advance? then 1 else 0
    decreases |ticks| - k
  {
    if k < |ticks| {
      assert ticks[..k + 1][..k] == ticks[..k];
      CountTake(ticks, k + 1);
    } else {
      assert ticks[..k] == ticks;
    }
  }

  /** The MAC needs four steps for a frame: fetch, send, mark, return. */
  const MAC_STEPS := 4

  /** How many of them it has taken for the frame in flight at w. */
  function Progress(s: TxState, w: nat): nat
    requires s.Typed() && w < s.lay.n
  {
    match s.macTx
    case Ready => if s.desc[w].ttss then 4 else 0
    case Fetched(_, _, _) => 1
    case Sent(_) => 2
    case Marked(_) => 3
  }

  class TxDriver {
    const lay: Layout
    const desc: array<TxDescriptor>
    const shadow: array<ShadowDescriptor>
    const memory: array<seq<Octet>>
    var toSet: nat
    var ptpToSet: nat
    var mac: nat
    var macTx: MacTx
    ghost var sender: Sender
    ghost var submitted: seq<seq<Octet>>
    var wire: seq<OnWire>
    ghost var returned: seq<TimeStamp>

    ghost function State(): TxState
      reads this, desc, shadow, memory
    {
      TxState(lay, desc[..], shadow[..], memory[..], toSet, ptpToSet, mac, macTx, sender, submitted, wire, returned)
    }

    predicate Tables() {
      && desc.Length == shadow.Length == memory.Length == lay.n && lay.Ok()
      && desc as object != shadow as object && desc as object != memory as object && shadow as object != memory as object
    }

    /** `ETH_DMAPTPTxDescChainInit` on zeroed shadow descriptors. */
    constructor (lay: Layout, desc: array<TxDescriptor>, shadow: array<ShadowDescriptor>, memory: array<seq<Octet>>)
      requires desc.Length == shadow.Length == memory.Length == lay.n && lay.Ok()
      requires desc as object != shadow as object && desc as object != memory as object && shadow as object != memory as object
      requires forall k | 0 <= k < lay.n :: |memory[k]| == ETH_MAX_PACKET_SIZE
      requires forall k | 0 <= k < lay.n :: shadow[k].status == 0
      modifies desc, shadow
      ensures this.desc == desc && this.shadow == shadow && this.memory == memory && this.lay == lay && Tables()
      ensures TxInitial(State())
    {
      this.lay, this.desc, this.shadow, this.memory := lay, desc, shadow, memory;
      toSet, ptpToSet, mac, macTx := lay.descTab, lay.shadowTab, lay.descTab, Ready;
      sender, submitted, wire, returned := Quiet, [], [], [];
      new;
      var i := 0;
      while i < lay.n
        invariant 0 <= i <= lay.n
        invariant toSet == mac == lay.Desc(0) && ptpToSet == lay.Shadow(0)
        invariant macTx == Ready && sender == Quiet && submitted == [] && wire == [] && returned == []
        invariant forall k | 0 <= k < lay.n :: |memory[k]| == ETH_MAX_PACKET_SIZE
        invariant forall k | 0 <= k < i ::
          && !desc[k].own && !desc[k].ttss
          && desc[k].buffer1Addr == lay.Buffer(k) && desc[k].buffer2NextDescAddr == lay.Desc(lay.Next(k))
          && shadow[k] == ShadowDescriptor(0, lay.Buffer(k), lay.Desc(lay.Next(k)))
        invariant forall k | i <= k < lay.n :: shadow[k].status == 0
      {
        desc[i] := desc[i].(own := false, ttss := false, first := false, last := false);
        desc[i] := desc[i].(buffer1Addr := lay.buffers + i * ETH_MAX_PACKET_SIZE);
        if i < lay.n - 1 {
          desc[i] := desc[i].(buffer2NextDescAddr := lay.descTab + DESCRIPTOR_SIZE * (i + 1));
        } else {
          desc[i] := desc[i].(buffer2NextDescAddr := lay.descTab);
        }
        shadow[i] := shadow[i].(buffer1Addr := desc[i].buffer1Addr, buffer2NextDescAddr := desc[i].buffer2NextDescAddr);
        i := i + 1;
      }
      shadow[i - 1] := shadow[i - 1].(status := lay.shadowTab);
    }

    // The hardware -------------------------------------------------------------------------------

    method MacAdvance(tick: Tick)
      requires Tables() && State().Typed() && (tick.Advance? ==> !Advances(State(), tick.seconds, tick.subseconds).Faults?)
      modifies this`mac, this`macTx, this`wire, desc
      ensures old(wire) <= wire
      ensures State() == (
        if tick.Nothing? then old(State())
        else match Advances(old(State()), tick.seconds, tick.subseconds) case Did(s) => s case _ => old(State()))
    {
      if tick.Advance? {
        var i := lay.DescAt(mac).value;
        match macTx {
          case Ready =>
            if desc[i].own && desc[i].first && desc[i].last {
              macTx := Fetched(desc[i].bufferSize, desc[i].buffer1Addr, desc[i].buffer2NextDescAddr);
            }
          case Fetched(size, buffer, next) =>
            wire := wire + [OnWire(memory[lay.BufferAt(buffer).value][..size], tick.seconds, tick.subseconds)];
            macTx := Sent(next);
          case Sent(next) =>
            var f := wire[|wire| - 1];
            desc[i] := desc[i].(buffer1Addr := f.subseconds, buffer2NextDescAddr := f.seconds);
            macTx := Marked(next);
          case Marked(next) =>
            desc[i] := desc[i].(own := false, ttss := true);
            mac := next;
            macTx := Ready;
        }
      }
    }

    /** What the MAC does before a poll for the frame in flight at w. */
    method MacBeforePoll(tick: Tick, ghost w: nat)
      requires Tables() && TxInvAt(State(), w) && sender.Polling? && Progress(State(), w) < MAC_STEPS
      modifies this`mac, this`macTx, this`wire, desc
      ensures TxInvAt(State(), w) && old(wire) <= wire
      ensures Progress(State(), w) == old(Progress(State(), w)) + if tick.Advance? then 1 else 0
      ensures desc[w].ttss <==> Progress(State(), w) == MAC_STEPS
    {
      ProgressStep(State(), w, tick);
      MacAdvance(tick);
    }

    // The driver ---------------------------------------------------------------------------------

    /** `ETH_PTPTxPkt_PrepareBuffer`: the buffer to fill, or nothing while the MAC owns the
        descriptor. */
    method PrepareBuffer() returns (buffer: Option<nat>)
      requires Tables() && lay.DescAt(toSet).Some? && lay.ShadowAt(ptpToSet).Some?
      modifies desc
      ensures var i, p := lay.DescAt(toSet).value, shadow[lay.ShadowAt(ptpToSet).value];
        if old(desc[i].own) then buffer == None && desc[..] == old(desc[..])
        else
          && buffer == Some(p.buffer1Addr)
          && desc[..] == old(desc[..])[i := old(desc[i]).(buffer1Addr := p.buffer1Addr, buffer2NextDescAddr := p.buffer2NextDescAddr)]
    {
      var i, j := lay.DescAt(toSet).value, lay.ShadowAt(ptpToSet).value;
      if desc[i].own {
        return None;
      }
      desc[i] := desc[i].(buffer1Addr := shadow[j].buffer1Addr);
      desc[i] := desc[i].(buffer2NextDescAddr := shadow[j].buffer2NextDescAddr);
      buffer := Some(desc[i].buffer1Addr);
    }

    /** The copy loop of `low_level_output`: the payloads one after the other. */
    method CopyIn(b: nat, payloads: seq<seq<Octet>>) returns (l: nat)
      requires Tables() && State().Typed() && b < lay.n && |Flatten(payloads)| <= ETH_MAX_PACKET_SIZE
      modifies memory
      ensures l == |Flatten(payloads)|
      ensures memory[..] == old(memory[..])[b := Flatten(payloads) + old(memory[b])[l..]]
    {
      ghost var before := memory[b];
      l := 0;
      var q := 0;
      assert Flatten(payloads[..0]) + before[0..] == before;
      while q < |payloads|
        invariant 0 <= q <= |payloads|
        invariant l == |Flatten(payloads[..q])| <= |Flatten(payloads)|
        invariant memory[..] == old(memory[..])[b := Flatten(payloads[..q]) + before[l..]]
      {
        FlattenTake(payloads, q);
        FlattenTake(payloads, q + 1);
        var m := memory[b];
        memory[b] := m[..l] + payloads[q] + m[l + |payloads[q]|..];
        assert memory[b] == Flatten(payloads[..q + 1]) + before[l + |payloads[q]|..];
        l := l + |payloads[q]|;
        q := q + 1;
      }
      assert payloads[..q] == payloads;
    }

    /** The polling loop of `ETH_PTPTxPkt_ChainMode`; ticks[k] is what the MAC does before poll k. */
    method PollForTimeStamp(ticks: seq<Tick>, ghost w: nat) returns (timeout: nat)
      requires Tables() && |ticks| == PHY_READ_TO
      requires TxInvAt(State(), w) && sender == Polling(0) && Progress(State(), w) == 0
      modifies this`mac, this`macTx, this`wire, this`sender, desc
      ensures TxInvAt(State(), w) && sender.Polling?
      ensures timeout <= PHY_READ_TO && toSet == old(toSet)
      ensures timeout < PHY_READ_TO <==> Count(ticks[..PHY_READ_TO - 1]) >= MAC_STEPS
      ensures timeout < PHY_READ_TO ==> desc[w].ttss
      ensures old(wire) <= wire
    {
      timeout := 0;
      lay.Resolves(w);
      var i := lay.DescAt(toSet).value;
      while true
        invariant TxInvAt(State(), w) && sender == Polling(timeout) && timeout < PHY_READ_TO
        invariant Progress(State(), w) == Count(ticks[..timeout]) < MAC_STEPS
        invariant old(wire) <= wire
        decreases PHY_READ_TO - timeout
      {
        CountTake(ticks, timeout);
        MacBeforePoll(ticks[timeout], w);
        timeout := timeout + 1;
        if desc[i].ttss || timeout >= PHY_READ_TO {
          break;
        }
        WaitSafe(State(), w, Polling(timeout));
        sender := Polling(timeout);
      }
      CountUpTo(ticks, timeout);
    }

    /** What `ETH_PTPTxPkt_ChainMode` does when the time stamp is there. */
    method Collect(ghost w: nat) returns (stamp: TimeStamp)
      requires Tables() && TxInvAt(State(), w) && sender.Polling? && desc[w].ttss
      modifies this`toSet, this`ptpToSet, this`sender, this`returned, desc
      ensures TxInvAt(State(), lay.Next(w)) && sender.Quiet?
      ensures |old(returned)| < |wire| && stamp == StampOf(wire[|old(returned)|])
      ensures toSet == lay.Desc(lay.Next(w))
    {
      ghost var s := State();
      CollectSafe(s, w);
      lay.Resolves(w);
      var i, j := lay.DescAt(toSet).value, lay.ShadowAt(ptpToSet).value;
      stamp := TimeStamp(U32(desc[i].buffer2NextDescAddr), SubSecond2NanoSecond(U32(desc[i].buffer1Addr)));
      desc[i] := desc[i].(ttss := false);
      desc[i] := desc[i].(buffer1Addr := shadow[j].buffer1Addr);
      desc[i] := desc[i].(buffer2NextDescAddr := shadow[j].buffer2NextDescAddr);
      toSet := desc[i].buffer2NextDescAddr;
      if shadow[j].status != 0 {
        ptpToSet := shadow[j].status;
      } else {
        ptpToSet := ptpToSet + DESCRIPTOR_SIZE;
      }
      sender, returned := Quiet, returned + [stamp];
      assert State() == Collects(s, w, w);
    }

    /** `ETH_PTPTxPkt_PrepareBuffer`, the copy, and `ETH_PTPTxPkt_ChainMode` up to its loop. */
    method Send(payloads: seq<seq<Octet>>, ghost w: nat) returns (accepted: bool)
      requires Tables() && TxInvAt(State(), w) && (sender.Quiet? || desc[w].own)
      requires |Flatten(payloads)| <= ETH_MAX_PACKET_SIZE
      modifies this`sender, this`submitted, desc, memory
      ensures accepted == !old(desc[w].own)
      ensures !accepted ==> State() == old(State())
      ensures accepted ==>
                && TxInvAt(State(), w) && sender == Polling(0) && Progress(State(), w) == 0
                && submitted == old(submitted) + [Flatten(payloads)]
                && desc[w].own && desc[w].first && desc[w].last && !desc[w].ttss && desc[w].bufferSize == |Flatten(payloads)|
    {
      ghost var s := State();
      lay.Resolves(w);
      var buffer := PrepareBuffer();
      if buffer.None? {
        return false;
      }
      SubmitSafe(s, w, Flatten(payloads));
      accepted := true;
      var l := CopyIn(lay.BufferAt(buffer.value).value, payloads);
      var i := lay.DescAt(toSet).value;
      desc[i] := desc[i].(bufferSize := l % 0x2000);
      desc[i] := desc[i].(first := true, last := true);
      desc[i] := desc[i].(own := true);
      sender, submitted := Polling(0), submitted + [Flatten(payloads)];
      assert State() == Submits(s, Flatten(payloads)).state;
    }

    /** `low_level_output`. It succeeds exactly when the MAC takes its four steps before poll 255;
        then the frame is on the wire whole, the pbuf gets the time at which it was sent, and both
        cursors have moved on together. A timeout moves neither. */
    method LowLevelOutput(payloads: seq<seq<Octet>>, ticks: seq<Tick>, ghost w: nat)
      returns (err: Err, stamp: TimeStamp)
      requires Tables() && TxInvAt(State(), w) && (sender.Quiet? || desc[w].own)
      requires |Flatten(payloads)| <= ETH_MAX_PACKET_SIZE && |ticks| == 255
      modifies this`toSet, this`ptpToSet, this`mac, this`macTx, this`sender, this`submitted, this`wire, this`returned, desc, memory
      ensures err == if old(desc[w].own) then ERR_INPROGRESS
                     else if Count(ticks[..254]) >= MAC_STEPS then ERR_OK else ERR_IF
      ensures err.ERR_INPROGRESS? ==> State() == old(State())
      ensures !err.ERR_INPROGRESS? ==> submitted == old(submitted) + [Flatten(payloads)]
      ensures err.ERR_OK? ==>
                && TxInvAt(State(), lay.Next(w)) && sender.Quiet?
                && |wire| == |old(wire)| + 1 && old(wire) <= wire && wire[|old(wire)|].bytes == Flatten(payloads)
                && stamp == StampOf(wire[|old(wire)|])
      ensures err.ERR_IF? ==> TxInvAt(State(), w) && sender.TimedOut? && toSet == old(toSet) && ptpToSet == old(ptpToSet)
    {
      stamp := TimeStamp(0, 0);
      var accepted := Send(payloads, w);
      if !accepted {
        return ERR_INPROGRESS, stamp;
      }
      var timeout := PollForTimeStamp(ticks, w);
      if timeout == PHY_READ_TO {
        WaitSafe(State(), w, TimedOut);
        sender := TimedOut;
        return ERR_IF, stamp;
      }
      stamp := Collect(w);
      err := ERR_OK;
    }
  }

  /** While a frame is in flight and not finished, every MAC step brings it one step further. */
  lemma ProgressStep(s: TxState, w: nat, tick: Tick)
    requires TxInvAt(s, w) && s.sender.Polling? && Progress(s, w) < MAC_STEPS
    ensures tick.Advance? ==>
              var o := Advances(s, tick.seconds, tick.subseconds);
              o.Did? && TxInvAt(o.state, w) && Progress(o.state, w) == Progress(s, w) + 1 && o.state.sender == s.sender
    ensures tick.Advance? && Progress(s, w) == MAC_STEPS - 1 ==> Advances(s, tick.seconds, tick.subseconds).state.desc[w].ttss
    ensures tick.Advance? && Progress(s, w) < MAC_STEPS - 1 ==> !Advances(s, tick.seconds, tick.subseconds).state.desc[w].ttss
    ensures !s.desc[w].ttss
  {
    s.lay.Resolves(w);
    if tick.Advance? {
      AdvanceSafe(s, w, tick.seconds, tick.subseconds);
    }
  }

  lemma CountUpTo(ticks: seq<Tick>, timeout: nat)
    requires |ticks| == PHY_READ_TO && timeout <= PHY_READ_TO
    ensures timeout < PHY_READ_TO ==> Count(ticks[..timeout]) <= Count(ticks[..PHY_READ_TO - 1])
  {
    if timeout < PHY_READ_TO {
      CountTake(ticks[..PHY_READ_TO - 1], timeout);
      assert ticks[..PHY_READ_TO - 1][..timeout] == ticks[..timeout];
    }
  }

  lemma {:induction false} FlattenTake(chain: seq<seq<Octet>>, k: nat)
    requires k <= |chain|
    ensures |Flatten(chain[..k])| <= |Flatten(chain)|
    ensures k < |chain| ==> Flatten(chain[..k + 1]) == Flatten(chain[..k]) + chain[k]
    decreases |chain| - k
  {
    if k < |chain| {
      assert chain[..k + 1][..k] == chain[..k];
      FlattenTake(chain, k + 1);
    } else {
      assert chain[..k] == chain;
    }
  }
}
