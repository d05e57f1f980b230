/** The transmit ring of lwip-1.3.1/port/ethernetif.c with hardware time stamps: the driver hands
    one descriptor to the MAC, polls until its time stamp appears or 255 polls have passed, and
    takes the descriptor back with the addresses from the shadow ring. */
module TxRing {
  import opened CInt
  import opened HardwareClock
  import opened RxRing

  const PHY_READ_TO := 255

  /** The bits of the status word that change, and the buffer size from the control word. */
  datatype TxDescriptor = TxDescriptor(
    own: bool, ttss: bool, first: bool, last: bool, bufferSize: nat,
    buffer1Addr: nat, buffer2NextDescAddr: nat)

  /** A frame as it left on the wire and the time at which it did. */
  datatype OnWire = OnWire(bytes: seq<Octet>, seconds: UInt32, subseconds: UInt32)

  datatype TimeStamp = TimeStamp(seconds: UInt32, nanoseconds: UInt32)

  function StampOf(f: OnWire): TimeStamp {
    TimeStamp(f.seconds, SubSecond2NanoSecond(f.subseconds))
  }

  /** How far the MAC is with the descriptor it works on. */
  datatype MacTx = Ready | Fetched(size: nat, buffer: nat, next: nat) | Sent(next: nat) | Marked(next: nat)

  /** `low_level_output` is not running, has polled some times, or has given up. */
  datatype Sender = Quiet | Polling(timeout: nat) | TimedOut

  datatype TxState = TxState(
    lay: Layout, desc: seq<TxDescriptor>, shadow: seq<ShadowDescriptor>, memory: seq<seq<Octet>>,
    toSet: nat, ptpToSet: nat,       // DMATxDescToSet, DMAPTPTxDescToSet
    mac: nat, macTx: MacTx,
    sender: Sender,
    submitted: seq<seq<Octet>>,      // the frames passed to low_level_output
    wire: seq<OnWire>,               // the frames the MAC has sent
    returned: seq<TimeStamp>)        // the time stamps low_level_output has returned
  {
    predicate Typed() {
      && lay.Ok()
      && |desc| == |shadow| == |memory| == lay.n
      && forall k | 0 <= k < lay.n :: |memory[k]| == ETH_MAX_PACKET_SIZE
    }
  }

  datatype TxOutcome = Did(state: TxState) | Idles | Faults

  datatype TxStep = Submit(bytes: seq<Octet>) | Poll | MacAdvance(seconds: UInt32, subseconds: UInt32)

  // ---------------------------------------------------------------------------------------------
  // Steps

  /** `ETH_PTPTxPkt_PrepareBuffer`, the copy, and `ETH_PTPTxPkt_ChainMode` up to its loop. */
  function Submits(s: TxState, bytes: seq<Octet>): TxOutcome
    requires s.Typed()
  {
    if !s.sender.Quiet? then Idles
    else match (s.lay.DescAt(s.toSet), s.lay.ShadowAt(s.ptpToSet))
      case (Some(i), Some(j)) =>
        if s.desc[i].own then Idles
        else (
          match s.lay.BufferAt(s.shadow[j].buffer1Addr)
          case None => Faults
          case Some(b) =>
            if |bytes| > ETH_MAX_PACKET_SIZE then Faults
            else
              Did(s.(desc := s.desc[i := s.desc[i].(
                       buffer1Addr := s.shadow[j].buffer1Addr, buffer2NextDescAddr := s.shadow[j].buffer2NextDescAddr,
                       bufferSize := |bytes| % 0x2000, first := true, last := true, own := true)],
                     memory := s.memory[b := bytes + s.memory[b][|bytes|..]],
                     sender := Polling(0), submitted := s.submitted + [bytes])))
      case _ => Faults
  }

  /** One round of the loop, and what follows when it ends. */
  function Polls(s: TxState): TxOutcome
    requires s.Typed()
  {
    match s.sender
    case Polling(t) => (
      match (s.lay.DescAt(s.toSet), s.lay.ShadowAt(s.ptpToSet))
      case (Some(i), Some(j)) =>
        if !s.desc[i].ttss && t + 1 < PHY_READ_TO then Did(s.(sender := Polling(t + 1)))
        else if t + 1 == PHY_READ_TO then Did(s.(sender := TimedOut))
        else Did(Collects(s, i, j))
      case _ => Faults)
    case _ => Idles
  }

  /** What follows the loop when the time stamp is there. */
  function Collects(s: TxState, i: nat, j: nat): TxState
    requires s.Typed() && i < s.lay.n && j < s.lay.n
  {
    var d, shadow := s.desc[i], s.shadow[j];
    s.(sender := Quiet,
       returned := s.returned + [TimeStamp(U32(d.buffer2NextDescAddr), SubSecond2NanoSecond(U32(d.buffer1Addr)))],
       desc := s.desc[i := d.(ttss := false, buffer1Addr := shadow.buffer1Addr, buffer2NextDescAddr := shadow.buffer2NextDescAddr)],
       toSet := shadow.buffer2NextDescAddr,
       ptpToSet := if shadow.status != 0 then shadow.status else s.ptpToSet + DESCRIPTOR_SIZE)
  }

  /** The MAC fetches a descriptor it owns, if it is marked as a whole frame, sends its buffer and captures the time, writes the
      time over the address words, and returns the descriptor with TTSS set. */
  function Advances(s: TxState, seconds: UInt32, subseconds: UInt32): TxOutcome
    requires s.Typed()
  {
    match s.lay.DescAt(s.mac)
    case None => Faults
    case Some(i) =>
      match s.macTx
      case Ready =>
        if s.desc[i].own && s.desc[i].first && s.desc[i].last then Did(s.(macTx := Fetched(s.desc[i].bufferSize, s.desc[i].buffer1Addr, s.desc[i].buffer2NextDescAddr)))
        else Idles
      case Fetched(size, buffer, next) => (
        match s.lay.BufferAt(buffer)
        case None => Faults
        case Some(b) =>
          if size > ETH_MAX_PACKET_SIZE then Faults
          else Did(s.(macTx := Sent(next), wire := s.wire + [OnWire(s.memory[b][..size], seconds, subseconds)])))
      case Sent(next) =>
        if |s.wire| == 0 then Faults
        else
          var f := s.wire[|s.wire| - 1];
          Did(s.(macTx := Marked(next), desc := s.desc[i := s.desc[i].(buffer1Addr := f.subseconds, buffer2NextDescAddr := f.seconds)]))
      case Marked(next) =>
        Did(s.(macTx := Ready, mac := next, desc := s.desc[i := s.desc[i].(own := false, ttss := true)]))
  }

  function DoTx(s: TxState, step: TxStep): (o: TxOutcome)
    requires s.Typed()
    ensures o.Did? ==> o.state.Typed() && o.state.lay == s.lay
  {
    match step
    case Submit(bytes) => Submits(s, bytes)
    case Poll => Polls(s)
    case MacAdvance(seconds, subseconds) => Advances(s, seconds, subseconds)
  }

  // ---------------------------------------------------------------------------------------------
  // Invariant

  predicate TxIntact(s: TxState, i: nat)
    requires s.Typed() && i < s.lay.n
  {
    s.desc[i].buffer1Addr == s.shadow[i].buffer1Addr && s.desc[i].buffer2NextDescAddr == s.shadow[i].buffer2NextDescAddr
  }

  ghost predicate TxShadowIntact(s: TxState)
    requires s.Typed()
  {
    forall i | 0 <= i < s.lay.n ::
      s.shadow[i] == ShadowDescriptor(if i == s.lay.n - 1 then s.lay.shadowTab else 0, s.lay.Buffer(i), s.lay.Desc(s.lay.Next(i)))
  }

  /** A descriptor at rest: the CPU's, with its addresses and without a time stamp. */
  predicate AtRest(s: TxState, i: nat)
    requires s.Typed() && i < s.lay.n
  {
    !s.desc[i].own && !s.desc[i].ttss && TxIntact(s, i)
  }

  predicate CarriesStamp(d: TxDescriptor, f: OnWire) {
    d.buffer1Addr == f.subseconds && d.buffer2NextDescAddr == f.seconds
  }

  /** The descriptor w in flight with the given bytes; n frames were completed before it. */
  predicate InFlight(s: TxState, w: nat, bytes: seq<Octet>, n: nat)
    requires s.Typed() && w < s.lay.n
  {
    var d, next := s.desc[w], s.lay.Desc(s.lay.Next(w));
    var sent := |s.wire| == n + 1 && s.wire[n].bytes == bytes;
    && d.first && d.last
    && |bytes| <= ETH_MAX_PACKET_SIZE && d.bufferSize == |bytes| && s.memory[w][..|bytes|] == bytes
    && match s.macTx
       case Ready =>
         if d.ttss then !d.own && sent && CarriesStamp(d, s.wire[n]) && s.mac == next
         else d.own && |s.wire| == n && TxIntact(s, w) && s.mac == s.lay.Desc(w)
       case Fetched(size, buffer, next') =>
         && d.own && !d.ttss && |s.wire| == n && TxIntact(s, w) && s.mac == s.lay.Desc(w)
         && size == |bytes| && buffer == s.lay.Buffer(w) && next' == next
       case Sent(next') =>
         d.own && !d.ttss && sent && TxIntact(s, w) && s.mac == s.lay.Desc(w) && next' == next
       case Marked(next') =>
         d.own && !d.ttss && sent && CarriesStamp(d, s.wire[n]) && s.mac == s.lay.Desc(w) && next' == next
  }

  /** Both software cursors are at w, which alone may be in flight. */
  ghost predicate TxInvAt(s: TxState, w: nat) {
    && s.Typed() && TxShadowIntact(s) && w < s.lay.n
    && s.toSet == s.lay.Desc(w) && s.ptpToSet == s.lay.Shadow(w)
    && (forall i | 0 <= i < s.lay.n && i != w :: AtRest(s, i))
    && |s.returned| <= |s.wire| <= |s.submitted|
    && (forall k | 0 <= k < |s.wire| :: s.wire[k].bytes == s.submitted[k])
    && (forall k | 0 <= k < |s.returned| :: s.returned[k] == StampOf(s.wire[k]))
    && (s.sender.Polling? ==> s.sender.timeout < PHY_READ_TO)
    && if s.sender.Quiet? then
         AtRest(s, w) && s.mac == s.lay.Desc(w) && s.macTx.Ready? && |s.returned| == |s.wire| == |s.submitted|
       else
         |s.submitted| == |s.returned| + 1 && InFlight(s, w, s.submitted[|s.returned|], |s.returned|)
  }

  ghost predicate TxInv(s: TxState) {
    exists w: nat :: TxInvAt(s, w)
  }

  lemma SubmitSafe(s: TxState, w: nat, bytes: seq<Octet>)
    requires TxInvAt(s, w) && |bytes| <= ETH_MAX_PACKET_SIZE
    ensures !Submits(s, bytes).Faults? && (Submits(s, bytes).Did? ==> TxInvAt(Submits(s, bytes).state, w))
  {
    s.lay.Resolves(w);
    if s.sender.Quiet? {
      var s' := Submits(s, bytes).state;
      forall i | 0 <= i < s.lay.n && i != w
        ensures AtRest(s', i)
      {
        assert AtRest(s, i);
      }
    }
  }

  lemma PollSafe(s: TxState, w: nat)
    requires TxInvAt(s, w)
    ensures !Polls(s).Faults?
    ensures Polls(s).Did? ==> TxInvAt(Polls(s).state, if Polls(s).state.sender.Quiet? then s.lay.Next(w) else w)
  {
    s.lay.Resolves(w);
    if s.sender.Polling? {
      if s.desc[w].ttss {
        CollectSafe(s, w);
      }
      WaitSafe(s, w, Polling(if s.sender.timeout + 1 < PHY_READ_TO then s.sender.timeout + 1 else 0));
      WaitSafe(s, w, TimedOut);
    }
  }

  lemma WaitSafe(s: TxState, w: nat, sender: Sender)
    requires TxInvAt(s, w) && s.sender.Polling?
    requires sender.TimedOut? || (sender.Polling? && sender.timeout < PHY_READ_TO)
    ensures TxInvAt(s.(sender := sender), w)
  {
    var s' := s.(sender := sender);
    forall i | 0 <= i < s.lay.n && i != w
      ensures AtRest(s', i)
    {
      assert AtRest(s, i);
    }
  }

  lemma CollectSafe(s: TxState, w: nat)
    requires TxInvAt(s, w) && s.sender.Polling? && s.desc[w].ttss
    ensures TxInvAt(Collects(s, w, w), s.lay.Next(w))
  {
    var s' := Collects(s, w, w);
    forall i | 0 <= i < s.lay.n
      ensures AtRest(s', i)
    {
      assert i != w ==> AtRest(s, i);
    }
  }

  lemma AdvanceSafe(s: TxState, w: nat, seconds: UInt32, subseconds: UInt32)
    requires TxInvAt(s, w)
    ensures !Advances(s, seconds, subseconds).Faults?
    ensures Advances(s, seconds, subseconds).Did? ==> TxInvAt(Advances(s, seconds, subseconds).state, w)
  {
    s.lay.Resolves(w);
    s.lay.Resolves(s.lay.Next(w));
    assert s.lay.Next(w) != w ==> AtRest(s, s.lay.Next(w));
    if Advances(s, seconds, subseconds).Did? {
      var s' := Advances(s, seconds, subseconds).state;
      assert s.mac == s.lay.Desc(w);
      forall i | 0 <= i < s.lay.n && i != w
        ensures AtRest(s', i)
      {
        assert AtRest(s, i);
      }
    }
  }

  lemma TxStepSafe(s: TxState, step: TxStep)
    requires TxInv(s) && (step.Submit? ==> |step.bytes| <= ETH_MAX_PACKET_SIZE)
    ensures !DoTx(s, step).Faults? && (DoTx(s, step).Did? ==> TxInv(DoTx(s, step).state))
  {
    var w: nat :| TxInvAt(s, w);
    match step
    case Submit(bytes) => SubmitSafe(s, w, bytes);
    case Poll => PollSafe(s, w);
    case MacAdvance(seconds, subseconds) => AdvanceSafe(s, w, seconds, subseconds);
  }

  // ---------------------------------------------------------------------------------------------
  // Runs

  function RunTx(s: TxState, steps: seq<TxStep>): (r: Option<TxState>)
    requires s.Typed()
    ensures r.Some? ==> r.value.Typed()
    decreases |steps|
  {
    if |steps| == 0 then Some(s)
    else match DoTx(s, steps[0])
      case Did(s') => RunTx(s', steps[1..])
      case Idles => RunTx(s, steps[1..])
      case Faults => None
  }

  /** The state that `ETH_DMAPTPTxDescChainInit` leaves. */
  ghost predicate TxInitial(s: TxState) {
    && s.Typed() && TxShadowIntact(s)
    && s.toSet == s.mac == s.lay.Desc(0) && s.ptpToSet == s.lay.Shadow(0)
    && s.macTx.Ready? && s.sender.Quiet? && s.submitted == [] && s.wire == [] && s.returned == []
    && forall i | 0 <= i < s.lay.n :: AtRest(s, i)
  }

  /** No frame is longer than a buffer. */
  predicate FramesFit(steps: seq<TxStep>) {
    forall k | 0 <= k < |steps| && steps[k].Submit? :: |steps[k].bytes| <= ETH_MAX_PACKET_SIZE
  }

  lemma {:induction false} RunTxSafe(s: TxState, steps: seq<TxStep>)
    requires TxInv(s) && FramesFit(steps)
    ensures RunTx(s, steps).Some? && TxInv(RunTx(s, steps).value)
    decreases |steps|
  {
    if |steps| > 0 {
      TxStepSafe(s, steps[0]);
      match DoTx(s, steps[0])
      case Did(s') => RunTxSafe(s', steps[1..]);
      case Idles => RunTxSafe(s, steps[1..]);
      case Faults =>
    }
  }

  /** What every interleaving of sends, polls and MAC steps shows. At most one descriptor is the
      MAC's, and it is marked as first and last of its frame. What is on the wire are the first frames submitted, in order and whole, and the
      time stamps returned are those of the first frames on the wire. Between sends every
      descriptor is at rest, the MAC and both cursors are at the same index and nothing
      submitted is missing on the wire. After a timeout the cursors still are at the frame
      that was given up. */
  lemma ReachableTxStates(s: TxState, steps: seq<TxStep>) returns (w: nat)
    requires TxInitial(s) && FramesFit(steps)
    ensures RunTx(s, steps).Some?
    ensures var s' := RunTx(s, steps).value;
      && w < s'.lay.n && s'.toSet == s'.lay.Desc(w) && s'.ptpToSet == s'.lay.Shadow(w)
      && (forall i | 0 <= i < s'.lay.n && s'.desc[i].own :: i == w && s'.desc[i].first && s'.desc[i].last)
      && |s'.returned| <= |s'.wire| <= |s'.submitted| <= |s'.returned| + 1
      && (forall k | 0 <= k < |s'.wire| :: s'.wire[k].bytes == s'.submitted[k])
      && (forall k | 0 <= k < |s'.returned| :: s'.returned[k] == StampOf(s'.wire[k]))
      && (s'.sender.Quiet? ==>
            && |s'.submitted| == |s'.wire| == |s'.returned| && s'.mac == s'.lay.Desc(w)
            && forall i | 0 <= i < s'.lay.n :: AtRest(s', i))
  {
    assert TxInvAt(s, 0);
    RunTxSafe(s, steps);
    var s' := RunTx(s, steps).value;
    w :| TxInvAt(s', w);
    forall i | 0 <= i < s'.lay.n && i != w
      ensures !s'.desc[i].own
    {
      assert AtRest(s', i);
    }
  }

  /** A timeout moves neither cursor and leaves the driver without a time stamp. */
  lemma TimeoutMovesNothing(s: TxState)
    requires TxInv(s) && s.sender.Polling? && Polls(s).Did? && Polls(s).state.sender.TimedOut?
    ensures var s' := Polls(s).state;
      s'.toSet == s.toSet && s'.ptpToSet == s.ptpToSet && s'.desc == s.desc && s'.returned == s.returned && s'.mac == s.mac
  {
  }
}
