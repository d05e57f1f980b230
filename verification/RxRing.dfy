/** The receive ring of lwip-1.3.1/port/ethernetif.c with hardware time stamps. The MAC fills
    the descriptors it owns and writes a time stamp over both their address words; the driver
    takes the words back from a shadow ring before it returns the descriptor. The two run
    concurrently, so the model is a state machine over the steps of both. */
module RxRing {
  import opened CInt
  import opened HardwareClock

  const ETH_MAX_PACKET_SIZE := 1520
  const DESCRIPTOR_SIZE := 16

  // ---------------------------------------------------------------------------------------------
  // Memory

  /** Where `ETH_DMAPTPRxDescChainInit` finds its tables. */
  datatype Layout = Layout(n: nat, descTab: nat, shadowTab: nat, buffers: nat) {
    predicate Ok() {
      n >= 1 && shadowTab > 0
    }

    function Desc(k: nat): nat {
      descTab + DESCRIPTOR_SIZE * k
    }

    function Shadow(k: nat): nat {
      shadowTab + DESCRIPTOR_SIZE * k
    }

    function Buffer(k: nat): nat {
      buffers + ETH_MAX_PACKET_SIZE * k
    }

    /** The element of a descriptor table at an address, if there is one. */
    function ElementAt(table: nat, address: nat): (r: Option<nat>)
      ensures r.Some? ==> r.value < n && address == table + DESCRIPTOR_SIZE * r.value
    {
      if address >= table && (address - table) % DESCRIPTOR_SIZE == 0 && (address - table) / DESCRIPTOR_SIZE < n
      then Some((address - table) / DESCRIPTOR_SIZE) else None
    }

    function DescAt(address: nat): Option<nat> {
      ElementAt(descTab, address)
    }

    function ShadowAt(address: nat): Option<nat> {
      ElementAt(shadowTab, address)
    }

    function BufferAt(address: nat): (r: Option<nat>)
      ensures r.Some? ==> r.value < n && address == Buffer(r.value)
    {
      if address >= buffers && (address - buffers) % ETH_MAX_PACKET_SIZE == 0 && (address - buffers) / ETH_MAX_PACKET_SIZE < n
      then Some((address - buffers) / ETH_MAX_PACKET_SIZE) else None
    }

    lemma Resolves(k: nat)
      requires k < n
      ensures DescAt(Desc(k)) == Some(k) && ShadowAt(Shadow(k)) == Some(k) && BufferAt(Buffer(k)) == Some(k)
    {
    }

    function Next(k: nat): nat {
      if k + 1 == n then 0 else k + 1
    }
  }

  /** The fields of the status word that the driver reads. */
  datatype Status = Status(own: bool, frameLength: nat, errorSummary: bool, first: bool, last: bool)

  const OWN := Status(true, 0, false, false, false)

  /** A DMA descriptor; the control word never changes and is left out. */
  datatype Descriptor = Descriptor(status: Status, buffer1Addr: nat, buffer2NextDescAddr: nat)

  /** A shadow descriptor; its status word is 0, or the address of the first shadow descriptor. */
  datatype ShadowDescriptor = ShadowDescriptor(status: nat, buffer1Addr: nat, buffer2NextDescAddr: nat)

  /** What arrives from the wire: the bytes without the 4 bytes of CRC, the flags the MAC sets
      and the time at which it arrived. */
  datatype Frame = Frame(bytes: seq<Octet>, errorSummary: bool, first: bool, last: bool, seconds: UInt32, subseconds: UInt32) {
    predicate Fits() {
      |bytes| + 4 <= ETH_MAX_PACKET_SIZE
    }

    /** It came in one piece and without errors. */
    predicate Whole() {
      first && last && !errorSummary
    }

    function Written(): Status {
      Status(false, |bytes| + 4, errorSummary, first, last)
    }
  }

  /** The test of `ETH_GetRxPktSize` and `ETH_PTPRxPkt_ChainMode`. */
  predicate IsGood(s: Status) {
    !s.errorSummary && s.last && s.first
  }

  /** What the driver passes up for a frame: a pbuf with its time, or nothing when `pbuf_alloc`
      failed. */
  datatype Handed = Up(bytes: seq<Octet>, seconds: UInt32, nanoseconds: UInt32) | Dropped

  function HandedFor(f: Frame): Handed {
    Up(f.bytes, f.seconds, SubSecond2NanoSecond(f.subseconds))
  }

  // ---------------------------------------------------------------------------------------------
  // State

  /** How far the MAC is with the descriptor it works on; `next` is the address it read there. */
  datatype MacPhase = Waiting | Filled(frame: Frame, next: nat) | Stamped(frame: Frame, next: nat)

  /** `FrameTypeDef` */
  datatype FrameType = FrameType(length: nat, buffer: nat, descriptor: nat, ptpDescriptor: nat)

  /** How far `low_level_input` is; `p` is the copied pbuf chain, `seconds` and `nanoseconds`
      its time stamp. */
  datatype Software =
    | Idle
    | Taken(frame: FrameType)
    | Copied(frame: FrameType, p: Option<seq<Octet>>)
    | Restored(frame: FrameType, p: Option<seq<Octet>>, seconds: nat, nanoseconds: UInt32)

  datatype State = State(
    lay: Layout,
    desc: seq<Descriptor>, shadow: seq<ShadowDescriptor>, memory: seq<seq<Octet>>,
    toGet: nat, ptpToGet: nat,       // DMARxDescToGet, DMAPTPRxDescToGet
    mac: nat, macPhase: MacPhase,    // the descriptor the MAC works on
    sw: Software,
    arrived: seq<Frame>,             // frames the MAC has released, in order
    handed: seq<Handed>)             // what low_level_input has returned, in order
  {
    predicate Typed() {
      && lay.Ok()
      && |desc| == |shadow| == |memory| == lay.n
      && forall k | 0 <= k < lay.n :: |memory[k]| == ETH_MAX_PACKET_SIZE
    }
  }

  // ---------------------------------------------------------------------------------------------
  // Steps

  /** A step happens, or it waits for its turn, or it follows a word that is no address. */
  datatype Outcome = Happened(state: State) | Waits | Fault

  datatype Step = MacFill(frame: Frame) | MacStamp | MacRelease | SwTake | SwCopy(granted: bool) | SwRestore | SwGiveBack

  /** The MAC fetches the descriptor it points at and stores a frame in its buffer. */
  function MacFills(s: State, f: Frame): Outcome
    requires s.Typed()
  {
    if !s.macPhase.Waiting? || !f.Fits() then Waits
    else match s.lay.DescAt(s.mac)
      case None => Fault
      case Some(i) =>
        if !s.desc[i].status.own then Waits
        else match s.lay.BufferAt(s.desc[i].buffer1Addr)
          case None => Fault
          case Some(b) =>
            Happened(s.(memory := s.memory[b := f.bytes + s.memory[b][|f.bytes|..]],
                        macPhase := Filled(f, s.desc[i].buffer2NextDescAddr)))
  }

  /** The MAC writes the time stamp over the address words. */
  function MacStamps(s: State): Outcome
    requires s.Typed()
  {
    match s.macPhase
    case Filled(f, next) => (
      match s.lay.DescAt(s.mac)
      case None => Fault
      case Some(i) =>
        Happened(s.(desc := s.desc[i := s.desc[i].(buffer1Addr := f.subseconds, buffer2NextDescAddr := f.seconds)],
                    macPhase := Stamped(f, next))))
    case _ => Waits
  }

  /** The MAC writes the status, which clears OWN, and moves on. */
  function MacReleases(s: State): Outcome
    requires s.Typed()
  {
    match s.macPhase
    case Stamped(f, next) => (
      match s.lay.DescAt(s.mac)
      case None => Fault
      case Some(i) =>
        Happened(s.(desc := s.desc[i := s.desc[i].(status := f.Written())],
                    macPhase := Waiting, mac := next, arrived := s.arrived + [f])))
    case _ => Waits
  }

  /** `ETH_GetRxPktSize`, which the interrupt handler asks before it calls the driver. */
  function RxPktSize(status: Status): nat {
    if !status.own && IsGood(status) then status.frameLength else 0
  }

  /** `ETH_PTPRxPkt_ChainMode` on a descriptor that the CPU owns. */
  function Takes(s: State): Outcome
    requires s.Typed()
  {
    if !s.sw.Idle? then Waits
    else match s.lay.DescAt(s.toGet)
      case None => Fault
      case Some(i) =>
        if RxPktSize(s.desc[i].status) == 0 then Waits
        else match s.lay.ShadowAt(s.ptpToGet)
          case None => Fault
          case Some(j) =>
            var shadow := s.shadow[j];
            Happened(s.(sw := Taken(FrameType((s.desc[i].status.frameLength - 4) % 0x1_0000, shadow.buffer1Addr, s.toGet, s.ptpToGet)),
                        toGet := shadow.buffer2NextDescAddr,
                        ptpToGet := if shadow.status != 0 then shadow.status else s.ptpToGet + DESCRIPTOR_SIZE))
  }

  /** `pbuf_alloc` and the copy out of the buffer. */
  function Copies(s: State, granted: bool): Outcome
    requires s.Typed()
  {
    match s.sw
    case Taken(frame) =>
      if !granted then Happened(s.(sw := Copied(frame, None)))
      else (
        match s.lay.BufferAt(frame.buffer)
        case None => Fault
        case Some(b) =>
          if frame.length > ETH_MAX_PACKET_SIZE then Fault
          else Happened(s.(sw := Copied(frame, Some(s.memory[b][..frame.length])))))
    case _ => Waits
  }

  /** `ETH_PTPRxPkt_ChainMode_CleanUp`: read the time stamp, restore the addresses. */
  function Restores(s: State): Outcome
    requires s.Typed()
  {
    match s.sw
    case Copied(frame, p) => (
      match (s.lay.DescAt(frame.descriptor), s.lay.ShadowAt(frame.ptpDescriptor))
      case (Some(i), Some(j)) =>
        var d := s.desc[i];
        Happened(s.(sw := Restored(frame, p, U32(d.buffer2NextDescAddr), SubSecond2NanoSecond(U32(d.buffer1Addr))),
                    desc := s.desc[i := d.(buffer1Addr := s.shadow[j].buffer1Addr, buffer2NextDescAddr := s.shadow[j].buffer2NextDescAddr)]))
      case _ => Fault)
    case _ => Waits
  }

  /** `ETH_RxPkt_ChainMode_CleanUp`: the descriptor goes back to the MAC, the pbuf goes up. */
  function GivesBack(s: State): Outcome
    requires s.Typed()
  {
    match s.sw
    case Restored(frame, p, seconds, nanoseconds) => (
      match s.lay.DescAt(frame.descriptor)
      case None => Fault
      case Some(i) =>
        Happened(s.(sw := Idle,
                    desc := s.desc[i := s.desc[i].(status := OWN)],
                    handed := s.handed + [if p.Some? then Up(p.value, U32(seconds), nanoseconds) else Dropped])))
    case _ => Waits
  }

  function Do(s: State, step: Step): (o: Outcome)
    requires s.Typed()
    ensures o.Happened? ==> o.state.Typed() && o.state.lay == s.lay
  {
    match step
    case MacFill(f) => MacFills(s, f)
    case MacStamp => MacStamps(s)
    case MacRelease => MacReleases(s)
    case SwTake => Takes(s)
    case SwCopy(granted) => Copies(s, granted)
    case SwRestore => Restores(s)
    case SwGiveBack => GivesBack(s)
  }

  // ---------------------------------------------------------------------------------------------
  // Invariant

  /** The slot c places after w. */
  function At(w: nat, c: nat, n: nat): nat
    requires w < n && c <= n
  {
    if w + c < n then w + c else w + c - n
  }

  /** How many places slot i comes after w. */
  function Dist(w: nat, i: nat, n: nat): (d: nat)
    requires w < n && i < n
    ensures d < n && At(w, d, n) == i
  {
    if i >= w then i - w else i - w + n
  }

  function Held(s: State): nat {
    if s.sw.Idle? then 0 else 1
  }

  /** The frames in the ring that the driver has not taken yet. */
  function Pending(s: State): seq<Frame>
    requires |s.handed| + Held(s) <= |s.arrived|
  {
    s.arrived[|s.handed| + Held(s)..]
  }

  predicate AddressesIntact(s: State, i: nat)
    requires s.Typed() && i < s.lay.n
  {
    s.desc[i].buffer1Addr == s.shadow[i].buffer1Addr && s.desc[i].buffer2NextDescAddr == s.shadow[i].buffer2NextDescAddr
  }

  ghost predicate ShadowIntact(s: State)
    requires s.Typed()
  {
    forall i | 0 <= i < s.lay.n ::
      s.shadow[i] == ShadowDescriptor(if i == s.lay.n - 1 then s.lay.shadowTab else 0, s.lay.Buffer(i), s.lay.Desc(s.lay.Next(i)))
  }

  /** Descriptor i is the CPU's and carries the frame, its status and its time stamp. */
  predicate HoldsFrame(s: State, i: nat, f: Frame)
    requires s.Typed() && i < s.lay.n
  {
    && f.Fits()
    && s.desc[i] == Descriptor(f.Written(), f.subseconds, f.seconds)
    && s.memory[i][..|f.bytes|] == f.bytes
  }

  /** Descriptor i, which comes d places after the software cursor. */
  predicate DescriptorOk(s: State, i: nat, d: nat, pending: seq<Frame>)
    requires s.Typed() && i < s.lay.n
  {
    if d < |pending| then HoldsFrame(s, i, pending[d])
    else if Held(s) == 1 && d == s.lay.n - 1 then true
    else
      && s.desc[i].status.own
      && if s.macPhase.Stamped? && d == |pending| then
           s.desc[i].buffer1Addr == s.macPhase.frame.subseconds && s.desc[i].buffer2NextDescAddr == s.macPhase.frame.seconds
         else AddressesIntact(s, i)
  }

  /** The MAC works on the first descriptor after the pending ones. */
  predicate MacOk(s: State, m: nat, free: bool)
    requires s.Typed() && m < s.lay.n
  {
    && s.mac == s.lay.Desc(m)
    && match s.macPhase
       case Waiting => true
       case _ =>
         var f := s.macPhase.frame;
         free && f.Fits() && s.macPhase.next == s.lay.Desc(s.lay.Next(m)) && s.memory[m][..|f.bytes|] == f.bytes
  }

  /** The driver works on the descriptor t just behind its cursors, with frame f. */
  predicate SoftwareOk(s: State, t: nat)
    requires s.Typed() && t < s.lay.n && |s.handed| + Held(s) <= |s.arrived|
  {
    !s.sw.Idle? ==>
      var f := s.arrived[|s.handed|];
      && f.Fits()
      && s.sw.frame == FrameType(|f.bytes|, s.lay.Buffer(t), s.lay.Desc(t), s.lay.Shadow(t))
      && (s.sw.Copied? || s.sw.Restored? ==> s.sw.p == None || s.sw.p == Some(f.bytes))
      && if s.sw.Restored? then
           && !s.desc[t].status.own && AddressesIntact(s, t)
           && s.sw.seconds == f.seconds && s.sw.nanoseconds == SubSecond2NanoSecond(f.subseconds)
         else HoldsFrame(s, t, f)
  }

  ghost predicate LogOk(s: State) {
    && |s.handed| + Held(s) <= |s.arrived|
    && (forall k | 0 <= k < |s.handed| :: s.handed[k] == Dropped || s.handed[k] == HandedFor(s.arrived[k]))
    && (forall k | 0 <= k < |s.handed| + Held(s) :: s.arrived[k].Whole())
  }

  /** Both software cursors are at slot w; the frames pending are in the slots from w on, and the
      MAC works on the slot after them. */
  ghost predicate CursorsAt(s: State, w: nat) {
    && s.Typed() && ShadowIntact(s) && LogOk(s)
    && w < s.lay.n
    && s.toGet == s.lay.Desc(w) && s.ptpToGet == s.lay.Shadow(w)
    && |Pending(s)| + Held(s) <= s.lay.n
    && MacOk(s, At(w, |Pending(s)|, s.lay.n), |Pending(s)| + Held(s) < s.lay.n)
    && SoftwareOk(s, At(w, s.lay.n - 1, s.lay.n))
  }

  ghost predicate InvAt(s: State, w: nat) {
    && CursorsAt(s, w)
    && forall i | 0 <= i < s.lay.n :: DescriptorOk(s, i, Dist(w, i, s.lay.n), Pending(s))
  }

  ghost predicate Inv(s: State) {
    exists w: nat :: InvAt(s, w)
  }

  // ---------------------------------------------------------------------------------------------
  // Every step keeps the invariant and none faults

  lemma MacFillSafe(s: State, w: nat, f: Frame)
    requires InvAt(s, w)
    ensures !MacFills(s, f).Fault? && (MacFills(s, f).Happened? ==> InvAt(MacFills(s, f).state, w))
  {
    var m := At(w, |Pending(s)|, s.lay.n);
    s.lay.Resolves(m);
    if s.macPhase.Waiting? && f.Fits() && s.desc[m].status.own {
      assert DescriptorOk(s, m, Dist(w, m, s.lay.n), Pending(s));
      FillCursors(s, w, f);
      var s' := MacFills(s, f).state;
      forall i | 0 <= i < s.lay.n
        ensures DescriptorOk(s', i, Dist(w, i, s.lay.n), Pending(s'))
      {
        assert DescriptorOk(s, i, Dist(w, i, s.lay.n), Pending(s));
      }
    }
  }

  /** A descriptor with OWN set lies beyond the pending ones and behind the held one, so its
      address words lead the MAC to its own buffer. */
  lemma FillCursors(s: State, w: nat, f: Frame)
    requires CursorsAt(s, w) && s.macPhase.Waiting? && f.Fits()
    requires var m := At(w, |Pending(s)|, s.lay.n);
      s.desc[m].status.own && DescriptorOk(s, m, Dist(w, m, s.lay.n), Pending(s))
    ensures MacFills(s, f).Happened? && CursorsAt(MacFills(s, f).state, w)
    ensures |Pending(s)| < s.lay.n
    ensures var s' := MacFills(s, f).state;
      && s' == s.(memory := s'.memory, macPhase := s'.macPhase) && s'.macPhase.Filled?
      && forall i | 0 <= i < s.lay.n && i != At(w, |Pending(s)|, s.lay.n) :: s'.memory[i] == s.memory[i]
  {
    var m := At(w, |Pending(s)|, s.lay.n);
    s.lay.Resolves(m);
    assert |Pending(s)| < s.lay.n ==> Dist(w, m, s.lay.n) == |Pending(s)|;
    assert s.desc[m].buffer1Addr == s.lay.Buffer(m);
  }

  /** The driver's part depends only on the descriptor and the frame it holds. */
  lemma SoftwareStays(s: State, s': State, t: nat)
    requires s.Typed() && s'.Typed() && t < s.lay.n && |s.handed| + Held(s) <= |s.arrived| && s.arrived <= s'.arrived
    requires s' == s.(desc := s'.desc, macPhase := s'.macPhase, mac := s'.mac, arrived := s'.arrived)
    requires SoftwareOk(s, t) && (!s.sw.Idle? ==> s'.desc[t] == s.desc[t])
    ensures SoftwareOk(s', t)
  {
  }

  lemma MacStampSafe(s: State, w: nat)
    requires InvAt(s, w)
    ensures !MacStamps(s).Fault? && (MacStamps(s).Happened? ==> InvAt(MacStamps(s).state, w))
  {
    s.lay.Resolves(At(w, |Pending(s)|, s.lay.n));
    if s.macPhase.Filled? {
      StampCursors(s, w);
      var s' := MacStamps(s).state;
      forall i | 0 <= i < s.lay.n
        ensures DescriptorOk(s', i, Dist(w, i, s.lay.n), Pending(s'))
      {
        assert DescriptorOk(s, i, Dist(w, i, s.lay.n), Pending(s));
        StampDescriptor(s, w, i);
      }
    }
  }

  lemma StampCursors(s: State, w: nat)
    requires CursorsAt(s, w) && s.macPhase.Filled?
    ensures MacStamps(s).Happened? && CursorsAt(MacStamps(s).state, w)
  {
    var m, t := At(w, |Pending(s)|, s.lay.n), At(w, s.lay.n - 1, s.lay.n);
    s.lay.Resolves(m);
    assert m != t || Held(s) == 0;
    SoftwareStays(s, MacStamps(s).state, t);
  }

  lemma StampDescriptor(s: State, w: nat, i: nat)
    requires CursorsAt(s, w) && s.macPhase.Filled? && i < s.lay.n
    requires MacStamps(s).Happened? && CursorsAt(MacStamps(s).state, w)
    requires DescriptorOk(s, i, Dist(w, i, s.lay.n), Pending(s))
    ensures DescriptorOk(MacStamps(s).state, i, Dist(w, i, s.lay.n), Pending(MacStamps(s).state))
  {
    var m := At(w, |Pending(s)|, s.lay.n);
    s.lay.Resolves(m);
    if i == m {
      assert Dist(w, i, s.lay.n) == |Pending(s)|;
    }
  }

  lemma MacReleaseSafe(s: State, w: nat)
    requires InvAt(s, w)
    ensures !MacReleases(s).Fault? && (MacReleases(s).Happened? ==> InvAt(MacReleases(s).state, w))
  {
    s.lay.Resolves(At(w, |Pending(s)|, s.lay.n));
    if s.macPhase.Stamped? {
      ReleaseCursors(s, w);
      var s' := MacReleases(s).state;
      forall i | 0 <= i < s.lay.n
        ensures DescriptorOk(s', i, Dist(w, i, s.lay.n), Pending(s'))
      {
        assert DescriptorOk(s, i, Dist(w, i, s.lay.n), Pending(s));
        ReleaseDescriptor(s, w, i);
      }
    }
  }

  lemma ReleaseCursors(s: State, w: nat)
    requires CursorsAt(s, w) && s.macPhase.Stamped?
    ensures MacReleases(s).Happened? && CursorsAt(MacReleases(s).state, w)
    ensures Pending(MacReleases(s).state) == Pending(s) + [s.macPhase.frame]
  {
    var m, t := At(w, |Pending(s)|, s.lay.n), At(w, s.lay.n - 1, s.lay.n);
    s.lay.Resolves(m);
    assert m != t || Held(s) == 0;
    SoftwareStays(s, MacReleases(s).state, t);
  }

  lemma ReleaseDescriptor(s: State, w: nat, i: nat)
    requires CursorsAt(s, w) && s.macPhase.Stamped? && i < s.lay.n
    requires MacReleases(s).Happened? && CursorsAt(MacReleases(s).state, w)
    requires Pending(MacReleases(s).state) == Pending(s) + [s.macPhase.frame]
    requires DescriptorOk(s, i, Dist(w, i, s.lay.n), Pending(s))
    ensures DescriptorOk(MacReleases(s).state, i, Dist(w, i, s.lay.n), Pending(MacReleases(s).state))
  {
    var m := At(w, |Pending(s)|, s.lay.n);
    s.lay.Resolves(m);
    if i == m {
      assert Dist(w, i, s.lay.n) == |Pending(s)|;
    }
  }

  lemma TakeSafe(s: State, w: nat)
    requires InvAt(s, w)
    ensures !Takes(s).Fault? && (Takes(s).Happened? ==> InvAt(Takes(s).state, s.lay.Next(w)))
  {
    s.lay.Resolves(w);
    if s.sw.Idle? && RxPktSize(s.desc[w].status) != 0 {
      TakeCursors(s, w);
      forall i | 0 <= i < s.lay.n
        ensures DescriptorOk(Takes(s).state, i, Dist(s.lay.Next(w), i, s.lay.n), Pending(Takes(s).state))
      {
        assert DescriptorOk(s, i, Dist(w, i, s.lay.n), Pending(s));
        TakeDescriptor(s, w, i);
      }
    }
  }

  lemma TakeCursors(s: State, w: nat)
    requires InvAt(s, w) && s.sw.Idle? && RxPktSize(s.desc[w].status) != 0
    ensures Takes(s).Happened? && CursorsAt(Takes(s).state, s.lay.Next(w))
    ensures |Pending(s)| > 0 && Pending(Takes(s).state) == Pending(s)[1..]
  {
    s.lay.Resolves(w);
    assert DescriptorOk(s, w, Dist(w, w, s.lay.n), Pending(s));
    assert Pending(s)[0] == s.arrived[|s.handed|];
  }

  lemma TakeDescriptor(s: State, w: nat, i: nat)
    requires s.Typed() && LogOk(s) && w < s.lay.n && i < s.lay.n
    requires |Pending(s)| + Held(s) <= s.lay.n && |Pending(s)| > 0
    requires s.macPhase.Stamped? ==> |Pending(s)| < s.lay.n
    requires Takes(s).Happened? && |s.handed| + 1 <= |s.arrived| && Pending(Takes(s).state) == Pending(s)[1..]
    requires DescriptorOk(s, i, Dist(w, i, s.lay.n), Pending(s))
    ensures DescriptorOk(Takes(s).state, i, Dist(s.lay.Next(w), i, s.lay.n), Pending(Takes(s).state))
  {
    var s' := Takes(s).state;
    assert s'.desc == s.desc && s'.memory == s.memory;
    if i == w {
      assert Dist(s.lay.Next(w), i, s.lay.n) == s.lay.n - 1;
    } else {
      assert Dist(s.lay.Next(w), i, s.lay.n) == Dist(w, i, s.lay.n) - 1;
    }
  }

  lemma CopySafe(s: State, w: nat, granted: bool)
    requires InvAt(s, w)
    ensures !Copies(s, granted).Fault? && (Copies(s, granted).Happened? ==> InvAt(Copies(s, granted).state, w))
  {
    var n, pending := s.lay.n, Pending(s);
    s.lay.Resolves(At(w, n - 1, n));
    if s.sw.Taken? {
      var s' := Copies(s, granted).state;
      forall i | 0 <= i < n
        ensures DescriptorOk(s', i, Dist(w, i, n), Pending(s'))
      {
        assert DescriptorOk(s, i, Dist(w, i, n), pending);
      }
    }
  }

  lemma RestoreSafe(s: State, w: nat)
    requires InvAt(s, w)
    ensures !Restores(s).Fault? && (Restores(s).Happened? ==> InvAt(Restores(s).state, w))
  {
    if s.sw.Copied? {
      RestoreCursors(s, w);
      OthersStay(s, Restores(s).state, w);
    }
  }

  /** The clean-up reads the frame's own time stamp and puts the addresses back. */
  lemma RestoreEffect(s: State, t: nat)
    requires s.Typed() && ShadowIntact(s) && t < s.lay.n && |s.handed| + Held(s) <= |s.arrived|
    requires SoftwareOk(s, t) && s.sw.Copied?
    ensures var f := s.arrived[|s.handed|];
      Restores(s) == Happened(s.(
        sw := Restored(s.sw.frame, s.sw.p, f.seconds, SubSecond2NanoSecond(f.subseconds)),
        desc := s.desc[t := Descriptor(f.Written(), s.lay.Buffer(t), s.lay.Desc(s.lay.Next(t)))]))
  {
  }

  lemma RestoreCursors(s: State, w: nat)
    requires CursorsAt(s, w) && s.sw.Copied?
    ensures Restores(s).Happened? && CursorsAt(Restores(s).state, w)
    ensures SameButHeld(s, Restores(s).state, At(w, s.lay.n - 1, s.lay.n))
    ensures Held(Restores(s).state) == 1 && Pending(Restores(s).state) == Pending(s)
  {
    RestoreEffect(s, At(w, s.lay.n - 1, s.lay.n));
  }

  /** Nothing but the descriptor the driver holds differs. */
  predicate SameButHeld(s: State, s': State, t: nat)
    requires s.Typed() && s'.Typed() && t < s.lay.n
  {
    && s'.lay == s.lay && s'.memory == s.memory && s'.shadow == s.shadow
    && s'.arrived == s.arrived && s'.macPhase == s.macPhase
    && forall i | 0 <= i < s.lay.n && i != t :: s'.desc[i] == s.desc[i]
  }

  lemma OthersStay(s: State, s': State, w: nat)
    requires InvAt(s, w) && CursorsAt(s', w) && Held(s) == 1 && Pending(s') == Pending(s)
    requires SameButHeld(s, s', At(w, s.lay.n - 1, s.lay.n))
    requires Held(s') == 1 || (s'.desc[At(w, s.lay.n - 1, s.lay.n)].status.own && AddressesIntact(s', At(w, s.lay.n - 1, s.lay.n)))
    ensures InvAt(s', w)
  {
  }

  lemma GiveBackSafe(s: State, w: nat)
    requires InvAt(s, w)
    ensures !GivesBack(s).Fault? && (GivesBack(s).Happened? ==> InvAt(GivesBack(s).state, w))
  {
    if s.sw.Restored? {
      GiveBackCursors(s, w);
      OthersStay(s, GivesBack(s).state, w);
    }
  }

  lemma GiveBackCursors(s: State, w: nat)
    requires CursorsAt(s, w) && s.sw.Restored?
    ensures GivesBack(s).Happened? && CursorsAt(GivesBack(s).state, w)
    ensures SameButHeld(s, GivesBack(s).state, At(w, s.lay.n - 1, s.lay.n))
    ensures Pending(GivesBack(s).state) == Pending(s)
    ensures var t := At(w, s.lay.n - 1, s.lay.n);
      GivesBack(s).state.desc[t].status.own && AddressesIntact(GivesBack(s).state, t)
  {
    s.lay.Resolves(At(w, s.lay.n - 1, s.lay.n));
  }

  lemma StepSafe(s: State, step: Step)
    requires Inv(s)
    ensures !Do(s, step).Fault? && (Do(s, step).Happened? ==> Inv(Do(s, step).state))
  {
    var w: nat :| InvAt(s, w);
    match step
    case MacFill(f) => MacFillSafe(s, w, f);
    case MacStamp => MacStampSafe(s, w);
    case MacRelease => MacReleaseSafe(s, w);
    case SwTake => TakeSafe(s, w);
    case SwCopy(granted) => CopySafe(s, w, granted);
    case SwRestore => RestoreSafe(s, w);
    case SwGiveBack => GiveBackSafe(s, w);
  }

  // ---------------------------------------------------------------------------------------------
  // Runs

  /** Any interleaving: a step that must wait is passed over; a fault ends the run. */
  function Run(s: State, steps: seq<Step>): (r: Option<State>)
    requires s.Typed()
    ensures r.Some? ==> r.value.Typed()
    decreases |steps|
  {
    if |steps| == 0 then Some(s)
    else match Do(s, steps[0])
      case Happened(s') => Run(s', steps[1..])
      case Waits => Run(s, steps[1..])
      case Fault => None
  }

  /** The state that `ETH_DMAPTPRxDescChainInit` leaves. */
  ghost predicate Initial(s: State) {
    && s.Typed() && ShadowIntact(s)
    && s.toGet == s.mac == s.lay.Desc(0) && s.ptpToGet == s.lay.Shadow(0)
    && s.macPhase == Waiting && s.sw == Idle && s.arrived == [] && s.handed == []
    && forall i | 0 <= i < s.lay.n :: s.desc[i].status.own && AddressesIntact(s, i)
  }

  lemma InitialInv(s: State)
    requires Initial(s)
    ensures Inv(s)
  {
    assert InvAt(s, 0);
  }

  /** No interleaving makes the MAC or the driver follow a time stamp as an address. */
  lemma {:induction false} RunSafe(s: State, steps: seq<Step>)
    requires Inv(s)
    ensures Run(s, steps).Some? && Inv(Run(s, steps).value)
    decreases |steps|
  {
    if |steps| > 0 {
      StepSafe(s, steps[0]);
      match Do(s, steps[0])
      case Happened(s') => RunSafe(s', steps[1..]);
      case Waits => RunSafe(s, steps[1..]);
      case Fault =>
    }
  }

  /** Going round from the software cursors at w, the CPU's descriptors are the pending ones and
      the one the driver holds; all others are the MAC's. */
  ghost predicate OwnershipWindow(s: State, w: nat)
    requires s.Typed() && w < s.lay.n && |s.handed| + Held(s) <= |s.arrived|
  {
    forall d | 0 <= d < s.lay.n ::
      !s.desc[At(w, d, s.lay.n)].status.own <==> d < |Pending(s)| || (!s.sw.Idle? && d == s.lay.n - 1)
  }

  /** A descriptor of the MAC has its addresses, unless the MAC has just stamped it. */
  predicate OwnedAreIntact(s: State)
    requires s.Typed()
  {
    forall i | 0 <= i < s.lay.n && s.desc[i].status.own ::
      AddressesIntact(s, i) || (s.macPhase.Stamped? && s.mac == s.lay.Desc(i))
  }

  lemma WindowOf(s: State, w: nat)
    requires InvAt(s, w)
    ensures OwnershipWindow(s, w)
  {
    forall d | 0 <= d < s.lay.n
      ensures !s.desc[At(w, d, s.lay.n)].status.own <==> d < |Pending(s)| || (!s.sw.Idle? && d == s.lay.n - 1)
    {
      assert Dist(w, At(w, d, s.lay.n), s.lay.n) == d;
      assert DescriptorOk(s, At(w, d, s.lay.n), d, Pending(s));
    }
  }

  lemma IntactIn(s: State, w: nat)
    requires InvAt(s, w)
    ensures OwnedAreIntact(s)
  {
    forall i | 0 <= i < s.lay.n && s.desc[i].status.own
      ensures AddressesIntact(s, i) || (s.macPhase.Stamped? && s.mac == s.lay.Desc(i))
    {
      assert DescriptorOk(s, i, Dist(w, i, s.lay.n), Pending(s));
      assert i == At(w, Dist(w, i, s.lay.n), s.lay.n);
    }
  }

  /** What every reachable state shows. No step has faulted; the two software cursors point at the
      same index w, where the CPU's descriptors begin; the MAC's have their addresses. The frames
      handed up are the first ones that arrived, each once, in order, whole and with its own
      time stamp, or dropped. */
  lemma ReachableStates(s: State, steps: seq<Step>) returns (w: nat)
    requires Initial(s)
    ensures Run(s, steps).Some?
    ensures var s' := Run(s, steps).value;
      && CursorsAt(s', w) && OwnershipWindow(s', w) && OwnedAreIntact(s')
      && |s'.handed| <= |s'.arrived|
      && (forall k | 0 <= k < |s'.handed| :: s'.arrived[k].Whole() && (s'.handed[k] == Dropped || s'.handed[k] == HandedFor(s'.arrived[k])))
  {
    InitialInv(s);
    RunSafe(s, steps);
    var s' := Run(s, steps).value;
    w :| InvAt(s', w);
    WindowOf(s', w);
    IntactIn(s', w);
  }

  // ---------------------------------------------------------------------------------------------
  // Nothing is lost

  predicate NothingDropped(s: State) {
    && (forall k | 0 <= k < |s.handed| :: s.handed[k] != Dropped)
    && (s.sw.Copied? || s.sw.Restored? ==> s.sw.p.Some?)
  }

  lemma StepDropsNothing(s: State, step: Step)
    requires s.Typed() && NothingDropped(s) && step != SwCopy(false)
    ensures Do(s, step).Happened? ==> NothingDropped(Do(s, step).state)
  {
  }

  /** If no `pbuf_alloc` of a run fails, nothing is dropped in it. */
  lemma {:induction false} NothingDroppedWithMemory(s: State, steps: seq<Step>)
    requires Inv(s) && NothingDropped(s)
    requires forall k | 0 <= k < |steps| :: steps[k] != SwCopy(false)
    ensures Run(s, steps).Some? && NothingDropped(Run(s, steps).value)
    decreases |steps|
  {
    if |steps| > 0 {
      StepSafe(s, steps[0]);
      StepDropsNothing(s, steps[0]);
      match Do(s, steps[0])
      case Happened(s') => NothingDroppedWithMemory(s', steps[1..]);
      case Waits => NothingDroppedWithMemory(s, steps[1..]);
      case Fault =>
    }
  }

  /** Whether the `pbuf_alloc` of a run for frame k succeeded: the copy that happened when k frames
      had been handed up. */
  function AllocationFor(s: State, steps: seq<Step>, k: nat): Option<bool>
    requires s.Typed()
    decreases |steps|
  {
    if |steps| == 0 then None
    else match Do(s, steps[0])
      case Happened(s') =>
        if steps[0].SwCopy? && |s.handed| == k then Some(steps[0].granted) else AllocationFor(s', steps[1..], k)
      case Waits => AllocationFor(s, steps[1..], k)
      case Fault => None
  }

  /** The driver has copied, or failed to copy, the frame it holds. */
  predicate HasCopied(s: State) {
    s.sw.Copied? || s.sw.Restored?
  }

  lemma StepKeepsHanded(s: State, step: Step)
    requires s.Typed() && Do(s, step).Happened?
    ensures var s' := Do(s, step).state;
      && s.handed <= s'.handed
      && (|s'.handed| > |s.handed| ==>
            HasCopied(s) && |s'.handed| == |s.handed| + 1 && !HasCopied(s') && (s'.handed[|s.handed|] == Dropped <==> s.sw.p.None?))
      && (|s'.handed| == |s.handed| ==>
            if HasCopied(s) then HasCopied(s') && s'.sw.p == s.sw.p
            else HasCopied(s') <==> step.SwCopy?)
      && (step.SwCopy? ==> |s'.handed| == |s.handed| && HasCopied(s') && (s'.sw.p.Some? <==> step.granted))
  {
  }

  lemma {:induction false} RunKeepsHanded(s: State, steps: seq<Step>)
    requires s.Typed() && Run(s, steps).Some?
    ensures s.handed <= Run(s, steps).value.handed
    decreases |steps|
  {
    if |steps| > 0 {
      match Do(s, steps[0])
      case Happened(s') =>
        StepKeepsHanded(s, steps[0]);
        RunKeepsHanded(s', steps[1..]);
      case Waits => RunKeepsHanded(s, steps[1..]);
      case Fault =>
    }
  }

  /** What was copied is what is handed up. */
  lemma {:induction false} CopiedIsHanded(s: State, steps: seq<Step>)
    requires s.Typed() && Run(s, steps).Some? && HasCopied(s)
    requires |s.handed| < |Run(s, steps).value.handed|
    ensures Run(s, steps).value.handed[|s.handed|] == Dropped <==> s.sw.p.None?
    decreases |steps|
  {
    match Do(s, steps[0])
    case Happened(s') =>
      StepKeepsHanded(s, steps[0]);
      if |s'.handed| == |s.handed| {
        CopiedIsHanded(s', steps[1..]);
      } else {
        RunKeepsHanded(s', steps[1..]);
      }
    case Waits => CopiedIsHanded(s, steps[1..]);
    case Fault =>
  }

  lemma {:induction false} DroppedExactly(s: State, steps: seq<Step>, k: nat)
    requires s.Typed() && Run(s, steps).Some?
    requires |s.handed| <= k < |Run(s, steps).value.handed| && (HasCopied(s) ==> |s.handed| < k)
    ensures AllocationFor(s, steps, k).Some?
    ensures Run(s, steps).value.handed[k] == Dropped <==> AllocationFor(s, steps, k) == Some(false)
    decreases |steps|
  {
    match Do(s, steps[0])
    case Happened(s') =>
      StepKeepsHanded(s, steps[0]);
      if steps[0].SwCopy? && |s.handed| == k {
        CopiedIsHanded(s', steps[1..]);
      } else {
        DroppedExactly(s', steps[1..], k);
      }
    case Waits => DroppedExactly(s, steps[1..], k);
    case Fault =>
  }

  /** In every run, each frame on its own: it is dropped exactly when the `pbuf_alloc` for it failed,
      and otherwise handed up whole with its own time stamp. */
  lemma DropsOnlyWithoutMemory(s: State, steps: seq<Step>, k: nat)
    requires Initial(s) && Run(s, steps).Some? && k < |Run(s, steps).value.handed|
    ensures var s' := Run(s, steps).value;
      match AllocationFor(s, steps, k)
      case Some(granted) => k < |s'.arrived| && s'.handed[k] == if granted then HandedFor(s'.arrived[k]) else Dropped
      case None => false
  {
    var w := ReachableStates(s, steps);
    DroppedExactly(s, steps, k);
  }

  /** The next step of the driver. */
  function NextSw(s: State): Step {
    match s.sw
    case Idle => SwTake
    case Taken(_) => SwCopy(true)
    case Copied(_, _) => SwRestore
    case Restored(_, _, _, _) => SwGiveBack
  }

  function Work(s: State): nat
    requires |s.handed| + Held(s) <= |s.arrived|
  {
    4 * |Pending(s)| + match s.sw case Idle => 0 case Taken(_) => 3 case Copied(_, _) => 2 case Restored(_, _, _, _) => 1
  }

  predicate AllGood(s: State) {
    forall k | 0 <= k < |s.arrived| :: s.arrived[k].Whole()
  }

  /** The driver has less left to do, and the MAC's side is as it was. */
  predicate Advanced(s: State, s': State) {
    && |s.handed| + Held(s) <= |s.arrived| && |s'.handed| + Held(s') <= |s'.arrived|
    && s'.arrived == s.arrived && s'.macPhase == s.macPhase
    && Work(s') < Work(s)
  }

  lemma TakeProgresses(s: State, w: nat)
    requires InvAt(s, w) && AllGood(s) && s.sw.Idle? && |Pending(s)| > 0
    ensures Takes(s).Happened? && Advanced(s, Takes(s).state)
  {
    s.lay.Resolves(w);
    assert DescriptorOk(s, w, Dist(w, w, s.lay.n), Pending(s));
    assert Pending(s)[0] == s.arrived[|s.handed|];
    TakeCursors(s, w);
  }

  lemma HeldProgresses(s: State, w: nat)
    requires CursorsAt(s, w) && !s.sw.Idle?
    ensures var o := Do(s, NextSw(s)); o.Happened? && Advanced(s, o.state)
  {
    s.lay.Resolves(At(w, s.lay.n - 1, s.lay.n));
  }

  lemma DriverProgresses(s: State)
    requires Inv(s) && AllGood(s) && Work(s) > 0
    ensures var o := Do(s, NextSw(s));
      o.Happened? && Inv(o.state) && Advanced(s, o.state)
  {
    StepSafe(s, NextSw(s));
    var w: nat :| InvAt(s, w);
    if s.sw.Idle? {
      TakeProgresses(s, w);
    } else {
      HeldProgresses(s, w);
    }
  }

  /** The steps of a driver that finds memory for every frame. */
  predicate IsDriver(step: Step) {
    step == SwTake || step == SwCopy(true) || step == SwRestore || step == SwGiveBack
  }

  predicate AllDriver(steps: seq<Step>) {
    forall k | 0 <= k < |steps| :: IsDriver(steps[k])
  }

  /** Every descriptor is the MAC's, with its addresses unless the MAC has just stamped it. */
  predicate AllReturned(s: State)
    requires s.Typed()
  {
    (forall i | 0 <= i < s.lay.n :: s.desc[i].status.own) && OwnedAreIntact(s)
  }

  lemma IdleRingIsReturned(s: State)
    requires Inv(s) && s.sw.Idle? && |s.handed| == |s.arrived|
    ensures AllReturned(s)
  {
    var w: nat :| InvAt(s, w);
    IntactIn(s, w);
    forall i | 0 <= i < s.lay.n
      ensures s.desc[i].status.own
    {
      assert DescriptorOk(s, i, Dist(w, i, s.lay.n), Pending(s));
    }
  }

  /** From any state with good frames, driver steps alone hand up every frame that arrived, each
      whole and with its own time stamp unless it was dropped before, and return every descriptor
      to the MAC, wherever the MAC is. */
  lemma Drain(s: State) returns (steps: seq<Step>)
    requires Inv(s) && AllGood(s)
    ensures AllDriver(steps) && Run(s, steps).Some?
    ensures var s' := Run(s, steps).value;
      && Inv(s') && s'.sw.Idle? && AllReturned(s')
      && |s'.handed| == |s.arrived| && s'.arrived == s.arrived
      && (s.macPhase.Waiting? ==> forall i | 0 <= i < s'.lay.n :: AddressesIntact(s', i))
      && (NothingDropped(s) ==> forall k | 0 <= k < |s.arrived| :: s'.handed[k] == HandedFor(s.arrived[k]))
  {
    steps := DrainSteps(s);
    var s' := Run(s, steps).value;
    IdleRingIsReturned(s');
    if NothingDropped(s) {
      NothingDroppedWithMemory(s, steps);
      var w: nat :| InvAt(s', w);
    }
  }

  lemma DrainSteps(s: State) returns (steps: seq<Step>)
    requires Inv(s) && AllGood(s)
    ensures AllDriver(steps) && Run(s, steps).Some?
    ensures var s' := Run(s, steps).value;
      Inv(s') && s'.sw.Idle? && |s'.handed| == |s.arrived| && s'.arrived == s.arrived && s'.macPhase == s.macPhase
    decreases Work(s)
  {
    if Work(s) == 0 {
      steps := [];
    } else {
      DriverProgresses(s);
      var rest := DrainSteps(Do(s, NextSw(s)).state);
      steps := [NextSw(s)] + rest;
      assert steps[1..] == rest;
    }
  }

  lemma {:induction false} DriverHearsNothing(s: State, steps: seq<Step>)
    requires s.Typed() && AllDriver(steps) && Run(s, steps).Some?
    ensures Run(s, steps).value.arrived == s.arrived
    decreases |steps|
  {
    if |steps| > 0 {
      assert IsDriver(steps[0]);
      match Do(s, steps[0])
      case Happened(s') => DriverHearsNothing(s', steps[1..]);
      case Waits => DriverHearsNothing(s, steps[1..]);
      case Fault =>
    }
  }

  /** These driver steps hand up every frame that has arrived. */
  predicate Drains(s: State, steps: seq<Step>)
    requires s.Typed()
  {
    AllDriver(steps) && Run(s, steps).Some? && |Run(s, steps).value.handed| == |s.arrived|
  }

  /** The driver can hand up what has arrived exactly when every frame is whole and without errors. */
  lemma DrainsExactlyGoodFrames(s: State)
    requires Inv(s)
    ensures (exists steps :: Drains(s, steps)) <==> AllGood(s)
  {
    if AllGood(s) {
      var steps := Drain(s);
      assert Drains(s, steps);
    }
    if steps :| Drains(s, steps) {
      RunSafe(s, steps);
      DriverHearsNothing(s, steps);
      var s' := Run(s, steps).value;
      var w: nat :| InvAt(s', w);
      assert LogOk(s');
    }
  }

  /** The size that the handler asks for is not 0 exactly when the oldest frame not taken yet is whole
      and without errors; then it is that frame's, with its CRC. */
  lemma SizeTellsOldestFrame(s: State, w: nat)
    requires InvAt(s, w) && s.sw.Idle?
    ensures s.lay.DescAt(s.toGet) == Some(w)
    ensures var size := RxPktSize(s.desc[w].status);
      && (size != 0 <==> |s.handed| < |s.arrived| && s.arrived[|s.handed|].Whole())
      && (size != 0 ==> size == |s.arrived[|s.handed|].bytes| + 4)
  {
    s.lay.Resolves(w);
    assert DescriptorOk(s, w, Dist(w, w, s.lay.n), Pending(s));
    assert |Pending(s)| > 0 ==> Pending(s)[0] == s.arrived[|s.handed|];
  }

  // ---------------------------------------------------------------------------------------------
  // An erroneous frame

  /** The frame at the software cursor is one that `ETH_GetRxPktSize` reports as empty. */
  predicate BadFrameFirst(s: State) {
    s.sw.Idle? && |s.handed| < |s.arrived| && !s.arrived[|s.handed|].Whole()
  }

  lemma StepStalls(s: State, w: nat, step: Step)
    requires InvAt(s, w) && BadFrameFirst(s)
    ensures Do(s, step).Happened? ==> BadFrameFirst(Do(s, step).state) && Do(s, step).state.handed == s.handed
  {
    s.lay.Resolves(w);
    assert DescriptorOk(s, w, Dist(w, w, s.lay.n), Pending(s));
    assert Pending(s)[0] == s.arrived[|s.handed|];
    assert Takes(s).Waits?;
  }

  /** Any bad frame that fits a buffer brings the ring there: the MAC fills, stamps and releases
      the first descriptor with it. */
  lemma BadFrameArrives(s: State, f: Frame)
    requires Initial(s) && f.Fits() && !f.Whole()
    ensures Run(s, [MacFill(f), MacStamp, MacRelease]).Some?
    ensures var s' := Run(s, [MacFill(f), MacStamp, MacRelease]).value;
      Inv(s') && BadFrameFirst(s') && s'.arrived == [f]
  {
    s.lay.Resolves(0);
    InitialInv(s);
    assert AddressesIntact(s, 0) && s.desc[0].status.own;
    var s1 := MacFills(s, f).state;
    var s2 := MacStamps(s1).state;
    var steps := [MacFill(f), MacStamp, MacRelease];
    assert steps[1..][1..] == [MacRelease] && steps[1..] == [MacStamp, MacRelease] && [MacRelease][1..] == [];
    assert Run(s, steps) == Run(s1, [MacStamp, MacRelease]) == Run(s2, [MacRelease]) == Some(MacReleases(s2).state);
    RunSafe(s, steps);
  }

  /** Nothing skips such a frame: from then on no frame is handed up, however many arrive. */
  lemma {:induction false} BadFrameStalls(s: State, steps: seq<Step>)
    requires Inv(s) && BadFrameFirst(s)
    ensures Run(s, steps).Some? && Run(s, steps).value.handed == s.handed
    decreases |steps|
  {
    if |steps| > 0 {
      StepSafe(s, steps[0]);
      var w: nat :| InvAt(s, w);
      StepStalls(s, w, steps[0]);
      match Do(s, steps[0])
      case Happened(s') => BadFrameStalls(s', steps[1..]);
      case Waits => BadFrameStalls(s, steps[1..]);
      case Fault =>
    }
  }
}
