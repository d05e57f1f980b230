/** The receive path of lwip-1.3.1/port/ethernetif.c as it runs on the descriptor tables, with
    the MAC at work between its steps. */
module RxDriver {
  import opened CInt
  import opened HardwareClock
  import opened RxRing

  function Flatten(chain: seq<seq<Octet>>): seq<Octet> {
    if |chain| == 0 then [] else Flatten(chain[..|chain| - 1]) + chain[|chain| - 1]
  }

  function Total(lens: seq<nat>): nat {
    if |lens| == 0 then 0 else Total(lens[..|lens| - 1]) + lens[|lens| - 1]
  }

  lemma {:induction false} TotalTake(lens: seq<nat>, k: nat)
    requires k <= |lens|
    ensures Total(lens[..k]) <= Total(lens)
    ensures k < |lens| ==> Total(lens[..k + 1]) == Total(lens[..k]) + lens[k]
    decreases |lens| - k
  {
    if k < |lens| {
      assert lens[..k + 1][..k] == lens[..k];
      TotalTake(lens, k + 1);
    } else {
      assert lens[..k] == lens;
    }
  }

  lemma {:induction false} RunAppend(s: RxRing.State, a: seq<Step>, b: seq<Step>)
    requires s.Typed() && Run(s, a).Some?
    ensures Run(s, a + b) == Run(Run(s, a).value, b)
    decreases |a|
  {
    if |a| == 0 {
      assert a + b == b;
    } else {
      assert (a + b)[1..] == a[1..] + b;
      match Do(s, a[0])
      case Happened(s') => RunAppend(s', a[1..], b);
      case Waits => RunAppend(s, a[1..], b);
      case Fault =>
    }
  }

  lemma Join(s: RxRing.State, a: seq<Step>, s': RxRing.State, b: seq<Step>, s'': RxRing.State)
    requires s.Typed() && s'.Typed() && Run(s, a) == Some(s') && Run(s', b) == Some(s'')
    ensures Run(s, a + b) == Some(s'')
  {
    RunAppend(s, a, b);
  }

  lemma AfterStep(s: RxRing.State, step: Step)
    requires Inv(s) && Do(s, step).Happened?
    ensures Inv(Do(s, step).state) && Run(s, [step]) == Some(Do(s, step).state)
  {
    StepSafe(s, step);
    RunOne(s, [], step);
  }

  lemma RunOne(s: RxRing.State, a: seq<Step>, step: Step)
    requires s.Typed() && Run(s, a).Some? && Do(Run(s, a).value, step).Happened?
    ensures Run(s, a + [step]) == Some(Do(Run(s, a).value, step).state)
  {
    RunAppend(s, a, [step]);
  }

  /** A pbuf with its payload chain and its time stamp. */
  datatype Pbuf = Pbuf(payloads: seq<seq<Octet>>, seconds: UInt32, nanoseconds: UInt32)

  predicate IsMac(step: Step) {
    step.MacFill? || step.MacStamp? || step.MacRelease?
  }

  predicate AllMac(steps: seq<Step>) {
    forall k | 0 <= k < |steps| :: IsMac(steps[k])
  }

  class RxDriver {
    const lay: Layout
    const desc: array<Descriptor>
    const shadow: array<ShadowDescriptor>
    const memory: array<seq<Octet>>
    var toGet: nat
    var ptpToGet: nat
    var mac: nat
    var macPhase: MacPhase
    ghost var sw: Software
    ghost var arrived: seq<Frame>
    ghost var handed: seq<Handed>

    ghost function State(): RxRing.State
      reads this, desc, shadow, memory
    {
      RxRing.State(lay, desc[..], shadow[..], memory[..], toGet, ptpToGet, mac, macPhase, sw, arrived, handed)
    }

    predicate Tables() {
      && desc.Length == shadow.Length == memory.Length == lay.n && lay.Ok()
      && desc as object != shadow as object && desc as object != memory as object && shadow as object != memory as object
    }

    /** `ETH_DMAPTPRxDescChainInit` on zeroed shadow descriptors. */
    constructor (lay: Layout, desc: array<Descriptor>, shadow: array<ShadowDescriptor>, memory: array<seq<Octet>>)
      requires desc.Length == shadow.Length == memory.Length == lay.n && lay.Ok()
      requires desc as object != shadow as object && desc as object != memory as object && shadow as object != memory as object
      requires forall k | 0 <= k < lay.n :: |memory[k]| == ETH_MAX_PACKET_SIZE
      requires forall k | 0 <= k < lay.n :: shadow[k].status == 0
      modifies desc, shadow
      ensures this.desc == desc && this.shadow == shadow && this.memory == memory && this.lay == lay && Tables()
      ensures Initial(State())
    {
      this.lay, this.desc, this.shadow, this.memory := lay, desc, shadow, memory;
      toGet, ptpToGet, mac, macPhase := lay.descTab, lay.shadowTab, lay.descTab, Waiting;
      sw, arrived, handed := Idle, [], [];
      new;
      var i := 0;
      while i < lay.n
        invariant 0 <= i <= lay.n
        invariant toGet == mac == lay.Desc(0) && ptpToGet == lay.Shadow(0)
        invariant macPhase == Waiting && sw == Idle && arrived == [] && handed == []
        invariant forall k | 0 <= k < lay.n :: |memory[k]| == ETH_MAX_PACKET_SIZE
        invariant forall k | 0 <= k < i ::
          desc[k] == Descriptor(OWN, lay.Buffer(k), lay.Desc(lay.Next(k))) && shadow[k] == ShadowDescriptor(0, lay.Buffer(k), lay.Desc(lay.Next(k)))
        invariant forall k | i <= k < lay.n :: shadow[k].status == 0
      {
        desc[i] := desc[i].(status := OWN);
        desc[i] := desc[i].(buffer1Addr := lay.buffers + i * ETH_MAX_PACKET_SIZE);
        if i < lay.n - 1 {
          desc[i] := desc[i].(buffer2NextDescAddr := lay.descTab + DESCRIPTOR_SIZE * (i + 1));
        } else {
          desc[i] := desc[i].(buffer2NextDescAddr := lay.descTab);
        }
        shadow[i] := shadow[i].(buffer1Addr := desc[i].buffer1Addr, buffer2NextDescAddr := desc[i].buffer2NextDescAddr);
        i := i + 1;
      }
      shadow[i - 1] := shadow[i - 1].(status := lay.shadowTab);
    }

    // The hardware -------------------------------------------------------------------------------

    method MacStep(step: Step)
      requires Tables() && State().Typed() && IsMac(step) && !Do(State(), step).Fault?
      modifies this`mac, this`macPhase, this`arrived, desc, memory
      ensures State() == (match Do(old(State()), step) case Happened(s) => s case _ => old(State()))
    {
      match step {
        case MacFill(f) =>
          if macPhase.Waiting? && f.Fits() {
            var i := lay.DescAt(mac).value;
            if desc[i].status.own {
              var b := lay.BufferAt(desc[i].buffer1Addr).value;
              memory[b] := f.bytes + memory[b][|f.bytes|..];
              macPhase := Filled(f, desc[i].buffer2NextDescAddr);
            }
          }
        case MacStamp =>
          if macPhase.Filled? {
            var i := lay.DescAt(mac).value;
            var f := macPhase.frame;
            desc[i] := desc[i].(buffer1Addr := f.subseconds, buffer2NextDescAddr := f.seconds);
            macPhase := Stamped(f, macPhase.next);
          }
        case MacRelease =>
          if macPhase.Stamped? {
            var i := lay.DescAt(mac).value;
            var f := macPhase.frame;
            desc[i] := desc[i].(status := f.Written());
            arrived := arrived + [f];
            mac := macPhase.next;
            macPhase := Waiting;
          }
        case _ =>
          assert false;
      }
    }

    /** Whatever the MAC does between two steps of the driver. */
    method MacSteps(steps: seq<Step>)
      requires Tables() && Inv(State()) && AllMac(steps)
      modifies this`mac, this`macPhase, this`arrived, desc, memory
      ensures Run(old(State()), steps) == Some(State()) && Inv(State())
      ensures old(arrived) <= arrived
    {
      ghost var s := State();
      var k := 0;
      while k < |steps|
        invariant 0 <= k <= |steps|
        invariant Inv(State()) && Run(s, steps) == Run(State(), steps[k..])
        invariant old(arrived) <= arrived
      {
        StepSafe(State(), steps[k]);
        MacStep(steps[k]);
        k := k + 1;
      }
    }

    // The driver ---------------------------------------------------------------------------------

    /** `ETH_GetRxPktSize`. Between two calls of the driver it is the size with CRC of the oldest frame
        not handed up yet, if that is whole and without errors, and 0 otherwise. */
    method GetRxPktSize() returns (size: nat)
      requires Tables() && lay.DescAt(toGet).Some?
      ensures size == RxPktSize(desc[lay.DescAt(toGet).value].status)
      ensures Inv(State()) && sw.Idle? ==>
                && (size != 0 <==> |handed| < |arrived| && arrived[|handed|].Whole())
                && (size != 0 ==> size == |arrived[|handed|].bytes| + 4)
    {
      ghost var s := State();
      if Inv(s) && sw.Idle? {
        var w: nat :| InvAt(s, w);
        SizeTellsOldestFrame(s, w);
      }
      var status := desc[lay.DescAt(toGet).value].status;
      size := 0;
      if !status.own && !status.errorSummary && status.last && status.first {
        size := status.frameLength;
      }
    }

    /** `ETH_PTPRxPkt_ChainMode` */
    method RxPktChainMode() returns (frame: FrameType)
      requires Tables() && Inv(State()) && Takes(State()).Happened?
      modifies this`toGet, this`ptpToGet, this`sw
      ensures Run(old(State()), [SwTake]) == Some(State()) && Inv(State()) && sw == Taken(frame)
      ensures frame.length == (RxPktSize(desc[lay.DescAt(old(toGet)).value].status) - 4) % 0x1_0000
    {
      ghost var s := State();
      var d, p := desc[lay.DescAt(toGet).value], shadow[lay.ShadowAt(ptpToGet).value];
      frame := FrameType((d.status.frameLength - 4) % 0x1_0000, p.buffer1Addr, toGet, ptpToGet);
      toGet := p.buffer2NextDescAddr;
      if p.status != 0 {
        ptpToGet := p.status;
      } else {
        ptpToGet := ptpToGet + DESCRIPTOR_SIZE;
      }
      sw := Taken(frame);
      AfterStep(s, SwTake);
    }

    /** The copy loop over the pbuf chain. */
    method CopyOut(frame: FrameType, lens: seq<nat>) returns (payloads: seq<seq<Octet>>)
      requires Tables() && State().Typed() && lay.BufferAt(frame.buffer).Some?
      requires Total(lens) == frame.length <= ETH_MAX_PACKET_SIZE
      ensures Flatten(payloads) == memory[lay.BufferAt(frame.buffer).value][..frame.length]
      ensures |payloads| == |lens| && forall q | 0 <= q < |lens| :: |payloads[q]| == lens[q]
    {
      var buffer := memory[lay.BufferAt(frame.buffer).value];
      payloads := [];
      var l, q := 0, 0;
      while q < |lens|
        invariant 0 <= q == |payloads| <= |lens|
        invariant l == Total(lens[..q]) <= frame.length
        invariant Flatten(payloads) == buffer[..l]
        invariant forall r | 0 <= r < q :: |payloads[r]| == lens[r]
      {
        TotalTake(lens, q);
        TotalTake(lens, q + 1);
        assert (payloads + [buffer[l..l + lens[q]]])[..q] == payloads;
        payloads := payloads + [buffer[l..l + lens[q]]];
        l := l + lens[q];
        q := q + 1;
      }
      assert lens[..q] == lens;
    }

    /** `pbuf_alloc` and the copy; `chain` holds the lengths of the pbufs it returns, or nothing
        when it returns NULL. */
    method AllocateAndCopy(frame: FrameType, chain: Option<seq<nat>>) returns (payloads: seq<seq<Octet>>)
      requires Tables() && Inv(State()) && sw == Taken(frame)
      requires chain.Some? ==> Total(chain.value) == frame.length
      modifies this`sw
      ensures Run(old(State()), [SwCopy(chain.Some?)]) == Some(State()) && Inv(State())
      ensures sw == Copied(frame, if chain.Some? then Some(Flatten(payloads)) else None)
      ensures chain.Some? ==> |handed| < |arrived| && Flatten(payloads) == arrived[|handed|].bytes
    {
      ghost var s := State();
      TakenFrame(s);
      payloads := [];
      if chain.Some? {
        payloads := CopyOut(frame, chain.value);
      }
      sw := Copied(frame, if chain.Some? then Some(Flatten(payloads)) else None);
      AfterStep(s, SwCopy(chain.Some?));
    }

    /** `ETH_PTPRxPkt_ChainMode_CleanUp` */
    method RestoreAddresses(frame: FrameType, ghost p: Option<seq<Octet>>) returns (seconds: UInt32, nanoseconds: UInt32)
      requires Tables() && Inv(State()) && sw == Copied(frame, p)
      modifies this`sw, desc
      ensures Run(old(State()), [SwRestore]) == Some(State()) && Inv(State())
      ensures sw == Restored(frame, p, seconds, nanoseconds)
      ensures |handed| < |arrived| && seconds == arrived[|handed|].seconds
      ensures nanoseconds == SubSecond2NanoSecond(arrived[|handed|].subseconds)
    {
      ghost var s := State();
      CopiedFrame(s);
      var i, j := lay.DescAt(frame.descriptor).value, lay.ShadowAt(frame.ptpDescriptor).value;
      nanoseconds := SubSecond2NanoSecond(U32(desc[i].buffer1Addr));
      seconds := U32(desc[i].buffer2NextDescAddr);
      desc[i] := desc[i].(buffer1Addr := shadow[j].buffer1Addr);
      desc[i] := desc[i].(buffer2NextDescAddr := shadow[j].buffer2NextDescAddr);
      sw := Restored(frame, p, seconds, nanoseconds);
      assert State() == Restores(s).state;
      AfterStep(s, SwRestore);
    }

    /** `ETH_RxPkt_ChainMode_CleanUp` */
    method GiveBack(frame: FrameType, ghost p: Option<seq<Octet>>, ghost seconds: UInt32, ghost nanoseconds: UInt32)
      requires Tables() && Inv(State()) && sw == Restored(frame, p, seconds, nanoseconds)
      modifies this`sw, this`handed, desc
      ensures Run(old(State()), [SwGiveBack]) == Some(State()) && Inv(State()) && sw.Idle?
      ensures handed == old(handed) + [if p.Some? then Up(p.value, seconds, nanoseconds) else Dropped]
    {
      ghost var s := State();
      RestoredFrame(s);
      var i := lay.DescAt(frame.descriptor).value;
      desc[i] := desc[i].(status := OWN);
      sw, handed := Idle, handed + [if p.Some? then Up(p.value, seconds, nanoseconds) else Dropped];
      AfterStep(s, SwGiveBack);
    }

    /** The part of `low_level_input` up to the copy, with the MAC at work in it. */
    method TakeAndCopy(chain: Option<seq<nat>>, mac1: seq<Step>)
      returns (frame: FrameType, payloads: seq<seq<Octet>>)
      requires Tables() && Inv(State()) && Takes(State()).Happened? && AllMac(mac1)
      requires chain.Some? ==> Total(chain.value) == (RxPktSize(desc[lay.DescAt(toGet).value].status) - 4) % 0x1_0000
      modifies this`toGet, this`ptpToGet, this`sw, this`mac, this`macPhase, this`arrived, desc, memory
      ensures Run(old(State()), [SwTake] + mac1 + [SwCopy(chain.Some?)]) == Some(State()) && Inv(State())
      ensures sw == Copied(frame, if chain.Some? then Some(Flatten(payloads)) else None)
      ensures chain.Some? ==> |handed| < |arrived| && Flatten(payloads) == arrived[|handed|].bytes
      ensures old(arrived) <= arrived
    {
      ghost var s0 := State();
      frame := RxPktChainMode();
      ghost var s1 := State();
      MacSteps(mac1);
      ghost var s2 := State();
      payloads := AllocateAndCopy(frame, chain);
      Join(s0, [SwTake], s1, mac1, s2);
      Join(s0, [SwTake] + mac1, s2, [SwCopy(chain.Some?)], State());
    }

    /** The part of `low_level_input` after the copy, with the MAC at work in it. */
    method CleanUp(frame: FrameType, ghost p: Option<seq<Octet>>, mac2: seq<Step>, mac3: seq<Step>)
      returns (seconds: UInt32, nanoseconds: UInt32)
      requires Tables() && Inv(State()) && sw == Copied(frame, p) && AllMac(mac2) && AllMac(mac3)
      modifies this`sw, this`handed, this`mac, this`macPhase, this`arrived, desc, memory
      ensures Run(old(State()), mac2 + [SwRestore] + mac3 + [SwGiveBack]) == Some(State()) && Inv(State()) && sw.Idle?
      ensures handed == old(handed) + [if p.Some? then Up(p.value, seconds, nanoseconds) else Dropped]
      ensures old(arrived) <= arrived && |old(handed)| < |arrived|
      ensures seconds == arrived[|old(handed)|].seconds
      ensures nanoseconds == SubSecond2NanoSecond(arrived[|old(handed)|].subseconds)
    {
      ghost var s0 := State();
      MacSteps(mac2);
      ghost var s1 := State();
      seconds, nanoseconds := RestoreAddresses(frame, p);
      ghost var s2 := State();
      MacSteps(mac3);
      ghost var s3 := State();
      GiveBack(frame, p, seconds, nanoseconds);
      Join(s0, mac2, s1, [SwRestore], s2);
      Join(s0, mac2 + [SwRestore], s2, mac3, s3);
      Join(s0, mac2 + [SwRestore] + mac3, s3, [SwGiveBack], State());
    }

    /** `low_level_input`: it hands up the next frame that arrived, whole and with its own time
        stamp, or drops it when there is no pbuf, whatever the MAC does meanwhile. */
    method LowLevelInput(chain: Option<seq<nat>>, mac1: seq<Step>, mac2: seq<Step>, mac3: seq<Step>)
      returns (p: Option<Pbuf>)
      requires Tables() && Inv(State()) && Takes(State()).Happened?
      requires AllMac(mac1) && AllMac(mac2) && AllMac(mac3)
      requires chain.Some? ==> Total(chain.value) == (RxPktSize(desc[lay.DescAt(toGet).value].status) - 4) % 0x1_0000
      modifies this`toGet, this`ptpToGet, this`sw, this`handed, this`mac, this`macPhase, this`arrived, desc, memory
      ensures Run(old(State()), [SwTake] + mac1 + [SwCopy(chain.Some?)] + (mac2 + [SwRestore] + mac3 + [SwGiveBack])) == Some(State())
      ensures Inv(State()) && sw.Idle?
      ensures p.Some? <==> chain.Some?
      ensures |old(handed)| < |arrived| && old(arrived) <= arrived
      ensures var f := arrived[|old(handed)|];
        && handed == old(handed) + [if chain.Some? then HandedFor(f) else Dropped]
        && (p.Some? ==> Up(Flatten(p.value.payloads), p.value.seconds, p.value.nanoseconds) == HandedFor(f))
    {
      ghost var s0 := State();
      var frame, payloads := TakeAndCopy(chain, mac1);
      ghost var s1 := State();
      var seconds, nanoseconds := CleanUp(frame, if chain.Some? then Some(Flatten(payloads)) else None, mac2, mac3);
      p := if chain.Some? then Some(Pbuf(payloads, seconds, nanoseconds)) else None;
      Join(s0, [SwTake] + mac1 + [SwCopy(chain.Some?)], s1, mac2 + [SwRestore] + mac3 + [SwGiveBack], State());
    }
  }

  // ---------------------------------------------------------------------------------------------
  // What the driver relies on between its parts

  lemma TakenFrame(s: RxRing.State)
    requires Inv(s) && s.sw.Taken?
    ensures s.lay.BufferAt(s.sw.frame.buffer).Some? && s.sw.frame.length <= ETH_MAX_PACKET_SIZE
    ensures |s.handed| < |s.arrived|
    ensures s.memory[s.lay.BufferAt(s.sw.frame.buffer).value][..s.sw.frame.length] == s.arrived[|s.handed|].bytes
  {
  }

  lemma CopiedFrame(s: RxRing.State)
    requires Inv(s) && s.sw.Copied?
    ensures Restores(s).Happened? && |s.handed| < |s.arrived|
    ensures Restores(s).state.sw == Restored(s.sw.frame, s.sw.p, s.arrived[|s.handed|].seconds, SubSecond2NanoSecond(s.arrived[|s.handed|].subseconds))
  {
    var w: nat :| InvAt(s, w);
    RestoreEffect(s, At(w, s.lay.n - 1, s.lay.n));
  }

  lemma RestoredFrame(s: RxRing.State)
    requires Inv(s) && s.sw.Restored?
    ensures GivesBack(s).Happened?
  {
  }
}
