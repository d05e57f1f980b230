/** The best master clock algorithm of ptpd-2.0.0/src/bmc.c on the data sets of one clock. */
module BestMasterClock {
  import opened CInt
  import opened PtpData
  import opened DataSetComparison
  import opened ForeignMasters

  const NUMBER_PORTS: UInt16 := 1
  const DEFAULT_DELAYREQ_INTERVAL := 3
  const DEFAULT_PDELAYREQ_INTERVAL := 1
  const DEFAULT_ANNOUNCE_RECEIPT_TIMEOUT: Octet := 6
  const VERSION_PTP: Octet := 2
  const INTERNAL_OSCILLATOR: Octet := 0xA0
  const FLAG1_LEAP61: bv8 := 0x01
  const FLAG1_LEAP59: bv8 := 0x02
  const FLAG1_UTC_OFFSET_VALID: bv8 := 0x04
  const FLAG1_PTP_TIMESCALE: bv8 := 0x08
  const FLAG1_TIME_TRACEABLE: bv8 := 0x10
  const FLAG1_FREQUENCY_TRACEABLE: bv8 := 0x20

  datatype RunTimeOpts = RunTimeOpts(
    clockQuality: ClockQuality, priority1: Octet, priority2: Octet, domainNumber: Octet,
    slaveOnly: bool, currentUtcOffset: int, maxForeignRecords: nat,
    announceInterval: int, syncInterval: int, delayMechanism: Octet, stats: Octet,
    inboundLatency: Interval, outboundLatency: Interval, servo: Servo)

  /** The part of PtpClock on which the algorithm works. */
  datatype ClockState = ClockState(
    defaultDS: DefaultDS, currentDS: CurrentDS, parentDS: ParentDS,
    timePropertiesDS: TimePropertiesDS, portIdentity: PortIdentity, portState: PortState,
    foreignMasterDS: Table, msgTmp: Announce, masterClockChanged: bool, utcOffset: int)

  predicate GetFlag(flagField: bv8, mask: bv8) {
    flagField & mask == mask
  }

  // ---------------------------------------------------------------------------------------------
  // Specification functions

  /** A clock identity from a MAC address, section 7.5.2.2.2. */
  function Eui64(mac: seq<Octet>): (id: ClockIdentity)
    requires |mac| == 6
  {
    mac[..3] + [0xFF, 0xFE] + mac[3..]
  }

  /** `copyD0`, Table 12: the announce of the local clock, over what the buffer held before. */
  function CopyD0(d: DefaultDS, tmp: Announce): Announce {
    Announce(
      tmp.header.(sourcePortIdentity := tmp.header.sourcePortIdentity.(clockIdentity := d.clockIdentity)),
      tmp.body.(grandmasterPriority1 := d.priority1, grandmasterIdentity := d.clockIdentity,
                grandmasterClockQuality := d.clockQuality, grandmasterPriority2 := d.priority2,
                stepsRemoved := 0))
  }

  /** `m1`, Table 13. */
  function BecomeMaster(c: ClockState): ClockState {
    c.(currentDS := CurrentDS(0, Interval(0, 0), Interval(0, 0)),
       parentDS := ParentDS(PortIdentity(c.defaultDS.clockIdentity, 0), c.defaultDS.clockIdentity,
                            c.defaultDS.clockQuality, c.defaultDS.priority1, c.defaultDS.priority2),
       timePropertiesDS := TimePropertiesDS(c.utcOffset, false, false, false, false, false, false, INTERNAL_OSCILLATOR))
  }

  function ParentFrom(m: Announce): ParentDS {
    ParentDS(m.header.sourcePortIdentity, m.body.grandmasterIdentity,
             m.body.grandmasterClockQuality, m.body.grandmasterPriority1, m.body.grandmasterPriority2)
  }

  function TimePropertiesFrom(m: Announce): TimePropertiesDS {
    var flags := m.header.flagField1;
    TimePropertiesDS(
      m.body.currentUtcOffset, GetFlag(flags, FLAG1_UTC_OFFSET_VALID), GetFlag(flags, FLAG1_LEAP59),
      GetFlag(flags, FLAG1_LEAP61), GetFlag(flags, FLAG1_TIME_TRACEABLE),
      GetFlag(flags, FLAG1_FREQUENCY_TRACEABLE), GetFlag(flags, FLAG1_PTP_TIMESCALE), m.body.timeSource)
  }

  /** `s1`, Table 16. */
  function FollowMaster(c: ClockState, m: Announce): ClockState {
    c.(currentDS := c.currentDS.(stepsRemoved := (m.body.stepsRemoved + 1) % 0x1_0000),
       masterClockChanged := c.masterClockChanged || c.parentDS.parentPortIdentity != m.header.sourcePortIdentity,
       parentDS := ParentFrom(m),
       timePropertiesDS := TimePropertiesFrom(m))
  }

  /** `bmcStateDecision`, Figure 26: the new data sets and the recommended state. */
  function StateDecision(c: ClockState, m: Announce): (ClockState, PortState) {
    if c.foreignMasterDS.count == 0 && c.portState == LISTENING then (c, LISTENING)
    else
      var c' := c.(msgTmp := CopyD0(c.defaultDS, c.msgTmp));
      var better := Compare(c'.msgTmp, m, c.portIdentity.clockIdentity) == A_BETTER;
      if c.defaultDS.clockQuality.clockClass < 128 then
        if better then (BecomeMaster(c'), MASTER) else (c', PASSIVE)
      else
        if better then (BecomeMaster(c'), MASTER) else (FollowMaster(c', m), SLAVE)
  }

  /** `bmc`; the code has the sign AsWritten. */
  function Decide(c: ClockState, sign: ScanSign): (ClockState, PortState)
    requires c.foreignMasterDS.InBounds()
  {
    var t := Select(c.foreignMasterDS, c.portIdentity.clockIdentity, sign);
    StateDecision(c.(foreignMasterDS := t), t.records[t.best].heard)
  }

  // ---------------------------------------------------------------------------------------------
  // What the decision achieves

  lemma Eui64Injective(a: MacAddress, b: MacAddress)
    ensures Eui64(a) == Eui64(b) ==> a == b
  {
    if Eui64(a) == Eui64(b) {
      assert a == Eui64(a)[..3] + Eui64(a)[5..];
      assert b == Eui64(b)[..3] + Eui64(b)[5..];
    }
  }

  /** Clock identities are ordered as the MAC addresses they come from. */
  lemma Eui64KeepsOrder(a: MacAddress, b: MacAddress)
    ensures Memcmp(Eui64(a), Eui64(b)) == Memcmp(a, b)
  {
    var mid: seq<int> := [0xFF, 0xFE];
    MemcmpConcat(a[..3] + mid, a[3..], b[..3] + mid, b[3..]);
    MemcmpConcat(a[..3], mid, b[..3], mid);
    MemcmpAntisymmetric(mid, mid);
    MemcmpConcat(a[..3], a[3..], b[..3], b[3..]);
    assert a[..3] + a[3..] == a && b[..3] + b[3..] == b;
  }

  lemma Eui64Octets(mac: MacAddress)
    ensures Eui64(mac) == [mac[0], mac[1], mac[2], 0xFF, 0xFE, mac[3], mac[4], mac[5]]
  {
  }

  /** The time properties of a slave, bit by bit of section 13.3.2.6. */
  predicate ReadsFlags(p: TimePropertiesDS, m: Announce) {
    var flags := m.header.flagField1;
    && (p.leap61 <==> flags & 0x01 != 0)
    && (p.leap59 <==> flags & 0x02 != 0)
    && (p.currentUtcOffsetValid <==> flags & 0x04 != 0)
    && (p.ptpTimescale <==> flags & 0x08 != 0)
    && (p.timeTraceable <==> flags & 0x10 != 0)
    && (p.frequencyTraceable <==> flags & 0x20 != 0)
    && p.currentUtcOffset == m.body.currentUtcOffset
    && p.timeSource == m.body.timeSource
  }

  /** The data sets of a clock that is its own grandmaster, Table 13: internal oscillator (0xA0), no
      flag set, the UTC offset of its options. */
  predicate StandsForItself(c: ClockState, c': ClockState) {
    var d := c.defaultDS;
    && c'.currentDS == CurrentDS(0, Interval(0, 0), Interval(0, 0))
    && c'.parentDS == ParentDS(PortIdentity(d.clockIdentity, 0), d.clockIdentity, d.clockQuality, d.priority1, d.priority2)
    && c'.timePropertiesDS == TimePropertiesDS(c.utcOffset, false, false, false, false, false, false, 0xA0)
  }

  /** The data sets of a clock that takes the sender of m as its parent, Table 16. */
  predicate Follows(c: ClockState, c': ClockState, m: Announce) {
    && c'.currentDS == CurrentDS((m.body.stepsRemoved + 1) % 0x1_0000, c.currentDS.offsetFromMaster, c.currentDS.meanPathDelay)
    && c'.parentDS == ParentDS(m.header.sourcePortIdentity, m.body.grandmasterIdentity, m.body.grandmasterClockQuality,
                               m.body.grandmasterPriority1, m.body.grandmasterPriority2)
    && ReadsFlags(c'.timePropertiesDS, m)
    && (c'.masterClockChanged <==> c.masterClockChanged || c.parentDS.parentPortIdentity != m.header.sourcePortIdentity)
  }

  /** The announce of a clock's own data set, Table 12. */
  predicate SpeaksFor(m: Announce, d: DefaultDS) {
    && m.header.sourcePortIdentity.clockIdentity == d.clockIdentity == m.body.grandmasterIdentity
    && m.body.grandmasterPriority1 == d.priority1
    && m.body.grandmasterClockQuality == d.clockQuality
    && m.body.grandmasterPriority2 == d.priority2
    && m.body.stepsRemoved == 0
  }

  predicate SameDataSets(c: ClockState, c': ClockState) {
    c'.parentDS == c.parentDS && c'.currentDS == c.currentDS && c'.timePropertiesDS == c.timePropertiesDS
  }

  /** The fields that Table 12 does not name. */
  predicate OtherFieldsKept(m: Announce, m': Announce) {
    && m'.header.sourcePortIdentity.portNumber == m.header.sourcePortIdentity.portNumber
    && m'.header == m.header.(sourcePortIdentity := m'.header.sourcePortIdentity)
    && m'.body.currentUtcOffset == m.body.currentUtcOffset && m'.body.timeSource == m.body.timeSource
  }

  /** What Figure 26 asks of a decision on the announce m: the new data sets and the recommended
      state. */
  predicate Figure26(c: ClockState, m: Announce, c': ClockState, state: PortState) {
    && (state == LISTENING <==> c.portState == LISTENING && c.foreignMasterDS.count == 0)
    && (state == LISTENING ==> c' == c)
    && (state != LISTENING ==>
          var better := Compare(c'.msgTmp, m, c.portIdentity.clockIdentity) > 0;
          && SpeaksFor(c'.msgTmp, c.defaultDS) && OtherFieldsKept(c.msgTmp, c'.msgTmp)
          && (state == MASTER <==> better)
          && (state == PASSIVE <==> !better && c.defaultDS.clockQuality.clockClass < 128)
          && (state == SLAVE <==> !better && c.defaultDS.clockQuality.clockClass >= 128))
    && (state == MASTER ==> StandsForItself(c, c') && c'.masterClockChanged == c.masterClockChanged)
    && (state == PASSIVE ==> SameDataSets(c, c') && c'.masterClockChanged == c.masterClockChanged)
    && (state == SLAVE ==> Follows(c, c', m))
    && c'.defaultDS == c.defaultDS && c'.portIdentity == c.portIdentity && c'.portState == c.portState
    && c'.foreignMasterDS == c.foreignMasterDS && c'.utcOffset == c.utcOffset
  }

  lemma FollowerReadsFlags(m: Announce)
    ensures ReadsFlags(TimePropertiesFrom(m), m)
  {
    SixFlags(m.header.flagField1);
  }

  lemma SixFlags(x: bv8)
    ensures (GetFlag(x, 0x01) <==> x & 0x01 != 0) && (GetFlag(x, 0x02) <==> x & 0x02 != 0)
    ensures (GetFlag(x, 0x04) <==> x & 0x04 != 0) && (GetFlag(x, 0x08) <==> x & 0x08 != 0)
    ensures (GetFlag(x, 0x10) <==> x & 0x10 != 0) && (GetFlag(x, 0x20) <==> x & 0x20 != 0)
  {
  }

  /** The state decision is that of Figure 26, for every class, port state and table. */
  lemma DecisionIsFigure26(c: ClockState, m: Announce)
    ensures Figure26(c, m, StateDecision(c, m).0, StateDecision(c, m).1)
  {
    FollowerReadsFlags(m);
  }

  /** And so is the whole algorithm, on the record that its scan leaves in `best`; of the table it
      changes nothing else. */
  lemma DecideIsFigure26(c: ClockState, sign: ScanSign)
    requires c.foreignMasterDS.InBounds()
    ensures var (c', state) := Decide(c, sign);
      var t := c.foreignMasterDS.(best := c'.foreignMasterDS.best);
      && t.InBounds() && (t.count == 0 ==> t.best == 0)
      && Figure26(c.(foreignMasterDS := t), t.records[t.best].heard, c', state)
  {
    var t := Select(c.foreignMasterDS, c.portIdentity.clockIdentity, sign);
    DecisionIsFigure26(c.(foreignMasterDS := t), t.records[t.best].heard);
  }

  /** What the clock now says about its grandmaster is what the announce says. */
  predicate Advertises(p: ParentDS, m: MsgAnnounce) {
    && p.grandmasterIdentity == m.grandmasterIdentity
    && p.grandmasterClockQuality == m.grandmasterClockQuality
    && p.grandmasterPriority1 == m.grandmasterPriority1
    && p.grandmasterPriority2 == m.grandmasterPriority2
  }

  /** Figure 26 for a clock that may become a slave: it stands for the better of its own data set
      and the announce, it is a master exactly when its own is better, and its distance to the
      grandmaster is one more than that of the announce it follows. */
  lemma DecisionFollowsTheBetter(c: ClockState, m: Announce)
    requires c.defaultDS.clockQuality.clockClass >= 128
    requires c.foreignMasterDS.count > 0 || c.portState != LISTENING
    ensures var (c', state) := StateDecision(c, m);
      var d0 := CopyD0(c.defaultDS, c.msgTmp);
      && (state == MASTER || state == SLAVE)
      && (state == MASTER <==> Compare(d0, m, c.portIdentity.clockIdentity) > 0)
      && Advertises(c'.parentDS, (if state == MASTER then d0 else m).body)
      && (state == MASTER ==> c'.currentDS.stepsRemoved == 0 && c'.parentDS.parentPortIdentity.clockIdentity == c.defaultDS.clockIdentity)
      && (state == SLAVE ==>
            && c'.parentDS.parentPortIdentity == m.header.sourcePortIdentity
            && (c'.masterClockChanged <==> c.masterClockChanged || c.parentDS.parentPortIdentity != m.header.sourcePortIdentity)
            && (m.body.stepsRemoved < 0xFFFF ==> c'.currentDS.stepsRemoved == m.body.stepsRemoved + 1))
      && c'.foreignMasterDS == c.foreignMasterDS && c'.defaultDS == c.defaultDS
  {
  }

  /** A clock of class below 128 never follows anybody: it becomes master or leaves its data
      sets alone. */
  lemma DecisionOfGrandmasterClass(c: ClockState, m: Announce)
    requires c.defaultDS.clockQuality.clockClass < 128
    requires c.foreignMasterDS.count > 0 || c.portState != LISTENING
    ensures var (c', state) := StateDecision(c, m);
      && (state == MASTER || state == PASSIVE)
      && (state == PASSIVE ==> c'.parentDS == c.parentDS && c'.currentDS == c.currentDS && c'.timePropertiesDS == c.timePropertiesDS)
      && (state == MASTER ==> StandsForItself(c, c') && Advertises(c'.parentDS, CopyD0(c.defaultDS, c.msgTmp).body))
      && c'.defaultDS == c.defaultDS && c'.utcOffset == c.utcOffset
  {
  }

  /** The six time properties that an announce carries as flag bits. */
  datatype Flagged = Leap61 | Leap59 | UtcOffsetValid | PtpTimescale | TimeTraceable | FrequencyTraceable {
    function Mask(): bv8 {
      match this
      case Leap61 => FLAG1_LEAP61
      case Leap59 => FLAG1_LEAP59
      case UtcOffsetValid => FLAG1_UTC_OFFSET_VALID
      case PtpTimescale => FLAG1_PTP_TIMESCALE
      case TimeTraceable => FLAG1_TIME_TRACEABLE
      case FrequencyTraceable => FLAG1_FREQUENCY_TRACEABLE
    }

    function Negated(p: TimePropertiesDS): TimePropertiesDS {
      match this
      case Leap61 => p.(leap61 := !p.leap61)
      case Leap59 => p.(leap59 := !p.leap59)
      case UtcOffsetValid => p.(currentUtcOffsetValid := !p.currentUtcOffsetValid)
      case PtpTimescale => p.(ptpTimescale := !p.ptpTimescale)
      case TimeTraceable => p.(timeTraceable := !p.timeTraceable)
      case FrequencyTraceable => p.(frequencyTraceable := !p.frequencyTraceable)
    }
  }

  function WithFlags(m: Announce, flags: bv8): Announce {
    m.(header := m.header.(flagField1 := flags))
  }

  /** Each bit of the flag field (section 13.3.2.6) changes its own time property of a slave and
      no other, whatever the other bits are. */
  lemma FlagChangesItsProperty(c: ClockState, m: Announce, f: Flagged)
    ensures var flipped := WithFlags(m, m.header.flagField1 ^ f.Mask());
      FollowMaster(c, flipped) ==
        FollowMaster(c, m).(timePropertiesDS := f.Negated(FollowMaster(c, m).timePropertiesDS))
  {
    FlagFlips(m.header.flagField1, f);
  }

  /** The other bits stay. */
  lemma FlagFlips(x: bv8, f: Flagged)
    ensures var y := x ^ f.Mask();
      && (GetFlag(y, FLAG1_LEAP61) <==> GetFlag(x, FLAG1_LEAP61) != f.Leap61?)
      && (GetFlag(y, FLAG1_LEAP59) <==> GetFlag(x, FLAG1_LEAP59) != f.Leap59?)
      && (GetFlag(y, FLAG1_UTC_OFFSET_VALID) <==> GetFlag(x, FLAG1_UTC_OFFSET_VALID) != f.UtcOffsetValid?)
      && (GetFlag(y, FLAG1_PTP_TIMESCALE) <==> GetFlag(x, FLAG1_PTP_TIMESCALE) != f.PtpTimescale?)
      && (GetFlag(y, FLAG1_TIME_TRACEABLE) <==> GetFlag(x, FLAG1_TIME_TRACEABLE) != f.TimeTraceable?)
      && (GetFlag(y, FLAG1_FREQUENCY_TRACEABLE) <==> GetFlag(x, FLAG1_FREQUENCY_TRACEABLE) != f.FrequencyTraceable?)
  {
    match f
    case Leap61 =>
    case Leap59 =>
    case UtcOffsetValid =>
    case PtpTimescale =>
    case TimeTraceable =>
    case FrequencyTraceable =>
  }

  /** Two announces leave a slave with the same time properties exactly when they agree in these six
      bits, the UTC offset and the time source: nothing of them is lost and nothing else enters. */
  lemma PropertiesReadOff(m: Announce, m': Announce)
    ensures TimePropertiesFrom(m) == TimePropertiesFrom(m') <==>
              && m.header.flagField1 & 0x3F == m'.header.flagField1 & 0x3F
              && m.body.currentUtcOffset == m'.body.currentUtcOffset
              && m.body.timeSource == m'.body.timeSource
  {
    SixBits(m.header.flagField1, m'.header.flagField1);
  }

  lemma SixBits(x: bv8, y: bv8)
    ensures x & 0x3F == y & 0x3F <==>
              && GetFlag(x, 0x01) == GetFlag(y, 0x01) && GetFlag(x, 0x02) == GetFlag(y, 0x02)
              && GetFlag(x, 0x04) == GetFlag(y, 0x04) && GetFlag(x, 0x08) == GetFlag(y, 0x08)
              && GetFlag(x, 0x10) == GetFlag(y, 0x10) && GetFlag(x, 0x20) == GetFlag(y, 0x20)
  {
  }

  /** A step in the life of a clock: it hears an announce, or it runs the algorithm and the protocol
      engine then puts its port into some state. */
  datatype ClockStep = Hears(m: Announce) | Decides(next: PortState)

  function Live(c: ClockState, steps: seq<ClockStep>, sign: ScanSign): (c': ClockState)
    requires c.foreignMasterDS.InBounds()
    ensures c'.foreignMasterDS.InBounds()
  {
    if |steps| == 0 then c
    else
      var before := Live(c, steps[..|steps| - 1], sign);
      match steps[|steps| - 1]
      case Hears(m) => before.(foreignMasterDS := AddForeign(before.foreignMasterDS, m))
      case Decides(next) => Decide(before, sign).0.(portState := next)
  }

  /** Over every run a clock of class below 128 keeps the data sets it started with until it
      stands for itself, and from then on it always does, whatever it hears. */
  lemma {:induction false} GrandmasterClassNeverFollows(c: ClockState, steps: seq<ClockStep>, sign: ScanSign)
    requires c.foreignMasterDS.InBounds() && c.defaultDS.clockQuality.clockClass < 128
    ensures var c' := Live(c, steps, sign);
      && c'.defaultDS == c.defaultDS && c'.utcOffset == c.utcOffset
      && (SameDataSets(c, c') || StandsForItself(c, c'))
  {
    if |steps| > 0 {
      GrandmasterClassNeverFollows(c, steps[..|steps| - 1], sign);
      var before := Live(c, steps[..|steps| - 1], sign);
      if steps[|steps| - 1].Decides? && (before.foreignMasterDS.count > 0 || before.portState != LISTENING) {
        var t := Select(before.foreignMasterDS, before.portIdentity.clockIdentity, sign);
        DecisionOfGrandmasterClass(before.(foreignMasterDS := t), t.records[t.best].heard);
      }
    }
  }

  lemma SilentDecision(c: ClockState, sign: ScanSign)
    requires Fresh(c.foreignMasterDS)
    ensures Decide(c, sign).0.foreignMasterDS == c.foreignMasterDS
    ensures Decide(c, sign).1 == LISTENING <==> c.portState == LISTENING
    ensures c.portState == LISTENING ==> Decide(c, sign).0 == c
  {
    assert Select(c.foreignMasterDS, c.portIdentity.clockIdentity, sign) == c.foreignMasterDS;
    DecideIsFigure26(c, sign);
  }

  /** A clock that has heard nothing: as long as it listens it is told to go on listening and changes
      nothing, whatever it was in between; in any other state it is told something else. */
  lemma {:induction false} SilenceKeepsListening(c: ClockState, steps: seq<ClockStep>, sign: ScanSign)
    requires Fresh(c.foreignMasterDS)
    requires forall k | 0 <= k < |steps| :: steps[k].Decides?
    ensures var c' := Live(c, steps, sign);
      && c'.foreignMasterDS == c.foreignMasterDS
      && (Decide(c', sign).1 == LISTENING <==> c'.portState == LISTENING)
      && (c'.portState == LISTENING ==> Decide(c', sign) == (c', LISTENING))
    ensures c.portState == LISTENING && (forall k | 0 <= k < |steps| :: steps[k].next == LISTENING) ==>
              Live(c, steps, sign) == c
  {
    if |steps| > 0 {
      SilenceKeepsListening(c, steps[..|steps| - 1], sign);
      SilentDecision(Live(c, steps[..|steps| - 1], sign), sign);
      assert steps[|steps| - 1].Decides?;
    }
    SilentDecision(Live(c, steps, sign), sign);
  }

  /** Running the algorithm again without news changes nothing. */
  lemma DecideIdempotent(c: ClockState, sign: ScanSign)
    requires c.foreignMasterDS.InBounds()
    ensures Decide(Decide(c, sign).0, sign) == Decide(c, sign)
  {
    var t := Select(c.foreignMasterDS, c.portIdentity.clockIdentity, sign);
    assert t.Heard() == c.foreignMasterDS.Heard();
    DecisionIdempotent(c.(foreignMasterDS := t), t.records[t.best].heard);
  }

  lemma DecisionIdempotent(c: ClockState, m: Announce)
    ensures StateDecision(StateDecision(c, m).0, m) == StateDecision(c, m)
  {
  }

  // ---------------------------------------------------------------------------------------------
  // The code

  class PtpClock {
    var rtOpts: RunTimeOpts
    const portUuidField: array<Octet>
    var defaultDS: DefaultDS
    var currentDS: CurrentDS
    var parentDS: ParentDS
    var timePropertiesDS: TimePropertiesDS
    var portIdentity: PortIdentity
    var portState: PortState
    var portSettings: PortSettings
    var inboundLatency: Interval
    var outboundLatency: Interval
    var servo: Servo
    var stats: Octet
    // foreignMasterDS
    const records: array<Record>
    var count: nat
    var capacity: nat
    var i: nat
    var best: nat
    // msgTmpHeader and msgTmp.announce
    var msgTmp: Announce
    // the MASTER_CLOCK_CHANGED bit of events
    var masterClockChanged: bool

    /** The storage of `ptpd.c`: the MAC address and the statically allocated record array. */
    constructor (portUuidField: array<Octet>, records: array<Record>, rtOpts: RunTimeOpts, zeroed: ClockState, zeroedSettings: PortSettings)
      ensures this.portUuidField == portUuidField && this.records == records && this.rtOpts == rtOpts
      ensures count == 0 && capacity == 0 && i == 0 && best == 0
    {
      this.portUuidField, this.records, this.rtOpts := portUuidField, records, rtOpts;
      defaultDS, currentDS, parentDS := zeroed.defaultDS, zeroed.currentDS, zeroed.parentDS;
      timePropertiesDS, portIdentity, portState := zeroed.timePropertiesDS, zeroed.portIdentity, INITIALIZING;
      portSettings, servo, stats := zeroedSettings, Servo(false, false, 0, 0, 0, 0), 0;
      inboundLatency, outboundLatency := Interval(0, 0), Interval(0, 0);
      count, capacity, i, best := 0, 0, 0, 0;
      msgTmp, masterClockChanged := zeroed.msgTmp, false;
    }

    ghost function Foreign(): Table
      reads this, records
    {
      Table(records[..], count, capacity, i, best)
    }

    ghost function State(): ClockState
      reads this, records
    {
      ClockState(defaultDS, currentDS, parentDS, timePropertiesDS, portIdentity, portState,
                 Foreign(), msgTmp, masterClockChanged, rtOpts.currentUtcOffset)
    }

    static method EUI48toEUI64(eui48: array<Octet>, eui64: array<Octet>)
      requires eui48.Length == 6 && eui64.Length == 8 && eui48 != eui64
      modifies eui64
      ensures eui64[..] == Eui64(eui48[..])
      ensures eui64[..] == eui48[..3] + [0xFF, 0xFE] + eui48[3..]
    {
      eui64[0] := eui48[0];
      eui64[1] := eui48[1];
      eui64[2] := eui48[2];
      eui64[3] := 0xFF;
      eui64[4] := 0xFE;
      eui64[5] := eui48[3];
      eui64[6] := eui48[4];
      eui64[7] := eui48[5];
    }

    /** The clock takes its identity from its MAC address and its table keeps only `i` and `best`. */
    method InitData()
      requires portUuidField.Length == 6
      modifies this`defaultDS, this`portIdentity, this`portSettings, this`count, this`capacity
      modifies this`inboundLatency, this`outboundLatency, this`servo, this`stats
      ensures defaultDS == DefaultDS(true, Eui64(portUuidField[..]), 1, rtOpts.clockQuality, rtOpts.priority1,
                                     rtOpts.priority2, rtOpts.domainNumber, rtOpts.slaveOnly)
      ensures portIdentity == PortIdentity(Eui64(portUuidField[..]), 1)
      ensures Foreign() == Initialize(old(Foreign()), rtOpts.maxForeignRecords)
      ensures old(count == capacity == i == best == 0) && 0 < rtOpts.maxForeignRecords <= records.Length && rtOpts.maxForeignRecords < 0x8000 ==>
                Fresh(Foreign())
      ensures portSettings ==
                PortSettings(3, Interval(0, 0), rtOpts.announceInterval, 6, rtOpts.syncInterval, rtOpts.delayMechanism, 1, 2)
      ensures inboundLatency == rtOpts.inboundLatency && outboundLatency == rtOpts.outboundLatency
      ensures servo == rtOpts.servo && stats == rtOpts.stats
    {
      InitDefaultDS();
      InitPortDS();
      count := 0;
      capacity := rtOpts.maxForeignRecords;
      inboundLatency := rtOpts.inboundLatency;
      outboundLatency := rtOpts.outboundLatency;
      InitServo();
      stats := rtOpts.stats;
    }

    method InitServo()
      modifies this`servo
      ensures servo == rtOpts.servo
    {
      servo := servo.(sDelay := rtOpts.servo.sDelay, sOffset := rtOpts.servo.sOffset);
      servo := servo.(ai := rtOpts.servo.ai, ap := rtOpts.servo.ap);
      servo := servo.(noAdjust := rtOpts.servo.noAdjust, noResetClock := rtOpts.servo.noResetClock);
    }

    /** The first block of `initData`. */
    method InitDefaultDS()
      requires portUuidField.Length == 6
      modifies this`defaultDS
      ensures defaultDS == DefaultDS(true, Eui64(portUuidField[..]), 1, rtOpts.clockQuality, rtOpts.priority1,
                                     rtOpts.priority2, rtOpts.domainNumber, rtOpts.slaveOnly)
    {
      defaultDS := defaultDS.(twoStepFlag := true);
      var identity := new Octet[8](_ => 0);
      EUI48toEUI64(portUuidField, identity);
      defaultDS := defaultDS.(clockIdentity := identity[..], numberPorts := NUMBER_PORTS);
      defaultDS := defaultDS.(clockQuality := rtOpts.clockQuality);
      defaultDS := defaultDS.(priority1 := rtOpts.priority1, priority2 := rtOpts.priority2);
      defaultDS := defaultDS.(domainNumber := rtOpts.domainNumber, slaveOnly := rtOpts.slaveOnly);
    }

    /** The second block of `initData`. */
    method InitPortDS()
      modifies this`portIdentity, this`portSettings
      ensures portIdentity == PortIdentity(defaultDS.clockIdentity, NUMBER_PORTS)
      ensures portSettings ==
                PortSettings(3, Interval(0, 0), rtOpts.announceInterval, 6, rtOpts.syncInterval, rtOpts.delayMechanism, 1, 2)
    {
      portIdentity := PortIdentity(defaultDS.clockIdentity, NUMBER_PORTS);
      var p := portSettings;
      p := p.(logMinDelayReqInterval := DEFAULT_DELAYREQ_INTERVAL, peerMeanPathDelay := Interval(0, 0));
      p := p.(logAnnounceInterval := rtOpts.announceInterval, announceReceiptTimeout := DEFAULT_ANNOUNCE_RECEIPT_TIMEOUT);
      p := p.(logSyncInterval := rtOpts.syncInterval, delayMechanism := rtOpts.delayMechanism);
      portSettings := p.(logMinPdelayReqInterval := DEFAULT_PDELAYREQ_INTERVAL, versionNumber := VERSION_PTP);
    }

    method AddForeign(m: Announce)
      requires Foreign().InBounds()
      modifies this`count, this`i, records
      ensures Foreign() == ForeignMasters.AddForeign(old(Foreign()), m)
    {
      ghost var t := Foreign();
      var found := false;
      var j: nat := best;
      var k := 0;
      while k < count
        invariant 0 <= k <= count && j < capacity && !found
        invariant records[..] == t.records && count == t.count && i == t.i
        invariant FindFrom(t, Sender(m), t.best, t.count) == FindFrom(t, Sender(m), j, count - k)
      {
        if m.header.sourcePortIdentity == records[j].identity {
          assert FindFrom(t, Sender(m), t.best, t.count) == Some(j);
          records[j] := records[j].(announceMessages := (records[j].announceMessages + 1) % 0x1_0000);
          found := true;
          records[j] := records[j].(heard := m);
          assert Foreign() == Refresh(t, j, m);
          break;
        }
        j := (j + 1) % count;
        k := k + 1;
      }
      if !found {
        assert FindFrom(t, Sender(m), t.best, t.count).None?;
        if count < capacity {
          count := count + 1;
        }
        j := i;
        records[j] := records[j].(identity := m.header.sourcePortIdentity);
        records[j] := records[j].(announceMessages := 0);
        records[j] := records[j].(heard := m);
        i := (i + 1) % capacity;
        assert Foreign() == Insert(t, m);
      }
    }

    method M1()
      modifies this`currentDS, this`parentDS, this`timePropertiesDS
      ensures State() == BecomeMaster(old(State())) && StandsForItself(old(State()), State())
    {
      currentDS := currentDS.(stepsRemoved := 0);
      currentDS := currentDS.(offsetFromMaster := Interval(0, 0), meanPathDelay := Interval(0, 0));
      parentDS := parentDS.(parentPortIdentity := PortIdentity(defaultDS.clockIdentity, 0));
      parentDS := parentDS.(grandmasterIdentity := defaultDS.clockIdentity);
      parentDS := parentDS.(grandmasterClockQuality := defaultDS.clockQuality);
      parentDS := parentDS.(grandmasterPriority1 := defaultDS.priority1);
      parentDS := parentDS.(grandmasterPriority2 := defaultDS.priority2);
      timePropertiesDS := timePropertiesDS.(currentUtcOffset := rtOpts.currentUtcOffset, currentUtcOffsetValid := false);
      timePropertiesDS := timePropertiesDS.(leap59 := false, leap61 := false);
      timePropertiesDS := timePropertiesDS.(timeTraceable := false, frequencyTraceable := false);
      timePropertiesDS := timePropertiesDS.(ptpTimescale := false, timeSource := INTERNAL_OSCILLATOR);
    }

    method S1(m: Announce)
      modifies this`currentDS, this`parentDS, this`timePropertiesDS, this`masterClockChanged
      ensures State() == FollowMaster(old(State()), m) && Follows(old(State()), State(), m)
    {
      FollowerReadsFlags(m);
      currentDS := currentDS.(stepsRemoved := (m.body.stepsRemoved + 1) % 0x1_0000);
      var isFromCurrentParent := parentDS.parentPortIdentity == m.header.sourcePortIdentity;
      if !isFromCurrentParent {
        masterClockChanged := true;
      }
      parentDS := parentDS.(parentPortIdentity := m.header.sourcePortIdentity);
      parentDS := parentDS.(grandmasterIdentity := m.body.grandmasterIdentity);
      parentDS := parentDS.(grandmasterClockQuality := m.body.grandmasterClockQuality);
      parentDS := parentDS.(grandmasterPriority1 := m.body.grandmasterPriority1);
      parentDS := parentDS.(grandmasterPriority2 := m.body.grandmasterPriority2);
      assert parentDS == ParentFrom(m);
      SetTimeProperties(m);
    }

    /** The last block of `s1`. */
    method SetTimeProperties(m: Announce)
      modifies this`timePropertiesDS
      ensures timePropertiesDS == TimePropertiesFrom(m) && ReadsFlags(timePropertiesDS, m)
    {
      FollowerReadsFlags(m);
      var flags := m.header.flagField1;
      var p := timePropertiesDS;
      p := p.(currentUtcOffset := m.body.currentUtcOffset);
      p := p.(currentUtcOffsetValid := GetFlag(flags, FLAG1_UTC_OFFSET_VALID));
      p := p.(leap59 := GetFlag(flags, FLAG1_LEAP59));
      p := p.(leap61 := GetFlag(flags, FLAG1_LEAP61));
      p := p.(timeTraceable := GetFlag(flags, FLAG1_TIME_TRACEABLE));
      p := p.(frequencyTraceable := GetFlag(flags, FLAG1_FREQUENCY_TRACEABLE));
      p := p.(ptpTimescale := GetFlag(flags, FLAG1_PTP_TIMESCALE));
      timePropertiesDS := p.(timeSource := m.body.timeSource);
    }

    method BmcStateDecision(m: Announce) returns (state: PortState)
      modifies this`currentDS, this`parentDS, this`timePropertiesDS, this`masterClockChanged, this`msgTmp
      ensures (State(), state) == StateDecision(old(State()), m)
      ensures Figure26(old(State()), m, State(), state)
    {
      DecisionIsFigure26(State(), m);
      if count == 0 && portState == LISTENING {
        return LISTENING;
      }
      msgTmp := CopyD0(defaultDS, msgTmp);
      var comp := Compare(msgTmp, m, portIdentity.clockIdentity);
      if defaultDS.clockQuality.clockClass < 128 {
        if comp == A_BETTER {
          M1();
          return MASTER;
        } else {
          return PASSIVE;
        }
      } else {
        if comp == A_BETTER {
          M1();
          return MASTER;
        } else {
          S1(m);
          return SLAVE;
        }
      }
    }

    method Bmc() returns (state: PortState)
      requires Foreign().InBounds()
      modifies this`currentDS, this`parentDS, this`timePropertiesDS, this`masterClockChanged, this`msgTmp, this`best
      ensures (State(), state) == Decide(old(State()), AsWritten)
    {
      ghost var heard := Foreign().Heard();
      ghost var self := portIdentity.clockIdentity;
      var candidate := 0;
      var k := 1;
      while k < count
        invariant candidate < Max(k, 1) && 1 <= k && (k <= count || count == 0)
        invariant count > 0 ==> candidate < k && Scan(heard, self, AsWritten) == ScanFrom(heard, self, AsWritten, k, candidate)
        invariant count == 0 ==> candidate == 0
      {
        if Compare(records[k].heard, records[candidate].heard, portIdentity.clockIdentity) < 0 {
          candidate := k;
        }
        k := k + 1;
      }
      best := candidate;
      state := BmcStateDecision(records[best].heard);
    }
  }
}
