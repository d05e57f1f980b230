/** The PTP data types of IEEE 1588-2008 section 5.3 and clause 8, as declared in
    ptpd-2.0.0/src/datatypes.h. */
module PtpData {
  import opened CInt

  type ClockIdentity = s: seq<Octet> | |s| == 8 witness [0, 0, 0, 0, 0, 0, 0, 0]
  type MacAddress = s: seq<Octet> | |s| == 6 witness [0, 0, 0, 0, 0, 0]

  datatype PortIdentity = PortIdentity(clockIdentity: ClockIdentity, portNumber: UInt16)

  datatype ClockQuality = ClockQuality(
    clockClass: Octet, clockAccuracy: Octet, offsetScaledLogVariance: UInt16)

  datatype MsgHeader = MsgHeader(
    domainNumber: Octet, flagField1: bv8, correctionField: int,
    sourcePortIdentity: PortIdentity, sequenceId: UInt16)

  datatype MsgAnnounce = MsgAnnounce(
    currentUtcOffset: int, grandmasterPriority1: Octet, grandmasterClockQuality: ClockQuality,
    grandmasterPriority2: Octet, grandmasterIdentity: ClockIdentity, stepsRemoved: UInt16,
    timeSource: Octet)

  /** One announce message as the clock keeps it: its header and its body. */
  datatype Announce = Announce(header: MsgHeader, body: MsgAnnounce)

  /** ForeignMasterRecord. */
  datatype Record = Record(
    identity: PortIdentity, announceMessages: UInt16, heard: Announce)

  datatype PortState =
    | INITIALIZING | FAULTY | DISABLED | LISTENING | PRE_MASTER
    | MASTER | PASSIVE | UNCALIBRATED | SLAVE

  datatype DefaultDS = DefaultDS(
    twoStepFlag: bool, clockIdentity: ClockIdentity, numberPorts: UInt16, clockQuality: ClockQuality,
    priority1: Octet, priority2: Octet, domainNumber: Octet, slaveOnly: bool)

  datatype Interval = Interval(seconds: int, nanoseconds: int)

  /** PortDS without the port identity and the port state. */
  datatype PortSettings = PortSettings(
    logMinDelayReqInterval: int, peerMeanPathDelay: Interval, logAnnounceInterval: int, announceReceiptTimeout: Octet,
    logSyncInterval: int, delayMechanism: Octet, logMinPdelayReqInterval: int, versionNumber: Octet)

  datatype Servo = Servo(noResetClock: bool, noAdjust: bool, ap: int, ai: int, sDelay: int, sOffset: int)

  datatype CurrentDS = CurrentDS(
    stepsRemoved: UInt16, offsetFromMaster: Interval, meanPathDelay: Interval)

  datatype ParentDS = ParentDS(
    parentPortIdentity: PortIdentity, grandmasterIdentity: ClockIdentity,
    grandmasterClockQuality: ClockQuality, grandmasterPriority1: Octet,
    grandmasterPriority2: Octet)

  datatype TimePropertiesDS = TimePropertiesDS(
    currentUtcOffset: int, currentUtcOffsetValid: bool, leap59: bool, leap61: bool,
    timeTraceable: bool, frequencyTraceable: bool, ptpTimescale: bool, timeSource: Octet)

  /** `memcmp` on equally long strings of octets, reduced to the sign of its result. */
  function Memcmp(a: seq<int>, b: seq<int>): (r: int)
    requires |a| == |b|
    ensures -1 <= r <= 1
  {
    if |a| == 0 then 0
    else if a[0] < b[0] then -1
    else if a[0] > b[0] then 1
    else Memcmp(a[1..], b[1..])
  }

  lemma {:induction false} MemcmpAntisymmetric(a: seq<int>, b: seq<int>)
    requires |a| == |b|
    ensures Memcmp(a, b) == -Memcmp(b, a)
    ensures Memcmp(a, b) == 0 <==> a == b
  {
    if |a| > 0 {
      MemcmpAntisymmetric(a[1..], b[1..]);
      assert a == [a[0]] + a[1..] && b == [b[0]] + b[1..];
    }
  }

  lemma {:induction false} MemcmpTransitive(a: seq<int>, b: seq<int>, c: seq<int>)
    requires |a| == |b| == |c|
    requires Memcmp(a, b) <= 0 && Memcmp(b, c) <= 0
    ensures Memcmp(a, c) <= 0
    ensures Memcmp(a, c) == 0 ==> Memcmp(a, b) == 0 && Memcmp(b, c) == 0
  {
    if |a| > 0 && a[0] == b[0] == c[0] {
      MemcmpTransitive(a[1..], b[1..], c[1..]);
    }
  }

  lemma {:induction false} MemcmpConcat(a: seq<int>, b: seq<int>, c: seq<int>, d: seq<int>)
    requires |a| == |c| && |b| == |d|
    ensures Memcmp(a + b, c + d) == if Memcmp(a, c) != 0 then Memcmp(a, c) else Memcmp(b, d)
  {
    if |a| == 0 {
      assert a + b == b && c + d == d;
    } else {
      MemcmpConcat(a[1..], b, c[1..], d);
      assert (a + b)[1..] == a[1..] + b && (c + d)[1..] == c[1..] + d;
    }
  }

  lemma MemcmpCons(x: int, a: seq<int>, y: int, b: seq<int>)
    requires |a| == |b|
    ensures Memcmp([x] + a, [y] + b) == if x == y then Memcmp(a, b) else Sign(x - y)
  {
  }
}
