/** Several clocks that each run the best master clock algorithm on the announces of all the
    others: the agreement that IEEE 1588-2008 sections 9.3.2 and 9.3.3 are for, and what
    the code's selection scan makes of it. */
module Agreement {
  import opened CInt
  import opened PtpData
  import opened DataSetComparison
  import opened ForeignMasters
  import opened BestMasterClock

  // ---------------------------------------------------------------------------------------------
  // The network

  /** A clock set up by `initData` that may become master or slave. */
  predicate SetUp(c: ClockState, mac: MacAddress) {
    && c.defaultDS.clockIdentity == Eui64(mac)
    && c.portIdentity == PortIdentity(Eui64(mac), NUMBER_PORTS)
    && c.defaultDS.clockQuality.clockClass >= 128
  }

  ghost predicate Network(cs: seq<ClockState>, macs: seq<MacAddress>) {
    && 2 <= |cs| == |macs|
    && (forall k | 0 <= k < |cs| :: SetUp(cs[k], macs[k]))
    && (forall k, l | 0 <= k < l < |macs| :: macs[k] != macs[l])
  }

  /** An announce that a clock sends while it stands for its own data set D0. */
  predicate AnnouncesD0(m: Announce, c: ClockState) {
    && m.header.sourcePortIdentity == c.portIdentity
    && m.body.grandmasterPriority1 == c.defaultDS.priority1
    && m.body.grandmasterIdentity == c.defaultDS.clockIdentity
    && m.body.grandmasterClockQuality == c.defaultDS.clockQuality
    && m.body.grandmasterPriority2 == c.defaultDS.priority2
    && m.body.stepsRemoved == 0
  }

  ghost predicate FromOther(m: Announce, cs: seq<ClockState>, k: nat) {
    exists j :: 0 <= j < |cs| && j != k && AnnouncesD0(m, cs[j])
  }

  ghost predicate Holds(t: Table, c: ClockState)
    requires t.InBounds()
  {
    exists s :: 0 <= s < t.count && AnnouncesD0(t.records[s].heard, c)
  }

  /** The table of clock k holds the announces of all the other clocks and nothing else. */
  ghost predicate HoldsAllOthers(cs: seq<ClockState>, k: nat)
    requires k < |cs|
  {
    var t := cs[k].foreignMasterDS;
    && t.InBounds()
    && (forall s | 0 <= s < t.count :: FromOther(t.records[s].heard, cs, k))
    && (forall j | 0 <= j < |cs| && j != k :: Holds(t, cs[j]))
  }

  /** A network in which every clock holds the announces of all the others. */
  ghost predicate Informed(cs: seq<ClockState>, macs: seq<MacAddress>) {
    && Network(cs, macs)
    && (forall k | 0 <= k < |cs| :: cs[k].foreignMasterDS.InBounds())
    && (forall k | 0 <= k < |cs| :: HoldsAllOthers(cs, k))
  }

  // ---------------------------------------------------------------------------------------------
  // The order of the clocks

  /** A representative announce of a clock's own data set. */
  function D0(c: ClockState): Announce {
    Announce(
      MsgHeader(0, 0, 0, c.portIdentity, 0),
      MsgAnnounce(0, c.defaultDS.priority1, c.defaultDS.clockQuality, c.defaultDS.priority2,
                  c.defaultDS.clockIdentity, 0, 0))
  }

  /** Clock c is better than clock d. */
  predicate Beats(c: ClockState, d: ClockState) {
    Compare(D0(c), D0(d), c.portIdentity.clockIdentity) > 0
  }

  lemma IdentitiesDiffer(cs: seq<ClockState>, macs: seq<MacAddress>, k: nat, l: nat)
    requires Network(cs, macs) && k < |cs| && l < |cs| && k != l
    ensures cs[k].defaultDS.clockIdentity != cs[l].defaultDS.clockIdentity
  {
    assert SetUp(cs[k], macs[k]) && SetUp(cs[l], macs[l]);
    Eui64Injective(macs[k], macs[l]);
    assert macs[k] != macs[l];
  }

  /** Announces of two clocks compare as the clocks do, whoever receives them. */
  lemma CompareAnnounces(a: Announce, b: Announce, c: ClockState, d: ClockState, self: ClockIdentity)
    requires AnnouncesD0(a, c) && AnnouncesD0(b, d)
    requires c.defaultDS.clockIdentity != d.defaultDS.clockIdentity
    ensures Compare(a, b, self) == if Beats(c, d) then A_BETTER else B_BETTER
    ensures Beats(c, d) <==> !Beats(d, c)
  {
    MemcmpAntisymmetric(c.defaultDS.clockIdentity, d.defaultDS.clockIdentity);
    CompareAntisymmetric(D0(c), D0(d), self);
  }

  lemma BeatsIsStrict(cs: seq<ClockState>, macs: seq<MacAddress>, k: nat, l: nat)
    requires Network(cs, macs) && k < |cs| && l < |cs| && k != l
    ensures Beats(cs[k], cs[l]) <==> !Beats(cs[l], cs[k])
  {
    IdentitiesDiffer(cs, macs, k, l);
    CompareAnnounces(D0(cs[k]), D0(cs[l]), cs[k], cs[l], cs[k].portIdentity.clockIdentity);
  }

  /** On announces of the network the comparison is an order. */
  lemma AnnouncesOrdered(cs: seq<ClockState>, macs: seq<MacAddress>, s: seq<Announce>, k: nat, self: ClockIdentity)
    requires Network(cs, macs)
    requires forall a | a in s :: FromOther(a, cs, k)
    ensures IsPreorder(s, self)
  {
    forall a, b | a in s && b in s
      ensures Consistent(a, b) && !OwnEcho(a, b, self)
    {
      var j :| 0 <= j < |cs| && j != k && AnnouncesD0(a, cs[j]);
      var l :| 0 <= l < |cs| && l != k && AnnouncesD0(b, cs[l]);
      if j != l {
        IdentitiesDiffer(cs, macs, j, l);
      }
    }
    OrderlyIsPreorder(s, self);
  }

  ghost predicate IsBest(cs: seq<ClockState>, m: nat) {
    m < |cs| && forall k | 0 <= k < |cs| && k != m :: Beats(cs[m], cs[k])
  }

  ghost predicate IsWorst(cs: seq<ClockState>, w: nat) {
    w < |cs| && forall k | 0 <= k < |cs| && k != w :: Beats(cs[k], cs[w])
  }

  /** Some clock beats all the others and another is beaten by all the others. */
  lemma Extremes(cs: seq<ClockState>, macs: seq<MacAddress>) returns (best: nat, worst: nat)
    requires Network(cs, macs)
    ensures IsBest(cs, best) && IsWorst(cs, worst) && best != worst
  {
    var s := seq(|cs|, k requires 0 <= k < |cs| => D0(cs[k]));
    var self := cs[0].portIdentity.clockIdentity;
    assert IsPreorder(s, self) by {
      forall a | a in s
        ensures FromOther(a, cs, |cs|)
      {
        var j :| 0 <= j < |s| && s[j] == a;
        assert AnnouncesD0(a, cs[j]);
      }
      AnnouncesOrdered(cs, macs, s, |cs|, self);
    }
    ScanExtremal(s, self);
    best, worst := Scan(s, self, Intended), Scan(s, self, AsWritten);
    forall k | 0 <= k < |cs| && k != best
      ensures Beats(cs[best], cs[k])
    {
      IdentitiesDiffer(cs, macs, k, best);
      CompareAnnounces(s[k], s[best], cs[k], cs[best], self);
    }
    forall k | 0 <= k < |cs| && k != worst
      ensures Beats(cs[k], cs[worst])
    {
      IdentitiesDiffer(cs, macs, k, worst);
      CompareAnnounces(s[k], s[worst], cs[k], cs[worst], self);
    }
    BestIsNotWorst(cs, macs, best, worst);
  }

  lemma BestIsNotWorst(cs: seq<ClockState>, macs: seq<MacAddress>, best: nat, worst: nat)
    requires Network(cs, macs) && IsBest(cs, best) && IsWorst(cs, worst)
    ensures best != worst
  {
    var other := if best == 0 then 1 else 0;
    BeatsIsStrict(cs, macs, best, other);
  }

  // ---------------------------------------------------------------------------------------------
  // One clock

  /** The announce that `bmc` selects at clock c. */
  function Selected(c: ClockState, sign: ScanSign): Announce
    requires c.foreignMasterDS.InBounds()
  {
    var t := Select(c.foreignMasterDS, c.portIdentity.clockIdentity, sign);
    t.records[t.best].heard
  }

  lemma HeardFromOthers(cs: seq<ClockState>, k: nat, a: Announce)
    requires k < |cs| && HoldsAllOthers(cs, k) && a in cs[k].foreignMasterDS.Heard()
    ensures FromOther(a, cs, k)
  {
  }

  lemma HeardOrdered(cs: seq<ClockState>, macs: seq<MacAddress>, k: nat)
    requires Informed(cs, macs) && k < |cs|
    ensures var t := cs[k].foreignMasterDS;
      t.count > 0 && IsPreorder(t.Heard(), cs[k].portIdentity.clockIdentity)
  {
    var t := cs[k].foreignMasterDS;
    assert HoldsAllOthers(cs, k);
    assert Holds(t, cs[if k == 0 then 1 else 0]);
    forall a | a in t.Heard()
      ensures FromOther(a, cs, k)
    {
      HeardFromOthers(cs, k, a);
    }
    AnnouncesOrdered(cs, macs, t.Heard(), k, cs[k].portIdentity.clockIdentity);
  }

  lemma SelectedAgainst(cs: seq<ClockState>, macs: seq<MacAddress>, k: nat, j: nat, l: nat, sign: ScanSign)
    requires Informed(cs, macs) && k < |cs| && j < |cs| && l < |cs| && l != k && l != j
    requires AnnouncesD0(Selected(cs[k], sign), cs[j])
    ensures if sign.AsWritten? then Beats(cs[l], cs[j]) else Beats(cs[j], cs[l])
  {
    var t := cs[k].foreignMasterDS;
    var self := cs[k].portIdentity.clockIdentity;
    var s := t.Heard();
    HeardOrdered(cs, macs, k);
    assert HoldsAllOthers(cs, k);
    assert Holds(t, cs[l]);
    var r :| 0 <= r < t.count && AnnouncesD0(t.records[r].heard, cs[l]);
    assert s[r] == t.records[r].heard;
    SelectedIsExtreme(s, s[r], self, sign);
    IdentitiesDiffer(cs, macs, l, j);
    CompareAnnounces(s[r], Selected(cs[k], sign), cs[l], cs[j], self);
  }

  /** Clock k selects the announce of another clock j: as written one that all the remaining
      clocks beat, as intended one that beats all the remaining clocks. */
  lemma SelectionOf(cs: seq<ClockState>, macs: seq<MacAddress>, k: nat, sign: ScanSign)
    returns (j: nat)
    requires Informed(cs, macs) && k < |cs|
    ensures j < |cs| && j != k && AnnouncesD0(Selected(cs[k], sign), cs[j])
    ensures forall l | 0 <= l < |cs| && l != k && l != j ::
              if sign.AsWritten? then Beats(cs[l], cs[j]) else Beats(cs[j], cs[l])
    ensures cs[k].foreignMasterDS.count > 0
  {
    HeardOrdered(cs, macs, k);
    assert HoldsAllOthers(cs, k);
    assert FromOther(Selected(cs[k], sign), cs, k);
    j :| 0 <= j < |cs| && j != k && AnnouncesD0(Selected(cs[k], sign), cs[j]);
    forall l | 0 <= l < |cs| && l != k && l != j
      ensures if sign.AsWritten? then Beats(cs[l], cs[j]) else Beats(cs[j], cs[l])
    {
      SelectedAgainst(cs, macs, k, j, l, sign);
    }
  }

  /** A slave's view: its parent and its grandmaster are that clock, one step away. */
  predicate FollowsDirectly(c: ClockState, master: ClockState) {
    && c.parentDS.parentPortIdentity == master.portIdentity
    && c.parentDS.grandmasterIdentity == master.defaultDS.clockIdentity
    && c.currentDS.stepsRemoved == 1
  }

  /** A clock becomes master when it beats the clock it selected, and its slave otherwise. */
  lemma DecisionAgainst(c: ClockState, d: ClockState, sign: ScanSign)
    requires c.foreignMasterDS.InBounds() && c.foreignMasterDS.count > 0
    requires c.defaultDS.clockQuality.clockClass >= 128
    requires c.portIdentity.clockIdentity == c.defaultDS.clockIdentity != d.defaultDS.clockIdentity
    requires AnnouncesD0(Selected(c, sign), d)
    ensures var (c', state) := Decide(c, sign);
      if Beats(c, d) then state == MASTER else state == SLAVE && FollowsDirectly(c', d)
  {
    var t := Select(c.foreignMasterDS, c.portIdentity.clockIdentity, sign);
    DecisionFollowsTheBetter(c.(foreignMasterDS := t), Selected(c, sign));
  }

  lemma DecisionOf(cs: seq<ClockState>, macs: seq<MacAddress>, k: nat, j: nat, sign: ScanSign)
    requires Network(cs, macs) && k < |cs| && j < |cs| && j != k
    requires cs[k].foreignMasterDS.InBounds() && cs[k].foreignMasterDS.count > 0
    requires AnnouncesD0(Selected(cs[k], sign), cs[j])
    ensures var (c, state) := Decide(cs[k], sign);
      if Beats(cs[k], cs[j]) then state == MASTER else state == SLAVE && FollowsDirectly(c, cs[j])
  {
    assert SetUp(cs[k], macs[k]);
    IdentitiesDiffer(cs, macs, k, j);
    DecisionAgainst(cs[k], cs[j], sign);
  }

  // ---------------------------------------------------------------------------------------------
  // All clocks

  ghost function AllClocks(n: nat): (s: set<nat>)
    ensures forall k: nat :: k in s <==> k < n
    ensures |s| == n
  {
    if n == 0 then {} else AllClocks(n - 1) + {n - 1}
  }

  /** The clocks that the algorithm recommends as masters. */
  ghost function Masters(cs: seq<ClockState>, sign: ScanSign): set<nat>
    requires forall k | 0 <= k < |cs| :: cs[k].foreignMasterDS.InBounds()
  {
    set k: nat | k < |cs| && Decide(cs[k], sign).1 == MASTER
  }

  /** With a scan that keeps the better record exactly one clock becomes master, the one that
      beats all others, and every other clock becomes its slave at distance one. */
  lemma IntendedAgreement(cs: seq<ClockState>, macs: seq<MacAddress>) returns (master: nat)
    requires Informed(cs, macs)
    ensures IsBest(cs, master) && Masters(cs, Intended) == {master}
    ensures forall k | 0 <= k < |cs| && k != master ::
              Decide(cs[k], Intended).1 == SLAVE && FollowsDirectly(Decide(cs[k], Intended).0, cs[master])
  {
    var worst;
    master, worst := Extremes(cs, macs);
    forall k | 0 <= k < |cs|
      ensures k == master ==> Decide(cs[k], Intended).1 == MASTER
      ensures k != master ==> Decide(cs[k], Intended).1 == SLAVE && FollowsDirectly(Decide(cs[k], Intended).0, cs[master])
    {
      var j := SelectionOf(cs, macs, k, Intended);
      DecisionOf(cs, macs, k, j, Intended);
      if k != master {
        BeatsIsStrict(cs, macs, k, master);
        if j != master {
          BeatsIsStrict(cs, macs, j, master);
        }
      }
    }
  }

  /** As written, every clock but the worst one becomes master; the worst becomes a slave. */
  lemma AsWrittenAllButOne(cs: seq<ClockState>, macs: seq<MacAddress>) returns (worst: nat)
    requires Informed(cs, macs)
    ensures IsWorst(cs, worst) && Decide(cs[worst], AsWritten).1 == SLAVE
    ensures Masters(cs, AsWritten) == AllClocks(|cs|) - {worst}
    ensures |Masters(cs, AsWritten)| == |cs| - 1
  {
    var best;
    best, worst := Extremes(cs, macs);
    forall k | 0 <= k < |cs|
      ensures k == worst ==> Decide(cs[k], AsWritten).1 == SLAVE
      ensures k != worst ==> Decide(cs[k], AsWritten).1 == MASTER
    {
      var j := SelectionOf(cs, macs, k, AsWritten);
      DecisionOf(cs, macs, k, j, AsWritten);
      if k == worst {
        BeatsIsStrict(cs, macs, k, j);
      } else if j != worst {
        BeatsIsStrict(cs, macs, j, worst);
      }
    }
    assert worst in AllClocks(|cs|);
  }

  /** The scan as written elects the intended masters exactly in a network of two clocks. */
  lemma AsWrittenAgreesForTwo(cs: seq<ClockState>, macs: seq<MacAddress>)
    requires Informed(cs, macs)
    ensures Masters(cs, AsWritten) == Masters(cs, Intended) <==> |cs| == 2
  {
    var master := IntendedAgreement(cs, macs);
    var worst := AsWrittenAllButOne(cs, macs);
    if |cs| == 2 {
      BestIsNotWorst(cs, macs, master, worst);
    } else {
      assert |Masters(cs, Intended)| == 1;
    }
  }

  // ---------------------------------------------------------------------------------------------
  // From announces heard to informed clocks

  lemma {:induction false} LatestWasHeard(messages: seq<Announce>, id: PortIdentity)
    ensures Latest(messages, id).Some? ==>
              Latest(messages, id).value in messages && Sender(Latest(messages, id).value) == id
  {
    if |messages| > 0 {
      LatestWasHeard(messages[..|messages| - 1], id);
    }
  }

  lemma EntryWasHeard(messages: seq<Announce>, capacity: nat, l: nat)
    requires capacity > 0 && l < |Queue(messages, capacity)|
    ensures var e := Queue(messages, capacity)[l];
      e.heard in messages && Sender(e.heard) == e.identity
  {
    var q, log := Queue(messages, capacity), Entrances(messages, capacity);
    QueueIsWindowOfEntrances(messages, capacity);
    assert ReadOff(q[l], log[|log| - |q| + l], messages);
    LatestWasHeard(messages, q[l].identity);
  }

  /** A queue with room for every sender evicts none of them. */
  lemma {:induction false} NobodyLeaves(messages: seq<Announce>, capacity: nat, senders: set<PortIdentity>)
    requires |senders| <= capacity && capacity > 0
    requires forall m | m in messages :: Sender(m) in senders
    ensures forall m | m in messages :: Position(Queue(messages, capacity), Sender(m)).Some?
    ensures forall k | 0 <= k < |Queue(messages, capacity)| :: Queue(messages, capacity)[k].identity in senders
  {
    if |messages| > 0 {
      var before, m := messages[..|messages| - 1], messages[|messages| - 1];
      NobodyLeaves(before, capacity, senders);
      QueueDistinct(before, capacity);
      HearsWithoutLoss(Queue(before, capacity), capacity, m, senders);
      assert messages == before + [m];
    }
  }

  lemma HearsWithoutLoss(q: seq<Entry>, capacity: nat, m: Announce, senders: set<PortIdentity>)
    requires |q| <= capacity && |senders| <= capacity && capacity > 0 && Distinct(q)
    requires Sender(m) in senders && forall k | 0 <= k < |q| :: q[k].identity in senders
    ensures var q' := Hear(q, capacity, m);
      && Position(q', Sender(m)).Some?
      && (forall id :: Position(q, id).Some? ==> Position(q', id).Some?)
      && forall k | 0 <= k < |q'| :: q'[k].identity in senders
  {
    var q' := Hear(q, capacity, m);
    if Position(q, Sender(m)).None? {
      DistinctCount(q, senders - {Sender(m)});
    }
    forall id | Position(q, id).Some?
      ensures Position(q', id).Some?
    {
      assert q'[Position(q, id).value].identity == id;
    }
    assert exists k :: 0 <= k < |q'| && q'[k].identity == Sender(m) by {
      match Position(q, Sender(m))
      case Some(k) => assert q'[k].identity == Sender(m);
      case None => assert q'[|q'| - 1].identity == Sender(m);
    }
  }

  lemma {:induction false} DistinctCount(q: seq<Entry>, ids: set<PortIdentity>)
    requires Distinct(q) && forall k | 0 <= k < |q| :: q[k].identity in ids
    ensures |q| <= |ids|
  {
    if |q| > 0 {
      DistinctCount(q[1..], ids - {q[0].identity});
    }
  }

  ghost function OtherPorts(cs: seq<ClockState>, k: nat, n: nat): (s: set<PortIdentity>)
    requires n <= |cs|
    ensures forall j | 0 <= j < n && j != k :: cs[j].portIdentity in s
    ensures |s| <= if k < n then n - 1 else n
  {
    if n == 0 then {}
    else if n - 1 == k then OtherPorts(cs, k, n - 1)
    else OtherPorts(cs, k, n - 1) + {cs[n - 1].portIdentity}
  }

  ghost predicate OnlyFromOthers(cs: seq<ClockState>, k: nat, messages: seq<Announce>) {
    forall m | m in messages :: FromOther(m, cs, k)
  }

  ghost predicate ToldOf(c: ClockState, messages: seq<Announce>) {
    exists m :: m in messages && AnnouncesD0(m, c)
  }

  /** What clock k has been told so far: announces of the other clocks' data sets, in any order
      and number, at least one of each. */
  ghost predicate ToldOfAllOthers(cs: seq<ClockState>, k: nat, messages: seq<Announce>) {
    && OnlyFromOthers(cs, k, messages)
    && forall j | 0 <= j < |cs| && j != k :: ToldOf(cs[j], messages)
  }

  /** A fresh table with room for all the other clocks ends up holding exactly their announces,
      whatever the order in which they were heard and however often clocks were selected. */
  lemma RunInforms(cs: seq<ClockState>, macs: seq<MacAddress>, k: nat, empty: Table, steps: seq<Step>, sign: ScanSign)
    requires Network(cs, macs) && k < |cs|
    requires Fresh(empty) && empty.capacity >= |cs| - 1
    requires ToldOfAllOthers(cs, k, Messages(steps))
    requires cs[k].foreignMasterDS == Run(empty, steps, cs[k].portIdentity.clockIdentity, sign)
    ensures HoldsAllOthers(cs, k)
  {
    var t, messages := cs[k].foreignMasterDS, Messages(steps);
    var q := Queue(messages, empty.capacity);
    RunRefinesQueue(empty, steps, cs[k].portIdentity.clockIdentity, sign);
    forall s | 0 <= s < t.count
      ensures FromOther(t.records[s].heard, cs, k)
    {
      var l := SlotOf(t, s);
      assert Matches(t.records[s], q[l]);
      EntryWasHeard(messages, empty.capacity, l);
    }
    forall j | 0 <= j < |cs| && j != k
      ensures Holds(t, cs[j])
    {
      assert ToldOf(cs[j], messages);
      var m :| m in messages && AnnouncesD0(m, cs[j]);
      InformedOf(cs, macs, k, j, m, empty.capacity, messages, t);
    }
  }

  lemma InformedOf(cs: seq<ClockState>, macs: seq<MacAddress>, k: nat, j: nat, m: Announce, capacity: nat, messages: seq<Announce>, t: Table)
    requires Network(cs, macs) && k < |cs| && j < |cs| && j != k
    requires capacity > 0 && capacity >= |cs| - 1 && OnlyFromOthers(cs, k, messages)
    requires m in messages && AnnouncesD0(m, cs[j])
    requires Represents(t, Queue(messages, capacity))
    ensures Holds(t, cs[j])
  {
    SendersAreOthers(cs, k, messages);
    NobodyLeaves(messages, capacity, OtherPorts(cs, k, |cs|));
    var l := Position(Queue(messages, capacity), Sender(m)).value;
    var e := Queue(messages, capacity)[l];
    assert Matches(t.records[Slot(t, l)], e);
    EntryWasHeard(messages, capacity, l);
    SenderIsOneClock(cs, macs, k, j, e.heard);
  }

  lemma SendersAreOthers(cs: seq<ClockState>, k: nat, messages: seq<Announce>)
    requires k < |cs| && OnlyFromOthers(cs, k, messages)
    ensures forall m | m in messages :: Sender(m) in OtherPorts(cs, k, |cs|)
  {
  }

  /** An announce of the network carries the data set of its sender. */
  lemma SenderIsOneClock(cs: seq<ClockState>, macs: seq<MacAddress>, k: nat, j: nat, m: Announce)
    requires Network(cs, macs) && j < |cs|
    requires FromOther(m, cs, k) && Sender(m) == cs[j].portIdentity
    ensures AnnouncesD0(m, cs[j])
  {
    var l :| 0 <= l < |cs| && l != k && AnnouncesD0(m, cs[l]);
    assert SetUp(cs[j], macs[j]) && SetUp(cs[l], macs[l]);
    if l != j {
      IdentitiesDiffer(cs, macs, l, j);
    }
  }

  /** End to end: clocks with fresh tables that have room for one another, and that have been
      told of one another in any way, are informed; the three results above apply to them. */
  lemma ToldClocksAreInformed(cs: seq<ClockState>, macs: seq<MacAddress>, empty: seq<Table>, steps: seq<seq<Step>>, sign: ScanSign)
    requires Network(cs, macs) && |empty| == |steps| == |cs|
    requires forall k | 0 <= k < |cs| ::
               && Fresh(empty[k]) && empty[k].capacity >= |cs| - 1
               && ToldOfAllOthers(cs, k, Messages(steps[k]))
               && cs[k].foreignMasterDS == Run(empty[k], steps[k], cs[k].portIdentity.clockIdentity, sign)
    ensures Informed(cs, macs)
  {
    forall k | 0 <= k < |cs|
      ensures HoldsAllOthers(cs, k)
    {
      RunInforms(cs, macs, k, empty[k], steps[k], sign);
    }
  }
}
