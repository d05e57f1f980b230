/** The data set comparison of IEEE 1588-2008 section 9.3.4 (Figures 27 and 28) and the
    selection scan of section 9.3.2, as written in ptpd-2.0.0/src/bmc.c. */
module DataSetComparison {
  import opened CInt
  import opened PtpData

  const A_BETTER := 1
  const B_BETTER := -1
  const INDISTINGUISHABLE := 0

  /** `bmcDataSetComparison`: 1 when A is better, -1 when B is better, 0 for the two errors.
      `self` is the clock identity of the receiving port. */
  function Compare(a: Announce, b: Announce, self: ClockIdentity): int {
    var gm := Memcmp(a.body.grandmasterIdentity, b.body.grandmasterIdentity);
    if gm != 0 then CompareGrandmasters(a.body, b.body, gm) else CompareTopology(a, b, self)
  }

  /** Figure 27: two different grandmasters. */
  function CompareGrandmasters(a: MsgAnnounce, b: MsgAnnounce, gm: int): int {
    var qa, qb := a.grandmasterClockQuality, b.grandmasterClockQuality;
    if a.grandmasterPriority1 > b.grandmasterPriority1 then B_BETTER
    else if b.grandmasterPriority1 > a.grandmasterPriority1 then A_BETTER
    else if qa.clockClass > qb.clockClass then B_BETTER
    else if qb.clockClass > qa.clockClass then A_BETTER
    else if qa.clockAccuracy > qb.clockAccuracy then B_BETTER
    else if qb.clockAccuracy > qa.clockAccuracy then A_BETTER
    else if qa.offsetScaledLogVariance > qb.offsetScaledLogVariance then B_BETTER
    else if qb.offsetScaledLogVariance > qa.offsetScaledLogVariance then A_BETTER
    else if a.grandmasterPriority2 > b.grandmasterPriority2 then B_BETTER
    else if b.grandmasterPriority2 > a.grandmasterPriority2 then A_BETTER
    else if gm > 0 then B_BETTER
    else A_BETTER
  }

  /** Figure 28: two paths to the same grandmaster. */
  function CompareTopology(a: Announce, b: Announce, self: ClockIdentity): int {
    var idA, idB := a.header.sourcePortIdentity.clockIdentity, b.header.sourcePortIdentity.clockIdentity;
    if a.body.stepsRemoved > b.body.stepsRemoved + 1 then B_BETTER
    else if b.body.stepsRemoved > a.body.stepsRemoved + 1 then A_BETTER
    else if a.body.stepsRemoved > b.body.stepsRemoved then
      if Memcmp(idA, self) != 0 then B_BETTER else INDISTINGUISHABLE
    else if a.body.stepsRemoved < b.body.stepsRemoved then
      if Memcmp(idB, self) != 0 then A_BETTER else INDISTINGUISHABLE
    else if Memcmp(idA, idB) > 0 then B_BETTER
    else if Memcmp(idA, idB) < 0 then A_BETTER
    else INDISTINGUISHABLE
  }

  lemma CompareAntisymmetric(a: Announce, b: Announce, self: ClockIdentity)
    ensures Compare(a, b, self) == -Compare(b, a, self)
  {
    MemcmpAntisymmetric(a.body.grandmasterIdentity, b.body.grandmasterIdentity);
    MemcmpAntisymmetric(a.header.sourcePortIdentity.clockIdentity, b.header.sourcePortIdentity.clockIdentity);
  }

  // ---------------------------------------------------------------------------------------------
  // Lexicographic order

  /** The fields in the order in which the standard ranks them; smaller is better. */
  function Key(a: Announce): (k: seq<int>)
    ensures |k| == 22
  {
    var q := a.body.grandmasterClockQuality;
    [a.body.grandmasterPriority1] + ([q.clockClass as int] + ([q.clockAccuracy as int]
      + ([q.offsetScaledLogVariance as int] + ([a.body.grandmasterPriority2 as int]
      + (a.body.grandmasterIdentity + ([a.body.stepsRemoved as int]
      + a.header.sourcePortIdentity.clockIdentity))))))
  }

  /** The lexicographic comparison, in the result convention of `Compare`. */
  function CompareKeys(a: Announce, b: Announce): int {
    Memcmp(Key(b), Key(a))
  }

  predicate SameAttributes(a: MsgAnnounce, b: MsgAnnounce) {
    var qa, qb := a.grandmasterClockQuality, b.grandmasterClockQuality;
    && a.grandmasterPriority1 == b.grandmasterPriority1
    && qa.clockClass == qb.clockClass
    && qa.clockAccuracy == qb.clockAccuracy
    && qa.offsetScaledLogVariance == qb.offsetScaledLogVariance
    && a.grandmasterPriority2 == b.grandmasterPriority2
  }

  /** Equal grandmaster identities carry equal grandmaster attributes. */
  predicate Consistent(a: Announce, b: Announce) {
    a.body.grandmasterIdentity == b.body.grandmasterIdentity ==> SameAttributes(a.body, b.body)
  }

  /** `far` is one hop behind `near` on the way to the same grandmaster, and this clock sent it. */
  predicate OwnEcho(far: Announce, near: Announce, self: ClockIdentity) {
    && far.body.grandmasterIdentity == near.body.grandmasterIdentity
    && far.body.stepsRemoved == near.body.stepsRemoved + 1
    && far.header.sourcePortIdentity.clockIdentity == self
  }

  lemma KeyOrder(a: Announce, b: Announce)
    ensures CompareKeys(a, b) ==
      if SameAttributes(a.body, b.body) && a.body.grandmasterIdentity == b.body.grandmasterIdentity then
        if a.body.stepsRemoved == b.body.stepsRemoved then
          Memcmp(b.header.sourcePortIdentity.clockIdentity, a.header.sourcePortIdentity.clockIdentity)
        else Sign(b.body.stepsRemoved - a.body.stepsRemoved)
      else CompareGrandmasters(a.body, b.body, Memcmp(a.body.grandmasterIdentity, b.body.grandmasterIdentity))
  {
    var qa, qb := a.body.grandmasterClockQuality, b.body.grandmasterClockQuality;
    var sa, sb := a.header.sourcePortIdentity.clockIdentity, b.header.sourcePortIdentity.clockIdentity;
    var ta, tb := [a.body.stepsRemoved as int] + sa, [b.body.stepsRemoved as int] + sb;
    var ga, gb := a.body.grandmasterIdentity + ta, b.body.grandmasterIdentity + tb;
    var pa, pb := [a.body.grandmasterPriority2 as int] + ga, [b.body.grandmasterPriority2 as int] + gb;
    var va, vb := [qa.offsetScaledLogVariance as int] + pa, [qb.offsetScaledLogVariance as int] + pb;
    var ca, cb := [qa.clockAccuracy as int] + va, [qb.clockAccuracy as int] + vb;
    assert Key(a) == [a.body.grandmasterPriority1] + ([qa.clockClass as int] + ca);
    assert Key(b) == [b.body.grandmasterPriority1] + ([qb.clockClass as int] + cb);
    MemcmpCons(b.body.grandmasterPriority1, [qb.clockClass as int] + cb, a.body.grandmasterPriority1, [qa.clockClass as int] + ca);
    MemcmpCons(qb.clockClass, cb, qa.clockClass, ca);
    MemcmpCons(qb.clockAccuracy, vb, qa.clockAccuracy, va);
    MemcmpCons(qb.offsetScaledLogVariance, pb, qa.offsetScaledLogVariance, pa);
    MemcmpCons(b.body.grandmasterPriority2, gb, a.body.grandmasterPriority2, ga);
    MemcmpConcat(b.body.grandmasterIdentity, tb, a.body.grandmasterIdentity, ta);
    MemcmpCons(b.body.stepsRemoved, sb, a.body.stepsRemoved, sa);
    MemcmpAntisymmetric(a.body.grandmasterIdentity, b.body.grandmasterIdentity);
  }

  /** On announces whose grandmaster attributes agree with their grandmaster identity the
      two-part algorithm is lexicographic comparison, except exactly when one of the two
      is this clock's own announce coming back from one hop further. */
  lemma CompareIsLexicographic(a: Announce, b: Announce, self: ClockIdentity)
    requires Consistent(a, b)
    ensures Compare(a, b, self) == CompareKeys(a, b) <==> !OwnEcho(a, b, self) && !OwnEcho(b, a, self)
  {
    KeyOrder(a, b);
    MemcmpAntisymmetric(a.body.grandmasterIdentity, b.body.grandmasterIdentity);
    var sa, sb := a.header.sourcePortIdentity.clockIdentity, b.header.sourcePortIdentity.clockIdentity;
    MemcmpAntisymmetric(sa, sb);
    MemcmpAntisymmetric(sa, self);
    MemcmpAntisymmetric(sb, self);
  }

  // ---------------------------------------------------------------------------------------------
  // Inconsistent attributes

  /** The grandmaster attributes in the order in which Figure 27 ranks them. */
  function Attributes(m: MsgAnnounce): (k: seq<int>)
    ensures |k| == 5
  {
    var q := m.grandmasterClockQuality;
    [m.grandmasterPriority1, q.clockClass, q.clockAccuracy, q.offsetScaledLogVariance, m.grandmasterPriority2]
  }

  /** m is lexicographically smaller than m' in its grandmaster attributes. */
  predicate Outranks(m: MsgAnnounce, m': MsgAnnounce) {
    Memcmp(Attributes(m), Attributes(m')) < 0
  }

  lemma AttributesDecide(a: MsgAnnounce, b: MsgAnnounce, gm: int)
    ensures var r := Memcmp(Attributes(a), Attributes(b));
      CompareGrandmasters(a, b, gm) == if r != 0 then -r else if gm > 0 then B_BETTER else A_BETTER
  {
    var x, y := Attributes(a), Attributes(b);
    assert x == [x[0]] + ([x[1]] + ([x[2]] + ([x[3]] + ([x[4]] + []))));
    assert y == [y[0]] + ([y[1]] + ([y[2]] + ([y[3]] + ([y[4]] + []))));
    MemcmpCons(x[0], [x[1]] + ([x[2]] + ([x[3]] + ([x[4]] + []))), y[0], [y[1]] + ([y[2]] + ([y[3]] + ([y[4]] + []))));
    MemcmpCons(x[1], [x[2]] + ([x[3]] + ([x[4]] + [])), y[1], [y[2]] + ([y[3]] + ([y[4]] + [])));
    MemcmpCons(x[2], [x[3]] + ([x[4]] + []), y[2], [y[3]] + ([y[4]] + []));
    MemcmpCons(x[3], [x[4]] + [], y[3], [y[4]] + []);
    MemcmpCons(x[4], [], y[4], []);
  }

  /** The whole comparison, without any hypothesis. Different grandmasters: the attributes, then the
      identities, in lexicographic order. One grandmaster: the steps removed, then the senders, in
      lexicographic order whatever the attributes say; but this clock's own announce from one hop
      further is neither better nor worse. */
  lemma CompareExactly(a: Announce, b: Announce, self: ClockIdentity)
    ensures a.body.grandmasterIdentity != b.body.grandmasterIdentity ==>
              Compare(a, b, self) == Memcmp(Attributes(b.body) + b.body.grandmasterIdentity, Attributes(a.body) + a.body.grandmasterIdentity)
    ensures a.body.grandmasterIdentity == b.body.grandmasterIdentity ==>
              Compare(a, b, self) ==
                if OwnEcho(a, b, self) || OwnEcho(b, a, self) then 0
                else Memcmp([b.body.stepsRemoved] + b.header.sourcePortIdentity.clockIdentity,
                            [a.body.stepsRemoved] + a.header.sourcePortIdentity.clockIdentity)
  {
    var ga, gb := a.body.grandmasterIdentity, b.body.grandmasterIdentity;
    var sa, sb := a.header.sourcePortIdentity.clockIdentity, b.header.sourcePortIdentity.clockIdentity;
    AttributesDecide(a.body, b.body, Memcmp(ga, gb));
    MemcmpConcat(Attributes(b.body), gb, Attributes(a.body), ga);
    MemcmpAntisymmetric(Attributes(a.body), Attributes(b.body));
    MemcmpAntisymmetric(ga, gb);
    MemcmpCons(b.body.stepsRemoved, sb, a.body.stepsRemoved, sa);
    MemcmpAntisymmetric(sa, sb);
    MemcmpAntisymmetric(sa, self);
    MemcmpAntisymmetric(sb, self);
  }

  /** a is better than c, c is better than b, and b is better than a. */
  predicate Circle(a: Announce, b: Announce, c: Announce, self: ClockIdentity) {
    Compare(a, c, self) > 0 && Compare(c, b, self) > 0 && Compare(b, a, self) > 0
  }

  /** c is an announce of another grandmaster that port p sent, and it closes the circle. */
  predicate ClosesCircle(a: Announce, b: Announce, c: Announce, p: PortIdentity, self: ClockIdentity) {
    && c.body.grandmasterIdentity != a.body.grandmasterIdentity
    && c.header.sourcePortIdentity == p
    && Circle(a, b, c, self)
  }

  /** If an announce of another grandmaster lies between a and b, a carries the better attributes. */
  lemma BetweenOutranks(a: Announce, b: Announce, c: Announce, self: ClockIdentity)
    requires a.body.grandmasterIdentity == b.body.grandmasterIdentity != c.body.grandmasterIdentity
    requires Compare(a, c, self) > 0 && Compare(c, b, self) > 0
    ensures Outranks(a.body, b.body)
  {
    var g, h := a.body.grandmasterIdentity, c.body.grandmasterIdentity;
    var x, y, z := Attributes(a.body), Attributes(c.body), Attributes(b.body);
    MemcmpAntisymmetric(g, h);
    AttributesDecide(a.body, c.body, Memcmp(g, h));
    AttributesDecide(c.body, b.body, Memcmp(h, g));
    MemcmpTransitive(x, y, z);
  }

  const LEAST_IDENTITY: ClockIdentity := [0, 0, 0, 0, 0, 0, 0, 0]
  const GREATEST_IDENTITY: ClockIdentity := [255, 255, 255, 255, 255, 255, 255, 255]

  lemma {:induction false} GreatestIsLast(s: seq<Octet>, top: seq<Octet>)
    requires |s| == |top| && forall i | 0 <= i < |top| :: top[i] == 255
    ensures Memcmp(s, top) <= 0
  {
    if |s| > 0 {
      GreatestIsLast(s[1..], top[1..]);
    }
  }

  /** An announce of port p that lies between a and b. */
  lemma Between(a: Announce, b: Announce, p: PortIdentity, self: ClockIdentity) returns (c: Announce)
    requires a.body.grandmasterIdentity == b.body.grandmasterIdentity && Outranks(a.body, b.body)
    ensures c.body.grandmasterIdentity != a.body.grandmasterIdentity && c.header.sourcePortIdentity == p
    ensures Compare(a, c, self) > 0 && Compare(c, b, self) > 0
  {
    var g := a.body.grandmasterIdentity;
    var h := if g == GREATEST_IDENTITY then LEAST_IDENTITY else GREATEST_IDENTITY;
    var like := if g == GREATEST_IDENTITY then b else a;
    c := Announce(like.header.(sourcePortIdentity := p), like.body.(grandmasterIdentity := h));
    GreatestIsLast(g, GREATEST_IDENTITY);
    MemcmpAntisymmetric(g, h);
    MemcmpAntisymmetric(Attributes(like.body), Attributes(c.body));
    AttributesDecide(a.body, c.body, Memcmp(g, h));
    AttributesDecide(c.body, b.body, Memcmp(h, g));
  }

  /** Two announces of one grandmaster are part of a circle with some announce of another
      grandmaster, from any given port, exactly when the one that is better by topology carries
      the worse attributes. Announces of one grandmaster with the same attributes never are. */
  lemma CircleExactly(a: Announce, b: Announce, p: PortIdentity, self: ClockIdentity)
    requires a.body.grandmasterIdentity == b.body.grandmasterIdentity
    ensures (exists c: Announce :: ClosesCircle(a, b, c, p, self)) <==>
              Outranks(a.body, b.body) && CompareTopology(b, a, self) > 0
  {
    MemcmpAntisymmetric(b.body.grandmasterIdentity, a.body.grandmasterIdentity);
    if Outranks(a.body, b.body) && CompareTopology(b, a, self) > 0 {
      var c := Between(a, b, p, self);
      assert ClosesCircle(a, b, c, p, self);
    }
    if c: Announce :| ClosesCircle(a, b, c, p, self) {
      BetweenOutranks(a, b, c, self);
    }
  }

  /** The senders of three announces are different clocks, none of them this one. */
  predicate DifferentSenders(a: Announce, b: Announce, c: Announce, self: ClockIdentity) {
    var x, y, z := a.header.sourcePortIdentity.clockIdentity, b.header.sourcePortIdentity.clockIdentity, c.header.sourcePortIdentity.clockIdentity;
    x != y && y != z && x != z && x != self && y != self && z != self
  }

  /** An identity that differs from the given one in its first octet. */
  function OtherIdentity(id: ClockIdentity, d: nat): (r: ClockIdentity)
    requires 0 < d < 256
    ensures r[0] != id[0] && r[0] == (id[0] as int + d) % 256
  {
    var first: int := id[0];
    id[0 := (first + d) % 256]
  }

  /** Two announces of one grandmaster, a with the better attributes and b with the shorter path. */
  lemma CrossedPair(x: PortIdentity, y: PortIdentity, self: ClockIdentity) returns (a: Announce, b: Announce)
    ensures a.header.sourcePortIdentity == x && b.header.sourcePortIdentity == y
    ensures a.body.grandmasterIdentity == b.body.grandmasterIdentity
    ensures Outranks(a.body, b.body) && CompareTopology(b, a, self) > 0
  {
    var q := ClockQuality(248, 254, 0);
    a := Announce(MsgHeader(0, 0, 0, x, 0), MsgAnnounce(0, 1, q, 0, LEAST_IDENTITY, 5, 0));
    b := Announce(MsgHeader(0, 0, 0, y, 0), MsgAnnounce(0, 3, q, 0, LEAST_IDENTITY, 0, 0));
    assert Attributes(a.body)[0] < Attributes(b.body)[0];
  }

  /** At every clock three announces of different other clocks can beat each other in a circle. */
  lemma ComparisonCycle(self: ClockIdentity)
    ensures exists a: Announce, b: Announce, c: Announce :: DifferentSenders(a, b, c, self) && Circle(a, b, c, self)
  {
    var x, y, z := PortIdentity(OtherIdentity(self, 1), 1), PortIdentity(OtherIdentity(self, 2), 1), PortIdentity(OtherIdentity(self, 3), 1);
    var a, b := CrossedPair(x, y, self);
    CircleExactly(a, b, z, self);
    var c: Announce :| ClosesCircle(a, b, c, z, self);
    assert DifferentSenders(a, b, c, self) && Circle(a, b, c, self);
  }

  // ---------------------------------------------------------------------------------------------
  // Selection scan

  /** Transitivity on a table; reflexivity and totality follow from antisymmetry. */
  ghost predicate IsPreorder(s: seq<Announce>, self: ClockIdentity) {
    forall a, b, c | a in s && b in s && c in s ::
      Compare(a, b, self) >= 0 && Compare(b, c, self) >= 0 ==> Compare(a, c, self) >= 0
  }

  /** The hypotheses under which `Compare` is the lexicographic order throughout a table. */
  ghost predicate Orderly(s: seq<Announce>, self: ClockIdentity) {
    forall a, b | a in s && b in s :: Consistent(a, b) && !OwnEcho(a, b, self)
  }

  lemma OrderlyIsPreorder(s: seq<Announce>, self: ClockIdentity)
    requires Orderly(s, self)
    ensures IsPreorder(s, self)
    ensures forall a, b | a in s && b in s :: Compare(a, b, self) == 0 ==> Key(a) == Key(b)
  {
    forall a, b | a in s && b in s
      ensures Compare(a, b, self) == CompareKeys(a, b)
      ensures Compare(a, b, self) == 0 ==> Key(a) == Key(b)
    {
      CompareIsLexicographic(a, b, self);
      MemcmpAntisymmetric(Key(b), Key(a));
    }
    forall a, b, c | a in s && b in s && c in s && Compare(a, b, self) >= 0 && Compare(b, c, self) >= 0
      ensures Compare(a, c, self) >= 0
    {
      MemcmpAntisymmetric(Key(b), Key(a));
      MemcmpAntisymmetric(Key(c), Key(b));
      MemcmpAntisymmetric(Key(c), Key(a));
      MemcmpTransitive(Key(a), Key(b), Key(c));
    }
  }

  /** The loop of `bmc` replaces `best` by record i when the comparison of record i with the best
      is negative, that is, when record i is worse. With the sign turned round it would keep
      the better record. */
  datatype ScanSign = AsWritten | Intended {
    function Of(comparison: int): int {
      if AsWritten? then comparison else -comparison
    }
  }

  function ScanFrom(s: seq<Announce>, self: ClockIdentity, sign: ScanSign, i: nat, best: nat): (r: nat)
    requires best < i <= |s|
    ensures r < |s|
    decreases |s| - i
  {
    if i == |s| then best
    else ScanFrom(s, self, sign, i + 1, if sign.Of(Compare(s[i], s[best], self)) < 0 then i else best)
  }

  /** The record that `bmc` stores in `foreignMasterDS.best`; 0 for an empty table. */
  function Scan(s: seq<Announce>, self: ClockIdentity, sign: ScanSign): (best: nat)
    ensures best < Max(|s|, 1)
  {
    if |s| == 0 then 0 else ScanFrom(s, self, sign, 1, 0)
  }

  lemma DirectedTransitive(a: Announce, b: Announce, c: Announce, s: seq<Announce>, self: ClockIdentity, sign: ScanSign)
    requires IsPreorder(s, self) && a in s && b in s && c in s
    requires sign.Of(Compare(a, b, self)) >= 0 && sign.Of(Compare(b, c, self)) >= 0
    ensures sign.Of(Compare(a, c, self)) >= 0
  {
    CompareAntisymmetric(a, b, self);
    CompareAntisymmetric(b, c, self);
    CompareAntisymmetric(a, c, self);
  }

  lemma {:induction false} ScanFromExtremal(s: seq<Announce>, self: ClockIdentity, sign: ScanSign, i: nat, best: nat)
    requires best < i <= |s| && IsPreorder(s, self)
    requires forall j | 0 <= j < i :: sign.Of(Compare(s[j], s[best], self)) >= 0
    ensures forall j | 0 <= j < |s| :: sign.Of(Compare(s[j], s[ScanFrom(s, self, sign, i, best)], self)) >= 0
    decreases |s| - i
  {
    if i < |s| {
      var replace := sign.Of(Compare(s[i], s[best], self)) < 0;
      CompareAntisymmetric(s[i], s[i], self);
      if replace {
        CompareAntisymmetric(s[i], s[best], self);
        forall j | 0 <= j < i
          ensures sign.Of(Compare(s[j], s[i], self)) >= 0
        {
          DirectedTransitive(s[j], s[best], s[i], s, self, sign);
        }
      }
      ScanFromExtremal(s, self, sign, i + 1, if replace then i else best);
    }
  }

  /** As written no record is worse than the selected one; with the sign turned round no record
      is better, which is the Ebest of section 9.3.2. */
  lemma ScanExtremal(s: seq<Announce>, self: ClockIdentity)
    requires |s| > 0 && IsPreorder(s, self)
    ensures forall j | 0 <= j < |s| :: Compare(s[j], s[Scan(s, self, AsWritten)], self) >= 0
    ensures forall j | 0 <= j < |s| :: Compare(s[j], s[Scan(s, self, Intended)], self) <= 0
  {
    CompareAntisymmetric(s[0], s[0], self);
    ScanFromExtremal(s, self, AsWritten, 1, 0);
    ScanFromExtremal(s, self, Intended, 1, 0);
    forall j | 0 <= j < |s|
      ensures Compare(s[j], s[Scan(s, self, Intended)], self) <= 0
    {
      assert Intended.Of(Compare(s[j], s[Scan(s, self, Intended)], self)) >= 0;
    }
    forall j | 0 <= j < |s|
      ensures Compare(s[j], s[Scan(s, self, AsWritten)], self) >= 0
    {
      assert AsWritten.Of(Compare(s[j], s[Scan(s, self, AsWritten)], self)) >= 0;
    }
  }

  /** Of several records of that rank the scan selects the one in the lowest slot. */
  lemma ScanSelectsFirst(s: seq<Announce>, self: ClockIdentity, sign: ScanSign)
    requires |s| > 0 && IsPreorder(s, self)
    ensures forall j | 0 <= j < Scan(s, self, sign) :: sign.Of(Compare(s[j], s[Scan(s, self, sign)], self)) > 0
  {
    CompareAntisymmetric(s[0], s[0], self);
    ScanFromFirst(s, self, sign, 1, 0);
  }

  lemma {:induction false} ScanFromFirst(s: seq<Announce>, self: ClockIdentity, sign: ScanSign, i: nat, best: nat)
    requires best < i <= |s| && IsPreorder(s, self)
    requires forall j | 0 <= j < i :: sign.Of(Compare(s[j], s[best], self)) >= 0
    requires forall j | 0 <= j < best :: sign.Of(Compare(s[j], s[best], self)) > 0
    ensures var r := ScanFrom(s, self, sign, i, best);
      forall j | 0 <= j < r :: sign.Of(Compare(s[j], s[r], self)) > 0
    decreases |s| - i
  {
    if i < |s| {
      CompareAntisymmetric(s[i], s[i], self);
      if sign.Of(Compare(s[i], s[best], self)) < 0 {
        forall j | 0 <= j < i
          ensures sign.Of(Compare(s[j], s[i], self)) > 0
        {
          StrictlyBehind(s[j], s[best], s[i], s, self, sign);
        }
        ScanFromFirst(s, self, sign, i + 1, i);
      } else {
        ScanFromFirst(s, self, sign, i + 1, best);
      }
    }
  }

  lemma StrictlyBehind(a: Announce, b: Announce, c: Announce, s: seq<Announce>, self: ClockIdentity, sign: ScanSign)
    requires IsPreorder(s, self) && a in s && b in s && c in s
    requires sign.Of(Compare(a, b, self)) >= 0 && sign.Of(Compare(c, b, self)) < 0
    ensures sign.Of(Compare(a, c, self)) > 0
  {
    CompareAntisymmetric(a, c, self);
    if sign.Of(Compare(c, a, self)) >= 0 {
      DirectedTransitive(c, a, b, s, self, sign);
    }
  }

  /** Two tables with the same announces in other slots select announces of the same rank. */
  lemma SlotOrderIrrelevant(s: seq<Announce>, t: seq<Announce>, self: ClockIdentity, sign: ScanSign)
    requires |s| > 0 && |t| > 0 && IsPreorder(s, self)
    requires forall a :: a in s <==> a in t
    ensures Compare(s[Scan(s, self, sign)], t[Scan(t, self, sign)], self) == 0
    ensures Orderly(s, self) ==> Key(s[Scan(s, self, sign)]) == Key(t[Scan(t, self, sign)])
  {
    var x, y := s[Scan(s, self, sign)], t[Scan(t, self, sign)];
    SelectedIsExtreme(s, y, self, sign);
    assert IsPreorder(t, self);
    SelectedIsExtreme(t, x, self, sign);
    CompareAntisymmetric(x, y, self);
    if Orderly(s, self) {
      OrderlyIsPreorder(s, self);
    }
  }

  lemma SelectedIsExtreme(s: seq<Announce>, x: Announce, self: ClockIdentity, sign: ScanSign)
    requires x in s && IsPreorder(s, self)
    ensures sign.Of(Compare(x, s[Scan(s, self, sign)], self)) >= 0
  {
    var i :| 0 <= i < |s| && s[i] == x;
    ScanExtremal(s, self);
  }

  /** Of three announces in a circle both scans select the one in the last slot, in any order. */
  lemma CircleSelectsLast(a: Announce, b: Announce, c: Announce, self: ClockIdentity, sign: ScanSign)
    requires Circle(a, b, c, self) || Circle(b, a, c, self)
    ensures Scan([a, b, c], self, sign) == 2
  {
    var s := [a, b, c];
    CompareAntisymmetric(a, b, self);
    CompareAntisymmetric(a, c, self);
    CompareAntisymmetric(b, c, self);
    assert ScanFrom(s, self, sign, 2, 0) == (if sign.Of(Compare(c, a, self)) < 0 then 2 else 0);
    assert ScanFrom(s, self, sign, 2, 1) == (if sign.Of(Compare(c, b, self)) < 0 then 2 else 1);
  }
}
