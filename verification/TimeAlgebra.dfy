/** The time arithmetic of ptpd-2.0.0/src/arith.c: signed seconds and nanoseconds. */
module TimeAlgebra {
  import opened CInt

  datatype Time = Time(seconds: int, nanoseconds: int)

  function Total(t: Time): int {
    t.seconds * GIGA + t.nanoseconds
  }

  /** Less than a second of nanoseconds, and no disagreement of the signs. */
  predicate Canonical(t: Time) {
    && -GIGA < t.nanoseconds < GIGA
    && !(t.seconds > 0 && t.nanoseconds < 0)
    && !(t.seconds < 0 && t.nanoseconds > 0)
  }

  /** The representation of a number of nanoseconds. */
  function Represent(x: int): Time {
    Time(CDiv(x, GIGA), CMod(x, GIGA))
  }

  predicate TimeFits(t: Time) {
    FitsInt32(t.seconds) && FitsInt32(t.nanoseconds)
  }

  // ---------------------------------------------------------------------------------------------
  // The operations of the code

  /** The values that `normalizeTime` gives the two fields, in turn. */
  function Carry(t: Time): Time {
    Time(t.seconds + CDiv(t.nanoseconds, GIGA), t.nanoseconds - CDiv(t.nanoseconds, GIGA) * GIGA)
  }

  function Normalize(t: Time): Time {
    var c := Carry(t);
    if c.seconds > 0 && c.nanoseconds < 0 then Time(c.seconds - 1, c.nanoseconds + GIGA)
    else if c.seconds < 0 && c.nanoseconds > 0 then Time(c.seconds + 1, c.nanoseconds - GIGA)
    else c
  }

  function Plus(x: Time, y: Time): Time {
    Time(x.seconds + y.seconds, x.nanoseconds + y.nanoseconds)
  }

  function Minus(x: Time, y: Time): Time {
    Time(x.seconds - y.seconds, x.nanoseconds - y.nanoseconds)
  }

  function Halves(t: Time): Time {
    Time(CDiv(t.seconds, 2), CDiv(t.nanoseconds + CMod(t.seconds, 2) * GIGA, 2))
  }

  /** `addTime`, `subTime` and `div2Time` */
  function Add(x: Time, y: Time): Time {
    Normalize(Plus(x, y))
  }

  function Sub(x: Time, y: Time): Time {
    Normalize(Minus(x, y))
  }

  function Div2(t: Time): Time {
    Normalize(Halves(t))
  }

  /** `scaledNanosecondsToInternalTime` on a 64-bit number: negating the least one yields itself,
      and the shift rounds toward minus infinity. */
  const INT64_MIN := -0x8000_0000_0000_0000

  function FromScaled(x: int): Time {
    var sign := if x < 0 then -1 else 1;
    var magnitude := if x == INT64_MIN then INT64_MIN else if x < 0 then -x else x;
    var ns := magnitude / 0x1_0000;
    Time(sign * CDiv(ns, GIGA), sign * CMod(ns, GIGA))
  }

  // ---------------------------------------------------------------------------------------------
  // Canonical times are the integers

  /** Every number of nanoseconds has exactly one canonical representation. */
  lemma RepresentationUnique(x: int, t: Time)
    ensures Canonical(Represent(x)) && Total(Represent(x)) == x
    ensures Canonical(t) <==> t == Represent(Total(t))
  {
  }

  /** `normalizeTime` keeps the total and yields its canonical representation. */
  lemma NormalizeRepresents(t: Time)
    ensures Normalize(t) == Represent(Total(t))
    ensures Canonical(Normalize(t)) && Total(Normalize(t)) == Total(t)
  {
  }

  lemma AddTotal(x: Time, y: Time)
    ensures Add(x, y) == Represent(Total(x) + Total(y)) && Total(Add(x, y)) == Total(x) + Total(y)
  {
  }

  lemma SubTotal(x: Time, y: Time)
    ensures Sub(x, y) == Represent(Total(x) - Total(y)) && Total(Sub(x, y)) == Total(x) - Total(y)
  {
  }

  /** Addition and subtraction are those of the integers. */
  lemma AddSubHomomorphic(a: int, b: int)
    ensures Add(Represent(a), Represent(b)) == Represent(a + b)
    ensures Sub(Represent(a), Represent(b)) == Represent(a - b)
  {
  }

  // Canonical times form a commutative group in which `subTime` undoes `addTime`.

  lemma AddCommutes(x: Time, y: Time)
    ensures Add(x, y) == Add(y, x)
  {
  }

  lemma AddAssociates(x: Time, y: Time, z: Time)
    ensures Add(Add(x, y), z) == Add(x, Add(y, z))
  {
    AddTotal(x, y);
    AddTotal(y, z);
    AddTotal(Add(x, y), z);
    AddTotal(x, Add(y, z));
  }

  lemma AddInverse(x: Time, y: Time)
    requires Canonical(x)
    ensures Sub(Add(x, y), y) == x && Add(Sub(x, y), y) == x
    ensures Add(x, Time(0, 0)) == x && Sub(x, x) == Time(0, 0)
  {
    RepresentationUnique(Total(x), x);
    SubOfAdd(x, y);
    AddOfSub(x, y);
    AddTotal(x, Time(0, 0));
    SubTotal(x, x);
  }

  lemma SubOfAdd(x: Time, y: Time)
    ensures Sub(Add(x, y), y) == Represent(Total(x))
  {
    AddTotal(x, y);
    SubTotal(Add(x, y), y);
  }

  lemma AddOfSub(x: Time, y: Time)
    ensures Add(Sub(x, y), y) == Represent(Total(x))
  {
    SubTotal(x, y);
    AddTotal(Sub(x, y), y);
  }

  lemma SubOfSub(x: Time, y: Time, z: Time)
    ensures Sub(x, Sub(y, z)) == Add(Sub(x, y), z)
  {
    SubTotal(y, z);
    SubTotal(x, y);
    SubTotal(x, Sub(y, z));
    AddTotal(Sub(x, y), z);
  }

  // ---------------------------------------------------------------------------------------------
  // 32-bit bounds

  /** No 32-bit field overflows while `normalizeTime` works on t. */
  predicate NormalizeFits(t: Time) {
    TimeFits(t) && TimeFits(Carry(t)) && TimeFits(Normalize(t))
  }

  /** `addTime` overflows nowhere exactly when the seconds of the exact result fit. */
  lemma AddFits(x: Time, y: Time)
    requires Canonical(x) && Canonical(y) && TimeFits(x) && TimeFits(y)
    ensures NormalizeFits(Plus(x, y)) <==> FitsInt32(Represent(Total(x) + Total(y)).seconds)
  {
    AddSteps(x, y);
    AddTotal(x, y);
  }

  lemma AddSteps(x: Time, y: Time)
    requires Canonical(x) && Canonical(y) && TimeFits(x) && TimeFits(y)
    ensures NormalizeFits(Plus(x, y)) <==> FitsInt32(Normalize(Plus(x, y)).seconds)
  {
  }

  lemma SubSteps(x: Time, y: Time)
    requires Canonical(x) && Canonical(y) && TimeFits(x) && TimeFits(y)
    ensures NormalizeFits(Minus(x, y)) <==>
              FitsInt32(Normalize(Minus(x, y)).seconds)
              && !(x.seconds == 0 && y.seconds == INT_MIN && x.nanoseconds < y.nanoseconds)
  {
  }

  /** `subTime` also needs that it is not minus the least second that is added to zero seconds. */
  lemma SubFits(x: Time, y: Time)
    requires Canonical(x) && Canonical(y) && TimeFits(x) && TimeFits(y)
    ensures NormalizeFits(Minus(x, y)) <==>
              FitsInt32(Represent(Total(x) - Total(y)).seconds)
              && !(x.seconds == 0 && y.seconds == INT_MIN && x.nanoseconds < y.nanoseconds)
  {
    SubSteps(x, y);
    SubTotal(x, y);
  }

  /** Such a difference exists: its result fits although its first step does not. */
  lemma SubOverflows()
    ensures exists x: Time, y: Time ::
              && Canonical(x) && Canonical(y) && TimeFits(x) && TimeFits(y)
              && TimeFits(Sub(x, y)) && !FitsInt32(x.seconds - y.seconds)
  {
    var x, y := Time(0, -1), Time(INT_MIN, 0);
    NormalizeRepresents(Minus(x, y));
    assert Canonical(x) && Canonical(y) && TimeFits(x) && TimeFits(y) && TimeFits(Sub(x, y));
    assert !FitsInt32(x.seconds - y.seconds);
  }

  // ---------------------------------------------------------------------------------------------
  // Halving

  /** Halving a canonical time truncates its total toward zero, without overflow. */
  lemma Div2Canonical(t: Time)
    requires Canonical(t)
    ensures Div2(t) == Represent(CDiv(Total(t), 2))
    ensures TimeFits(t) ==>
              FitsInt32(t.nanoseconds + CMod(t.seconds, 2) * GIGA) && NormalizeFits(Halves(t))
  {
    Div2Any(t);
    if TimeFits(t) {
      HalvesFit(t);
    }
  }

  lemma HalvesFit(t: Time)
    requires Canonical(t) && TimeFits(t)
    ensures FitsInt32(t.nanoseconds + CMod(t.seconds, 2) * GIGA) && NormalizeFits(Halves(t))
  {
  }

  lemma HalvesTotal(t: Time)
    ensures 2 * Total(Halves(t)) == Total(t) - CMod(t.nanoseconds + CMod(t.seconds, 2) * GIGA, 2)
  {
  }

  /** A half rounded by the remainder of a number of the same parity. */
  lemma RoundedHalf(half: int, total: int, n: int)
    requires 2 * half == total - CMod(n, 2) && total % 2 == n % 2
    ensures half == CDiv(total, 2) <==> n % 2 == 0 || (n > 0 <==> total > 0)
  {
  }

  lemma SameHalf(half: int, total: int)
    ensures Represent(half) == Represent(CDiv(total, 2)) <==> half == CDiv(total, 2)
  {
  }

  lemma SameParity(t: Time)
    ensures (t.nanoseconds + CMod(t.seconds, 2) * GIGA) % 2 == t.nanoseconds % 2 == Total(t) % 2
  {
  }

  /** Halving any time is off by at most half a nanosecond, and it truncates toward zero exactly
      when the nanoseconds are even or their sign with the odd second is that of the total. */
  lemma Div2Any(t: Time)
    ensures -1 <= 2 * Total(Div2(t)) - Total(t) <= 1
    ensures Div2(t) == Represent(CDiv(Total(t), 2)) <==>
              t.nanoseconds % 2 == 0 || (t.nanoseconds + CMod(t.seconds, 2) * GIGA > 0 <==> Total(t) > 0)
  {
    var n := t.nanoseconds + CMod(t.seconds, 2) * GIGA;
    NormalizeRepresents(Halves(t));
    HalvesTotal(t);
    SameParity(t);
    RoundedHalf(Total(Halves(t)), Total(t), n);
    SameHalf(Total(Halves(t)), Total(t));
  }

  // ---------------------------------------------------------------------------------------------
  // Scaled nanoseconds

  /** Section 5.3.2: the fraction of a scaled 64-bit number is cut off toward zero, for every
      number but the least, whose sign comes out wrong. */
  lemma FromScaledTruncates(x: int)
    requires INT64_MIN <= x <= -INT64_MIN - 1
    ensures FromScaled(x) == Represent(CDiv(x, 0x1_0000)) <==> x != INT64_MIN
    ensures x != INT64_MIN ==> TimeFits(FromScaled(x)) && Canonical(FromScaled(x))
    ensures Total(FromScaled(INT64_MIN)) == 0x8000_0000_0000
  {
  }

  // ---------------------------------------------------------------------------------------------
  // Time stamps

  /** Timestamp: 48 bits of seconds and 32 bits of nanoseconds. */
  datatype Stamp = Stamp(msb: UInt16, lsb: UInt32, nanoseconds: UInt32)

  /** `fromInternalTime`; a negative field leaves the time stamp as it was. */
  function ToStamp(t: Time, before: Stamp): Stamp
    requires TimeFits(t)
  {
    if t.seconds < 0 || t.nanoseconds < 0 then before else Stamp(0, t.seconds, t.nanoseconds)
  }

  /** `toInternalTime`; seconds from 2^31 - 1 on leave the time as it was. */
  function FromStamp(e: Stamp, before: Time): Time {
    if e.lsb < INT_MAX then Time(e.lsb, S32(e.nanoseconds)) else before
  }

  /** A time survives the way into a time stamp and back exactly when it is not negative and its
      seconds are below 2^31 - 1, unless what was there before happened to be the same. */
  lemma StampRoundTrip(t: Time, stamp: Stamp, before: Time)
    requires TimeFits(t)
    ensures t.seconds >= 0 && t.nanoseconds >= 0 ==>
              FromStamp(ToStamp(t, stamp), before) == if t.seconds < INT_MAX then t else before
    ensures t.seconds < 0 || t.nanoseconds < 0 ==> FromStamp(ToStamp(t, stamp), before) == FromStamp(stamp, before)
  {
  }

  /** Seconds from 2^31 - 1 on leave the time as it was, whatever the other fields are; all others are
      read as they are, and so never as a negative number. */
  lemma LateStampsIgnored(e: Stamp, before: Time)
    ensures FromStamp(e, before).seconds == if e.lsb < 0x7FFF_FFFF then e.lsb else before.seconds
    ensures e.lsb >= 0x7FFF_FFFF ==> FromStamp(e, before) == before
    ensures before.seconds >= 0 ==> FromStamp(e, before).seconds >= 0
  {
  }

  /** A time stamp survives the way back exactly when it is inside 31 bits of seconds and of
      nanoseconds. */
  lemma InternalRoundTrip(e: Stamp, before: Time, stamp: Stamp)
    requires e.lsb < INT_MAX
    ensures TimeFits(FromStamp(e, before))
    ensures ToStamp(FromStamp(e, before), stamp) == e <==>
              (e.msb == 0 && e.nanoseconds < TWO31) || (e.nanoseconds >= TWO31 && e == stamp)
  {
  }

  // ---------------------------------------------------------------------------------------------
  // The code

  class TimeInternal {
    var seconds: int
    var nanoseconds: int

    constructor (seconds: int, nanoseconds: int)
      ensures Value() == Time(seconds, nanoseconds)
    {
      this.seconds, this.nanoseconds := seconds, nanoseconds;
    }

    function Value(): Time
      reads this
    {
      Time(seconds, nanoseconds)
    }

    method NormalizeTime()
      modifies this
      ensures Value() == Normalize(old(Value()))
    {
      seconds := seconds + CDiv(nanoseconds, 1000000000);
      nanoseconds := nanoseconds - CDiv(nanoseconds, 1000000000) * 1000000000;
      if seconds > 0 && nanoseconds < 0 {
        seconds := seconds - 1;
        nanoseconds := nanoseconds + 1000000000;
      } else if seconds < 0 && nanoseconds > 0 {
        seconds := seconds + 1;
        nanoseconds := nanoseconds - 1000000000;
      }
    }

    /** The receiver may be one of the operands. */
    method AddTime(x: TimeInternal, y: TimeInternal)
      modifies this
      ensures Value() == Add(old(x.Value()), old(y.Value()))
      ensures Total(Value()) == Total(old(x.Value())) + Total(old(y.Value()))
    {
      AddTotal(x.Value(), y.Value());
      seconds := x.seconds + y.seconds;
      nanoseconds := x.nanoseconds + y.nanoseconds;
      NormalizeTime();
    }

    method SubTime(x: TimeInternal, y: TimeInternal)
      modifies this
      ensures Value() == Sub(old(x.Value()), old(y.Value()))
      ensures Total(Value()) == Total(old(x.Value())) - Total(old(y.Value()))
    {
      SubTotal(x.Value(), y.Value());
      seconds := x.seconds - y.seconds;
      nanoseconds := x.nanoseconds - y.nanoseconds;
      NormalizeTime();
    }

    method Div2Time()
      modifies this
      ensures Value() == Div2(old(Value()))
    {
      nanoseconds := nanoseconds + CMod(seconds, 2) * 1000000000;
      seconds := CDiv(seconds, 2);
      nanoseconds := CDiv(nanoseconds, 2);
      NormalizeTime();
    }

    method ScaledNanosecondsToInternalTime(scaledNanoseconds: int)
      requires INT64_MIN <= scaledNanoseconds <= -INT64_MIN - 1
      modifies this
      ensures Value() == FromScaled(scaledNanoseconds)
      ensures scaledNanoseconds != INT64_MIN ==> Value() == Represent(CDiv(scaledNanoseconds, 0x1_0000))
    {
      var ns := scaledNanoseconds;
      var sign;
      if ns < 0 {
        ns := if ns == INT64_MIN then INT64_MIN else -ns;
        sign := -1;
      } else {
        sign := 1;
      }
      ns := ns / 0x1_0000;
      seconds := sign * CDiv(ns, 1000000000);
      nanoseconds := sign * CMod(ns, 1000000000);
      FromScaledTruncates(scaledNanoseconds);
    }
  }

  class Timestamp {
    var msb: UInt16
    var lsb: UInt32
    var nanosecondsField: UInt32

    constructor (e: Stamp)
      ensures Value() == e
    {
      msb, lsb, nanosecondsField := e.msb, e.lsb, e.nanoseconds;
    }

    function Value(): Stamp
      reads this
    {
      Stamp(msb, lsb, nanosecondsField)
    }

    method FromInternalTime(internal: TimeInternal)
      requires TimeFits(internal.Value())
      modifies this
      ensures Value() == ToStamp(internal.Value(), old(Value()))
      ensures if internal.seconds < 0 || internal.nanoseconds < 0 then Value() == old(Value())
              else msb == 0 && lsb == internal.seconds && nanosecondsField == internal.nanoseconds
    {
      if internal.seconds < 0 || internal.nanoseconds < 0 {
        return;
      } else {
        lsb := internal.seconds;
        nanosecondsField := internal.nanoseconds;
        msb := 0;
      }
    }

    method ToInternalTime(internal: TimeInternal)
      modifies internal
      ensures internal.Value() == FromStamp(Value(), old(internal.Value()))
      ensures lsb >= 0x7FFF_FFFF ==> internal.Value() == old(internal.Value())
      ensures lsb < 0x7FFF_FFFF ==>
                && internal.seconds == lsb
                && internal.nanoseconds == if nanosecondsField < 0x8000_0000 then nanosecondsField else nanosecondsField - 0x1_0000_0000
    {
      if lsb < INT_MAX {
        internal.seconds := lsb;
        internal.nanoseconds := S32(nanosecondsField);
      } else {
        return;
      }
    }
  }

  // ---------------------------------------------------------------------------------------------
  // Logarithm

  function Pow2(k: nat): nat {
    if k == 0 then 1 else 2 * Pow2(k - 1)
  }

  lemma Pow2Add(k: nat)
    ensures Pow2(k + 2) == 0x4 * Pow2(k) && Pow2(k + 4) == 0x10 * Pow2(k)
    ensures Pow2(k + 8) == 0x100 * Pow2(k) && Pow2(k + 16) == 0x1_0000 * Pow2(k)
  {
    Pow2Four(k);
    Pow2Four(k + 4);
    Pow2Four(k + 8);
    Pow2Four(k + 12);
  }

  lemma Pow2Four(k: nat)
    ensures Pow2(k + 4) == 0x10 * Pow2(k)
  {
    assert Pow2(k + 2) == 4 * Pow2(k);
  }

  /** n is m shifted left by pos bits, but for the bits below. */
  predicate Leads(n: nat, m: nat, pos: nat) {
    m * Pow2(pos) <= n < (m + 1) * Pow2(pos)
  }

  lemma Shifted(n: nat, m: nat, scale: nat, d: nat)
    requires d > 0 && m * scale <= n < (m + 1) * scale
    ensures m / d * (d * scale) <= n < (m / d + 1) * (d * scale)
  {
    var q, r := m / d, m % d;
    Distribute(q * d, r, scale);
    Associate(q, d, scale);
    Distribute(m, 1, scale);
    Distribute(q, 1, d * scale);
    Distribute(d - 1 - r, r + 1, scale);
    Distribute(r, 1, scale);
    assert (d - 1 - r) * scale >= 0 && r * scale >= 0;
  }

  /** Shifting by further bits, d being their power. */
  lemma Shift(n: nat, m: nat, pos: nat, d: nat, bits: nat)
    requires Leads(n, m, pos) && d > 0 && Pow2(pos + bits) == d * Pow2(pos)
    ensures Leads(n, m / d, pos + bits)
  {
    Shifted(n, m, Pow2(pos), d);
  }

  lemma QuotientSmall(m: nat, d: nat)
    requires d > 0 && d <= m < d * d
    ensures 1 <= m / d < d
  {
    var q, r := m / d, m % d;
    assert m == q * d + r && (q - d + 1) * d == q * d - d * d + d;
    if q >= d {
      MulAtLeast(q - d + 1, d);
    }
  }

  lemma Narrowed(n: nat, pos: nat)
    requires Leads(n, 1, pos) || Leads(n, 2, pos) || Leads(n, 3, pos)
    ensures Leads(n, 1, pos) ==> Pow2(pos) <= n < Pow2(pos + 1)
    ensures !Leads(n, 1, pos) ==> Pow2(pos + 1) <= n < Pow2(pos + 2)
  {
  }

  /** One line of `floorLog2`: if n >= d then n >>= bits, pos += bits. */
  method ShiftIf(ghost n: nat, m: nat, pos: nat, d: nat, bits: nat) returns (m': nat, pos': nat)
    requires Leads(n, m, pos) && 1 <= m && 1 < d && m < d * d && Pow2(pos + bits) == d * Pow2(pos)
    ensures Leads(n, m', pos') && 1 <= m' < d
    ensures pos <= pos' <= pos + bits
  {
    m', pos' := m, pos;
    if m' >= d {
      Shift(n, m, pos, d, bits);
      QuotientSmall(m, d);
      m', pos' := m' / d, pos' + bits;
    }
  }

  /** `floorLog2` */
  method FloorLog2(n: UInt32) returns (pos: int)
    ensures n == 0 ==> pos == -1
    ensures n > 0 ==> 0 <= pos < 32 && Pow2(pos) <= n < Pow2(pos + 1)
  {
    if n == 0 {
      return -1;
    }
    var m, p: nat := n, 0;
    Pow2Add(p);
    m, p := ShiftIf(n, m, p, 0x1_0000, 16);
    Pow2Add(p);
    m, p := ShiftIf(n, m, p, 0x100, 8);
    Pow2Add(p);
    m, p := ShiftIf(n, m, p, 0x10, 4);
    Pow2Add(p);
    m, p := ShiftIf(n, m, p, 0x4, 2);
    Narrowed(n, p);
    Exclusive(n, p);
    if m >= 0x2 {
      p := p + 1;
    }
    pos := p;
  }

  lemma Exclusive(n: nat, pos: nat)
    ensures Leads(n, 2, pos) || Leads(n, 3, pos) ==> !Leads(n, 1, pos)
  {
  }
}
