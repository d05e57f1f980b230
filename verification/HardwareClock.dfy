/** The fixed-point conversions and the clock register updates of
    lwip-1.3.1/port/ethernetif.c. The hardware counts binary subseconds of 2^-31 s. */
module HardwareClock {
  import opened CInt

  const FIVE9 := 1_953_125

  /** `ETH_PTPSubSecond2NanoSecond`; the product fits the signed 64-bit intermediate. */
  function SubSecond2NanoSecond(v: UInt32): (r: UInt32)
    ensures r < 2 * GIGA
  {
    assert v * GIGA < 0x8000_0000_0000_0000;
    U32(v * GIGA / TWO31)
  }

  /** `ETH_PTPNanoSecond2SubSecond`; the product fits the signed 64-bit intermediate. */
  function NanoSecond2SubSecond(v: UInt32): UInt32 {
    assert v * TWO31 < 0x8000_0000_0000_0000;
    U32(v * TWO31 / GIGA)
  }

  /** Both conversions round down, for every word that can be represented: what is left is less than
      one unit. */
  lemma ConversionsRoundDown(v: UInt32)
    ensures 0 <= v * 1_000_000_000 - SubSecond2NanoSecond(v) * 0x8000_0000 < 0x8000_0000
    ensures v < 2_000_000_000 ==> 0 <= v * 0x8000_0000 - NanoSecond2SubSecond(v) * 1_000_000_000 < 1_000_000_000
  {
    var s, r := v * TWO31 / GIGA, v * TWO31 % GIGA;
    var n, q := v * GIGA / TWO31, v * GIGA % TWO31;
    assert v * TWO31 == s * GIGA + r && v * GIGA == n * TWO31 + q;
  }

  /** Nanoseconds survive the way to subseconds and back exactly when they are multiples of 5^9;
      all others come back one less. */
  lemma NanoSecondRoundTrip(n: UInt32)
    requires n < 2 * GIGA
    ensures SubSecond2NanoSecond(NanoSecond2SubSecond(n)) == if n % FIVE9 == 0 then n else n - 1
  {
    var s, r := n * TWO31 / GIGA, n * TWO31 % GIGA;
    assert s * GIGA == n * TWO31 - r;
    ExactSubSeconds(n);
  }

  /** n nanoseconds are a whole number of subseconds exactly when 5^9 divides n: the ratio
      2^31 / 10^9 is 2^22 / 5^9, and 2^22 has an inverse modulo 5^9. */
  lemma ExactSubSeconds(n: nat)
    ensures n * TWO31 % GIGA == 0 <==> n % FIVE9 == 0
  {
    var q, r := n * 4194304 / FIVE9, n * 4194304 % FIVE9;
    assert n * TWO31 == q * GIGA + r * 512;
    DivModUnique(n * TWO31, q, r * 512, GIGA);
    if n % FIVE9 == 0 {
      DivModUnique(n * 4194304, n / FIVE9 * 4194304, 0, FIVE9);
    }
    if r == 0 {
      assert n == FIVE9 * (q * INVERSE - n * COFACTOR);
      DivModUnique(n, q * INVERSE - n * COFACTOR, 0, FIVE9);
    }
  }

  const INVERSE := 530669
  const COFACTOR := 1139603

  /** Subseconds lose at most 3 on the way to nanoseconds and back. */
  lemma SubSecondRoundTrip(s: UInt32)
    ensures s - 3 <= NanoSecond2SubSecond(SubSecond2NanoSecond(s)) <= s
  {
  }

  // ---------------------------------------------------------------------------------------------
  // Setting and moving the clock

  /** What is written to the time stamp update registers. */
  datatype Update = Update(negative: bool, seconds: UInt32, subseconds: UInt32) {
    /** The change of the clock in units of 2^-31 s. */
    function Value(): int {
      var magnitude := seconds * TWO31 + subseconds;
      if negative then -magnitude else magnitude
    }
  }

  /** Sign, second and subsecond as `ETH_PTPTime_UpdateOffset` and `ETH_PTPTime_SetTime` compute
      them. */
  function UpdateFor(sec: int, nsec: int): Update {
    if sec < 0 || (sec == 0 && nsec < 0) then Update(true, U32(-sec), NanoSecond2SubSecond(U32(-nsec)))
    else Update(false, U32(sec), NanoSecond2SubSecond(U32(nsec)))
  }

  predicate SignsAgree(sec: int, nsec: int) {
    !(sec > 0 && nsec < 0) && !(sec < 0 && nsec > 0)
  }

  /** How far the magnitude of an update stays below |sec| s + |nsec| ns, in 2^-31 ns. */
  function Shortfall(sec: int, nsec: int): int {
    Abs(sec * GIGA + nsec) * TWO31 - Abs(UpdateFor(sec, nsec).Value()) * GIGA
  }

  lemma SubSecondsOf(a: nat)
    requires a < GIGA
    ensures NanoSecond2SubSecond(a) < TWO31
    ensures 0 <= a * TWO31 - NanoSecond2SubSecond(a) * GIGA < GIGA
  {
  }

  lemma UpdateParts(sec: int, nsec: int)
    requires FitsInt32(sec) && -GIGA < nsec < GIGA && SignsAgree(sec, nsec)
    ensures UpdateFor(sec, nsec) == Update(sec * GIGA + nsec < 0, Abs(sec), NanoSecond2SubSecond(Abs(nsec)))
    ensures Abs(sec * GIGA + nsec) == Abs(sec) * GIGA + Abs(nsec)
  {
    U32Small(Abs(sec));
    U32Small(Abs(nsec));
  }

  /** The update has the right sign, fits its 31-bit register and falls short of the exact time
      by less than one subsecond. */
  lemma UpdateIsClosest(sec: int, nsec: int)
    requires FitsInt32(sec) && -GIGA < nsec < GIGA && SignsAgree(sec, nsec)
    ensures var u := UpdateFor(sec, nsec);
      && u.subseconds < TWO31
      && (u.negative <==> sec * GIGA + nsec < 0)
      && 0 <= Shortfall(sec, nsec) < GIGA
  {
    UpdateParts(sec, nsec);
    SubSecondsOf(Abs(nsec));
  }

  lemma UpdateSign(sec: int, nsec: int)
    requires FitsInt32(sec)
    ensures UpdateFor(sec, nsec).negative <==> sec < 0 || (sec == 0 && nsec < 0)
    ensures UpdateFor(sec, nsec).seconds == Abs(sec)
  {
    U32Small(Abs(sec));
  }

  /** A number of subseconds in the direction of the given nanoseconds, short of them by less than one
      subsecond and never beyond. */
  predicate Reaches(subseconds: int, nanoseconds: int) {
    && 0 <= Abs(nanoseconds) * 0x8000_0000 - Abs(subseconds) * 1_000_000_000 < 1_000_000_000
    && (subseconds < 0 ==> nanoseconds < 0)
    && (subseconds > 0 ==> nanoseconds > 0)
  }

  lemma UpdateReaches(sec: int, nsec: int)
    requires FitsInt32(sec)
    ensures -GIGA < nsec < GIGA && SignsAgree(sec, nsec) ==> Reaches(UpdateFor(sec, nsec).Value(), sec * GIGA + nsec)
  {
    if -GIGA < nsec < GIGA && SignsAgree(sec, nsec) {
      UpdateIsClosest(sec, nsec);
    }
  }

  /** With |nsec| < 10^9, agreeing signs are also necessary. */
  lemma UpdateIsCloseOnlyIfSignsAgree(sec: int, nsec: int)
    requires FitsInt32(sec) && -GIGA < nsec < GIGA
    ensures 0 <= Shortfall(sec, nsec) < GIGA <==> SignsAgree(sec, nsec)
  {
    if SignsAgree(sec, nsec) {
      UpdateIsClosest(sec, nsec);
    } else {
      assert Abs(UpdateFor(sec, nsec).Value()) >= Abs(sec) * TWO31;
    }
  }

  // ---------------------------------------------------------------------------------------------
  // The frequency addend

  const ADJ_FREQ_BASE_ADDEND := 0xB191D856
  const ADJ_LIMIT := 5_120_000

  /** The argument of `ETH_PTPTime_AdjFreq` after clamping. */
  function Clamp(adj: int): int {
    if adj > ADJ_LIMIT then ADJ_LIMIT else if adj < -ADJ_LIMIT then -ADJ_LIMIT else adj
  }

  /** The 32-bit estimate of the addend; `>>` rounds toward minus infinity. */
  function Addend(adj: int): UInt32 {
    U32(275 * Clamp(adj) / 256 * (ADJ_FREQ_BASE_ADDEND / 0x100_0000) / 64 + ADJ_FREQ_BASE_ADDEND)
  }

  /** The correction, with 0xB1 for the top byte of the base. */
  function Correction(x: int): int {
    275 * x / 256 * 0xB1 / 64
  }

  lemma CorrectionBounds(x: int)
    requires -ADJ_LIMIT <= x <= ADJ_LIMIT
    ensures 275 * 0xB1 * x - 0xB1 * 255 - 63 * 256 <= 16384 * Correction(x) <= 275 * 0xB1 * x
    ensures Addend(x) == ADJ_FREQ_BASE_ADDEND + Correction(x)
    ensures 0 < Addend(x) < TWO32 - 1
  {
  }

  lemma CorrectionMonotone(x: int, y: int)
    requires x <= y
    ensures Correction(x) <= Correction(y)
  {
  }

  lemma CorrectionClose(x: int)
    requires -ADJ_LIMIT <= x <= ADJ_LIMIT
    ensures Abs(Correction(x) * GIGA - ADJ_FREQ_BASE_ADDEND * x) * 1000 <= 3 * ADJ_FREQ_BASE_ADDEND * Abs(x) + 4_000 * GIGA
  {
  }

  /** The estimate never wraps, grows with the adjustment, is exact at 0, and its correction is
      within 0.3 percent and four units of adj * 10^-9 of the base. */
  lemma AddendEstimate(adj: int, adj': int)
    requires adj <= adj'
    ensures Addend(adj) <= Addend(adj')
    ensures Addend(0) == ADJ_FREQ_BASE_ADDEND
    ensures 0 < Addend(adj) < TWO32 - 1
    ensures Abs((Addend(adj) - ADJ_FREQ_BASE_ADDEND) * GIGA - ADJ_FREQ_BASE_ADDEND * Clamp(adj)) * 1000
              <= 3 * ADJ_FREQ_BASE_ADDEND * Abs(Clamp(adj)) + 4_000 * GIGA
  {
    var x, x' := Clamp(adj), Clamp(adj');
    CorrectionBounds(x);
    CorrectionBounds(x');
    CorrectionMonotone(x, x');
    CorrectionClose(x);
    assert Addend(adj) == Addend(x) && Addend(adj') == Addend(x');
  }

  /** Adjustments up to 5 120 000 either way are taken as they are, without wrap, and all others as
      the nearer of these two. */
  lemma AddendExactly(adj: int)
    ensures var a := if adj > 5_120_000 then 5_120_000 else if adj < -5_120_000 then -5_120_000 else adj;
      Addend(adj) == 0xB191D856 + 275 * a / 256 * 0xB1 / 64
  {
    CorrectionBounds(Clamp(adj));
  }

  /** Within these limits the frequency is off by at most 0.3 percent of the adjustment and four units
      of the register. */
  lemma AddendWithinLimits(adj: int)
    requires -5_120_000 <= adj <= 5_120_000
    ensures Abs((Addend(adj) - 0xB191D856) * GIGA - 0xB191D856 * adj) * 1000 <= 3 * 0xB191D856 * Abs(adj) + 4_000 * GIGA
  {
    AddendEstimate(adj, adj);
  }

  // ---------------------------------------------------------------------------------------------
  // The registers

  /** The PTP block of the MAC: the update, addend and system time registers. The hardware adds
      an update to the system time, or loads it, when told to. */
  class PtpRegisters {
    var update: Update
    var addend: UInt32
    var systemTime: int

    constructor (update: Update, addend: UInt32, systemTime: int)
      ensures this.update == update && this.addend == addend && this.systemTime == systemTime
    {
      this.update, this.addend, this.systemTime := update, addend, systemTime;
    }

    method AdjFreq(adj: int)
      modifies this`addend
      ensures addend == Addend(adj)
      ensures var a := if adj > 5_120_000 then 5_120_000 else if adj < -5_120_000 then -5_120_000 else adj;
        addend == 0xB191D856 + 275 * a / 256 * 0xB1 / 64
    {
      AddendExactly(adj);
      var a := adj;
      if a > 5120000 {
        a := 5120000;
      }
      if a < -5120000 {
        a := -5120000;
      }
      addend := U32(275 * a / 256 * (ADJ_FREQ_BASE_ADDEND / 0x100_0000) / 64 + ADJ_FREQ_BASE_ADDEND);
    }

    /** Moves the clock by the offset, short of it by less than a subsecond and never beyond, and
        leaves its rate alone. */
    method UpdateOffset(sec: int, nsec: int)
      requires FitsInt32(sec) && FitsInt32(nsec)
      modifies this
      ensures addend == old(addend) && update == UpdateFor(sec, nsec)
      ensures systemTime == old(systemTime) + update.Value()
      ensures (update.negative <==> sec < 0 || (sec == 0 && nsec < 0)) && update.seconds == Abs(sec)
      ensures -GIGA < nsec < GIGA && SignsAgree(sec, nsec) ==> Reaches(systemTime - old(systemTime), sec * GIGA + nsec)
    {
      var rate := addend;
      if sec < 0 || (sec == 0 && nsec < 0) {
        update := Update(true, U32(-sec), NanoSecond2SubSecond(U32(-nsec)));
      } else {
        update := Update(false, U32(sec), NanoSecond2SubSecond(U32(nsec)));
      }
      systemTime := systemTime + update.Value();
      addend := rate;
      UpdateSign(sec, nsec);
      UpdateReaches(sec, nsec);
    }

    /** Loads the clock with the time. */
    method SetTime(sec: int, nsec: int)
      requires FitsInt32(sec) && FitsInt32(nsec)
      modifies this`update, this`systemTime
      ensures update == UpdateFor(sec, nsec) && systemTime == update.Value()
      ensures (update.negative <==> sec < 0 || (sec == 0 && nsec < 0)) && update.seconds == Abs(sec)
      ensures -GIGA < nsec < GIGA && SignsAgree(sec, nsec) ==> Reaches(systemTime, sec * GIGA + nsec)
    {
      if sec < 0 || (sec == 0 && nsec < 0) {
        update := Update(true, U32(-sec), NanoSecond2SubSecond(U32(-nsec)));
      } else {
        update := Update(false, U32(sec), NanoSecond2SubSecond(U32(nsec)));
      }
      systemTime := update.Value();
      UpdateSign(sec, nsec);
      UpdateReaches(sec, nsec);
    }
  }
}
