/** The 8-bit Fletcher checksum of the UBX protocol, `Ublox_CheckSum` in USER/CMD_HANDLE/bds.c. */
module CheckSum {
  import opened CInt

  function Sum(s: seq<Octet>): nat {
    if |s| == 0 then 0 else s[0] + Sum(s[1..])
  }

  /** Every byte weighted by its distance from the end of the buffer. */
  function WeightedSum(s: seq<Octet>): nat {
    if |s| == 0 then 0 else |s| * s[0] + WeightedSum(s[1..])
  }

  /** The two check bytes. */
  function Fletcher(s: seq<Octet>): (Octet, Octet) {
    (Sum(s) % 256, WeightedSum(s) % 256)
  }

  lemma {:induction false} SumConcat(a: seq<Octet>, b: seq<Octet>)
    ensures Sum(a + b) == Sum(a) + Sum(b)
  {
    if |a| == 0 {
      assert a + b == b;
    } else {
      SumConcat(a[1..], b);
      assert (a + b)[1..] == a[1..] + b;
    }
  }

  lemma {:induction false} WeightedConcat(a: seq<Octet>, b: seq<Octet>)
    ensures WeightedSum(a + b) == WeightedSum(a) + |b| * Sum(a) + WeightedSum(b)
  {
    if |a| == 0 {
      assert a + b == b;
    } else {
      WeightedConcat(a[1..], b);
      assert (a + b)[1..] == a[1..] + b;
      Distribute(|a|, |b|, a[0]);
      Distribute(a[0], Sum(a[1..]), |b|);
    }
  }

  /** `Ublox_CheckSum` */
  method UbloxCheckSum(buf: seq<Octet>, len: UInt16) returns (cka: Octet, ckb: Octet)
    requires len <= |buf|
    ensures (cka, ckb) == Fletcher(buf[..len])
  {
    cka, ckb := 0, 0;
    var i: nat := 0;
    while i < len
      invariant i <= len
      invariant (cka, ckb) == Fletcher(buf[..i])
    {
      NextByte(buf[..i], buf[i]);
      assert buf[..i + 1] == buf[..i] + [buf[i]];
      cka := (cka + buf[i]) % 256;
      ckb := (ckb + cka) % 256;
      i := i + 1;
    }
  }

  lemma NextByte(s: seq<Octet>, b: Octet)
    ensures var (cka, ckb) := Fletcher(s);
      Fletcher(s + [b]) == ((cka + b) % 256, (ckb + (cka + b) % 256) % 256)
  {
    SumConcat(s, [b]);
    WeightedConcat(s, [b]);
    assert Sum([b]) == b && WeightedSum([b]) == b;
    ModAdd(Sum(s), b, WeightedSum(s));
  }

  lemma ModAdd(a: int, b: int, w: int)
    ensures (a + b) % 256 == (a % 256 + b) % 256
    ensures (w + a + b) % 256 == (w % 256 + (a % 256 + b) % 256) % 256
  {
  }

  /** The check bytes of a concatenation follow from those of the parts. */
  lemma FletcherConcat(a: seq<Octet>, b: seq<Octet>)
    ensures Fletcher(a + b) ==
              ((Fletcher(a).0 + Fletcher(b).0) % 256, (Fletcher(a).1 + |b| * Fletcher(a).0 + Fletcher(b).1) % 256)
  {
    SumConcat(a, b);
    WeightedConcat(a, b);
    ModTimes(|b|, Sum(a));
    ModSums(Sum(a), Sum(b), WeightedSum(a), |b| * Sum(a), |b| * (Sum(a) % 256), WeightedSum(b));
  }

  lemma ModSums(a: int, b: int, w: int, m: int, m': int, v: int)
    requires m % 256 == m' % 256
    ensures (a + b) % 256 == (a % 256 + b % 256) % 256
    ensures (w + m + v) % 256 == (w % 256 + m' + v % 256) % 256
  {
  }

  /** A factor may be reduced modulo 256 first. */
  lemma ModTimes(n: nat, x: int)
    ensures n * (x % 256) % 256 == n * x % 256
  {
    var q, r := x / 256, x % 256;
    Distribute(q * 256, r, n);
    Associate(n, q, 256);
    DivModUnique(n * x, n * q + n * r / 256, n * r % 256, 256);
  }

  predicate Undetected(s: seq<Octet>, t: seq<Octet>) {
    Fletcher(s) == Fletcher(t)
  }

  /** Changing any single byte is detected. */
  lemma SingleByteDetected(s: seq<Octet>, i: nat, b: Octet)
    requires i < |s|
    ensures Undetected(s, s[i := b]) <==> b == s[i]
  {
    var a, c := s[..i], s[i + 1..];
    assert s == a + ([s[i]] + c) && s[i := b] == a + ([b] + c);
    SumConcat(a, [s[i]] + c);
    SumConcat(a, [b] + c);
    SumConcat([s[i]], c);
    SumConcat([b], c);
    SameResidue(Sum(a) + Sum(c), s[i], b);
    if b == s[i] {
      assert s[i := b] == s;
    }
  }

  lemma SameResidue(n: int, x: int, y: int)
    ensures (n + x) % 256 == (n + y) % 256 <==> (x - y) % 256 == 0
  {
  }

  /** Exchanging two bytes d places apart goes undetected exactly when 256 divides d times their
      difference; so unequal neighbours never do. */
  lemma SwapDetected(s: seq<Octet>, i: nat, j: nat)
    requires i < j < |s|
    ensures var x: int, y: int := s[i], s[j];
      && (Undetected(s, s[i := s[j]][j := s[i]]) <==> (j - i) * (x - y) % 256 == 0)
      && (j == i + 1 ==> (Undetected(s, s[i := s[j]][j := s[i]]) <==> s[i] == s[j]))
  {
    var t, x: int, y: int := s[i := s[j]][j := s[i]], s[i], s[j];
    var a, m, c := s[..i], s[i + 1..j], s[j + 1..];
    assert s == a + ([x] + (m + ([y] + c))) && t == a + ([y] + (m + ([x] + c)));
    SwapDifference(a, x, m, y, c);
    Residues(WeightedSum(s), WeightedSum(t), (j - i) * (x - y));
    assert |m| + 1 == j - i;
  }

  lemma Residues(p: int, q: int, d: int)
    requires p - q == d
    ensures p % 256 == q % 256 <==> d % 256 == 0
  {
  }

  lemma SwapDifference(a: seq<Octet>, x: int, m: seq<Octet>, y: int, c: seq<Octet>)
    requires 0 <= x < 256 && 0 <= y < 256
    ensures var s, t := a + ([x] + (m + ([y] + c))), a + ([y] + (m + ([x] + c)));
      Sum(s) == Sum(t) && WeightedSum(s) - WeightedSum(t) == (|m| + 1) * (x - y)
  {
    SwapSums(a, x, m, y, c);
    SwapSums(a, y, m, x, c);
    SwapWeights(|m| + |c| + 2, |c| + 1, x, y);
  }

  lemma SwapWeights(w: int, v: int, x: int, y: int)
    ensures w * x + v * y - (w * y + v * x) == (w - v) * (x - y)
  {
  }

  lemma SwapSums(a: seq<Octet>, x: Octet, m: seq<Octet>, y: Octet, c: seq<Octet>)
    ensures var s := a + ([x] + (m + ([y] + c)));
      && Sum(s) == Sum(a) + x + Sum(m) + y + Sum(c)
      && WeightedSum(s) == WeightedSum(a) + (|m| + |c| + 2) * Sum(a) + WeightedSum(m) + (|c| + 1) * Sum(m) + WeightedSum(c)
                           + (|m| + |c| + 2) * x + (|c| + 1) * y
  {
    SumConcat(a, [x] + (m + ([y] + c)));
    SumConcat([x], m + ([y] + c));
    SumConcat(m, [y] + c);
    SumConcat([y], c);
    WeightedConcat(a, [x] + (m + ([y] + c)));
    WeightedConcat([x], m + ([y] + c));
    WeightedConcat(m, [y] + c);
    WeightedConcat([y], c);
    assert Sum([x]) == x && WeightedSum([x]) == x && Sum([y]) == y && WeightedSum([y]) == y;
    Distribute(|m| + |c| + 1, 1, x);
    Distribute(|c|, 1, y);
  }
}
