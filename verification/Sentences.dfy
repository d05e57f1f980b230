/** Searching and reading ASCII sentences: the string functions of USER/CMD_HANDLE/bds.c. */
module Sentences {
  import opened CInt

  const SPACE: Octet := 32
  const STAR: Octet := 42
  const COMMA: Octet := 44
  const MINUS: Octet := 45
  const DOT: Octet := 46
  const ZERO: Octet := 48
  const NINE: Octet := 57
  const LOWER_Z: Octet := 122

  // ---------------------------------------------------------------------------------------------
  // Substrings

  predicate MatchAt(s: seq<Octet>, i: nat, pattern: seq<Octet>) {
    i + |pattern| <= |s| && s[i..i + |pattern|] == pattern
  }

  /** `my_strstr`: the first match inside the first s1len bytes. */
  method MyStrstr(s1: seq<Octet>, s2: seq<Octet>, s1len: nat) returns (r: Option<nat>)
    requires s1len <= |s1|
    ensures r.Some? ==> MatchAt(s1[..s1len], r.value, s2) && forall i: nat | i < r.value :: !MatchAt(s1[..s1len], i, s2)
    ensures r.None? ==> forall i: nat :: !MatchAt(s1[..s1len], i, s2)
  {
    var l2 := |s2|;
    if l2 == 0 {
      return Some(0);
    }
    var l1, at: nat := s1len, 0;
    while l1 >= l2
      invariant at + l1 == s1len
      invariant forall i: nat | i < at :: !MatchAt(s1[..s1len], i, s2)
    {
      l1 := l1 - 1;
      assert s1[..s1len][at..at + l2] == s1[at..at + l2];
      if s1[at..at + l2] == s2 {
        return Some(at);
      }
      at := at + 1;
    }
    r := None;
  }

  /** `my_strrstr` on the characters before the terminating zeros: the last match of a nonempty
      pattern. An empty one is found at the last character. */
  method MyStrrstr(dest: seq<Octet>, src: seq<Octet>) returns (second: Option<nat>)
    ensures |src| > 0 && second.Some? ==>
              MatchAt(dest, second.value, src) && forall i: nat | i > second.value :: !MatchAt(dest, i, src)
    ensures |src| > 0 && second.None? ==> forall i: nat :: !MatchAt(dest, i, src)
    ensures |src| == 0 ==> second == if |dest| == 0 then None else Some(|dest| - 1)
  {
    second := None;
    var str1, str2: nat := 0, 0;
    while str1 < |dest|
      invariant str1 <= |dest| && str2 == 0
      invariant second.Some? ==>
          second.value < str1 && MatchAt(dest, second.value, src) && forall i: nat | second.value < i < str1 :: !MatchAt(dest, i, src)
      invariant second.None? ==> forall i: nat | i < str1 :: !MatchAt(dest, i, src)
      invariant |src| == 0 ==> second == if str1 == 0 then None else Some(str1 - 1)
    {
      var first := str1;
      while str1 < |dest| && str2 < |src| && dest[str1] == src[str2]
        invariant first <= str1 == first + str2 <= |dest| && str2 <= |src|
        invariant dest[first..str1] == src[..str2]
        decreases |dest| - str1
      {
        assert dest[first..str1 + 1] == dest[first..str1] + [dest[str1]];
        assert src[..str2 + 1] == src[..str2] + [src[str2]];
        str1 := str1 + 1;
        str2 := str2 + 1;
      }
      if str2 == |src| {
        second := Some(first);
      }
      str1 := first + 1;
      str2 := 0;
    }
  }

  // ---------------------------------------------------------------------------------------------
  // Fields

  /** A character that ends the search for a comma. */
  predicate Stops(c: Octet) {
    c == STAR || c < SPACE || c > LOWER_Z
  }

  /** Where the field after cx commas starts, if it does, and if the buffer tells. */
  datatype FieldStart = At(position: nat) | Absent | Unknown {
    function Shift(n: nat): FieldStart {
      if At? then At(position + n) else this
    }
  }

  function FindField(buf: seq<Octet>, cx: nat): FieldStart
    decreases |buf|
  {
    if cx == 0 then At(0)
    else if |buf| == 0 then Unknown
    else if Stops(buf[0]) then Absent
    else FindField(buf[1..], if buf[0] == COMMA then cx - 1 else cx).Shift(1)
  }

  function Commas(s: seq<Octet>): nat {
    if |s| == 0 then 0 else (if s[0] == 44 then 1 else 0) + Commas(s[1..])
  }

  /** A printable character up to 'z' other than '*'. */
  predicate Passes(c: Octet) {
    32 <= c <= 122 && c != 42
  }

  predicate NoStop(s: seq<Octet>) {
    forall i | 0 <= i < |s| :: Passes(s[i])
  }

  /** Field cx starts right after the cx-th comma, and it is absent when a stop character comes
      before that comma. */
  lemma {:induction false} FindFieldMeaning(buf: seq<Octet>, cx: nat)
    ensures match FindField(buf, cx)
            case At(p) =>
              p <= |buf| && NoStop(buf[..p]) && Commas(buf[..p]) == cx && (cx > 0 ==> p > 0 && buf[p - 1] == 44)
            case Absent =>
              exists q: nat :: q < |buf| && NoStop(buf[..q]) && !Passes(buf[q]) && Commas(buf[..q]) < cx
            case Unknown => NoStop(buf) && Commas(buf) < cx
    decreases |buf|
  {
    if cx > 0 && |buf| > 0 && !Stops(buf[0]) {
      var rest, cx' := buf[1..], if buf[0] == COMMA then cx - 1 else cx;
      FindFieldMeaning(rest, cx');
      match FindField(rest, cx')
      case At(p) =>
        assert buf[..p + 1][1..] == rest[..p];
      case Absent =>
        var q: nat :| q < |rest| && NoStop(rest[..q]) && !Passes(rest[q]) && Commas(rest[..q]) < cx';
        assert buf[..q + 1][1..] == rest[..q];
        assert q + 1 < |buf| && NoStop(buf[..q + 1]) && !Passes(buf[q + 1]) && Commas(buf[..q + 1]) < cx;
      case Unknown =>
    } else if cx > 0 && |buf| > 0 {
      assert buf[..0] == [];
      assert 0 < |buf| && NoStop(buf[..0]) && !Passes(buf[0]) && Commas(buf[..0]) < cx;
    }
  }

  /** A field is absent when a character that does not pass comes before its comma. */
  lemma {:induction false} FieldCutOff(pre: seq<Octet>, c: Octet, rest: seq<Octet>, cx: nat)
    requires NoStop(pre) && !Passes(c) && Commas(pre) < cx
    ensures FindField(pre + [c] + rest, cx) == Absent
  {
    if |pre| == 0 {
      assert (pre + [c] + rest)[0] == c;
    } else {
      assert (pre + [c] + rest)[1..] == pre[1..] + [c] + rest && pre[0] == (pre + [c] + rest)[0];
      FieldCutOff(pre[1..], c, rest, if pre[0] == COMMA then cx - 1 else cx);
    }
  }

  /** `NMEA_Comma_Pos`: the offset of the field in eight bits, or 0xFF. */
  method NmeaCommaPos(buf: seq<Octet>, cx: Octet) returns (pos: Octet)
    requires !FindField(buf, cx).Unknown?
    ensures pos == match FindField(buf, cx) case At(p) => p % 256 case _ => 0xFF
  {
    var at, left: nat := 0, cx;
    while left > 0
      invariant at <= |buf|
      invariant FindField(buf, cx) == FindField(buf[at..], left).Shift(at)
      decreases |buf| - at
    {
      if buf[at] == STAR || buf[at] < SPACE || buf[at] > LOWER_Z {
        return 0xFF;
      }
      if buf[at] == COMMA {
        left := left - 1;
      }
      at := at + 1;
    }
    pos := at % 256;
  }

  // ---------------------------------------------------------------------------------------------
  // Numbers

  function Pow(m: nat, n: nat): nat {
    if n == 0 then 1 else m * Pow(m, n - 1)
  }

  /** `NMEA_Pow`, in 32 bits. */
  method NmeaPow(m: Octet, n: Octet) returns (result: UInt32)
    ensures result == U32(Pow(m, n))
  {
    result := 1;
    var left: nat := n;
    while left > 0
      invariant left <= n
      invariant U32(Pow(m, n)) == U32(result * Pow(m, left))
    {
      PowStep(result, m, left);
      result := U32(result * m);
      left := left - 1;
    }
  }

  lemma PowStep(result: nat, m: nat, left: nat)
    requires left > 0
    ensures U32(result * Pow(m, left)) == U32(U32(result * m) * Pow(m, left - 1))
  {
    U32Product(result * m, Pow(m, left - 1));
    Associate(result, m, Pow(m, left - 1));
  }

  predicate IsDigit(c: Octet) {
    48 <= c <= 57
  }

  /** The positional value of a string of characters, each counted from '0'. */
  function Value(s: seq<Octet>): int {
    if |s| == 0 then 0 else 10 * Value(s[..|s| - 1]) + (s[|s| - 1] - ZERO)
  }

  /** What the first loop of `NMEA_Str2num` finds: a minus sign anywhere, and the 8-bit counts of
      characters before and after the point; 0 and 0 at an illegal character. */
  datatype Shape = Shape(negative: bool, ilen: Octet, flen: Octet)

  function ScanNumber(buf: seq<Octet>, at: nat, negative: bool, point: bool, ilen: Octet, flen: Octet): Option<Shape>
    decreases if at < |buf| then |buf| - at else 0
  {
    if at >= |buf| then None
    else
      var (p, neg) := if buf[at] == MINUS then (at + 1, true) else (at, negative);
      if p >= |buf| then None
      else if buf[p] == COMMA || buf[p] == STAR then Some(Shape(neg, ilen, flen))
      else if buf[p] == DOT then ScanNumber(buf, p + 2, neg, true, ilen, (flen + 1) % 256)
      else if buf[p] > NINE || buf[p] < ZERO then Some(Shape(neg, 0, 0))
      else if point then ScanNumber(buf, p + 1, neg, true, ilen, (flen + 1) % 256)
      else ScanNumber(buf, p + 1, neg, false, (ilen + 1) % 256, flen)
  }

  /** The characters that the two summing loops read stay before the terminator. */
  lemma {:induction false} ScanNumberBounds(buf: seq<Octet>, at: nat, negative: bool, point: bool, ilen: Octet, flen: Octet)
    requires at >= ilen + flen + (if negative then 1 else 0) + (if point then 1 else 0)
    requires flen > 0 ==> point
    requires ScanNumber(buf, at, negative, point, ilen, flen).Some?
    ensures var n := ScanNumber(buf, at, negative, point, ilen, flen).value;
      var start := if n.negative then 1 else 0;
      start + n.ilen <= |buf| && (n.flen > 0 ==> start + n.ilen + 1 + n.flen <= |buf|)
    decreases if at < |buf| then |buf| - at else 0
  {
    var (p, neg) := if buf[at] == MINUS then (at + 1, true) else (at, negative);
    if buf[p] == COMMA || buf[p] == STAR {
    } else if buf[p] == DOT {
      ScanNumberBounds(buf, p + 2, neg, true, ilen, (flen + 1) % 256);
    } else if buf[p] > NINE || buf[p] < ZERO {
    } else if point {
      ScanNumberBounds(buf, p + 1, neg, true, ilen, (flen + 1) % 256);
    } else {
      ScanNumberBounds(buf, p + 1, neg, false, (ilen + 1) % 256, flen);
    }
  }

  predicate ReadsNumber(buf: seq<Octet>) {
    ScanNumber(buf, 0, false, false, 0, 0).Some?
  }

  /** The characters before and after the point that `NMEA_Str2num` reads. */
  function WholePart(buf: seq<Octet>, n: Shape): seq<Octet>
    requires (if n.negative then 1 else 0) + n.ilen <= |buf|
  {
    var start := if n.negative then 1 else 0;
    buf[start..start + n.ilen]
  }

  function FractionPart(buf: seq<Octet>, n: Shape): (f: seq<Octet>)
    requires n.flen > 0 ==> (if n.negative then 1 else 0) + n.ilen + 1 + n.flen <= |buf|
    ensures |f| == Min(n.flen, 5)
  {
    var start := if n.negative then 1 else 0;
    if n.flen == 0 then [] else buf[start + n.ilen + 1..start + n.ilen + 1 + Min(n.flen, 5)]
  }

  /** The number and its count of decimals, as `NMEA_Str2num` computes them: the value of the
      characters with the point left out. */
  function Str2num(buf: seq<Octet>): (int, Octet)
    requires ReadsNumber(buf)
  {
    ScanNumberBounds(buf, 0, false, false, 0, 0);
    var n := ScanNumber(buf, 0, false, false, 0, 0).value;
    var decimals := Min(n.flen, 5);
    var value := Value(WholePart(buf, n) + FractionPart(buf, n));
    (S32(if n.negative then -value else value), decimals)
  }

  /** A summing loop of `NMEA_Str2num` over the characters of a part of the number. */
  method SumDigits(digits: seq<Octet>) returns (sum: UInt32)
    requires |digits| < 256
    ensures sum == U32(Value(digits))
  {
    sum := 0;
    var i: nat := 0;
    while i < |digits|
      invariant i <= |digits|
      invariant sum == U32(Value(digits[..i]) * Pow(10, |digits| - i))
    {
      var power := NmeaPow(10, |digits| - 1 - i);
      DigitStep(digits, i);
      U32Product(Pow(10, |digits| - 1 - i), digits[i] - ZERO);
      var term := U32(power * (digits[i] - ZERO));
      ghost var before := Value(digits[..i]) * Pow(10, |digits| - i);
      ghost var exact := Pow(10, |digits| - 1 - i) * (digits[i] - ZERO);
      U32Sum(before, term);
      U32Sum(exact, before);
      sum := U32(sum + term);
      i := i + 1;
    }
    assert digits[..i] == digits;
  }

  lemma DigitStep(digits: seq<Octet>, i: nat)
    requires i < |digits|
    ensures Value(digits[..i + 1]) * Pow(10, |digits| - i - 1) ==
              Value(digits[..i]) * Pow(10, |digits| - i) + Pow(10, |digits| - 1 - i) * (digits[i] - ZERO)
  {
    assert digits[..i + 1][..i] == digits[..i];
    var v, d, p := Value(digits[..i]), digits[i] - ZERO, Pow(10, |digits| - 1 - i);
    assert Value(digits[..i + 1]) == 10 * v + d && Pow(10, |digits| - i) == 10 * p;
    assert (10 * v + d) * p == v * (10 * p) + p * d;
  }

  lemma S32OfU32(x: int)
    ensures S32(U32(x)) == S32(x)
  {
  }

  lemma S32Negates(x: int)
    ensures S32(-S32(x)) == S32(-x)
  {
  }

  /** The first loop of `NMEA_Str2num`. */
  method ScanLoop(buf: seq<Octet>) returns (negative: bool, ilen: Octet, flen: Octet)
    requires ReadsNumber(buf)
    ensures ScanNumber(buf, 0, false, false, 0, 0) == Some(Shape(negative, ilen, flen))
  {
    var point := false;
    negative, ilen, flen := false, 0, 0;
    var p: nat := 0;
    while true
      invariant ScanNumber(buf, p, negative, point, ilen, flen) == ScanNumber(buf, 0, false, false, 0, 0)
      decreases if p < |buf| then |buf| - p else 0
    {
      if buf[p] == MINUS {
        negative := true;
        p := p + 1;
      }
      if buf[p] == COMMA || buf[p] == STAR {
        break;
      }
      if buf[p] == DOT {
        point := true;
        p := p + 1;
      } else if buf[p] > NINE || buf[p] < ZERO {
        ilen, flen := 0, 0;
        break;
      }
      if point {
        flen := (flen + 1) % 256;
      } else {
        ilen := (ilen + 1) % 256;
      }
      p := p + 1;
    }
  }

  /** `NMEA_Str2num` */
  method NmeaStr2num(buf: seq<Octet>) returns (res: int, dx: Octet)
    requires ReadsNumber(buf)
    ensures (res, dx) == Str2num(buf)
  {
    var negative, ilen, flen := ScanLoop(buf);
    ScanNumberBounds(buf, 0, false, false, 0, 0);
    var shape := Shape(negative, ilen, flen);
    var ires := SumDigits(WholePart(buf, shape));
    dx := if flen > 5 then 5 else flen;
    var fres := SumDigits(FractionPart(buf, shape));
    var scale := NmeaPow(10, dx);
    res := FinishNumber(ires, scale, fres, negative, WholePart(buf, shape), FractionPart(buf, shape));
  }

  /** The last lines of `NMEA_Str2num`. */
  method FinishNumber(ires: UInt32, scale: UInt32, fres: UInt32, negative: bool, ghost whole: seq<Octet>, ghost fraction: seq<Octet>)
    returns (res: int)
    requires ires == U32(Value(whole)) && scale == U32(Pow(10, |fraction|)) && fres == U32(Value(fraction))
    ensures var v := Value(whole + fraction); res == S32(if negative then -v else v)
  {
    res := S32(U32(U32(ires * scale) + fres));
    ghost var v := Value(whole + fraction);
    ValueConcat(whole, fraction);
    CombinedWords(Value(whole), Value(fraction), Pow(10, |fraction|), v);
    if negative {
      S32Negates(v);
      res := S32(-res);
    }
  }

  /** The 32-bit arithmetic at the end of `NMEA_Str2num`. */
  lemma CombinedWords(i: int, f: int, scale: int, v: int)
    requires v == i * scale + f
    ensures S32(U32(U32(U32(i) * U32(scale)) + U32(f))) == S32(v)
  {
    U32Product(i, U32(scale));
    U32Product(scale, i);
    U32Sum(i * scale, U32(f));
    U32Sum(f, i * scale);
    S32OfU32(i * scale + f);
  }

  lemma {:induction false} ValueConcat(a: seq<Octet>, b: seq<Octet>)
    ensures Value(a + b) == Value(a) * Pow(10, |b|) + Value(b)
  {
    if |b| == 0 {
      assert a + b == a;
    } else {
      var b', d := b[..|b| - 1], b[|b| - 1] - ZERO;
      ValueConcat(a, b');
      assert (a + b)[..|a + b| - 1] == a + b';
      AppendedDigit(Value(a), Pow(10, |b'|), Value(b'), d);
    }
  }

  lemma AppendedDigit(i: int, scale: int, f: int, d: int)
    ensures 10 * (i * scale + f) + d == i * (10 * scale) + (10 * f + d)
  {
  }

  // ---------------------------------------------------------------------------------------------
  // Well-formed numbers

  predicate AllDigits(s: seq<Octet>) {
    forall i | 0 <= i < |s| :: IsDigit(s[i])
  }

  lemma DigitsTail(buf: seq<Octet>, at: nat, n: nat)
    requires n > 0 && at + n < |buf| && AllDigits(buf[at..at + n])
    ensures IsDigit(buf[at]) && AllDigits(buf[at + 1..at + 1 + (n - 1)])
  {
  }

  lemma ScanDigit(buf: seq<Octet>, at: nat, negative: bool, point: bool, ilen: Octet, flen: Octet)
    requires at < |buf| && IsDigit(buf[at])
    requires if point then flen < 255 else ilen < 255
    ensures ScanNumber(buf, at, negative, point, ilen, flen) ==
              if point then ScanNumber(buf, at + 1, negative, true, ilen, flen + 1)
              else ScanNumber(buf, at + 1, negative, false, ilen + 1, flen)
  {
  }

  lemma {:induction false} ScanDigits(buf: seq<Octet>, at: nat, n: nat, negative: bool, point: bool, ilen: Octet, flen: Octet)
    requires at + n < |buf| && AllDigits(buf[at..at + n])
    requires if point then flen + n < 256 else ilen + n < 256
    ensures ScanNumber(buf, at, negative, point, ilen, flen) ==
              if point then ScanNumber(buf, at + n, negative, true, ilen, flen + n)
              else ScanNumber(buf, at + n, negative, false, ilen + n, flen)
    decreases n
  {
    if n > 0 {
      DigitsTail(buf, at, n);
      ScanDigit(buf, at, negative, point, ilen, flen);
      if point {
        ScanDigits(buf, at + 1, n - 1, negative, true, ilen, flen + 1);
      } else {
        ScanDigits(buf, at + 1, n - 1, negative, false, ilen + 1, flen);
      }
    }
  }

  /** A number as it is written: an optional minus, digits, optionally a point and at least one
      more digit, and a terminator. */
  function Written(negative: bool, whole: seq<Octet>, fraction: seq<Octet>, terminator: Octet): seq<Octet> {
    (if negative then [45] else []) + whole + (if fraction == [] then [] else [46] + fraction) + [terminator]
  }

  /** Where the parts of a written number lie. */
  lemma WrittenLayout(sign: seq<Octet>, whole: seq<Octet>, point: seq<Octet>, fraction: seq<Octet>, tail: seq<Octet>)
    ensures var buf, w := sign + whole + (point + fraction) + tail, |sign| + |whole|;
      && buf[..|sign|] == sign && buf[|sign|..w] == whole
      && buf[w..w + |point|] == point && buf[w + |point|..w + |point| + |fraction|] == fraction
      && buf[w + |point| + |fraction|..] == tail
  {
  }

  lemma SkipMinus(buf: seq<Octet>, negative: bool, start: nat, whole: seq<Octet>)
    requires start == (if negative then 1 else 0) && start + |whole| < |buf| && buf[start..start + |whole|] == whole
    requires AllDigits(whole) && |whole| < 256
    requires negative ==> buf[0] == MINUS
    requires buf[start + |whole|] != MINUS
    ensures ScanNumber(buf, 0, false, false, 0, 0) == ScanNumber(buf, start + |whole|, negative, false, |whole|, 0)
  {
    if negative {
      if |whole| > 0 {
        assert buf[1] == whole[0];
        assert buf[2..2 + (|whole| - 1)] == whole[1..];
        ScanDigits(buf, 2, |whole| - 1, true, false, 1, 0);
      }
    } else {
      ScanDigits(buf, 0, |whole|, false, false, 0, 0);
    }
  }

  /** A character that ends a number, or spoils it. */
  predicate Ends(c: Octet) {
    !IsDigit(c) && c != 45 && c != 46
  }

  /** The shape of a number that the character c ends: nothing is left of it unless c is ',' or '*'. */
  function EndedBy(c: Octet, negative: bool, ilen: Octet, flen: Octet): Shape {
    if c == 44 || c == 42 then Shape(negative, ilen, flen) else Shape(negative, 0, 0)
  }

  lemma ScanEnds(buf: seq<Octet>, at: nat, negative: bool, point: bool, ilen: Octet, flen: Octet)
    requires at < |buf| && Ends(buf[at])
    ensures ScanNumber(buf, at, negative, point, ilen, flen) == Some(EndedBy(buf[at], negative, ilen, flen))
  {
  }

  lemma ScanFraction(buf: seq<Octet>, at: nat, n: nat, negative: bool, ilen: Octet)
    requires at + 1 + n < |buf| && 0 < n < 256 && buf[at] == DOT && AllDigits(buf[at + 1..at + 1 + n])
    requires Ends(buf[at + 1 + n])
    ensures ScanNumber(buf, at, negative, false, ilen, 0) == Some(EndedBy(buf[at + 1 + n], negative, ilen, n))
  {
    assert buf[at + 2..at + 2 + (n - 1)] == buf[at + 1..at + 1 + n][1..];
    ScanDigits(buf, at + 2, n - 1, negative, true, ilen, 1);
    ScanEnds(buf, at + 1 + n, negative, true, ilen, n);
  }

  lemma ScanWritten(negative: bool, whole: seq<Octet>, fraction: seq<Octet>, terminator: Octet, rest: seq<Octet>)
    requires AllDigits(whole) && AllDigits(fraction) && |whole| < 256 && |fraction| < 256
    requires Ends(terminator)
    ensures var buf, n := Written(negative, whole, fraction, terminator) + rest, Shape(negative, |whole|, |fraction|);
      && ScanNumber(buf, 0, false, false, 0, 0) == Some(EndedBy(terminator, negative, |whole|, |fraction|))
      && |buf| > (if negative then 1 else 0) + |whole| + (if fraction == [] then 0 else 1 + |fraction|)
      && WholePart(buf, n) == whole
      && FractionPart(buf, n) == fraction[..Min(|fraction|, 5)]
  {
    var buf := Written(negative, whole, fraction, terminator) + rest;
    var sign: seq<Octet>, point: seq<Octet> := if negative then [MINUS] else [], if fraction == [] then [] else [DOT];
    assert buf == sign + whole + (point + fraction) + ([terminator] + rest);
    WrittenLayout(sign, whole, point, fraction, [terminator] + rest);
    ScanLaidOut(buf, sign, whole, point, fraction, terminator);
    if fraction != [] {
      var w := |sign| + |whole|;
      assert FractionPart(buf, Shape(negative, |whole|, |fraction|)) == buf[w + 1..w + 1 + |fraction|][..Min(|fraction|, 5)];
    }
  }

  lemma ScanLaidOut(buf: seq<Octet>, sign: seq<Octet>, whole: seq<Octet>, point: seq<Octet>, fraction: seq<Octet>, terminator: Octet)
    requires sign == [] || sign == [MINUS]
    requires point == if fraction == [] then [] else [DOT]
    requires AllDigits(whole) && AllDigits(fraction) && |whole| < 256 && |fraction| < 256
    requires Ends(terminator)
    requires var w := |sign| + |whole|;
      && w + |point| + |fraction| < |buf| && buf[w + |point| + |fraction|] == terminator
      && buf[..|sign|] == sign && buf[|sign|..w] == whole
      && buf[w..w + |point|] == point && buf[w + |point|..w + |point| + |fraction|] == fraction
    ensures ScanNumber(buf, 0, false, false, 0, 0) == Some(EndedBy(terminator, sign == [MINUS], |whole|, |fraction|))
  {
    var w := |sign| + |whole|;
    if sign == [MINUS] {
      assert buf[0] == buf[..1][0];
    }
    if fraction != [] {
      assert buf[w] == buf[w..w + 1][0] == DOT;
    }
    SkipMinus(buf, sign == [MINUS], |sign|, whole);
    ScanTail(buf, w, |fraction|, sign == [MINUS], |whole|);
  }

  lemma ScanTail(buf: seq<Octet>, w: nat, n: nat, negative: bool, ilen: Octet)
    requires n < 256 && w + (if n == 0 then 0 else 1 + n) < |buf|
    requires n > 0 ==> buf[w] == DOT && AllDigits(buf[w + 1..w + 1 + n])
    requires Ends(buf[w + (if n == 0 then 0 else 1 + n)])
    ensures ScanNumber(buf, w, negative, false, ilen, 0) == Some(EndedBy(buf[w + (if n == 0 then 0 else 1 + n)], negative, ilen, n))
  {
    if n == 0 {
      ScanEnds(buf, w, negative, false, ilen, 0);
    } else {
      ScanFraction(buf, w, n, negative, ilen);
    }
  }

  lemma S32Fits(x: int)
    ensures S32(x) == x <==> FitsInt32(x)
  {
  }

  /** The number that is written, with at most five decimals and no point. */
  function WrittenValue(negative: bool, whole: seq<Octet>, fraction: seq<Octet>): int {
    var magnitude := Value(whole + fraction[..Min(|fraction|, 5)]);
    if negative then -magnitude else magnitude
  }

  lemma Str2numWord(negative: bool, whole: seq<Octet>, fraction: seq<Octet>, terminator: Octet, rest: seq<Octet>)
    requires AllDigits(whole) && AllDigits(fraction) && |whole| < 256 && |fraction| < 256
    requires terminator == 44 || terminator == 42
    ensures var buf := Written(negative, whole, fraction, terminator) + rest;
      ReadsNumber(buf) && Str2num(buf) == (S32(WrittenValue(negative, whole, fraction)), Min(|fraction|, 5))
  {
    var buf := Written(negative, whole, fraction, terminator) + rest;
    ScanWritten(negative, whole, fraction, terminator, rest);
    Str2numOf(buf, Shape(negative, |whole|, |fraction|), whole, fraction[..Min(|fraction|, 5)], WrittenValue(negative, whole, fraction));
  }

  /** A well-formed number is read with at most five decimals, exactly when it fits 32 bits. */
  lemma Str2numWritten(negative: bool, whole: seq<Octet>, fraction: seq<Octet>, terminator: Octet, rest: seq<Octet>)
    requires AllDigits(whole) && AllDigits(fraction) && |whole| < 256 && |fraction| < 256
    requires terminator == 44 || terminator == 42
    ensures var buf, value := Written(negative, whole, fraction, terminator) + rest, WrittenValue(negative, whole, fraction);
      && ReadsNumber(buf)
      && (Str2num(buf) == (value, Min(|fraction|, 5)) <==> FitsInt32(value))
  {
    Str2numWord(negative, whole, fraction, terminator, rest);
    S32Fits(WrittenValue(negative, whole, fraction));
  }

  lemma Str2numOf(buf: seq<Octet>, n: Shape, whole: seq<Octet>, fraction: seq<Octet>, v: int)
    requires ScanNumber(buf, 0, false, false, 0, 0) == Some(n)
    requires (if n.negative then 1 else 0) + n.ilen + (if n.flen > 0 then 1 + n.flen else 0) <= |buf|
    requires WholePart(buf, n) == whole && FractionPart(buf, n) == fraction
    requires v == if n.negative then -Value(whole + fraction) else Value(whole + fraction)
    ensures Str2num(buf) == (S32(v), Min(n.flen, 5))
  {
  }

  /** A number that any other character ends is read as 0 without decimals. */
  lemma IllegalCharacter(negative: bool, whole: seq<Octet>, fraction: seq<Octet>, c: Octet, rest: seq<Octet>)
    requires AllDigits(whole) && AllDigits(fraction) && |whole| < 256 && |fraction| < 256
    requires !IsDigit(c) && c != 44 && c != 42 && c != 45 && c != 46
    ensures var buf := Written(negative, whole, fraction, c) + rest;
      ReadsNumber(buf) && Str2num(buf) == (0, 0)
  {
    ScanWritten(negative, whole, fraction, c, rest);
    Str2numOf(Written(negative, whole, fraction, c) + rest, Shape(negative, 0, 0), [], [], 0);
  }
}
