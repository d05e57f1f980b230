/** The time-of-day sentence `XHTOD,year,month,day,hour,minute,second*` of
    USER/CMD_HANDLE/bds.c: what `TOD_Analysis` reads is what was printed. */
module TimeOfDay {
  import opened CInt
  import opened Sentences

  /** "XHTOD" */
  const TAG: seq<Octet> := [88, 72, 84, 79, 68]

  /** DateTime as declared in USER/LWIP_APP/mktime.h. */
  datatype DateTime = DateTime(year: UInt16, month: Octet, day: Octet, hour: Octet, minute: Octet, second: Octet)

  /** The text of field k of the sentence that starts at `tag`, when it is found below 0xFF. */
  function FieldText(tag: seq<Octet>, k: Octet): Option<seq<Octet>>
    requires !FindField(tag, k).Unknown?
  {
    FindFieldMeaning(tag, k);
    match FindField(tag, k)
    case At(p) => if p % 256 == 0xFF then None else Some(tag[p % 256..])
    case Absent => None
  }

  /** The buffer does not end within a field that is read. */
  predicate Readable(tag: seq<Octet>, k: Octet) {
    !FindField(tag, k).Unknown? && (FieldText(tag, k).Some? ==> ReadsNumber(FieldText(tag, k).value))
  }

  /** The number in field k as a 32-bit word, or nothing when the field is not found. */
  function FieldWord(tag: seq<Octet>, k: Octet): Option<UInt32>
    requires Readable(tag, k)
  {
    match FieldText(tag, k)
    case None => None
    case Some(text) => Some(U32(Str2num(text).0))
  }

  function Updated(before: int, word: Option<UInt32>, modulus: nat): (r: int)
    requires 0 <= before < modulus
    ensures 0 <= r < modulus
  {
    match word
    case None => before
    case Some(v) => v % modulus
  }

  predicate AllReadable(tag: seq<Octet>) {
    && Readable(tag, 1) && Readable(tag, 2) && Readable(tag, 3)
    && Readable(tag, 4) && Readable(tag, 5) && Readable(tag, 6)
  }

  /** What `TOD_Analysis` leaves in the struct when the sentence starts at `tag`. */
  function Analysed(before: DateTime, tag: seq<Octet>): DateTime
    requires AllReadable(tag)
  {
    DateTime(
      Updated(before.year, FieldWord(tag, 1), 0x1_0000),
      Updated(before.month, FieldWord(tag, 2), 256),
      Updated(before.day, FieldWord(tag, 3), 256),
      Updated(before.hour, FieldWord(tag, 4), 256),
      Updated(before.minute, FieldWord(tag, 5), 256),
      Updated(before.second, FieldWord(tag, 6), 256))
  }

  class Clock {
    var year: UInt16
    var month: Octet
    var day: Octet
    var hour: Octet
    var minute: Octet
    var second: Octet

    constructor (t: DateTime)
      ensures Value() == t
    {
      year, month, day, hour, minute, second := t.year, t.month, t.day, t.hour, t.minute, t.second;
    }

    function Value(): DateTime
      reads this
    {
      DateTime(year, month, day, hour, minute, second)
    }

    /** One field: its position, and its number if the position is not 0xFF. */
    method ReadField(p1: seq<Octet>, k: Octet) returns (found: bool, temp: UInt32)
      requires Readable(p1, k)
      ensures FieldWord(p1, k) == if found then Some(temp) else None
    {
      FindFieldMeaning(p1, k);
      var posx := NmeaCommaPos(p1, k);
      found, temp := false, 0;
      if posx != 0xFF {
        var res, dx := NmeaStr2num(p1[posx..]);
        found, temp := true, U32(res);
      }
    }

    /** A field of the struct takes the number, cut to its width, when the field is found. */
    method UpdateFrom(p1: seq<Octet>, k: Octet, before: int, modulus: nat) returns (r: int)
      requires Readable(p1, k) && 0 <= before < modulus
      ensures r == Updated(before, FieldWord(p1, k), modulus)
    {
      var found, temp := ReadField(p1, k);
      r := before;
      if found {
        r := temp % modulus;
      }
    }

    /** `TOD_Analysis` after the sentence is found. */
    method ReadFields(p1: seq<Octet>)
      requires AllReadable(p1)
      modifies this
      ensures Value() == Analysed(old(Value()), p1)
      ensures (FieldWord(p1, 1) == None ==> year == old(year)) && (FieldWord(p1, 2) == None ==> month == old(month))
      ensures (FieldWord(p1, 3) == None ==> day == old(day)) && (FieldWord(p1, 4) == None ==> hour == old(hour))
      ensures (FieldWord(p1, 5) == None ==> minute == old(minute)) && (FieldWord(p1, 6) == None ==> second == old(second))
    {
      year := UpdateFrom(p1, 1, year, 0x1_0000);
      month := UpdateFrom(p1, 2, month, 256);
      day := UpdateFrom(p1, 3, day, 256);
      hour := UpdateFrom(p1, 4, hour, 256);
      minute := UpdateFrom(p1, 5, minute, 256);
      second := UpdateFrom(p1, 6, second, 256);
    }

    /** `TOD_Analysis`; without a sentence in the first len bytes nothing changes. */
    method TodAnalysis(buf: seq<Octet>, len: UInt16)
      requires len <= |buf|
      requires forall p: nat | p <= len && FirstAt(buf[..len], p) :: AllReadable(buf[p..])
      modifies this
      ensures (forall p: nat :: !MatchAt(buf[..len], p, TAG)) ==> Value() == old(Value())
      ensures forall p: nat | p <= len && FirstAt(buf[..len], p) :: Value() == Analysed(old(Value()), buf[p..])
    {
      var at := MyStrstr(buf, TAG, len);
      if at.Some? {
        ReadFields(buf[at.value..]);
      }
    }
  }

  /** The first sentence in a buffer starts at p. */
  ghost predicate FirstAt(buf: seq<Octet>, p: nat) {
    MatchAt(buf, p, TAG) && forall q: nat | q < p :: !MatchAt(buf, q, TAG)
  }

  // ---------------------------------------------------------------------------------------------
  // Printing

  /** The decimal digits of a number. */
  function Digits(n: nat): (s: seq<Octet>)
    ensures AllDigits(s) && |s| > 0
  {
    if n < 10 then [48 + n] else Digits(n / 10) + [48 + n % 10]
  }

  lemma {:induction false} DigitsValue(n: nat)
    ensures Value(Digits(n)) == n
  {
    if n < 10 {
      assert Digits(n)[..0] == [];
    } else {
      DigitsValue(n / 10);
      var s := Digits(n / 10);
      assert (s + [48 + n % 10])[..|s|] == s;
    }
  }

  /** The fields, each after a comma, and the closing star. */
  function Fields(fs: seq<seq<Octet>>): seq<Octet> {
    if |fs| == 0 then [42] else [44] + fs[0] + Fields(fs[1..])
  }

  /** The offset of field k among the fields. */
  function Offset(fs: seq<seq<Octet>>, k: nat): nat
    requires 1 <= k <= |fs|
  {
    if k == 1 then 1 else 1 + |fs[0]| + Offset(fs[1..], k - 1)
  }

  predicate Plain(s: seq<Octet>) {
    forall i | 0 <= i < |s| :: s[i] != COMMA && !Stops(s[i])
  }

  lemma {:induction false} SkipPlain(s: seq<Octet>, rest: seq<Octet>, cx: nat)
    requires Plain(s) && cx > 0
    ensures FindField(s + rest, cx) == FindField(rest, cx).Shift(|s|)
  {
    if |s| == 0 {
      assert s + rest == rest;
    } else {
      assert (s + rest)[1..] == s[1..] + rest;
      SkipPlain(s[1..], rest, cx);
    }
  }

  /** Field k is found where it was printed, followed by the rest of the sentence. */
  lemma {:induction false} FieldFound(fs: seq<seq<Octet>>, post: seq<Octet>, k: nat)
    requires 1 <= k <= |fs| && forall i | 0 <= i < |fs| :: AllDigits(fs[i])
    ensures FindField(Fields(fs) + post, k) == At(Offset(fs, k))
    ensures Offset(fs, k) <= |Fields(fs) + post|
    ensures (Fields(fs) + post)[Offset(fs, k)..] == fs[k - 1] + Fields(fs[k..]) + post
    decreases k
  {
    var rest := Fields(fs[1..]) + post;
    var body := fs[0] + rest;
    assert Fields(fs) + post == [COMMA] + body;
    assert ([COMMA] + body)[1..] == body;
    if k == 1 {
      assert body == fs[0] + Fields(fs[1..]) + post;
    } else {
      FieldFound(fs[1..], post, k - 1);
      SkipPlain(fs[0], rest, k - 1);
      assert fs[1..][k - 1..] == fs[k..];
      assert ([COMMA] + body)[Offset(fs, k)..] == rest[Offset(fs[1..], k - 1)..];
    }
  }

  /** A sentence whose fields are strings of digits, any number of them. */
  predicate NumberList(fs: seq<seq<Octet>>) {
    forall i | 0 <= i < |fs| :: AllDigits(fs[i]) && |fs[i]| < 256
  }

  lemma TagIsPlain()
    ensures Plain(TAG)
  {
  }

  /** Each field of a sentence is found where it was printed. */
  lemma FieldPlace(fs: seq<seq<Octet>>, post: seq<Octet>, k: nat)
    requires NumberList(fs) && 1 <= k <= |fs| && k < 256 && |TAG| + Offset(fs, k) < 0xFF
    ensures var tag, p := TAG + Fields(fs) + post, |TAG| + Offset(fs, k);
      && FindField(tag, k) == At(p) && p <= |tag|
      && tag[p..] == fs[k - 1] + Fields(fs[k..]) + post
  {
    var body := Fields(fs) + post;
    assert TAG + Fields(fs) + post == TAG + body;
    TagIsPlain();
    SkipPlain(TAG, body, k);
    FieldFound(fs, post, k);
    assert (TAG + body)[|TAG| + Offset(fs, k)..] == body[Offset(fs, k)..];
  }

  /** It carries its digits and its terminator. */
  lemma FieldWritten(fs: seq<seq<Octet>>, post: seq<Octet>, k: nat) returns (terminator: Octet, rest: seq<Octet>)
    requires NumberList(fs) && 1 <= k <= |fs| && k < 256 && |TAG| + Offset(fs, k) < 0xFF
    ensures terminator == COMMA || terminator == STAR
    ensures var tag := TAG + Fields(fs) + post;
      FindField(tag, k) == At(|TAG| + Offset(fs, k)) && FieldText(tag, k) == Some(Written(false, fs[k - 1], [], terminator) + rest)
  {
    FieldPlace(fs, post, k);
    var digits, tail := fs[k - 1], Fields(fs[k..]);
    terminator := if k == |fs| then STAR else COMMA;
    rest := tail[1..] + post;
    assert tail == [terminator] + tail[1..];
    assert digits + tail + post == Written(false, digits, [], terminator) + rest;
  }

  /** Each field of a sentence sets its member to the number its digits denote. */
  lemma FieldRead(fs: seq<seq<Octet>>, post: seq<Octet>, k: nat, before: int, modulus: nat)
    requires NumberList(fs) && 1 <= k <= |fs| && k < 256 && |TAG| + Offset(fs, k) < 0xFF
    requires 0 <= Value(fs[k - 1]) < modulus <= 0x1_0000 && 0 <= before < modulus
    ensures var tag := TAG + Fields(fs) + post;
      Readable(tag, k) && Updated(before, FieldWord(tag, k), modulus) == Value(fs[k - 1])
  {
    var tag := TAG + Fields(fs) + post;
    var terminator, rest := FieldWritten(fs, post, k);
    Str2numWord(false, fs[k - 1], [], terminator, rest);
    var v := Value(fs[k - 1]);
    assert fs[k - 1] + [][..0] == fs[k - 1];
    assert WrittenValue(false, fs[k - 1], []) == v;
    SmallWord(v, modulus);
    assert FieldWord(tag, k) == Some(U32(S32(v)));
  }

  lemma SmallWord(v: int, modulus: nat)
    requires 0 <= v < modulus <= 0x1_0000
    ensures U32(S32(v)) % modulus == v
  {
    DivModUnique(v, 0, v, modulus);
  }

  lemma {:induction false} ListPasses(fs: seq<seq<Octet>>) returns (pre: seq<Octet>)
    requires NumberList(fs)
    ensures Fields(fs) == pre + [42] && NoStop(pre) && Commas(pre) == |fs|
  {
    if |fs| == 0 {
      pre := [];
    } else {
      var rest := ListPasses(fs[1..]);
      pre := [44] + fs[0] + rest;
      CommasOfField(fs[0], rest);
      assert pre[1..] == fs[0] + rest;
    }
  }

  lemma {:induction false} CommasOfField(digits: seq<Octet>, rest: seq<Octet>)
    requires AllDigits(digits)
    ensures Commas(digits + rest) == Commas(rest)
  {
    if |digits| == 0 {
      assert digits + rest == rest;
    } else {
      assert (digits + rest)[1..] == digits[1..] + rest;
      CommasOfField(digits[1..], rest);
    }
  }

  /** A field beyond the last one is not found, whatever follows the sentence. */
  lemma FieldMissing(fs: seq<seq<Octet>>, post: seq<Octet>, k: nat)
    requires NumberList(fs) && |fs| < k
    ensures FindField(TAG + Fields(fs) + post, k) == Absent
  {
    var pre := ListPasses(fs);
    var c: Octet := 42;
    TagIsPlain();
    SkipPlain(TAG, Fields(fs) + post, k);
    assert TAG + Fields(fs) + post == TAG + (Fields(fs) + post);
    FieldCutOff(pre, c, post, k);
  }

  /** The number in field k of a sentence, or what the member was before. */
  function Taken(fs: seq<seq<Octet>>, k: nat, before: int): int
    requires k > 0
  {
    if k <= |fs| then Value(fs[k - 1]) else before
  }

  /** The year fits 16 bits and the other numbers fit 8. */
  predicate InRange(fs: seq<seq<Octet>>) {
    forall i | 0 <= i < |fs| :: 0 <= Value(fs[i]) < if i == 0 then 0x1_0000 else 256
  }

  /** At most six numbers in their ranges, with all fields below offset 255. */
  predicate Sentence(fs: seq<seq<Octet>>) {
    NumberList(fs) && InRange(fs) && |fs| <= 6 && (|fs| > 0 ==> |TAG| + Offset(fs, |fs|) < 0xFF)
  }

  /** What becomes of one member. */
  lemma MemberRead(fs: seq<seq<Octet>>, post: seq<Octet>, k: nat, before: int, modulus: nat)
    requires Sentence(fs) && 1 <= k <= 6 && modulus == (if k == 1 then 0x1_0000 else 256) && 0 <= before < modulus
    ensures var tag := TAG + Fields(fs) + post;
      Readable(tag, k) && Updated(before, FieldWord(tag, k), modulus) == Taken(fs, k, before)
  {
    if k <= |fs| {
      OffsetGrows(fs, k, |fs|);
      FieldRead(fs, post, k, before, modulus);
    } else {
      FieldMissing(fs, post, k);
    }
  }

  /** Any such sentence sets the members in order; if it is too short, the members it does not reach
      keep their values, whatever comes after its star. */
  lemma ListRead(fs: seq<seq<Octet>>, post: seq<Octet>, before: DateTime)
    requires Sentence(fs)
    ensures var tag := TAG + Fields(fs) + post;
      && AllReadable(tag)
      && var t := Analysed(before, tag);
         && t.year == Taken(fs, 1, before.year) && t.month == Taken(fs, 2, before.month) && t.day == Taken(fs, 3, before.day)
         && t.hour == Taken(fs, 4, before.hour) && t.minute == Taken(fs, 5, before.minute) && t.second == Taken(fs, 6, before.second)
  {
    MemberRead(fs, post, 1, before.year, 0x1_0000);
    MemberRead(fs, post, 2, before.month, 256);
    MemberRead(fs, post, 3, before.day, 256);
    MemberRead(fs, post, 4, before.hour, 256);
    MemberRead(fs, post, 5, before.minute, 256);
    MemberRead(fs, post, 6, before.second, 256);
  }

  /** With all six numbers it sets the struct to them. */
  lemma SentenceRead(fs: seq<seq<Octet>>, post: seq<Octet>, t: DateTime, before: DateTime)
    requires NumberList(fs) && |fs| == 6 && |TAG| + Offset(fs, 6) < 0xFF
    requires Value(fs[0]) == t.year && Value(fs[1]) == t.month && Value(fs[2]) == t.day
    requires Value(fs[3]) == t.hour && Value(fs[4]) == t.minute && Value(fs[5]) == t.second
    ensures var tag := TAG + Fields(fs) + post; AllReadable(tag) && Analysed(before, tag) == t
  {
    assert InRange(fs) by {
      assert Value(fs[0]) < 0x1_0000 && Value(fs[1]) < 256 && Value(fs[2]) < 256;
    }
    ListRead(fs, post, before);
  }

  lemma {:induction false} OffsetGrows(fs: seq<seq<Octet>>, k: nat, l: nat)
    requires 1 <= k <= l <= |fs|
    ensures Offset(fs, k) <= Offset(fs, l)
    decreases k
  {
    if k > 1 {
      OffsetGrows(fs[1..], k - 1, l - 1);
    }
  }

  /** The printed form of a date-time. */
  function Printed(t: DateTime): seq<Octet> {
    [88, 72, 84, 79, 68] + Fields(Numbers(t))
  }

  function Numbers(t: DateTime): (fs: seq<seq<Octet>>)
    ensures |fs| == 6
  {
    [Digits(t.year), Digits(t.month), Digits(t.day), Digits(t.hour), Digits(t.minute), Digits(t.second)]
  }

  /** The digits of numbers in the ranges of the struct. */
  lemma {:induction false} DigitsLength(n: nat, k: nat)
    requires n < Pow(10, k) && k > 0
    ensures |Digits(n)| <= k
  {
    assert Pow(10, 1) == 10 * Pow(10, 0) == 10;
    if n >= 10 {
      assert n / 10 < Pow(10, k - 1);
      DigitsLength(n / 10, k - 1);
    }
  }

  /** Round trip: a printed date-time whose tag lies in the first len bytes, with no other
      sentence before it, is read back whole. */
  lemma RoundTrip(pre: seq<Octet>, t: DateTime, post: seq<Octet>, len: nat, before: DateTime)
    requires |pre| + |TAG| <= len <= |pre + Printed(t) + post|
    requires forall q: nat | q < |pre| :: !MatchAt((pre + Printed(t) + post)[..len], q, TAG)
    ensures var buf := pre + Printed(t) + post;
      && FirstAt(buf[..len], |pre|)
      && AllReadable(buf[|pre|..]) && Analysed(before, buf[|pre|..]) == t
  {
    var buf, fs := pre + Printed(t) + post, Numbers(t);
    assert buf[|pre|..] == TAG + Fields(fs) + post;
    assert buf[..len][|pre|..|pre| + |TAG|] == buf[|pre|..][..|TAG|] == TAG;
    NumbersShort(t);
    SentenceRead(fs, post, t, before);
  }

  lemma NumbersShort(t: DateTime)
    ensures NumberList(Numbers(t)) && |TAG| + Offset(Numbers(t), 6) < 0xFF
    ensures var fs := Numbers(t);
      && Value(fs[0]) == t.year && Value(fs[1]) == t.month && Value(fs[2]) == t.day
      && Value(fs[3]) == t.hour && Value(fs[4]) == t.minute && Value(fs[5]) == t.second
  {
    assert Pow(10, 3) == 1000 && Pow(10, 5) == 100000;
    DigitsLength(t.year, 5);
    DigitsLength(t.month, 3);
    DigitsLength(t.day, 3);
    DigitsLength(t.hour, 3);
    DigitsLength(t.minute, 3);
    DigitsLength(t.second, 3);
    DigitsValue(t.year);
    DigitsValue(t.month);
    DigitsValue(t.day);
    DigitsValue(t.hour);
    DigitsValue(t.minute);
    DigitsValue(t.second);
    OffsetOfSix(Numbers(t));
  }

  lemma OffsetOfSix(fs: seq<seq<Octet>>)
    requires |fs| == 6
    ensures Offset(fs, 6) == 6 + |fs[0]| + |fs[1]| + |fs[2]| + |fs[3]| + |fs[4]|
  {
    var f1, f2 := fs[1..], fs[2..];
    assert f1[1..] == f2 && f2[1..] == fs[3..] && fs[3..][1..] == fs[4..] && fs[4..][1..] == fs[5..];
    assert Offset(fs[4..], 2) == 2 + |fs[4]|;
    assert Offset(fs[3..], 3) == 3 + |fs[3]| + |fs[4]|;
    assert Offset(f2, 4) == 4 + |fs[2]| + |fs[3]| + |fs[4]|;
  }
}
