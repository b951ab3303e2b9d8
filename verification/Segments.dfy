/** Segments of a QR code and the factories that make them from text, bytes and designators. */
module Segments {
  import opened Outcomes
  import opened BitBuffers

  datatype Mode = Numeric | Alphanumeric | Byte | Kanji | Eci {
    function ModeBits(): nat {
      match this
      case Numeric => 0x1
      case Alphanumeric => 0x2
      case Byte => 0x4
      case Kanji => 0x8
      case Eci => 0x7
    }

    /** The width of the character count field in a symbol of the given version. */
    function NumCharCountBits(ver: nat): nat
      requires 1 <= ver <= 40
    {
      var group := (ver + 7) / 17;
      match this
      case Numeric => [10, 12, 14][group]
      case Alphanumeric => [9, 11, 13][group]
      case Byte => [8, 16, 16][group]
      case Kanji => [8, 10, 12][group]
      case Eci => 0
    }
  }

  datatype Segment = Segment(mode: Mode, numChars: nat, data: seq<bool>)

  const INT_MAX: int := 0x7FFF_FFFF

  const ALPHANUMERIC_CHARSET: string := "0123456789ABCDEFGHIJKLMNOPQRSTUVWXYZ $%*+-./:"

  type Octet = x: nat | x < 256

  /** A NUL-terminated string of 8-bit characters. */
  predicate IsCString(text: string) {
    forall c :: c in text ==> 0 < c as int < 256
  }

  // ----- character values

  predicate IsDigit(c: char) {
    '0' <= c <= '9'
  }

  function DigitValue(c: char): nat
    requires IsDigit(c)
  {
    c as int - '0' as int
  }

  /** The position of c in the charset, or the length of the charset if it is not there. */
  function CharsetIndex(c: char, from: nat): (i: nat)
    requires from <= |ALPHANUMERIC_CHARSET|
    ensures from <= i <= |ALPHANUMERIC_CHARSET|
    ensures i < |ALPHANUMERIC_CHARSET| ==> ALPHANUMERIC_CHARSET[i] == c
    ensures i == |ALPHANUMERIC_CHARSET| ==> c !in ALPHANUMERIC_CHARSET[from..]
    decreases |ALPHANUMERIC_CHARSET| - from
  {
    if from == |ALPHANUMERIC_CHARSET| then from
    else if ALPHANUMERIC_CHARSET[from] == c then from
    else CharsetIndex(c, from + 1)
  }

  const CHARSET_SIZE: nat := 45

  /** What `strchr` finds: the position of c in the charset, or CHARSET_SIZE. */
  function AlphanumericValue(c: char): (v: nat)
    ensures v <= CHARSET_SIZE
  {
    CharsetIndex(c, 0)
  }

  lemma AlphanumericValueMeaning(c: char)
    ensures IsAlphanumericChar(c) <==> c in ALPHANUMERIC_CHARSET
    ensures IsAlphanumericChar(c) ==> ALPHANUMERIC_CHARSET[AlphanumericValue(c)] == c
  {
    hide CharsetIndex;
  }

  predicate IsAlphanumericChar(c: char) {
    AlphanumericValue(c) < CHARSET_SIZE
  }

  predicate AllDigits(text: string) {
    forall c :: c in text ==> IsDigit(c)
  }

  predicate AllAlphanumeric(text: string) {
    forall c :: c in text ==> IsAlphanumericChar(c)
  }

  // ----- what each kind of payload becomes

  function DigitsValue(d: string): nat
    requires AllDigits(d)
  {
    if |d| == 0 then 0 else DigitsValue(d[..|d| - 1]) * 10 + DigitValue(d[|d| - 1])
  }

  /** Groups of three digits in 10 bits each; a rest of one or two digits in 4 or 7 bits. */
  function NumericBits(d: string): seq<bool>
    requires AllDigits(d)
  {
    if |d| == 0 then []
    else if |d| < 3 then BitsOf(DigitsValue(d), |d| * 3 + 1)
    else BitsOf(DigitsValue(d[..3]), 10) + NumericBits(d[3..])
  }

  function CharsValue(t: string): nat
    requires AllAlphanumeric(t)
  {
    if |t| == 0 then 0 else CharsValue(t[..|t| - 1]) * 45 + AlphanumericValue(t[|t| - 1])
  }

  /** Pairs of characters in 11 bits each; a single last character in 6 bits. */
  function AlphanumericBits(t: string): seq<bool>
    requires AllAlphanumeric(t)
  {
    if |t| == 0 then []
    else if |t| == 1 then BitsOf(CharsValue(t), 6)
    else BitsOf(CharsValue(t[..2]), 11) + AlphanumericBits(t[2..])
  }

  function OctetBits(data: seq<Octet>): seq<bool> {
    if |data| == 0 then [] else OctetBits(data[..|data| - 1]) + BitsOf(data[|data| - 1], 8)
  }

  function EciBits(val: nat): seq<bool>
    requires val < 1000000
  {
    if val < 128 then BitsOf(val, 8)
    else if val < 16384 then BitsOf(2, 2) + BitsOf(val, 14)
    else BitsOf(6, 3) + BitsOf(val, 21)
  }

  datatype Payload =
    | Digits(digits: string)
    | Text(text: string)
    | Octets(data: seq<Octet>)
    | Designator(assignment: nat)

  predicate IsPayload(p: Payload) {
    match p
    case Digits(d) => AllDigits(d)
    case Text(t) => AllAlphanumeric(t)
    case Octets(_) => true
    case Designator(v) => v < 1000000
  }

  /** The segment that the factory for this kind of payload makes. */
  function SegmentOf(p: Payload): Segment
    requires IsPayload(p)
  {
    match p
    case Digits(d) => Segment(Numeric, |d|, NumericBits(d))
    case Text(t) => Segment(Alphanumeric, |t|, AlphanumericBits(t))
    case Octets(b) => Segment(Byte, |b|, OctetBits(b))
    case Designator(v) => Segment(Eci, 0, EciBits(v))
  }

  // ----- bounds and prefixes

  lemma Pow2Table()
    ensures Pow2(4) == 16 && Pow2(7) == 128 && Pow2(10) == 1024 && Pow2(6) == 64 && Pow2(11) == 2048
    ensures Pow2(8) == 256 && Pow2(14) == 16384 && Pow2(21) == 2097152 && Pow2(2) == 4 && Pow2(3) == 8
  {
    assert Pow2(7) == 128;
    assert Pow2(14) == 16384;
    assert Pow2(21) == 128 * Pow2(14);
  }

  lemma {:induction false} DigitsValueBound(d: string)
    requires AllDigits(d) && |d| <= 3
    ensures |d| == 0 ==> DigitsValue(d) == 0
    ensures |d| == 1 ==> DigitsValue(d) < 10
    ensures |d| == 2 ==> DigitsValue(d) < 100
    ensures |d| == 3 ==> DigitsValue(d) < 1000
  {
    if |d| > 0 {
      assert d[|d| - 1] in d;
      DigitsValueBound(d[..|d| - 1]);
    }
  }

  lemma {:induction false} CharsValueBound(t: string)
    requires AllAlphanumeric(t) && |t| <= 2
    ensures |t| == 0 ==> CharsValue(t) == 0
    ensures |t| == 1 ==> CharsValue(t) < 45
    ensures |t| == 2 ==> CharsValue(t) < 45 * 45
  {
    hide AlphanumericValue;
    if |t| > 0 {
      assert t[|t| - 1] in t;
      CharsValueBound(t[..|t| - 1]);
    }
  }

  lemma {:induction false} NumericBitsConcat(a: string, b: string)
    requires AllDigits(a) && AllDigits(b) && |a| % 3 == 0
    ensures AllDigits(a + b) && NumericBits(a + b) == NumericBits(a) + NumericBits(b)
  {
    if |a| == 0 {
      assert a + b == b;
    } else {
      assert (a + b)[..3] == a[..3] && (a + b)[3..] == a[3..] + b;
      NumericBitsConcat(a[3..], b);
    }
  }

  lemma {:induction false} AlphanumericBitsConcat(a: string, b: string)
    requires AllAlphanumeric(a) && AllAlphanumeric(b) && |a| % 2 == 0
    ensures AllAlphanumeric(a + b) && AlphanumericBits(a + b) == AlphanumericBits(a) + AlphanumericBits(b)
  {
    hide AlphanumericValue, IsAlphanumericChar;
    if |a| == 0 {
      assert a + b == b;
    } else {
      assert (a + b)[..2] == a[..2] && (a + b)[2..] == a[2..] + b;
      AlphanumericBitsConcat(a[2..], b);
    }
  }

  lemma NumericBitsEmpty()
    ensures NumericBits("") == [] && DigitsValue("") == 0
  {
  }

  lemma AlphanumericBitsEmpty()
    ensures AlphanumericBits("") == [] && CharsValue("") == 0
  {
  }

  lemma DigitsGroup(d: string)
    requires AllDigits(d) && 0 < |d| <= 3
    ensures DigitsValue(d) < Pow2(if |d| == 3 then 10 else |d| * 3 + 1)
    ensures NumericBits(d) == BitsOf(DigitsValue(d), if |d| == 3 then 10 else |d| * 3 + 1)
  {
    DigitsValueBound(d);
    Pow2Table();
    if |d| == 3 {
      assert d[..3] == d && NumericBits(d[3..]) == [];
    }
  }

  lemma CharsGroup(t: string)
    requires AllAlphanumeric(t) && 0 < |t| <= 2
    ensures CharsValue(t) < Pow2(if |t| == 2 then 11 else 6)
    ensures AlphanumericBits(t) == BitsOf(CharsValue(t), if |t| == 2 then 11 else 6)
  {
    hide AlphanumericValue, IsAlphanumericChar;
    CharsValueBound(t);
    Pow2Table();
    if |t| == 2 {
      assert t[..2] == t && AlphanumericBits(t[2..]) == [];
    }
  }

  lemma DigitsSnoc(d: string, c: char)
    requires AllDigits(d) && IsDigit(c)
    ensures AllDigits(d + [c]) && DigitsValue(d + [c]) == DigitsValue(d) * 10 + DigitValue(c)
  {
    assert (d + [c])[..|d|] == d;
  }

  lemma CharsSnoc(t: string, c: char)
    requires AllAlphanumeric(t) && IsAlphanumericChar(c)
    ensures AllAlphanumeric(t + [c]) && CharsValue(t + [c]) == CharsValue(t) * 45 + AlphanumericValue(c)
  {
    hide AlphanumericValue;
    assert (t + [c])[..|t|] == t;
  }

  // ----- the factories

  method MakeBytes(data: seq<Octet>) returns (r: Result<Segment>)
    ensures r.Failure? <==> |data| > INT_MAX
    ensures r.Success? ==> r.value == SegmentOf(Octets(data))
  {
    if |data| > INT_MAX {
      return Failure(LengthError);
    }
    var bb := new BitBuffer();
    for i := 0 to |data|
      invariant bb.bits == OctetBits(data[..i])
    {
      Pow2Table();
      var e := bb.AppendBits(data[i], 8);
      assert data[..i + 1][..i] == data[..i];
    }
    assert data[..|data|] == data;
    r := Success(Segment(Byte, |data|, bb.bits));
  }

  method MakeNumeric(digits: string) returns (r: Result<Segment>)
    ensures r.Success? <==> AllDigits(digits)
    ensures r.Success? ==> r.value == SegmentOf(Digits(digits))
  {
    hide NumericBits, DigitsValue, BitsOf, Pow2;
    var bb := new BitBuffer();
    var accumData := 0;
    var accumCount := 0;
    var charCount := 0;
    ghost var (flushed, group) := ("", "");
    NumericBitsEmpty();
    while charCount < |digits|
      invariant 0 <= charCount <= |digits| && digits[..charCount] == flushed + group
      invariant 0 <= accumCount == |group| < 3 && |flushed| % 3 == 0
      invariant AllDigits(flushed) && AllDigits(group)
      invariant bb.bits == NumericBits(flushed) && accumData == DigitsValue(group)
    {
      var c := digits[charCount];
      if c < '0' || c > '9' {
        assert digits[charCount] in digits;
        return Failure(DomainError);
      }
      DigitsSnoc(group, digits[charCount]);
      group := group + [digits[charCount]];
      accumData := accumData * 10 + (c as int - '0' as int);
      accumCount := accumCount + 1;
      charCount := charCount + 1;
      if accumCount == 3 {
        DigitsGroup(group);
        NumericBitsConcat(flushed, group);
        var e := bb.AppendBits(accumData, 10);
        flushed, group := flushed + group, "";
        accumData := 0;
        accumCount := 0;
      }
    }
    assert digits == flushed + group;
    NumericBitsConcat(flushed, group);
    if accumCount > 0 {
      DigitsGroup(group);
      var e := bb.AppendBits(accumData, accumCount * 3 + 1);
    }
    r := Success(Segment(Numeric, charCount, bb.bits));
  }

  method MakeAlphanumeric(text: string) returns (r: Result<Segment>)
    ensures r.Success? <==> AllAlphanumeric(text)
    ensures r.Success? ==> r.value == SegmentOf(Text(text))
  {
    hide AlphanumericBits, CharsValue, BitsOf, Pow2, AlphanumericValue;
    var bb := new BitBuffer();
    var accumData := 0;
    var accumCount := 0;
    var charCount := 0;
    ghost var (flushed, group) := ("", "");
    AlphanumericBitsEmpty();
    while charCount < |text|
      invariant 0 <= charCount <= |text| && text[..charCount] == flushed + group
      invariant 0 <= accumCount == |group| < 2 && |flushed| % 2 == 0
      invariant AllAlphanumeric(flushed) && AllAlphanumeric(group)
      invariant bb.bits == AlphanumericBits(flushed) && accumData == CharsValue(group)
    {
      var temp := AlphanumericValue(text[charCount]);
      if temp == CHARSET_SIZE {
        assert text[charCount] in text;
        return Failure(DomainError);
      }
      CharsSnoc(group, text[charCount]);
      group := group + [text[charCount]];
      accumData := accumData * 45 + temp;
      accumCount := accumCount + 1;
      charCount := charCount + 1;
      if accumCount == 2 {
        CharsGroup(group);
        AlphanumericBitsConcat(flushed, group);
        var e := bb.AppendBits(accumData, 11);
        flushed, group := flushed + group, "";
        accumData := 0;
        accumCount := 0;
      }
    }
    assert text == flushed + group;
    AlphanumericBitsConcat(flushed, group);
    if accumCount > 0 {
      CharsGroup(group);
      var e := bb.AppendBits(accumData, 6);
    }
    r := Success(Segment(Alphanumeric, charCount, bb.bits));
  }

  method MakeEci(assignVal: int) returns (r: Result<Segment>)
    ensures r.Success? <==> 0 <= assignVal < 1000000
    ensures r.Success? ==> r.value == SegmentOf(Designator(assignVal))
  {
    var bb := new BitBuffer();
    Pow2Table();
    if assignVal < 0 {
      return Failure(DomainError);
    } else if assignVal < 128 {
      var e := bb.AppendBits(assignVal, 8);
    } else if assignVal < 16384 {
      var e := bb.AppendBits(2, 2);
      e := bb.AppendBits(assignVal, 14);
    } else if assignVal < 1000000 {
      var e := bb.AppendBits(6, 3);
      e := bb.AppendBits(assignVal, 21);
    } else {
      return Failure(DomainError);
    }
    r := Success(Segment(Eci, 0, bb.bits));
  }

  // ----- choosing a mode for a text

  method IsNumeric(text: string) returns (b: bool)
    ensures b == AllDigits(text)
  {
    for i := 0 to |text|
      invariant AllDigits(text[..i])
    {
      var c := text[i];
      if c < '0' || c > '9' {
        assert c in text && !IsDigit(c);
        return false;
      }
    }
    assert text[..|text|] == text;
    b := true;
  }

  method IsAlphanumeric(text: string) returns (b: bool)
    ensures b == AllAlphanumeric(text)
  {
    hide AlphanumericValue;
    for i := 0 to |text|
      invariant AllAlphanumeric(text[..i])
    {
      if AlphanumericValue(text[i]) == CHARSET_SIZE {
        assert text[i] in text && !IsAlphanumericChar(text[i]);
        return false;
      }
    }
    assert text[..|text|] == text;
    b := true;
  }

  function OctetOf(c: char): Octet
    requires 0 < c as int < 256
  {
    c as int
  }

  function OctetsOf(text: string): seq<Octet>
    requires IsCString(text)
  {
    seq(|text|, i requires 0 <= i < |text| => assert text[i] in text; OctetOf(text[i]))
  }

  /** The payloads `MakeSegments` chooses for a text. */
  function PayloadsOf(text: string): (ps: seq<Payload>)
    requires IsCString(text)
    ensures forall p :: p in ps ==> IsPayload(p)
  {
    if text == "" then [] else if AllDigits(text) then [Digits(text)]
    else if AllAlphanumeric(text) then [Text(text)] else [Octets(OctetsOf(text))]
  }

  function SegmentsOf(ps: seq<Payload>): seq<Segment>
    requires forall p :: p in ps ==> IsPayload(p)
  {
    seq(|ps|, i requires 0 <= i < |ps| => SegmentOf(ps[i]))
  }

  method MakeSegments(text: string) returns (r: Result<seq<Segment>>)
    requires IsCString(text)
    ensures r.Failure? ==> |text| > INT_MAX
    ensures r.Success? ==> r.value == SegmentsOf(PayloadsOf(text))
  {
    hide AlphanumericValue, IsAlphanumericChar, SegmentOf;
    if |text| == 0 {
      return Success([]);
    }
    var numeric := IsNumeric(text);
    var alphanumeric := IsAlphanumeric(text);
    var segment: Result<Segment>;
    if numeric {
      segment := MakeNumeric(text);
    } else if alphanumeric {
      segment := MakeAlphanumeric(text);
    } else {
      var bytes: seq<Octet> := [];
      for i := 0 to |text|
        invariant |bytes| == i
        invariant forall k :: 0 <= k < i ==> bytes[k] == text[k] as int
      {
        assert text[i] in text;
        bytes := bytes + [text[i] as int];
      }
      assert bytes == OctetsOf(text);
      segment := MakeBytes(bytes);
    }
    if segment.Failure? {
      return Failure(segment.error);
    }
    r := Success([segment.value]);
  }
}
