/** How long segments are, and that a text gets the shortest segment that spells it. */
module ShortestSegment {
  import opened BitBuffers
  import opened Segments
  import opened SegmentReader
  import opened Symbol

  // ----- how long the data of a segment is

  lemma {:induction false} NumericLength(d: string)
    requires AllDigits(d)
    ensures |NumericBits(d)| == 10 * (|d| / 3) + (if |d| % 3 == 0 then 0 else if |d| % 3 == 1 then 4 else 7)
    decreases |d|
  {
    hide BitsOf, DigitsValue;
    if |d| >= 3 {
      NumericLength(d[3..]);
      ThirdLess(|d|);
    }
  }

  lemma ThirdLess(n: nat)
    requires n >= 3
    ensures n / 3 == (n - 3) / 3 + 1 && n % 3 == (n - 3) % 3
  {
  }

  lemma {:induction false} AlphanumericLength(t: string)
    requires AllAlphanumeric(t)
    ensures |AlphanumericBits(t)| == 11 * (|t| / 2) + 6 * (|t| % 2)
    decreases |t|
  {
    hide BitsOf, CharsValue, IsAlphanumericChar;
    if |t| >= 2 {
      AlphanumericLength(t[2..]);
    }
  }

  lemma {:induction false} OctetLength(data: seq<Octet>)
    ensures |OctetBits(data)| == 8 * |data|
  {
    hide BitsOf;
    if |data| > 0 { OctetLength(data[..|data| - 1]); }
  }

  lemma SegmentLength(ver: nat, seg: Segment)
    requires 1 <= ver <= 40
    ensures |SegmentBits(ver, seg)| == 4 + CountWidth(seg.mode, ver) + |seg.data|
  {
    WidthsAgree(seg.mode, ver);
    hide BitsOf, Mode.NumCharCountBits, CountWidth;
  }

  // ----- the shortest segment

  /** The payload alone spells the text. */
  predicate Spells(p: Payload, text: string) {
    IsPayload(p) && ReadText([p]) == text
  }

  /** A payload that spells a text has all its characters, in the charset of its mode. */
  lemma SpellsMeans(p: Payload, text: string)
    requires Spells(p, text) && text != ""
    ensures match p
      case Digits(d) => d == text && AllDigits(text)
      case Text(t) => t == text && AllAlphanumeric(text)
      case Octets(b) => |b| == |text|
      case Designator(_) => false
  {
    hide AllDigits, AllAlphanumeric;
    assert ReadText([p][1..]) == "";
  }

  function SegmentSize(ver: nat, p: Payload): nat
    requires 1 <= ver <= 40 && IsPayload(p)
  {
    |SegmentBits(ver, SegmentOf(p))|
  }

  /** The size of a segment that spells n characters. */
  function SizeOf(ver: nat, mode: Mode, n: nat): nat {
    4 + CountWidth(mode, ver) + match mode
      case Numeric => 10 * (n / 3) + (if n % 3 == 0 then 0 else if n % 3 == 1 then 4 else 7)
      case Alphanumeric => 11 * (n / 2) + 6 * (n % 2)
      case _ => 8 * n
  }

  lemma SizeOfPayload(ver: nat, p: Payload, text: string)
    requires 1 <= ver <= 40 && Spells(p, text) && text != ""
    ensures SegmentSize(ver, p) == SizeOf(ver, SegmentOf(p).mode, |text|)
  {
    hide BitsOf, NumericBits, AlphanumericBits, OctetBits, AllDigits, AllAlphanumeric, ReadText, SegmentBits;
    SpellsMeans(p, text);
    SegmentLength(ver, SegmentOf(p));
    hide CountWidth;
    match p
    case Digits(d) => NumericLength(d);
    case Text(t) => AlphanumericLength(t);
    case Octets(b) => OctetLength(b);
    case Designator(_) => assert false;
  }

  lemma SizesInOrder(ver: nat, n: nat)
    requires 1 <= ver <= 40 && n > 0
    ensures SizeOf(ver, Numeric, n) < SizeOf(ver, Alphanumeric, n) < SizeOf(ver, Byte, n)
  {
  }

  lemma ChosenSpells(text: string)
    requires IsCString(text) && text != ""
    ensures |PayloadsOf(text)| == 1 && Spells(PayloadsOf(text)[0], text)
  {
    hide AllDigits, AllAlphanumeric;
    TextReadsBack(text);
  }

  /** Digits take less room than characters of the charset, and those less than bytes: no payload that spells the
    text gives a shorter segment than the one that is chosen, in a symbol of any version. */
  lemma ChosenIsShortest(text: string, p: Payload, ver: nat)
    requires IsCString(text) && text != "" && Spells(p, text) && 1 <= ver <= 40
    ensures |PayloadsOf(text)| == 1
    ensures p != PayloadsOf(text)[0] ==> SegmentSize(ver, PayloadsOf(text)[0]) < SegmentSize(ver, p)
  {
    hide SegmentSize, Spells, SizeOf, AllDigits, AllAlphanumeric;
    ChosenSpells(text);
    var q := PayloadsOf(text)[0];
    SpellsMeans(p, text);
    SizeOfPayload(ver, p, text);
    SizeOfPayload(ver, q, text);
    SizesInOrder(ver, |text|);
    if p.Octets? && q.Octets? { SameOctets(p.data, q.data, text); }
  }

  lemma SameOctets(a: seq<Octet>, b: seq<Octet>, text: string)
    requires Spells(Octets(a), text) && Spells(Octets(b), text) && text != ""
    ensures a == b
  {
    OctetsSpell(a, text);
    OctetsSpell(b, text);
  }

  lemma OctetsSpell(a: seq<Octet>, text: string)
    requires Spells(Octets(a), text)
    ensures |a| == |text| && forall i :: 0 <= i < |a| ==> text[i] == a[i] as char
  {
    assert ReadText([Octets(a)][1..]) == "";
  }

  // ----- several segments

  /** How many bits a list of payloads takes. */
  function ListSize(ver: nat, ps: seq<Payload>): nat
    requires 1 <= ver <= 40 && forall p :: p in ps ==> IsPayload(p)
  {
    |StreamBits(ver, SegmentsOf(ps))|
  }

  lemma ListSizeSnoc(ver: nat, ps: seq<Payload>, p: Payload)
    requires 1 <= ver <= 40 && (forall q :: q in ps ==> IsPayload(q)) && IsPayload(p)
    ensures ListSize(ver, []) == 0 && ListSize(ver, ps + [p]) == ListSize(ver, ps) + SegmentSize(ver, p)
  {
    hide SegmentBits, IsPayload, SegmentOf;
    assert SegmentsOf(ps + [p])[..|ps|] == SegmentsOf(ps);
  }

  /** Digits, and then a single byte. */
  function Mixture(d: string, c: char): (ps: seq<Payload>)
    requires AllDigits(d) && c as int < 256
    ensures forall p :: p in ps ==> IsPayload(p)
  {
    [Digits(d), Octets([c as int])]
  }

  /** The shortest single segment need not be the shortest list of segments: five digits or more, and then a character
    outside the charset, take fewer bits as digits and one byte, in a symbol of any version. */
  lemma MixtureShorter(text: string, d: string, c: char, ver: nat)
    requires IsCString(text) && text == d + [c] && AllDigits(d) && |d| >= 5 && !IsAlphanumericChar(c)
    requires c as int < 256 && 1 <= ver <= 40
    ensures ReadText(Mixture(d, c)) == text && ListSize(ver, Mixture(d, c)) < ListSize(ver, PayloadsOf(text))
  {
    hide BitsOf, NumericBits, OctetBits, SegmentBits, IsAlphanumericChar, AlphanumericValue, ListSize;
    NotDigit(c);
    assert text[|d|] == c && c in text;
    var bytes := Octets(OctetsOf(text));
    assert PayloadsOf(text) == [bytes];
    MixtureReads(d, c);
    ListSizeSnoc(ver, [], bytes);
    ListSizeSnoc(ver, [], Digits(d));
    ListSizeSnoc(ver, [Digits(d)], Octets([c as int]));
    assert [] + [bytes] == [bytes] && [] + [Digits(d)] == [Digits(d)];
    assert Mixture(d, c) == [Digits(d)] + [Octets([c as int])];
    SegmentLength(ver, SegmentOf(bytes));
    SegmentLength(ver, SegmentOf(Digits(d)));
    SegmentLength(ver, SegmentOf(Octets([c as int])));
    OctetLength(OctetsOf(text));
    OctetLength([c as int]);
    NumericLength(d);
    hide AllDigits, AllAlphanumeric, PayloadsOf, OctetsOf, ReadText;
  }

  lemma NotDigit(c: char)
    requires !IsAlphanumericChar(c)
    ensures !IsDigit(c)
  {
    hide CharsetAt, AlphanumericValue;
    AlphanumericValueMeaning(c);
    if IsDigit(c) {
      var i := DigitValue(c);
      CharsetsAgree(i);
      DigitCharset(c);
    }
  }

  lemma DigitCharset(c: char)
    requires IsDigit(c)
    ensures CharsetAt(DigitValue(c)) == c
  {
  }

  lemma MixtureReads(d: string, c: char)
    requires 0 < c as int < 256
    ensures ReadText([Digits(d), Octets([c as int])]) == d + [c]
  {
    var ps := [Digits(d), Octets([c as int])];
    assert ps[1..] == [Octets([c as int])] && ps[1..][1..] == [];
    var b: seq<Octet> := [c as int];
    assert seq(|b|, i requires 0 <= i < |b| => b[i] as char) == [c];
    assert ReadText(ps[1..]) == [c];
  }
}
