/** A reader of data bit streams, written from ISO/IEC 18004:2015, section 7.4, and its agreement with the factories. */
module SegmentReader {
  import opened Outcomes
  import opened BitBuffers
  import opened Segments

  // ----- the reader

  function DigitsOf(v: nat, k: nat): (d: string)
    ensures |d| == k && AllDigits(d)
  {
    if k == 0 then "" else DigitsOf(v / 10, k - 1) + [('0' as int + v % 10) as char]
  }

  /** The character of a value: ten digits, 26 letters and nine others. */
  function CharsetAt(i: nat): char
    requires i < 45
  {
    if i < 10 then ('0' as int + i) as char
    else if i < 36 then ('A' as int + (i - 10)) as char
    else match i
      case 36 => ' '
      case 37 => '$'
      case 38 => '%'
      case 39 => '*'
      case 40 => '+'
      case 41 => '-'
      case 42 => '.'
      case 43 => '/'
      case _ => ':'
  }

  function CharsOf(v: nat, k: nat): (t: string)
    ensures |t| == k
  {
    if k == 0 then "" else CharsOf(v / 45, k - 1) + [CharsetAt(v % 45)]
  }

  type Read<T> = Option<(T, seq<bool>)>

  function ReadDigits(bits: seq<bool>, count: nat): (r: Read<string>)
    ensures r.Some? ==> |r.value.1| <= |bits|
  {
    var k := if count < 3 then count else 3;
    var width := if k == 3 then 10 else k * 3 + 1;
    if count == 0 then Some(("", bits))
    else if |bits| < width then None
    else match ReadDigits(bits[width..], count - k)
      case None => None
      case Some((d, rest)) => Some((DigitsOf(Value(bits[..width]), k) + d, rest))
  }

  function ReadChars(bits: seq<bool>, count: nat): (r: Read<string>)
    ensures r.Some? ==> |r.value.1| <= |bits|
  {
    var k := if count < 2 then count else 2;
    var width := if k == 2 then 11 else 6;
    if count == 0 then Some(("", bits))
    else if |bits| < width then None
    else match ReadChars(bits[width..], count - k)
      case None => None
      case Some((t, rest)) => Some((CharsOf(Value(bits[..width]), k) + t, rest))
  }

  function ReadOctets(bits: seq<bool>, count: nat): (r: Read<seq<Octet>>)
    ensures r.Some? ==> |r.value.1| <= |bits|
  {
    if count == 0 then Some(([], bits))
    else match ReadOctets(bits, count - 1)
      case None => None
      case Some((data, rest)) =>
        if |rest| < 8 then None else Some((data + [Value(rest[..8]) % 256], rest[8..]))
  }

  function ReadDesignator(bits: seq<bool>): (r: Read<nat>)
    ensures r.Some? ==> |r.value.1| <= |bits|
  {
    if |bits| < 8 then None
    else if !bits[0] then Some((Value(bits[..8]), bits[8..]))
    else if !bits[1] then (if |bits| < 16 then None else Some((Value(bits[2..16]), bits[16..])))
    else if !bits[2] then (if |bits| < 24 then None else Some((Value(bits[3..24]), bits[24..])))
    else None
  }

  function ModeOf(indicator: nat): Option<Mode> {
    if indicator == 1 then Some(Numeric) else if indicator == 2 then Some(Alphanumeric)
    else if indicator == 4 then Some(Byte) else if indicator == 7 then Some(Eci) else None
  }

  /** The width of the character count, which grows after version 9 and again after version 26. */
  function CountWidth(mode: Mode, ver: nat): nat {
    match mode
    case Numeric => if ver <= 9 then 10 else if ver <= 26 then 12 else 14
    case Alphanumeric => if ver <= 9 then 9 else if ver <= 26 then 11 else 13
    case Byte => if ver <= 9 then 8 else 16
    case Kanji => if ver <= 9 then 8 else if ver <= 26 then 10 else 12
    case Eci => 0
  }

  function ReadPayload(mode: Mode, bits: seq<bool>, count: nat): (r: Read<Payload>)
    ensures r.Some? ==> |r.value.1| <= |bits|
  {
    match mode
    case Numeric => (match ReadDigits(bits, count) case None => None case Some((d, rest)) => Some((Digits(d), rest)))
    case Alphanumeric => (match ReadChars(bits, count) case None => None case Some((t, rest)) => Some((Text(t), rest)))
    case Byte => (match ReadOctets(bits, count) case None => None case Some((b, rest)) => Some((Octets(b), rest)))
    case Eci => (match ReadDesignator(bits) case None => None case Some((v, rest)) => Some((Designator(v), rest)))
    case Kanji => None
  }

  /** Reads segments until a terminator (0000) or until fewer than four bits are left. */
  function ReadStream(ver: nat, bits: seq<bool>): Option<seq<Payload>>
    requires 1 <= ver <= 40
    decreases |bits|
  {
    if |bits| < 4 || Value(bits[..4]) == 0 then Some([])
    else match ModeOf(Value(bits[..4]))
      case None => None
      case Some(mode) =>
        var cc := CountWidth(mode, ver);
        if |bits| < 4 + cc then None
        else match ReadPayload(mode, bits[4 + cc..], Value(bits[4..4 + cc]))
          case None => None
          case Some((p, rest)) =>
            match ReadStream(ver, rest)
            case None => None
            case Some(ps) => Some([p] + ps)
  }

  // ----- reading back what a factory wrote

  lemma {:induction false} DigitsBack(d: string)
    requires AllDigits(d)
    ensures DigitsOf(DigitsValue(d), |d|) == d
  {
    if |d| > 0 {
      var (front, c) := (d[..|d| - 1], d[|d| - 1]);
      assert c in d;
      DigitsBack(front);
      assert DigitsValue(d) == DigitsValue(front) * 10 + DigitValue(c);
      assert d == front + [c];
    }
  }

  lemma {:induction false} CharsBack(t: string)
    requires AllAlphanumeric(t)
    ensures CharsOf(CharsValue(t), |t|) == t
  {
    hide IsAlphanumericChar, AlphanumericValue, CharsetAt;
    if |t| > 0 {
      var (front, c) := (t[..|t| - 1], t[|t| - 1]);
      assert c in t;
      CharsBack(front);
      CharsetBack(c);
      assert CharsValue(t) == CharsValue(front) * 45 + AlphanumericValue(c);
      SplitBase45(CharsValue(front), AlphanumericValue(c));
      hide CharsValue;
      assert t == front + [c];
    }
  }

  lemma SplitBase45(v: nat, d: nat)
    requires d < 45
    ensures (v * 45 + d) / 45 == v && (v * 45 + d) % 45 == d
  {
  }

  lemma CharsetBack(c: char)
    requires IsAlphanumericChar(c)
    ensures AlphanumericValue(c) < 45 && CharsetAt(AlphanumericValue(c)) == c
  {
    hide AlphanumericValue, CharsetAt;
    AlphanumericValueMeaning(c);
    CharsetsAgree(AlphanumericValue(c));
  }

  /** The encoder's charset holds each character at its value. */
  lemma CharsetsAgree(i: nat)
    requires i < 45
    ensures |ALPHANUMERIC_CHARSET| == 45 && ALPHANUMERIC_CHARSET[i] == CharsetAt(i)
  {
    hide CharsetAt, ALPHANUMERIC_CHARSET;
    if i < 10 {
      DigitAt(i);
    } else if i < 36 {
      LetterAt(i - 10);
    } else {
      OtherAt(i - 36);
    }
  }

  lemma DigitAt(i: nat)
    requires i < 10
    ensures |ALPHANUMERIC_CHARSET| == 45 && ALPHANUMERIC_CHARSET[i] == CharsetAt(i)
  {
    assert "0123456789"[i] == CharsetAt(i);
  }

  lemma LetterAt(i: nat)
    requires i < 26
    ensures |ALPHANUMERIC_CHARSET| == 45 && ALPHANUMERIC_CHARSET[10 + i] == CharsetAt(10 + i)
  {
  }

  lemma OtherAt(i: nat)
    requires i < 9
    ensures |ALPHANUMERIC_CHARSET| == 45 && ALPHANUMERIC_CHARSET[36 + i] == CharsetAt(36 + i)
  {
  }

  /** The encoder's count fields have the widths of the reader's, whatever the mode and the version. */
  lemma WidthsAgree(mode: Mode, ver: nat)
    requires 1 <= ver <= 40
    ensures mode.NumCharCountBits(ver) == CountWidth(mode, ver)
  {
  }

  lemma NumericBitsSplit(d: string)
    requires AllDigits(d) && |d| > 0
    ensures var k := if |d| < 3 then |d| else 3;
      NumericBits(d) == BitsOf(DigitsValue(d[..k]), if k == 3 then 10 else k * 3 + 1) + NumericBits(d[k..])
  {
    if |d| < 3 { assert d[..|d|] == d && d[|d|..] == ""; }
  }

  lemma {:induction false} ReadDigitsBack(d: string, tail: seq<bool>)
    requires AllDigits(d)
    ensures ReadDigits(NumericBits(d) + tail, |d|) == Some((d, tail))
    decreases |d|
  {
    hide BitsOf, Value, DigitsValue, DigitsOf, Pow2, NumericBits;
    if |d| == 0 {
      NumericBitsEmpty();
      assert NumericBits(d) + tail == tail;
    } else {
      var k := if |d| < 3 then |d| else 3;
      var width := if k == 3 then 10 else k * 3 + 1;
      var (g, d') := (d[..k], d[k..]);
      DigitsGroup(g);
      DigitsBack(g);
      ValueOfBits(DigitsValue(g), width);
      ReadDigitsBack(d', tail);
      var bits := NumericBits(d) + tail;
      assert d == g + d';
      NumericBitsSplit(d);
      assert bits[..width] == BitsOf(DigitsValue(g), width);
      assert bits[width..] == NumericBits(d') + tail;
    }
  }

  lemma {:induction false} ReadCharsBack(t: string, tail: seq<bool>)
    requires AllAlphanumeric(t)
    ensures ReadChars(AlphanumericBits(t) + tail, |t|) == Some((t, tail))
    decreases |t|
  {
    hide BitsOf, Value, CharsValue, CharsOf, Pow2, IsAlphanumericChar;
    if |t| == 0 {
      assert AlphanumericBits(t) + tail == tail;
    } else {
      var k := if |t| < 2 then |t| else 2;
      var width := if k == 2 then 11 else 6;
      var (g, t') := (t[..k], t[k..]);
      CharsGroup(g);
      CharsBack(g);
      ValueOfBits(CharsValue(g), width);
      ReadCharsBack(t', tail);
      var bits := AlphanumericBits(t) + tail;
      assert t == g + t' && AlphanumericBits(t) == BitsOf(CharsValue(g), width) + AlphanumericBits(t') by {
        if |t| < 2 { assert g == t && t' == ""; }
      }
      assert bits[..width] == BitsOf(CharsValue(g), width);
      assert bits[width..] == AlphanumericBits(t') + tail;
    }
  }

  lemma {:induction false} ReadOctetsBack(data: seq<Octet>, tail: seq<bool>)
    ensures ReadOctets(OctetBits(data) + tail, |data|) == Some((data, tail))
  {
    hide BitsOf, Value, Pow2;
    if |data| == 0 {
      assert OctetBits(data) + tail == tail;
    } else {
      var (front, b) := (data[..|data| - 1], data[|data| - 1]);
      Pow2Table();
      ValueOfBits(b, 8);
      ReadOctetsBack(front, BitsOf(b, 8) + tail);
      assert OctetBits(data) + tail == OctetBits(front) + (BitsOf(b, 8) + tail);
      assert (BitsOf(b, 8) + tail)[..8] == BitsOf(b, 8) && (BitsOf(b, 8) + tail)[8..] == tail;
      assert data == front + [b];
    }
  }

  lemma ReadDesignatorBack(v: nat, tail: seq<bool>)
    requires v < 1000000
    ensures ReadDesignator(EciBits(v) + tail) == Some((v, tail))
  {
    hide BitsOf, Value, Pow2;
    Pow2Table();
    var bits := EciBits(v) + tail;
    if v < 128 {
      BitsOfSmall(v, 7, 1);
      ValueOfBits(v, 8);
      assert bits[..8] == BitsOf(v, 8) && bits[8..] == tail;
    } else if v < 16384 {
      PrefixBits();
      ValueOfBits(v, 14);
      assert bits[2..16] == BitsOf(v, 14) && bits[16..] == tail;
    } else {
      PrefixBits();
      ValueOfBits(v, 21);
      assert bits[3..24] == BitsOf(v, 21) && bits[24..] == tail;
    }
  }

  lemma PrefixBits()
    ensures BitsOf(2, 2) == [true, false] && BitsOf(6, 3) == [true, true, false]
  {
  }

  /** The bits a segment adds to the stream. */
  function SegmentBits(ver: nat, seg: Segment): seq<bool>
    requires 1 <= ver <= 40
  {
    BitsOf(seg.mode.ModeBits(), 4) + BitsOf(seg.numChars, seg.mode.NumCharCountBits(ver)) + seg.data
  }

  predicate CountFits(ver: nat, seg: Segment)
    requires 1 <= ver <= 40
  {
    seg.numChars < Pow2(seg.mode.NumCharCountBits(ver))
  }

  function StreamBits(ver: nat, segs: seq<Segment>): seq<bool>
    requires 1 <= ver <= 40
  {
    if |segs| == 0 then [] else StreamBits(ver, segs[..|segs| - 1]) + SegmentBits(ver, segs[|segs| - 1])
  }

  lemma ReadPayloadBack(p: Payload, tail: seq<bool>)
    requires IsPayload(p)
    ensures ReadPayload(SegmentOf(p).mode, SegmentOf(p).data + tail, SegmentOf(p).numChars) == Some((p, tail))
  {
    hide ReadDigits, ReadChars, ReadOctets, ReadDesignator, IsAlphanumericChar;
    match p
    case Digits(d) => ReadDigitsBack(d, tail);
    case Text(t) => ReadCharsBack(t, tail);
    case Octets(b) => ReadOctetsBack(b, tail);
    case Designator(v) => ReadDesignatorBack(v, tail);
  }

  lemma ModeBack(mode: Mode)
    ensures Value(BitsOf(mode.ModeBits(), 4)) == mode.ModeBits() != 0
    ensures mode != Kanji ==> ModeOf(mode.ModeBits()) == Some(mode)
  {
    hide BitsOf, Value, Pow2;
    Pow2Table();
    ValueOfBits(mode.ModeBits(), 4);
  }

  lemma ReadSegmentBack(ver: nat, p: Payload, tail: seq<bool>)
    requires 1 <= ver <= 40 && IsPayload(p) && CountFits(ver, SegmentOf(p))
    ensures ReadStream(ver, SegmentBits(ver, SegmentOf(p)) + tail)
         == match ReadStream(ver, tail) case None => None case Some(ps) => Some([p] + ps)
  {
    hide BitsOf, Value, Pow2, ReadPayload, ModeOf, IsPayload, Mode.NumCharCountBits, Mode.ModeBits, SegmentOf;
    hide CountFits, CountWidth;
    var seg := SegmentOf(p);
    WidthsAgree(seg.mode, ver);
    var cc := seg.mode.NumCharCountBits(ver);
    var bits := SegmentBits(ver, seg) + tail;
    assert seg.mode != Kanji by { NeverKanji(p); }
    ModeBack(seg.mode);
    assert Value(BitsOf(seg.numChars, cc)) == seg.numChars by { CountBack(ver, seg); }
    ReadPayloadBack(p, tail);
    assert bits[..4] == BitsOf(seg.mode.ModeBits(), 4);
    assert bits[4..4 + cc] == BitsOf(seg.numChars, cc);
    assert bits[4 + cc..] == seg.data + tail;
  }

  lemma NeverKanji(p: Payload)
    requires IsPayload(p)
    ensures SegmentOf(p).mode != Kanji
  {
  }

  lemma CountBack(ver: nat, seg: Segment)
    requires 1 <= ver <= 40 && CountFits(ver, seg)
    ensures Value(BitsOf(seg.numChars, seg.mode.NumCharCountBits(ver))) == seg.numChars
  {
    hide Mode.NumCharCountBits;
    ValueOfBits(seg.numChars, seg.mode.NumCharCountBits(ver));
  }

  /** What comes after the last segment reads as the end of the stream. */
  predicate EndsStream(tail: seq<bool>) {
    |tail| < 4 || (!tail[0] && !tail[1] && !tail[2] && !tail[3])
  }

  lemma EndReadsEmpty(ver: nat, tail: seq<bool>)
    requires 1 <= ver <= 40 && EndsStream(tail)
    ensures ReadStream(ver, tail) == Some([])
  {
    if |tail| >= 4 {
      assert tail[..4] == BitsOf(0, 4);
      Pow2Table();
      ValueOfBits(0, 4);
    }
  }

  lemma {:induction false} StreamBitsCons(ver: nat, seg: Segment, segs: seq<Segment>)
    requires 1 <= ver <= 40
    ensures StreamBits(ver, [seg] + segs) == SegmentBits(ver, seg) + StreamBits(ver, segs)
  {
    hide SegmentBits;
    if |segs| == 0 {
      assert [seg] + segs == [seg];
      assert [seg][..0] == [];
    } else {
      StreamBitsCons(ver, seg, segs[..|segs| - 1]);
      assert ([seg] + segs)[..|segs|] == [seg] + segs[..|segs| - 1];
    }
  }

  /** The reader gets back every list of payloads whose counts fit. */
  lemma {:induction false} ReadStreamBack(ver: nat, ps: seq<Payload>, tail: seq<bool>)
    requires 1 <= ver <= 40 && EndsStream(tail)
    requires forall p :: p in ps ==> IsPayload(p) && CountFits(ver, SegmentOf(p))
    ensures ReadStream(ver, StreamBits(ver, SegmentsOf(ps)) + tail) == Some(ps)
  {
    hide ReadStream, SegmentBits, IsPayload, CountFits, SegmentOf;
    if |ps| == 0 {
      assert StreamBits(ver, SegmentsOf(ps)) + tail == tail;
      EndReadsEmpty(ver, tail);
    } else {
      var (p, rest) := (ps[0], ps[1..]);
      assert ps == [p] + rest && SegmentsOf(ps) == [SegmentOf(p)] + SegmentsOf(rest);
      StreamBitsCons(ver, SegmentOf(p), SegmentsOf(rest));
      ReadStreamBack(ver, rest, tail);
      ReadSegmentBack(ver, p, StreamBits(ver, SegmentsOf(rest)) + tail);
      assert StreamBits(ver, SegmentsOf(ps)) + tail
          == SegmentBits(ver, SegmentOf(p)) + (StreamBits(ver, SegmentsOf(rest)) + tail);
    }
  }
}
