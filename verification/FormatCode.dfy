/** The error correction of the format information: the words of ISO/IEC 18004:2015, annex C, and their distance. */
module FormatCode {
  import opened Zigzag
  import opened EncodeSegments
  import opened FormatInfo

  /** The masked bit sequences of table C.1, by level and mask. */
  function AnnexWord(ecl: Ecc, mask: nat): bv32
    requires mask < 8
  {
    match ecl
    case Low => [0x77C4, 0x72F3, 0x7DAA, 0x789D, 0x662F, 0x6318, 0x6C41, 0x6976][mask]
    case Medium => [0x5412, 0x5125, 0x5E7C, 0x5B4B, 0x45F9, 0x40CE, 0x4F97, 0x4AA0][mask]
    case Quartile => [0x355F, 0x3068, 0x3F31, 0x3A06, 0x24B4, 0x2183, 0x2EDA, 0x2BED][mask]
    case High => [0x1689, 0x13BE, 0x1CE7, 0x19D0, 0x0762, 0x0255, 0x0D0C, 0x083B][mask]
  }

  // ----- the remainder is linear

  predicate IsXor(a: bv32, b: bv32, c: bv32) {
    c == a ^ b
  }

  lemma NextLinear(a: bv32, b: bv32, c: bv32)
    requires a < 1024 && b < 1024 && IsXor(a, b, c)
    ensures IsXor(NextRemainder(a), NextRemainder(b), NextRemainder(c))
  {
  }

  lemma RemainderStep(d: bv32, i: nat)
    ensures FormatRemainder(d, 0) == d && FormatRemainder(d, i + 1) == NextRemainder(FormatRemainder(d, i))
  {
    hide NextRemainder;
  }

  lemma {:induction false} RemainderLinear(a: bv32, b: bv32, c: bv32, i: nat)
    requires a < 32 && b < 32 && IsXor(a, b, c)
    ensures IsXor(FormatRemainder(a, i), FormatRemainder(b, i), FormatRemainder(c, i))
  {
    hide NextRemainder, FormatRemainder, IsXor;
    if i == 0 {
      RemainderStep(a, 0);
      RemainderStep(b, 0);
      RemainderStep(c, 0);
    } else {
      RemainderLinear(a, b, c, i - 1);
      RemainderStep(a, i - 1);
      RemainderStep(b, i - 1);
      RemainderStep(c, i - 1);
      FormatRemainderBound(a, i - 1);
      FormatRemainderBound(b, i - 1);
      NextLinear(FormatRemainder(a, i - 1), FormatRemainder(b, i - 1), FormatRemainder(c, i - 1));
    }
  }

  lemma NextValues()
    ensures NextRemainder(0) == 0 && NextRemainder(1) == 2 && NextRemainder(2) == 4 && NextRemainder(4) == 8
    ensures NextRemainder(8) == 0x10 && NextRemainder(0x10) == 0x20 && NextRemainder(0x20) == 0x40
    ensures NextRemainder(0x40) == 0x80 && NextRemainder(0x80) == 0x100 && NextRemainder(0x100) == 0x200
    ensures NextRemainder(0x200) == 0x137 && NextRemainder(0x137) == 0x26E && NextRemainder(0x26E) == 0x1EB
    ensures NextRemainder(0x1EB) == 0x3D6 && NextRemainder(0x3D6) == 0x29B
  {
  }

  lemma {:induction false} RemainderSteps(d: bv32, i: nat, j: nat)
    ensures FormatRemainder(d, i + j) == FormatRemainder(FormatRemainder(d, i), j)
  {
    hide NextRemainder;
    if j > 0 { RemainderSteps(d, i, j - 1); }
  }

  lemma {:induction false} RemainderOfZero(i: nat)
    ensures FormatRemainder(0, i) == 0
  {
    hide NextRemainder;
    NextValues();
    if i > 0 { RemainderOfZero(i - 1); }
  }

  lemma FirstNine()
    ensures FormatRemainder(1, 1) == 2 && FormatRemainder(1, 2) == 4 && FormatRemainder(1, 3) == 8
    ensures FormatRemainder(1, 4) == 16 && FormatRemainder(1, 9) == 0x200
  {
    hide NextRemainder, FormatRemainder;
    NextValues();
    RemainderStep(1, 0);
    RemainderStep(1, 1);
    RemainderStep(1, 2);
    RemainderStep(1, 3);
    RemainderStep(1, 4);
    RemainderStep(1, 5);
    RemainderStep(1, 6);
    RemainderStep(1, 7);
    RemainderStep(1, 8);
  }

  /** The remainders of the five data words with a single bit. */
  lemma SingleBits()
    ensures FormatRemainder(1, 10) == 0x137 && FormatRemainder(2, 10) == 0x26E && FormatRemainder(4, 10) == 0x1EB
    ensures FormatRemainder(8, 10) == 0x3D6 && FormatRemainder(16, 10) == 0x29B && FormatRemainder(0, 10) == 0
  {
    hide NextRemainder, FormatRemainder;
    NextValues();
    FirstNine();
    RemainderStep(1, 9);
    RemainderStep(1, 10);
    RemainderStep(1, 11);
    RemainderStep(1, 12);
    RemainderStep(1, 13);
    RemainderSteps(1, 1, 10);
    RemainderSteps(1, 2, 10);
    RemainderSteps(1, 3, 10);
    RemainderSteps(1, 4, 10);
    RemainderOfZero(10);
  }

  /** The sum of the remainders of the bits of d. */
  function Sum(d: bv32): bv32 {
    (if d & 1 == 0 then 0 else 0x137) ^ (if d & 2 == 0 then 0 else 0x26E) ^ (if d & 4 == 0 then 0 else 0x1EB)
    ^ (if d & 8 == 0 then 0 else 0x3D6) ^ (if d & 16 == 0 then 0 else 0x29B)
  }

  lemma RemainderIsSum(d: bv32)
    requires d < 32
    ensures FormatRemainder(d, 10) == Sum(d)
  {
    hide FormatRemainder, NextRemainder;
    SingleBits();
    var (d1, d2, d4, d8, d16) := (d & 1, d & 2, d & 4, d & 8, d & 16);
    RemainderLinear(d1, d2, d & 3, 10);
    RemainderLinear(d & 3, d4, d & 7, 10);
    RemainderLinear(d & 7, d8, d & 15, 10);
    RemainderLinear(d & 15, d16, d, 10);
  }

  // ----- the words

  lemma WordIsSum(ecl: Ecc, mask: nat)
    requires mask < 8
    ensures FormatWord(ecl, mask) == Combine(FormatData(ecl, mask), Sum(FormatData(ecl, mask)))
  {
    hide Combine, Sum;
    RemainderIsSum(FormatData(ecl, mask));
  }

  lemma LowWords(mask: nat)
    requires mask < 8
    ensures Combine(FormatData(Low, mask), Sum(FormatData(Low, mask))) == AnnexWord(Low, mask)
  {
  }

  lemma MediumWords(mask: nat)
    requires mask < 8
    ensures Combine(FormatData(Medium, mask), Sum(FormatData(Medium, mask))) == AnnexWord(Medium, mask)
  {
  }

  lemma QuartileWords(mask: nat)
    requires mask < 8
    ensures Combine(FormatData(Quartile, mask), Sum(FormatData(Quartile, mask))) == AnnexWord(Quartile, mask)
  {
  }

  lemma HighWords(mask: nat)
    requires mask < 8
    ensures Combine(FormatData(High, mask), Sum(FormatData(High, mask))) == AnnexWord(High, mask)
  {
  }

  /** The division loop makes the 32 words of the standard. */
  lemma WordsAreStandard(ecl: Ecc, mask: nat)
    requires mask < 8
    ensures FormatWord(ecl, mask) == AnnexWord(ecl, mask)
  {
    hide FormatWord, Combine, Sum, AnnexWord, FormatData;
    WordIsSum(ecl, mask);
    match ecl
    case Low => LowWords(mask);
    case Medium => MediumWords(mask);
    case Quartile => QuartileWords(mask);
    case High => HighWords(mask);
  }

  // ----- distance

  /** In how many of the low n bits two words differ. */
  function Differences(a: bv32, b: bv32, n: nat): (d: nat)
    requires n <= 32
    ensures d <= n
  {
    if n == 0 then 0 else Differences(a, b, n - 1) + DiffersAt(a, b, n - 1)
  }

  function DiffersAt(a: bv32, b: bv32, i: nat): nat
    requires i < 32
  {
    if WordBit(a, i) != WordBit(b, i) then 1 else 0
  }

  lemma {:induction false} Triangle(a: bv32, b: bv32, c: bv32, n: nat)
    requires n <= 32
    ensures Differences(a, c, n) <= Differences(a, b, n) + Differences(b, c, n)
  {
    hide WordBit;
    if n > 0 { Triangle(a, b, c, n - 1); }
  }

  /** The five data bits. */
  datatype Five = Five(p: bool, q: bool, r: bool, s: bool, t: bool)

  predicate HasBits(d: bv32, b: Five) {
    && d < 32 && b.p == (d & 1 != 0) && b.q == (d & 2 != 0) && b.r == (d & 4 != 0) && b.s == (d & 8 != 0)
    && b.t == (d & 16 != 0)
  }

  function BitsOfData(d: bv32): (b: Five)
    requires d < 32
    ensures HasBits(d, b)
  {
    Five(d & 1 != 0, d & 2 != 0, d & 4 != 0, d & 8 != 0, d & 16 != 0)
  }

  lemma BitsInjective(d: bv32, e: bv32)
    requires d < 32 && e < 32 && BitsOfData(d) == BitsOfData(e)
    ensures d == e
  {
  }

  function Sums(a: Five, b: Five): Five {
    Five(a.p != b.p, a.q != b.q, a.r != b.r, a.s != b.s, a.t != b.t)
  }

  /** Bit i of the code word of five data bits: ten check bits, and the data bits above them. */
  predicate Check(b: Five, i: nat) {
    match i
    case 0 => (b.p != b.r) != b.t
    case 1 => (((b.p != b.q) != b.r) != b.s) != b.t
    case 2 => (b.p != b.q) != b.s
    case 3 => (b.q != b.r) != b.t
    case 4 => (b.p != b.s) != b.t
    case 5 => (b.p != b.q) != b.r
    case 6 => (b.q != b.r) != b.s
    case 7 => (b.r != b.s) != b.t
    case 8 => (b.p != b.r) != b.s
    case 9 => (b.q != b.s) != b.t
    case 10 => b.p
    case 11 => b.q
    case 12 => b.r
    case 13 => b.s
    case _ => b.t
  }

  lemma CheckLinear(a: Five, b: Five, i: nat)
    ensures (Check(a, i) != Check(b, i)) == Check(Sums(a, b), i)
  {
  }

  lemma LowChecks(d: bv32, b: Five)
    requires HasBits(d, b)
    ensures WordBit(Combine(d, Sum(d)), 0) == Check(b, 0)
    ensures WordBit(Combine(d, Sum(d)), 1) == !Check(b, 1)
    ensures WordBit(Combine(d, Sum(d)), 2) == Check(b, 2)
    ensures WordBit(Combine(d, Sum(d)), 3) == Check(b, 3)
    ensures WordBit(Combine(d, Sum(d)), 4) == !Check(b, 4)
  {
  }

  lemma HighChecks(d: bv32, b: Five)
    requires HasBits(d, b)
    ensures WordBit(Combine(d, Sum(d)), 5) == Check(b, 5)
    ensures WordBit(Combine(d, Sum(d)), 6) == Check(b, 6)
    ensures WordBit(Combine(d, Sum(d)), 7) == Check(b, 7)
    ensures WordBit(Combine(d, Sum(d)), 8) == Check(b, 8)
    ensures WordBit(Combine(d, Sum(d)), 9) == Check(b, 9)
  {
  }

  lemma DataBits(d: bv32, b: Five)
    requires HasBits(d, b)
    ensures WordBit(Combine(d, Sum(d)), 10) == !Check(b, 10)
    ensures WordBit(Combine(d, Sum(d)), 11) == Check(b, 11)
    ensures WordBit(Combine(d, Sum(d)), 12) == !Check(b, 12)
    ensures WordBit(Combine(d, Sum(d)), 13) == Check(b, 13)
    ensures WordBit(Combine(d, Sum(d)), 14) == !Check(b, 14)
  {
  }

  /** The bits of the pattern that is added to every code word. */
  predicate Fixed(i: nat) {
    i == 1 || i == 4 || i == 10 || i == 12 || i == 14
  }

  lemma BitIs(d: bv32, b: Five, i: nat)
    requires HasBits(d, b) && i < 15
    ensures WordBit(Combine(d, Sum(d)), i) == (Check(b, i) != Fixed(i))
  {
    hide Combine, Sum, WordBit, HasBits, Check;
    LowChecks(d, b);
    HighChecks(d, b);
    DataBits(d, b);
  }

  lemma BitDiffers(d: bv32, e: bv32, i: nat)
    requires d < 32 && e < 32 && i < 15
    ensures DiffersAt(Combine(d, Sum(d)), Combine(e, Sum(e)), i)
         == if Check(Sums(BitsOfData(d), BitsOfData(e)), i) then 1 else 0
  {
    hide Combine, Sum, WordBit, HasBits, BitsOfData, Check, Sums, Fixed;
    BitIs(d, BitsOfData(d), i);
    BitIs(e, BitsOfData(e), i);
    CheckLinear(BitsOfData(d), BitsOfData(e), i);
  }

  /** How many of the low n bits of a code word are set. */
  function Weight(b: Five, n: nat): nat {
    if n == 0 then 0 else Weight(b, n - 1) + (if Check(b, n - 1) then 1 else 0)
  }

  lemma {:induction false} DifferencesAreWeight(d: bv32, e: bv32, n: nat)
    requires d < 32 && e < 32 && n <= 15
    ensures Differences(Combine(d, Sum(d)), Combine(e, Sum(e)), n) == Weight(Sums(BitsOfData(d), BitsOfData(e)), n)
  {
    hide Combine, Sum, DiffersAt, HasBits, BitsOfData, Check, Sums;
    if n > 0 {
      DifferencesAreWeight(d, e, n - 1);
      BitDiffers(d, e, n - 1);
    }
  }

  lemma FiveMore(b: Five, n: nat)
    ensures Weight(b, n + 5) == Weight(b, n) + (if Check(b, n) then 1 else 0) + (if Check(b, n + 1) then 1 else 0)
      + (if Check(b, n + 2) then 1 else 0) + (if Check(b, n + 3) then 1 else 0) + (if Check(b, n + 4) then 1 else 0)
  {
    hide Check;
    assert Weight(b, n + 2) == Weight(b, n + 1) + (if Check(b, n + 1) then 1 else 0);
    assert Weight(b, n + 4) == Weight(b, n + 3) + (if Check(b, n + 3) then 1 else 0);
  }

  /** Every code word but zero has at least seven bits. */
  lemma WeightAtLeast7(b: Five)
    requires b.p || b.q || b.r || b.s || b.t
    ensures Weight(b, 15) >= 7
  {
    FiveMore(b, 0);
    FiveMore(b, 5);
    FiveMore(b, 10);
    hide Weight;
    assert Weight(b, 0) == 0;
  }

  lemma DataFarApart(d: bv32, e: bv32)
    requires d < 32 && e < 32 && d != e
    ensures Differences(Combine(d, Sum(d)), Combine(e, Sum(e)), 15) >= 7
  {
    hide Combine, Sum, HasBits, Differences, Weight;
    DifferencesAreWeight(d, e, 15);
    if BitsOfData(d) == BitsOfData(e) { BitsInjective(d, e); }
    hide BitsOfData;
    WeightAtLeast7(Sums(BitsOfData(d), BitsOfData(e)));
  }

  lemma DataDistinct(ecl: Ecc, mask: nat, ecl': Ecc, mask': nat)
    requires mask < 8 && mask' < 8 && FormatData(ecl, mask) == FormatData(ecl', mask')
    ensures ecl == ecl' && mask == mask'
  {
    hide Combine, FormatRemainder, FormatData, WordBit;
    WordAnnouncesLevel(ecl, mask);
    WordAnnouncesLevel(ecl', mask');
    WordAnnouncesMask(ecl, mask);
    WordAnnouncesMask(ecl', mask');
  }

  /** The words for two different settings differ in at least seven of their fifteen bits. */
  lemma WordsFarApart(ecl: Ecc, mask: nat, ecl': Ecc, mask': nat)
    requires mask < 8 && mask' < 8 && (ecl != ecl' || mask != mask')
    ensures Differences(FormatWord(ecl, mask), FormatWord(ecl', mask'), 15) >= 7
  {
    hide Combine, Sum, WordBit, Differences, FormatData, FormatWord;
    WordIsSum(ecl, mask);
    WordIsSum(ecl', mask');
    if FormatData(ecl, mask) == FormatData(ecl', mask') { DataDistinct(ecl, mask, ecl', mask'); }
    DataFarApart(FormatData(ecl, mask), FormatData(ecl', mask'));
  }

  /** Whatever three modules of a copy are damaged, the word that was drawn is the only one within three bits of it. */
  lemma DamagedWordIsClosest(ecl: Ecc, mask: nat, damaged: bv32, ecl': Ecc, mask': nat)
    requires mask < 8 && mask' < 8 && (ecl != ecl' || mask != mask')
    requires Differences(FormatWord(ecl, mask), damaged, 15) <= 3
    ensures Differences(damaged, FormatWord(ecl', mask'), 15) >= 4
  {
    hide FormatWord, Differences;
    WordsFarApart(ecl, mask, ecl', mask');
    Triangle(FormatWord(ecl, mask), damaged, FormatWord(ecl', mask'), 15);
  }

  // ----- the two copies

  /** The bits of the word, from 0 on, along the first copy, which skips the timing patterns ... */
  function FirstCopy(i: nat): Cell
    requires i < 15
  {
    if i < 6 then Cell(8, i) else if i < 8 then Cell(8, i + 1) else if i == 8 then Cell(7, 8) else Cell(14 - i, 8)
  }

  /** ... and along the second one, from the right edge to the middle and then down to the lower edge. */
  function SecondCopy(size: nat, i: nat): Cell
    requires i < 15 && size >= 21
  {
    if i < 8 then Cell(size - 1 - i, 8) else Cell(8, size - (15 - i))
  }

  predicate AnnexBit(ecl: Ecc, mask: nat, i: nat)
    requires mask < 8 && i < 15
  {
    WordBit(AnnexWord(ecl, mask), i)
  }

  lemma CopiesHoldWord(g: Grid, size: nat, ecl: Ecc, mask: nat, i: nat)
    requires IsSize(size) && IsSquare(g, size) && mask < 8 && i < 15
    ensures var (r, a, b) := (WithFormat(g, size, ecl, mask), FirstCopy(i), SecondCopy(size, i));
      && r[a.y][a.x] == AnnexBit(ecl, mask, i) && r[b.y][b.x] == AnnexBit(ecl, mask, i)
  {
    hide FormatWord, WordBit, AnnexWord;
    WordsAreStandard(ecl, mask);
  }

  lemma AlwaysDark(g: Grid, size: nat, ecl: Ecc, mask: nat)
    requires IsSize(size) && IsSquare(g, size) && mask < 8
    ensures WithFormat(g, size, ecl, mask)[size - 8][8]
  {
    hide FormatWord, WordBit;
  }

  /** The second copy announces the same level and mask as the first. */
  lemma SecondCopyReadsBack(g: Grid, size: nat, ecl: Ecc, mask: nat)
    requires IsSize(size) && IsSquare(g, size) && mask < 8
    ensures var r := WithFormat(g, size, ecl, mask);
      && AnnouncedMask(r[size - 5][8], r[size - 4][8], r[size - 3][8]) == mask
      && AnnouncedLevel(r[size - 2][8], r[size - 1][8]) == ecl
  {
    hide FormatWord, WordBit;
    WordAnnouncesMask(ecl, mask);
    WordAnnouncesLevel(ecl, mask);
  }
}
