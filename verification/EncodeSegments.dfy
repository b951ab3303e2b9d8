/** From segments to data codewords: version search, level boost, stream, terminator and padding. */
module EncodeSegments {
  import opened Outcomes
  import opened BitBuffers
  import opened Segments
  import opened SegmentReader
  import opened Codewords
  import opened Interleave

  datatype Ecc = Low | Medium | Quartile | High {
    function Level(): nat {
      match this
      case Low => 0
      case Medium => 1
      case Quartile => 2
      case High => 3
    }
  }

  const MIN_VERSION: int := 1
  const MAX_VERSION: int := 40

  /** The block layout of every version and level, which the encoder keeps in constant tables. */
  type LayoutTable = (nat, Ecc) -> Layout

  ghost predicate GoodTable(table: LayoutTable) {
    forall ver: nat, ecl: Ecc :: 1 <= ver <= 40 ==>
      table(ver, ecl).Valid() && table(ver, ecl).rawCodewords <= 3706
  }

  // ----- getTotalBits

  /** The running total of the loop, or None where it gives up. */
  function TotalBits(segs: seq<Segment>, ver: nat): (t: Option<nat>)
    requires 1 <= ver <= 40
  {
    if |segs| == 0 then Some(0)
    else
      var seg := segs[|segs| - 1];
      var cc := seg.mode.NumCharCountBits(ver);
      match TotalBits(segs[..|segs| - 1], ver)
      case None => None
      case Some(n) =>
        if seg.numChars >= Pow2(cc) || 4 + cc > INT_MAX - n || |seg.data| > INT_MAX - (n + 4 + cc) then None
        else Some(n + 4 + cc + |seg.data|)
  }

  predicate CountsFit(segs: seq<Segment>, ver: nat)
    requires 1 <= ver <= 40
  {
    forall seg :: seg in segs ==> CountFits(ver, seg)
  }

  /** The total is the length of the stream, unless a count does not fit or the length exceeds an int. */
  lemma {:induction false} TotalBitsMeaning(segs: seq<Segment>, ver: nat)
    requires 1 <= ver <= 40
    ensures TotalBits(segs, ver)
         == if CountsFit(segs, ver) && |StreamBits(ver, segs)| <= INT_MAX then Some(|StreamBits(ver, segs)|) else None
  {
    hide Mode.NumCharCountBits, BitsOf, Pow2;
    if |segs| > 0 {
      var (front, seg) := (segs[..|segs| - 1], segs[|segs| - 1]);
      TotalBitsMeaning(front, ver);
      assert segs == front + [seg];
      assert CountsFit(segs, ver) <==> CountsFit(front, ver) && CountFits(ver, seg);
    }
  }

  method GetTotalBits(segs: seq<Segment>, ver: nat) returns (result: int)
    requires 1 <= ver <= 40
    ensures result == match TotalBits(segs, ver) case None => -1 case Some(n) => n
    ensures CountsFit(segs, ver) && |StreamBits(ver, segs)| <= INT_MAX ==> result == |StreamBits(ver, segs)|
    ensures !(CountsFit(segs, ver) && |StreamBits(ver, segs)| <= INT_MAX) ==> result == -1
  {
    hide Mode.NumCharCountBits, Pow2, StreamBits;
    TotalBitsMeaning(segs, ver);
    result := 0;
    for i := 0 to |segs|
      invariant result >= 0 && TotalBits(segs[..i], ver) == Some(result)
    {
      var seg := segs[i];
      assert segs[..i + 1][..i] == segs[..i];
      var ccbits := seg.mode.NumCharCountBits(ver);
      if seg.numChars >= Pow2(ccbits) || 4 + ccbits > INT_MAX - result {
        TotalBitsNone(segs, ver, i + 1);
        return -1;
      }
      result := result + 4 + ccbits;
      if |seg.data| > INT_MAX - result {
        TotalBitsNone(segs, ver, i + 1);
        return -1;
      }
      result := result + |seg.data|;
    }
    assert segs[..|segs|] == segs;
  }

  lemma {:induction false} TotalBitsNone(segs: seq<Segment>, ver: nat, i: nat)
    requires 1 <= ver <= 40 && i <= |segs| && TotalBits(segs[..i], ver) == None
    ensures TotalBits(segs, ver) == None
    decreases |segs| - i
  {
    if i == |segs| {
      assert segs[..i] == segs;
    } else {
      assert segs[..i + 1][..i] == segs[..i];
      TotalBitsNone(segs, ver, i + 1);
    }
  }

  // ----- what the data codewords hold

  function Capacity(table: LayoutTable, ver: nat, ecl: Ecc): int {
    table(ver, ecl).NumDataCodewords() * 8
  }

  /** The segments fit a symbol of this version and level. */
  predicate Fits(table: LayoutTable, segs: seq<Segment>, ver: nat, ecl: Ecc)
    requires 1 <= ver <= 40
  {
    CountsFit(segs, ver) && |StreamBits(ver, segs)| <= Capacity(table, ver, ecl)
  }

  function Zeros(n: nat): seq<bool> {
    seq(n, _ => false)
  }

  /** n bytes 0xEC, 0x11, 0xEC, ... */
  function PadBits(n: nat): (bits: seq<bool>)
    ensures |bits| == 8 * n
  {
    if n == 0 then [] else PadBits(n - 1) + BitsOf(if (n - 1) % 2 == 0 then 0xEC else 0x11, 8)
  }

  function Terminator(used: nat, capacity: nat): nat
    requires used <= capacity
  {
    if capacity - used < 4 then capacity - used else 4
  }

  function Alignment(used: nat): nat {
    (8 - used % 8) % 8
  }

  lemma TailFits(used: nat, capacity: nat)
    requires used <= capacity && capacity % 8 == 0
    ensures var t := Terminator(used, capacity);
      used + t + Alignment(used + t) <= capacity && (used + t + Alignment(used + t)) % 8 == 0
  {
    hide Alignment;
    Aligned(used + Terminator(used, capacity), capacity);
  }

  lemma Aligned(used: nat, capacity: nat)
    requires used <= capacity && capacity % 8 == 0
    ensures used + Alignment(used) <= capacity && (used + Alignment(used)) % 8 == 0
  {
    var (q, r) := (used / 8, used % 8);
    assert used == 8 * q + r && capacity == 8 * (capacity / 8);
  }

  /** Terminator, zeros up to a byte boundary, pad bytes up to the capacity. */
  function Tail(used: nat, capacity: nat): (tail: seq<bool>)
    requires used <= capacity && capacity % 8 == 0
    ensures |tail| == capacity - used
  {
    TailFits(used, capacity);
    var t := Terminator(used, capacity);
    var a := Alignment(used + t);
    Zeros(t) + Zeros(a) + PadBits((capacity - (used + t + a)) / 8)
  }

  lemma TailEndsStream(used: nat, capacity: nat)
    requires used <= capacity && capacity % 8 == 0
    ensures EndsStream(Tail(used, capacity))
  {
  }

  datatype EncodedData = EncodedData(version: nat, ecl: Ecc, dataCodewords: seq<bv8>)

  /** The version is the first one in range that fits. */
  ghost predicate SmallestVersion(table: LayoutTable, segs: seq<Segment>, ecl: Ecc, minVersion: int, maxVersion: int,
      ver: int) {
    && 1 <= minVersion <= ver <= maxVersion <= 40
    && Fits(table, segs, ver, ecl)
    && forall v :: minVersion <= v < ver ==> !Fits(table, segs, v, ecl)
  }

  /** The level is the requested one or the highest one that still fits. */
  ghost predicate BoostedLevel(table: LayoutTable, segs: seq<Segment>, ver: nat, requested: Ecc, boost: bool, ecl: Ecc)
    requires 1 <= ver <= 40
  {
    && (!boost ==> ecl == requested)
    && ecl.Level() >= requested.Level()
    && Fits(table, segs, ver, ecl)
    && (boost ==> forall e: Ecc | e.Level() > ecl.Level() :: !Fits(table, segs, ver, e))
  }

  /** The first loop: searches for the smallest version that fits. */
  method FindVersion(table: LayoutTable, segs: seq<Segment>, ecl: Ecc, minVersion: int, maxVersion: int)
    returns (r: Result<(nat, nat)>)
    requires GoodTable(table) && 1 <= minVersion <= maxVersion <= 40
    ensures r.Failure? <==> forall v :: minVersion <= v <= maxVersion ==> !Fits(table, segs, v, ecl)
    ensures r.Failure? ==> r.error == DataTooLong
    ensures r.Success? ==> SmallestVersion(table, segs, ecl, minVersion, maxVersion, r.value.0)
    ensures r.Success? ==> r.value.1 == |StreamBits(r.value.0, segs)|
  {
    hide StreamBits, CountsFit;
    var version := minVersion;
    while true
      invariant minVersion <= version <= maxVersion
      invariant forall v :: minVersion <= v < version ==> !Fits(table, segs, v, ecl)
      decreases maxVersion - version
    {
      var dataCapacityBits := table(version, ecl).NumDataCodewords() * 8;
      assert table(version, ecl).Valid();
      var dataUsedBits := GetTotalBits(segs, version);
      if dataUsedBits != -1 && dataUsedBits <= dataCapacityBits {
        assert Fits(table, segs, version, ecl);
        return Success((version, dataUsedBits));
      }
      assert !Fits(table, segs, version, ecl);
      if version >= maxVersion {
        return Failure(DataTooLong);
      }
      version := version + 1;
    }
  }

  /** The second loop: raises the level while the data still fits. */
  method BoostLevel(table: LayoutTable, segs: seq<Segment>, ver: nat, dataUsedBits: nat, ecl: Ecc, boostEcl: bool)
    returns (r: Ecc)
    requires 1 <= ver <= 40 && Fits(table, segs, ver, ecl) && dataUsedBits == |StreamBits(ver, segs)|
    ensures BoostedLevel(table, segs, ver, ecl, boostEcl, r)
  {
    hide StreamBits, CountsFit, Layout.NumDataCodewords;
    r := ecl;
    var levels := [Medium, Quartile, High];
    for i := 0 to 3
      invariant Fits(table, segs, ver, r)
      invariant !boostEcl ==> r == ecl
      invariant r.Level() >= ecl.Level() || i < ecl.Level()
      invariant boostEcl && 1 <= i && r.Level() < 1 ==> !Fits(table, segs, ver, Medium)
      invariant boostEcl && 2 <= i && r.Level() < 2 ==> !Fits(table, segs, ver, Quartile)
      invariant boostEcl && 3 <= i && r.Level() < 3 ==> !Fits(table, segs, ver, High)
    {
      var newEcl := levels[i];
      assert newEcl.Level() == i + 1;
      if boostEcl && dataUsedBits <= table(ver, newEcl).NumDataCodewords() * 8 {
        r := newEcl;
      }
    }
  }

  /** Concatenates the segments. */
  method AppendSegments(bb: BitBuffer, segs: seq<Segment>, version: nat)
    requires 1 <= version <= 40 && CountsFit(segs, version) && bb.bits == []
    modifies bb
    ensures bb.bits == StreamBits(version, segs)
  {
    hide Pow2, BitsOf, Mode.NumCharCountBits, Mode.ModeBits;
    for i := 0 to |segs|
      invariant bb.bits == StreamBits(version, segs[..i])
    {
      var seg := segs[i];
      assert segs[..i + 1][..i] == segs[..i];
      FieldWidths(seg.mode, version);
      assert CountFits(version, seg);
      var e := bb.AppendBits(seg.mode.ModeBits(), 4);
      e := bb.AppendBits(seg.numChars, seg.mode.NumCharCountBits(version));
      bb.bits := bb.bits + seg.data;
    }
    assert segs[..|segs|] == segs;
  }

  /** Appends pad bytes, alternating between 0xEC and 0x11, up to the capacity. */
  method AppendPadding(bb: BitBuffer, dataCapacityBits: nat)
    requires |bb.bits| <= dataCapacityBits && |bb.bits| % 8 == 0 && dataCapacityBits % 8 == 0
    modifies bb
    ensures bb.bits == old(bb.bits) + PadBits((dataCapacityBits - |old(bb.bits)|) / 8)
  {
    hide Pow2, BitsOf;
    Pow2Table();
    ghost var start := bb.bits;
    var padByte := 0xEC;
    ghost var n := 0;
    while |bb.bits| < dataCapacityBits
      invariant |bb.bits| <= dataCapacityBits && |bb.bits| == |start| + 8 * n
      invariant bb.bits == start + PadBits(n) && padByte == if n % 2 == 0 then 0xEC else 0x11
      decreases dataCapacityBits - |bb.bits|
    {
      var e := bb.AppendBits(padByte, 8);
      padByte := 0xEC + 0x11 - padByte;
      n := n + 1;
    }
  }

  /** Appends n zero bits. */
  method AppendZeros(bb: BitBuffer, n: nat)
    requires n <= 31
    modifies bb
    ensures bb.bits == old(bb.bits) + Zeros(n)
  {
    Pow2Positive(n);
    ZeroBits(n);
    var e := bb.AppendBits(0, n);
  }

  /** Appends the terminator, zeros up to a byte boundary and the padding. */
  method AppendTail(bb: BitBuffer, dataCapacityBits: nat)
    requires |bb.bits| <= dataCapacityBits && dataCapacityBits % 8 == 0
    modifies bb
    ensures bb.bits == old(bb.bits) + Tail(|old(bb.bits)|, dataCapacityBits)
  {
    hide PadBits, Tail, Zeros;
    ghost var used := |bb.bits|;
    var gap := dataCapacityBits - |bb.bits|;
    TailFits(used, dataCapacityBits);
    AppendZeros(bb, if 4 < gap then 4 else gap);
    ZerosLength(Terminator(used, dataCapacityBits));
    AppendZeros(bb, (8 - |bb.bits| % 8) % 8);
    hide Terminator, Alignment;
    ZerosLength(Alignment(used + Terminator(used, dataCapacityBits)));
    AppendPadding(bb, dataCapacityBits);
    TailParts(old(bb.bits), dataCapacityBits);
  }

  lemma ZerosLength(n: nat)
    ensures |Zeros(n)| == n
  {
  }

  lemma TailParts(start: seq<bool>, capacity: nat)
    requires |start| <= capacity && capacity % 8 == 0
    ensures var t := Terminator(|start|, capacity);
      var a := Alignment(|start| + t);
      && |start| + t + a <= capacity
      && start + Zeros(t) + Zeros(a) + PadBits((capacity - (|start| + t + a)) / 8) == start + Tail(|start|, capacity)
  {
    hide Zeros, PadBits, Terminator, Alignment;
    TailFits(|start|, capacity);
  }

  lemma FieldWidths(mode: Mode, ver: nat)
    requires 1 <= ver <= 40
    ensures mode.ModeBits() < Pow2(4) && mode.NumCharCountBits(ver) <= 16
  {
    Pow2Table();
  }

  lemma {:induction false} Pow2Positive(n: nat)
    ensures 0 < Pow2(n)
  {
    if n > 0 { Pow2Positive(n - 1); }
  }

  lemma {:induction false} ZeroBits(n: nat)
    ensures BitsOf(0, n) == Zeros(n)
  {
    if n > 0 { ZeroBits(n - 1); }
  }

  /** The codewords hold the segments, the terminator and the padding, and nothing else. */
  ghost predicate HoldsStream(segs: seq<Segment>, e: EncodedData, capacity: int) {
    && 1 <= e.version <= 40 && CountsFit(segs, e.version)
    && |StreamBits(e.version, segs)| <= capacity && capacity % 8 == 0 && 8 * |e.dataCodewords| == capacity
    && Unpack(e.dataCodewords) == StreamBits(e.version, segs) + Tail(|StreamBits(e.version, segs)|, capacity)
  }

  /** Reading the codewords gives back whatever payloads the segments were made from. */
  ghost predicate ReadsBack(segs: seq<Segment>, e: EncodedData) {
    1 <= e.version <= 40 && forall ps: seq<Payload> :: MadeFrom(segs, ps) ==>
      ReadStream(e.version, Unpack(e.dataCodewords)) == Some(ps)
  }

  ghost predicate MadeFrom(segs: seq<Segment>, ps: seq<Payload>) {
    (forall p :: p in ps ==> IsPayload(p)) && segs == SegmentsOf(ps)
  }

  lemma StreamReadsBack(segs: seq<Segment>, e: EncodedData, capacity: int)
    requires HoldsStream(segs, e, capacity)
    ensures ReadsBack(segs, e)
  {
    hide StreamBits, Tail, Unpack, ReadStream;
    var used := |StreamBits(e.version, segs)|;
    forall ps: seq<Payload> | MadeFrom(segs, ps)
      ensures ReadStream(e.version, Unpack(e.dataCodewords)) == Some(ps)
    {
      TailEndsStream(used, capacity);
      CountsOfPayloads(ps, e.version);
      ReadStreamBack(e.version, ps, Tail(used, capacity));
    }
  }

  method Encode(table: LayoutTable, segs: seq<Segment>, ecl: Ecc, minVersion: int, maxVersion: int, mask: int,
      boostEcl: bool)
    returns (r: Result<EncodedData>)
    requires GoodTable(table)
    ensures r == Failure(InvalidArgument) <==>
      !(MIN_VERSION <= minVersion <= maxVersion <= MAX_VERSION) || mask < -1 || mask > 7
    ensures r == Failure(DataTooLong) <==>
      && 1 <= minVersion <= maxVersion <= 40 && -1 <= mask <= 7
      && forall v :: minVersion <= v <= maxVersion ==> !Fits(table, segs, v, ecl)
    ensures r.Failure? ==> r.error == InvalidArgument || r.error == DataTooLong
    ensures r.Success? ==> SmallestVersion(table, segs, ecl, minVersion, maxVersion, r.value.version)
    ensures r.Success? ==> BoostedLevel(table, segs, r.value.version, ecl, boostEcl, r.value.ecl)
    ensures r.Success? ==> HoldsStream(segs, r.value, Capacity(table, r.value.version, r.value.ecl))
    ensures r.Success? ==> ReadsBack(segs, r.value)
  {
    hide StreamBits, Tail, Unpack, ReadStream;
    if !(MIN_VERSION <= minVersion <= maxVersion <= MAX_VERSION) || mask < -1 || mask > 7 {
      return Failure(InvalidArgument);
    }
    var found := FindVersion(table, segs, ecl, minVersion, maxVersion);
    if found.Failure? {
      return Failure(found.error);
    }
    var (version, dataUsedBits) := found.value;
    var level := BoostLevel(table, segs, version, dataUsedBits, ecl, boostEcl);
    var dataCapacityBits := table(version, level).NumDataCodewords() * 8;
    var bb := new BitBuffer();
    AppendSegments(bb, segs, version);
    AppendTail(bb, dataCapacityBits);
    var dataCodewords := Pack(bb.bits);
    var result := EncodedData(version, level, dataCodewords);
    StreamReadsBack(segs, result, dataCapacityBits);
    r := Success(result);
  }

  lemma CountsOfPayloads(ps: seq<Payload>, ver: nat)
    requires 1 <= ver <= 40 && (forall p :: p in ps ==> IsPayload(p)) && CountsFit(SegmentsOf(ps), ver)
    ensures forall p :: p in ps ==> CountFits(ver, SegmentOf(p))
  {
    hide SegmentOf, IsPayload;
    forall p | p in ps ensures CountFits(ver, SegmentOf(p)) {
      var i :| 0 <= i < |ps| && ps[i] == p;
      assert SegmentsOf(ps)[i] in SegmentsOf(ps);
    }
  }
}
