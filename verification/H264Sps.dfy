/** Sequence parameter sets: section 7.3.2.1.1 of ITU-T H.264 and the parser that reads them. */
module H264Sps {
  import opened Bytes
  import opened H264Bits

  const INT31 := 0x8000_0000

  /** An unsigned 32-bit value stored in a signed 32-bit field. */
  function Wrap32(v: int): int {
    if -INT31 <= v < INT31 then v
    else if INT31 <= v < UINT32 then v - UINT32
    else
      var r := v % UINT32;
      if r < INT31 then r else r - UINT32
  }

  /** The value in range that is congruent modulo two to the power of 32. */
  lemma Wrap32Exactly(v: int)
    ensures -0x8000_0000 <= Wrap32(v) <= 0x7FFF_FFFF && (v - Wrap32(v)) % 0x1_0000_0000 == 0
  {
  }

  /** C remainder: its sign follows the dividend. */
  function CRemainder(a: int, n: int): int
    requires n > 0
  {
    if a >= 0 then a % n else -((-a) % n)
  }

  /** It differs from the dividend by a multiple of the divisor, and is nearer to zero. */
  lemma CRemainderExactly(a: int, n: int) returns (q: int)
    requires n > 0
    ensures var r := CRemainder(a, n); a == n * q + r && -n < r < n && (r > 0 ==> a > 0) && (r < 0 ==> a < 0)
  {
    if a >= 0 {
      q := a / n;
    } else {
      q := -(-a / n);
      NegatedMultiple(n, -a / n);
    }
  }

  lemma NegatedMultiple(n: int, q: int)
    ensures n * -q == -(n * q)
  {
  }

  // ----- what the parser keeps -----

  datatype SpsFields = SpsFields(
    profileIdc: int, levelIdc: int, spsId: int,
    log2MaxFrameNumMinus4: int, pocType: int, log2MaxPocLsbMinus4: int,
    maxNumRefFrames: int, gapsAllowed: int,
    widthInMbsMinus1: int, heightInMapUnitsMinus1: int, frameMbsOnly: int, direct8x8: int,
    cropping: int, cropLeft: int, cropRight: int, cropTop: int, cropBottom: int,
    vui: int, width: int, height: int)

  const EMPTY_SPS := SpsFields(0, 0, 0, 0, 0, 0, 0, 0, 0, 0, 0, 0, 0, 0, 0, 0, 0, 0, 0, 0)

  /** The profiles for which the parser reads the high-profile fields. */
  predicate IsHighProfile(profile: int) {
    profile == 100 || profile == 110 || profile == 122 || profile == 244 || profile == 44 || profile == 83
    || profile == 86 || profile == 118 || profile == 128 || profile == 138 || profile == 139 || profile == 134
  }

  // ----- how it reads, stage by stage -----

  /** One scaling list: `n` entries to go; deltas are read until one makes the scale 0. */
  function SkipScalingList(s: Bits, n: nat, last: int, next: int): Bits
    decreases n
  {
    if n == 0 then s
    else if next == 0 then SkipScalingList(s, n - 1, last, 0)
    else
      var d := ReadSe(s);
      var next' := CRemainder(Wrap32(last + d.value + 256), 256);
      SkipScalingList(d.rest, n - 1, if next' == 0 then last else next', next')
  }

  function ListSize(i: nat): nat {
    if i < 6 then 16 else 64
  }

  /** Lists `i` to `count`, each behind its present flag. */
  function SkipScalingLists(s: Bits, i: nat, count: nat): Bits
    decreases count - i
  {
    if i >= count then s else
    var present := ReadFlag(s);
    SkipScalingLists(
      if present.value then SkipScalingList(present.rest, ListSize(i), 8, 8) else present.rest, i + 1, count)
  }

  /** The fields that only the high profiles carry; none of them is kept. */
  function SkipHigh(s: Bits): Bits {
    var chroma := ReadUe(s);
    var s1 := if chroma.value == 3 then ReadFlag(chroma.rest).rest else chroma.rest;
    var s2 := ReadFlag(ReadUe(ReadUe(s1).rest).rest).rest;
    var matrix := ReadFlag(s2);
    if matrix.value then SkipScalingLists(matrix.rest, 0, if chroma.value != 3 then 8 else 12) else matrix.rest
  }

  function SkipSigned(s: Bits, n: nat): Bits
    decreases n
  {
    if n == 0 then s else SkipSigned(ReadSe(s).rest, n - 1)
  }

  /** Picture order count fields: the type, and log2_max_pic_order_cnt_lsb_minus4 for type 0. */
  function ReadPoc(s: Bits): Read<(int, int)> {
    var kind := ReadUe(s);
    if kind.value == 0 then
      var lsb := ReadUe(kind.rest);
      Read((0, Wrap32(lsb.value)), lsb.rest)
    else if kind.value == 1 then
      var cycle := ReadUe(ReadSe(ReadSe(ReadFlag(kind.rest).rest).rest).rest);
      var n := Wrap32(cycle.value);
      Read((1, 0), SkipSigned(cycle.rest, if n < 0 then 0 else n))
    else Read((Wrap32(kind.value), 0), kind.rest)
  }

  /** left, right, top and bottom offsets; all 0 when the flag is not set. */
  function ReadCrop(s: Bits, cropping: bool): Read<(int, int, int, int)> {
    if !cropping then Read((0, 0, 0, 0), s) else
    var l := ReadUe(s);
    var r := ReadUe(l.rest);
    var t := ReadUe(r.rest);
    var b := ReadUe(t.rest);
    Read((Wrap32(l.value), Wrap32(r.value), Wrap32(t.value), Wrap32(b.value)), b.rest)
  }

  /** The tail of the set, from max_num_ref_frames on. */
  datatype Geometry = Geometry(refFrames: int, gaps: int, widthMbs: int, heightMap: int, frameMbsOnly: int,
                               direct8x8: int, cropping: int, crop: (int, int, int, int), vui: int)

  function ReadGeometry(s: Bits): Geometry {
    var refs := ReadUe(s);
    var gaps := ReadFlag(refs.rest);
    var w := ReadUe(gaps.rest);
    var h := ReadUe(w.rest);
    var frames := ReadFlag(h.rest);
    var s1 := if frames.value then frames.rest else ReadFlag(frames.rest).rest;
    var direct := ReadFlag(s1);
    var cropping := ReadFlag(direct.rest);
    var crop := ReadCrop(cropping.rest, cropping.value);
    var vui := ReadFlag(crop.rest);
    Geometry(Wrap32(refs.value), Bit(gaps.value), Wrap32(w.value), Wrap32(h.value), Bit(frames.value),
             Bit(direct.value), Bit(cropping.value), crop.value, Bit(vui.value))
  }

  function PictureWidth(g: Geometry): int {
    (g.widthMbs + 1) * 16 - (if g.cropping != 0 then (g.crop.0 + g.crop.1) * 2 else 0)
  }

  function PictureHeight(g: Geometry): int {
    (g.heightMap + 1) * 16 * (2 - g.frameMbsOnly)
    - (if g.cropping != 0 then (g.crop.2 + g.crop.3) * 2 * (2 - g.frameMbsOnly) else 0)
  }

  function Assemble(profile: int, level: int, id: int, frameNum: int, poc: (int, int), g: Geometry): SpsFields {
    SpsFields(profile, level, id, frameNum, poc.0, poc.1, g.refFrames, g.gaps, g.widthMbs, g.heightMap,
              g.frameMbsOnly, g.direct8x8, g.cropping, g.crop.0, g.crop.1, g.crop.2, g.crop.3, g.vui,
              Wrap32(PictureWidth(g)), Wrap32(PictureHeight(g)))
  }

  /** `parse_sps` on a non-empty payload. */
  function SpsOf(s: Bits): SpsFields {
    var profile := ReadU(s, 8);
    var level := ReadU(ReadU(ReadU(profile.rest, 4).rest, 4).rest, 8);
    var id := ReadUe(level.rest);
    BodyOf(profile.value, level.value, Wrap32(id.value), id.rest)
  }

  /** The same from behind seq_parameter_set_id on. */
  function BodyOf(profile: int, level: int, id: int, s: Bits): SpsFields {
    var s1 := if IsHighProfile(profile) then SkipHigh(s) else s;
    var frameNum := ReadUe(s1);
    var poc := ReadPoc(frameNum.rest);
    Assemble(profile, level, id, Wrap32(frameNum.value), poc.value, ReadGeometry(poc.rest))
  }

  // ----- the syntax of the standard -----

  /** A scaling list is absent, or given by the deltas that are written for it. */
  datatype High = High(chromaFormat: nat, separatePlanes: bool, lumaDepth: nat, chromaDepth: nat,
                       bypass: bool, matrix: Option<seq<Option<seq<int>>>>)

  datatype Poc =
    | Poc0(log2MaxLsbMinus4: nat)
    | Poc1(deltaAlwaysZero: bool, nonRef: int, topToBottom: int, refFrames: seq<int>)
    | Poc2

  datatype Crop = Crop(left: nat, right: nat, top: nat, bottom: nat)

  datatype Sps = Sps(profile: nat, constraints: nat, reserved: nat, level: nat, id: nat, high: High,
                     log2MaxFrameNumMinus4: nat, poc: Poc, maxNumRefFrames: nat, gaps: bool,
                     widthInMbsMinus1: nat, heightInMapUnitsMinus1: nat, frameMbsOnly: bool, adaptive: bool,
                     direct8x8: bool, crop: Option<Crop>, vui: bool)

  /** The deltas stop at the entry that makes the scale 0, or at the last entry. */
  predicate ListFits(ds: seq<int>, n: nat, last: int, next: int)
    decreases n
  {
    if n == 0 || next == 0 then ds == []
    else
      && ds != [] && -128 <= ds[0] <= 127
      && var next' := (last + ds[0] + 256) % 256;
         ListFits(ds[1..], n - 1, if next' == 0 then last else next', next')
  }

  predicate SignedCode(k: int) {
    -0x7FFF_FFFF <= k <= 0x7FFF_FFFF
  }

  predicate HighFits(h: High) {
    && h.chromaFormat < INT31 && h.lumaDepth < INT31 && h.chromaDepth < INT31
    && (h.matrix.Some? ==>
        && |h.matrix.value| == (if h.chromaFormat != 3 then 8 else 12)
        && forall i :: 0 <= i < |h.matrix.value| ==>
            h.matrix.value[i].Some? ==> ListFits(h.matrix.value[i].value, Coefficients(i), 8, 8))
  }

  /** Six lists are for blocks of four by four, the others for blocks of eight by eight. */
  function Coefficients(i: nat): nat {
    if i < 6 then 4 * 4 else 8 * 8
  }

  predicate PocFits(p: Poc) {
    match p
    case Poc0(lsb) => lsb < INT31
    case Poc1(_, a, b, offsets) =>
      SignedCode(a) && SignedCode(b) && |offsets| < INT31 && forall k :: k in offsets ==> SignedCode(k)
    case Poc2 => true
  }

  predicate CropFits(c: Crop) {
    c.left < INT31 && c.right < INT31 && c.top < INT31 && c.bottom < INT31
  }

  /** The profiles whose sets carry the high-profile fields, as the syntax table lists them. */
  predicate CarriesHighFields(profile: int) {
    profile == 100 || profile == 110 || profile == 122 || profile == 244 || profile == 44 || profile == 83
    || profile == 86 || profile == 118 || profile == 128 || profile == 138 || profile == 139 || profile == 134
    || profile == 135
  }

  /** Every code within the range its descriptor and a signed 32-bit field can hold. */
  predicate Fits(s: Sps) {
    && s.profile < 256 && s.constraints < 16 && s.reserved < 16 && s.level < 256 && s.id < INT31
    && (CarriesHighFields(s.profile) ==> HighFits(s.high))
    && s.log2MaxFrameNumMinus4 < INT31 && PocFits(s.poc) && s.maxNumRefFrames < INT31
    && s.widthInMbsMinus1 < INT31 && s.heightInMapUnitsMinus1 < INT31
    && (s.crop.Some? ==> CropFits(s.crop.value))
  }

  // ----- writing a set, in front of whatever bits follow it -----

  function DeltaBits(ds: seq<int>, rest: Bits): Bits {
    if ds == [] then rest else SeBits(ds[0]) + DeltaBits(ds[1..], rest)
  }

  function ListBits(lists: seq<Option<seq<int>>>, rest: Bits): Bits {
    if lists == [] then rest else
    var others := ListBits(lists[1..], rest);
    match lists[0]
    case None => [false] + others
    case Some(ds) => [true] + DeltaBits(ds, others)
  }

  function HighBits(h: High, rest: Bits): Bits {
    var matrix := match h.matrix case None => [false] + rest case Some(lists) => [true] + ListBits(lists, rest);
    var depths := UeBits(h.lumaDepth) + (UeBits(h.chromaDepth) + ([h.bypass] + matrix));
    UeBits(h.chromaFormat) + (if h.chromaFormat == 3 then [h.separatePlanes] + depths else depths)
  }

  function PocBits(p: Poc, rest: Bits): Bits {
    match p
    case Poc0(lsb) => UeBits(0) + (UeBits(lsb) + rest)
    case Poc1(zero, a, b, offsets) =>
      UeBits(1) + ([zero] + (SeBits(a) + (SeBits(b) + (UeBits(|offsets|) + DeltaBits(offsets, rest)))))
    case Poc2 => UeBits(2) + rest
  }

  function CropBits(c: Option<Crop>, rest: Bits): Bits {
    match c
    case None => [false] + rest
    case Some(k) => [true] + (UeBits(k.left) + (UeBits(k.right) + (UeBits(k.top) + (UeBits(k.bottom) + rest))))
  }

  function GeometryBits(s: Sps, rest: Bits): Bits {
    var tail := [s.direct8x8] + CropBits(s.crop, [s.vui] + rest);
    UeBits(s.maxNumRefFrames) + ([s.gaps] + (UeBits(s.widthInMbsMinus1) + (UeBits(s.heightInMapUnitsMinus1)
    + ([s.frameMbsOnly] + (if s.frameMbsOnly then tail else [s.adaptive] + tail)))))
  }

  /** What follows seq_parameter_set_id. */
  function BodyBits(s: Sps, rest: Bits): Bits {
    var body := UeBits(s.log2MaxFrameNumMinus4) + PocBits(s.poc, GeometryBits(s, rest));
    if CarriesHighFields(s.profile) then HighBits(s.high, body) else body
  }

  function SpsBits(s: Sps, rest: Bits): Bits {
    UBits(s.profile, 8) + (UBits(s.constraints, 4) + (UBits(s.reserved, 4) + (UBits(s.level, 8)
    + (UeBits(s.id) + BodyBits(s, rest)))))
  }

  // ----- reading what was written -----

  lemma NextScale(last: int, delta: int)
    requires 0 <= last < 256 && -128 <= delta <= 127
    ensures CRemainder(Wrap32(last + delta + 256), 256) == (last + delta + 256) % 256
  {
    assert Wrap32(last + delta + 256) == last + delta + 256;
  }

  lemma {:induction false} ScalingListSkipped(ds: seq<int>, n: nat, last: int, next: int, rest: Bits)
    requires ListFits(ds, n, last, next) && 0 <= last < 256
    ensures SkipScalingList(DeltaBits(ds, rest), n, last, next) == rest
    decreases n
  {
    hide ReadSe;
    hide SeBits;
    hide Wrap32;
    hide CRemainder;
    if n > 0 {
      if next == 0 {
        ScalingListSkipped(ds, n - 1, last, 0, rest);
      } else {
        var next' := (last + ds[0] + 256) % 256;
        SeRoundTrip(ds[0], DeltaBits(ds[1..], rest));
        NextScale(last, ds[0]);
        ScalingListSkipped(ds[1..], n - 1, if next' == 0 then last else next', next', rest);
      }
    }
  }

  lemma {:induction false} ScalingListsSkipped(lists: seq<Option<seq<int>>>, i: nat, rest: Bits)
    requires forall k :: 0 <= k < |lists| ==> lists[k].Some? ==> ListFits(lists[k].value, ListSize(i + k), 8, 8)
    ensures SkipScalingLists(ListBits(lists, rest), i, i + |lists|) == rest
    decreases |lists|
  {
    if lists != [] {
      var others := ListBits(lists[1..], rest);
      if lists[0].Some? {
        assert lists[0].Some? ==> ListFits(lists[0].value, ListSize(i + 0), 8, 8);
        FlagRoundTrip(true, DeltaBits(lists[0].value, others));
        ScalingListSkipped(lists[0].value, ListSize(i), 8, 8, others);
      } else {
        FlagRoundTrip(false, others);
      }
      forall k | 0 <= k < |lists[1..]|
        ensures lists[1..][k].Some? ==> ListFits(lists[1..][k].value, ListSize(i + 1 + k), 8, 8)
      {
        assert lists[1..][k] == lists[k + 1];
        assert lists[k + 1].Some? ==> ListFits(lists[k + 1].value, ListSize(i + (k + 1)), 8, 8);
      }
      ScalingListsSkipped(lists[1..], i + 1, rest);
    }
  }

  lemma HighSkipped(h: High, rest: Bits)
    requires HighFits(h)
    ensures SkipHigh(HighBits(h, rest)) == rest
  {
    hide ReadUe;
    hide UeBits;
    hide ListFits;
    hide SkipScalingLists;
    hide ListBits;
    var matrix := match h.matrix case None => [false] + rest case Some(lists) => [true] + ListBits(lists, rest);
    var depths := UeBits(h.lumaDepth) + (UeBits(h.chromaDepth) + ([h.bypass] + matrix));
    UeRoundTrip(h.chromaFormat, if h.chromaFormat == 3 then [h.separatePlanes] + depths else depths);
    FlagRoundTrip(h.separatePlanes, depths);
    UeRoundTrip(h.lumaDepth, UeBits(h.chromaDepth) + ([h.bypass] + matrix));
    UeRoundTrip(h.chromaDepth, [h.bypass] + matrix);
    FlagRoundTrip(h.bypass, matrix);
    match h.matrix
    case None => FlagRoundTrip(false, rest);
    case Some(lists) =>
      FlagRoundTrip(true, ListBits(lists, rest));
      ScalingListsSkipped(lists, 0, rest);
  }

  lemma {:induction false} SignedSkipped(ds: seq<int>, rest: Bits)
    requires forall k :: k in ds ==> SignedCode(k)
    ensures SkipSigned(DeltaBits(ds, rest), |ds|) == rest
    decreases |ds|
  {
    if ds != [] {
      assert SignedCode(ds[0]);
      SeRoundTrip(ds[0], DeltaBits(ds[1..], rest));
      SignedSkipped(ds[1..], rest);
    }
  }

  function PocResult(p: Poc): (int, int) {
    match p
    case Poc0(lsb) => (0, lsb)
    case Poc1(_, _, _, _) => (1, 0)
    case Poc2 => (2, 0)
  }

  lemma SmallWraps(v: nat)
    requires v < INT31
    ensures Wrap32(v) == v
  {
  }

  lemma PocReads(p: Poc, rest: Bits)
    requires PocFits(p)
    ensures ReadPoc(PocBits(p, rest)) == Read(PocResult(p), rest)
  {
    match p
    case Poc0(lsb) =>
      UeRoundTrip(0, UeBits(lsb) + rest);
      UeRoundTrip(lsb, rest);
      SmallWraps(lsb);
    case Poc1(zero, a, b, offsets) =>
      var s5 := DeltaBits(offsets, rest);
      var s4 := UeBits(|offsets|) + s5;
      var s3 := SeBits(b) + s4;
      var s2 := SeBits(a) + s3;
      UeRoundTrip(1, [zero] + s2);
      FlagRoundTrip(zero, s2);
      SeRoundTrip(a, s3);
      SeRoundTrip(b, s4);
      UeRoundTrip(|offsets|, s5);
      SmallWraps(|offsets|);
      SignedSkipped(offsets, rest);
    case Poc2 =>
      UeRoundTrip(2, rest);
  }

  function Offsets(c: Option<Crop>): (int, int, int, int) {
    match c
    case None => (0, 0, 0, 0)
    case Some(k) => (k.left, k.right, k.top, k.bottom)
  }

  lemma CropReads(c: Option<Crop>, rest: Bits)
    requires c.Some? ==> CropFits(c.value)
    ensures var flag := ReadFlag(CropBits(c, rest));
            flag.value == c.Some? && ReadCrop(flag.rest, c.Some?) == Read(Offsets(c), rest)
  {
    match c
    case None => FlagRoundTrip(false, rest);
    case Some(k) =>
      var s3 := UeBits(k.bottom) + rest;
      var s2 := UeBits(k.top) + s3;
      var s1 := UeBits(k.right) + s2;
      FlagRoundTrip(true, UeBits(k.left) + s1);
      UeRoundTrip(k.left, s1);
      UeRoundTrip(k.right, s2);
      UeRoundTrip(k.top, s3);
      UeRoundTrip(k.bottom, rest);
      SmallWraps(k.left);
      SmallWraps(k.right);
      SmallWraps(k.top);
      SmallWraps(k.bottom);
  }

  lemma GeometryReads(s: Sps, rest: Bits)
    requires Fits(s)
    ensures ReadGeometry(GeometryBits(s, rest)) == GeometryOf(s)
  {
    var end := [s.vui] + rest;
    var tail := [s.direct8x8] + CropBits(s.crop, end);
    var s4 := if s.frameMbsOnly then tail else [s.adaptive] + tail;
    var s3 := UeBits(s.heightInMapUnitsMinus1) + ([s.frameMbsOnly] + s4);
    var s2 := UeBits(s.widthInMbsMinus1) + s3;
    UeRoundTrip(s.maxNumRefFrames, [s.gaps] + s2);
    FlagRoundTrip(s.gaps, s2);
    UeRoundTrip(s.widthInMbsMinus1, s3);
    UeRoundTrip(s.heightInMapUnitsMinus1, [s.frameMbsOnly] + s4);
    FlagRoundTrip(s.frameMbsOnly, s4);
    FlagRoundTrip(s.adaptive, tail);
    FlagRoundTrip(s.direct8x8, CropBits(s.crop, end));
    CropReads(s.crop, end);
    FlagRoundTrip(s.vui, rest);
    SmallWraps(s.maxNumRefFrames);
    SmallWraps(s.widthInMbsMinus1);
    SmallWraps(s.heightInMapUnitsMinus1);
  }

  function GeometryOf(s: Sps): Geometry {
    Geometry(s.maxNumRefFrames, Bit(s.gaps), s.widthInMbsMinus1, s.heightInMapUnitsMinus1, Bit(s.frameMbsOnly),
             Bit(s.direct8x8), Bit(s.crop.Some?), Offsets(s.crop), Bit(s.vui))
  }

  /** The fields up to seq_parameter_set_id are read back for every profile. */
  lemma HeaderReads(s: Sps, rest: Bits)
    requires Fits(s)
    ensures SpsOf(SpsBits(s, rest)) == BodyOf(s.profile, s.level, s.id, BodyBits(s, rest))
  {
    hide BodyOf;
    hide BodyBits;
    var s5 := BodyBits(s, rest);
    var s4 := UBits(s.level, 8) + (UeBits(s.id) + s5);
    var s3 := UBits(s.reserved, 4) + s4;
    var s2 := UBits(s.constraints, 4) + s3;
    assert Pow2(4) == 16 && Pow2(8) == 256;
    URoundTrip(s.profile, 8, s2);
    URoundTrip(s.constraints, 4, s3);
    URoundTrip(s.reserved, 4, s4);
    URoundTrip(s.level, 8, UeBits(s.id) + s5);
    UeRoundTrip(s.id, s5);
    SmallWraps(s.id);
  }

  lemma SpsReads(s: Sps, rest: Bits)
    requires Fits(s) && s.profile != 135
    ensures SpsOf(SpsBits(s, rest)) ==
      Assemble(s.profile, s.level, s.id, s.log2MaxFrameNumMinus4, PocResult(s.poc), GeometryOf(s))
  {
    hide SpsOf;
    hide SpsBits;
    HeaderReads(s, rest);
    var body := UeBits(s.log2MaxFrameNumMinus4) + PocBits(s.poc, GeometryBits(s, rest));
    assert CarriesHighFields(s.profile) <==> IsHighProfile(s.profile);
    if IsHighProfile(s.profile) {
      HighSkipped(s.high, body);
    }
    UeRoundTrip(s.log2MaxFrameNumMinus4, PocBits(s.poc, GeometryBits(s, rest)));
    PocReads(s.poc, GeometryBits(s, rest));
    GeometryReads(s, rest);
    SmallWraps(s.log2MaxFrameNumMinus4);
  }

  /**
   * Every parameter set written as section 7.3.2.1.1 prescribes, of any profile but 135 and
   * with any bits behind it, is read back field by field; the size comes from the coded
   * size less twice the offsets.
   */
  lemma SpsRoundTrip(s: Sps, rest: Bits)
    requires Fits(s) && s.profile != 135
    ensures var f := SpsOf(SpsBits(s, rest));
      && f.profileIdc == s.profile && f.levelIdc == s.level && f.spsId == s.id
      && f.log2MaxFrameNumMinus4 == s.log2MaxFrameNumMinus4
      && (f.pocType, f.log2MaxPocLsbMinus4) == PocResult(s.poc)
      && f.maxNumRefFrames == s.maxNumRefFrames && f.gapsAllowed == Bit(s.gaps)
      && f.widthInMbsMinus1 == s.widthInMbsMinus1 && f.heightInMapUnitsMinus1 == s.heightInMapUnitsMinus1
      && f.frameMbsOnly == Bit(s.frameMbsOnly) && f.direct8x8 == Bit(s.direct8x8)
      && f.cropping == Bit(s.crop.Some?)
      && (f.cropLeft, f.cropRight, f.cropTop, f.cropBottom) == Offsets(s.crop)
      && f.vui == Bit(s.vui)
      && f.width == Wrap32(CroppedWidth(s, 2)) && f.height == Wrap32(CroppedHeight(s, 2))
  {
    hide SpsOf;
    hide SpsBits;
    SpsReads(s, rest);
    SizesAgree(s);
  }

  // ----- profile 135 -----

  /**
   * For profile 135 the standard writes the high-profile fields and the parser does not
   * expect them: it takes chroma_format_idc for log2_max_frame_num_minus4.
   */
  lemma FrameNumIsChromaFormat(s: Sps, rest: Bits)
    requires Fits(s) && s.profile == 135
    ensures SpsOf(SpsBits(s, rest)).log2MaxFrameNumMinus4 == s.high.chromaFormat
  {
    hide SpsOf;
    hide SpsBits;
    hide ReadPoc;
    hide ReadGeometry;
    HeaderReads(s, rest);
    var body := UeBits(s.log2MaxFrameNumMinus4) + PocBits(s.poc, GeometryBits(s, rest));
    var h := s.high;
    var matrix := match h.matrix case None => [false] + body case Some(lists) => [true] + ListBits(lists, body);
    var depths := UeBits(h.lumaDepth) + (UeBits(h.chromaDepth) + ([h.bypass] + matrix));
    UeRoundTrip(h.chromaFormat, if h.chromaFormat == 3 then [h.separatePlanes] + depths else depths);
    SmallWraps(h.chromaFormat);
  }

  /** The first field behind the header is read back exactly when the profile is not 135 or the two agree. */
  lemma FrameNumReadExactly(s: Sps, rest: Bits)
    requires Fits(s)
    ensures var f := SpsOf(SpsBits(s, rest));
      && f.profileIdc == s.profile && f.levelIdc == s.level && f.spsId == s.id
      && (f.log2MaxFrameNumMinus4 == s.log2MaxFrameNumMinus4 <==>
            s.profile != 135 || s.high.chromaFormat == s.log2MaxFrameNumMinus4)
  {
    hide SpsOf;
    hide SpsBits;
    hide BodyBits;
    HeaderReads(s, rest);
    if s.profile == 135 {
      FrameNumIsChromaFormat(s, rest);
    } else {
      SpsReads(s, rest);
    }
  }

  /** A 4:2:0 set of profile 135 with eight-bit samples, 320 by 240. */
  const PROFILE_135 := Sps(135, 0, 0, 30, 0, High(1, false, 0, 0, false, None), 0, Poc2, 1, false, 19, 14, true, false,
                           true, None, false)

  lemma Profile135Misread(rest: Bits)
    ensures Fits(PROFILE_135) && PROFILE_135.log2MaxFrameNumMinus4 == 0
    ensures SpsOf(SpsBits(PROFILE_135, rest)).log2MaxFrameNumMinus4 == 1
  {
    FrameNumIsChromaFormat(PROFILE_135, rest);
  }

  lemma SizesAgree(s: Sps)
    ensures PictureWidth(GeometryOf(s)) == CroppedWidth(s, 2)
    ensures PictureHeight(GeometryOf(s)) == CroppedHeight(s, 2)
  {
  }

  // ----- the size of the picture -----

  /** Luma samples across and down after cropping, for given crop units per offset step. */
  function CroppedWidth(s: Sps, unit: int): int {
    16 * (s.widthInMbsMinus1 + 1) - unit * (Offsets(s.crop).0 + Offsets(s.crop).1)
  }

  function CroppedHeight(s: Sps, unit: int): int {
    (2 - Bit(s.frameMbsOnly)) * (16 * (s.heightInMapUnitsMinus1 + 1) - unit * (Offsets(s.crop).2 + Offsets(s.crop).3))
  }

  /** ChromaArrayType: 4:2:0 when the set does not say, 0 for planes coded apart. */
  function ChromaArrayType(s: Sps): nat {
    if !CarriesHighFields(s.profile) then 1
    else if s.high.chromaFormat == 3 && s.high.separatePlanes then 0
    else s.high.chromaFormat
  }

  /** CropUnitX, and CropUnitY for a frame, as section 7.4.2.1.1 derives them. */
  function CropUnitX(s: Sps): int {
    if ChromaArrayType(s) == 1 || ChromaArrayType(s) == 2 then 2 else 1
  }

  function CropUnitY(s: Sps): int {
    if ChromaArrayType(s) == 1 then 2 else 1
  }

  /** As tables 6-1 and E-6 have them: 4:2:0 by two and two, 4:2:2 by two and one, else by one. */
  lemma CropUnitTable(s: Sps)
    ensures !CarriesHighFields(s.profile) ==> CropUnitX(s) == 2 && CropUnitY(s) == 2
    ensures CarriesHighFields(s.profile) ==>
      && (s.high.chromaFormat == 0 || s.high.chromaFormat == 3 ==> CropUnitX(s) == 1 && CropUnitY(s) == 1)
      && (s.high.chromaFormat == 1 ==> CropUnitX(s) == 2 && CropUnitY(s) == 2)
      && (s.high.chromaFormat == 2 ==> CropUnitX(s) == 2 && CropUnitY(s) == 1)
  {
  }

  predicate InInt32(v: int) {
    -0x8000_0000 <= v <= 0x7FFF_FFFF
  }

  lemma InRangeWraps(v: int)
    requires InInt32(v)
    ensures Wrap32(v) == v
  {
  }

  /**
   * The parser always takes the 4:2:0 crop units.  The size it reports is the one the
   * standard derives exactly when those are the units, or no samples are cropped where they differ.
   */
  lemma SizeIsStandardExactly(s: Sps, rest: Bits)
    requires Fits(s) && s.profile != 135
    requires InInt32(CroppedWidth(s, 2)) && InInt32(CroppedHeight(s, 2))
    ensures var f := SpsOf(SpsBits(s, rest));
      && (f.width == CroppedWidth(s, CropUnitX(s)) <==> CropUnitX(s) == 2 || Offsets(s.crop).0 + Offsets(s.crop).1 == 0)
      && (f.height == CroppedHeight(s, CropUnitY(s)) <==>
          CropUnitY(s) == 2 || Offsets(s.crop).2 + Offsets(s.crop).3 == 0)
  {
    SpsRoundTrip(s, rest);
    InRangeWraps(CroppedWidth(s, 2));
    InRangeWraps(CroppedHeight(s, 2));
    UnitsMatter(s);
  }

  lemma UnitsMatter(s: Sps)
    ensures CroppedWidth(s, 2) == CroppedWidth(s, CropUnitX(s))
      <==> CropUnitX(s) == 2 || Offsets(s.crop).0 + Offsets(s.crop).1 == 0
    ensures CroppedHeight(s, 2) == CroppedHeight(s, CropUnitY(s))
      <==> CropUnitY(s) == 2 || Offsets(s.crop).2 + Offsets(s.crop).3 == 0
  {
    var c := Offsets(s.crop);
    UnitMatters(1, 16 * (s.widthInMbsMinus1 + 1), CropUnitX(s), c.0 + c.1);
    UnitMatters(2 - Bit(s.frameMbsOnly), 16 * (s.heightInMapUnitsMinus1 + 1), CropUnitY(s), c.2 + c.3);
  }

  lemma UnitMatters(fields: int, size: int, unit: int, offsets: int)
    requires (fields == 1 || fields == 2) && (unit == 1 || unit == 2)
    ensures fields * (size - 2 * offsets) == fields * (size - unit * offsets) <==> unit == 2 || offsets == 0
  {
  }

  // ----- the parser itself -----

  /** `parse_sps`: fails only on an empty payload. */
  method ParseSps(data: Text) returns (ok: bool, sps: SpsFields)
    ensures ok <==> data != []
    ensures ok ==> sps == SpsOf(BitsOf(data))
  {
    sps := EMPTY_SPS;
    if data == [] {
      return false, sps;
    }
    var bs := new Bitstream(data);
    var profile := bs.ReadBits(8);
    var constraints := bs.ReadBits(4);
    var reserved := bs.ReadBits(4);
    var level := bs.ReadBits(8);
    var id := bs.ReadUnsigned();
    if IsHighProfile(profile) {
      ParseHigh(bs);
    }
    var frameNum := bs.ReadUnsigned();
    var pocType, pocLsb := ParsePoc(bs);
    var g := ParseGeometry(bs);
    return true, Assemble(profile, level, Wrap32(id), Wrap32(frameNum), (pocType, pocLsb), g);
  }

  method ParseHigh(bs: Bitstream)
    requires bs.Valid()
    modifies bs
    ensures bs.Valid() && bs.Rest() == SkipHigh(old(bs.Rest()))
  {
    var chroma := bs.ReadUnsigned();
    if chroma == 3 {
      var separate := bs.ReadBit();
    }
    var luma := bs.ReadUnsigned();
    var depth := bs.ReadUnsigned();
    var bypass := bs.ReadBit();
    var matrix := bs.ReadBit();
    if matrix != 0 {
      var count := if chroma != 3 then 8 else 12;
      ghost var s := bs.Rest();
      for i := 0 to count
        invariant bs.Valid()
        invariant SkipScalingLists(bs.Rest(), i, count) == SkipScalingLists(s, 0, count)
      {
        var present := bs.ReadBit();
        if present != 0 {
          ParseScalingList(bs, ListSize(i));
        }
      }
    }
  }

  method ParseScalingList(bs: Bitstream, size: nat)
    requires bs.Valid()
    modifies bs
    ensures bs.Valid() && bs.Rest() == SkipScalingList(old(bs.Rest()), size, 8, 8)
  {
    var last, next := 8, 8;
    ghost var s := bs.Rest();
    for j := 0 to size
      invariant bs.Valid()
      invariant SkipScalingList(bs.Rest(), size - j, last, next) == SkipScalingList(s, size, 8, 8)
    {
      if next != 0 {
        var delta := bs.ReadSigned();
        next := CRemainder(Wrap32(last + delta + 256), 256);
      }
      last := if next == 0 then last else next;
    }
  }

  method ParsePoc(bs: Bitstream) returns (kind: int, lsb: int)
    requires bs.Valid()
    modifies bs
    ensures bs.Valid()
    ensures ReadPoc(old(bs.Rest())) == Read((kind, lsb), bs.Rest())
  {
    var t := bs.ReadUnsigned();
    kind, lsb := Wrap32(t), 0;
    if kind == 0 {
      var v := bs.ReadUnsigned();
      lsb := Wrap32(v);
    } else if kind == 1 {
      var zero := bs.ReadBit();
      var nonRef := bs.ReadSigned();
      var topToBottom := bs.ReadSigned();
      var n := bs.ReadUnsigned();
      var cycle := Wrap32(n);
      ParseOffsets(bs, cycle);
    }
  }

  method ParseOffsets(bs: Bitstream, cycle: int)
    requires bs.Valid()
    modifies bs
    ensures bs.Valid() && bs.Rest() == SkipSigned(old(bs.Rest()), if cycle < 0 then 0 else cycle)
  {
    ghost var s := bs.Rest();
    ghost var n := if cycle < 0 then 0 else cycle;
    var i := 0;
    while i < cycle
      invariant bs.Valid() && 0 <= i <= n
      invariant SkipSigned(s, n) == SkipSigned(bs.Rest(), n - i)
    {
      var offset := bs.ReadSigned();
      i := i + 1;
    }
  }

  method ParseGeometry(bs: Bitstream) returns (g: Geometry)
    requires bs.Valid()
    modifies bs
    ensures bs.Valid() && g == ReadGeometry(old(bs.Rest()))
  {
    var refs := bs.ReadUnsigned();
    var gaps := bs.ReadBit();
    var w := bs.ReadUnsigned();
    var h := bs.ReadUnsigned();
    var frames := bs.ReadBit();
    if frames == 0 {
      var adaptive := bs.ReadBit();
    }
    var direct := bs.ReadBit();
    var cropping := bs.ReadBit();
    var crop := ParseCrop(bs, cropping != 0);
    var vui := bs.ReadBit();
    g := Geometry(Wrap32(refs), gaps, Wrap32(w), Wrap32(h), frames, direct, cropping, crop, vui);
  }

  method ParseCrop(bs: Bitstream, cropping: bool) returns (crop: (int, int, int, int))
    requires bs.Valid()
    modifies bs
    ensures bs.Valid()
    ensures ReadCrop(old(bs.Rest()), cropping) == Read(crop, bs.Rest())
  {
    crop := (0, 0, 0, 0);
    if cropping {
      var l := bs.ReadUnsigned();
      var r := bs.ReadUnsigned();
      var t := bs.ReadUnsigned();
      var b := bs.ReadUnsigned();
      crop := (Wrap32(l), Wrap32(r), Wrap32(t), Wrap32(b));
    }
  }
}
