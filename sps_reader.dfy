/**
 * A reader for seq_parameter_set_data as section 7.3.2.1.1 of ITU-T H.264
 * lays it out, with vui_parameters (Annex E.1.1) and hrd_parameters
 * (Annex E.1.2). It is written from the standard, independently of the
 * packer, and is the partner of H264Params.SpsSyntax: the lemmas at the end
 * state what a decoder reads back from the bits pack_sps writes.
 *
 * Scaling matrices (seq_scaling_matrix_present_flag = 1) are not decoded;
 * the reader stops with None there.
 */
module SpsReader {
  import opened Words
  import opened Bitstream
  import opened H264Params
  import Encoder

  // ---------------------------------------------------------------------------
  // What the reader produces
  // ---------------------------------------------------------------------------

  /** profile_idc up to seq_parameter_set_id. */
  datatype SpsHead = SpsHead(
    profileIdc: nat,
    constraintSet0Flag: nat, constraintSet1Flag: nat, constraintSet2Flag: nat,
    constraintSet3Flag: nat, constraintSet4Flag: nat, constraintSet5Flag: nat,
    reservedZero2Bits: nat,
    levelIdc: nat,
    seqParameterSetId: nat)

  /** The extra fields of the High profiles (scaling lists excluded). */
  datatype ChromaInfo = ChromaInfo(
    chromaFormatIdc: nat, separateColourPlaneFlag: nat,
    bitDepthLumaMinus8: nat, bitDepthChromaMinus8: nat,
    qpprimeYZeroTransformBypassFlag: nat)

  /** The picture order count fields for each pic_order_cnt_type. */
  datatype PocInfo =
    | PocLsb(log2MaxPicOrderCntLsbMinus4: nat)
    | PocCycle(deltaPicOrderAlwaysZeroFlag: nat, offsetForNonRefPic: int,
               offsetForTopToBottomField: int, offsetForRefFrame: seq<int>)
    | PocNone

  /** log2_max_frame_num_minus4 up to frame_cropping_flag. */
  datatype FrameInfo = FrameInfo(
    log2MaxFrameNumMinus4: nat,
    poc: PocInfo,
    maxNumRefFrames: nat,
    gapsInFrameNumValueAllowedFlag: nat,
    picWidthInMbsMinus1: nat,
    picHeightInMapUnitsMinus1: nat,
    frameMbsOnlyFlag: nat,
    mbAdaptiveFrameFieldFlag: Option<nat>,
    direct8x8InferenceFlag: nat,
    frameCroppingFlag: nat)

  datatype Crop = Crop(left: nat, right: nat, top: nat, bottom: nat)

  datatype AspectRatio = AspectRatio(aspectRatioIdc: nat, sar: Option<(nat, nat)>)

  datatype VideoSignal = VideoSignal(videoFormat: nat, videoFullRangeFlag: nat,
                                     colourDescription: Option<(nat, nat, nat)>)

  datatype Timing = Timing(numUnitsInTick: nat, timeScale: nat, fixedFrameRateFlag: nat)

  /** bit_rate_value_minus1, cpb_size_value_minus1 and cbr_flag of one CPB. */
  datatype CpbSpec = CpbSpec(bitRateValueMinus1: nat, cpbSizeValueMinus1: nat, cbrFlag: nat)

  /** hrd_parameters(); cpb_cnt_minus1 is |cpbs| - 1. */
  datatype HrdInfo = HrdInfo(
    bitRateScale: nat, cpbSizeScale: nat, cpbs: seq<CpbSpec>,
    initialCpbRemovalDelayLengthMinus1: nat, cpbRemovalDelayLengthMinus1: nat,
    dpbOutputDelayLengthMinus1: nat, timeOffsetLength: nat)

  /** aspect_ratio_info_present_flag up to the timing block. */
  datatype VuiHead = VuiHead(
    aspectRatio: Option<AspectRatio>,
    overscanAppropriateFlag: Option<nat>,
    videoSignal: Option<VideoSignal>,
    chromaLoc: Option<(nat, nat)>,
    timing: Option<Timing>)

  /** The two HRDs and low_delay_hrd_flag, present when either HRD is. */
  datatype VuiHrdInfo = VuiHrdInfo(nalHrd: Option<HrdInfo>, vclHrd: Option<HrdInfo>,
                                   lowDelayHrdFlag: Option<nat>)

  datatype Restriction = Restriction(
    motionVectorsOverPicBoundariesFlag: nat,
    maxBytesPerPicDenom: nat, maxBitsPerMbDenom: nat,
    log2MaxMvLengthHorizontal: nat, log2MaxMvLengthVertical: nat,
    maxNumReorderFrames: nat, maxDecFrameBuffering: nat)

  datatype VuiTail = VuiTail(picStructPresentFlag: nat, restriction: Option<Restriction>)

  datatype VuiInfo = VuiInfo(head: VuiHead, hrd: VuiHrdInfo, tail: VuiTail)

  datatype SpsInfo = SpsInfo(head: SpsHead, chroma: Option<ChromaInfo>, frame: FrameInfo,
                             cropping: Option<Crop>, vui: Option<VuiInfo>)
  // ---------------------------------------------------------------------------
  // Descriptors
  // ---------------------------------------------------------------------------

  /** The unsigned descriptors of section 7.2: u(n) and ue(v). (se(v) is
      read with ReadSe.) */
  datatype Descriptor = U(n: nat) | Ue

  function ReadDescriptor(d: Descriptor, s: seq<bool>): Option<(nat, seq<bool>)>
  {
    match d
    case U(n) => ReadBits(n, s)
    case Ue => ReadUe(s)
  }

  /** Reads a run of syntax elements, one value per descriptor. */
  function ReadSyntax(ds: seq<Descriptor>, s: seq<bool>): (r: Option<(seq<nat>, seq<bool>)>)
    ensures r.Some? ==> |r.value.0| == |ds|
    decreases |ds|
  {
    if ds == [] then Some(([], s))
    else
      var (v, s1) :- ReadDescriptor(ds[0], s);
      var (vs, s2) :- ReadSyntax(ds[1..], s1);
      Some(([v] + vs, s2))
  }

  // ---------------------------------------------------------------------------
  // The reader
  // ---------------------------------------------------------------------------

  /** A one-bit field present only when `present` holds. */
  function ReadOptionalBit(present: bool, s: seq<bool>): Option<(Option<nat>, seq<bool>)>
  {
    if present then
      var (b, s1) :- ReadBits(1, s);
      Some((Some(b), s1))
    else Some((None, s))
  }

  /** profile_idc, constraint_set0..5_flag, reserved_zero_2bits, level_idc,
      seq_parameter_set_id */
  const SPS_HEAD_SYNTAX: seq<Descriptor> := [U(8), U(1), U(1), U(1), U(1), U(1), U(1), U(2), U(8), Ue]

  function ParseSpsHead(s: seq<bool>): Option<(SpsHead, seq<bool>)>
  {
    var (vs, s1) :- ReadSyntax(SPS_HEAD_SYNTAX, s);
    Some((SpsHead(vs[0], vs[1], vs[2], vs[3], vs[4],
                  vs[5], vs[6], vs[7], vs[8], vs[9]), s1))
  }

  /** The profile_idc values for which chroma_format_idc and the bit depths
      follow seq_parameter_set_id. */
  predicate HasChromaInfo(profileIdc: nat)
  {
    profileIdc in {100, 110, 122, 244, 44, 83, 86, 118, 128, 138, 139, 134, 135}
  }

  /** bit_depth_luma_minus8, bit_depth_chroma_minus8,
      qpprime_y_zero_transform_bypass_flag, seq_scaling_matrix_present_flag */
  const CHROMA_TAIL_SYNTAX: seq<Descriptor> := [Ue, Ue, U(1), U(1)]

  function ParseChroma(s: seq<bool>): Option<(ChromaInfo, seq<bool>)>
  {
    var (chromaFormatIdc, s1) :- ReadDescriptor(Ue, s);
    var (separate, s2) :- if chromaFormatIdc == 3 then ReadDescriptor(U(1), s1) else Some((0, s1));
    var (vs, s3) :- ReadSyntax(CHROMA_TAIL_SYNTAX, s2);
    if vs[3] == 1 then None
    else Some((ChromaInfo(chromaFormatIdc, separate, vs[0], vs[1], vs[2]), s3))
  }

  function ParseOptionalChroma(present: bool, s: seq<bool>): Option<(Option<ChromaInfo>, seq<bool>)>
  {
    if present then
      var (c, s1) :- ParseChroma(s);
      Some((Some(c), s1))
    else Some((None, s))
  }

  /** offset_for_ref_frame[0..n) */
  function ParseSeList(n: nat, s: seq<bool>): Option<(seq<int>, seq<bool>)>
  {
    if n == 0 then Some(([], s))
    else
      var (v, s1) :- ReadSe(s);
      var (vs, s2) :- ParseSeList(n - 1, s1);
      Some(([v] + vs, s2))
  }

  /** pic_order_cnt_type and what it governs; types above 2 are invalid. */
  function ParsePoc(s: seq<bool>): Option<(PocInfo, seq<bool>)>
  {
    var (pocType, s1) :- ReadDescriptor(Ue, s);
    if pocType == 0 then
      var (lsb, s2) :- ReadDescriptor(Ue, s1);
      Some((PocLsb(lsb), s2))
    else if pocType == 1 then
      var (alwaysZero, s2) :- ReadDescriptor(U(1), s1);
      var (nonRef, s3) :- ReadSe(s2);
      var (topToBottom, s4) :- ReadSe(s3);
      var (cycle, s5) :- ReadDescriptor(Ue, s4);
      var (offsets, s6) :- ParseSeList(cycle, s5);
      Some((PocCycle(alwaysZero, nonRef, topToBottom, offsets), s6))
    else if pocType == 2 then Some((PocNone, s1))
    else None
  }

  /** max_num_ref_frames, gaps_in_frame_num_value_allowed_flag,
      pic_width_in_mbs_minus1, pic_height_in_map_units_minus1, frame_mbs_only_flag */
  const FRAME_SIZE_SYNTAX: seq<Descriptor> := [Ue, U(1), Ue, Ue, U(1)]

  /** direct_8x8_inference_flag, frame_cropping_flag */
  const FRAME_TAIL_SYNTAX: seq<Descriptor> := [U(1), U(1)]

  function ParseFrameInfo(s: seq<bool>): Option<(FrameInfo, seq<bool>)>
  {
    var (log2MaxFrameNum, s1) :- ReadDescriptor(Ue, s);
    var (poc, s2) :- ParsePoc(s1);
    var (vs, s3) :- ReadSyntax(FRAME_SIZE_SYNTAX, s2);
    var (mbaff, s4) :- ReadOptionalBit(vs[4] == 0, s3);
    var (ws, s5) :- ReadSyntax(FRAME_TAIL_SYNTAX, s4);
    Some((FrameInfo(log2MaxFrameNum, poc, vs[0], vs[1], vs[2], vs[3],
                    vs[4], mbaff, ws[0], ws[1]), s5))
  }

  /** frame_crop_left/right/top/bottom_offset */
  const CROP_SYNTAX: seq<Descriptor> := [Ue, Ue, Ue, Ue]

  /** The four crop offsets, present when frame_cropping_flag is 1. */
  function ParseCrop(cropFlag: nat, s: seq<bool>): Option<(Option<Crop>, seq<bool>)>
  {
    if cropFlag == 1 then
      var (vs, s1) :- ReadSyntax(CROP_SYNTAX, s);
      Some((Some(Crop(vs[0], vs[1], vs[2], vs[3])), s1))
    else Some((None, s))
  }

  /** cpb_cnt_minus1, bit_rate_scale, cpb_size_scale */
  const HRD_HEAD_SYNTAX: seq<Descriptor> := [Ue, U(4), U(4)]

  /** bit_rate_value_minus1, cpb_size_value_minus1, cbr_flag of one CPB */
  const CPB_SYNTAX: seq<Descriptor> := [Ue, Ue, U(1)]

  /** initial_cpb_removal_delay_length_minus1, cpb_removal_delay_length_minus1,
      dpb_output_delay_length_minus1, time_offset_length */
  const HRD_TAIL_SYNTAX: seq<Descriptor> := [U(5), U(5), U(5), U(5)]

  function ParseCpbSpecs(n: nat, s: seq<bool>): Option<(seq<CpbSpec>, seq<bool>)>
  {
    if n == 0 then Some(([], s))
    else
      var (vs, s1) :- ReadSyntax(CPB_SYNTAX, s);
      var (more, s2) :- ParseCpbSpecs(n - 1, s1);
      Some(([CpbSpec(vs[0], vs[1], vs[2])] + more, s2))
  }

  function ParseHrd(s: seq<bool>): Option<(HrdInfo, seq<bool>)>
  {
    var (hs, s1) :- ReadSyntax(HRD_HEAD_SYNTAX, s);
    var (cpbs, s2) :- ParseCpbSpecs(hs[0] + 1, s1);
    var (ts, s3) :- ReadSyntax(HRD_TAIL_SYNTAX, s2);
    Some((HrdInfo(hs[1], hs[2], cpbs, ts[0], ts[1], ts[2], ts[3]), s3))
  }

  function ParseOptionalHrd(present: bool, s: seq<bool>): Option<(Option<HrdInfo>, seq<bool>)>
  {
    if present then
      var (h, s1) :- ParseHrd(s);
      Some((Some(h), s1))
    else Some((None, s))
  }

  /** Extended_SAR */
  const EXTENDED_SAR: nat := 255

  /** aspect_ratio_idc, with sar_width and sar_height for Extended_SAR. */
  function ParseAspectRatio(present: int, s: seq<bool>): Option<(Option<AspectRatio>, seq<bool>)>
  {
    if present == 1 then
      var (idc, s1) :- ReadBits(8, s);
      if idc == EXTENDED_SAR then
        var (sar, s2) :- ReadSyntax([U(16), U(16)], s1);
        Some((Some(AspectRatio(idc, Some((sar[0], sar[1])))), s2))
      else Some((Some(AspectRatio(idc, None)), s1))
    else Some((None, s))
  }

  /** video_format, video_full_range_flag, colour_description_present_flag */
  const VIDEO_SIGNAL_SYNTAX: seq<Descriptor> := [U(3), U(1), U(1)]

  /** colour_primaries, transfer_characteristics, matrix_coefficients */
  const COLOUR_SYNTAX: seq<Descriptor> := [U(8), U(8), U(8)]

  function ParseVideoSignal(present: int, s: seq<bool>): Option<(Option<VideoSignal>, seq<bool>)>
  {
    if present == 1 then
      var (vs, s1) :- ReadSyntax(VIDEO_SIGNAL_SYNTAX, s);
      if vs[2] == 1 then
        var (cs, s2) :- ReadSyntax(COLOUR_SYNTAX, s1);
        Some((Some(VideoSignal(vs[0], vs[1], Some((cs[0], cs[1], cs[2])))), s2))
      else Some((Some(VideoSignal(vs[0], vs[1], None)), s1))
    else Some((None, s))
  }

  /** chroma_sample_loc_type_top_field and _bottom_field */
  function ParseChromaLoc(present: int, s: seq<bool>): Option<(Option<(nat, nat)>, seq<bool>)>
  {
    if present == 1 then
      var (vs, s1) :- ReadSyntax([Ue, Ue], s);
      Some((Some((vs[0], vs[1])), s1))
    else Some((None, s))
  }

  /** num_units_in_tick, time_scale, fixed_frame_rate_flag */
  const TIMING_SYNTAX: seq<Descriptor> := [U(32), U(32), U(1)]

  function ParseTiming(present: int, s: seq<bool>): Option<(Option<Timing>, seq<bool>)>
  {
    if present == 1 then
      var (vs, s1) :- ReadSyntax(TIMING_SYNTAX, s);
      Some((Some(Timing(vs[0], vs[1], vs[2])), s1))
    else Some((None, s))
  }

  function ParseVuiHead(s: seq<bool>): Option<(VuiHead, seq<bool>)>
  {
    var (aspectFlag, s1) :- ReadDescriptor(U(1), s);
    var (aspect, s2) :- ParseAspectRatio(aspectFlag, s1);
    var (overscanFlag, s3) :- ReadDescriptor(U(1), s2);
    var (overscan, s4) :- ReadOptionalBit(overscanFlag == 1, s3);
    var (signalFlag, s5) :- ReadDescriptor(U(1), s4);
    var (signal, s6) :- ParseVideoSignal(signalFlag, s5);
    var (chromaLocFlag, s7) :- ReadDescriptor(U(1), s6);
    var (chromaLoc, s8) :- ParseChromaLoc(chromaLocFlag, s7);
    var (timingFlag, s9) :- ReadDescriptor(U(1), s8);
    var (timing, s10) :- ParseTiming(timingFlag, s9);
    Some((VuiHead(aspect, overscan, signal, chromaLoc, timing), s10))
  }

  function ParseVuiHrd(s: seq<bool>): Option<(VuiHrdInfo, seq<bool>)>
  {
    var (nalFlag, s1) :- ReadDescriptor(U(1), s);
    var (nal, s2) :- ParseOptionalHrd(nalFlag == 1, s1);
    var (vclFlag, s3) :- ReadDescriptor(U(1), s2);
    var (vcl, s4) :- ParseOptionalHrd(vclFlag == 1, s3);
    var (lowDelay, s5) :- ReadOptionalBit(nalFlag == 1 || vclFlag == 1, s4);
    Some((VuiHrdInfo(nal, vcl, lowDelay), s5))
  }

  /** motion_vectors_over_pic_boundaries_flag, max_bytes_per_pic_denom,
      max_bits_per_mb_denom, log2_max_mv_length_horizontal and _vertical,
      max_num_reorder_frames, max_dec_frame_buffering */
  const RESTRICTION_SYNTAX: seq<Descriptor> := [U(1), Ue, Ue, Ue, Ue, Ue, Ue]

  function ParseRestriction(present: int, s: seq<bool>): Option<(Option<Restriction>, seq<bool>)>
  {
    if present == 1 then
      var (vs, s1) :- ReadSyntax(RESTRICTION_SYNTAX, s);
      Some((Some(Restriction(vs[0], vs[1], vs[2], vs[3],
                             vs[4], vs[5], vs[6])), s1))
    else Some((None, s))
  }

  function ParseVuiTail(s: seq<bool>): Option<(VuiTail, seq<bool>)>
  {
    var (picStruct, s1) :- ReadDescriptor(U(1), s);
    var (restrictionFlag, s2) :- ReadDescriptor(U(1), s1);
    var (restriction, s3) :- ParseRestriction(restrictionFlag, s2);
    Some((VuiTail(picStruct, restriction), s3))
  }

  /** vui_parameters_present_flag and, when it is 1, vui_parameters(). */
  function ParseVuiBlock(s: seq<bool>): Option<(Option<VuiInfo>, seq<bool>)>
  {
    var (present, s1) :- ReadDescriptor(U(1), s);
    if present == 1 then
      var (head, s2) :- ParseVuiHead(s1);
      var (hrd, s3) :- ParseVuiHrd(s2);
      var (tail, s4) :- ParseVuiTail(s3);
      Some((Some(VuiInfo(head, hrd, tail)), s4))
    else Some((None, s1))
  }

  /** seq_parameter_set_data(); the rest of the input is returned unread. */
  function ParseSps(s: seq<bool>): Option<(SpsInfo, seq<bool>)>
  {
    var (head, s1) :- ParseSpsHead(s);
    var (chroma, s2) :- ParseOptionalChroma(HasChromaInfo(head.profileIdc), s1);
    var (frame, s3) :- ParseFrameInfo(s2);
    var (cropping, s4) :- ParseCrop(frame.frameCroppingFlag, s3);
    var (vui, s5) :- ParseVuiBlock(s4);
    Some((SpsInfo(head, chroma, frame, cropping, vui), s5))
  }

  // ---------------------------------------------------------------------------
  // Reading back what the packer writes
  // ---------------------------------------------------------------------------

  /** The descriptor a written element is read with. */
  function DescriptorOf(e: Element): Descriptor
  {
    match e
    case Field(n, _) => U(n)
    case UeField(_) => Ue
    case SeField(_) => Ue
  }

  /** The value a reader obtains for a written element: a fixed-width field
      loses the bits above its width, and an se(v) element read as ue(v)
      yields its code number (section 9.1.1). */
  function ValueRead(e: Element): nat
  {
    match e
    case Field(n, v) => v % Pow2(n)
    case UeField(v) => v
    case SeField(v) => SeCode(v)
  }

  function DescriptorsOf(es: seq<Element>): (ds: seq<Descriptor>)
    ensures |ds| == |es|
  {
    seq(|es|, i requires 0 <= i < |es| => DescriptorOf(es[i]))
  }

  function ValuesRead(es: seq<Element>): (vs: seq<nat>)
    ensures |vs| == |es|
  {
    seq(|es|, i requires 0 <= i < |es| => ValueRead(es[i]))
  }

  lemma ReadElement(e: Element, rest: seq<bool>)
    ensures ReadDescriptor(DescriptorOf(e), ElementBits(e) + rest) == Some((ValueRead(e), rest))
  {
    match e
    case Field(n, v) => ReadBitsRoundTrip(n, v, rest);
    case UeField(v) => UeRoundTrip(v, rest);
    case SeField(v) => UeRoundTrip(SeCode(v), rest);
  }

  lemma EncodeCons(es: seq<Element>)
    requires es != []
    ensures Encode(es) == ElementBits(es[0]) + Encode(es[1..])
  {
    assert es == [es[0]] + es[1..];
    EncodeAppend([es[0]], es[1..]);
    EncodeSnoc([], es[0]);
    assert [] + [es[0]] == [es[0]];
  }

  /** Any run of written elements reads back, element by element, as the
      values written, and the reader stops exactly at their end. */
  lemma {:induction false} ReadSyntaxOfEncode(es: seq<Element>, rest: seq<bool>)
    ensures ReadSyntax(DescriptorsOf(es), Encode(es) + rest) == Some((ValuesRead(es), rest))
    decreases |es|
  {
    if es == [] {
      assert DescriptorsOf(es) == [] && ValuesRead(es) == [];
      assert Encode(es) + rest == rest;
    } else {
      var after := Encode(es[1..]) + rest;
      EncodeCons(es);
      assert Encode(es) + rest == ElementBits(es[0]) + after;
      ReadElement(es[0], after);
      ReadSyntaxOfEncode(es[1..], rest);
      DescriptorsCons(es);
      ReadSyntaxCons(DescriptorsOf(es), Encode(es) + rest, ValueRead(es[0]), after,
                     ValuesRead(es[1..]), rest);
    }
  }

  lemma DescriptorsCons(es: seq<Element>)
    requires es != []
    ensures DescriptorsOf(es) != [] && DescriptorsOf(es)[0] == DescriptorOf(es[0])
    ensures DescriptorsOf(es)[1..] == DescriptorsOf(es[1..])
    ensures ValuesRead(es) == [ValueRead(es[0])] + ValuesRead(es[1..])
  {
    assert DescriptorsOf(es)[1..] == DescriptorsOf(es[1..]);
    assert ValuesRead(es) == [ValueRead(es[0])] + ValuesRead(es[1..]);
  }

  lemma ReadSyntaxCons(ds: seq<Descriptor>, s: seq<bool>, v: nat, s1: seq<bool>, vs: seq<nat>, s2: seq<bool>)
    requires ds != [] && ReadDescriptor(ds[0], s) == Some((v, s1))
    requires ReadSyntax(ds[1..], s1) == Some((vs, s2))
    ensures ReadSyntax(ds, s) == Some(([v] + vs, s2))
  {
  }

  /** Encode(a + b) + rest, regrouped for reading a and then b. */
  lemma EncodeThen(a: seq<Element>, b: seq<Element>, rest: seq<bool>)
    ensures Encode(a + b) + rest == Encode(a) + (Encode(b) + rest)
  {
    EncodeAppend(a, b);
  }

  lemma Ends(es: seq<Element>, rest: seq<bool>)
    ensures Encode(es[0..]) + rest == Encode(es) + rest
    ensures Encode(es[|es|..]) + rest == rest
  {
    assert es[0..] == es;
    assert es[|es|..] == [];
  }

  /** The element at position i of a written run, read with its descriptor d. */
  lemma ReadAt(es: seq<Element>, i: nat, d: Descriptor, rest: seq<bool>)
    requires i < |es| && DescriptorOf(es[i]) == d
    ensures ReadDescriptor(d, Encode(es[i..]) + rest)
            == Some((ValueRead(es[i]), Encode(es[i + 1..]) + rest))
  {
    EncodeCons(es[i..]);
    assert es[i..][0] == es[i] && es[i..][1..] == es[i + 1..];
    assert Encode(es[i..]) + rest == ElementBits(es[i]) + (Encode(es[i + 1..]) + rest);
    ReadElement(es[i], Encode(es[i + 1..]) + rest);
  }

  /** The elements at positions i up to j of a written run, read with their
      descriptors ds. */
  lemma ReadRun(es: seq<Element>, i: nat, j: nat, ds: seq<Descriptor>, rest: seq<bool>)
    requires i <= j <= |es| && DescriptorsOf(es[i..j]) == ds
    ensures ReadSyntax(ds, Encode(es[i..]) + rest)
            == Some((ValuesRead(es[i..j]), Encode(es[j..]) + rest))
  {
    assert es[i..] == es[i..j] + es[j..];
    EncodeThen(es[i..j], es[j..], rest);
    ReadSyntaxOfEncode(es[i..j], Encode(es[j..]) + rest);
  }

  /** A single written element. */
  lemma ReadOne(e: Element, rest: seq<bool>)
    ensures ReadDescriptor(DescriptorOf(e), Encode([e]) + rest) == Some((ValueRead(e), rest))
  {
    EncodeCons([e]);
    assert [e][1..] == [];
    assert Encode([e]) + rest == ElementBits(e) + rest;
    ReadElement(e, rest);
  }

  /** A field whose value fits its width is read back unchanged. */
  lemma FieldRead(n: nat, v: nat)
    requires v < Pow2(n)
    ensures ValueRead(Field(n, v)) == v
  {
    ModUnique(v, Pow2(n), 0, v);
  }

  function Bit(b: bool): nat
  {
    if b then 1 else 0
  }

  lemma FlagRead(b: bool)
    ensures Flag(b) == Field(1, Bit(b)) && ValueRead(Flag(b)) == Bit(b)
  {
    SmallPow2();
    FieldRead(1, Bit(b));
  }

  // ---------------------------------------------------------------------------
  // Block by block
  // ---------------------------------------------------------------------------

  lemma SpsHeadDescriptors(p: ProfileCoding, sps: Sps)
    ensures DescriptorsOf(SpsHeader(p, sps)) == SPS_HEAD_SYNTAX
  {
    var ds := DescriptorsOf(SpsHeader(p, sps));
    assert ds[0] == U(8) && ds[1] == U(1) && ds[2] == U(1) && ds[3] == U(1) && ds[4] == U(1);
    assert ds[5] == U(1) && ds[6] == U(1) && ds[7] == U(2) && ds[8] == U(8) && ds[9] == Ue;
  }

  lemma SpsHeadValues(p: ProfileCoding, sps: Sps)
    requires p.profileIdc < 256
    ensures var vs := ValuesRead(SpsHeader(p, sps));
      && vs[0] == p.profileIdc && vs[1] == Bit(p.constraintSet0) && vs[2] == Bit(p.constraintSet1)
      && vs[3] == 0 && vs[4] == 0 && vs[5] == 0 && vs[6] == 0 && vs[7] == 0
      && vs[8] == sps.levelIdc && vs[9] == sps.seqParameterSetId
  {
    var vs := ValuesRead(SpsHeader(p, sps));
    SmallPow2();
    FieldRead(8, p.profileIdc);
    assert vs[0] == p.profileIdc;
    FlagRead(p.constraintSet0);
    FlagRead(p.constraintSet1);
    FlagRead(false);
    assert vs[1] == Bit(p.constraintSet0) && vs[2] == Bit(p.constraintSet1);
    assert vs[3] == 0 && vs[4] == 0 && vs[5] == 0 && vs[6] == 0;
    FieldRead(2, 0);
    assert vs[7] == 0;
    FieldRead(8, sps.levelIdc);
    assert vs[8] == sps.levelIdc;
  }

  /** The header the packer writes, as a decoder reads it: the profile and
      its two constraint flags, the other constraint flags and the reserved
      bits 0, the level and the SPS id. */
  function WrittenHead(p: ProfileCoding, sps: Sps): SpsHead
  {
    SpsHead(p.profileIdc, Bit(p.constraintSet0), Bit(p.constraintSet1),
            0, 0, 0, 0, 0, sps.levelIdc, sps.seqParameterSetId)
  }

  /** The frame fields the packer writes, as a decoder reads them: the two
      picture sizes less one in uint32_t, no gaps in frame_num, frames only. */
  function WrittenFrame(sps: Sps): FrameInfo
  {
    FrameInfo(sps.log2MaxFrameNumMinus4, PocLsb(sps.log2MaxPicOrderCntLsbMinus4),
              sps.maxNumRefFrames, 0,
              Wrap32(sps.pictureWidthInMbs - 1), Wrap32(sps.pictureHeightInMbs - 1),
              1, None, sps.direct8x8InferenceFlag, sps.frameCroppingFlag)
  }

  /** The crop offsets, present exactly when frame_cropping_flag is 1. */
  function WrittenCrop(sps: Sps): Option<Crop>
  {
    if sps.frameCroppingFlag == 1
    then Some(Crop(sps.frameCropLeftOffset, sps.frameCropRightOffset,
                   sps.frameCropTopOffset, sps.frameCropBottomOffset))
    else None
  }

  /** profile_idc up to seq_parameter_set_id read back. */
  lemma SpsHeadOf(p: ProfileCoding, sps: Sps, rest: seq<bool>)
    requires p.profileIdc < 256
    ensures ParseSpsHead(Encode(SpsHeader(p, sps)) + rest)
            == Some((WrittenHead(p, sps), rest))
  {
    ReadSyntaxOfEncode(SpsHeader(p, sps), rest);
    SpsHeadDescriptors(p, sps);
    SpsHeadValues(p, sps);
  }

  lemma FrameFieldsDescriptors(sps: Sps)
    ensures var es := SpsFrameFields(sps);
      && DescriptorOf(es[0]) == Ue && DescriptorOf(es[1]) == Ue && DescriptorOf(es[2]) == Ue
      && DescriptorsOf(es[3..8]) == FRAME_SIZE_SYNTAX && DescriptorsOf(es[8..10]) == FRAME_TAIL_SYNTAX
  {
    var es := SpsFrameFields(sps);
    var ds := DescriptorsOf(es[3..8]);
    assert ds[0] == Ue && ds[1] == U(1) && ds[2] == Ue && ds[3] == Ue && ds[4] == U(1);
    var ts := DescriptorsOf(es[8..10]);
    assert ts[0] == U(1) && ts[1] == U(1);
  }

  lemma FrameFieldsValues(sps: Sps)
    requires sps.frameMbsOnlyFlag == 1
    requires sps.direct8x8InferenceFlag < 2 && sps.frameCroppingFlag < 2
    ensures var es := SpsFrameFields(sps);
      && ValueRead(es[0]) == sps.log2MaxFrameNumMinus4
      && ValueRead(es[1]) == sps.picOrderCntType
      && ValueRead(es[2]) == sps.log2MaxPicOrderCntLsbMinus4
      && var vs := ValuesRead(es[3..8]);
      && vs[0] == sps.maxNumRefFrames && vs[1] == 0
      && vs[2] == Wrap32(sps.pictureWidthInMbs - 1) && vs[3] == Wrap32(sps.pictureHeightInMbs - 1)
      && vs[4] == 1
      && var ts := ValuesRead(es[8..10]);
      && ts[0] == sps.direct8x8InferenceFlag && ts[1] == sps.frameCroppingFlag
  {
    var es := SpsFrameFields(sps);
    SmallPow2();
    FieldRead(1, 0);
    FieldRead(1, 1);
    var vs := ValuesRead(es[3..8]);
    assert vs[1] == 0 && vs[4] == 1;
    FieldRead(1, sps.direct8x8InferenceFlag);
    FieldRead(1, sps.frameCroppingFlag);
    var ts := ValuesRead(es[8..10]);
    assert ts[0] == sps.direct8x8InferenceFlag;
  }

  /** ParseFrameInfo over the runs already read, for pic_order_cnt_type 0 and
      frame_mbs_only_flag 1. */
  lemma FrameSteps(s0: seq<bool>, s1: seq<bool>, s2: seq<bool>, s3: seq<bool>, s4: seq<bool>, s5: seq<bool>,
                   log2MaxFrameNum: nat, lsb: nat, vs: seq<nat>, ts: seq<nat>)
    requires ReadDescriptor(Ue, s0) == Some((log2MaxFrameNum, s1))
    requires ReadDescriptor(Ue, s1) == Some((0, s2))
    requires ReadDescriptor(Ue, s2) == Some((lsb, s3))
    requires ReadSyntax(FRAME_SIZE_SYNTAX, s3) == Some((vs, s4)) && vs[4] == 1
    requires ReadSyntax(FRAME_TAIL_SYNTAX, s4) == Some((ts, s5))
    ensures ParseFrameInfo(s0)
            == Some((FrameInfo(log2MaxFrameNum, PocLsb(lsb), vs[0], vs[1], vs[2], vs[3], 1, None, ts[0], ts[1]), s5))
  {
    assert ParsePoc(s1) == Some((PocLsb(lsb), s3));
  }

  /** Ten elements laid out as pack_sps writes the frame fields. */
  lemma FrameRuns(es: seq<Element>, rest: seq<bool>)
    requires |es| == 10
    requires DescriptorOf(es[0]) == Ue && DescriptorOf(es[1]) == Ue && DescriptorOf(es[2]) == Ue
    requires DescriptorsOf(es[3..8]) == FRAME_SIZE_SYNTAX && DescriptorsOf(es[8..10]) == FRAME_TAIL_SYNTAX
    requires ValueRead(es[1]) == 0 && ValuesRead(es[3..8])[4] == 1
    ensures var vs, ts := ValuesRead(es[3..8]), ValuesRead(es[8..10]);
      ParseFrameInfo(Encode(es) + rest)
      == Some((FrameInfo(ValueRead(es[0]), PocLsb(ValueRead(es[2])), vs[0], vs[1], vs[2], vs[3],
                         1, None, ts[0], ts[1]), rest))
  {
    var s1, s2, s3 := Encode(es[1..]) + rest, Encode(es[2..]) + rest, Encode(es[3..]) + rest;
    var s4 := Encode(es[8..]) + rest;
    assert ReadDescriptor(Ue, Encode(es) + rest) == Some((ValueRead(es[0]), s1)) by {
      Ends(es, rest);
      ReadAt(es, 0, Ue, rest);
    }
    assert ReadDescriptor(Ue, s1) == Some((ValueRead(es[1]), s2)) by {
      ReadAt(es, 1, Ue, rest);
    }
    assert ReadDescriptor(Ue, s2) == Some((ValueRead(es[2]), s3)) by {
      ReadAt(es, 2, Ue, rest);
    }
    assert ReadSyntax(FRAME_SIZE_SYNTAX, s3) == Some((ValuesRead(es[3..8]), s4)) by {
      ReadRun(es, 3, 8, FRAME_SIZE_SYNTAX, rest);
    }
    assert ReadSyntax(FRAME_TAIL_SYNTAX, s4) == Some((ValuesRead(es[8..10]), rest)) by {
      Ends(es, rest);
      ReadRun(es, 8, 10, FRAME_TAIL_SYNTAX, rest);
    }
    FrameSteps(Encode(es) + rest, s1, s2, s3, s4, rest, ValueRead(es[0]), ValueRead(es[2]),
               ValuesRead(es[3..8]), ValuesRead(es[8..10]));
  }

  /** log2_max_frame_num_minus4 up to frame_cropping_flag read back, for
      pic_order_cnt_type 0 and frame_mbs_only_flag 1. */
  lemma FrameInfoOf(sps: Sps, rest: seq<bool>)
    requires sps.picOrderCntType == 0 && sps.frameMbsOnlyFlag == 1
    requires sps.direct8x8InferenceFlag < 2 && sps.frameCroppingFlag < 2
    ensures ParseFrameInfo(Encode(SpsFrameFields(sps)) + rest)
            == Some((WrittenFrame(sps), rest))
  {
    var es := SpsFrameFields(sps);
    FrameFieldsDescriptors(sps);
    FrameInfoOfValues(sps);
    FrameRuns(es, rest);
  }

  /** The frame fields' values, gathered as ParseFrameInfo returns them. */
  lemma FrameInfoOfValues(sps: Sps)
    requires sps.picOrderCntType == 0 && sps.frameMbsOnlyFlag == 1
    requires sps.direct8x8InferenceFlag < 2 && sps.frameCroppingFlag < 2
    ensures var es := SpsFrameFields(sps);
      var vs, ts := ValuesRead(es[3..8]), ValuesRead(es[8..10]);
      && ValueRead(es[1]) == 0 && vs[4] == 1
      && FrameInfo(ValueRead(es[0]), PocLsb(ValueRead(es[2])), vs[0], vs[1], vs[2], vs[3], 1, None, ts[0], ts[1])
         == WrittenFrame(sps)
  {
    FrameFieldsValues(sps);
  }

  /** The crop offsets read back exactly when frame_cropping_flag is set. */
  lemma CropOf(sps: Sps, rest: seq<bool>)
    requires sps.frameCroppingFlag < 2
    ensures ParseCrop(sps.frameCroppingFlag, Encode(SpsCropping(sps)) + rest)
            == Some((WrittenCrop(sps), rest))
  {
    var es := SpsCropping(sps);
    if sps.frameCroppingFlag == 1 {
      ReadSyntaxOfEncode(es, rest);
      var ds := DescriptorsOf(es);
      assert ds[0] == Ue && ds[1] == Ue && ds[2] == Ue && ds[3] == Ue;
      assert ds == CROP_SYNTAX;
    } else {
      assert Encode(es) + rest == rest;
    }
  }

  /** The HRD the packer writes: one CPB with the encoder's rate and size. */
  function WrittenHrd(bitrateBits: u32, cbpSize: u32, cbr: bool): HrdInfo
  {
    HrdInfo(0, 0, [CpbSpec(BitRateValueMinus1(bitrateBits), CpbSizeValueMinus1(cbpSize), Bit(cbr))],
            HRD_LENGTH_MINUS1, HRD_LENGTH_MINUS1, HRD_LENGTH_MINUS1, HRD_LENGTH_MINUS1)
  }

  lemma HrdDescriptors(bitrateBits: u32, cbpSize: u32, cbr: bool)
    ensures var es := HrdParameters(bitrateBits, cbpSize, cbr);
      && DescriptorsOf(es[0..3]) == HRD_HEAD_SYNTAX
      && DescriptorsOf(es[3..6]) == CPB_SYNTAX
      && DescriptorsOf(es[6..10]) == HRD_TAIL_SYNTAX
  {
    var es := HrdParameters(bitrateBits, cbpSize, cbr);
    var hs := DescriptorsOf(es[0..3]);
    assert hs[0] == Ue && hs[1] == U(4) && hs[2] == U(4);
    var cs := DescriptorsOf(es[3..6]);
    assert cs[0] == Ue && cs[1] == Ue && cs[2] == U(1);
    var ts := DescriptorsOf(es[6..10]);
    assert ts[0] == U(5) && ts[1] == U(5) && ts[2] == U(5) && ts[3] == U(5);
  }

  lemma HrdValues(bitrateBits: u32, cbpSize: u32, cbr: bool)
    ensures var es := HrdParameters(bitrateBits, cbpSize, cbr);
      && var hs := ValuesRead(es[0..3]);
      && hs[0] == 0 && hs[1] == 0 && hs[2] == 0
      && var cs := ValuesRead(es[3..6]);
      && cs[0] == BitRateValueMinus1(bitrateBits) && cs[1] == CpbSizeValueMinus1(cbpSize) && cs[2] == Bit(cbr)
      && var ts := ValuesRead(es[6..10]);
      && ts[0] == HRD_LENGTH_MINUS1 && ts[1] == HRD_LENGTH_MINUS1
      && ts[2] == HRD_LENGTH_MINUS1 && ts[3] == HRD_LENGTH_MINUS1
  {
    var es := HrdParameters(bitrateBits, cbpSize, cbr);
    SmallPow2();
    FieldRead(4, 0);
    var hs := ValuesRead(es[0..3]);
    assert hs[1] == 0 && hs[2] == 0;
    FlagRead(cbr);
    var cs := ValuesRead(es[3..6]);
    assert cs[2] == Bit(cbr);
    FieldRead(5, HRD_LENGTH_MINUS1);
    var ts := ValuesRead(es[6..10]);
    assert ts[0] == HRD_LENGTH_MINUS1 && ts[1] == HRD_LENGTH_MINUS1;
    assert ts[2] == HRD_LENGTH_MINUS1 && ts[3] == HRD_LENGTH_MINUS1;
  }

  /** ParseHrd over three runs already read. */
  lemma HrdSteps(s0: seq<bool>, s1: seq<bool>, s2: seq<bool>, s3: seq<bool>,
                 hs: seq<nat>, cs: seq<nat>, ts: seq<nat>)
    requires ReadSyntax(HRD_HEAD_SYNTAX, s0) == Some((hs, s1)) && hs[0] == 0
    requires ReadSyntax(CPB_SYNTAX, s1) == Some((cs, s2))
    requires ReadSyntax(HRD_TAIL_SYNTAX, s2) == Some((ts, s3))
    ensures ParseHrd(s0) == Some((HrdInfo(hs[1], hs[2], [CpbSpec(cs[0], cs[1], cs[2])],
                                          ts[0], ts[1], ts[2], ts[3]), s3))
  {
    var cpb := CpbSpec(cs[0], cs[1], cs[2]);
    assert ParseCpbSpecs(0, s2) == Some(([], s2));
    assert [cpb] + [] == [cpb];
    assert ParseCpbSpecs(1, s1) == Some(([cpb], s2));
  }

  /** hrd_parameters() read back: one CPB, the scales 0, the lengths 23. */
  lemma HrdOf(bitrateBits: u32, cbpSize: u32, cbr: bool, rest: seq<bool>)
    ensures ParseHrd(Encode(HrdParameters(bitrateBits, cbpSize, cbr)) + rest)
            == Some((WrittenHrd(bitrateBits, cbpSize, cbr), rest))
  {
    var es := HrdParameters(bitrateBits, cbpSize, cbr);
    HrdDescriptors(bitrateBits, cbpSize, cbr);
    Ends(es, rest);
    ReadRun(es, 0, 3, HRD_HEAD_SYNTAX, rest);
    ReadRun(es, 3, 6, CPB_SYNTAX, rest);
    ReadRun(es, 6, 10, HRD_TAIL_SYNTAX, rest);
    HrdValues(bitrateBits, cbpSize, cbr);
    HrdSteps(Encode(es) + rest, Encode(es[3..]) + rest, Encode(es[6..]) + rest, rest,
             ValuesRead(es[0..3]), ValuesRead(es[3..6]), ValuesRead(es[6..10]));
  }

  lemma VuiTimingDescriptors(sps: Sps)
    ensures var es := VuiTiming(sps);
      && DescriptorOf(es[0]) == U(1) && DescriptorOf(es[1]) == U(1) && DescriptorOf(es[2]) == U(1)
      && DescriptorOf(es[3]) == U(1) && DescriptorOf(es[4]) == U(1) && DescriptorOf(es[5]) == U(1)
      && DescriptorsOf(es[6..9]) == TIMING_SYNTAX
  {
    var es := VuiTiming(sps);
    var ts := DescriptorsOf(es[6..9]);
    assert ts[0] == U(32) && ts[1] == U(32) && ts[2] == U(1);
  }

  lemma VuiTimingValues(sps: Sps)
    requires sps.timingInfoPresentFlag == 1
    ensures var es := VuiTiming(sps);
      && ValueRead(es[0]) == 1 && ValueRead(es[1]) == 0 && ValueRead(es[2]) == 0
      && ValueRead(es[3]) == 0 && ValueRead(es[4]) == 0 && ValueRead(es[5]) == 1
      && var ts := ValuesRead(es[6..9]);
      && ts[0] == sps.numUnitsInTick && ts[1] == Wrap32(sps.timeScale * 2) && ts[2] == 1
  {
    var es := VuiTiming(sps);
    SmallPow2();
    FieldRead(1, 0);
    FieldRead(1, 1);
    TimingFieldValues(sps.numUnitsInTick, Wrap32(sps.timeScale * 2), es[6..9]);
  }

  lemma TimingFieldValues(units: u32, scale: u32, ts: seq<Element>)
    requires ts == [Field(32, units), Field(32, scale), Flag(true)]
    ensures ValuesRead(ts) == [units, scale, 1]
  {
    Pow2Values();
    FieldRead(32, units);
    FieldRead(32, scale);
    FlagRead(true);
  }

  /** aspect_ratio_info_present_flag up to the timing block read back: the four
      optional blocks absent, the timing as the encoder set it. */
  lemma VuiHeadOf(sps: Sps, rest: seq<bool>)
    requires sps.timingInfoPresentFlag == 1
    ensures ParseVuiHead(Encode(VuiTiming(sps)[1..]) + rest)
            == Some((VuiHead(None, None, None, None,
                             Some(Timing(sps.numUnitsInTick, Wrap32(sps.timeScale * 2), 1))), rest))
  {
    var es := VuiTiming(sps);
    VuiTimingDescriptors(sps);
    Ends(es, rest);
    ReadAt(es, 1, U(1), rest);
    ReadAt(es, 2, U(1), rest);
    ReadAt(es, 3, U(1), rest);
    ReadAt(es, 4, U(1), rest);
    ReadAt(es, 5, U(1), rest);
    ReadRun(es, 6, 9, TIMING_SYNTAX, rest);
    VuiTimingValues(sps);
  }

  /** The HRD flags read back: a NAL HRD and low_delay_hrd_flag = 0 exactly
      when the SPS has a bit rate, never a VCL HRD. */
  lemma VuiHrdOf(sps: Sps, bitrateBits: u32, cbpSize: u32, cbr: bool, rest: seq<bool>)
    ensures ParseVuiHrd(Encode(VuiHrd(sps, bitrateBits, cbpSize, cbr)) + rest)
            == Some((if sps.bitsPerSecond > 0
                     then VuiHrdInfo(Some(WrittenHrd(bitrateBits, cbpSize, cbr)), None, Some(0))
                     else VuiHrdInfo(None, None, None), rest))
  {
    var nalHrd := sps.bitsPerSecond > 0;
    var hrd := if nalHrd then HrdParameters(bitrateBits, cbpSize, cbr) else [];
    var low: seq<Element> := if nalHrd then [Flag(false)] else [];
    var s3 := Encode(low) + rest;
    var s2 := Encode([Flag(false)]) + s3;
    var s1 := Encode(hrd) + s2;
    assert Encode(VuiHrd(sps, bitrateBits, cbpSize, cbr)) + rest == Encode([Flag(nalHrd)]) + s1 by {
      EncodeThen([Flag(nalHrd)] + hrd + [Flag(false)], low, rest);
      EncodeThen([Flag(nalHrd)] + hrd, [Flag(false)], s3);
      EncodeThen([Flag(nalHrd)], hrd, s2);
    }
    FlagRead(nalHrd);
    FlagRead(false);
    ReadOne(Flag(nalHrd), s1);
    if nalHrd {
      HrdOf(bitrateBits, cbpSize, cbr, s2);
    } else {
      assert s1 == s2;
    }
    ReadOne(Flag(false), s3);
    if nalHrd {
      ReadOne(Flag(false), rest);
    } else {
      assert s3 == rest;
    }
  }

  lemma VuiRestrictionDescriptors(sps: Sps)
    ensures var es := VuiRestriction(sps);
      && DescriptorOf(es[0]) == U(1) && DescriptorOf(es[1]) == U(1)
      && DescriptorsOf(es[2..9]) == RESTRICTION_SYNTAX
  {
    var es := VuiRestriction(sps);
    var ds := DescriptorsOf(es[2..9]);
    assert ds[0] == U(1) && ds[1] == Ue && ds[2] == Ue && ds[3] == Ue;
    assert ds[4] == Ue && ds[5] == Ue && ds[6] == Ue;
  }

  lemma VuiRestrictionValues(sps: Sps)
    ensures var es := VuiRestriction(sps);
      && ValueRead(es[0]) == 0 && ValueRead(es[1]) == 1
      && var vs := ValuesRead(es[2..9]);
      && vs[0] == 0 && vs[1] == 2 && vs[2] == 1 && vs[3] == 16 && vs[4] == 16 && vs[5] == 0
      && vs[6] == sps.maxNumRefFrames
  {
    var es := VuiRestriction(sps);
    FlagRead(false);
    FlagRead(true);
    var vs := ValuesRead(es[2..9]);
    assert vs[0] == 0;
  }

  /** pic_struct_present_flag up to the end of vui_parameters read back. */
  lemma VuiTailOf(sps: Sps, rest: seq<bool>)
    ensures ParseVuiTail(Encode(VuiRestriction(sps)) + rest)
            == Some((VuiTail(0, Some(Restriction(0, 2, 1, 16, 16, 0, sps.maxNumRefFrames))), rest))
  {
    var es := VuiRestriction(sps);
    var s1 := Encode(es[1..]) + rest;
    var s2 := Encode(es[2..]) + rest;
    assert ReadDescriptor(U(1), Encode(es) + rest) == Some((0, s1)) by {
      VuiRestrictionDescriptors(sps);
      VuiRestrictionValues(sps);
      Ends(es, rest);
      ReadAt(es, 0, U(1), rest);
    }
    assert ReadDescriptor(U(1), s1) == Some((1, s2)) by {
      VuiRestrictionDescriptors(sps);
      VuiRestrictionValues(sps);
      ReadAt(es, 1, U(1), rest);
    }
    var vs := ValuesRead(es[2..9]);
    assert ReadSyntax(RESTRICTION_SYNTAX, s2) == Some((vs, rest)) by {
      VuiRestrictionDescriptors(sps);
      Ends(es, rest);
      ReadRun(es, 2, 9, RESTRICTION_SYNTAX, rest);
    }
    VuiRestrictionValues(sps);
    VuiTailSteps(Encode(es) + rest, s1, s2, rest, vs);
  }

  lemma VuiTailSteps(s0: seq<bool>, s1: seq<bool>, s2: seq<bool>, s3: seq<bool>, vs: seq<nat>)
    requires ReadDescriptor(U(1), s0) == Some((0, s1))
    requires ReadDescriptor(U(1), s1) == Some((1, s2))
    requires ReadSyntax(RESTRICTION_SYNTAX, s2) == Some((vs, s3)) && |vs| == 7
    ensures ParseVuiTail(s0)
            == Some((VuiTail(0, Some(Restriction(vs[0], vs[1], vs[2], vs[3], vs[4], vs[5], vs[6]))), s3))
  {
  }

  lemma VuiBlockSteps(s0: seq<bool>, s1: seq<bool>, s2: seq<bool>, s3: seq<bool>, s4: seq<bool>,
                      head: VuiHead, hrd: VuiHrdInfo, tail: VuiTail)
    requires ReadDescriptor(U(1), s0) == Some((1, s1))
    requires ParseVuiHead(s1) == Some((head, s2))
    requires ParseVuiHrd(s2) == Some((hrd, s3))
    requires ParseVuiTail(s3) == Some((tail, s4))
    ensures ParseVuiBlock(s0) == Some((Some(VuiInfo(head, hrd, tail)), s4))
  {
  }

  /** The VUI the packer writes, as a decoder reads it. */
  function WrittenVui(sps: Sps, bitrateBits: u32, cbpSize: u32, cbr: bool): VuiInfo
  {
    VuiInfo(VuiHead(None, None, None, None,
                    Some(Timing(sps.numUnitsInTick, Wrap32(sps.timeScale * 2), 1))),
            if sps.bitsPerSecond > 0
            then VuiHrdInfo(Some(WrittenHrd(bitrateBits, cbpSize, cbr)), None, Some(0))
            else VuiHrdInfo(None, None, None),
            VuiTail(0, Some(Restriction(0, 2, 1, 16, 16, 0, sps.maxNumRefFrames))))
  }

  lemma VuiPresentFlag(sps: Sps, rest: seq<bool>)
    ensures ReadDescriptor(U(1), Encode(VuiTiming(sps)) + rest)
            == Some((1, Encode(VuiTiming(sps)[1..]) + rest))
  {
    var t := VuiTiming(sps);
    Ends(t, rest);
    ReadAt(t, 0, U(1), rest);
    SmallPow2();
    FieldRead(1, 1);
  }

  /** vui_parameters_present_flag and vui_parameters() read back. */
  lemma VuiBlockOf(sps: Sps, bitrateBits: u32, cbpSize: u32, cbr: bool, rest: seq<bool>)
    requires sps.timingInfoPresentFlag == 1
    ensures ParseVuiBlock(Encode(VuiTiming(sps) + VuiHrd(sps, bitrateBits, cbpSize, cbr)
                                 + VuiRestriction(sps)) + rest)
            == Some((Some(WrittenVui(sps, bitrateBits, cbpSize, cbr)), rest))
  {
    var t, h, r := VuiTiming(sps), VuiHrd(sps, bitrateBits, cbpSize, cbr), VuiRestriction(sps);
    var s3 := Encode(r) + rest;
    var s2 := Encode(h) + s3;
    assert Encode(t + h + r) + rest == Encode(t) + s2 by {
      EncodeThen(t + h, r, rest);
      EncodeThen(t, h, s3);
    }
    VuiPresentFlag(sps, s2);
    VuiHeadOf(sps, s2);
    VuiHrdOf(sps, bitrateBits, cbpSize, cbr, s3);
    VuiTailOf(sps, rest);
    var w := WrittenVui(sps, bitrateBits, cbpSize, cbr);
    VuiBlockSteps(Encode(t) + s2, Encode(t[1..]) + s2, s2, s3, rest, w.head, w.hrd, w.tail);
  }

  /** The SPS the packer writes, as a decoder reads it: every field the
      encoder set, in the width the packer gives it. */
  function WrittenSps(p: ProfileCoding, sps: Sps, bitrateBits: u32, cbpSize: u32, cbr: bool): SpsInfo
  {
    SpsInfo(WrittenHead(p, sps), None, WrittenFrame(sps), WrittenCrop(sps),
            Some(WrittenVui(sps, bitrateBits, cbpSize, cbr)))
  }

  lemma SpsFromBlocks(p: ProfileCoding, sps: Sps, bitrateBits: u32, cbpSize: u32, cbr: bool,
                      s0: seq<bool>, s1: seq<bool>, s2: seq<bool>, s3: seq<bool>, rest: seq<bool>)
    requires !HasChromaInfo(p.profileIdc)
    requires ParseSpsHead(s0) == Some((WrittenHead(p, sps), s1))
    requires ParseFrameInfo(s1) == Some((WrittenFrame(sps), s2))
    requires ParseCrop(sps.frameCroppingFlag, s2) == Some((WrittenCrop(sps), s3))
    requires ParseVuiBlock(s3) == Some((Some(WrittenVui(sps, bitrateBits, cbpSize, cbr)), rest))
    ensures ParseSps(s0) == Some((WrittenSps(p, sps, bitrateBits, cbpSize, cbr), rest))
  {
    var w := WrittenSps(p, sps, bitrateBits, cbpSize, cbr);
    assert w.head.profileIdc == p.profileIdc && w.frame.frameCroppingFlag == sps.frameCroppingFlag;
  }

  /** The SPS payload regrouped block by block for reading. */
  lemma SpsSyntaxSplit(p: ProfileCoding, sps: Sps, bitrateBits: u32, cbpSize: u32, cbr: bool, rest: seq<bool>)
    ensures Encode(SpsSyntax(p, sps, bitrateBits, cbpSize, cbr)) + rest
            == Encode(SpsHeader(p, sps)) + (Encode(SpsFrameFields(sps)) + (Encode(SpsCropping(sps))
               + (Encode(VuiTiming(sps) + VuiHrd(sps, bitrateBits, cbpSize, cbr) + VuiRestriction(sps)) + rest)))
  {
    var hd, f, c := SpsHeader(p, sps), SpsFrameFields(sps), SpsCropping(sps);
    var v := VuiTiming(sps) + VuiHrd(sps, bitrateBits, cbpSize, cbr) + VuiRestriction(sps);
    var s3 := Encode(v) + rest;
    var s2 := Encode(c) + s3;
    assert SpsSyntax(p, sps, bitrateBits, cbpSize, cbr) == hd + f + c + v;
    EncodeThen(hd + f + c, v, rest);
    EncodeThen(hd + f, c, s3);
    EncodeThen(hd, f, s2);
  }

  /** What a decoder reads from the SPS payload pack_sps writes for a
      profile without the High fields, with pic_order_cnt_type 0, frame
      pictures only and timing information: every field the encoder set,
      in the width the packer gave it, and nothing after it consumed. */
  lemma SpsRoundTrip(p: ProfileCoding, sps: Sps, bitrateBits: u32, cbpSize: u32, cbr: bool,
                     rest: seq<bool>)
    requires p.profileIdc < 256 && !HasChromaInfo(p.profileIdc)
    requires sps.picOrderCntType == 0 && sps.frameMbsOnlyFlag == 1 && sps.timingInfoPresentFlag == 1
    requires sps.direct8x8InferenceFlag < 2 && sps.frameCroppingFlag < 2
    ensures ParseSps(Encode(SpsSyntax(p, sps, bitrateBits, cbpSize, cbr)) + rest)
            == Some((WrittenSps(p, sps, bitrateBits, cbpSize, cbr), rest))
  {
    var s3 := Encode(VuiTiming(sps) + VuiHrd(sps, bitrateBits, cbpSize, cbr) + VuiRestriction(sps)) + rest;
    var s2 := Encode(SpsCropping(sps)) + s3;
    var s1 := Encode(SpsFrameFields(sps)) + s2;
    var s0 := Encode(SpsHeader(p, sps)) + s1;
    SpsSyntaxSplit(p, sps, bitrateBits, cbpSize, cbr, rest);
    assert ParseSpsHead(s0) == Some((WrittenHead(p, sps), s1)) by {
      SpsHeadOf(p, sps, s1);
    }
    assert ParseFrameInfo(s1) == Some((WrittenFrame(sps), s2)) by {
      FrameInfoOf(sps, s2);
    }
    assert ParseCrop(sps.frameCroppingFlag, s2) == Some((WrittenCrop(sps), s3)) by {
      CropOf(sps, s3);
    }
    assert ParseVuiBlock(s3) == Some((Some(WrittenVui(sps, bitrateBits, cbpSize, cbr)), rest)) by {
      VuiBlockOf(sps, bitrateBits, cbpSize, cbr, rest);
    }
    SpsFromBlocks(p, sps, bitrateBits, cbpSize, cbr, s0, s1, s2, s3, rest);
  }

  /** The picture a decoder reconstructs from a decoded SPS: whole
      macroblocks covering width x height, a crop exactly when the last
      macroblock row is padded, and the cropped height the picture height
      rounded up to the even number of rows 4:2:0 can show. */
  predicate ShowsPicture(info: SpsInfo, width: nat, height: nat)
  {
    var f := info.frame;
    && Encoder.CoversWithMbs(f.picWidthInMbsMinus1 + 1, width)
    && Encoder.CoversWithMbs(f.picHeightInMapUnitsMinus1 + 1, height)
    && (info.cropping.Some? <==> 16 * (f.picHeightInMapUnitsMinus1 + 1) > height)
    && (info.cropping.Some? ==>
          info.cropping.value.left == 0 && info.cropping.value.right == 0 && info.cropping.value.top == 0)
    && 16 * (f.picHeightInMapUnitsMinus1 + 1)
       - 2 * (if info.cropping.Some? then info.cropping.value.bottom else 0)
       == height + height % 2
  }

  /** For the High profile and the other profile_idc values that carry the
      chroma fields, pack_sps still goes from seq_parameter_set_id straight to
      log2_max_frame_num_minus4. A decoder following section 7.3.2.1.1 then
      reads chroma_format_idc and the fields after it from the bits of the
      frame fields, so it never reads back the SPS that was packed. */
  lemma HighSpsMisread(p: ProfileCoding, sps: Sps, bitrateBits: u32, cbpSize: u32, cbr: bool,
                       rest: seq<bool>)
    requires HasChromaInfo(p.profileIdc)
    ensures var r := ParseSps(Encode(SpsSyntax(p, sps, bitrateBits, cbpSize, cbr)) + rest);
            r.Some? ==> r.value.0.chroma.Some?
    ensures ParseSps(Encode(SpsSyntax(p, sps, bitrateBits, cbpSize, cbr)) + rest)
            != Some((WrittenSps(p, sps, bitrateBits, cbpSize, cbr), rest))
  {
    var s3 := Encode(VuiTiming(sps) + VuiHrd(sps, bitrateBits, cbpSize, cbr) + VuiRestriction(sps)) + rest;
    var s2 := Encode(SpsCropping(sps)) + s3;
    var s1 := Encode(SpsFrameFields(sps)) + s2;
    var s0 := Encode(SpsSyntax(p, sps, bitrateBits, cbpSize, cbr)) + rest;
    assert p.profileIdc < 256;
    assert ParseSpsHead(s0) == Some((WrittenHead(p, sps), s1)) by {
      SpsSyntaxSplit(p, sps, bitrateBits, cbpSize, cbr, rest);
      SpsHeadOf(p, sps, s1);
    }
    ChromaReadAfter(s0, WrittenHead(p, sps), s1);
  }

  /** Once the head names a profile with chroma fields, a decoded SPS has them. */
  lemma ChromaReadAfter(s: seq<bool>, head: SpsHead, s1: seq<bool>)
    requires ParseSpsHead(s) == Some((head, s1)) && HasChromaInfo(head.profileIdc)
    ensures ParseSps(s).Some? ==> ParseSps(s).value.0.chroma.Some?
  {
  }

  /** The frame rate a decoded SPS signals, time_scale / (2 * num_units_in_tick),
      is num / den, and a NAL HRD is present exactly when hrd is. */
  predicate SignalsRate(info: SpsInfo, num: nat, den: nat, hrd: bool)
  {
    && info.vui.Some? && info.vui.value.head.timing.Some?
    && info.vui.value.head.timing.value.numUnitsInTick == den
    && (num * 2 < U32_MODULUS ==> info.vui.value.head.timing.value.timeScale == 2 * num)
    && (info.vui.value.hrd.nalHrd.Some? <==> hrd)
  }

  /** SpsRoundTrip, read as a picture and a frame rate. */
  lemma DecodedPicture(p: ProfileCoding, sps: Sps, bitrateBits: u32, cbpSize: u32, cbr: bool,
                       rest: seq<bool>, width: nat, height: nat)
    requires p.profileIdc < 256 && !HasChromaInfo(p.profileIdc)
    requires sps.picOrderCntType == 0 && sps.frameMbsOnlyFlag == 1 && sps.timingInfoPresentFlag == 1
    requires sps.direct8x8InferenceFlag < 2 && sps.frameCroppingFlag < 2
    requires 0 < width < U32_MODULUS && 0 < height < U32_MODULUS
    requires Encoder.CoversWithMbs(sps.pictureWidthInMbs, width)
    requires Encoder.CoversWithMbs(sps.pictureHeightInMbs, height)
    requires sps.frameCroppingFlag == 1 <==> 16 * sps.pictureHeightInMbs > height
    requires sps.frameCropBottomOffset == (16 * sps.pictureHeightInMbs - height) / 2
    requires sps.frameCropLeftOffset == 0 && sps.frameCropRightOffset == 0 && sps.frameCropTopOffset == 0
    ensures var r := ParseSps(Encode(SpsSyntax(p, sps, bitrateBits, cbpSize, cbr)) + rest);
      && r.Some? && r.value.1 == rest
      && r.value.0.head.profileIdc == p.profileIdc && r.value.0.head.levelIdc == sps.levelIdc
      && r.value.0.frame.maxNumRefFrames == sps.maxNumRefFrames
      && ShowsPicture(r.value.0, width, height)
      && SignalsRate(r.value.0, sps.timeScale, sps.numUnitsInTick, sps.bitsPerSecond > 0)
  {
    SpsRoundTrip(p, sps, bitrateBits, cbpSize, cbr, rest);
    WrittenSpsShows(p, sps, bitrateBits, cbpSize, cbr, width, height);
  }

  lemma WrittenSpsShows(p: ProfileCoding, sps: Sps, bitrateBits: u32, cbpSize: u32, cbr: bool,
                        width: nat, height: nat)
    requires sps.frameCroppingFlag < 2
    requires 0 < width < U32_MODULUS && 0 < height < U32_MODULUS
    requires Encoder.CoversWithMbs(sps.pictureWidthInMbs, width)
    requires Encoder.CoversWithMbs(sps.pictureHeightInMbs, height)
    requires sps.frameCroppingFlag == 1 <==> 16 * sps.pictureHeightInMbs > height
    requires sps.frameCropBottomOffset == (16 * sps.pictureHeightInMbs - height) / 2
    requires sps.frameCropLeftOffset == 0 && sps.frameCropRightOffset == 0 && sps.frameCropTopOffset == 0
    ensures ShowsPicture(WrittenSps(p, sps, bitrateBits, cbpSize, cbr), width, height)
    ensures SignalsRate(WrittenSps(p, sps, bitrateBits, cbpSize, cbr),
                        sps.timeScale, sps.numUnitsInTick, sps.bitsPerSecond > 0)
  {
    var wm, hm := sps.pictureWidthInMbs, sps.pictureHeightInMbs;
    assert wm >= 1 && hm >= 1;
    assert Wrap32(wm - 1) == wm - 1 && Wrap32(hm - 1) == hm - 1;
    EvenRows(hm, height, sps.frameCropBottomOffset);
  }

  /**
   * What a decoder makes of the SPS init_sps prepares, for a profile without
   * the High fields and a picture whose sides do not wrap around in uint32_t:
   * the picture itself, at level 4.1 with four reference frames, the
   * configured frame rate, and a NAL HRD exactly when a bit rate is set.
   */
  lemma InitialSpsDecodes(p: ProfileCoding, width: u32, height: u32, intraPeriod: u32,
                          bitrateBits: u32, framerateNum: u32, framerateDen: u32,
                          cbpSize: u32, cbr: bool, rest: seq<bool>)
    requires p.profileIdc < 256 && !HasChromaInfo(p.profileIdc)
    requires 0 < width && width + 15 < U32_MODULUS && 0 < height && height + 15 < U32_MODULUS
    ensures var sps := Encoder.InitialSps(width, height, intraPeriod, bitrateBits, framerateNum, framerateDen);
      var r := ParseSps(Encode(SpsSyntax(p, sps, bitrateBits, cbpSize, cbr)) + rest);
      && r.Some? && r.value.1 == rest
      && r.value.0.head.profileIdc == p.profileIdc && r.value.0.head.levelIdc == Encoder.LEVEL_IDC
      && r.value.0.frame.maxNumRefFrames == Encoder.MAX_NUM_REF_FRAMES
      && ShowsPicture(r.value.0, width, height)
      && SignalsRate(r.value.0, framerateNum, framerateDen, bitrateBits > 0)
  {
    var sps := Encoder.InitialSps(width, height, intraPeriod, bitrateBits, framerateNum, framerateDen);
    Encoder.InitialSpsGeometry(width, height, intraPeriod, bitrateBits, framerateNum, framerateDen);
    DecodedPicture(p, sps, bitrateBits, cbpSize, cbr, rest, width, height);
  }

  /** Cropping half the padding of the last macroblock row leaves the height
      rounded up to even. */
  lemma EvenRows(m: nat, x: nat, bottom: nat)
    requires x > 0 && Encoder.CoversWithMbs(m, x) && bottom == (16 * m - x) / 2
    ensures 16 * m - 2 * (if 16 * m > x then bottom else 0) == x + x % 2
  {
    var d := 16 * m - x;
    assert d == 2 * bottom + d % 2;
    if d % 2 == 0 {
      ModUnique(x, 2, 8 * m - bottom, 0);
    } else {
      ModUnique(x, 2, 8 * m - bottom - 1, 1);
    }
  }
}
