/**
 * The H.264 parameter sets as the encoder holds them (the SPS and PPS
 * parameter buffers of the VA-API encode interface and the slice
 * parameters), and the syntax the packer writes for them:
 * seq_parameter_set_data (section 7.3.2.1.1 of ITU-T H.264) with
 * vui_parameters (Annex E.1.1) and hrd_parameters (Annex E.1.2), and
 * pic_parameter_set_rbsp (section 7.3.2.2).
 */
module H264Params {
  import opened Words
  import opened Bitstream
  import opened VaapiCommon

  const SPS_PROFILE_IDC_BASELINE: nat := 66
  const SPS_PROFILE_IDC_MAIN: nat := 77
  const SPS_PROFILE_IDC_HIGH: nat := 100

  /** HRD scale constants (equations E-37 and E-38 of Annex E.2.2). */
  const HRD_BITRATE_SCALE: nat := 6
  const HRD_CPB_SIZE_SCALE: nat := 4
  /** The 5-bit length fields of hrd_parameters are all written as 23. */
  const HRD_LENGTH_MINUS1: nat := 23

  /** The accelerator profile of the encoder's capabilities (caps->def.va). */
  datatype VAProfile =
    | VAProfileH264ConstrainedBaseline
    | VAProfileH264Baseline
    | VAProfileH264Main
    | VAProfileH264High
    | OtherVAProfile(code: int)

  /** The capabilities the encoder was created with: the accelerator profile
      and whether the plugin's own profile (caps->def.vaapi) is the High one. */
  datatype Caps = Caps(va: VAProfile, vaapiIsHigh: bool)

  /** profile_idc and the two constraint flags the packer may set. */
  datatype ProfileCoding = ProfileCoding(profileIdc: nat, constraintSet0: bool, constraintSet1: bool)

  /** The switch at the top of pack_sps; None is its `goto fail`. */
  function ProfileCodingOf(va: VAProfile): (r: Option<ProfileCoding>)
    ensures r.None? <==> va.OtherVAProfile?
  {
    match va
    case VAProfileH264ConstrainedBaseline => Some(ProfileCoding(SPS_PROFILE_IDC_BASELINE, true, false))
    case VAProfileH264Baseline => Some(ProfileCoding(SPS_PROFILE_IDC_BASELINE, false, false))
    case VAProfileH264Main => Some(ProfileCoding(SPS_PROFILE_IDC_MAIN, false, true))
    case VAProfileH264High => Some(ProfileCoding(SPS_PROFILE_IDC_HIGH, false, false))
    case OtherVAProfile(_) => None
  }

  /** VAEncSequenceParameterBufferH264, the fields the encoder uses. */
  datatype Sps = Sps(
    seqParameterSetId: nat,
    levelIdc: u8,
    intraPeriod: u32,
    bitsPerSecond: u32,
    maxNumRefFrames: nat,
    pictureWidthInMbs: nat,
    pictureHeightInMbs: nat,
    log2MaxFrameNumMinus4: nat,
    picOrderCntType: nat,
    log2MaxPicOrderCntLsbMinus4: nat,
    frameMbsOnlyFlag: nat,
    direct8x8InferenceFlag: nat,
    timeScale: u32,
    numUnitsInTick: u32,
    timingInfoPresentFlag: nat,
    frameCroppingFlag: nat,
    frameCropLeftOffset: nat,
    frameCropRightOffset: nat,
    frameCropTopOffset: nat,
    frameCropBottomOffset: nat)

  /** The SPS after memset(&enc->sps, 0, ...). */
  const ZERO_SPS := Sps(0, 0, 0, 0, 0, 0, 0, 0, 0, 0, 0, 0, 0, 0, 0, 0, 0, 0, 0, 0)

  /** VAPictureH264, the fields the encoder sets. */
  datatype Picture = Picture(pictureId: u32, frameIdx: nat, flags: nat,
                             topFieldOrderCnt: int, bottomFieldOrderCnt: int)

  const ZERO_PICTURE := Picture(0, 0, 0, 0, 0)

  /** The number of ReferenceFrames entries of the picture parameter buffer. */
  const NUM_REFERENCE_FRAMES: nat := 16

  /** VAEncPictureParameterBufferH264, the fields the encoder uses. */
  datatype Pps = Pps(
    picParameterSetId: nat,
    seqParameterSetId: nat,
    entropyCodingModeFlag: nat,
    weightedPredFlag: nat,
    weightedBipredIdc: nat,
    picInitQp: nat,
    deblockingFilterControlPresentFlag: nat,
    transform8x8ModeFlag: nat,
    numRefIdxL0ActiveMinus1: nat,
    numRefIdxL1ActiveMinus1: nat,
    secondChromaQpIndexOffset: int,
    currPic: Picture,
    referenceFrameIds: seq<u32>,
    codedBuf: u32,
    frameNum: nat,
    idrPicFlag: bool,
    referencePicFlag: bool)

  /** The PPS of a zero-allocated encoder. */
  const ZERO_PPS := Pps(0, 0, 0, 0, 0, 0, 0, 0, 0, 0, 0, ZERO_PICTURE,
                        seq(NUM_REFERENCE_FRAMES, _ => 0), 0, 0, false, false)

  /** VAEncSliceParameterBufferH264, the fields the encoder sets. */
  datatype Slice = Slice(numMacroblocks: nat, sliceType: SliceType,
                         sliceAlphaC0OffsetDiv2: int, sliceBetaOffsetDiv2: int)

  /** ceil(x / 16): the number of macroblocks that cover x pixels. */
  function MbsCovering(x: nat): nat
  {
    (x + 15) / 16
  }

  // ---------------------------------------------------------------------------
  // The syntax pack_sps writes
  // ---------------------------------------------------------------------------

  /** bit_rate_value_minus1[0]: `int s = bitrate_bits; s >>= 6;` then s - 1,
      handed to bs_append_ue as an unsigned 32-bit value. */
  function BitRateValueMinus1(bitrateBits: u32): u32
  {
    Wrap32(AsInt32(bitrateBits) / Pow2(HRD_BITRATE_SCALE) - 1)
  }

  /** cpb_size_value_minus1[0], computed like the bit rate with a shift of 4. */
  function CpbSizeValueMinus1(cbpSize: u32): u32
  {
    Wrap32(AsInt32(cbpSize) / Pow2(HRD_CPB_SIZE_SCALE) - 1)
  }

  /** profile_idc up to seq_parameter_set_id. */
  function SpsHeader(p: ProfileCoding, sps: Sps): seq<Element>
  {
    [Field(8, p.profileIdc),
     Flag(p.constraintSet0), Flag(p.constraintSet1),
     Flag(false), Flag(false), Flag(false), Flag(false),   // constraint_set2..5_flag
     Field(2, 0),                                          // reserved_zero_2bits
     Field(8, sps.levelIdc),
     UeField(sps.seqParameterSetId)]
  }

  /** log2_max_frame_num_minus4 up to frame_cropping_flag. */
  function SpsFrameFields(sps: Sps): seq<Element>
  {
    [UeField(sps.log2MaxFrameNumMinus4),
     UeField(sps.picOrderCntType),
     UeField(sps.log2MaxPicOrderCntLsbMinus4),
     UeField(sps.maxNumRefFrames),
     Field(1, 0),                                          // gaps_in_frame_num_value_allowed_flag
     UeField(Wrap32(sps.pictureWidthInMbs - 1)),
     UeField(Wrap32(sps.pictureHeightInMbs - 1)),
     Field(1, sps.frameMbsOnlyFlag),
     Field(1, sps.direct8x8InferenceFlag),
     Field(1, sps.frameCroppingFlag)]
  }

  /** The four crop offsets, present only when frame_cropping_flag is set. */
  function SpsCropping(sps: Sps): seq<Element>
  {
    if sps.frameCroppingFlag != 0 then
      [UeField(sps.frameCropLeftOffset), UeField(sps.frameCropRightOffset),
       UeField(sps.frameCropTopOffset), UeField(sps.frameCropBottomOffset)]
    else []
  }

  /** vui_parameters_present_flag up to the timing block. The timing block is
      written whatever timing_info_present_flag holds. */
  function VuiTiming(sps: Sps): seq<Element>
  {
    [Field(1, 1),                                          // vui_parameters_present_flag
     Field(1, 0), Field(1, 0),                             // aspect_ratio_info, overscan_info
     Field(1, 0), Field(1, 0),                             // video_signal_type, chroma_loc_info
     Field(1, sps.timingInfoPresentFlag),
     Field(32, sps.numUnitsInTick),
     Field(32, Wrap32(sps.timeScale * 2)),
     Flag(true)]                                           // fixed_frame_rate_flag
  }

  /** hrd_parameters() with cpb_cnt_minus1 = 0 (Annex E.1.2). The gate is the
      SPS copy of the bit rate; the values are the encoder's current ones. */
  function HrdParameters(bitrateBits: u32, cbpSize: u32, cbr: bool): seq<Element>
  {
    [UeField(0),                                           // cpb_cnt_minus1
     Field(4, 0), Field(4, 0),                             // bit_rate_scale, cpb_size_scale
     UeField(BitRateValueMinus1(bitrateBits)),
     UeField(CpbSizeValueMinus1(cbpSize)),
     Flag(cbr),                                            // cbr_flag[0]
     Field(5, HRD_LENGTH_MINUS1), Field(5, HRD_LENGTH_MINUS1),
     Field(5, HRD_LENGTH_MINUS1), Field(5, HRD_LENGTH_MINUS1)]
  }

  /** nal_hrd_parameters_present_flag up to low_delay_hrd_flag. */
  function VuiHrd(sps: Sps, bitrateBits: u32, cbpSize: u32, cbr: bool): seq<Element>
  {
    var nalHrd := sps.bitsPerSecond > 0;
    [Flag(nalHrd)]
    + (if nalHrd then HrdParameters(bitrateBits, cbpSize, cbr) else [])
    + [Flag(false)]                                        // vcl_hrd_parameters_present_flag
    + (if nalHrd then [Flag(false)] else [])               // low_delay_hrd_flag
  }

  /** pic_struct_present_flag up to the end of vui_parameters. */
  function VuiRestriction(sps: Sps): seq<Element>
  {
    [Flag(false),                                          // pic_struct_present_flag
     Flag(true),                                           // bitstream_restriction_flag
     Flag(false),                                          // motion_vectors_over_pic_boundaries_flag
     UeField(2), UeField(1),                               // max_bytes_per_pic_denom, max_bits_per_mb_denom
     UeField(16), UeField(16),                             // log2_max_mv_length_horizontal, _vertical
     UeField(0),                                           // max_num_reorder_frames
     UeField(sps.maxNumRefFrames)]                         // max_dec_frame_buffering
  }

  /** The payload pack_sps writes between bs_begin_nalu and bs_end_nalu. */
  function SpsSyntax(p: ProfileCoding, sps: Sps, bitrateBits: u32, cbpSize: u32, cbr: bool): seq<Element>
  {
    SpsHeader(p, sps) + SpsFrameFields(sps) + SpsCropping(sps)
    + VuiTiming(sps) + VuiHrd(sps, bitrateBits, cbpSize, cbr) + VuiRestriction(sps)
  }

  // ---------------------------------------------------------------------------
  // The syntax pack_pps writes
  // ---------------------------------------------------------------------------

  /** pic_parameter_set_id up to weighted_bipred_idc. */
  function PpsEntropyAndRefs(pps: Pps): seq<Element>
  {
    [UeField(pps.picParameterSetId),
     UeField(pps.seqParameterSetId),
     Field(1, pps.entropyCodingModeFlag),
     Flag(false),                                          // bottom_field_pic_order_in_frame_present_flag
     UeField(0),                                           // num_slice_groups_minus1
     UeField(pps.numRefIdxL0ActiveMinus1),
     UeField(pps.numRefIdxL1ActiveMinus1),
     Field(1, pps.weightedPredFlag),
     Field(2, pps.weightedBipredIdc)]
  }

  /** pic_init_qp_minus26 up to the first transform_8x8_mode_flag. */
  function PpsQpAndFlags(pps: Pps): seq<Element>
  {
    [SeField(pps.picInitQp - 26),                          // pic_init_qp_minus26
     SeField(0),                                           // pic_init_qs_minus26
     SeField(0),                                           // chroma_qp_index_offset
     Field(1, pps.deblockingFilterControlPresentFlag),
     Field(1, 0),                                          // constrained_intra_pred_flag
     Field(1, 0),                                          // redundant_pic_cnt_present_flag
     Field(1, pps.transform8x8ModeFlag)]
  }

  /** The three further elements for the High profile: transform_8x8_mode_flag
      again, pic_scaling_matrix_present_flag = 0, second_chroma_qp_index_offset. */
  function PpsHighExtension(pps: Pps): seq<Element>
  {
    [Field(1, pps.transform8x8ModeFlag), Flag(false), SeField(pps.secondChromaQpIndexOffset)]
  }

  /** The payload pack_pps writes between bs_begin_nalu and bs_end_nalu. */
  function PpsSyntax(caps: Caps, pps: Pps): (r: seq<Element>)
    ensures |r| == if caps.vaapiIsHigh then 19 else 16
    ensures r[9] == SeField(pps.picInitQp - 26) && r[15] == Field(1, pps.transform8x8ModeFlag)
    ensures caps.vaapiIsHigh ==>
              r[16..] == [Field(1, pps.transform8x8ModeFlag), Flag(false), SeField(pps.secondChromaQpIndexOffset)]
    ensures r[..16] == PpsEntropyAndRefs(pps) + PpsQpAndFlags(pps)
  {
    PpsEntropyAndRefs(pps) + PpsQpAndFlags(pps) + (if caps.vaapiIsHigh then PpsHighExtension(pps) else [])
  }
}
