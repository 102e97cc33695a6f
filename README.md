# VA-API H.264 encoder core, modelled in Dafny

This project models the core of the obs-studio Linux VA-API H.264 encoder
(`plugins/linux-vaapi/vaapi-encoder.c` with the helpers of
`plugins/linux-vaapi/vaapi-common.h`) and proves properties of the model.
It covers four parts of the encoder:

- **Rate and geometry.** How the encoder derives its rate and geometry
  settings: `vaapi_encoder_set_bitrate`, `vaapi_encoder_set_cbp_window`,
  `init_sps`, `init_pps` and `initialize_defaults`.
- **Parameter-set packers.** The bits `pack_sps` and `pack_pps` write for
  seq_parameter_set_data and pic_parameter_set_rbsp (sections 7.3.2.1.1 and
  7.3.2.2 of ITU-T H.264, with vui_parameters and hrd_parameters of Annex
  E.1), down to the ue(v)/se(v) Exp-Golomb codes of section 9.1.
- **Extradata.** The emulation-prevention pass `encode_nalu_to_extra_data`
  (sections 7.3.1 and 7.4.1), which copies each packed NAL unit into the
  codec extradata. It copies the first five bytes and the last byte as they
  are; only the bytes between are escaped, so the last byte can complete a
  start code.
- **Frame submission.** The per-frame buffer protocol of `encode_surface`:
  every `create_*_buffer` step, the ordered buffer list, its destruction on
  failure, and the hand-off to the surface queue.

Modules, leaves first:

- `Words` (`words.dfy`): unsigned 32- and 64-bit wrap-around, the
  int32_t reading of a uint32_t, and bitwise AND and NOT on n-bit values.
- `VaapiCommon` (`vaapi_common.dfy`): `CHECK_STATUS_`,
  `round_up_to_power_of_2` and the slice-type enum.
- `Bitstream` (`bitstream.dfy`): the syntax elements a packer appends, their
  bit encodings, decoders for u(n), ue(v) and se(v), and the `BitWriter`
  class that stands for `bitstream_t`.
- `Emulation` (`emulation.dfy`): the escaping scan as functions, with its
  inverse and the proof that it leaves no start-code emulation.
- `H264Params` (`params.dfy`): the SPS, PPS and slice parameter buffers,
  and the element sequences `pack_sps` and `pack_pps` write.
- `Va` (`va.dfy`): the libva calls as an abstract driver whose every call
  may fail, and the surface queue as an oracle that accepts or refuses an
  entry.
- `Encoder` (`encoder.dfy`): the class `VaapiEncoder` with the fields of
  `struct vaapi_encoder` and one method per function of the source, and the
  class `BufferList` for the frame's darray of buffer ids.
- `SpsReader` (`sps_reader.dfy`): an SPS decoder written from section
  7.3.2.1.1, independently of the packer. It is the partner of the SPS
  packer: a decoder reads back from the packed bits what the encoder set.

Where the encoder changes state, the model changes state too:

- the setters and `init_sps`/`init_pps` update fields of the encoder object;
- the packers append to a bit writer;
- extradata and the buffer list are fields that the methods reassign;
- `encode_nalu_to_extra_data` and `destroy_buffers` are loops with
  invariants.

Each method is specified against a function of the inputs or of the old
state, and the properties are proved about those functions.

`pack_pps` is modelled as written. It writes `transform_8x8_mode_flag` after
`redundant_pic_cnt_present_flag` for every profile. For the High profile it
then writes that flag a second time, followed by a zero scaling-matrix flag
and `second_chroma_qp_index_offset`. These are the exact elements of the
code; no PPS decoder is part of this model.

## Model

| member | source | states |
|---|---|---|
| Words.Wrap32 | plugins/linux-vaapi/vaapi-encoder.c:150 | a uint32_t result is the mathematical value modulo 2^32, and the value itself when it fits |
| Words.AsInt32 | plugins/linux-vaapi/vaapi-encoder.c:387-392 | assigning a uint32_t to an int gives the value congruent modulo 2^32 in the signed range, equal to it exactly when it is below 2^31 |
| Words.AndNot | plugins/linux-vaapi/vaapi-encoder.c:151 | a value and its n-bit complement have no set bit in common, so the mask ~((1 << 6) - 1) keeps no bit of what it clears |
| VaapiCommon.SliceTypeCodes | plugins/linux-vaapi/vaapi-common.h:39-45 | P, B and I have the codes 0, 1 and 2, and distinct slice types have distinct codes |
| VaapiCommon.RoundUpIsNextMultiple | plugins/linux-vaapi/vaapi-common.h:32-35 | for a power-of-two alignment and no wrap-around, the masked sum is the least multiple of the alignment not below the value, and an aligned value is returned unchanged |
| VaapiCommon.RoundUpUnwrapped | plugins/linux-vaapi/vaapi-common.h:32-35 | the mask expression equals the arithmetic rounding (value + alignment - 1) minus its remainder modulo the alignment |
| VaapiCommon.RoundUpIdempotent | plugins/linux-vaapi/vaapi-common.h:32-35 | rounding a rounded value again changes nothing, and the second rounding cannot wrap around |
| VaapiCommon.MultipleBelowModulus | plugins/linux-vaapi/vaapi-common.h:32-35 | a multiple of a power-of-two alignment below 2^64 leaves room for a whole alignment step |
| Bitstream.ReadBitsRoundTrip | plugins/linux-vaapi/vaapi-encoder.c:313-321 | a u(n) reader reads back the value bs_append_bits wrote, modulo 2^n, and stops exactly after it |
| Bitstream.ValueOfBitsOf | plugins/linux-vaapi/vaapi-encoder.c:313 | the n written bits denote the value modulo 2^n |
| Bitstream.UeRoundTrip | plugins/linux-vaapi/vaapi-encoder.c:322 | the ue(v) code of section 9.1 that bs_append_ue writes decodes to its value and leaves the following bits untouched |
| Bitstream.UeInjective | plugins/linux-vaapi/vaapi-encoder.c:229 | two values with the same ue(v) code are equal |
| Bitstream.SeCodeInverse | plugins/linux-vaapi/vaapi-encoder.c:252 | the signed-to-code mapping of section 9.1.1 is undone by the code-to-signed mapping |
| Bitstream.SeValueInverse | plugins/linux-vaapi/vaapi-encoder.c:252 | the code-to-signed mapping is undone by the signed-to-code mapping, so the two are a bijection |
| Bitstream.SeRoundTrip | plugins/linux-vaapi/vaapi-encoder.c:252-256 | the se(v) code bs_append_se writes decodes to the signed value for every integer, negative ones included |
| Bitstream.EncodeAppend | plugins/linux-vaapi/vaapi-encoder.c:312-442 | the bits of two runs of elements are the bits of the first followed by those of the second |
| Bitstream.PackBytes | plugins/linux-vaapi/vaapi-encoder.c:663 | bs_data holds the bits in ceil(bits / 8) bytes |
| Bitstream.PackBytesAppend | plugins/linux-vaapi/vaapi-encoder.c:663 | after a byte-aligned prefix, the bytes of the rest follow the bytes of the prefix |
| Bitstream.BitWriter.constructor | plugins/linux-vaapi/vaapi-encoder.c:720 | bs_create gives an empty writer with the NAL framing |
| Bitstream.BitWriter.Size | plugins/linux-vaapi/vaapi-encoder.c:652 | bs_size is the number of bits rounded up to whole bytes |
| Bitstream.BitWriter.Data | plugins/linux-vaapi/vaapi-encoder.c:663 | bs_data has bs_size bytes |
| Bitstream.BitWriter.Reset | plugins/linux-vaapi/vaapi-encoder.c:727 | bs_reset empties the writer |
| Bitstream.BitWriter.AppendBits | plugins/linux-vaapi/vaapi-encoder.c:313 | bs_append_bits appends one u(n) element and nothing else |
| Bitstream.BitWriter.AppendBool | plugins/linux-vaapi/vaapi-encoder.c:371 | bs_append_bool appends one 1-bit element |
| Bitstream.BitWriter.AppendUe | plugins/linux-vaapi/vaapi-encoder.c:322 | bs_append_ue appends one ue(v) element |
| Bitstream.BitWriter.AppendSe | plugins/linux-vaapi/vaapi-encoder.c:252 | bs_append_se appends one se(v) element |
| Bitstream.BitWriter.BeginNalu | plugins/linux-vaapi/vaapi-encoder.c:312 | bs_begin_nalu appends the NAL prefix for the type and priority |
| Bitstream.BitWriter.EndNalu | plugins/linux-vaapi/vaapi-encoder.c:442 | bs_end_nalu flushes the payload and appends the NAL suffix |
| Emulation.EscapeSnoc | plugins/linux-vaapi/vaapi-encoder.c:700-713 | scanning one byte further appends what the loop body pushes for it and updates zero_cnt as the loop does |
| Emulation.ZeroRunBounded | plugins/linux-vaapi/vaapi-encoder.c:701-710 | zero_cnt never exceeds 2 |
| Emulation.EscapeLength | plugins/linux-vaapi/vaapi-encoder.c:700-713 | the escaped payload is at least as long as the input and at most twice as long |
| Emulation.UnescapeEscape | plugins/linux-vaapi/vaapi-encoder.c:700-713 | removing each 0x03 that follows two zero bytes restores the input exactly |
| Emulation.EscapeClean | plugins/linux-vaapi/vaapi-encoder.c:700-713 | the escaped payload, after any zero run the scan began with, has no two zero bytes followed by a byte of 0x02 or less |
| Emulation.CleanAfterInsertion | plugins/linux-vaapi/vaapi-encoder.c:701-705 | an inserted 0x03 breaks the pattern it was inserted against |
| Emulation.EscapedHasNoStartCode | plugins/linux-vaapi/vaapi-encoder.c:700-713 | no position of the escaped payload starts 00 00 00, 00 00 01 or 00 00 02 |
| Emulation.RestoreExtraData | plugins/linux-vaapi/vaapi-encoder.c:692-715 | the extradata copy of a NAL unit keeps the first five bytes and the last byte, and unescaping the bytes between gives back the packed NAL unit |
| Emulation.LastByteCanCompleteStartCode | plugins/linux-vaapi/vaapi-encoder.c:714 | the last byte is copied without escaping, so the extradata of the bytes 01 01 01 01 01 00 00 01 ends in the start code 00 00 01 |
| H264Params.ProfileCodingOf | plugins/linux-vaapi/vaapi-encoder.c:292-308 | pack_sps fails exactly for an accelerator profile other than the four H.264 ones |
| H264Params.PpsSyntax | plugins/linux-vaapi/vaapi-encoder.c:221-272 | the PPS payload has 16 elements, or exactly three more for the High profile; pic_init_qp - 26 is element 9 and transform_8x8_mode_flag element 15; the High extension is the flag again, a zero scaling-matrix flag and se(second_chroma_qp_index_offset) |
| Va.VaDisplay.constructor | plugins/linux-vaapi/vaapi-encoder.c:892 | a display starts with no buffers |
| Va.VaDisplay.CreateBuffer | plugins/linux-vaapi/vaapi-encoder.c:459-460 | vaCreateBuffer either adds one new live buffer with the given content or changes nothing |
| Va.VaDisplay.DestroyBuffer | plugins/linux-vaapi/vaapi-encoder.c:485 | vaDestroyBuffer removes the buffer and logs the call |
| Va.VaDisplay.MapBuffer | plugins/linux-vaapi/vaapi-encoder.c:547 | a successful vaMapBuffer maps a live buffer |
| Va.VaDisplay.WriteMapped | plugins/linux-vaapi/vaapi-encoder.c:552-553 | a store through the mapping replaces that buffer's content only |
| Va.VaDisplay.UnmapBuffer | plugins/linux-vaapi/vaapi-encoder.c:555 | vaUnmapBuffer ends the mapping whatever its status |
| Va.SurfaceQueue.constructor | plugins/linux-vaapi/vaapi-encoder.c:931-932 | the queue starts with no entries |
| Va.SurfaceQueue.PushAndRender | plugins/linux-vaapi/vaapi-encoder.c:804 | the queue either takes the entry or is left as it was |
| Encoder.BitrateBitsOf | plugins/linux-vaapi/vaapi-encoder.c:147-151 | bitrate_bits is a multiple of 64 less than 64 below the uint32_t product bitrate * 1000; without overflow it is that product with its low six bits cleared |
| Encoder.DefaultWindowSize | plugins/linux-vaapi/vaapi-encoder.c:142 | with the default 1500 ms window and no overflow, cbp_size is one and a half seconds of bits |
| Encoder.MbsOfCovers | plugins/linux-vaapi/vaapi-encoder.c:167-168 | (x + 15) / 16 is the least number of macroblocks covering x pixels, and the padding is below 16 pixels |
| Encoder.InitialSpsGeometry | plugins/linux-vaapi/vaapi-encoder.c:159-195 | init_sps covers the picture with macroblocks, crops exactly when the aligned height exceeds the height, only at the bottom and by half the padding, and sets 4 reference frames and the current bit rate |
| Encoder.BitRateValueOfSetBitrate | plugins/linux-vaapi/vaapi-encoder.c:386-389 | for a bitrate that fits, bit_rate_value_minus1 is (bitrate * 1000) / 64 - 1 and not negative |
| Encoder.SliceTypeFor | plugins/linux-vaapi/vaapi-encoder.c:771-775 | a frame is an I slice exactly when frame_cnt is a multiple of intra_period, and never a B slice |
| Encoder.ValidIds | plugins/linux-vaapi/vaapi-encoder.c:493-498 | the ids destroy_buffers passes to vaDestroyBuffer are exactly the listed ids other than VA_INVALID_ID |
| Encoder.ValidIdsOfValidList | plugins/linux-vaapi/vaapi-encoder.c:491-500 | a list without VA_INVALID_ID is destroyed whole and in order |
| Encoder.DestroyedOnce | plugins/linux-vaapi/vaapi-encoder.c:491-500 | on a list without repeats, each valid listed id is destroyed exactly once |
| Encoder.GrowsTransitive | plugins/linux-vaapi/vaapi-encoder.c:778-794 | the ownership accounting of the buffer list composes across the steps of a frame |
| Encoder.WriteSpsNalu | plugins/linux-vaapi/vaapi-encoder.c:312-442 | after the profile switch, pack_sps writes the NAL prefix, the SPS payload and the NAL suffix |
| Encoder.WriteSpsFields | plugins/linux-vaapi/vaapi-encoder.c:313-349 | the fields before the VUI are the header, the frame fields and the cropping |
| Encoder.WriteVui | plugins/linux-vaapi/vaapi-encoder.c:351-440 | the VUI is the timing, HRD and restriction blocks in that order |
| Encoder.WriteSpsHeader | plugins/linux-vaapi/vaapi-encoder.c:313-322 | profile_idc, the six constraint flags, two reserved bits, level_idc and seq_parameter_set_id |
| Encoder.WriteSpsFrameFields | plugins/linux-vaapi/vaapi-encoder.c:324-343 | log2_max_frame_num_minus4 up to frame_cropping_flag, the sizes minus one as uint32_t |
| Encoder.WriteSpsCropping | plugins/linux-vaapi/vaapi-encoder.c:344-349 | the four crop offsets exactly when frame_cropping_flag is set |
| Encoder.WriteVuiTiming | plugins/linux-vaapi/vaapi-encoder.c:351-372 | the VUI flags and the timing block, which is written whatever the timing flag holds, with time_scale doubled in uint32_t |
| Encoder.WriteVuiHrd | plugins/linux-vaapi/vaapi-encoder.c:374-414 | hrd_parameters and low_delay_hrd_flag exactly when bits_per_second is positive, and vcl_hrd_parameters_present_flag = 0 |
| Encoder.WriteHrdParameters | plugins/linux-vaapi/vaapi-encoder.c:379-402 | one CPB with the shifted bit rate and CPB size minus one, cbr_flag, and four length fields of 23 |
| Encoder.WriteVuiRestriction | plugins/linux-vaapi/vaapi-encoder.c:416-440 | pic_struct_present_flag = 0 and the bitstream restriction block with max_dec_frame_buffering = max_num_ref_frames |
| Encoder.WritePpsEntropyAndRefs | plugins/linux-vaapi/vaapi-encoder.c:228-249 | pic_parameter_set_id up to weighted_bipred_idc, one slice group |
| Encoder.WritePpsQpAndFlags | plugins/linux-vaapi/vaapi-encoder.c:251-265 | se(pic_init_qp - 26), two zero se offsets, and the flags up to the first transform_8x8_mode_flag |
| Encoder.BufferList.constructor | plugins/linux-vaapi/vaapi-encoder.c:767 | a frame's buffer list starts empty |
| Encoder.VaapiEncoder.constructor | plugins/linux-vaapi/vaapi-encoder.c:903-929 | the attributes, the frame rate and the NAL framing are copied and initialize_defaults runs: qp 0, a 1500 ms window, bitrate_bits and cbp_size from the bitrate, the initial SPS, and a zero PPS with CABAC and deblocking control |
| Encoder.VaapiEncoder.SetCbpWindow | plugins/linux-vaapi/vaapi-encoder.c:139-145 | the window is stored and cbp_size is recomputed from the current bits per second |
| Encoder.VaapiEncoder.SetBitrate | plugins/linux-vaapi/vaapi-encoder.c:147-157 | bitrate and bitrate_bits are set, cbp_size follows the unchanged window, and the SPS copy of the rate is left stale |
| Encoder.VaapiEncoder.InitSps | plugins/linux-vaapi/vaapi-encoder.c:159-195 | the SPS becomes the initial SPS of the current settings |
| Encoder.VaapiEncoder.InitPps | plugins/linux-vaapi/vaapi-encoder.c:197-205 | pic_init_qp, entropy_coding_mode_flag and deblocking_filter_control_present_flag are set and the rest of the PPS is kept |
| Encoder.VaapiEncoder.PackPps | plugins/linux-vaapi/vaapi-encoder.c:221-280 | pack_pps always succeeds and appends one PPS NAL unit with the PPS payload |
| Encoder.VaapiEncoder.PackSps | plugins/linux-vaapi/vaapi-encoder.c:282-450 | pack_sps succeeds exactly for an H.264 profile, then appends one SPS NAL unit; on failure nothing is written |
| Encoder.VaapiEncoder.CreateBuffer | plugins/linux-vaapi/vaapi-encoder.c:452-469 | CHECK_STATUS_ takes the failure branch for any status other than VA_STATUS_SUCCESS: then, or for VA_INVALID_ID, nothing changes; otherwise exactly one new live buffer is created and its id is pushed on the list |
| Encoder.VaapiEncoder.DestroyLastBuffer | plugins/linux-vaapi/vaapi-encoder.c:479-489 | the last entry is popped and destroyed unless it is VA_INVALID_ID; an empty list is left alone |
| Encoder.VaapiEncoder.DestroyBuffers | plugins/linux-vaapi/vaapi-encoder.c:491-500 | every valid listed id is destroyed in list order, no other buffer changes, and the list is emptied |
| Encoder.VaapiEncoder.CreateSeqBuffer | plugins/linux-vaapi/vaapi-encoder.c:502-506 | a sequence parameter buffer holding the current SPS |
| Encoder.VaapiEncoder.SliceCoversPicture | plugins/linux-vaapi/vaapi-encoder.c:511-516 | when (width + 15) and (height + 15) do not wrap, num_macroblocks is the product of the least macroblock counts that cover the width and the height |
| Encoder.VaapiEncoder.CreateSliceBuffer | plugins/linux-vaapi/vaapi-encoder.c:508-530 | the slice is set whether or not the buffer is created, and the buffer holds it |
| Encoder.VaapiEncoder.CreateMiscBuffer | plugins/linux-vaapi/vaapi-encoder.c:532-563 | on success the new misc buffer holds the typed parameter and nothing is destroyed; on failure, whether the create fails or a map or unmap whose status CHECK_STATUS_ rejects makes it destroy the buffer again, the list and the live buffers are as before |
| Encoder.VaapiEncoder.CreateMiscRcBuffer | plugins/linux-vaapi/vaapi-encoder.c:565-586 | a misc buffer with the rate-control parameter |
| Encoder.VaapiEncoder.HrdBufferParameters | plugins/linux-vaapi/vaapi-encoder.c:591-594 | the HRD parameter: a full buffer of cbp_size, initially half full |
| Encoder.VaapiEncoder.CreateMiscHdrBuffer | plugins/linux-vaapi/vaapi-encoder.c:588-604 | a misc buffer with the HRD parameter |
| Encoder.VaapiEncoder.PictureParameters | plugins/linux-vaapi/vaapi-encoder.c:613-632 | the current picture is reference surface frame_cnt % 2, with order count frame_cnt * 2 modulo 2^64, which is 2 * frame_cnt while that fits; the first reference is the other surface, the second is surface 2 and the third is invalid; only frame 0 is IDR |
| Encoder.VaapiEncoder.ReferencesAlternate | plugins/linux-vaapi/vaapi-encoder.c:613-623 | the next frame references this frame's picture and reuses its reference as the new current picture, also when frame_cnt wraps |
| Encoder.VaapiEncoder.CreatePicBuffer | plugins/linux-vaapi/vaapi-encoder.c:606-643 | the PPS is updated whether or not the buffer is created, and the buffer holds the updated PPS |
| Encoder.VaapiEncoder.CreatePackedHeaderBuffers | plugins/linux-vaapi/vaapi-encoder.c:645-676 | on success the list grows by a header parameter buffer with the bit length, then a data buffer with the bytes, and nothing is destroyed; on failure the list and the live buffers are as before |
| Encoder.VaapiEncoder.CreateDataOrTakeBack | plugins/linux-vaapi/vaapi-encoder.c:660-673 | the data buffer is appended, or the buffer listed last is destroyed, logged and taken off the list |
| Encoder.VaapiEncoder.CreateOutputBuffer | plugins/linux-vaapi/vaapi-encoder.c:678-690 | a new coded buffer of output_buf_size, or, when CHECK_STATUS_ rejects the status or the id is VA_INVALID_ID, VA_INVALID_ID with nothing created |
| Encoder.VaapiEncoder.EncodeNaluToExtraData | plugins/linux-vaapi/vaapi-encoder.c:692-715 | the loop appends to the extradata exactly the escaped copy of the packed bytes |
| Encoder.VaapiEncoder.HandedOutHeaders | plugins/linux-vaapi/vaapi-encoder.c:739-749 | when the extradata is the escaped SPS followed by the escaped PPS, which EncodeSurface establishes for a successful frame 0 that found none, vaapi_encoder_extra_data succeeds, and its two parts unescape back to the packed SPS and the packed PPS |
| Encoder.VaapiEncoder.SpsNaluBytes | plugins/linux-vaapi/vaapi-encoder.c:720-722 | the packed SPS has at least six bytes and begins with the five bytes of its NAL prefix |
| Encoder.VaapiEncoder.PpsNaluBytes | plugins/linux-vaapi/vaapi-encoder.c:727-729 | the packed PPS has at least six bytes and begins with the five bytes of its NAL prefix |
| Encoder.VaapiEncoder.PackedNaluToHeaders | plugins/linux-vaapi/vaapi-encoder.c:720-725 | the given NAL unit is listed as its header pair or not at all, and its escaped copy is appended to the extradata |
| Encoder.VaapiEncoder.PackNalu | plugins/linux-vaapi/vaapi-encoder.c:720-728 | pack_sps or pack_pps leaves in the empty writer exactly the bytes of the SPS or PPS NAL unit |
| Encoder.VaapiEncoder.CreatePackedSpsPpsBuffers | plugins/linux-vaapi/vaapi-encoder.c:717-737 | always true; the list grows by the SPS pair, the PPS pair, both or neither, in that order, and the extradata grows by the escaped SPS and then the escaped PPS whatever the buffer steps did |
| Encoder.VaapiEncoder.CreateParameterBuffers | plugins/linux-vaapi/vaapi-encoder.c:778-789 | on success the new list entries hold, in order, the sequence, HRD, rate-control and slice parameters and then, on frame 0 only, the packed headers chosen; nothing is destroyed on a later frame |
| Encoder.VaapiEncoder.CreateFixedParameterBuffers | plugins/linux-vaapi/vaapi-encoder.c:778-785 | on success four new entries hold the sequence, HRD, rate-control and slice parameters in that order, and nothing is destroyed |
| Encoder.VaapiEncoder.CreateSeqAndHrdBuffers | plugins/linux-vaapi/vaapi-encoder.c:778-781 | on success two new entries hold the sequence and HRD parameters |
| Encoder.VaapiEncoder.CreateRcAndSliceBuffers | plugins/linux-vaapi/vaapi-encoder.c:782-785 | on success two new entries hold the rate-control and slice parameters |
| Encoder.VaapiEncoder.CreateCodedAndPicBuffers | plugins/linux-vaapi/vaapi-encoder.c:791-794 | a new unlisted coded buffer, or VA_INVALID_ID; the PPS becomes the picture parameters for it, and on success the one new list entry holds that PPS |
| Encoder.VaapiEncoder.CreateFrameBuffers | plugins/linux-vaapi/vaapi-encoder.c:777-794 | on success the list holds exactly the parameter buffers, the packed headers and the picture buffer in order; the PPS is the frame's picture parameters; every new buffer is listed or is the coded buffer, which is live, unlisted and new whenever it was created; no older buffer changes, and extradata is written on frame 0 only |
| Encoder.VaapiEncoder.EncodeSurface | plugins/linux-vaapi/vaapi-encoder.c:765-814 | the list is repeat-free. On success the queue holds one more entry with the surface, the coded buffer, the list whose buffers hold the frame's parameters, packed headers and picture parameters in order, the frame count as pts and the slice type; the PPS is the frame's picture parameters and frame_cnt advances modulo 2^64. On failure frame_cnt and the queue are unchanged and every listed buffer is destroyed. Either way the only new live buffers are the listed ones on success and the coded buffer, which, once created, stays live and unlisted even on failure. The destroy log grows by the buffers the create steps took back and, on failure, the listed ones; on a later frame a success destroys nothing. Extradata is appended on frame 0 only, and after a successful frame 0 that found none, vaapi_encoder_extra_data hands out the escaped SPS followed by the escaped PPS |
| Encoder.VaapiEncoder.EncodeFrame | plugins/linux-vaapi/vaapi-encoder.c:765-814 | the contract of encode_surface, the extradata hand-out aside, for given SPS and PPS NAL units of frame 0 |
| Encoder.VaapiEncoder.FinishFrame | plugins/linux-vaapi/vaapi-encoder.c:803-813 | a frame counts only if all its buffers were created and the queue took the entry; otherwise, at fail, every valid listed buffer is destroyed in order and nothing else changes |
| Encoder.VaapiEncoder.SubmitFrame | plugins/linux-vaapi/vaapi-encoder.c:796-813 | the queue takes the entry and frame_cnt advances modulo 2^64 with no buffer touched, or the queue refuses it and every valid listed buffer is destroyed in order |
| SpsReader.ReadSyntaxOfEncode | plugins/linux-vaapi/vaapi-encoder.c:312-440 | any run of packed elements reads back, element by element, as the values written, and the reader stops exactly at their end |
| SpsReader.SpsHeadOf | plugins/linux-vaapi/vaapi-encoder.c:313-322 | a decoder reads the profile, the constraint flags, level_idc and seq_parameter_set_id that were written |
| SpsReader.FrameInfoOf | plugins/linux-vaapi/vaapi-encoder.c:324-343 | a decoder reads the frame fields that were written |
| SpsReader.CropOf | plugins/linux-vaapi/vaapi-encoder.c:343-349 | a decoder reads the crop offsets exactly when cropping is flagged |
| SpsReader.HrdOf | plugins/linux-vaapi/vaapi-encoder.c:379-402 | a decoder reads one CPB with the written rate and size values and the four lengths of 23 |
| SpsReader.VuiHeadOf | plugins/linux-vaapi/vaapi-encoder.c:354-371 | a decoder reads no aspect, overscan, signal or chroma-location information, and the timing with time_scale doubled and a fixed frame rate |
| SpsReader.VuiHrdOf | plugins/linux-vaapi/vaapi-encoder.c:374-414 | a decoder finds NAL HRD parameters and low_delay_hrd_flag = 0 exactly when bits_per_second is positive, and never VCL HRD parameters |
| SpsReader.VuiTailOf | plugins/linux-vaapi/vaapi-encoder.c:416-440 | a decoder reads the bitstream restriction values that were written |
| SpsReader.VuiBlockOf | plugins/linux-vaapi/vaapi-encoder.c:351-440 | a decoder reads the whole VUI that was written |
| SpsReader.SpsRoundTrip | plugins/linux-vaapi/vaapi-encoder.c:282-450 | for a non-High profile, frame coding with pic_order_cnt_type 0 and timing on, a decoder following section 7.3.2.1.1 reads back exactly the SPS that was packed and stops at its end |
| SpsReader.HighSpsMisread | plugins/linux-vaapi/vaapi-encoder.c:312-326 | for profile_idc 100 (High) and every other profile_idc whose SPS carries chroma_format_idc, pack_sps writes none of those fields, so a decoder reads chroma information that was never written and cannot read back the packed SPS |
| SpsReader.WrittenSpsShows | plugins/linux-vaapi/vaapi-encoder.c:343-372 | the SPS covers the width and the height with whole macroblocks and its cropped height is the height rounded up to an even number of rows, and the signalled timing and HRD presence are those of the settings |
| SpsReader.DecodedPicture | plugins/linux-vaapi/vaapi-encoder.c:282-450 | for a profile without the chroma fields (Baseline or Main), a decoder of a packed SPS with the geometry of init_sps sees the picture size, the profile, the level, the reference count and the rate signalling |
| SpsReader.InitialSpsDecodes | plugins/linux-vaapi/vaapi-encoder.c:159-195 | for a profile without the chroma fields (Baseline or Main), the SPS init_sps derives, once packed, decodes with level 41, 4 reference frames, the configured picture size and the frame rate and bit rate signalling |
| SpsReader.EvenRows | plugins/linux-vaapi/vaapi-encoder.c:183-190 | cropping half the padding at the bottom leaves the height rounded up to even |

## Left out

- `vaapi_encoder_create` beyond the attribute copies: the display, profile lookup, config, context and surfaces (`initialize_encoder`), and `vaapi_encoder_destroy`. These are calls into libva and X11 that the model cannot see; the constructor takes a display, a surface queue, the capabilities and the reference surfaces as given.
- `initialize_defaults` computes intra_period as a float product of the frame rate and keyint. The model takes intra_period as a given positive value, because floating point is out of scope.
- `upload_frame_to_surface`, `vaapi_encoder_encode` and the internals of the surface queue. They are driver I/O and threading; the queue is an oracle that accepts or refuses an entry.
- `render_picture`: the source never calls it.
- `bitstream.h` is not part of this model. Its bit layout is modelled for u(n), ue(v) and se(v). The bytes of the NAL header that `bs_begin_nalu` writes and the trailing bits of `bs_end_nalu` are abstract parameters of the encoder, a five-byte prefix and a suffix.
- Logging (`VA_LOG`), and the widths of the libva structure fields: the bitfields of `seq_fields`, `pic_fields` and `vui_fields`, and the picture fields that receive frame_cnt, namely `frame_num`, `CurrPic.frame_idx`, `CurrPic.TopFieldOrderCnt` and `CurrPic.BottomFieldOrderCnt`. Their declarations in `va_enc_h264.h` are not part of this model, so the fields are unbounded. The uint32_t and uint64_t arithmetic of the encoder wraps, `frame_cnt * 2` included; the store of a result into a narrower field is not modelled.
- `darray` reallocation and the out-of-memory paths of `da_push_back`: the buffer list and the extradata are sequences.
- SpsReader.SpsRoundTrip, SpsReader.DecodedPicture, SpsReader.InitialSpsDecodes: proved only for the profiles without the chroma fields, that is Baseline, Constrained Baseline and Main. For VAProfileH264High, which `caps->def.va` can select, pack_sps (vaapi-encoder.c:312-326) omits chroma_format_idc, the bit depths, qpprime_y_zero_transform_bypass_flag and seq_scaling_matrix_present_flag, which section 7.3.2.1.1 of ITU-T H.264 requires for profile_idc 100. A decoder therefore misreads every High SPS the encoder packs (SpsReader.HighSpsMisread); the model keeps the bits as written. SpsRoundTrip also needs pic_order_cnt_type 0, frame coding only and the timing flag set. init_sps produces these: it clears the structure, so pic_order_cnt_type is 0, and it sets frame_mbs_only_flag and timing_info_present_flag (vaapi-encoder.c:161, 177, 181).
- Encoder.VaapiEncoder.EncodeSurface: requires an H.264 profile when frame_cnt is 0. With any other profile, pack_sps writes nothing and encode_nalu_to_extra_data then reads outside the empty buffer (its size - 1 wraps).
- Encoder.VaapiEncoder.CreatePackedSpsPpsBuffers: requires an H.264 profile, for the same reason.
- Encoder.VaapiEncoder.EncodeNaluToExtraData: requires at least five packed bytes, the prefix the source copies without checking.
- Encoder.SliceTypeFor: requires a positive intra_period; the source divides by it.
- Encoder.VaapiEncoder.constructor: requires at least three reference surfaces, because create_pic_buffer reads refpics[2].
- Encoder.VaapiEncoder.EncodeSurface: a frame 0 that fails after its packed headers leaves the extradata appended, so the retry appends it again; the model keeps this and states extradata only for a successful frame 0.
- `bitstream.h` is not part of this model, so the parameter type of `bs_append_ue` is not visible. The model takes it as uint32_t, which is why the int arguments that can be negative (the picture sizes in macroblocks minus one, bit_rate_value_minus1 and cpb_size_value_minus1) are wrapped modulo 2^32 before they are coded.
- Encoder.VaapiEncoder.SliceCoversPicture: requires that width + 15 and height + 15 fit in 32 bits; the source adds 15 to the uint32_t fields, and a wrapped sum gives a macroblock count that does not cover the picture.
- Va.VaDisplay.CreateBuffer: a handle the driver returns while a buffer with that handle is still live is treated as a failed call. This assumes that vaCreateBuffer never hands out a live handle; the repeat-free buffer list of a frame rests on it. A handle destroyed earlier may be handed out again.
