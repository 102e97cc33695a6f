/**
 * The VA-API H.264 encoder object (struct vaapi_encoder): its rate and
 * geometry settings, the parameter sets it derives from them, the packed
 * headers it writes, the codec extradata it accumulates, and the per-frame
 * buffer list it builds and hands to the surface queue.
 */
module Encoder {
  import opened Words
  import opened VaapiCommon
  import opened Bitstream
  import opened Emulation
  import opened H264Params
  import opened Va

  const LEVEL_IDC: u8 := 41
  const MAX_NUM_REF_FRAMES: nat := 4
  const LOG2_MAX_PIC_ORDER_CNT_LSB_MINUS4: nat := 2
  const DEFAULT_CBP_WINDOW_MS: u32 := 1500
  const RC_TARGET_PERCENTAGE: nat := 90
  const RC_MIN_QP: nat := 1
  const SLICE_OFFSET_DIV2: int := 2

  // ---------------------------------------------------------------------------
  // Rate and geometry
  // ---------------------------------------------------------------------------

  /** bitrate * 1000 in uint32_t, with the low HRD_BITRATE_SCALE bits cleared
      by `&= ~((1U << 6) - 1)`. */
  function BitrateBitsOf(bitrate: u32): (r: u32)
    ensures r % 64 == 0
    ensures r <= Wrap32(bitrate * 1000) < r + 64
    ensures bitrate * 1000 < U32_MODULUS ==> r == bitrate * 1000 - (bitrate * 1000) % 64
  {
    var product := Wrap32(bitrate * 1000);
    ClearedProduct(bitrate * 1000, product);
    And(product, Not(Pow2(HRD_BITRATE_SCALE) - 1, 32), 32)
  }

  /** Clearing the low six bits of the truncated product rounds it down to a
      multiple of 64, which is the full product rounded down when that fits. */
  lemma ClearedProduct(full: nat, product: nat)
    requires product < U32_MODULUS && (full < U32_MODULUS ==> product == full)
    ensures var r := And(product, Not(Pow2(HRD_BITRATE_SCALE) - 1, 32), 32);
      && r % 64 == 0 && r <= product < r + 64 && r < U32_MODULUS
      && (full < U32_MODULUS ==> r == full - full % 64)
  {
    assert product < Pow2(32) && Pow2(HRD_BITRATE_SCALE) == 64 by { Pow2Values(); }
    ClearLowBits(product, 32, HRD_BITRATE_SCALE, Pow2(HRD_BITRATE_SCALE));
  }

  /** The coded picture buffer size for a window: bits * ms / 1000 in uint32_t. */
  function CbpSizeOf(bitrateBits: u32, windowMs: u32): u32
  {
    Wrap32(bitrateBits * windowMs) / 1000
  }

  /** With the default window and no wrap-around, the coded picture buffer
      holds one and a half seconds of bits. */
  lemma DefaultWindowSize(bitrateBits: u32)
    requires bitrateBits * 1500 < U32_MODULUS
    ensures CbpSizeOf(bitrateBits, DEFAULT_CBP_WINDOW_MS) == bitrateBits * 3 / 2
  {
    var q := bitrateBits * 3 / 2;
    var rem := bitrateBits * 3 % 2;
    assert bitrateBits * 1500 == 1000 * q + 500 * rem;
    ModUnique(bitrateBits * 1500, 1000, q, 500 * rem);
  }

  /** (x + 15) / 16 computed in uint32_t. */
  function MbsOf(x: u32): nat
  {
    Wrap32(x + 15) / 16
  }

  /** height_in_mbs * 16 - height, compared and halved as uint32_t. */
  function PaddingRows(height: u32): u32
  {
    Wrap32(MbsOf(height) * 16 - height)
  }

  /** The SPS init_sps leaves in place of the zeroed one. */
  function InitialSps(width: u32, height: u32, intraPeriod: u32, bitrateBits: u32,
                      framerateNum: u32, framerateDen: u32): Sps
  {
    var heightInMbs := MbsOf(height);
    var padding := PaddingRows(height);
    ZERO_SPS.(
      levelIdc := LEVEL_IDC,
      intraPeriod := intraPeriod,
      bitsPerSecond := bitrateBits,
      maxNumRefFrames := MAX_NUM_REF_FRAMES,
      pictureWidthInMbs := MbsOf(width),
      pictureHeightInMbs := heightInMbs,
      frameMbsOnlyFlag := 1,
      timeScale := framerateNum,
      numUnitsInTick := framerateDen,
      timingInfoPresentFlag := 1,
      frameCroppingFlag := if padding > 0 then 1 else 0,
      frameCropBottomOffset := if padding > 0 then padding / 2 else 0,
      log2MaxPicOrderCntLsbMinus4 := LOG2_MAX_PIC_ORDER_CNT_LSB_MINUS4)
  }

  /** The smallest number of 16-pixel macroblocks that covers x pixels. */
  predicate CoversWithMbs(m: nat, x: nat)
  {
    16 * m >= x && (m == 0 || 16 * (m - 1) < x)
  }

  /** At most one macroblock count covers x. */
  lemma CoversUnique(m1: nat, m2: nat, x: nat)
    requires CoversWithMbs(m1, x) && CoversWithMbs(m2, x)
    ensures m1 == m2
  {
  }

  /** Without wrap-around, MbsOf(x) is the covering count, and the uint32_t
      difference 16 * MbsOf(x) - x is the padding, below 16. */
  lemma MbsOfCovers(x: u32)
    requires x + 15 < U32_MODULUS
    ensures CoversWithMbs(MbsOf(x), x)
    ensures 0 <= 16 * MbsOf(x) - x < 16
    ensures Wrap32(MbsOf(x) * 16 - x) == 16 * MbsOf(x) - x
  {
    var m := (x + 15) / 16;
    assert MbsOf(x) == m;
    assert x + 15 == 16 * m + (x + 15) % 16;
  }

  /**
   * Without wrap-around, init_sps covers the picture with whole macroblocks,
   * crops exactly when the last macroblock row is padded, by half the padding
   * at the bottom, and leaves every other crop offset at zero.
   */
  lemma InitialSpsGeometry(width: u32, height: u32, intraPeriod: u32, bitrateBits: u32,
                           framerateNum: u32, framerateDen: u32)
    requires width + 15 < U32_MODULUS && height + 15 < U32_MODULUS
    ensures var s := InitialSps(width, height, intraPeriod, bitrateBits, framerateNum, framerateDen);
      && CoversWithMbs(s.pictureWidthInMbs, width)
      && CoversWithMbs(s.pictureHeightInMbs, height)
      && (s.frameCroppingFlag == 1 <==> 16 * s.pictureHeightInMbs > height)
      && s.frameCropBottomOffset == (16 * s.pictureHeightInMbs - height) / 2
      && s.frameCropLeftOffset == 0 && s.frameCropRightOffset == 0 && s.frameCropTopOffset == 0
      && s.maxNumRefFrames == MAX_NUM_REF_FRAMES && s.bitsPerSecond == bitrateBits
  {
    var s := InitialSps(width, height, intraPeriod, bitrateBits, framerateNum, framerateDen);
    MbsOfCovers(width);
    MbsOfCovers(height);
    var hm := MbsOf(height);
    var padding := PaddingRows(height);
    assert s.pictureWidthInMbs == MbsOf(width) && s.pictureHeightInMbs == hm;
    assert s.frameCroppingFlag == (if padding > 0 then 1 else 0);
    assert s.frameCropBottomOffset == (if padding > 0 then padding / 2 else 0);
    assert padding == 16 * hm - height;
  }

  /**
   * For a bit rate whose product by 1000 fits an int, bit_rate_value_minus1
   * is the rate in units of 64 bits per second, less one, and is not
   * negative.
   */
  lemma BitRateValueOfSetBitrate(bitrate: u32)
    requires 1 <= bitrate && bitrate * 1000 < 0x8000_0000
    ensures BitRateValueMinus1(BitrateBitsOf(bitrate)) == (bitrate * 1000) / 64 - 1 >= 0
  {
    var bb := BitrateBitsOf(bitrate);
    Pow2Values();
    assert AsInt32(bb) == bb;
    assert bb / 64 == (bitrate * 1000) / 64;
  }

  /** The slice type encode_surface picks: an I slice every intra_period frames. */
  function SliceTypeFor(frameCnt: u64, intraPeriod: u32): (t: SliceType)
    requires intraPeriod > 0
    ensures t == SliceI <==> frameCnt % intraPeriod == 0
    ensures t != SliceB
  {
    if frameCnt % intraPeriod == 0 then SliceI else SliceP
  }

  /** get_last_buffer */
  function LastBuffer(items: seq<BufferId>): BufferId
  {
    if |items| > 0 then items[|items| - 1] else VA_INVALID_ID
  }

  /** The handles of a list that destroy_buffers passes to vaDestroyBuffer. */
  function ValidIds(items: seq<BufferId>): (r: seq<BufferId>)
    ensures forall id :: id in r <==> id in items && id != VA_INVALID_ID
  {
    if items == [] then []
    else ValidIds(items[..|items| - 1])
         + (if items[|items| - 1] != VA_INVALID_ID then [items[|items| - 1]] else [])
  }

  predicate Distinct(items: seq<BufferId>)
  {
    forall i, j :: 0 <= i < j < |items| ==> items[i] != items[j]
  }

  /**
   * From (b0, l0) to (b1, l1) the list only grows, every buffer that was live
   * is still live with the same content, and the new live buffers are exactly
   * the new entries of the list, none of them live before.
   */
  ghost predicate Grows(b0: map<BufferId, BufferContent>, l0: seq<BufferId>,
                        b1: map<BufferId, BufferContent>, l1: seq<BufferId>)
  {
    && |l0| <= |l1| && l1[..|l0|] == l0
    && (forall id :: id in b0 ==> id in b1 && b1[id] == b0[id])
    && (forall id :: id in b1 && id !in b0 ==> id in l1[|l0|..])
    && (forall id :: id in l1[|l0|..] ==> id in b1 && id !in b0)
  }

  /** Removing the one buffer that was added gives back the buffers before. */
  lemma DropAdded(b0: map<BufferId, BufferContent>, id: BufferId, b1: map<BufferId, BufferContent>)
    requires id !in b0 && b1.Keys == b0.Keys + {id}
    requires forall k :: k in b0 ==> b1[k] == b0[k]
    ensures b1 - {id} == b0
  {
  }

  lemma GrowsTransitive(b0: map<BufferId, BufferContent>, l0: seq<BufferId>,
                        b1: map<BufferId, BufferContent>, l1: seq<BufferId>,
                        b2: map<BufferId, BufferContent>, l2: seq<BufferId>)
    requires Grows(b0, l0, b1, l1) && Grows(b1, l1, b2, l2)
    ensures Grows(b0, l0, b2, l2)
  {
    assert l2[|l0|..] == l1[|l0|..] + l2[|l1|..];
  }

  /** A list of distinct valid handles is destroyed in order, each once. */
  lemma {:induction false} ValidIdsOfValidList(items: seq<BufferId>)
    requires VA_INVALID_ID !in items
    ensures ValidIds(items) == items
  {
    if items != [] {
      ValidIdsOfValidList(items[..|items| - 1]);
      assert items == items[..|items| - 1] + [items[|items| - 1]];
    }
  }

  /** destroy_buffers on a list without repeats passes each valid listed
      handle to vaDestroyBuffer exactly once. */
  lemma {:induction false} DestroyedOnce(items: seq<BufferId>, id: BufferId)
    requires Distinct(items) && id in items && id != VA_INVALID_ID
    ensures multiset(ValidIds(items))[id] == 1
  {
    var k := |items| - 1;
    var init := items[..k];
    assert items == init + [items[k]];
    assert Distinct(init);
    if items[k] == id {
      assert id !in ValidIds(init);
      assert ValidIds(items) == ValidIds(init) + [id];
    } else {
      assert id in init;
      DestroyedOnce(init, id);
    }
  }

  /** The listed buffers are live and hold cs, in list order. */
  ghost predicate Holds(b: map<BufferId, BufferContent>, items: seq<BufferId>, cs: seq<BufferContent>)
  {
    |items| == |cs| && forall i :: 0 <= i < |items| ==> items[i] in b && b[items[i]] == cs[i]
  }

  /** The bytes of a NAL unit: its header, the syntax elements and the
      trailing bits, packed; the five header bytes come first, and a payload
      of at least one bit adds a sixth. */
  function NaluBytes(prefix: seq<bool>, syntax: seq<Element>, suffix: seq<bool>): (r: seq<u8>)
    requires |prefix| == NAL_PREFIX_BITS
    ensures |r| >= 5 && r[..5] == PackBytes(prefix)
    ensures |Encode(syntax)| > 0 ==> |r| >= 6
  {
    var rest := Encode(syntax) + suffix;
    assert prefix + Encode(syntax) + suffix == prefix + rest;
    PackBytesAppend(prefix, rest);
    PackBytes(prefix + Encode(syntax) + suffix)
  }

  /** A run of elements whose first element has bits has bits. */
  lemma EncodeNonEmpty(es: seq<Element>)
    requires |es| > 0 && |ElementBits(es[0])| > 0
    ensures |Encode(es)| > 0
  {
    assert es == [es[0]] + es[1..];
    EncodeAppend([es[0]], es[1..]);
    assert [es[0]][..0] == [];
  }

  /** Appending to no bytes. */
  lemma AfterNothing(x: seq<u8>, a: seq<u8>, b: seq<u8>)
    ensures x == [] ==> x + a + b == a + b
  {
  }

  /** What two stretches of growth listed, one after the other. */
  lemma HoldsAppend(b0: map<BufferId, BufferContent>, l0: seq<BufferId>,
                    b1: map<BufferId, BufferContent>, l1: seq<BufferId>,
                    b2: map<BufferId, BufferContent>, l2: seq<BufferId>,
                    c1: seq<BufferContent>, c2: seq<BufferContent>)
    requires Grows(b0, l0, b1, l1) && Grows(b1, l1, b2, l2)
    requires Holds(b1, l1[|l0|..], c1) && Holds(b2, l2[|l1|..], c2)
    ensures Holds(b2, l2[|l0|..], c1 + c2)
  {
    assert l2[|l0|..] == l1[|l0|..] + l2[|l1|..];
  }

  /** Two lists holding c1 and c2, one after the other. */
  lemma HoldsConcat(b: map<BufferId, BufferContent>, l1: seq<BufferId>, l2: seq<BufferId>,
                    c1: seq<BufferContent>, c2: seq<BufferContent>)
    requires Holds(b, l1, c1) && Holds(b, l2, c2)
    ensures Holds(b, l1 + l2, c1 + c2)
  {
  }

  /** Buffers that stay live with the same content still hold what they held. */
  lemma HoldsKept(b0: map<BufferId, BufferContent>, b1: map<BufferId, BufferContent>,
                  items: seq<BufferId>, cs: seq<BufferContent>)
    requires forall id :: id in b0 ==> id in b1 && b1[id] == b0[id]
    requires Holds(b0, items, cs)
    ensures Holds(b1, items, cs)
  {
  }

  /** From log d0 to log d1, vaDestroyBuffer was only called on handles that
      were not live in b0. */
  /** What CreateFrameBuffers knows once the parameter buffers (b1, l1)
      and then the coded and picture buffers (b2, l2) are created. */
  lemma FrameBuffersCompose(b0: map<BufferId, BufferContent>, d0: seq<BufferId>,
                            b1: map<BufferId, BufferContent>, l1: seq<BufferId>, d1: seq<BufferId>,
                            b2: map<BufferId, BufferContent>, l2: seq<BufferId>, d2: seq<BufferId>,
                            c1: seq<BufferContent>, c2: seq<BufferContent>, coded: BufferId, ok: bool)
    requires Grows(b0, [], b1, l1) && Holds(b1, l1, c1) && SparesLive(b0, d0, d1)
    requires |l1| <= |l2| && l2[..|l1|] == l1
    requires ok ==> Holds(b2, l2[|l1|..], c2)
    requires forall id :: id in b1 ==> id in b2 && b2[id] == b1[id]
    requires forall id :: id in b2 && id !in b1 ==> id in l2[|l1|..] || id == coded
    requires forall id :: id in l2[|l1|..] ==> id !in b1
    requires coded != VA_INVALID_ID ==> coded !in b1
    requires d2 == d1
    ensures forall id :: id in b0 ==> id in b2 && b2[id] == b0[id]
    ensures forall id :: id in b2 && id !in b0 ==> id in l2 || id == coded
    ensures forall id :: id in l2 ==> id !in b0
    ensures coded != VA_INVALID_ID ==> coded !in b0
    ensures ok ==> Holds(b2, l2, c1 + c2)
    ensures SparesLive(b0, d0, d2)
  {
    assert l2 == l1 + l2[|l1|..];
    assert forall id :: id in l2 ==> id in l1 || id in l2[|l1|..];
    if ok {
      HoldsKept(b1, b2, l1, c1);
      HoldsConcat(b2, l1, l2[|l1|..], c1, c2);
    }
  }

  /**
   * What a frame does to the driver's buffers, from live buffers b0 and
   * destroy log d0 to b2 and d2: every buffer live before is kept, a new live
   * buffer is the coded one or, on success, a listed one, and the log grows
   * by the buffers dropped while creating and, on failure, by the valid
   * listed ones, all of them created by this frame.
   */
  ghost predicate FrameEffect(b0: map<BufferId, BufferContent>, d0: seq<BufferId>,
                              b2: map<BufferId, BufferContent>, d2: seq<BufferId>,
                              listed: seq<BufferId>, dropped: seq<BufferId>, coded: BufferId, ok: bool)
  {
    && (forall id :: id in b0 ==> id in b2 && b2[id] == b0[id])
    && (forall id :: id in b2 && id !in b0 ==> id == coded || (ok && id in listed))
    && d2 == d0 + dropped + (if ok then [] else ValidIds(listed))
    && (forall id :: id in dropped || id in listed ==> id !in b0)
  }

  /**
   * A frame's buffers b1 grew from b0 by the listed buffers l and the coded
   * buffer, destroying only buffers it created (d0 to d1), and none at all
   * on a later frame that built everything. Then either nothing changed (ok)
   * or the listed buffers were destroyed (b2, d2).
   */
  lemma FrameOutcome(b0: map<BufferId, BufferContent>, d0: seq<BufferId>,
                     b1: map<BufferId, BufferContent>, d1: seq<BufferId>,
                     b2: map<BufferId, BufferContent>, d2: seq<BufferId>,
                     l: seq<BufferId>, coded: BufferId, built: bool, ok: bool, later: bool)
    requires forall id :: id in b0 ==> id in b1 && b1[id] == b0[id]
    requires forall id :: id in b1 && id !in b0 ==> id in l || id == coded
    requires forall id :: id in l ==> id !in b0
    requires SparesLive(b0, d0, d1)
    requires built && later ==> d1 == d0
    requires ok ==> built && b2 == b1 && d2 == d1
    requires !ok ==> forall id :: id in b2 <==> id in b1 && id !in l
    requires !ok ==> forall id :: id in b2 ==> b2[id] == b1[id]
    requires !ok ==> d2 == d1 + ValidIds(l)
    ensures FrameEffect(b0, d0, b2, d2, l, d1[|d0|..], coded, ok)
    ensures coded in b1 && coded !in l ==> coded in b2 && b2[coded] == b1[coded]
    ensures ok && later ==> d1[|d0|..] == []
  {
    assert d1 == d0 + d1[|d0|..];
  }

  /** Counting one frame on, modulo 2^64, flips the parity of frame_cnt,
      since 2^64 is even. */
  lemma NextParity(k: u64)
    ensures Wrap64(k + 1) % 2 == (k + 1) % 2
  {
    if k + 1 == U64_MODULUS {
      assert Wrap64(k + 1) == 0 by { ModUnique(k + 1, U64_MODULUS, 1, 0); }
      ModUnique(k, 2, (U64_MODULUS - 2) / 2, 1);
    }
  }

  /** Two buffers created one after the other and listed in that order:
      the list grows by exactly the pair, which holds the two contents. */
  lemma PairAdded(b0: map<BufferId, BufferContent>, l0: seq<BufferId>,
                  x: BufferId, h: BufferContent, y: BufferId, d: BufferContent)
    requires x !in b0 && y !in b0[x := h]
    ensures Grows(b0, l0, b0[x := h][y := d], l0 + [x] + [y])
    ensures Holds(b0[x := h][y := d], (l0 + [x] + [y])[|l0|..], [h, d])
  {
    assert (l0 + [x] + [y])[|l0|..] == [x, y];
    assert (l0 + [x] + [y])[..|l0|] == l0;
  }

  /** Two stretches of growth, one after the other: what was created,
      what was listed and what was destroyed. */
  lemma GrowthCompose(b0: map<BufferId, BufferContent>, l0: seq<BufferId>, d0: seq<BufferId>,
                      b1: map<BufferId, BufferContent>, l1: seq<BufferId>, d1: seq<BufferId>,
                      b2: map<BufferId, BufferContent>, l2: seq<BufferId>, d2: seq<BufferId>,
                      c1: seq<BufferContent>, c2: seq<BufferContent>)
    requires Grows(b0, l0, b1, l1) && Grows(b1, l1, b2, l2)
    requires Holds(b1, l1[|l0|..], c1) && Holds(b2, l2[|l1|..], c2)
    requires SparesLive(b0, d0, d1) && SparesLive(b1, d1, d2)
    ensures Grows(b0, l0, b2, l2) && Holds(b2, l2[|l0|..], c1 + c2) && SparesLive(b0, d0, d2)
  {
    GrowsTransitive(b0, l0, b1, l1, b2, l2);
    HoldsAppend(b0, l0, b1, l1, b2, l2, c1, c2);
    SparesLiveTransitive(b0, d0, b1, d1, d2);
  }

  ghost predicate SparesLive(b0: map<BufferId, BufferContent>, d0: seq<BufferId>, d1: seq<BufferId>)
  {
    |d0| <= |d1| && d1[..|d0|] == d0 && forall id :: id in d1[|d0|..] ==> id !in b0
  }

  lemma SparesLiveTransitive(b0: map<BufferId, BufferContent>, d0: seq<BufferId>,
                             b1: map<BufferId, BufferContent>, d1: seq<BufferId>, d2: seq<BufferId>)
    requires SparesLive(b0, d0, d1) && SparesLive(b1, d1, d2) && b0.Keys <= b1.Keys
    ensures SparesLive(b0, d0, d2)
  {
    assert d2[|d0|..] == d1[|d0|..] + d2[|d1|..];
  }

  /** The header parameter buffer and the data buffer that
      create_packed_header_buffers lists for one packed NAL unit. */
  function PackedPair(headerType: PackedHeaderType, data: seq<u8>): seq<BufferContent>
  {
    [PackedHeaderParameterBuffer(headerType, Wrap32(|data| * 8), false), PackedHeaderDataBuffer(data)]
  }

  /** What create_packed_sps_pps_buffers can list for the NAL units spsNalu
      and ppsNalu: the SPS pair, the PPS pair, both in that order, or neither,
      since a pair whose second buffer fails is taken back whole. */
  predicate PackedChoice(packed: seq<BufferContent>, spsNalu: seq<u8>, ppsNalu: seq<u8>)
  {
    var spsPair := PackedPair(PackedHeaderSequence, spsNalu);
    var ppsPair := PackedPair(PackedHeaderPicture, ppsNalu);
    packed == [] || packed == spsPair || packed == ppsPair || packed == spsPair + ppsPair
  }

  /** Each packed header is listed whole or not at all. */
  lemma PackedChoiceOfPairs(spsPair: seq<BufferContent>, ppsPair: seq<BufferContent>,
                            spsNalu: seq<u8>, ppsNalu: seq<u8>)
    requires spsPair == [] || spsPair == PackedPair(PackedHeaderSequence, spsNalu)
    requires ppsPair == [] || ppsPair == PackedPair(PackedHeaderPicture, ppsNalu)
    ensures PackedChoice(spsPair + ppsPair, spsNalu, ppsNalu)
  {
    assert [] + ppsPair == ppsPair && spsPair + [] == spsPair;
  }

  // ---------------------------------------------------------------------------
  // The syntax blocks of pack_sps and pack_pps, each appended in source order
  // ---------------------------------------------------------------------------

  /** The NAL unit pack_sps writes once the profile is known. */
  method WriteSpsNalu(bs: BitWriter, p: ProfileCoding, sps: Sps, bitrateBits: u32, cbpSize: u32, cbr: bool)
    modifies bs
    ensures bs.Bits() == old(bs.Bits()) + bs.nalPrefix(NAL_SPS, NAL_PRIORITY_HIGHEST)
                       + Encode(SpsSyntax(p, sps, bitrateBits, cbpSize, cbr)) + bs.nalSuffix
  {
    bs.BeginNalu(NAL_SPS, NAL_PRIORITY_HIGHEST);
    WriteSpsFields(bs, p, sps);
    WriteVui(bs, sps, bitrateBits, cbpSize, cbr);
    assert [] + SpsHeader(p, sps) == SpsHeader(p, sps);
    assert bs.written == SpsSyntax(p, sps, bitrateBits, cbpSize, cbr);
    assert bs.Bits() == old(bs.Bits()) + bs.nalPrefix(NAL_SPS, NAL_PRIORITY_HIGHEST)
                        + Encode(SpsSyntax(p, sps, bitrateBits, cbpSize, cbr));
    bs.EndNalu();
  }

  /** profile_idc up to the crop offsets. */
  method WriteSpsFields(bs: BitWriter, p: ProfileCoding, sps: Sps)
    modifies bs
    ensures bs.done == old(bs.done)
    ensures bs.written == old(bs.written) + SpsHeader(p, sps) + SpsFrameFields(sps) + SpsCropping(sps)
  {
    WriteSpsHeader(bs, p, sps);
    WriteSpsFrameFields(bs, sps);
    WriteSpsCropping(bs, sps);
  }

  /** vui_parameters() */
  method WriteVui(bs: BitWriter, sps: Sps, bitrateBits: u32, cbpSize: u32, cbr: bool)
    modifies bs
    ensures bs.done == old(bs.done)
    ensures bs.written == old(bs.written) + VuiTiming(sps) + VuiHrd(sps, bitrateBits, cbpSize, cbr)
                          + VuiRestriction(sps)
  {
    WriteVuiTiming(bs, sps);
    WriteVuiHrd(bs, sps, bitrateBits, cbpSize, cbr);
    WriteVuiRestriction(bs, sps);
  }

  method WriteSpsHeader(bs: BitWriter, p: ProfileCoding, sps: Sps)
    modifies bs
    ensures bs.done == old(bs.done) && bs.written == old(bs.written) + SpsHeader(p, sps)
  {
    bs.AppendBits(8, p.profileIdc);
    bs.AppendBool(p.constraintSet0);
    bs.AppendBool(p.constraintSet1);
    bs.AppendBool(false);                           // constraint_set2_flag
    bs.AppendBool(false);                           // constraint_set3_flag
    bs.AppendBool(false);                           // constraint_set4_flag
    bs.AppendBool(false);                           // constraint_set5_flag
    bs.AppendBits(2, 0);                            // reserved_zero_2bits
    bs.AppendBits(8, sps.levelIdc);
    bs.AppendUe(sps.seqParameterSetId);
  }

  method WriteSpsFrameFields(bs: BitWriter, sps: Sps)
    modifies bs
    ensures bs.done == old(bs.done) && bs.written == old(bs.written) + SpsFrameFields(sps)
  {
    bs.AppendUe(sps.log2MaxFrameNumMinus4);
    bs.AppendUe(sps.picOrderCntType);
    bs.AppendUe(sps.log2MaxPicOrderCntLsbMinus4);
    bs.AppendUe(sps.maxNumRefFrames);
    bs.AppendBits(1, 0);                            // gaps_in_frame_num_value_allowed_flag
    bs.AppendUe(Wrap32(sps.pictureWidthInMbs - 1));
    bs.AppendUe(Wrap32(sps.pictureHeightInMbs - 1));
    bs.AppendBits(1, sps.frameMbsOnlyFlag);
    bs.AppendBits(1, sps.direct8x8InferenceFlag);
    bs.AppendBits(1, sps.frameCroppingFlag);
  }

  method WriteSpsCropping(bs: BitWriter, sps: Sps)
    modifies bs
    ensures bs.done == old(bs.done) && bs.written == old(bs.written) + SpsCropping(sps)
  {
    if sps.frameCroppingFlag != 0 {
      bs.AppendUe(sps.frameCropLeftOffset);
      bs.AppendUe(sps.frameCropRightOffset);
      bs.AppendUe(sps.frameCropTopOffset);
      bs.AppendUe(sps.frameCropBottomOffset);
    } else {
      assert bs.written == old(bs.written) + [];
    }
  }

  method WriteVuiTiming(bs: BitWriter, sps: Sps)
    modifies bs
    ensures bs.done == old(bs.done) && bs.written == old(bs.written) + VuiTiming(sps)
  {
    bs.AppendBits(1, 1);                            // vui_parameters_present_flag
    bs.AppendBits(1, 0);                            // aspect_ratio_info_present_flag
    bs.AppendBits(1, 0);                            // overscan_info_present_flag
    bs.AppendBits(1, 0);                            // video_signal_type_present_flag
    bs.AppendBits(1, 0);                            // chroma_loc_info_present_flag
    bs.AppendBits(1, sps.timingInfoPresentFlag);
    bs.AppendBits(32, sps.numUnitsInTick);
    bs.AppendBits(32, Wrap32(sps.timeScale * 2));
    bs.AppendBool(true);                            // fixed_frame_rate_flag
  }

  method WriteVuiHrd(bs: BitWriter, sps: Sps, bitrateBits: u32, cbpSize: u32, cbr: bool)
    modifies bs
    ensures bs.done == old(bs.done)
    ensures bs.written == old(bs.written) + VuiHrd(sps, bitrateBits, cbpSize, cbr)
  {
    var nalHrdParametersPresentFlag := sps.bitsPerSecond > 0;
    bs.AppendBool(nalHrdParametersPresentFlag);
    ghost var w := bs.written;
    if nalHrdParametersPresentFlag {
      WriteHrdParameters(bs, bitrateBits, cbpSize, cbr);
    } else {
      assert bs.written == w + [];
    }
    var vclHrdParametersPresentFlag := false;
    bs.AppendBool(vclHrdParametersPresentFlag);
    w := bs.written;
    if nalHrdParametersPresentFlag || vclHrdParametersPresentFlag {
      bs.AppendBool(false);                         // low_delay_hrd_flag
    } else {
      assert bs.written == w + [];
    }
  }

  /** The nal_hrd_parameters block, with cpb_cnt_minus1 = 0. */
  method WriteHrdParameters(bs: BitWriter, bitrateBits: u32, cbpSize: u32, cbr: bool)
    modifies bs
    ensures bs.done == old(bs.done)
    ensures bs.written == old(bs.written) + HrdParameters(bitrateBits, cbpSize, cbr)
  {
    var cpbCntMinus1 := 0;
    bs.AppendUe(cpbCntMinus1);
    bs.AppendBits(4, 0);                            // bit_rate_scale
    bs.AppendBits(4, 0);                            // cpb_size_scale
    ghost var w := bs.written;
    var i := 0;
    while i <= cpbCntMinus1
      invariant 0 <= i <= cpbCntMinus1 + 1
      invariant bs.done == old(bs.done)
      invariant i == 0 ==> bs.written == w
      invariant i == 1 ==> bs.written == w + [UeField(BitRateValueMinus1(bitrateBits)),
                                              UeField(CpbSizeValueMinus1(cbpSize)), Flag(cbr)]
    {
      var bitRateScale := AsInt32(bitrateBits);
      bitRateScale := bitRateScale / Pow2(HRD_BITRATE_SCALE);   // arithmetic >> on int
      bs.AppendUe(Wrap32(bitRateScale - 1));
      var cbpSizeScale := AsInt32(cbpSize);
      cbpSizeScale := cbpSizeScale / Pow2(HRD_CPB_SIZE_SCALE);
      bs.AppendUe(Wrap32(cbpSizeScale - 1));
      bs.AppendBool(cbr);
      i := i + 1;
    }
    bs.AppendBits(5, HRD_LENGTH_MINUS1);            // initial_cpb_removal_delay_length_minus1
    bs.AppendBits(5, HRD_LENGTH_MINUS1);            // cpb_removal_delay_length_minus1
    bs.AppendBits(5, HRD_LENGTH_MINUS1);            // dpb_output_delay_length_minus1
    bs.AppendBits(5, HRD_LENGTH_MINUS1);            // time_offset_length
  }

  method WriteVuiRestriction(bs: BitWriter, sps: Sps)
    modifies bs
    ensures bs.done == old(bs.done) && bs.written == old(bs.written) + VuiRestriction(sps)
  {
    bs.AppendBool(false);                           // pic_struct_present_flag
    var bitstreamRestrictionFlag := true;
    bs.AppendBool(bitstreamRestrictionFlag);
    if bitstreamRestrictionFlag {
      bs.AppendBool(false);                         // motion_vectors_over_pic_boundaries_flag
      bs.AppendUe(2);                               // max_bytes_per_pic_denom
      bs.AppendUe(1);                               // max_bits_per_mb_denom
      bs.AppendUe(16);                              // log2_max_mv_length_horizontal
      bs.AppendUe(16);                              // log2_max_mv_length_vertical
      bs.AppendUe(0);                               // max_num_reorder_frames
      bs.AppendUe(sps.maxNumRefFrames);             // max_dec_frame_buffering
    }
  }

  method WritePpsEntropyAndRefs(bs: BitWriter, pps: Pps)
    modifies bs
    ensures bs.done == old(bs.done) && bs.written == old(bs.written) + PpsEntropyAndRefs(pps)
  {
    bs.AppendUe(pps.picParameterSetId);
    bs.AppendUe(pps.seqParameterSetId);
    bs.AppendBits(1, pps.entropyCodingModeFlag);
    bs.AppendBool(false);                           // bottom_field_pic_order_in_frame_present_flag
    bs.AppendUe(0);                                 // num_slice_groups_minus1
    bs.AppendUe(pps.numRefIdxL0ActiveMinus1);
    bs.AppendUe(pps.numRefIdxL1ActiveMinus1);
    bs.AppendBits(1, pps.weightedPredFlag);
    bs.AppendBits(2, pps.weightedBipredIdc);
  }

  method WritePpsQpAndFlags(bs: BitWriter, pps: Pps)
    modifies bs
    ensures bs.done == old(bs.done) && bs.written == old(bs.written) + PpsQpAndFlags(pps)
  {
    bs.AppendSe(pps.picInitQp - 26);
    bs.AppendSe(0);                                 // pic_init_qs_minus26
    bs.AppendSe(0);                                 // chroma_qp_index_offset
    bs.AppendBits(1, pps.deblockingFilterControlPresentFlag);
    bs.AppendBits(1, 0);                            // constrained_intra_pred_flag
    bs.AppendBits(1, 0);                            // redundant_pic_cnt_present_flag
    bs.AppendBits(1, pps.transform8x8ModeFlag);
  }

  /** darray buffer_list_t of VABufferID. */
  class BufferList {
    var items: seq<BufferId>

    constructor ()
      ensures items == []
    {
      items := [];
    }
  }

  /** struct vaapi_encoder. */
  class VaapiEncoder {
    const display: VaDisplay
    const surfq: SurfaceQueue
    const caps: Caps
    const width: u32
    const height: u32
    const cbr: bool
    const framerateNum: u32
    const framerateDen: u32
    const intraPeriod: u32
    const outputBufSize: u32
    /** The reference surfaces created with the context. */
    const refpics: seq<SurfaceId>
    /** The NAL framing of the bit writer (bitstream.h is not part of this model). */
    const nalPrefix: (nat, nat) -> seq<bool>
    const nalSuffix: seq<bool>

    var bitrate: u32
    var bitrateBits: u32
    var cbpWindowMs: u32
    var cbpSize: u32
    var qp: u32
    var sps: Sps
    var pps: Pps
    var slice: Slice
    var frameCnt: u64
    var extraData: seq<u8>

    ghost predicate Valid()
      reads this, display
    {
      && intraPeriod > 0
      && |refpics| >= 3
      && |pps.referenceFrameIds| == NUM_REFERENCE_FRAMES
      && (forall t: nat, p: nat :: |nalPrefix(t, p)| == NAL_PREFIX_BITS)
      && display.Valid()
    }

    /**
     * The attributes vaapi_encoder_create copies into the zeroed encoder,
     * then initialize_defaults. intra_period is given rather than computed
     * from the frame rate and keyint.
     */
    constructor (display: VaDisplay, surfq: SurfaceQueue, caps: Caps,
                 width: u32, height: u32, bitrate: u32, cbr: bool,
                 framerateNum: u32, framerateDen: u32, intraPeriod: u32,
                 refpics: seq<SurfaceId>,
                 nalPrefix: (nat, nat) -> seq<bool>, nalSuffix: seq<bool>)
      requires display.Valid() && intraPeriod > 0 && |refpics| >= 3
      requires forall t: nat, p: nat :: |nalPrefix(t, p)| == NAL_PREFIX_BITS
      ensures Valid()
      ensures this.display == display && this.surfq == surfq && this.caps == caps
      ensures this.width == width && this.height == height && this.cbr == cbr
      ensures this.intraPeriod == intraPeriod && this.refpics == refpics
      ensures this.framerateNum == framerateNum && this.framerateDen == framerateDen
      ensures this.nalPrefix == nalPrefix && this.nalSuffix == nalSuffix
      ensures outputBufSize == Wrap32(width * height)
      ensures qp == 0 && cbpWindowMs == DEFAULT_CBP_WINDOW_MS
      ensures this.bitrate == bitrate && bitrateBits == BitrateBitsOf(bitrate)
      ensures cbpSize == CbpSizeOf(bitrateBits, DEFAULT_CBP_WINDOW_MS)
      ensures sps == InitialSps(width, height, intraPeriod, bitrateBits, framerateNum, framerateDen)
      ensures pps == ZERO_PPS.(entropyCodingModeFlag := 1, deblockingFilterControlPresentFlag := 1)
      ensures frameCnt == 0 && extraData == []
    {
      this.display, this.surfq, this.caps := display, surfq, caps;
      this.width, this.height, this.cbr := width, height, cbr;
      this.framerateNum, this.framerateDen := framerateNum, framerateDen;
      this.intraPeriod, this.refpics := intraPeriod, refpics;
      this.nalPrefix, this.nalSuffix := nalPrefix, nalSuffix;
      outputBufSize := Wrap32(width * height);
      this.bitrate, bitrateBits, cbpWindowMs, cbpSize, qp := bitrate, 0, 0, 0, 0;
      sps, pps, slice := ZERO_SPS, ZERO_PPS, Slice(0, SliceP, 0, 0);
      frameCnt, extraData := 0, [];
      new;
      // initialize_defaults
      qp := 0;
      cbpWindowMs := DEFAULT_CBP_WINDOW_MS;
      var _ := SetBitrate(bitrate);
      var _ := SetCbpWindow(DEFAULT_CBP_WINDOW_MS);
      InitSps();
      InitPps();
    }

    /** vaapi_encoder_set_cbp_window */
    method SetCbpWindow(cbpWindowMs: u32) returns (ok: bool)
      modifies this`cbpWindowMs, this`cbpSize
      ensures ok
      ensures this.cbpWindowMs == cbpWindowMs
      ensures cbpSize == CbpSizeOf(bitrateBits, cbpWindowMs)
    {
      this.cbpWindowMs := cbpWindowMs;
      cbpSize := Wrap32(bitrateBits * this.cbpWindowMs) / 1000;
      return true;
    }

    /** vaapi_encoder_set_bitrate: the SPS keeps the rate init_sps copied. */
    method SetBitrate(bitrate: u32) returns (ok: bool)
      modifies this`bitrate, this`bitrateBits, this`cbpWindowMs, this`cbpSize
      ensures ok
      ensures this.bitrate == bitrate && bitrateBits == BitrateBitsOf(bitrate)
      ensures bitrateBits % 64 == 0 && bitrateBits <= Wrap32(bitrate * 1000)
      ensures cbpWindowMs == old(cbpWindowMs)
      ensures cbpSize == CbpSizeOf(bitrateBits, old(cbpWindowMs))
      ensures sps == old(sps)
    {
      this.bitrate := bitrate;
      bitrateBits := Wrap32(bitrate * 1000);
      Pow2Values();
      bitrateBits := And(bitrateBits, Not(Pow2(HRD_BITRATE_SCALE) - 1, 32), 32);
      var _ := SetCbpWindow(cbpWindowMs);
      return true;
    }

    /** init_sps */
    method InitSps()
      modifies this`sps
      ensures sps == InitialSps(width, height, intraPeriod, bitrateBits, framerateNum, framerateDen)
    {
      sps := ZERO_SPS;
      var frameCroppingFlag: nat := 0;
      var frameCropBottomOffset: nat := 0;
      var widthInMbs: nat := MbsOf(width);
      var heightInMbs: nat := MbsOf(height);
      if PaddingRows(height) > 0 {
        frameCroppingFlag := 1;
        frameCropBottomOffset := PaddingRows(height) / 2;
      }
      sps := sps.(
        levelIdc := LEVEL_IDC,
        intraPeriod := intraPeriod,
        bitsPerSecond := bitrateBits,
        maxNumRefFrames := MAX_NUM_REF_FRAMES,
        pictureWidthInMbs := widthInMbs,
        pictureHeightInMbs := heightInMbs,
        frameMbsOnlyFlag := 1,
        timeScale := framerateNum,
        numUnitsInTick := framerateDen,
        timingInfoPresentFlag := 1,
        frameCroppingFlag := frameCroppingFlag,
        frameCropBottomOffset := frameCropBottomOffset,
        log2MaxPicOrderCntLsbMinus4 := LOG2_MAX_PIC_ORDER_CNT_LSB_MINUS4);
    }

    /** init_pps: only three fields are set; the rest of the PPS stays. */
    method InitPps()
      modifies this`pps
      ensures pps == old(pps).(picInitQp := qp, entropyCodingModeFlag := 1,
                               deblockingFilterControlPresentFlag := 1)
    {
      pps := pps.(picInitQp := qp);
      pps := pps.(entropyCodingModeFlag := 1);
      pps := pps.(deblockingFilterControlPresentFlag := 1);
    }

    /** pack_pps: always succeeds. */
    method PackPps(bs: BitWriter) returns (ok: bool)
      modifies bs
      ensures ok
      ensures bs.Bits() == old(bs.Bits()) + bs.nalPrefix(NAL_PPS, NAL_PRIORITY_HIGHEST)
                         + Encode(PpsSyntax(caps, pps)) + bs.nalSuffix
    {
      var pic := pps;
      bs.BeginNalu(NAL_PPS, NAL_PRIORITY_HIGHEST);
      WritePpsEntropyAndRefs(bs, pic);
      WritePpsQpAndFlags(bs, pic);
      ghost var w := bs.written;
      if caps.vaapiIsHigh {
        bs.AppendBits(1, pic.transform8x8ModeFlag);
        bs.AppendBool(false);                       // pic_scaling_matrix_present_flag
        bs.AppendSe(pic.secondChromaQpIndexOffset);
        assert bs.written == w + PpsHighExtension(pic);
      } else {
        assert bs.written == w + [];
      }
      assert bs.written == PpsSyntax(caps, pic);
      bs.EndNalu();
      return true;
    }

    /** pack_sps: an unknown profile fails before anything is written. */
    method PackSps(bs: BitWriter) returns (ok: bool)
      modifies bs
      ensures ok <==> ProfileCodingOf(caps.va).Some?
      ensures ok ==> bs.Bits() == old(bs.Bits()) + bs.nalPrefix(NAL_SPS, NAL_PRIORITY_HIGHEST)
                               + Encode(SpsSyntax(ProfileCodingOf(caps.va).value, sps,
                                                  bitrateBits, cbpSize, cbr))
                               + bs.nalSuffix
      ensures !ok ==> bs.done == old(bs.done) && bs.written == old(bs.written)
    {
      var profileIdc: nat;
      var constraintSet0, constraintSet1 := false, false;
      if caps.va == VAProfileH264ConstrainedBaseline || caps.va == VAProfileH264Baseline {
        profileIdc := SPS_PROFILE_IDC_BASELINE;
        if caps.va == VAProfileH264ConstrainedBaseline {
          constraintSet0 := true;
        }
      } else if caps.va == VAProfileH264Main {
        profileIdc := SPS_PROFILE_IDC_MAIN;
        constraintSet1 := true;
      } else if caps.va == VAProfileH264High {
        profileIdc := SPS_PROFILE_IDC_HIGH;
      } else {
        return false;
      }
      var p := ProfileCoding(profileIdc, constraintSet0, constraintSet1);
      assert ProfileCodingOf(caps.va) == Some(p);
      WriteSpsNalu(bs, p, sps, bitrateBits, cbpSize, cbr);
      return true;
    }

    // -------------------------------------------------------------------------
    // The per-frame buffer list
    // -------------------------------------------------------------------------

    /** Every handle of the list is a live buffer of the display, none twice. */
    ghost predicate Owns(list: BufferList)
      reads display, list
    {
      Distinct(list.items) && forall id :: id in list.items ==> id in display.buffers
    }

    /** create_buffer: a new buffer is listed only when the driver hands out a
        valid handle. */
    method CreateBuffer(content: BufferContent, list: BufferList) returns (ok: bool)
      requires Valid() && Owns(list)
      modifies display, list
      ensures Valid() && Owns(list)
      ensures display.mapped == old(display.mapped) && display.destroyed == old(display.destroyed)
      ensures ok ==> && list.items == old(list.items) + [LastBuffer(list.items)]
                     && LastBuffer(list.items) !in old(display.buffers)
                     && display.buffers == old(display.buffers)[LastBuffer(list.items) := content]
                     && display.created == old(display.created) + [LastBuffer(list.items)]
      ensures !ok ==> && list.items == old(list.items) && display.buffers == old(display.buffers)
                      && display.created == old(display.created)
      ensures Grows(old(display.buffers), old(list.items), display.buffers, list.items)
    {
      var status, buf := display.CreateBuffer(content);
      if CheckStatus(status) == TakeFailure {
        return false;
      }
      if buf == VA_INVALID_ID {
        return false;
      }
      list.items := list.items + [buf];
      return true;
    }

    /** destroy_last_buffer: pops the last handle, destroying it if valid. */
    method DestroyLastBuffer(list: BufferList)
      requires Valid()
      modifies display, list
      ensures Valid() && display.created == old(display.created)
      ensures display.mapped <= old(display.mapped)
      ensures |old(list.items)| == 0 ==> && list.items == old(list.items)
                                         && display.buffers == old(display.buffers)
                                         && display.destroyed == old(display.destroyed)
      ensures |old(list.items)| > 0 ==> list.items == old(list.items)[..|old(list.items)| - 1]
      ensures |old(list.items)| > 0 && LastBuffer(old(list.items)) != VA_INVALID_ID ==>
                && display.buffers == old(display.buffers) - {LastBuffer(old(list.items))}
                && display.destroyed == old(display.destroyed) + [LastBuffer(old(list.items))]
      ensures |old(list.items)| > 0 && LastBuffer(old(list.items)) == VA_INVALID_ID ==>
                && display.buffers == old(display.buffers)
                && display.destroyed == old(display.destroyed)
      ensures old(Owns(list)) ==> Owns(list)
    {
      if |list.items| > 0 {
        var buf := list.items[|list.items| - 1];
        if buf != VA_INVALID_ID {
          var _ := display.DestroyBuffer(buf);
        }
        list.items := list.items[..|list.items| - 1];
      }
    }

    /** destroy_buffers: every valid handle of the list is destroyed, in list
        order, and the list is emptied. */
    method DestroyBuffers(list: BufferList)
      requires Valid()
      modifies display, list
      ensures Valid() && list.items == []
      ensures display.created == old(display.created) && display.mapped <= old(display.mapped)
      ensures display.destroyed == old(display.destroyed) + ValidIds(old(list.items))
      ensures forall id :: id in display.buffers <==> id in old(display.buffers) && id !in old(list.items)
      ensures forall id :: id in display.buffers ==> display.buffers[id] == old(display.buffers)[id]
    {
      var i := 0;
      while i < |list.items|
        invariant 0 <= i <= |list.items| && list.items == old(list.items)
        invariant Valid() && display.created == old(display.created)
        invariant display.mapped <= old(display.mapped)
        invariant display.destroyed == old(display.destroyed) + ValidIds(list.items[..i])
        invariant forall id :: id in display.buffers <==>
                                 id in old(display.buffers) && id !in list.items[..i]
        invariant forall id :: id in display.buffers ==> display.buffers[id] == old(display.buffers)[id]
      {
        var buf := list.items[i];
        assert list.items[..i + 1] == list.items[..i] + [buf];
        if buf != VA_INVALID_ID {
          var _ := display.DestroyBuffer(buf);
        }
        i := i + 1;
      }
      assert list.items[..i] == list.items;
      list.items := [];
    }

    /** create_seq_buffer */
    method CreateSeqBuffer(list: BufferList) returns (ok: bool)
      requires Valid() && Owns(list)
      modifies display, list
      ensures Valid() && Owns(list)
      ensures display.mapped == old(display.mapped) && display.destroyed == old(display.destroyed)
      ensures ok ==> && list.items == old(list.items) + [LastBuffer(list.items)]
                     && display.buffers == old(display.buffers)[LastBuffer(list.items) := SequenceParameterBuffer(sps)]
      ensures !ok ==> list.items == old(list.items) && display.buffers == old(display.buffers)
      ensures Grows(old(display.buffers), old(list.items), display.buffers, list.items)
    {
      ok := CreateBuffer(SequenceParameterBuffer(sps), list);
    }

    /** The slice parameters create_slice_buffer fills into the zeroed slice. */
    function SliceFor(sliceType: SliceType): Slice
    {
      Slice(MbsOf(width) * MbsOf(height), sliceType, SLICE_OFFSET_DIV2, SLICE_OFFSET_DIV2)
    }

    /** Without uint32_t wrap-around in width + 15 and height + 15, the one
        slice holds exactly the macroblocks that cover the picture. */
    lemma SliceCoversPicture(sliceType: SliceType)
      requires width + 15 < U32_MODULUS && height + 15 < U32_MODULUS
      ensures forall w: nat, h: nat :: CoversWithMbs(w, width) && CoversWithMbs(h, height) ==>
                SliceFor(sliceType).numMacroblocks == w * h
    {
      MbsOfCovers(width);
      MbsOfCovers(height);
      forall w: nat, h: nat | CoversWithMbs(w, width) && CoversWithMbs(h, height)
        ensures SliceFor(sliceType).numMacroblocks == w * h
      {
        CoversUnique(w, MbsOf(width), width);
        CoversUnique(h, MbsOf(height), height);
      }
    }

    /** create_slice_buffer: one slice covering every macroblock. */
    method CreateSliceBuffer(list: BufferList, sliceType: SliceType) returns (ok: bool)
      requires Valid() && Owns(list)
      modifies this`slice, display, list
      ensures Valid() && Owns(list)
      ensures slice == SliceFor(sliceType)
      ensures display.mapped == old(display.mapped) && display.destroyed == old(display.destroyed)
      ensures ok ==> && list.items == old(list.items) + [LastBuffer(list.items)]
                     && display.buffers == old(display.buffers)[LastBuffer(list.items) := SliceParameterBuffer(slice)]
      ensures !ok ==> list.items == old(list.items) && display.buffers == old(display.buffers)
      ensures Grows(old(display.buffers), old(list.items), display.buffers, list.items)
    {
      var widthInMbs: nat := MbsOf(width);
      var heightInMbs: nat := MbsOf(height);
      slice := Slice(0, SliceP, 0, 0);
      slice := slice.(numMacroblocks := widthInMbs * heightInMbs, sliceType := sliceType);
      slice := slice.(sliceAlphaC0OffsetDiv2 := SLICE_OFFSET_DIV2, sliceBetaOffsetDiv2 := SLICE_OFFSET_DIV2);
      ok := CreateBuffer(SliceParameterBuffer(slice), list);
    }

    /**
     * create_misc_buffer: the buffer is created from the raw parameter, then
     * mapped to write its type header. A failed map or unmap destroys and pops
     * it again, so a failure leaves the list and the live buffers as they were.
     */
    method CreateMiscBuffer(param: MiscParameter, list: BufferList) returns (ok: bool)
      requires Valid() && Owns(list)
      modifies display, list
      ensures Valid() && Owns(list)
      ensures ok ==> && list.items == old(list.items) + [LastBuffer(list.items)]
                     && display.buffers == old(display.buffers)[LastBuffer(list.items) := MiscParameterBuffer(param)]
                     && display.destroyed == old(display.destroyed)
      ensures !ok ==> list.items == old(list.items) && display.buffers == old(display.buffers)
      ensures Grows(old(display.buffers), old(list.items), display.buffers, list.items)
      ensures SparesLive(old(display.buffers), old(display.destroyed), display.destroyed)
      ensures display.mapped <= old(display.mapped)
    {
      var created := CreateBuffer(MiscParameterBufferRaw(param), list);
      if !created {
        return false;
      }
      var buffer := LastBuffer(list.items);
      var status := display.MapBuffer(buffer);
      if CheckStatus(status) == FallThrough {
        display.WriteMapped(buffer, MiscParameterBuffer(param));
        status := display.UnmapBuffer(buffer);
        if CheckStatus(status) == FallThrough {
          return true;
        }
      }
      // fail:
      ghost var added := display.buffers;
      DestroyLastBuffer(list);
      DropAdded(old(display.buffers), buffer, added);
      return false;
    }

    /** The rate control parameters of create_misc_rc_buffer. */
    function RateControlParameters(): MiscParameter
      reads this`bitrateBits, this`cbpSize, this`qp
    {
      RateControl(bitrateBits, RC_TARGET_PERCENTAGE, cbpSize, qp, RC_MIN_QP, 0, false)
    }

    /** The HRD parameters of create_misc_hdr_buffer: the buffer starts half full. */
    function HrdBufferParameters(): (r: MiscParameter)
      reads this`cbpSize
      ensures r.HrdParameter? && r.bufferSize == cbpSize
      ensures 2 * r.initialBufferFullness <= cbpSize < 2 * r.initialBufferFullness + 2
    {
      HrdParameter(cbpSize / 2, cbpSize)
    }

    /** create_misc_rc_buffer */
    method CreateMiscRcBuffer(list: BufferList) returns (ok: bool)
      requires Valid() && Owns(list)
      modifies display, list
      ensures Valid() && Owns(list)
      ensures ok ==> && list.items == old(list.items) + [LastBuffer(list.items)]
                     && display.buffers == old(display.buffers)[LastBuffer(list.items) := MiscParameterBuffer(RateControlParameters())]
                     && display.destroyed == old(display.destroyed)
      ensures !ok ==> list.items == old(list.items) && display.buffers == old(display.buffers)
      ensures Grows(old(display.buffers), old(list.items), display.buffers, list.items)
      ensures SparesLive(old(display.buffers), old(display.destroyed), display.destroyed)
      ensures display.mapped <= old(display.mapped)
    {
      var rc := RateControl(0, 0, 0, 0, 0, 0, false);
      rc := rc.(bitsPerSecond := bitrateBits, targetPercentage := RC_TARGET_PERCENTAGE);
      rc := rc.(windowSize := cbpSize, initialQp := qp, minQp := RC_MIN_QP);
      rc := rc.(basicUnitSize := 0, disableFrameSkip := false);
      ok := CreateMiscBuffer(rc, list);
    }

    /** create_misc_hdr_buffer */
    method CreateMiscHdrBuffer(list: BufferList) returns (ok: bool)
      requires Valid() && Owns(list)
      modifies display, list
      ensures Valid() && Owns(list)
      ensures ok ==> && list.items == old(list.items) + [LastBuffer(list.items)]
                     && display.buffers == old(display.buffers)[LastBuffer(list.items) := MiscParameterBuffer(HrdBufferParameters())]
                     && display.destroyed == old(display.destroyed)
      ensures !ok ==> list.items == old(list.items) && display.buffers == old(display.buffers)
      ensures Grows(old(display.buffers), old(list.items), display.buffers, list.items)
      ensures SparesLive(old(display.buffers), old(display.destroyed), display.destroyed)
      ensures display.mapped <= old(display.mapped)
    {
      var hrd := HrdParameter(0, 0);
      hrd := hrd.(initialBufferFullness := cbpSize / 2, bufferSize := cbpSize);
      ok := CreateMiscBuffer(hrd, list);
    }

    /**
     * The picture parameters create_pic_buffer writes over the encoder's PPS:
     * the current picture is reference surface frame_cnt % 2, the first
     * reference is the other of the two, the second is surface 2, and the
     * third is marked invalid. Only frame 0 is an IDR picture. The order
     * count frame_cnt * 2 is uint64_t arithmetic.
     */
    function PictureParameters(base: Pps, frameCnt: u64, outputBuf: BufferId): (r: Pps)
      reads this`qp
      requires |refpics| >= 3 && |base.referenceFrameIds| == NUM_REFERENCE_FRAMES
      ensures |r.referenceFrameIds| == NUM_REFERENCE_FRAMES
      ensures r.currPic.pictureId == refpics[frameCnt % 2] && r.currPic.frameIdx == frameCnt
      ensures r.currPic.topFieldOrderCnt == r.currPic.bottomFieldOrderCnt == Wrap64(2 * frameCnt)
      ensures 2 * frameCnt < U64_MODULUS ==> r.currPic.topFieldOrderCnt == 2 * frameCnt
      ensures r.referenceFrameIds[0] == refpics[(frameCnt + 1) % 2]
      ensures r.referenceFrameIds[1] == refpics[2] && r.referenceFrameIds[2] == VA_INVALID_ID
      ensures r.referenceFrameIds[3..] == base.referenceFrameIds[3..]
      ensures r.codedBuf == outputBuf && r.frameNum == frameCnt && r.picInitQp == qp
      ensures (r.idrPicFlag <==> frameCnt == 0) && r.referencePicFlag
      ensures r.seqParameterSetId == base.seqParameterSetId && r.picParameterSetId == base.picParameterSetId
      ensures r.entropyCodingModeFlag == base.entropyCodingModeFlag
      ensures r.transform8x8ModeFlag == base.transform8x8ModeFlag
    {
      var frameIdx: nat := frameCnt as nat;
      base.(
        currPic := Picture(refpics[frameCnt % 2], frameIdx, 0, Wrap64(2 * frameCnt), Wrap64(2 * frameCnt)),
        referenceFrameIds := base.referenceFrameIds[0 := refpics[(frameCnt + 1) % 2]]
                                                  [1 := refpics[2]][2 := VA_INVALID_ID],
        codedBuf := outputBuf,
        frameNum := frameIdx,
        picInitQp := qp,
        idrPicFlag := frameCnt == 0,
        referencePicFlag := true)
    }

    /**
     * The two reconstructed surfaces alternate: the reference of the next
     * frame is the current picture of this one and the other way round,
     * also where frame_cnt wraps around.
     */
    lemma ReferencesAlternate(base: Pps, next: Pps, frameCnt: u64, out0: BufferId, out1: BufferId)
      requires |refpics| >= 3
      requires |base.referenceFrameIds| == NUM_REFERENCE_FRAMES && |next.referenceFrameIds| == NUM_REFERENCE_FRAMES
      ensures PictureParameters(next, Wrap64(frameCnt + 1), out1).referenceFrameIds[0]
              == PictureParameters(base, frameCnt, out0).currPic.pictureId
      ensures PictureParameters(next, Wrap64(frameCnt + 1), out1).currPic.pictureId
              == PictureParameters(base, frameCnt, out0).referenceFrameIds[0]
    {
      NextParity(frameCnt);
    }

    /** create_pic_buffer: the PPS is updated whether or not the buffer is created. */
    method CreatePicBuffer(list: BufferList, outputBuf: BufferId) returns (ok: bool)
      requires Valid() && Owns(list)
      modifies this`pps, display, list
      ensures Valid() && Owns(list)
      ensures pps == PictureParameters(old(pps), frameCnt, outputBuf)
      ensures display.mapped == old(display.mapped) && display.destroyed == old(display.destroyed)
      ensures ok ==> && list.items == old(list.items) + [LastBuffer(list.items)]
                     && display.buffers == old(display.buffers)[LastBuffer(list.items) := PictureParameterBuffer(pps)]
      ensures !ok ==> list.items == old(list.items) && display.buffers == old(display.buffers)
      ensures Grows(old(display.buffers), old(list.items), display.buffers, list.items)
    {
      var currPic := refpics[frameCnt % 2];
      var pic0 := refpics[(frameCnt + 1) % 2];
      var frameIdx: nat := frameCnt as nat;
      var orderCnt := Wrap64(frameCnt * 2);
      pps := pps.(currPic := Picture(currPic, frameIdx, 0, orderCnt, orderCnt));
      pps := pps.(referenceFrameIds := pps.referenceFrameIds[0 := pic0]);
      pps := pps.(referenceFrameIds := pps.referenceFrameIds[1 := refpics[2]]);
      pps := pps.(referenceFrameIds := pps.referenceFrameIds[2 := VA_INVALID_ID]);
      pps := pps.(codedBuf := outputBuf, frameNum := frameIdx, picInitQp := qp);
      pps := pps.(idrPicFlag := frameCnt == 0, referencePicFlag := true);
      ok := CreateBuffer(PictureParameterBuffer(pps), list);
    }

    /**
     * create_packed_header_buffers: the header buffer, then the data buffer;
     * when the second fails the first is destroyed and popped, so on failure
     * the list and the live buffers are as they were.
     */
    method CreatePackedHeaderBuffers(list: BufferList, headerType: PackedHeaderType, bs: BitWriter)
        returns (ok: bool)
      requires Valid() && Owns(list)
      modifies display, list
      ensures Valid() && Owns(list)
      ensures display.mapped <= old(display.mapped)
      ensures Grows(old(display.buffers), old(list.items), display.buffers, list.items)
      ensures ok ==> && Holds(display.buffers, list.items[|old(list.items)|..], PackedPair(headerType, bs.Data()))
                     && display.destroyed == old(display.destroyed)
      ensures !ok ==> list.items == old(list.items) && display.buffers == old(display.buffers)
      ensures SparesLive(old(display.buffers), old(display.destroyed), display.destroyed)
    {
      var header := PackedHeaderParameterBuffer(headerType, Wrap32(bs.Size() * 8), false);
      var created := CreateBuffer(header, list);
      if !created {
        return false;
      }
      ghost var b1, l1 := display.buffers, list.items;
      ghost var x := LastBuffer(l1);
      created := CreateDataOrTakeBack(PackedHeaderDataBuffer(bs.Data()), list);
      if !created {
        assert display.buffers == old(display.buffers);
        return false;
      }
      PairAdded(old(display.buffers), old(list.items), x, header, LastBuffer(list.items), PackedHeaderDataBuffer(bs.Data()));
      return true;
    }

    /** The second create_buffer of create_packed_header_buffers and its fail1
        path: when it fails, the buffer listed just before is destroyed and
        taken off the list. */
    method CreateDataOrTakeBack(content: BufferContent, list: BufferList) returns (ok: bool)
      requires Valid() && Owns(list) && |list.items| > 0 && LastBuffer(list.items) != VA_INVALID_ID
      modifies display, list
      ensures Valid() && Owns(list) && display.mapped <= old(display.mapped)
      ensures ok ==> && list.items == old(list.items) + [LastBuffer(list.items)]
                     && LastBuffer(list.items) !in old(display.buffers)
                     && display.buffers == old(display.buffers)[LastBuffer(list.items) := content]
                     && display.destroyed == old(display.destroyed)
      ensures !ok ==> && list.items == old(list.items)[..|old(list.items)| - 1]
                      && display.buffers == old(display.buffers) - {LastBuffer(old(list.items))}
                      && display.destroyed == old(display.destroyed) + [LastBuffer(old(list.items))]
    {
      ok := CreateBuffer(content, list);
      if !ok {
        DestroyLastBuffer(list);
      }
    }

    /** create_output_buffer: the coded buffer is not put on any list. */
    method CreateOutputBuffer() returns (outputBuf: BufferId)
      requires Valid()
      modifies display
      ensures Valid() && display.mapped == old(display.mapped) && display.destroyed == old(display.destroyed)
      ensures outputBuf != VA_INVALID_ID ==>
                && outputBuf !in old(display.buffers)
                && display.buffers == old(display.buffers)[outputBuf := CodedBuffer(outputBufSize)]
                && display.created == old(display.created) + [outputBuf]
      ensures outputBuf == VA_INVALID_ID ==>
                display.buffers == old(display.buffers) && display.created == old(display.created)
    {
      var status;
      status, outputBuf := display.CreateBuffer(CodedBuffer(outputBufSize));
      if CheckStatus(status) == TakeFailure {
        return VA_INVALID_ID;
      }
    }

    // -------------------------------------------------------------------------
    // Codec extradata
    // -------------------------------------------------------------------------

    /**
     * encode_nalu_to_extra_data: the five header bytes as they are, the bytes
     * up to the last one escaped (Emulation.ExtraDataOf), then the last byte.
     */
    method EncodeNaluToExtraData(bs: BitWriter)
      requires bs.Size() >= 5
      modifies this`extraData
      ensures extraData == old(extraData) + ExtraDataOf(bs.Data())
    {
      var size := bs.Size();
      var data := bs.Data();
      var zeroCnt := 0;
      extraData := extraData + data[..5];
      ghost var head := extraData;
      var d := 5;
      while d < size - 1
        invariant 5 <= d <= if size >= 6 then size - 1 else 5
        invariant extraData == head + Escape(0, data[5..d])
        invariant zeroCnt == ZeroRun(0, data[5..d]) && zeroCnt <= 2
      {
        ghost var before, z := extraData, zeroCnt;
        if zeroCnt == 2 && data[d] <= 0x03 {
          extraData := extraData + [EP_3];
          zeroCnt := 0;
        }
        if data[d] == 0x00 {
          zeroCnt := zeroCnt + 1;
        } else {
          zeroCnt := 0;
        }
        extraData := extraData + [data[d]];
        assert extraData == before + EscapeByte(z, data[d]);
        assert extraData == head + Escape(0, data[5..d + 1]) by {
          EscapeStepAt(data, d, z);
          ConcatAssoc(head, Escape(0, data[5..d]), EscapeByte(z, data[d]));
        }
        assert zeroCnt == ZeroRun(0, data[5..d + 1]) by {
          EscapeStepAt(data, d, z);
        }
        d := d + 1;
      }
      extraData := extraData + [data[size - 1]];
      assert extraData == old(extraData) + ExtraDataOf(data) by {
        assert data[5..d] == Middle(data);
        ConcatAssoc(old(extraData), data[..5], Escape(0, Middle(data)));
        ConcatAssoc(old(extraData), data[..5] + Escape(0, Middle(data)), [data[size - 1]]);
      }
    }

    /** vaapi_encoder_extra_data: none until a first frame has packed its headers. */
    function ExtraData(): (r: Option<seq<u8>>)
      reads this
      ensures r.None? <==> |extraData| == 0
      ensures r.Some? ==> r.value == extraData
    {
      if |extraData| == 0 then None else Some(extraData)
    }

    /** After a first frame that found no extradata, vaapi_encoder_extra_data
        hands out the escaped SPS followed by the escaped PPS, and removing
        the emulation prevention bytes from each part gives back the NAL unit
        pack_sps and pack_pps wrote. */
    lemma HandedOutHeaders(pic: Pps)
      requires ProfileCodingOf(caps.va).Some?
      requires forall t: nat, p: nat :: |nalPrefix(t, p)| == NAL_PREFIX_BITS
      requires extraData == ExtraDataOf(SpsNaluBytes()) + ExtraDataOf(PpsNaluBytes(pic))
      ensures ExtraData().Some?
      ensures var d, k := ExtraData().value, |ExtraDataOf(SpsNaluBytes())|;
              6 <= k && k + 6 <= |d|
              && RestoreNalu(d[..k]) == SpsNaluBytes() && RestoreNalu(d[k..]) == PpsNaluBytes(pic)
    {
      var a, b := ExtraDataOf(SpsNaluBytes()), ExtraDataOf(PpsNaluBytes(pic));
      RestoreExtraData(SpsNaluBytes());
      RestoreExtraData(PpsNaluBytes(pic));
      assert (a + b)[..|a|] == a && (a + b)[|a|..] == b;
    }

    /** The NAL unit pack_sps leaves in an empty bit writer, as bytes. Its first
        five bytes are the packed NAL prefix. */
    function SpsNaluBytes(): (r: seq<u8>)
      reads this`sps, this`bitrateBits, this`cbpSize
      requires ProfileCodingOf(caps.va).Some?
      requires forall t: nat, p: nat :: |nalPrefix(t, p)| == NAL_PREFIX_BITS
      ensures |r| >= 6 && r[..5] == PackBytes(nalPrefix(NAL_SPS, NAL_PRIORITY_HIGHEST))
    {
      EncodeNonEmpty(SpsSyntax(ProfileCodingOf(caps.va).value, sps, bitrateBits, cbpSize, cbr));
      NaluBytes(nalPrefix(NAL_SPS, NAL_PRIORITY_HIGHEST),
                SpsSyntax(ProfileCodingOf(caps.va).value, sps, bitrateBits, cbpSize, cbr), nalSuffix)
    }

    /** The NAL unit pack_pps leaves in an empty bit writer for the PPS pic. */
    function PpsNaluBytes(pic: Pps): (r: seq<u8>)
      requires forall t: nat, p: nat :: |nalPrefix(t, p)| == NAL_PREFIX_BITS
      ensures |r| >= 6 && r[..5] == PackBytes(nalPrefix(NAL_PPS, NAL_PRIORITY_HIGHEST))
    {
      EncodeNonEmpty(PpsSyntax(caps, pic));
      NaluBytes(nalPrefix(NAL_PPS, NAL_PRIORITY_HIGHEST), PpsSyntax(caps, pic), nalSuffix)
    }

    /**
     * create_packed_sps_pps_buffers: packs the SPS and the PPS into a fresh bit
     * writer in turn, lists each as a packed header and appends each to the
     * extradata. The results of the packed header calls are not looked at:
     * the call always reports success, with zero, one or two header pairs listed.
     */
    method CreatePackedSpsPpsBuffers(list: BufferList, ghost spsNalu: seq<u8>, ghost ppsNalu: seq<u8>)
        returns (ok: bool, ghost packed: seq<BufferContent>)
      requires Valid() && Owns(list) && ProfileCodingOf(caps.va).Some?
      requires spsNalu == SpsNaluBytes() && ppsNalu == PpsNaluBytes(pps)
      modifies display, list, this`extraData
      ensures ok && Valid() && Owns(list)
      ensures extraData == old(extraData) + ExtraDataOf(spsNalu) + ExtraDataOf(ppsNalu)
      ensures Grows(old(display.buffers), old(list.items), display.buffers, list.items)
      ensures Holds(display.buffers, list.items[|old(list.items)|..], packed)
      ensures PackedChoice(packed, spsNalu, ppsNalu)
      ensures display.mapped <= old(display.mapped)
      ensures SparesLive(old(display.buffers), old(display.destroyed), display.destroyed)
    {
      var bs := new BitWriter(nalPrefix, nalSuffix);
      ghost var b0, l0, d0 := display.buffers, list.items, display.destroyed;
      ghost var spsPair := PackedNaluToHeaders(list, bs, PackedHeaderSequence, spsNalu);
      bs.Reset();
      ghost var b1, l1, d1 := display.buffers, list.items, display.destroyed;
      ghost var ppsPair := PackedNaluToHeaders(list, bs, PackedHeaderPicture, ppsNalu);
      GrowthCompose(b0, l0, d0, b1, l1, d1, display.buffers, list.items, display.destroyed, spsPair, ppsPair);
      PackedChoiceOfPairs(spsPair, ppsPair, spsNalu, ppsNalu);
      packed := spsPair + ppsPair;
      ok := true;
    }

    /** One half of create_packed_sps_pps_buffers: pack the SPS (for a sequence
        header) or the PPS (for a picture header) into the empty bit writer,
        list it as a packed header and append it to the extradata. nalu is
        the NAL unit packed; the ghost result is what was listed for it. */
    method PackedNaluToHeaders(list: BufferList, bs: BitWriter, headerType: PackedHeaderType, ghost nalu: seq<u8>)
        returns (ghost pair: seq<BufferContent>)
      requires Valid() && Owns(list) && ProfileCodingOf(caps.va).Some?
      requires bs.Bits() == [] && bs.nalPrefix == nalPrefix && bs.nalSuffix == nalSuffix
      requires nalu == if headerType == PackedHeaderSequence then SpsNaluBytes() else PpsNaluBytes(pps)
      modifies display, list, bs, this`extraData
      ensures Valid() && Owns(list)
      ensures extraData == old(extraData) + ExtraDataOf(nalu)
      ensures Grows(old(display.buffers), old(list.items), display.buffers, list.items)
      ensures Holds(display.buffers, list.items[|old(list.items)|..], pair)
      ensures pair == [] || pair == PackedPair(headerType, nalu)
      ensures display.mapped <= old(display.mapped)
      ensures SparesLive(old(display.buffers), old(display.destroyed), display.destroyed)
      ensures bs.nalPrefix == nalPrefix && bs.nalSuffix == nalSuffix
    {
      ghost var packedNalu := PackNalu(bs, headerType);
      assert bs.Data() == nalu;
      ghost var l0 := list.items;
      var created := CreatePackedHeaderBuffers(list, headerType, bs);
      pair := if created then PackedPair(headerType, nalu) else [];
      assert created || list.items[|l0|..] == [];
      EncodeNaluToExtraData(bs);
    }

    /** pack_sps or pack_pps into the empty bit writer; the ghost result is
        the NAL unit it then holds. */
    method PackNalu(bs: BitWriter, headerType: PackedHeaderType) returns (ghost nalu: seq<u8>)
      requires Valid() && ProfileCodingOf(caps.va).Some?
      requires bs.Bits() == [] && bs.nalPrefix == nalPrefix && bs.nalSuffix == nalSuffix
      modifies bs
      ensures nalu == if headerType == PackedHeaderSequence then SpsNaluBytes() else PpsNaluBytes(pps)
      ensures bs.Data() == nalu && bs.nalPrefix == nalPrefix && bs.nalSuffix == nalSuffix
    {
      if headerType == PackedHeaderSequence {
        var _ := PackSps(bs);
        assert bs.Bits() == nalPrefix(NAL_SPS, NAL_PRIORITY_HIGHEST)
          + Encode(SpsSyntax(ProfileCodingOf(caps.va).value, sps, bitrateBits, cbpSize, cbr)) + nalSuffix by {
          assert [] + nalPrefix(NAL_SPS, NAL_PRIORITY_HIGHEST) == nalPrefix(NAL_SPS, NAL_PRIORITY_HIGHEST);
        }
        nalu := SpsNaluBytes();
      } else {
        var _ := PackPps(bs);
        assert bs.Bits() == nalPrefix(NAL_PPS, NAL_PRIORITY_HIGHEST) + Encode(PpsSyntax(caps, pps)) + nalSuffix by {
          assert [] + nalPrefix(NAL_PPS, NAL_PRIORITY_HIGHEST) == nalPrefix(NAL_PPS, NAL_PRIORITY_HIGHEST);
        }
        nalu := PpsNaluBytes(pps);
      }
    }

    // -------------------------------------------------------------------------
    // One frame
    // -------------------------------------------------------------------------

    /**
     * encode_surface: builds the frame's buffer list (sequence, HRD, rate
     * control and slice parameters, on frame 0 the packed SPS and PPS, then the
     * picture parameters for a new coded buffer) and hands it to the surface
     * queue. Any failure destroys the listed buffers and leaves frame_cnt as it
     * was; the coded buffer is never listed, so a failure after it was created
     * leaves it alive. The ghost results are the packed headers listed, the
     * list itself, the buffers destroyed on the way by the create calls
     * that take back their own buffer, and the coded buffer (VA_INVALID_ID
     * when the frame failed before creating one).
     */
    method EncodeSurface(input: SurfaceId)
        returns (ok: bool, ghost packed: seq<BufferContent>, ghost listed: seq<BufferId>, ghost dropped: seq<BufferId>,
                 ghost coded: BufferId)
      requires Valid() && (frameCnt == 0 ==> ProfileCodingOf(caps.va).Some?)
      modifies this`slice, this`pps, this`frameCnt, this`extraData, display, surfq
      ensures Valid()
      ensures ok ==> frameCnt == Wrap64(old(frameCnt) + 1)
      ensures !ok ==> frameCnt == old(frameCnt)
      ensures ok ==> surfq.accepted == old(surfq.accepted) + [SurfaceEntry(input, pps.codedBuf, listed, old(frameCnt) as nat,
                                                                           SliceTypeFor(old(frameCnt), intraPeriod))]
      ensures Distinct(listed)
      ensures ok ==> && Holds(display.buffers, listed,
                              old(ParameterContents(SliceTypeFor(frameCnt, intraPeriod))) + packed
                              + [PictureParameterBuffer(pps)])
                     && pps == PictureParameters(old(pps), old(frameCnt), pps.codedBuf)
      ensures coded == VA_INVALID_ID || coded == pps.codedBuf
      ensures ok ==> coded == pps.codedBuf
      ensures coded != VA_INVALID_ID ==>
                && coded !in old(display.buffers) && coded !in listed
                && coded in display.buffers && display.buffers[coded] == CodedBuffer(outputBufSize)
      ensures old(frameCnt) != 0 ==> packed == []
      ensures old(frameCnt) == 0 ==> PackedChoice(packed, SpsNaluBytes(), PpsNaluBytes(old(pps)))
      ensures !ok ==> surfq.accepted == old(surfq.accepted)
      ensures !ok ==> pps == old(pps) || pps == PictureParameters(old(pps), old(frameCnt), pps.codedBuf)
      ensures old(frameCnt) != 0 ==> extraData == old(extraData)
      ensures ok && old(frameCnt) == 0 ==>
                extraData == old(extraData) + ExtraDataOf(SpsNaluBytes()) + ExtraDataOf(PpsNaluBytes(old(pps)))
      ensures ok && old(frameCnt) == 0 && old(extraData) == [] ==>
                extraData == ExtraDataOf(SpsNaluBytes()) + ExtraDataOf(PpsNaluBytes(old(pps)))
      ensures FrameEffect(old(display.buffers), old(display.destroyed), display.buffers, display.destroyed,
                          listed, dropped, coded, ok)
      ensures ok && old(frameCnt) != 0 ==> dropped == []
    {
      ghost var spsNalu := if frameCnt == 0 then SpsNaluBytes() else [];
      ghost var ppsNalu := PpsNaluBytes(pps);
      ok, packed, listed, dropped, coded := EncodeFrame(input, spsNalu, ppsNalu);
      if ok && old(frameCnt) == 0 {
        AfterNothing(old(extraData), ExtraDataOf(spsNalu), ExtraDataOf(ppsNalu));
      }
    }

    /** encode_surface's work, given the frame's SPS and PPS NAL units. */
    method EncodeFrame(input: SurfaceId, ghost spsNalu: seq<u8>, ghost ppsNalu: seq<u8>)
        returns (ok: bool, ghost packed: seq<BufferContent>, ghost listed: seq<BufferId>, ghost dropped: seq<BufferId>,
                 ghost coded: BufferId)
      requires Valid()
      requires frameCnt == 0 ==> && ProfileCodingOf(caps.va).Some?
                                 && spsNalu == SpsNaluBytes() && ppsNalu == PpsNaluBytes(pps)
      modifies this`slice, this`pps, this`frameCnt, this`extraData, display, surfq
      ensures Valid()
      ensures ok ==> frameCnt == Wrap64(old(frameCnt) + 1)
      ensures !ok ==> frameCnt == old(frameCnt)
      ensures ok ==> surfq.accepted == old(surfq.accepted) + [SurfaceEntry(input, pps.codedBuf, listed, old(frameCnt) as nat,
                                                                           SliceTypeFor(old(frameCnt), intraPeriod))]
      ensures Distinct(listed)
      ensures ok ==> && Holds(display.buffers, listed,
                              old(ParameterContents(SliceTypeFor(frameCnt, intraPeriod))) + packed
                              + [PictureParameterBuffer(pps)])
                     && pps == PictureParameters(old(pps), old(frameCnt), pps.codedBuf)
      ensures coded == VA_INVALID_ID || coded == pps.codedBuf
      ensures ok ==> coded == pps.codedBuf
      ensures coded != VA_INVALID_ID ==>
                && coded !in old(display.buffers) && coded !in listed
                && coded in display.buffers && display.buffers[coded] == CodedBuffer(outputBufSize)
      ensures old(frameCnt) != 0 ==> packed == []
      ensures old(frameCnt) == 0 ==> PackedChoice(packed, spsNalu, ppsNalu)
      ensures !ok ==> surfq.accepted == old(surfq.accepted)
      ensures !ok ==> pps == old(pps) || pps == PictureParameters(old(pps), old(frameCnt), pps.codedBuf)
      ensures old(frameCnt) != 0 ==> extraData == old(extraData)
      ensures ok && old(frameCnt) == 0 ==> extraData == old(extraData) + ExtraDataOf(spsNalu) + ExtraDataOf(ppsNalu)
      ensures FrameEffect(old(display.buffers), old(display.destroyed), display.buffers, display.destroyed,
                          listed, dropped, coded, ok)
      ensures ok && old(frameCnt) != 0 ==> dropped == []
    {
      var list := new BufferList();
      var sliceType := SliceTypeFor(frameCnt, intraPeriod);
      var built;
      built, packed, coded := CreateFrameBuffers(list, sliceType, spsNalu, ppsNalu);
      ghost var b1, d1 := display.buffers, display.destroyed;
      dropped, listed := d1[|old(display.destroyed)|..], list.items;
      ok := FinishFrame(list, SurfaceEntry(input, pps.codedBuf, list.items, frameCnt as nat, sliceType), built);
      FrameOutcome(old(display.buffers), old(display.destroyed), b1, d1, display.buffers, display.destroyed,
                   listed, coded, built, ok, old(frameCnt) != 0);
    }

    /** The tail of encode_surface: a frame whose buffers were all created is
        submitted, and one whose buffers were not (the fail label) has its
        listed buffers destroyed. */
    method FinishFrame(list: BufferList, e: SurfaceEntry, built: bool) returns (ok: bool)
      requires Valid() && e.list == list.items
      modifies this`frameCnt, display, list, surfq
      ensures Valid()
      ensures ok ==> built
      ensures surfq.accepted == if ok then old(surfq.accepted) + [e] else old(surfq.accepted)
      ensures frameCnt == if ok then Wrap64(old(frameCnt) + 1) else old(frameCnt)
      ensures ok ==> display.buffers == old(display.buffers) && display.destroyed == old(display.destroyed)
      ensures !ok ==> && display.destroyed == old(display.destroyed) + ValidIds(e.list)
                      && (forall id :: id in display.buffers <==> id in old(display.buffers) && id !in e.list)
                      && (forall id :: id in display.buffers ==> display.buffers[id] == old(display.buffers)[id])
    {
      if built {
        ok := SubmitFrame(list, e);
      } else {
        DestroyBuffers(list);
        ok := false;
      }
    }

    /** The end of encode_surface: the entry is queued and the frame counted,
        or, when the queue refuses it, every listed buffer is destroyed. */
    method SubmitFrame(list: BufferList, e: SurfaceEntry) returns (ok: bool)
      requires Valid() && e.list == list.items
      modifies this`frameCnt, display, list, surfq
      ensures Valid()
      ensures surfq.accepted == if ok then old(surfq.accepted) + [e] else old(surfq.accepted)
      ensures frameCnt == if ok then Wrap64(old(frameCnt) + 1) else old(frameCnt)
      ensures ok ==> display.buffers == old(display.buffers) && display.destroyed == old(display.destroyed)
      ensures !ok ==> && display.destroyed == old(display.destroyed) + ValidIds(e.list)
                      && (forall id :: id in display.buffers <==> id in old(display.buffers) && id !in e.list)
                      && (forall id :: id in display.buffers ==> display.buffers[id] == old(display.buffers)[id])
    {
      ok := surfq.PushAndRender(e);
      if ok {
        frameCnt := Wrap64(frameCnt + 1);
      } else {
        DestroyBuffers(list);
      }
    }

    /** The part of encode_surface before the queue: every buffer it creates
        but the coded buffer is listed. The ghost result coded is the coded
        buffer, VA_INVALID_ID when none was created. */
    method CreateFrameBuffers(list: BufferList, sliceType: SliceType, ghost spsNalu: seq<u8>, ghost ppsNalu: seq<u8>)
        returns (ok: bool, ghost packed: seq<BufferContent>, ghost coded: BufferId)
      requires Valid() && list.items == []
      requires frameCnt == 0 ==> && ProfileCodingOf(caps.va).Some?
                                 && spsNalu == SpsNaluBytes() && ppsNalu == PpsNaluBytes(pps)
      modifies this`slice, this`pps, this`extraData, display, list
      ensures Valid() && Owns(list)
      ensures frameCnt != 0 ==> extraData == old(extraData)
      ensures ok && frameCnt == 0 ==> extraData == old(extraData) + ExtraDataOf(spsNalu) + ExtraDataOf(ppsNalu)
      ensures forall id :: id in old(display.buffers) ==>
                id in display.buffers && display.buffers[id] == old(display.buffers)[id]
      ensures forall id :: id in display.buffers && id !in old(display.buffers) ==>
                id in list.items || id == coded
      ensures forall id :: id in list.items ==> id !in old(display.buffers)
      ensures ok ==> Holds(display.buffers, list.items,
                           old(ParameterContents(sliceType)) + packed + [PictureParameterBuffer(pps)])
      ensures coded == VA_INVALID_ID || coded == pps.codedBuf
      ensures ok ==> coded == pps.codedBuf
      ensures frameCnt != 0 ==> packed == []
      ensures frameCnt == 0 ==> PackedChoice(packed, spsNalu, ppsNalu)
      ensures ok ==> pps == PictureParameters(old(pps), frameCnt, pps.codedBuf)
      ensures !ok ==> pps == old(pps) || pps == PictureParameters(old(pps), frameCnt, pps.codedBuf)
      ensures coded != VA_INVALID_ID ==>
                && coded !in old(display.buffers) && coded !in list.items
                && coded in display.buffers && display.buffers[coded] == CodedBuffer(outputBufSize)
      ensures SparesLive(old(display.buffers), old(display.destroyed), display.destroyed)
      ensures ok && frameCnt != 0 ==> display.destroyed == old(display.destroyed)
    {
      coded := VA_INVALID_ID;
      ok, packed := CreateParameterBuffers(list, sliceType, spsNalu, ppsNalu);
      if !ok {
        return;
      }
      ghost var b1, l1, d1 := display.buffers, list.items, display.destroyed;
      ghost var params := ParameterContents(sliceType) + packed;
      assert l1[|old(list.items)|..] == l1;
      ok := CreateCodedAndPicBuffers(list);
      coded := pps.codedBuf;
      FrameBuffersCompose(old(display.buffers), old(display.destroyed), b1, l1, d1,
                          display.buffers, list.items, display.destroyed,
                          params, [PictureParameterBuffer(pps)], coded, ok);
    }

    /** The coded buffer, left off the list, and the picture parameters for it. */
    method CreateCodedAndPicBuffers(list: BufferList) returns (ok: bool)
      requires Valid() && Owns(list)
      modifies this`pps, display, list
      ensures Valid() && Owns(list)
      ensures pps == PictureParameters(old(pps), frameCnt, pps.codedBuf)
      ensures pps.codedBuf != VA_INVALID_ID ==>
                && pps.codedBuf !in old(display.buffers) && pps.codedBuf !in list.items
                && pps.codedBuf in display.buffers && display.buffers[pps.codedBuf] == CodedBuffer(outputBufSize)
      ensures |old(list.items)| <= |list.items| && list.items[..|old(list.items)|] == old(list.items)
      ensures ok ==> Holds(display.buffers, list.items[|old(list.items)|..], [PictureParameterBuffer(pps)])
      ensures !ok ==> list.items == old(list.items)
      ensures forall id :: id in old(display.buffers) ==>
                id in display.buffers && display.buffers[id] == old(display.buffers)[id]
      ensures forall id :: id in display.buffers && id !in old(display.buffers) ==>
                id in list.items[|old(list.items)|..] || id == pps.codedBuf
      ensures forall id :: id in list.items[|old(list.items)|..] ==> id !in old(display.buffers)
      ensures display.destroyed == old(display.destroyed)
    {
      ghost var b1 := display.buffers;
      var outputBuffer := CreateOutputBuffer();
      assert forall id :: id in b1 ==> id in display.buffers && display.buffers[id] == b1[id];
      assert forall id :: id in display.buffers ==> id in b1 || id == outputBuffer;
      assert Owns(list);
      ghost var b2, l2 := display.buffers, list.items;
      ok := CreatePicBuffer(list, outputBuffer);
      assert Grows(b2, l2, display.buffers, list.items);
      assert ok ==> list.items[|l2|..] == [LastBuffer(list.items)];
    }

    /** The sequence, HRD, rate control and slice parameters, and on frame 0
        the packed SPS and PPS. */
    method CreateParameterBuffers(list: BufferList, sliceType: SliceType, ghost spsNalu: seq<u8>, ghost ppsNalu: seq<u8>)
        returns (ok: bool, ghost packed: seq<BufferContent>)
      requires Valid() && Owns(list)
      requires frameCnt == 0 ==> && ProfileCodingOf(caps.va).Some?
                                 && spsNalu == SpsNaluBytes() && ppsNalu == PpsNaluBytes(pps)
      modifies this`slice, this`extraData, display, list
      ensures Valid() && Owns(list)
      ensures frameCnt != 0 || !ok ==> extraData == old(extraData)
      ensures ok && frameCnt == 0 ==> extraData == old(extraData) + ExtraDataOf(spsNalu) + ExtraDataOf(ppsNalu)
      ensures Grows(old(display.buffers), old(list.items), display.buffers, list.items)
      ensures ok ==> Holds(display.buffers, list.items[|old(list.items)|..], ParameterContents(sliceType) + packed)
      ensures frameCnt != 0 ==> packed == []
      ensures frameCnt == 0 ==> PackedChoice(packed, spsNalu, ppsNalu)
      ensures SparesLive(old(display.buffers), old(display.destroyed), display.destroyed)
      ensures ok && frameCnt != 0 ==> display.destroyed == old(display.destroyed)
    {
      packed := [];
      ok := CreateFixedParameterBuffers(list, sliceType);
      if !ok || frameCnt != 0 {
        assert ParameterContents(sliceType) + [] == ParameterContents(sliceType);
        return;
      }
      ghost var b4, l4, d4 := display.buffers, list.items, display.destroyed;
      ok, packed := CreatePackedSpsPpsBuffers(list, spsNalu, ppsNalu);
      GrowthCompose(old(display.buffers), old(list.items), old(display.destroyed), b4, l4, d4,
                    display.buffers, list.items, display.destroyed, ParameterContents(sliceType), packed);
    }

    /** The buffers every frame lists first, in this order. */
    ghost function ParameterContents(sliceType: SliceType): seq<BufferContent>
      reads this`sps, this`cbpSize, this`bitrateBits, this`qp
    {
      [SequenceParameterBuffer(sps), MiscParameterBuffer(HrdBufferParameters()),
       MiscParameterBuffer(RateControlParameters()), SliceParameterBuffer(SliceFor(sliceType))]
    }

    /** The first four calls of encode_surface: sequence, HRD, rate control
        and slice parameters, stopping at the first that fails. */
    method CreateFixedParameterBuffers(list: BufferList, sliceType: SliceType) returns (ok: bool)
      requires Valid() && Owns(list)
      modifies this`slice, display, list
      ensures Valid() && Owns(list)
      ensures Grows(old(display.buffers), old(list.items), display.buffers, list.items)
      ensures ok ==> Holds(display.buffers, list.items[|old(list.items)|..], ParameterContents(sliceType))
      ensures SparesLive(old(display.buffers), old(display.destroyed), display.destroyed)
      ensures ok ==> display.destroyed == old(display.destroyed)
    {
      ghost var b0, l0, d0 := display.buffers, list.items, display.destroyed;
      ok := CreateSeqAndHrdBuffers(list);
      if !ok { return; }
      ghost var b2, l2, d2 := display.buffers, list.items, display.destroyed;
      ok := CreateRcAndSliceBuffers(list, sliceType);
      GrowsTransitive(b0, l0, b2, l2, display.buffers, list.items);
      SparesLiveTransitive(b0, d0, b2, d2, display.destroyed);
      if !ok { return; }
      HoldsAppend(b0, l0, b2, l2, display.buffers, list.items,
                  ParameterContents(sliceType)[..2], ParameterContents(sliceType)[2..]);
      assert ParameterContents(sliceType)[..2] + ParameterContents(sliceType)[2..] == ParameterContents(sliceType);
    }

    /** create_seq_buffer, then create_misc_hdr_buffer. */
    method CreateSeqAndHrdBuffers(list: BufferList) returns (ok: bool)
      requires Valid() && Owns(list)
      modifies display, list
      ensures Valid() && Owns(list)
      ensures Grows(old(display.buffers), old(list.items), display.buffers, list.items)
      ensures ok ==> Holds(display.buffers, list.items[|old(list.items)|..],
                           [SequenceParameterBuffer(sps), MiscParameterBuffer(HrdBufferParameters())])
      ensures SparesLive(old(display.buffers), old(display.destroyed), display.destroyed)
      ensures ok ==> display.destroyed == old(display.destroyed)
    {
      ghost var b0, l0, d0 := display.buffers, list.items, display.destroyed;
      ok := CreateSeqBuffer(list);
      if !ok {
        assert display.destroyed[..|d0|] == d0;
        return;
      }
      ghost var b1, l1, d1 := display.buffers, list.items, display.destroyed;
      assert Holds(b1, l1[|l0|..], [SequenceParameterBuffer(sps)]);
      ok := CreateMiscHdrBuffer(list);
      GrowsTransitive(b0, l0, b1, l1, display.buffers, list.items);
      if !ok { return; }
      assert Holds(display.buffers, list.items[|l1|..], [MiscParameterBuffer(HrdBufferParameters())]);
      HoldsAppend(b0, l0, b1, l1, display.buffers, list.items,
                  [SequenceParameterBuffer(sps)], [MiscParameterBuffer(HrdBufferParameters())]);
    }

    /** create_misc_rc_buffer, then create_slice_buffer. */
    method CreateRcAndSliceBuffers(list: BufferList, sliceType: SliceType) returns (ok: bool)
      requires Valid() && Owns(list)
      modifies this`slice, display, list
      ensures Valid() && Owns(list)
      ensures Grows(old(display.buffers), old(list.items), display.buffers, list.items)
      ensures ok ==> Holds(display.buffers, list.items[|old(list.items)|..],
                           [MiscParameterBuffer(RateControlParameters()), SliceParameterBuffer(SliceFor(sliceType))])
      ensures SparesLive(old(display.buffers), old(display.destroyed), display.destroyed)
      ensures ok ==> display.destroyed == old(display.destroyed)
    {
      ghost var b0, l0 := display.buffers, list.items;
      ok := CreateMiscRcBuffer(list);
      if !ok { return; }
      ghost var b1, l1 := display.buffers, list.items;
      assert Holds(b1, l1[|l0|..], [MiscParameterBuffer(RateControlParameters())]);
      ok := CreateSliceBuffer(list, sliceType);
      GrowsTransitive(b0, l0, b1, l1, display.buffers, list.items);
      if !ok {
        assert display.destroyed[..|old(display.destroyed)|] == old(display.destroyed);
        return;
      }
      assert Holds(display.buffers, list.items[|l1|..], [SliceParameterBuffer(SliceFor(sliceType))]);
      HoldsAppend(b0, l0, b1, l1, display.buffers, list.items,
                  [MiscParameterBuffer(RateControlParameters())], [SliceParameterBuffer(SliceFor(sliceType))]);
    }
  }
}
