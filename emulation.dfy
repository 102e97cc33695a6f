/**
 * Emulation prevention (sections 7.3.1 and 7.4.1 of ITU-T H.264) as the
 * encoder applies it when it copies a packed NAL unit into the codec
 * extradata: after two zero bytes, a byte of value 0x03 or less gets an
 * emulation_prevention_three_byte (0x03) in front of it.
 *
 * The scan is stated here as functions of the bytes; the loop that performs
 * it in place is VaapiEncoder.EncodeNaluToExtraData.
 */
module Emulation {
  import opened Words

  const EP_3: u8 := 0x03

  /** zero_cnt after passing byte b with the counter at z. */
  function NextZeroCount(z: nat, b: u8): nat
  {
    if b == 0x00 then z + 1 else 0
  }

  /** An emulation prevention byte goes before b. */
  predicate NeedsEscape(z: nat, b: u8)
  {
    z == 2 && b <= 0x03
  }

  /** What the scan pushes for b with the counter at z. */
  function EscapeByte(z: nat, b: u8): seq<u8>
  {
    if NeedsEscape(z, b) then [EP_3, b] else [b]
  }

  /** The counter after b: reset by an inserted byte, then advanced by b. */
  function ZeroAfter(z: nat, b: u8): (z': nat)
    ensures z <= 2 ==> z' <= 2
  {
    NextZeroCount(if NeedsEscape(z, b) then 0 else z, b)
  }

  /** The escaped form of s, scanned with the counter starting at z. */
  function Escape(z: nat, s: seq<u8>): seq<u8>
    decreases |s|
  {
    if s == [] then [] else EscapeByte(z, s[0]) + Escape(ZeroAfter(z, s[0]), s[1..])
  }

  /** The counter after scanning s from z. */
  function ZeroRun(z: nat, s: seq<u8>): nat
    decreases |s|
  {
    if s == [] then z else ZeroRun(ZeroAfter(z, s[0]), s[1..])
  }

  /** The scan one byte further: what the loop body does. */
  lemma {:induction false} EscapeSnoc(z: nat, s: seq<u8>, b: u8)
    ensures Escape(z, s + [b]) == Escape(z, s) + EscapeByte(ZeroRun(z, s), b)
    ensures ZeroRun(z, s + [b]) == ZeroAfter(ZeroRun(z, s), b)
    decreases |s|
  {
    if s == [] {
      assert [] + [b] == [b];
    } else {
      assert (s + [b])[1..] == s[1..] + [b];
      EscapeSnoc(ZeroAfter(z, s[0]), s[1..], b);
    }
  }

  /** The scan of data[5..d] one byte further, as the extradata loop takes it. */
  lemma EscapeStepAt(data: seq<u8>, d: nat, z: nat)
    requires 5 <= d < |data| && z == ZeroRun(0, data[5..d])
    ensures Escape(0, data[5..d + 1]) == Escape(0, data[5..d]) + EscapeByte(z, data[d])
    ensures ZeroRun(0, data[5..d + 1]) == ZeroAfter(z, data[d])
  {
    assert data[5..d + 1] == data[5..d] + [data[d]];
    EscapeSnoc(0, data[5..d], data[d]);
  }

  lemma ConcatAssoc(a: seq<u8>, b: seq<u8>, c: seq<u8>)
    ensures a + b + c == a + (b + c)
  {
  }

  /** zero_cnt never exceeds 2. */
  lemma {:induction false} ZeroRunBounded(z: nat, s: seq<u8>)
    requires z <= 2
    ensures ZeroRun(z, s) <= 2
    decreases |s|
  {
    if s != [] {
      ZeroRunBounded(ZeroAfter(z, s[0]), s[1..]);
    }
  }

  /** Every inserted byte is one more byte; nothing else is added or lost. */
  lemma {:induction false} EscapeLength(z: nat, s: seq<u8>)
    ensures |s| <= |Escape(z, s)| <= 2 * |s|
    decreases |s|
  {
    if s != [] {
      EscapeLength(ZeroAfter(z, s[0]), s[1..]);
    }
  }

  // ---------------------------------------------------------------------------
  // Removing the inserted bytes restores the input
  // ---------------------------------------------------------------------------

  /** The decoder's inverse scan (section 7.4.1): a 0x03 after two zero bytes
      is an emulation prevention byte and is dropped. */
  function Unescape(z: nat, s: seq<u8>): seq<u8>
    decreases |s|
  {
    if s == [] then []
    else if z == 2 && s[0] == EP_3 then Unescape(0, s[1..])
    else [s[0]] + Unescape(NextZeroCount(z, s[0]), s[1..])
  }

  lemma {:induction false} UnescapeEscape(z: nat, s: seq<u8>)
    requires z <= 2
    ensures Unescape(z, Escape(z, s)) == s
    decreases |s|
  {
    if s != [] {
      var b, t := s[0], s[1..];
      var z' := ZeroAfter(z, b);
      var e := Escape(z', t);
      UnescapeEscape(z', t);
      if NeedsEscape(z, b) {
        assert Escape(z, s) == [EP_3] + ([b] + e);
        assert Unescape(0, [b] + e) == [b] + Unescape(z', e) by {
          assert ([b] + e)[1..] == e;
        }
      } else {
        assert Escape(z, s) == [b] + e;
        assert ([b] + e)[1..] == e;
      }
      assert s == [b] + t;
    }
  }

  // ---------------------------------------------------------------------------
  // No start code is emulated
  // ---------------------------------------------------------------------------

  /** Three bytes 0x00 0x00 0x0x with x <= 2 (a start code or its like). */
  predicate StartCodeAt(r: seq<u8>, i: nat)
    requires i + 2 < |r|
  {
    r[i] == 0x00 && r[i + 1] == 0x00 && r[i + 2] <= 0x02
  }

  /** No position of r starts a forbidden three-byte pattern. */
  predicate Clean(r: seq<u8>)
    decreases |r|
  {
    |r| < 3 || (!StartCodeAt(r, 0) && Clean(r[1..]))
  }

  function ZeroBytes(k: nat): (r: seq<u8>)
    ensures |r| == k && forall i :: 0 <= i < k ==> r[i] == 0x00
  {
    if k == 0 then [] else [0x00] + ZeroBytes(k - 1)
  }

  lemma CleanCons(x: u8, r: seq<u8>)
    requires Clean(r)
    requires |r| >= 2 ==> !(x == 0x00 && r[0] == 0x00 && r[1] <= 0x02)
    ensures Clean([x] + r)
  {
    assert ([x] + r)[1..] == r;
  }

  /** The escaped bytes, behind the zeros the counter stands for, are clean. */
  lemma {:induction false} EscapeClean(z: nat, s: seq<u8>)
    requires z <= 2
    ensures Clean(ZeroBytes(z) + Escape(z, s))
    decreases |s|
  {
    if s == [] {
      assert ZeroBytes(z) + Escape(z, s) == ZeroBytes(z);
    } else {
      var b, t := s[0], s[1..];
      var z' := ZeroAfter(z, b);
      var e := Escape(z', t);
      EscapeClean(z', t);
      if NeedsEscape(z, b) {
        assert ZeroBytes(z) + Escape(z, s) == [0x00, 0x00, EP_3, b] + e;
        CleanAfterInsertion(b, e);
      } else if b == 0x00 {
        assert ZeroBytes(z') == ZeroBytes(z) + [0x00];
        assert ZeroBytes(z) + Escape(z, s) == ZeroBytes(z') + e;
      } else {
        assert ZeroBytes(z') + e == e;
        assert ZeroBytes(z) + Escape(z, s) == ZeroBytes(z) + ([b] + e);
        CleanAfterNonZero(z, b, e);
      }
    }
  }

  /** An inserted 0x03 breaks the zero run. */
  lemma CleanAfterInsertion(b: u8, e: seq<u8>)
    requires b <= 0x03
    requires Clean(ZeroBytes(if b == 0x00 then 1 else 0) + e)
    ensures Clean([0x00, 0x00, EP_3, b] + e)
  {
    var t1 := [b] + e;
    assert Clean(t1) by {
      if b == 0x00 {
        assert ZeroBytes(1) + e == t1;
      } else {
        assert ZeroBytes(0) + e == e;
        CleanCons(b, e);
      }
    }
    var t2 := [EP_3] + t1;
    assert Clean(t2) by { CleanCons(EP_3, t1); }
    var t3 := [0x00] + t2;
    assert Clean(t3) by { CleanCons(0x00, t2); }
    var t4 := [0x00] + t3;
    assert Clean(t4) by { CleanCons(0x00, t3); }
    assert t4 == [0x00, 0x00, EP_3, b] + e;
  }

  /** A non-zero byte passed unescaped ends the zero run harmlessly. */
  lemma CleanAfterNonZero(z: nat, b: u8, e: seq<u8>)
    requires z <= 2 && b != 0x00 && !NeedsEscape(z, b)
    requires Clean(e)
    ensures Clean(ZeroBytes(z) + ([b] + e))
  {
    CleanCons(b, e);
    if z == 0 {
      assert ZeroBytes(z) + ([b] + e) == [b] + e;
    } else if z == 1 {
      assert ZeroBytes(z) + ([b] + e) == [0x00] + ([b] + e);
      CleanCons(0x00, [b] + e);
    } else {
      assert ZeroBytes(z) + ([b] + e) == [0x00] + ([0x00] + ([b] + e));
      CleanCons(0x00, [b] + e);
      CleanCons(0x00, [0x00] + ([b] + e));
    }
  }

  lemma {:induction false} CleanMeans(r: seq<u8>, i: nat)
    requires Clean(r) && i + 2 < |r|
    ensures !StartCodeAt(r, i)
    decreases i
  {
    if i > 0 {
      CleanMeans(r[1..], i - 1);
    }
  }

  /** The escaped payload contains no 0x000000, 0x000001 or 0x000002. */
  lemma EscapedHasNoStartCode(s: seq<u8>)
    ensures forall i :: 0 <= i && i + 2 < |Escape(0, s)| ==> !StartCodeAt(Escape(0, s), i)
  {
    EscapeClean(0, s);
    assert ZeroBytes(0) + Escape(0, s) == Escape(0, s);
    forall i | 0 <= i && i + 2 < |Escape(0, s)|
      ensures !StartCodeAt(Escape(0, s), i)
    {
      CleanMeans(Escape(0, s), i);
    }
  }

  // ---------------------------------------------------------------------------
  // The whole NAL unit as encode_nalu_to_extra_data copies it
  // ---------------------------------------------------------------------------

  /** The bytes between the five-byte prefix and the last byte. */
  function Middle(data: seq<u8>): (m: seq<u8>)
    requires |data| >= 5
  {
    if |data| >= 6 then data[5..|data| - 1] else []
  }

  /** The first five bytes verbatim, the middle escaped, the last byte verbatim. */
  function ExtraDataOf(data: seq<u8>): (r: seq<u8>)
    requires |data| >= 5
  {
    data[..5] + Escape(0, Middle(data)) + [data[|data| - 1]]
  }

  /** Undoing ExtraDataOf. */
  function RestoreNalu(r: seq<u8>): seq<u8>
    requires |r| >= 6
  {
    r[..5] + Unescape(0, r[5..|r| - 1]) + [r[|r| - 1]]
  }

  /** Removing the inserted bytes gives back the packed NAL unit. */
  lemma RestoreExtraData(data: seq<u8>)
    requires |data| >= 6
    ensures |ExtraDataOf(data)| >= 6
    ensures RestoreNalu(ExtraDataOf(data)) == data
  {
    var m := Middle(data);
    SplitThree(data[..5], Escape(0, m), [data[|data| - 1]]);
    UnescapeEscape(0, m);
    Rejoin(data);
  }

  /** The last byte is copied without a look at the two before it, so the
      extradata can still hold a start code: here 00 00 01 at offset 5. */
  lemma LastByteCanCompleteStartCode()
    ensures var r := ExtraDataOf([1, 1, 1, 1, 1, 0, 0, 1]);
            |r| == 8 && StartCodeAt(r, 5)
  {
    var data: seq<u8> := [1, 1, 1, 1, 1, 0, 0, 1];
    assert Middle(data) == [0, 0];
    assert Escape(0, [0, 0]) == [0, 0];
  }

  /** The three parts of h + e + l, taken apart again. */
  lemma SplitThree(h: seq<u8>, e: seq<u8>, l: seq<u8>)
    requires |h| == 5 && |l| == 1
    ensures var r := h + e + l;
      |r| >= 6 && r[..5] == h && r[5..|r| - 1] == e && [r[|r| - 1]] == l
  {
  }

  lemma Rejoin(data: seq<u8>)
    requires |data| >= 6
    ensures data == data[..5] + Middle(data) + [data[|data| - 1]]
  {
  }
}
