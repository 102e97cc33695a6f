/**
 * The bit writer the parameter-set packer appends to (bitstream.h is not part
 * of this model, so only its interface is modelled): fixed-width fields
 * written most significant bit first, Exp-Golomb codes as in section 9.1 and
 * 9.1.1 of ITU-T H.264, and NAL units whose prefix and suffix are left abstract.
 * A bit reader states what the written bits mean.
 */
module Bitstream {
  import opened Words

  /** A parse result; `:-` stops at the first None. */
  datatype Option<T> = None | Some(value: T)
  {
    predicate IsFailure() { None? }

    function PropagateFailure<U>(): Option<U>
      requires None?
    {
      None
    }

    function Extract(): T
      requires Some?
    {
      value
    }
  }

  /** The low n bits of v, most significant bit first. */
  function BitsOf(n: nat, v: nat): (r: seq<bool>)
    ensures |r| == n
  {
    if n == 0 then [] else BitsOf(n - 1, v / 2) + [v % 2 == 1]
  }

  /** The unsigned value of a bit string read most significant bit first. */
  function ValueOf(bits: seq<bool>): (v: nat)
    ensures v < Pow2(|bits|)
  {
    if bits == [] then 0
    else 2 * ValueOf(bits[..|bits| - 1]) + (if bits[|bits| - 1] then 1 else 0)
  }

  function Zeros(k: nat): (r: seq<bool>)
    ensures |r| == k && forall i :: 0 <= i < k ==> !r[i]
  {
    if k == 0 then [] else Zeros(k - 1) + [false]
  }

  /** floor(log2(x)) */
  function FloorLog2(x: nat): (k: nat)
    requires x >= 1
    ensures Pow2(k) <= x < Pow2(k + 1)
  {
    if x == 1 then 0 else 1 + FloorLog2(x / 2)
  }

  /** ue(v): k = floor(log2(v + 1)) zero bits, a one bit, then the low k bits
      of v + 1 - 2^k. */
  function UeBits(v: nat): (r: seq<bool>)
  {
    var k := FloorLog2(v + 1);
    Zeros(k) + [true] + BitsOf(k, v + 1 - Pow2(k))
  }

  /** The mapping of section 9.1.1: positive v to 2v - 1, the rest to -2v. */
  function SeCode(v: int): (c: nat)
  {
    if v > 0 then 2 * v - 1 else -2 * v
  }

  /** se(v): ue of the mapped code number. */
  function SeBits(v: int): (r: seq<bool>)
  {
    UeBits(SeCode(v))
  }

  /** One syntax element as the packer emits it. */
  datatype Element =
    | Field(width: nat, value: nat)   // bs_append_bits / bs_append_bool
    | UeField(unsigned: nat)          // bs_append_ue
    | SeField(signed: int)            // bs_append_se

  function Flag(b: bool): Element
  {
    Field(1, if b then 1 else 0)
  }

  function ElementBits(e: Element): seq<bool>
  {
    match e
    case Field(n, v) => BitsOf(n, v)
    case UeField(v) => UeBits(v)
    case SeField(v) => SeBits(v)
  }

  /** The bits of a sequence of syntax elements written one after another. */
  function Encode(es: seq<Element>): seq<bool>
  {
    Concat(ElementBits, es)
  }

  /** f(es[0]) + f(es[1]) + ... */
  function Concat<T>(f: T -> seq<bool>, es: seq<T>): seq<bool>
  {
    if es == [] then [] else Concat(f, es[..|es| - 1]) + f(es[|es| - 1])
  }

  lemma ConcatSnoc<T>(f: T -> seq<bool>, a: seq<T>, e: T)
    ensures Concat(f, a + [e]) == Concat(f, a) + f(e)
  {
    assert (a + [e])[..|a|] == a;
  }

  lemma {:induction false} ConcatAppend<T>(f: T -> seq<bool>, a: seq<T>, b: seq<T>)
    ensures Concat(f, a + b) == Concat(f, a) + Concat(f, b)
    decreases |b|
  {
    if b == [] {
      assert a + b == a;
    } else {
      var b', e := b[..|b| - 1], b[|b| - 1];
      assert b == b' + [e];
      assert a + b == (a + b') + [e];
      ConcatSnoc(f, a + b', e);
      ConcatAppend(f, a, b');
      ConcatSnoc(f, b', e);
    }
  }

  lemma EncodeAppend(a: seq<Element>, b: seq<Element>)
    ensures Encode(a + b) == Encode(a) + Encode(b)
  {
    ConcatAppend(ElementBits, a, b);
  }

  lemma EncodeSnoc(a: seq<Element>, e: Element)
    ensures Encode(a + [e]) == Encode(a) + ElementBits(e)
  {
    ConcatSnoc(ElementBits, a, e);
  }

  // ---------------------------------------------------------------------------
  // The bit reader
  // ---------------------------------------------------------------------------

  /** read_bits(n) */
  function ReadBits(n: nat, s: seq<bool>): Option<(nat, seq<bool>)>
  {
    if |s| < n then None else Some((ValueOf(s[..n]), s[n..]))
  }

  function LeadingZeros(s: seq<bool>): (k: nat)
    ensures k <= |s|
    ensures forall i :: 0 <= i < k ==> !s[i]
    ensures k < |s| ==> s[k]
  {
    if s == [] || s[0] then 0 else 1 + LeadingZeros(s[1..])
  }

  /** The parsing process of section 9.1: count leading zero bits, skip the
      one bit, read as many bits again; codeNum = 2^k - 1 + those bits. */
  function ReadUe(s: seq<bool>): Option<(nat, seq<bool>)>
  {
    var k := LeadingZeros(s);
    if |s| < 2 * k + 1 then None
    else Some((Pow2(k) - 1 + ValueOf(s[k + 1 .. 2 * k + 1]), s[2 * k + 1 ..]))
  }

  /** Table 9-3: odd code numbers are positive, even ones zero or negative. */
  function SeValue(c: nat): int
  {
    if c % 2 == 1 then (c + 1) / 2 else -(c / 2)
  }

  function ReadSe(s: seq<bool>): Option<(int, seq<bool>)>
  {
    match ReadUe(s)
    case None => None
    case Some((c, rest)) => Some((SeValue(c), rest))
  }

  // ---------------------------------------------------------------------------
  // Round trips
  // ---------------------------------------------------------------------------

  lemma {:induction false} ValueOfBitsOf(n: nat, v: nat)
    ensures ValueOf(BitsOf(n, v)) == v % Pow2(n)
  {
    if n > 0 {
      var b := BitsOf(n, v);
      assert b[..n - 1] == BitsOf(n - 1, v / 2);
      ValueOfBitsOf(n - 1, v / 2);
      ModPow2Split(v, n);
    }
  }

  /** A fixed-width field reads back as its value reduced to the width. */
  lemma ReadBitsRoundTrip(n: nat, v: nat, rest: seq<bool>)
    ensures ReadBits(n, BitsOf(n, v) + rest) == Some((v % Pow2(n), rest))
  {
    var s := BitsOf(n, v) + rest;
    assert s[..n] == BitsOf(n, v);
    assert s[n..] == rest;
    ValueOfBitsOf(n, v);
  }

  lemma {:induction false} LeadingZerosOf(k: nat, tail: seq<bool>)
    ensures LeadingZeros(Zeros(k) + [true] + tail) == k
  {
    if k > 0 {
      var s := Zeros(k) + [true] + tail;
      assert !s[0];
      assert s[1..] == Zeros(k - 1) + [true] + tail by {
        assert Zeros(k) == [false] + Zeros(k - 1) by { ZerosCons(k); }
      }
      LeadingZerosOf(k - 1, tail);
    }
  }

  lemma {:induction false} ZerosCons(k: nat)
    requires k > 0
    ensures Zeros(k) == [false] + Zeros(k - 1)
  {
    if k > 1 {
      ZerosCons(k - 1);
    }
  }

  /** Decoding a ue(v) code yields v and consumes exactly its bits. */
  lemma UeRoundTrip(v: nat, rest: seq<bool>)
    ensures ReadUe(UeBits(v) + rest) == Some((v, rest))
  {
    var k := FloorLog2(v + 1);
    var info := BitsOf(k, v + 1 - Pow2(k));
    var s := UeBits(v) + rest;
    assert s == Zeros(k) + [true] + (info + rest);
    LeadingZerosOf(k, info + rest);
    assert s[k + 1 .. 2 * k + 1] == info;
    assert s[2 * k + 1 ..] == rest;
    ValueOfBitsOf(k, v + 1 - Pow2(k));
    ModUnique(v + 1 - Pow2(k), Pow2(k), 0, v + 1 - Pow2(k));
  }

  /** The mapping of section 9.1.1 is a bijection between int and nat. */
  lemma SeCodeInverse(v: int)
    ensures SeValue(SeCode(v)) == v
  {
    if v > 0 {
      ModUnique(2 * v - 1, 2, v - 1, 1);
      ModUnique(2 * v, 2, v, 0);
    } else {
      ModUnique(-2 * v, 2, -v, 0);
    }
  }

  lemma SeValueInverse(c: nat)
    ensures SeCode(SeValue(c)) == c
  {
  }

  /** Decoding an se(v) code yields v over the whole signed range. */
  lemma SeRoundTrip(v: int, rest: seq<bool>)
    ensures ReadSe(SeBits(v) + rest) == Some((v, rest))
  {
    assert ReadUe(SeBits(v) + rest) == Some((SeCode(v), rest)) by {
      UeRoundTrip(SeCode(v), rest);
    }
    SeCodeInverse(v);
  }

  /** Every ue code is 2k + 1 bits long and unique: two values with the same
      code are equal. */
  lemma UeInjective(v: nat, w: nat)
    requires UeBits(v) == UeBits(w)
    ensures v == w
  {
    UeRoundTrip(v, []);
    UeRoundTrip(w, []);
    assert UeBits(v) + [] == UeBits(v);
    assert UeBits(w) + [] == UeBits(w);
  }

  // ---------------------------------------------------------------------------
  // Bytes
  // ---------------------------------------------------------------------------

  /** The byte buffer behind the bits (bs_data / bs_size): bits taken eight at
      a time, most significant first; a final partial byte is padded with zero
      bits. */
  function PackBytes(bits: seq<bool>): (r: seq<u8>)
    ensures |r| == (|bits| + 7) / 8
    decreases |bits|
  {
    Pow2Values();
    if bits == [] then []
    else if |bits| < 8 then [ValueOf(bits + Zeros(8 - |bits|))]
    else [ValueOf(bits[..8])] + PackBytes(bits[8..])
  }

  lemma {:induction false} PackBytesAppend(a: seq<bool>, b: seq<bool>)
    requires |a| % 8 == 0
    ensures PackBytes(a + b) == PackBytes(a) + PackBytes(b)
    decreases |a|
  {
    if a != [] {
      assert (a + b)[..8] == a[..8];
      assert (a + b)[8..] == a[8..] + b;
      PackBytesAppend(a[8..], b);
    } else {
      assert a + b == b;
    }
  }

  // ---------------------------------------------------------------------------
  // The writer object
  // ---------------------------------------------------------------------------

  /** NAL unit types and priorities as the encoder names them. */
  const NAL_SPS: nat := 7
  const NAL_PPS: nat := 8
  const NAL_PRIORITY_HIGHEST: nat := 3

  /** Length of the NAL unit prefix (a four-byte start code and the one-byte
      NAL header) that bs_begin_nalu writes. */
  const NAL_PREFIX_BITS: nat := 40

  /**
   * bitstream_t. The NAL prefix for a (type, priority) and the NAL suffix are
   * not known to this model; they are fixed per writer. The content is kept
   * as the bits of the finished part (`done`, up to and including the
   * prefix of the NAL unit being written) and the syntax elements appended
   * since (`written`); Bits() is the bit string the two stand for.
   */
  class BitWriter {
    const nalPrefix: (nat, nat) -> seq<bool>
    const nalSuffix: seq<bool>
    var done: seq<bool>
    var written: seq<Element>

    ghost predicate Valid()
    {
      forall t: nat, p: nat :: |nalPrefix(t, p)| == NAL_PREFIX_BITS
    }

    /** bs_create */
    constructor (prefix: (nat, nat) -> seq<bool>, suffix: seq<bool>)
      requires forall t: nat, p: nat :: |prefix(t, p)| == NAL_PREFIX_BITS
      ensures Valid() && nalPrefix == prefix && nalSuffix == suffix
      ensures done == [] && written == [] && Bits() == []
    {
      nalPrefix, nalSuffix := prefix, suffix;
      done, written := [], [];
    }

    /** Everything written so far. */
    function Bits(): seq<bool>
      reads this
    {
      done + Encode(written)
    }

    /** bs_size: the number of bytes written. */
    function Size(): (n: nat)
      reads this
      ensures n * 8 >= |Bits()| && n * 8 < |Bits()| + 8
    {
      (|Bits()| + 7) / 8
    }

    /** bs_data */
    function Data(): (d: seq<u8>)
      reads this
      ensures |d| == Size()
    {
      PackBytes(Bits())
    }

    /** bs_reset */
    method Reset()
      modifies this
      ensures done == [] && written == [] && Bits() == []
    {
      done, written := [], [];
    }

    /** bs_append_bits(bs, n, v): the low n bits of v, most significant first. */
    method AppendBits(n: nat, v: nat)
      modifies this
      ensures done == old(done) && written == old(written) + [Field(n, v)]
    {
      written := written + [Field(n, v)];
    }

    /** bs_append_bool(bs, b) */
    method AppendBool(b: bool)
      modifies this
      ensures done == old(done) && written == old(written) + [Flag(b)]
    {
      written := written + [Flag(b)];
    }

    /** bs_append_ue(bs, v) */
    method AppendUe(v: nat)
      modifies this
      ensures done == old(done) && written == old(written) + [UeField(v)]
    {
      written := written + [UeField(v)];
    }

    /** bs_append_se(bs, v) */
    method AppendSe(v: int)
      modifies this
      ensures done == old(done) && written == old(written) + [SeField(v)]
    {
      written := written + [SeField(v)];
    }

    /** bs_begin_nalu(bs, type, priority) */
    method BeginNalu(nalType: nat, priority: nat)
      modifies this
      ensures done == old(Bits()) + nalPrefix(nalType, priority) && written == []
      ensures Bits() == old(Bits()) + nalPrefix(nalType, priority)
    {
      done, written := Bits() + nalPrefix(nalType, priority), [];
    }

    /** bs_end_nalu(bs) */
    method EndNalu()
      modifies this
      ensures done == old(Bits()) + nalSuffix && written == []
      ensures Bits() == old(Bits()) + nalSuffix
    {
      done, written := Bits() + nalSuffix, [];
    }
  }
}
