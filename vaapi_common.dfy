/**
 * The helpers shared by the VA-API plugin: the status check behind the
 * CHECK_STATUS_* macros, the power-of-two alignment helper and the slice types.
 */
module VaapiCommon {
  import opened Words

  /** VAStatus is a plain integer; zero means success. */
  type VAStatus = int
  const VA_STATUS_SUCCESS: VAStatus := 0

  /** What CHECK_STATUS_(x, y) does after evaluating x into `status`. */
  datatype StatusCheck = FallThrough | TakeFailure

  /** The failure action y (`return false`, `goto fail`, `goto failN`) runs
      exactly when the status is not VA_STATUS_SUCCESS; the callers' contracts
      carry the two outcomes. */
  function CheckStatus(status: VAStatus): StatusCheck
  {
    if status != VA_STATUS_SUCCESS then TakeFailure else FallThrough
  }

  /** enum vaapi_slice_type, in declaration order. */
  datatype SliceType = SliceP | SliceB | SliceI
  {
    function Code(): (c: nat)
      ensures c < 3
    {
      match this
      case SliceP => 0
      case SliceB => 1
      case SliceI => 2
    }
  }

  lemma SliceTypeCodes()
    ensures SliceP.Code() == 0 && SliceB.Code() == 1 && SliceI.Code() == 2
    ensures forall s: SliceType, t: SliceType :: s.Code() == t.Code() ==> s == t
  {
  }

  /** ((value + (alignment - 1)) & ~(alignment - 1)) on size_t. */
  function RoundUpToPowerOf2(value: u64, alignment: u64): u64
  {
    Pow2Values();
    MaskedRoundUp(value, alignment, 64)
  }

  /** The same expression on an n-bit unsigned type. */
  function MaskedRoundUp(value: nat, alignment: nat, n: nat): (r: nat)
    ensures r < Pow2(n)
  {
    var mask := (alignment - 1) % Pow2(n);
    And((value + mask) % Pow2(n), Not(mask, n), n)
  }

  predicate IsPowerOf2Alignment(alignment: u64, k: nat)
  {
    k < 64 && alignment == Pow2(k)
  }

  /** For a power-of-two alignment and no size_t overflow, the result is the
      least multiple of the alignment that is at least the value. */
  lemma RoundUpIsNextMultiple(value: u64, alignment: u64, k: nat)
    requires IsPowerOf2Alignment(alignment, k)
    requires value + alignment - 1 < U64_MODULUS
    ensures RoundUpToPowerOf2(value, alignment) % alignment == 0
    ensures value <= RoundUpToPowerOf2(value, alignment) < value + alignment
    ensures value % alignment == 0 ==> RoundUpToPowerOf2(value, alignment) == value
  {
    RoundUpUnwrapped(value, alignment, k);
    TruncateToMultiple(value, alignment);
  }

  lemma TruncateToMultiple(value: nat, alignment: nat)
    requires alignment > 0
    ensures var w := value + alignment - 1;
            var r := w - w % alignment;
            r % alignment == 0 && value <= r < value + alignment &&
            (value % alignment == 0 ==> r == value)
  {
    var w := value + alignment - 1;
    var q, m := w / alignment, w % alignment;
    assert w == alignment * q + m;
    ModUnique(w - m, alignment, q, 0);
    if value % alignment == 0 {
      ModUnique(w, alignment, value / alignment, alignment - 1);
    }
  }

  /** Without overflow the mask arithmetic is plain truncation to a multiple. */
  lemma RoundUpUnwrapped(value: u64, alignment: u64, k: nat)
    requires IsPowerOf2Alignment(alignment, k)
    requires value + alignment - 1 < U64_MODULUS
    ensures RoundUpToPowerOf2(value, alignment)
         == (value + alignment - 1) - (value + alignment - 1) % alignment
  {
    assert value + alignment - 1 < Pow2(64) by { Pow2Values(); }
    MaskedRoundUpUnwrapped(value, alignment, k, 64);
  }

  lemma MaskedRoundUpUnwrapped(value: nat, alignment: nat, k: nat, n: nat)
    requires k <= n && alignment == Pow2(k)
    requires value + alignment - 1 < Pow2(n)
    ensures MaskedRoundUp(value, alignment, n)
         == (value + alignment - 1) - (value + alignment - 1) % alignment
  {
    var w := value + alignment - 1;
    ModUnique(alignment - 1, Pow2(n), 0, alignment - 1);
    ModUnique(w, Pow2(n), 0, w);
    MaskedRoundUpOfParts(value, alignment, n, alignment - 1, w);
    MaskWithComplement(w, n, k);
  }

  /** MaskedRoundUp once its mask and its wrapped sum are known. */
  lemma MaskedRoundUpOfParts(value: nat, alignment: nat, n: nat, mask: nat, w: nat)
    requires mask == (alignment - 1) % Pow2(n) && w == (value + mask) % Pow2(n)
    ensures MaskedRoundUp(value, alignment, n) == And(w, Not(mask, n), n)
  {
  }

  /** Rounding up twice gives the same result as rounding up once. */
  lemma RoundUpIdempotent(value: u64, alignment: u64, k: nat)
    requires IsPowerOf2Alignment(alignment, k)
    requires value + alignment - 1 < U64_MODULUS
    ensures var r := RoundUpToPowerOf2(value, alignment);
            r + alignment - 1 < U64_MODULUS && RoundUpToPowerOf2(r, alignment) == r
  {
    RoundUpIsNextMultiple(value, alignment, k);
    var r := RoundUpToPowerOf2(value, alignment);
    MultipleBelowModulus(r, alignment, k);
    RoundUpIsNextMultiple(r, alignment, k);
  }

  /** A multiple of 2^k below 2^64 is at most 2^64 - 2^k. */
  lemma MultipleBelowModulus(r: u64, alignment: u64, k: nat)
    requires IsPowerOf2Alignment(alignment, k)
    requires r % alignment == 0
    ensures r + alignment <= U64_MODULUS
  {
    Pow2Values();
    Pow2Add(k, 64 - k);
    MultipleBelowMultiple(r, alignment, Pow2(64 - k));
  }

  /** A multiple of m below m * n is at most m * n - m. */
  lemma MultipleBelowMultiple(r: nat, m: nat, n: nat)
    requires m > 0 && r % m == 0 && r < m * n
    ensures r + m <= m * n
  {
    var q := r / m;
    assert r == m * q;
    if q >= n {
      MulMonotone(m, n, q);
    }
    MulMonotone(m, q, n - 1);
  }
}
