/** Octets, little-endian integers, and the result type every decoder returns. */
module Bytes {

  newtype octet = x: int | 0 <= x < 256

  type Octets = seq<octet>

  type u32 = n: nat | n < U32_LIMIT

  const U32_LIMIT := 0x1_0000_0000
  const U64_LIMIT := 0x1_0000_0000_0000_0000
  const I32_MAX := 0x7FFF_FFFF
  const I64_MAX := 0x7FFF_FFFF_FFFF_FFFF
  const I64_MIN := -0x8000_0000_0000_0000

  datatype Option<+T> = None | Some(value: T)

  /** The `:fram/code` of an exception the codec or the database raises. */
  datatype Fault =
    | CorruptLog
    | UnsupportedVersion
    | NoncontiguousOrdinal
    | TermDepthExceeded
    | InvalidUtf8
    | NonmonotonicSequence
    | InvalidFrame
    | SpaceMismatch
    | MissingFile
    | ForkIncomplete
    | InvalidBranchName
    | InvalidSegmentName
    | InvalidBranchRef
    | InvalidBranchChain
    | BranchMissing
    | BranchExists
    | SegmentAlreadySealed
    | ChainTooLong
    | TornTail
    | InvalidForkMarker
    | InvalidSnapshot

  datatype Result<+T> = Ok(value: T) | Err(fault: Fault) {
    predicate IsFailure() { Err? }

    function PropagateFailure<U>(): Result<U>
      requires Err?
    {
      Err(fault)
    }

    function Extract(): T
      requires Ok?
    {
      value
    }
  }

  function Pow256(width: nat): (p: nat)
    ensures p > 0
  {
    if width == 0 then 1 else 256 * Pow256(width - 1)
  }

  /** The value of little-endian octets. */
  function Value(b: Octets): (n: nat)
    ensures n < Pow256(|b|)
  {
    if |b| == 0 then 0 else b[0] as int + 256 * Value(b[1..])
  }

  /** The `width` little-endian octets of `n`. */
  function LittleEndian(n: nat, width: nat): (b: Octets)
    requires n < Pow256(width)
    ensures |b| == width
    ensures Value(b) == n
  {
    if width == 0 then [] else [(n % 256) as octet] + LittleEndian(n / 256, width - 1)
  }

  /** Little-endian octets are canonical: writing back what was read gives the same octets. */
  lemma {:induction false} LittleEndianCanonical(b: Octets)
    ensures LittleEndian(Value(b), |b|) == b
  {
    if |b| != 0 {
      LittleEndianCanonical(b[1..]);
      assert Value(b) % 256 == b[0] as int && Value(b) / 256 == Value(b[1..]);
      assert b == [b[0]] + b[1..];
    }
  }

  predicate IsI64(n: int) { I64_MIN <= n <= I64_MAX }

  function Ascii(s: string): (b: Octets)
    ensures |b| == |s|
  {
    seq(|s|, i requires 0 <= i < |s| => (s[i] as int % 256) as octet)
  }

  function U16(n: nat): (b: Octets)
    requires n < 0x1_0000
    ensures |b| == 2
  {
    LittleEndian(n, 2)
  }

  function U32(n: nat): (b: Octets)
    requires n < U32_LIMIT
    ensures |b| == 4
  {
    LittleEndian(n, 4)
  }

  /** Signed 64-bit integers are written in two's complement. */
  function I64(n: int): (b: Octets)
    requires IsI64(n)
    ensures |b| == 8
  {
    LittleEndian(if n < 0 then n + U64_LIMIT else n, 8)
  }

  function SignedValue(b: Octets): (n: int)
    requires |b| == 8
    ensures IsI64(n)
  {
    var v := Value(b);
    if v > I64_MAX then v - U64_LIMIT else v
  }

  lemma I64RoundTrip(n: int, rest: Octets)
    requires IsI64(n)
    ensures (I64(n) + rest)[..8] == I64(n) && (I64(n) + rest)[8..] == rest && SignedValue(I64(n)) == n
  {
  }

  lemma U32Canonical(b: Octets)
    requires |b| == 4
    ensures Value(b) < U32_LIMIT && U32(Value(b)) == b
  {
    LittleEndianCanonical(b);
  }

  lemma I64Canonical(b: Octets)
    requires |b| == 8
    ensures I64(SignedValue(b)) == b
  {
    LittleEndianCanonical(b);
  }
}
