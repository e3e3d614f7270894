/** Failure-carrying results and the error values the modelled operations return. */
module Common {

  datatype Option<+T> = None | Some(value: T)

  datatype Result<+T> = Ok(value: T) | Err(error: TsoError)

  /** The errors of the modelled paths; payloads the properties do not read are dropped. */
  datatype TsoError =
    | Internal
    | TsoOverflow
    | GeneratorIdOutOfRange(generatorId: nat)
    | ClockBackwards(deltaMs: nat)
    | FutureBorrowExceeded(requestedPhysicalMs: nat, allowedPhysicalMs: nat)
    | IssuedUpperBoundExceeded(requestedEndTso: nat, issuedUpperBound: nat)
    | MetadataAlreadyExists
    | CasFailed
    | NotFound
    | TimelineLimitReached(max: nat)
    | CacheSaturated(maxEntries: nat)

  const U64_MAX: nat := 0xFFFF_FFFF_FFFF_FFFF

  /** A Rust `u64`; every checked, saturating or masking operation is written out. */
  type u64 = x: int | 0 <= x <= 0xFFFF_FFFF_FFFF_FFFF

  /** `CURRENT_METADATA_SCHEMA_VERSION`. */
  const CURRENT_SCHEMA: nat := 1

  function Max(a: int, b: int): int {
    if a >= b then a else b
  }

  function Min(a: int, b: int): int {
    if a <= b then a else b
  }

  /** `u64::saturating_add`. */
  function SaturatingAdd(a: u64, b: u64): u64 {
    if a + b > U64_MAX then U64_MAX else a + b
  }

  /** `u64::saturating_mul`. */
  function SaturatingMul(a: u64, b: u64): (r: u64) {
    var product: int := a * b;
    if product > U64_MAX then U64_MAX else (assert 0 <= product by { MulNonNegative(a, b); } product)
  }

  /** `u64::checked_add`. */
  function CheckedAdd(a: u64, b: u64): Option<u64> {
    if a + b > U64_MAX then None else Some(a + b)
  }

  /** `u64::checked_mul`. */
  function CheckedMul(a: u64, b: u64): Option<u64> {
    var product: int := a * b;
    if product > U64_MAX then None else (assert 0 <= product by { MulNonNegative(a, b); } Some(product))
  }

  /** The larger of two optional values, absent being smallest. */
  function MergeMax(a: Option<u64>, b: Option<u64>): Option<u64> {
    match (a, b)
    case (Some(x), Some(y)) => Some(if x >= y then x else y)
    case (Some(_), None) => a
    case (None, _) => b
  }

  lemma MulNonNegative(a: int, b: int)
    requires 0 <= a && 0 <= b
    ensures 0 <= a * b
  {}
}
