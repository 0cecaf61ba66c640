/** Types shared by every module: optional and failing results, machine words, IEEE doubles. */
module Prelude {

  datatype Option<+T> = None | Some(value: T) {
    function GetOr(default: T): T {
      match this
      case Some(v) => v
      case None => default
    }
  }

  datatype Result<+T, +E> = Ok(value: T) | Err(error: E)

  type byte = b: int | 0 <= b < 256

  const U16_MAX := 0xFFFF
  const U64_MAX := 0xFFFF_FFFF_FFFF_FFFF

  type u16 = n: int | 0 <= n <= U16_MAX
  type u64 = n: int | 0 <= n <= U64_MAX

  /** `u64::saturating_add`. */
  function SatAdd(a: u64, b: u64): u64 {
    if a + b <= U64_MAX then a + b else U64_MAX
  }

  /** `u64::saturating_sub`. */
  function SatSub(a: u64, b: u64): u64 {
    if b <= a then a - b else 0
  }

  /** `u64::saturating_mul` by three. */
  function SatTriple(a: u64): u64 {
    if 3 * a <= U64_MAX then 3 * a else U64_MAX
  }

  /**
   * A double as the daemon's finiteness checks see it: a finite real, or one of the
   * infinities and NaNs, which no operation with finite non-zero operands turns back
   * into a finite number.
   */
  datatype F64 = Finite(r: real) | NonFinite

  function Abs(x: real): real {
    if x < 0.0 then -x else x
  }

  /** A decoded physical value. */
  datatype SignalValue = Bool(b: bool) | Num(n: real) | Enum(text: string)

  /** One reading of one signal, as the engine receives it. */
  datatype Sample = Sample(signalId: u16, name: string, timestampUs: u64, value: SignalValue)

  /** `s` ends with `t`. */
  predicate IsSuffix<T(==)>(t: seq<T>, s: seq<T>) {
    |t| <= |s| && s[|s| - |t|..] == t
  }
}
