/** Machine words and checked arithmetic, as the program uses them.

    The program is built with overflow checks on, so an unchecked `+`, `-` or `*`
    that leaves its word aborts the instruction. That abort is the error `Panic`;
    a `checked_*` call that returns nothing is the error its caller names. */
module Machine {

  type u8 = n: int | 0 <= n < 0x100
  type u16 = n: int | 0 <= n < 0x1_0000
  type u64 = n: int | 0 <= n < 0x1_0000_0000_0000_0000
  type u128 = n: int | 0 <= n < 0x1_0000_0000_0000_0000_0000_0000_0000_0000

  const U64_MAX: u64 := 0xFFFF_FFFF_FFFF_FFFF
  const U128_MAX: u128 := 0xFFFF_FFFF_FFFF_FFFF_FFFF_FFFF_FFFF_FFFF

  datatype Option<+T> = None | Some(value: T)

  datatype Error =
    | Panic
    | Overflow
    | DivByZero
    // Offer pricing
    | NoActiveVector
    // Vector store
    | StartTimeInPast
    | ZeroValue
    | DuplicateStartTime
    | InvalidTimeRange
    | TooManyVectors
    | VectorNotFound
    // Offer settings
    | InvalidFee
    | PermissionlessNotAllowed
    // Settlement
    | ZeroPriceNotAllowed
    | DecimalsExceedMax
    | ResultOverflow
    // Token ledger
    | TransferFeeNotSupported
    | MaxSupplyExceeded
    | NoMintAuthority
    | InvalidAccount
    | MintMismatch
    | InsufficientFunds

  datatype Result<+T> = Ok(value: T) | Err(error: Error) {
    predicate IsFailure() {
      Err?
    }

    function PropagateFailure<U>(): Result<U>
      requires Err?
    {
      Err(error)
    }

    function Extract(): T
      requires Ok?
    {
      value
    }
  }

  /** `a.checked_add(b)` on u128, failing with `e`. */
  function CheckedAdd128(a: u128, b: u128, e: Error): Result<u128> {
    if a + b <= U128_MAX then Ok(a + b) else Err(e)
  }

  /** `a.checked_mul(b)` on u128, failing with `e`. */
  function CheckedMul128(a: u128, b: u128, e: Error): Result<u128> {
    if 0 <= a * b <= U128_MAX then Ok(a * b) else Err(e)
  }

  /** `a.checked_add(b)` on u64, failing with `e`. */
  function CheckedAdd64(a: u64, b: u64, e: Error): Result<u64> {
    if a + b <= U64_MAX then Ok(a + b) else Err(e)
  }

  /** `a.checked_mul(b)` on u64, failing with `e`. */
  function CheckedMul64(a: u64, b: u64, e: Error): Result<u64> {
    if 0 <= a * b <= U64_MAX then Ok(a * b) else Err(e)
  }

  function Min(a: int, b: int): int {
    if a <= b then a else b
  }

  function Max(a: int, b: int): int {
    if a >= b then a else b
  }
}
