/**
 Types shared by the models: wire bytes, 16-bit record identifiers, completion
 codes, and the error a transaction with a management controller can end in.
 */
module Ipmi {

  type byte = x: int | 0 <= x < 0x100

  type u16 = x: int | 0 <= x < 0x1_0000

  datatype Option<+T> = None | Some(value: T)

  datatype Result<+T, +E> = Ok(value: T) | Err(error: E)

  type RecordId = u16

  /** Reserved identifier that asks for the first record of a log or repository. */
  const FIRST: RecordId := 0x0000

  /** Reserved identifier that a next-record pointer carries after the last record. */
  const LAST: RecordId := 0xFFFF

  /** The completion codes that some workflow treats specially; every other code is `OtherCode`. */
  datatype CompletionCode =
    | ReservationCancelledOrInvalidId
    | RequestedDatapointNotPresent
    | RequestDataLenInvalid
    | RequestDataLengthLimitExceeded
    | CannotReturnNumOfRequestedBytes
    | OtherCode(code: byte)

  /**
   How a command can fail: a nonzero completion code, a reply that the command's
   own parser rejects (with a code, if it was a code it reinterprets), or a transport failure.
   */
  datatype IpmiError =
    | Failed(code: CompletionCode)
    | Command(reinterpreted: Option<CompletionCode>)
    | Connection

  function Min(a: int, b: int): int { if a <= b then a else b }

  function Max(a: int, b: int): int { if a >= b then a else b }

  /** `n` divided by `d`, rounded up: how many pieces of at most `d` make up `n`. */
  function DivCeil(n: nat, d: nat): nat
    requires d > 0
  {
    if n == 0 then 0 else 1 + DivCeil(n - Min(n, d), d)
  }

  lemma {:induction false} DivCeilMeaning(n: nat, d: nat)
    requires d > 0
    ensures n <= DivCeil(n, d) * d < n + d
  {
    if n > d {
      DivCeilMeaning(n - d, d);
      assert DivCeil(n, d) * d == DivCeil(n - d, d) * d + d;
    } else if n > 0 {
      assert DivCeil(n, d) == 1 + DivCeil(0, d);
    }
  }

  /** Larger pieces of fewer things are no more pieces. */
  lemma {:induction false} DivCeilMonotone(n: nat, m: nat, large: nat, small: nat)
    requires n <= m && 0 < small <= large
    ensures DivCeil(n, large) <= DivCeil(m, small)
  {
    if n > 0 {
      DivCeilMonotone(n - Min(n, large), m - Min(m, small), large, small);
    }
  }
}
