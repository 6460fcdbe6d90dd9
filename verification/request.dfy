/**
 * The lookback window the program asks the metrics API for: the answer to
 * "How many days of lookback?" converted to a negative offset in milliseconds.
 */
module Request {
  import opened Strconv

  const MsPerDay: int := 86_400_000

  /** The largest number of days whose offset fits a Go `int` without wrapping. */
  const MaxExactDays: int := 106_751_991_167

  /** `daysINT * -86400000` in Go's 64-bit arithmetic. */
  function LookbackForDays(days: Int64): (r: Int64)
    ensures -MaxExactDays <= days <= MaxExactDays ==> r == days * -MsPerDay
    ensures 0 <= days <= MaxExactDays ==> r <= 0
    ensures (days * -MsPerDay - r) % Modulus64 == 0
  {
    Wrap64(days * -MsPerDay)
  }

  /**
   * The `from` value of the request for a typed answer: the number of days
   * times -86 400 000, and 0 when the answer is not a number, because the
   * conversion error is ignored.
   */
  function Lookback(answer: string): (r: Int64)
    ensures !IsDecimal(answer) ==> r == 0
    ensures -MaxExactDays <= Atoi(answer) <= MaxExactDays ==> r == Atoi(answer) * -MsPerDay
    ensures 0 <= Atoi(answer) <= MaxExactDays ==> r <= 0
  {
    LookbackForDays(Atoi(answer))
  }

  /** One day more than `MaxExactDays` wraps around to a positive, future `from`. */
  lemma LookbackWrapsPastBound()
    ensures LookbackForDays(MaxExactDays + 1) == 9_223_372_036_794_351_616
  {
  }

  /** "3" days asks for the last 259 200 000 milliseconds. */
  lemma LookbackThreeDays()
    ensures Lookback("3") == -259_200_000
  {
  }

}
