/** The `Borrowable` capability: the default late fee and borrowing status, and
    the static borrowing-period and maximum-fee helpers. Money is `real`. */
module Borrowable {

  /** The longest borrowing period, in days. */
  const MaxBorrowingDays: int := 30

  /** The default `calculateDefaultLateFee`: nothing for a non-positive number
      of days, otherwise linear in the days. */
  function CalculateDefaultLateFee(daysOverdue: int, dailyRate: real): (fee: real)
    ensures daysOverdue <= 0 ==> fee == 0.0
    ensures daysOverdue > 0 ==> fee == daysOverdue as real * dailyRate
  {
    if daysOverdue <= 0 then 0.0 else daysOverdue as real * dailyRate
  }

  /** The default `getBorrowingStatus`. */
  function BorrowingStatus(available: bool): (s: string)
    ensures s == "Available for borrowing" <==> available
    ensures !available ==> s == "Currently borrowed"
  {
    if available then "Available for borrowing" else "Currently borrowed"
  }

  /** `Borrowable.isValidBorrowingPeriod`: 1 to 30 days. */
  predicate IsValidBorrowingPeriod(days: int)
    ensures IsValidBorrowingPeriod(days) <==> 1 <= days <= MaxBorrowingDays
  {
    days > 0 && days <= MaxBorrowingDays
  }

  /** `Borrowable.getMaxLateFee`: the fee for a full 30-day period. */
  function MaxLateFee(dailyRate: real): (m: real)
    ensures m == CalculateDefaultLateFee(MaxBorrowingDays, dailyRate)
  {
    dailyRate * 30.0
  }

  /** With a non-negative rate, more days never cost less. */
  lemma LateFeeMonotonic(d1: int, d2: int, dailyRate: real)
    requires d1 <= d2 && dailyRate >= 0.0
    ensures 0.0 <= CalculateDefaultLateFee(d1, dailyRate) <= CalculateDefaultLateFee(d2, dailyRate)
  {
    if d1 > 0 {
      assert (d2 - d1) as real * dailyRate >= 0.0;
    } else if d2 > 0 {
      assert d2 as real * dailyRate >= 0.0;
    }
  }

  /** With a positive rate, the fee strictly increases with the days once they are positive. */
  lemma LateFeeStrictlyIncreasing(d1: int, d2: int, dailyRate: real)
    requires 0 < d1 < d2 && dailyRate > 0.0
    ensures CalculateDefaultLateFee(d1, dailyRate) < CalculateDefaultLateFee(d2, dailyRate)
  {
    assert (d2 - d1) as real * dailyRate > 0.0;
  }

  /** Within a valid borrowing period the fee never exceeds `getMaxLateFee`. */
  lemma LateFeeAtMostMax(days: int, dailyRate: real)
    requires IsValidBorrowingPeriod(days) && dailyRate >= 0.0
    ensures 0.0 <= CalculateDefaultLateFee(days, dailyRate) <= MaxLateFee(dailyRate)
  {
    LateFeeMonotonic(days, MaxBorrowingDays, dailyRate);
  }

  /** The values printed by the interface demonstration. */
  lemma DemoValues()
    ensures IsValidBorrowingPeriod(14) && !IsValidBorrowingPeriod(45)
    ensures MaxLateFee(0.5) == 15.0
  {
  }
}
