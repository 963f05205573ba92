/**
 * dashboard.py lines 136-137: the "joined N years and M months ago" figures,
 * computed from the whole number of days since the account was created.
 */
module AccountAge {

  datatype Joined = Joined(years: int, months: int)

  /**
   * `years, remainder = divmod(days, 365)` and `months = remainder // 30`.
   * Python's floor division and Dafny's `/` and `%` agree for a positive
   * divisor, negative day counts included. The years are whole 365-day spans,
   * the remainder is below a year, and the months (30-day spans of the
   * remainder) are at most 12.
   */
  function JoinedAgo(days: int): (j: Joined)
    ensures 0 <= days - j.years * 365 < 365
    ensures j.months * 30 <= days - j.years * 365 < j.months * 30 + 30
    ensures 0 <= j.months <= 12
    ensures j.years >= 0 <==> days >= 0
  {
    var years := days / 365;
    var remainder := days % 365;
    Joined(years, remainder / 30)
  }
}
