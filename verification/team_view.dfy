/** The run-rate table (`components/TeamView.tsx`): one row per platform, one
    column per month of the selected year, with a total per month, a total per
    platform, a grand total and each platform's share of it. */
module RunRateTable {
  import opened Domain
  import Financials
  import Session

  /** The twelve months of a year, indexed 0 to 11. */
  const MonthsInYear: nat := 12

  /** One cell: the platform's spend in the month, 0 when the year, the month or
      the platform is missing. */
  function Cell(rr: RunRateData, year: int, month: int, p: System): int {
    if year in rr && month in rr[year] && p in rr[year][month] then rr[year][month][p] else 0
  }

  /** getMonthTotal: the sum of the values in the month's record, 0 when there
      is no record. It is the sum of the month's three cells. */
  function MonthTotal(rr: RunRateData, year: int, month: int): (t: int)
    ensures t == Cell(rr, year, month, EOM) + Cell(rr, year, month, TOM) + Cell(rr, year, month, C3)
  {
    if year in rr && month in rr[year] then Financials.Rate(rr[year][month], Global) else 0
  }

  /** A platform's spend over the months 0 to n - 1. */
  function PlatformSum(rr: RunRateData, year: int, p: System, n: nat): int {
    if n == 0 then 0 else PlatformSum(rr, year, p, n - 1) + Cell(rr, year, n - 1, p)
  }

  /** The month totals over the months 0 to n - 1. */
  function MonthSum(rr: RunRateData, year: int, n: nat): int {
    if n == 0 then 0 else MonthSum(rr, year, n - 1) + MonthTotal(rr, year, n - 1)
  }

  /** getPlatformTotal: the loop over the twelve months. */
  method PlatformTotal(rr: RunRateData, year: int, p: System) returns (total: int)
    ensures total == PlatformSum(rr, year, p, MonthsInYear)
  {
    total := 0;
    var i := 0;
    while i < MonthsInYear
      invariant 0 <= i <= MonthsInYear
      invariant total == PlatformSum(rr, year, p, i)
    {
      total := total + Cell(rr, year, i, p);
      i := i + 1;
    }
  }

  /** Summing the table by rows or by columns gives the same amount. */
  lemma {:induction false} RowsMatchColumns(rr: RunRateData, year: int, n: nat)
    ensures PlatformSum(rr, year, EOM, n) + PlatformSum(rr, year, TOM, n) + PlatformSum(rr, year, C3, n)
      == MonthSum(rr, year, n)
  {
    if n > 0 {
      RowsMatchColumns(rr, year, n - 1);
    }
  }

  /** grandTotal: the platform totals added up. The bottom-right cell of the
      table agrees with the sum of the month totals along the bottom row. */
  function GrandTotal(rr: RunRateData, year: int): (g: int)
    ensures g == MonthSum(rr, year, MonthsInYear)
  {
    RowsMatchColumns(rr, year, MonthsInYear);
    PlatformSum(rr, year, EOM, MonthsInYear) + PlatformSum(rr, year, TOM, MonthsInYear)
      + PlatformSum(rr, year, C3, MonthsInYear)
  }

  /** A platform's percentage of the grand total, 0 when the grand total is not
      positive; an exact real, where the source computes in binary64. */
  function Share(rr: RunRateData, year: int, p: System): (s: real)
    ensures GrandTotal(rr, year) <= 0 ==> s == 0.0
    ensures GrandTotal(rr, year) > 0 ==>
      s * (GrandTotal(rr, year) as real) == (PlatformSum(rr, year, p, MonthsInYear) as real) * 100.0
  {
    var g := GrandTotal(rr, year);
    if g > 0 then (PlatformSum(rr, year, p, MonthsInYear) as real) / (g as real) * 100.0 else 0.0
  }

  /** With a positive grand total the three shares make up the whole. */
  lemma SharesMakeWhole(rr: RunRateData, year: int)
    requires GrandTotal(rr, year) > 0
    ensures Share(rr, year, EOM) + Share(rr, year, TOM) + Share(rr, year, C3) == 100.0
  {
    var g := GrandTotal(rr, year) as real;
    var e, t, c := Share(rr, year, EOM), Share(rr, year, TOM), Share(rr, year, C3);
    var pe, pt, pc := PlatformSum(rr, year, EOM, MonthsInYear) as real,
      PlatformSum(rr, year, TOM, MonthsInYear) as real, PlatformSum(rr, year, C3, MonthsInYear) as real;
    assert e * g == pe * 100.0 && t * g == pt * 100.0 && c * g == pc * 100.0;
    assert pe + pt + pc == g;
    assert (e + t + c) * g == e * g + t * g + c * g;
    assert (e + t + c - 100.0) * g == 0.0;
  }

  /** An amount that is never negative gives each platform between none and all of it. */
  lemma {:induction false} PlatformSumNonNegative(rr: RunRateData, year: int, p: System, n: nat)
    requires forall y, m, q :: y in rr && m in rr[y] && q in rr[y][m] ==> rr[y][m][q] >= 0
    ensures PlatformSum(rr, year, p, n) >= 0
  {
    if n > 0 {
      PlatformSumNonNegative(rr, year, p, n - 1);
    }
  }

  /** A platform's share of a table with no negative amount lies between 0 and 100. */
  lemma ShareBounds(rr: RunRateData, year: int, p: System)
    requires forall y, m, q :: y in rr && m in rr[y] && q in rr[y][m] ==> rr[y][m][q] >= 0
    ensures 0.0 <= Share(rr, year, p) <= 100.0
  {
    var g := GrandTotal(rr, year);
    if g > 0 {
      var part := PlatformSum(rr, year, p, MonthsInYear);
      PartOfGrandTotal(rr, year, p);
      PercentOfWhole(Share(rr, year, p), part as real, g as real);
    }
  }

  /** With no negative amount, a platform's total lies between 0 and the grand total. */
  lemma PartOfGrandTotal(rr: RunRateData, year: int, p: System)
    requires forall y, m, q :: y in rr && m in rr[y] && q in rr[y][m] ==> rr[y][m][q] >= 0
    ensures 0 <= PlatformSum(rr, year, p, MonthsInYear) <= GrandTotal(rr, year)
  {
    PlatformSumNonNegative(rr, year, EOM, MonthsInYear);
    PlatformSumNonNegative(rr, year, TOM, MonthsInYear);
    PlatformSumNonNegative(rr, year, C3, MonthsInYear);
  }

  lemma PercentOfWhole(s: real, part: real, whole: real)
    requires 0.0 <= part <= whole && whole > 0.0
    requires s * whole == part * 100.0
    ensures 0.0 <= s <= 100.0
  {
    assert (s - 100.0) * whole <= 0.0;
  }

  // ---- Editing a cell ----------------------------------------------------------------

  /** Setting one cell of the run-rate table (the edit an administrator makes
      in a month input) changes that cell only. */
  lemma CellAfterEdit(rr: RunRateData, year: int, month: int, p: System, amount: int,
                      y: int, m: int, q: System)
    ensures Cell(Session.SetRate(rr, year, month, p, amount), y, m, q)
      == if y == year && m == month && q == p then amount else Cell(rr, y, m, q)
  {
    Session.SetRateFrame(rr, year, month, p, amount);
  }

  /** After the edit, the platform's row total moves by the difference and the
      other rows keep their totals. */
  lemma {:induction false} EditMovesOneRow(rr: RunRateData, year: int, month: nat, p: System, amount: int,
                                           q: System, n: nat)
    requires month < n
    ensures var r := Session.SetRate(rr, year, month, p, amount);
      PlatformSum(r, year, q, n)
        == PlatformSum(rr, year, q, n) + (if q == p then amount - Cell(rr, year, month, p) else 0)
  {
    var r := Session.SetRate(rr, year, month, p, amount);
    CellAfterEdit(rr, year, month, p, amount, year, n - 1, q);
    if month < n - 1 {
      EditMovesOneRow(rr, year, month, p, amount, q, n - 1);
    } else {
      UntouchedPrefix(rr, year, month, p, amount, q, n - 1);
    }
  }

  /** Months before the edited one keep their row sums. */
  lemma {:induction false} UntouchedPrefix(rr: RunRateData, year: int, month: nat, p: System, amount: int,
                                           q: System, n: nat)
    requires n <= month
    ensures PlatformSum(Session.SetRate(rr, year, month, p, amount), year, q, n) == PlatformSum(rr, year, q, n)
  {
    if n > 0 {
      CellAfterEdit(rr, year, month, p, amount, year, n - 1, q);
      UntouchedPrefix(rr, year, month, p, amount, q, n - 1);
    }
  }
}
