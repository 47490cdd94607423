/** Throttled progress: at most one report for each whole percent, and always a last one at the end. */
module Progress {
  import opened Bytes

  function SaturatingMul(a: nat, b: nat): u64 { if a * b > U64_MAX then U64_MAX else a * b }

  function SaturatingAdd(a: nat, b: nat): u64 { if a + b > U64_MAX then U64_MAX else a + b }

  /** The whole percent of `processed` in `total`, as the tracker computes it. */
  function Percent(processed: u64, total: u64): nat
    requires total > 0
  {
    if processed >= total then 100 else SaturatingMul(processed, 100) / total
  }

  /** Short of the total it is the whole percent, where the product does not saturate; from the total on it is 100. */
  lemma {:induction false} PercentMeans(processed: u64, total: u64)
    requires total > 0
    ensures processed >= total ==> Percent(processed, total) == 100
    ensures processed < total && 100 * processed <= U64_MAX ==>
      var p := Percent(processed, total); p * total <= 100 * processed < (p + 1) * total
  {
    if processed < total {
      var n: nat := SaturatingMul(processed, 100);
      assert n == total * (n / total) + n % total;
      assert (n / total + 1) * total == total * (n / total) + total;
    }
  }

  lemma {:induction false} PercentBelowHundred(processed: u64, total: u64)
    requires processed < total
    ensures Percent(processed, total) < 100
  {
    if processed * 100 > U64_MAX {
      assert U64_MAX < 100 * total;
    } else {
      assert processed * 100 < 100 * total;
    }
    Quotient(SaturatingMul(processed, 100), total);
  }

  lemma {:induction false} Quotient(a: nat, b: nat)
    requires b > 0 && a < 100 * b
    ensures a / b < 100
  {
    assert a == b * (a / b) + a % b;
    Product(b, 100, a / b);
  }

  lemma Product(b: nat, p: nat, q: nat)
    ensures p <= q ==> b * p <= b * q
  {
  }

  lemma {:induction false} PercentGrows(a: u64, b: u64, total: u64)
    requires total > 0 && a <= b
    ensures Percent(a, total) <= Percent(b, total)
  {
    if b < total {
      assert SaturatingMul(a, 100) <= SaturatingMul(b, 100);
      QuotientGrows(SaturatingMul(a, 100), SaturatingMul(b, 100), total);
    } else if a < total {
      PercentBelowHundred(a, total);
    }
  }

  lemma {:induction false} QuotientGrows(a: nat, b: nat, m: nat)
    requires m > 0 && a <= b
    ensures a / m <= b / m
  {
    assert a == m * (a / m) + a % m && b == m * (b / m) + b % m;
    Product(m, b / m + 1, a / m);
  }

  /** The percent of the last report; nothing reported is nothing done. */
  function LastPercent(reports: seq<u64>, total: u64): nat
    requires total > 0
  {
    if reports == [] then 0 else Percent(reports[|reports| - 1], total)
  }

  /** The percents reported so far, in strictly ascending order. */
  ghost predicate StrictlyRising(reports: seq<u64>, total: u64)
    requires total > 0
  {
    forall i, j :: 0 <= i < j < |reports| ==> Percent(reports[i], total) < Percent(reports[j], total)
  }

  class Tracker {
    const total: u64
    var processed: u64
    var nextPercent: nat
    /** The processed byte counts handed to the callback. */
    var reports: seq<u64>

    ghost predicate Valid()
      reads this
    {
      && processed <= total
      && (total == 0 ==> reports == [] && processed == 0)
      && (total > 0 ==>
            && StrictlyRising(reports, total)
            && (forall i :: 0 <= i < |reports| ==> 1 <= Percent(reports[i], total) <= 100 && reports[i] <= processed)
            && nextPercent == LastPercent(reports, total) + 1
            && LastPercent(reports, total) == Percent(processed, total))
    }

    constructor (total: u64)
      ensures Valid() && this.total == total && processed == 0 && reports == []
    {
      this.total := total;
      processed, nextPercent, reports := 0, 1, [];
    }

    /** Counts bytes up to the total, and reports exactly when the percent has grown since the last report. */
    method Advance(delta: u64)
      requires Valid()
      modifies this
      ensures Valid()
      ensures processed == if total == 0 then 0 else Min(SaturatingAdd(old(processed), delta), total)
      ensures total == 0 ==> reports == []
      ensures total > 0 ==>
        reports == if Percent(processed, total) > LastPercent(old(reports), total) then old(reports) + [processed]
                   else old(reports)
    {
      if total == 0 {
        return;
      }
      processed := Min(SaturatingAdd(processed, delta), total);
      MaybeEmit();
    }

    /** Ends at the total with a report of a hundred percent, unless that was reported before. */
    method Finish()
      requires Valid()
      modifies this
      ensures Valid() && processed == total
      ensures total == 0 ==> reports == []
      ensures total > 0 ==> LastPercent(reports, total) == 100
      ensures total > 0 ==>
        reports == if LastPercent(old(reports), total) < 100 then old(reports) + [total] else old(reports)
    {
      if total == 0 {
        return;
      }
      processed := total;
      MaybeEmit();
    }

    method MaybeEmit()
      requires total > 0 && processed <= total
      requires StrictlyRising(reports, total)
      requires forall i :: 0 <= i < |reports| ==> 1 <= Percent(reports[i], total) <= 100 && reports[i] <= processed
      requires nextPercent == LastPercent(reports, total) + 1
      modifies this`nextPercent, this`reports
      ensures Valid()
      ensures reports == if Percent(processed, total) > LastPercent(old(reports), total) then old(reports) + [processed]
                         else old(reports)
    {
      hide SaturatingMul;
      if processed < total { PercentBelowHundred(processed, total); }
      if reports != [] { PercentGrows(reports[|reports| - 1], processed, total); }
      var percent := Percent(processed, total);
      if percent < nextPercent {
        return;
      }
      reports := reports + [processed];
      nextPercent := percent + 1;
    }
  }

  /** A tracker reports at most a hundred times, however many pieces the bytes come in. */
  lemma {:induction false} FewReports(reports: seq<u64>, total: u64)
    requires total > 0 && StrictlyRising(reports, total)
    requires forall i :: 0 <= i < |reports| ==> 1 <= Percent(reports[i], total) <= 100
    ensures reports != [] ==> |reports| <= Percent(reports[|reports| - 1], total)
    ensures |reports| <= 100
  {
    hide Percent;
    if |reports| > 1 {
      var shorter := reports[..|reports| - 1];
      FewReports(shorter, total);
      assert Percent(reports[|reports| - 2], total) < Percent(reports[|reports| - 1], total);
    }
  }
}
