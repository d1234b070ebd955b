/**
  The data helpers of the shopping classifier exercise: the month-name lookup
  used while loading the spreadsheet, and the two implementations of the
  sensitivity/specificity evaluation. Rates are kept as exact hit/total pairs
  instead of floating-point quotients.
 */
module Shopping {

  /** The twelve abbreviations the spreadsheet uses, in calendar order. */
  const Months: seq<string> :=
    ["Jan", "Feb", "Mar", "Apr", "May", "Jun", "Jul", "Aug", "Sep", "Oct", "Nov", "Dec"]

  /** Index of a month abbreviation (January is 0), or -1 for anything else. */
  function MonthToInt(month: string): (r: int)
    ensures -1 <= r <= 11
    ensures r == -1 <==> month !in Months
    ensures 0 <= r ==> Months[r] == month
  {
    if month == "Jan" then 0
    else if month == "Feb" then 1
    else if month == "Mar" then 2
    else if month == "Apr" then 3
    else if month == "May" then 4
    else if month == "Jun" then 5
    else if month == "Jul" then 6
    else if month == "Aug" then 7
    else if month == "Sep" then 8
    else if month == "Oct" then 9
    else if month == "Nov" then 10
    else if month == "Dec" then 11
    else -1
  }

  /** Every month name maps to its position in the calendar. */
  lemma MonthToIntInOrder(i: nat)
    requires i < |Months|
    ensures MonthToInt(Months[i]) == i
  {
  }

  /** Distinct valid month names get distinct indices. */
  lemma MonthToIntInjective(a: string, b: string)
    requires a in Months && b in Months
    requires MonthToInt(a) == MonthToInt(b)
    ensures a == b
  {
  }

  /** A rate `hits / total`, read as 0 when `total` is 0. */
  datatype Rate = Rate(hits: nat, total: nat) {
    /** The rate lies in [0, 1], and is 0 whenever its denominator is 0. */
    predicate InUnitInterval() {
      hits <= total && (total == 0 ==> hits == 0)
    }
  }

  /** Number of indices below `n` whose label is `a` and whose prediction is `b`. */
  function CountPairs(labels: seq<int>, predictions: seq<int>, n: nat, a: int, b: int): nat
    requires n <= |labels| && n <= |predictions|
  {
    if n == 0 then 0
    else CountPairs(labels, predictions, n - 1, a, b)
         + (if labels[n - 1] == a && predictions[n - 1] == b then 1 else 0)
  }

  /** Number of indices below `n` whose label is `a`. */
  function CountLabel(labels: seq<int>, n: nat, a: int): nat
    requires n <= |labels|
  {
    if n == 0 then 0
    else CountLabel(labels, n - 1, a) + (if labels[n - 1] == a then 1 else 0)
  }

  /** Matches of label `a` are among the occurrences of label `a`. */
  lemma {:induction false} CountPairsAtMostCountLabel(labels: seq<int>, predictions: seq<int>, n: nat, a: int, b: int)
    requires n <= |labels| && n <= |predictions|
    ensures CountPairs(labels, predictions, n, a, b) <= CountLabel(labels, n, a)
  {
    if n > 0 {
      CountPairsAtMostCountLabel(labels, predictions, n - 1, a, b);
    }
  }

  /** Occurrences in a prefix are at most those in a longer prefix. */
  lemma {:induction false} CountLabelMonotone(labels: seq<int>, m: nat, n: nat, a: int)
    requires m <= n <= |labels|
    ensures CountLabel(labels, m, a) <= CountLabel(labels, n, a)
  {
    if m < n {
      CountLabelMonotone(labels, m, n - 1, a);
    }
  }

  /**
    The comprehension-based evaluation: true positives and negatives are
    counted over the zipped pairs (so over the shorter of the two lists),
    totals over all labels.
   */
  function Evaluate2(labels: seq<int>, predictions: seq<int>): (r: (Rate, Rate))
    ensures r.0.InUnitInterval() && r.1.InUnitInterval()
    ensures r.0.total + r.1.total <= |labels|
  {
    var n := if |labels| <= |predictions| then |labels| else |predictions|;
    CountPairsAtMostCountLabel(labels, predictions, n, 1, 1);
    CountPairsAtMostCountLabel(labels, predictions, n, 0, 0);
    CountLabelMonotone(labels, n, |labels|, 1);
    CountLabelMonotone(labels, n, |labels|, 0);
    LabelsSplit(labels, |labels|);
    (Rate(CountPairs(labels, predictions, n, 1, 1), CountLabel(labels, |labels|, 1)),
     Rate(CountPairs(labels, predictions, n, 0, 0), CountLabel(labels, |labels|, 0)))
  }

  /** Positive and negative labels are disjoint, so together they are at most all labels. */
  lemma {:induction false} LabelsSplit(labels: seq<int>, n: nat)
    requires n <= |labels|
    ensures CountLabel(labels, n, 1) + CountLabel(labels, n, 0) <= n
  {
    if n > 0 {
      LabelsSplit(labels, n - 1);
    }
  }

  /**
    The loop-based evaluation. It indexes `predictions` at every label
    position, so the predictions must be at least as long as the labels.
   */
  method Evaluate(labels: seq<int>, predictions: seq<int>) returns (sensitivity: Rate, specificity: Rate)
    requires |labels| <= |predictions|
    ensures (sensitivity, specificity) == Evaluate2(labels, predictions)
    ensures sensitivity.InUnitInterval() && specificity.InUnitInterval()
  {
    var truePositive, totalPositive, trueNegative, totalNegative := 0, 0, 0, 0;
    var i := 0;
    while i < |labels|
      invariant i <= |labels|
      invariant truePositive == CountPairs(labels, predictions, i, 1, 1)
      invariant totalPositive == CountLabel(labels, i, 1)
      invariant trueNegative == CountPairs(labels, predictions, i, 0, 0)
      invariant totalNegative == CountLabel(labels, i, 0)
    {
      if labels[i] == 1 {
        totalPositive := totalPositive + 1;
        if predictions[i] == 1 {
          truePositive := truePositive + 1;
        }
      }
      if labels[i] == 0 {
        totalNegative := totalNegative + 1;
        if predictions[i] == 0 {
          trueNegative := trueNegative + 1;
        }
      }
      i := i + 1;
    }
    sensitivity := Rate(truePositive, totalPositive);
    specificity := Rate(trueNegative, totalNegative);
  }
}
