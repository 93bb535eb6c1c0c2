/**
 * The exact parts of the shopping exercise: the string-to-integer encoders used
 * when loading the spreadsheet, and the confusion counts behind `evaluate`.
 * Ratios are exact `real`s rather than floating-point numbers.
 */
module Shopping {
  import opened Wrappers

  /** Month spellings in calendar order, exactly as the encoder recognises them:
      June is spelled out in full, every other month is abbreviated. */
  const MonthNames: seq<string> :=
    ["Jan", "Feb", "Mar", "Apr", "May", "June",
     "Jul", "Aug", "Sep", "Oct", "Nov", "Dec"]

  /** The encoder's if-chain: 0 for January up to 11 for December, -1 otherwise. */
  function MonthToInt(month: string): (r: int)
    ensures -1 <= r <= 11
    ensures 0 <= r ==> MonthNames[r] == month
    ensures r == -1 <==> month !in MonthNames
  {
    if month == "Jan" then 0
    else if month == "Feb" then 1
    else if month == "Mar" then 2
    else if month == "Apr" then 3
    else if month == "May" then 4
    else if month == "June" then 5
    else if month == "Jul" then 6
    else if month == "Aug" then 7
    else if month == "Sep" then 8
    else if month == "Oct" then 9
    else if month == "Nov" then 10
    else if month == "Dec" then 11
    else -1
  }

  /** The twelve recognised spellings are encoded in calendar order. */
  lemma MonthToIntCalendarOrder(k: nat)
    requires k < |MonthNames|
    ensures MonthToInt(MonthNames[k]) == k
  {
  }

  /** No two distinct recognised spellings share a code. */
  lemma MonthToIntInjective(m1: string, m2: string)
    requires MonthToInt(m1) != -1 && MonthToInt(m2) != -1
    ensures MonthToInt(m1) == MonthToInt(m2) <==> m1 == m2
  {
  }

  /** The three-letter "Jun" is not recognised: it falls through to -1. */
  lemma ShortJuneIsUnknown()
    ensures MonthToInt("Jun") == -1
  {
  }

  /** Returning visitors are 1, new visitors 0, anything else -1. */
  function VisitorTypeToInt(visitor: string): (r: int)
    ensures r == 1 <==> visitor == "Returning_Visitor"
    ensures r == 0 <==> visitor == "New_Visitor"
    ensures r == -1 <==> visitor != "Returning_Visitor" && visitor != "New_Visitor"
  {
    if visitor == "Returning_Visitor" then 1
    else if visitor == "New_Visitor" then 0
    else -1
  }

  /** "FALSE" is 0, "TRUE" is 1, anything else -1. */
  function TfToInt(tf: string): (r: int)
    ensures r == 0 <==> tf == "FALSE"
    ensures r == 1 <==> tf == "TRUE"
    ensures r == -1 <==> tf != "FALSE" && tf != "TRUE"
  {
    if tf == "FALSE" then 0
    else if tf == "TRUE" then 1
    else -1
  }

  /** The four tallies `evaluate` keeps while scanning the labels. */
  datatype Tally = Tally(falseCnt: nat, trueCnt: nat, specificity: nat, sensitivity: nat)

  /** Number of labels equal to 0 (the negatives). */
  function Negatives(labels: seq<int>): nat
  {
    if |labels| == 0 then 0
    else Negatives(labels[..|labels| - 1]) + (if labels[|labels| - 1] == 0 then 1 else 0)
  }

  /** Number of positions where the label is 0 and the prediction agrees. */
  function CorrectNegatives(labels: seq<int>, predictions: seq<int>): nat
    requires |labels| == |predictions|
  {
    if |labels| == 0 then 0
    else
      var n := |labels| - 1;
      CorrectNegatives(labels[..n], predictions[..n])
        + (if labels[n] == 0 && predictions[n] == 0 then 1 else 0)
  }

  /** Number of positions where the label is non-zero and the prediction equals it. */
  function CorrectPositives(labels: seq<int>, predictions: seq<int>): nat
    requires |labels| == |predictions|
  {
    if |labels| == 0 then 0
    else
      var n := |labels| - 1;
      CorrectPositives(labels[..n], predictions[..n])
        + (if labels[n] != 0 && predictions[n] == labels[n] then 1 else 0)
  }

  /** A correct negative is in particular a negative. */
  lemma {:induction false} CorrectNegativesBounded(labels: seq<int>, predictions: seq<int>)
    requires |labels| == |predictions|
    ensures CorrectNegatives(labels, predictions) <= Negatives(labels)
  {
    if |labels| > 0 {
      var n := |labels| - 1;
      CorrectNegativesBounded(labels[..n], predictions[..n]);
    }
  }

  /** A correct positive is in particular a positive. */
  lemma {:induction false} CorrectPositivesBounded(labels: seq<int>, predictions: seq<int>)
    requires |labels| == |predictions|
    ensures CorrectPositives(labels, predictions) <= |labels| - Negatives(labels)
  {
    if |labels| > 0 {
      var n := |labels| - 1;
      CorrectPositivesBounded(labels[..n], predictions[..n]);
    }
  }

  /** The counting loop of `evaluate`: every label is either a negative (it is 0)
      or a positive (anything else), and a prediction is correct when it equals the label. */
  method CountLabels(labels: seq<int>, predictions: seq<int>) returns (t: Tally)
    requires |labels| == |predictions|
    ensures t.falseCnt == Negatives(labels)
    ensures t.falseCnt + t.trueCnt == |labels|
    ensures t.specificity == CorrectNegatives(labels, predictions)
    ensures t.sensitivity == CorrectPositives(labels, predictions)
    ensures t.specificity <= t.falseCnt && t.sensitivity <= t.trueCnt
  {
    t := Tally(0, 0, 0, 0);
    var i := 0;
    while i < |labels|
      invariant 0 <= i <= |labels|
      invariant t.falseCnt == Negatives(labels[..i])
      invariant t.falseCnt + t.trueCnt == i
      invariant t.specificity == CorrectNegatives(labels[..i], predictions[..i])
      invariant t.sensitivity == CorrectPositives(labels[..i], predictions[..i])
      invariant t.specificity <= t.falseCnt && t.sensitivity <= t.trueCnt
    {
      assert labels[..i + 1][..i] == labels[..i];
      assert predictions[..i + 1][..i] == predictions[..i];
      if labels[i] == 0 {
        t := t.(falseCnt := t.falseCnt + 1);
        if labels[i] == predictions[i] {
          t := t.(specificity := t.specificity + 1);
        }
      } else {
        t := t.(trueCnt := t.trueCnt + 1);
        if labels[i] == predictions[i] {
          t := t.(sensitivity := t.sensitivity + 1);
        }
      }
      i := i + 1;
    }
    assert labels[..i] == labels;
    assert predictions[..i] == predictions;
  }

  /** Why `evaluate` cannot return: a division by zero when a class is absent. */
  datatype EvalError = ZeroDivision

  /** A count of successes out of `total` trials gives a ratio in [0, 1]. */
  lemma RatioAtMostOne(hits: nat, total: nat)
    requires 0 < total && hits <= total
    ensures 0.0 <= hits as real / total as real <= 1.0
    ensures (hits as real / total as real) * total as real == hits as real
  {
    var q := hits as real / total as real;
    assert q * total as real == hits as real;
    assert q * total as real <= 1.0 * total as real;
  }

  /** The share of `total` trials that succeeded: the unique ratio that, taken
      `total` times, gives `hits`. It lies in [0, 1] when the hits are a part of
      the trials; with no trials there is no ratio and 0.0 stands in. */
  function Rate(hits: int, total: int): (q: real)
    ensures total != 0 ==> q * total as real == hits as real
    ensures 0 <= hits <= total && 0 < total ==> 0.0 <= q <= 1.0
  {
    if total == 0 then 0.0
    else
      var q := hits as real / total as real;
      if 0 <= hits <= total && 0 < total then
        RatioAtMostOne(hits, total);
        q
      else q
  }

  /** `evaluate`: (true positive rate, true negative rate), or the division by zero
      the source raises when there is no positive or no negative label. */
  method Evaluate(labels: seq<int>, predictions: seq<int>) returns (r: Result<(real, real), EvalError>)
    requires |labels| == |predictions|
    ensures r.Failure? <==> Negatives(labels) == 0 || Negatives(labels) == |labels|
    ensures r.Success? ==>
      r.value == (Rate(CorrectPositives(labels, predictions), |labels| - Negatives(labels)),
                  Rate(CorrectNegatives(labels, predictions), Negatives(labels)))
    ensures r.Success? ==> 0.0 <= r.value.0 <= 1.0 && 0.0 <= r.value.1 <= 1.0
  {
    var t := CountLabels(labels, predictions);
    if t.trueCnt == 0 || t.falseCnt == 0 {
      return Failure(ZeroDivision);
    }
    var sensitivity := t.sensitivity as real / t.trueCnt as real;
    var specificity := t.specificity as real / t.falseCnt as real;
    r := Success((sensitivity, specificity));
  }
}
