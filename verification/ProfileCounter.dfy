/** A counter that is reported again and again and may be reset: what the aggregator adds up. */
module ProfileCounter {
  import opened Bits

  function Last<T>(s: seq<T>): T
    requires s != []
  {
    s[|s| - 1]
  }

  /** What one report adds: the growth since the last one, or all of it after a reset. */
  function Growth(last: u64, value: u64): u64 {
    if value >= last then value - last else value
  }

  /** The running total after a sequence of reports, in 64 bits. */
  function Total(reports: seq<u64>): u64
    requires reports != []
  {
    if |reports| == 1 then reports[0]
    else
      var before := reports[..|reports| - 1];
      Add64(Total(before), Growth(Last(before), Last(reports)))
  }

  /** The final values of the maximal non-decreasing stretches that end before report n, added up. */
  function StretchesBefore(reports: seq<u64>, n: nat): nat
    requires n < |reports|
  {
    if n == 0 then 0
    else StretchesBefore(reports, n - 1) + if reports[n] < reports[n - 1] then reports[n - 1] else 0
  }

  /** The final values of all maximal non-decreasing stretches, added up. */
  function StretchSum(reports: seq<u64>): nat
    requires reports != []
  {
    StretchesBefore(reports, |reports| - 1) + Last(reports)
  }

  lemma {:induction false} StretchesOfPrefix(reports: seq<u64>, n: nat)
    requires n < |reports| - 1
    ensures StretchesBefore(reports[..|reports| - 1], n) == StretchesBefore(reports, n)
  {
    if n > 0 {
      StretchesOfPrefix(reports, n - 1);
    }
  }

  /** Each non-decreasing stretch of a counter contributes its final value, and nothing else does. */
  lemma {:induction false} TotalIsStretchSum(reports: seq<u64>)
    requires reports != []
    ensures Total(reports) == StretchSum(reports) % 0x1_0000_0000_0000_0000
  {
    if |reports| > 1 {
      var before := reports[..|reports| - 1];
      TotalIsStretchSum(before);
      StretchesOfPrefix(reports, |reports| - 2);
      AddWraps(StretchSum(before), Total(before), Growth(Last(before), Last(reports)));
    }
  }

  /** A counter that never falls totals to its last value. */
  lemma {:induction false} MonotoneTotal(reports: seq<u64>)
    requires reports != [] && forall i :: 0 <= i < |reports| - 1 ==> reports[i] <= reports[i + 1]
    ensures Total(reports) == Last(reports)
  {
    if |reports| > 1 {
      MonotoneTotal(reports[..|reports| - 1]);
    }
  }

  /** A report below the last one starts a fresh contribution, whatever came before. */
  lemma ResetStartsAfresh(before: seq<u64>, value: u64)
    requires before != [] && value < Last(before)
    ensures Total(before + [value]) == Add64(Total(before), value)
  {
    assert (before + [value])[..|before|] == before;
  }
}
