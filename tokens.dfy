/** The token estimate `estimate_tokens` (about four characters per token) and its sums. */
module Tokens {

  /** `max(1, len(text) // 4)`. */
  function EstimateTokens(text: string): (r: nat)
    ensures r >= 1
    ensures |text| >= 4 ==> 4 * r <= |text| < 4 * r + 4
    ensures |text| < 4 ==> r == 1
  {
    if |text| / 4 > 1 then |text| / 4 else 1
  }

  /** `sum(estimate_tokens(x) for x in ss)`, adding from the front as Python does. */
  function SumEstimates(ss: seq<string>): (r: int)
    ensures r >= |ss|
  {
    if ss == [] then 0 else SumEstimates(ss[..|ss| - 1]) + EstimateTokens(ss[|ss| - 1])
  }

  /** The estimate of a run of sentences is the estimate of its halves added. */
  lemma {:induction false} SumEstimatesAppend(a: seq<string>, b: seq<string>)
    ensures SumEstimates(a + b) == SumEstimates(a) + SumEstimates(b)
    decreases |b|
  {
    if b == [] {
      assert a + b == a;
    } else {
      var b' := b[..|b| - 1];
      assert (a + b)[..|a + b| - 1] == a + b';
      SumEstimatesAppend(a, b');
    }
  }

  /** Dropping sentences from either end never raises the estimate. */
  lemma SumEstimatesSlice(ss: seq<string>, i: nat, j: nat)
    requires i <= j <= |ss|
    ensures SumEstimates(ss[i..j]) <= SumEstimates(ss)
  {
    var front, mid, back := ss[..i], ss[i..j], ss[j..];
    assert ss[..j] == front + mid;
    assert ss == ss[..j] + back;
    SumEstimatesAppend(ss[..j], back);
    SumEstimatesAppend(front, mid);
  }
}
