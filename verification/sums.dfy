/** Sums of naturals: the shortest-path progress measure and spanning-tree weights. */
module Sums {

  /** Sum of a sequence of naturals. */
  function Sum(s: seq<nat>): nat {
    if |s| == 0 then 0 else Sum(s[..|s| - 1]) + s[|s| - 1]
  }

  lemma {:induction false} SumUpdate(s: seq<nat>, i: nat, x: nat)
    requires i < |s|
    ensures Sum(s[i := x]) == Sum(s) - s[i] + x
    decreases |s|
  {
    var last := |s| - 1;
    if i < last {
      assert s[i := x][..last] == s[..last][i := x];
      SumUpdate(s[..last], i, x);
    } else {
      assert s[i := x][..last] == s[..last];
    }
  }

  /** All zeros sum to zero. */
  lemma {:induction false} ZeroSum(s: seq<nat>)
    requires forall i :: 0 <= i < |s| ==> s[i] == 0
    ensures Sum(s) == 0
  {
    if |s| > 0 {
      ZeroSum(s[..|s| - 1]);
    }
  }
}
