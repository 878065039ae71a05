/** The min-priority frontier both greedy engines use. Rust's `BinaryHeap` with the reversed `Ord`
    pops an entry of least key; the key is the whole comparison, so among equal keys the popped
    entry is unspecified. The model keeps the frontier as a multiset and lets `:|` choose. */
module Frontier {

  /** `x` is an entry of `m` whose key no other entry undercuts. */
  predicate IsMin<T>(m: multiset<T>, key: T -> nat, x: T) {
    x in m && forall y :: y in m ==> key(x) <= key(y)
  }

  /** A non-empty frontier has an entry of least key. */
  lemma {:induction false} MinExists<T>(m: multiset<T>, key: T -> nat) returns (x: T)
    requires |m| > 0
    ensures IsMin(m, key, x)
    decreases |m|
  {
    var y :| y in m;
    var rest := m - multiset{y};
    if |rest| == 0 {
      assert m == multiset{y};
      x := y;
    } else {
      var z := MinExists(rest, key);
      x := if key(y) <= key(z) then y else z;
      assert m == rest + multiset{y};
    }
  }
}
