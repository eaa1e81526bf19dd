/** Sums of natural numbers. */
module Sums {
  ghost function Sum(s: seq<nat>): nat {
    if s == [] then 0 else s[0] + Sum(s[1..])
  }

  lemma {:induction false} SumUpdate(s: seq<nat>, i: nat, v: nat)
    requires i < |s|
    ensures Sum(s[i := v]) + s[i] == Sum(s) + v
  {
    var s' := s[i := v];
    if i == 0 {
      assert s'[1..] == s[1..];
    } else {
      SumUpdate(s[1..], i - 1, v);
      assert s'[1..] == s[1..][i - 1 := v];
    }
  }
}
