/** How many elements sets have. */
module Sets {
  lemma {:induction false} SubsetCard<T>(a: set<T>, b: set<T>)
    requires a <= b
    ensures |a| <= |b|
    ensures |a| == |b| ==> a == b
  {
    if x :| x in a {
      SubsetCard(a - {x}, b - {x});
    } else if y :| y in b {
      assert |b - {y}| + 1 == |b|;
    }
  }

  lemma UnionCard<T>(a: set<T>, b: set<T>)
    ensures |a + b| <= |a| + |b|
  {
    assert a + b == a + (b - a);
    SubsetCard(b - a, b);
  }

  lemma GrownBy<T>(before: set<T>, after: set<T>, extra: set<T>, grows: bool)
    requires forall x :: x in after <==> x in before || (grows && x in extra)
    requires before !! extra
    ensures |after| == |before| + if grows then |extra| else 0
  {
    assert after == if grows then before + extra else before;
  }
}
