/** Facts about finite sets that several modules use. */
module Sets {
  lemma SubsetSize<T>(a: set<T>, b: set<T>)
    requires a <= b
    ensures |a| <= |b|
  {
    assert b == a + (b - a);
  }

  /** The numbers below `n` with a property. */
  function Below(p: nat -> bool, n: nat): set<nat> {
    set i: nat | i < n && p(i)
  }

  lemma BelowNext(p: nat -> bool, n: nat)
    ensures |Below(p, n + 1)| == |Below(p, n)| + if p(n) then 1 else 0
  {
    assert Below(p, n + 1) == Below(p, n) + if p(n) then {n} else {};
  }

  lemma BelowSame(p: nat -> bool, q: nat -> bool, n: nat)
    requires forall i: nat | i < n :: p(i) == q(i)
    ensures Below(p, n) == Below(q, n)
  {
  }
}
