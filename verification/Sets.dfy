/** Finite-set facts shared by the counting arguments of the other modules. */
module Sets {

  lemma Pick<T>(s: set<T>) returns (x: T)
    requires s != {}
    ensures x in s
  {
    x :| x in s;
  }

  lemma {:induction false} SubsetSize<T>(s: set<T>, t: set<T>)
    requires s <= t
    ensures |s| <= |t|
    decreases s
  {
    if s != {} {
      var x := Pick(s);
      SubsetSize(s - {x}, t - {x});
    }
  }

  lemma SubsetOfSameSize<T>(s: set<T>, t: set<T>)
    requires s <= t && |s| == |t|
    ensures s == t
  {
    if t - s != {} {
      var x := Pick(t - s);
      SubsetSize(s, t - {x});
    } else {
      forall x | x in t
        ensures x in s
      {
        assert x !in t - s;
      }
    }
  }

  /** The numbers 0 .. n-1. */
  function Range(n: nat): (s: set<int>)
    ensures forall i :: i in s <==> 0 <= i < n
    ensures |s| == n
  {
    if n == 0 then {} else Range(n - 1) + {n - 1}
  }
}
