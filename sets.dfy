/** Cardinality facts about finite sets. */
module Sets {

  lemma DisjointUnionSize<T>(A: set<T>, B: set<T>)
    requires A !! B
    ensures |A + B| == |A| + |B|
  {
    if A != {} {
      var a :| a in A;
      assert A + B - {a} == (A - {a}) + B;
      DisjointUnionSize(A - {a}, B);
    }
  }

  lemma SubsetSize<T>(A: set<T>, B: set<T>)
    requires A <= B
    ensures |A| <= |B|
  {
    if A != {} {
      var a :| a in A;
      SubsetSize(A - {a}, B - {a});
    }
  }

  /** Some element of a non-empty set; the same one for the same set. */
  ghost function Pick<T>(s: set<T>): (x: T)
    requires s != {}
    ensures x in s
  {
    var x :| x in s; x
  }

  /** The naturals below `n`. */
  function Range(n: nat): (s: set<nat>)
    ensures forall i :: i in s <==> 0 <= i < n
    ensures |s| == n
  {
    if n == 0 then {} else Range(n - 1) + {n - 1}
  }
}
