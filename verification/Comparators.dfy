/** Three-way comparison functions and the laws that sorting and ordered sets ask of them. */
module Comparators {

  /** The comparator's verdict "not greater". */
  ghost predicate Le<T(!new)>(cmp: (T, T) -> int, x: T, y: T) { cmp(x, y) <= 0 }

  /** What a sort routine may ask of its comparator: a total order up to ties,
      with the sign of the answer flipping when the arguments are swapped. */
  ghost predicate TotalPreorder<T(!new)>(cmp: (T, T) -> int) {
    && (forall x, y :: Le(cmp, x, y) <==> cmp(y, x) >= 0)
    && (forall x, y :: Le(cmp, x, y) || Le(cmp, y, x))
    && (forall x, y, z {:trigger Le(cmp, x, y), Le(cmp, y, z)} :: Le(cmp, x, y) && Le(cmp, y, z) ==> Le(cmp, x, z))
  }

  /** How strict and weak comparisons chain. */
  lemma Mixed<T(!new)>(cmp: (T, T) -> int, x: T, y: T, z: T)
    requires TotalPreorder(cmp)
    ensures cmp(x, y) < 0 && cmp(y, z) <= 0 ==> cmp(x, z) < 0
    ensures cmp(x, y) <= 0 && cmp(y, z) < 0 ==> cmp(x, z) < 0
    ensures cmp(x, y) <= 0 && cmp(y, z) <= 0 ==> cmp(x, z) <= 0
    ensures cmp(x, y) < 0 <==> cmp(y, x) > 0
    ensures cmp(x, y) == 0 <==> cmp(y, x) == 0
    ensures cmp(x, x) == 0
  {
    assert Le(cmp, x, y) <==> cmp(y, x) >= 0;
    assert Le(cmp, y, x) <==> cmp(x, y) >= 0;
    assert Le(cmp, z, y) <==> cmp(y, z) >= 0;
    assert Le(cmp, y, z) <==> cmp(z, y) >= 0;
    assert Le(cmp, z, x) <==> cmp(x, z) >= 0;
    assert Le(cmp, x, z) <==> cmp(z, x) >= 0;
    assert Le(cmp, x, x);
    assert Le(cmp, x, y) && Le(cmp, y, z) ==> Le(cmp, x, z);
    assert Le(cmp, z, x) && Le(cmp, x, y) ==> Le(cmp, z, y);
    assert Le(cmp, y, z) && Le(cmp, z, x) ==> Le(cmp, y, x);
  }
}
