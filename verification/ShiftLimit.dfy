/** How long an array may be before the sort shifts a word by its full width. */
module ShiftLimit {
  import opened Bits
  import opened Leonardo
  import opened Forest
  import opened Phases
  import opened Smoothsort

  /** The shift with which the growing loop makes room for a new tree after `m` elements. */
  function PushShift(m: nat): int
    requires m >= 1
  {
    Orders(m)[0] - NewOrder(Orders(m)[0])
  }

  /** Every new tree is started with a shift shorter than a word; others are undefined. */
  ghost predicate ShiftsDefined(n: nat) {
    forall m :: 1 <= m < n && !Adjacent(Orders(m)) ==> 0 <= PushShift(m) < WORD_BITS
  }

  lemma {:induction false} OrdersShape(m: nat)
    requires m >= 1
    ensures Shape(Orders(m)) && Sum(Orders(m)) == m
  {
    if m > 1 {
      OrdersShape(m - 1);
      var os := Orders(m - 1);
      if Adjacent(os) {
        MergeShape(os);
        MergedSum(os);
      } else {
        PushShape(os);
        ShiftedSum(NewOrder(os[0]), os);
        LeoSmall();
      }
    }
  }

  /** A tree of order `k` on the left does not disturb what is built to its right. */
  lemma {:induction false} OrdersBeside(k: nat, m: nat)
    requires k >= 2 && Orders(Leo(k)) == [k] && 1 <= m <= Leo(k - 1)
    ensures Orders(Leo(k) + m) == Orders(m) + [k]
  {
    if m == 1 {
      OrdersNext(Leo(k));
      assert Orders(1) == [1];
    } else {
      var os := Orders(m - 1);
      OrdersBeside(k, m - 1);
      OrdersShape(m - 1);
      OrdersNext(m - 1);
      OrdersNext(Leo(k) + m - 1);
      hide Orders, Leo;
      BesideNext(os, k, m - 1);
    }
  }

  lemma BesideNext(os: seq<nat>, k: nat, m: nat)
    requires os != [] && Sum(os) == m && k >= 2 && m < Leo(k - 1)
    ensures NextOrders(os + [k]) == NextOrders(os) + [k]
  {
    if |os| == 1 {
      assert Sum(os[1..]) == 0;
      assert os[0] + 1 != k;
      assert [NewOrder(os[0])] + (os + [k]) == ([NewOrder(os[0])] + os) + [k];
    } else {
      assert (os + [k])[2..] == os[2..] + [k];
      assert [NewOrder(os[0])] + (os + [k]) == ([NewOrder(os[0])] + os) + [k];
      assert [os[0] + 2] + (os[2..] + [k]) == ([os[0] + 2] + os[2..]) + [k];
    }
  }

  /** The first Leo(k) elements form a single tree. */
  lemma {:induction false} OrdersSingle(k: nat)
    requires k >= 1
    ensures Orders(Leo(k)) == [k]
  {
    if k == 1 {
      assert Leo(1) == 1;
    } else if k == 2 {
      assert Orders(2) == [0, 1];
      assert Leo(2) == 3;
    } else {
      OrdersSingle(k - 1);
      OrdersSingle(k - 2);
      OrdersBeside(k - 1, Leo(k - 2));
      OrdersNext(Leo(k) - 1);
    }
  }

  /** Up to MAX_LENGTH elements every shift of the growing loop is defined, beyond it one is
      not: after the tree of order 65 is complete the next element asks for a shift by 64. */
  lemma ShiftsDefinedExactly(n: nat)
    ensures ShiftsDefined(n) <==> n <= MAX_LENGTH
  {
    hide Leo, Orders;
    MaxLength();
    if n <= MAX_LENGTH {
      forall m | 1 <= m < n && !Adjacent(Orders(m))
        ensures 0 <= PushShift(m) < WORD_BITS
      {
        OrdersShape(m);
        FitsFromSum(Orders(m), n);
        LastLargest(Orders(m));
      }
    } else {
      OrdersSingle(MAX_ORDER);
      assert PushShift(MAX_LENGTH) == 64 && !Adjacent(Orders(MAX_LENGTH));
    }
  }
}
