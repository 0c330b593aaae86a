/** The local user's message numbering: 32 bits, with 0 kept for messages nobody can be said to have
    sent. */
module SelfModel {

  const TWO_TO_THE_32: nat := 0x1_0000_0000

  function Increment(n: nat): nat {
    var next := (n + 1) % TWO_TO_THE_32;
    if next == 0 then 1 else next
  }

  /** The number handed out by the (k+1)-th call. */
  function Nth(k: nat): nat {
    if k == 0 then 1 else Increment(Nth(k - 1))
  }

  /** The remainder of k by n, counted up instead of divided out. */
  function Cycle(k: nat, n: nat): (m: nat)
    requires n > 0
    ensures m < n
  {
    if k == 0 then 0 else if Cycle(k - 1, n) + 1 == n then 0 else Cycle(k - 1, n) + 1
  }

  lemma {:induction false} NthIsCyclic(k: nat)
    ensures Nth(k) == 1 + Cycle(k, TWO_TO_THE_32 - 1)
  {
    if k > 0 {
      NthIsCyclic(k - 1);
    }
  }

  lemma {:induction false} CycleAdds(i: nat, d: nat, n: nat)
    requires n > 0
    ensures Cycle(i + d, n) == if Cycle(i, n) + Cycle(d, n) < n then Cycle(i, n) + Cycle(d, n)
                               else Cycle(i, n) + Cycle(d, n) - n
    decreases d
  {
    if d > 0 {
      CycleAdds(i, d - 1, n);
    }
  }

  lemma {:induction false} CycleSmall(k: nat, n: nat)
    requires k < n
    ensures Cycle(k, n) == k
    decreases k
  {
    if k > 0 {
      CycleSmall(k - 1, n);
    }
  }

  /** Never 0, never out of range, and no repeat within 2^32 - 1 calls; the call after those starts
      over. */
  lemma NumbersRepeatOnlyAfterAll(i: nat, d: nat)
    ensures 0 < Nth(i) < TWO_TO_THE_32
    ensures 0 < d < TWO_TO_THE_32 - 1 ==> Nth(i + d) != Nth(i)
    ensures Nth(i + TWO_TO_THE_32 - 1) == Nth(i)
  {
    var n := TWO_TO_THE_32 - 1;
    NthIsCyclic(i);
    NthIsCyclic(i + d);
    NthIsCyclic(i + n);
    CycleAdds(i, d, n);
    if d < n {
      CycleSmall(d, n);
    }
    CycleAdds(i, n, n);
    CycleSmall(n - 1, n);
  }

  class Self {
    var next: nat
    ghost var calls: nat

    ghost predicate Valid()
      reads this
    {
      next == Nth(calls)
    }

    constructor ()
      ensures Valid() && calls == 0
    {
      next, calls := 1, 0;
    }

    method Sequence() returns (s: nat)
      requires Valid()
      modifies this
      ensures Valid() && calls == old(calls) + 1
      ensures s == Nth(old(calls))
    {
      s := next;
      next := (next + 1) % TWO_TO_THE_32;
      if next == 0 {
        next := 1;
      }
      calls := calls + 1;
    }
  }
}
