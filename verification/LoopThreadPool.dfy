/** `LoopThreadPool` (source/server.hpp): which loop a new connection is given to. */
module LoopThreadPool {

  class Pool<Loop> {
    const baseLoop: Loop
    const loops: seq<Loop>    // one per thread, after Create
    var nextLoop: nat
    ghost var given: seq<nat> // which of the loops the calls of Next have returned, so far

    ghost predicate Valid()
      reads this
    {
      if loops == [] then nextLoop == 0 && given == []
      else nextLoop == |given| % |loops| && forall j :: 0 <= j < |given| ==> given[j] == j % |loops|
    }

    constructor (baseLoop: Loop, loops: seq<Loop>)
      ensures Valid() && given == [] && this.baseLoop == baseLoop && this.loops == loops
    {
      this.baseLoop, this.loops, nextLoop, given := baseLoop, loops, 0, [];
      if loops != [] {
        DivMod(0, |loops|, 0, 0);
      }
    }

    /** Call number i returns loop i modulo the number of loops, or the base loop if there is no
        pool. */
    method Next() returns (loop: Loop)
      requires Valid()
      modifies this
      ensures Valid()
      ensures if loops == [] then loop == baseLoop && given == old(given)
              else var i := |old(given)| % |loops|; loop == loops[i] && given == old(given) + [i]
    {
      if loops == [] {
        return baseLoop;
      }
      loop := loops[nextLoop];
      given := given + [nextLoop];
      ModStep(|given| - 1, |loops|);
      nextLoop := (nextLoop + 1) % |loops|;
    }

    /** Fair assignment: in every history of calls, the shares of two loops differ by at most one;
        each loop has had its share to the nearest call. */
    lemma Fair(i: nat, j: nat)
      requires Valid() && i < |loops| && j < |loops|
      ensures Share(given, i) == |given| / |loops| + if i < |given| % |loops| then 1 else 0
      ensures Share(given, i) - Share(given, j) <= 1
    {
      ShareIs(given, |loops|, i);
      ShareIs(given, |loops|, j);
    }
  }

  lemma ModStep(m: nat, n: nat)
    requires n > 0
    ensures (m % n + 1) % n == (m + 1) % n
    ensures if m % n + 1 < n then (m + 1) % n == m % n + 1 && (m + 1) / n == m / n
            else (m + 1) % n == 0 && (m + 1) / n == m / n + 1
  {
    var q, r := m / n, m % n;
    assert m == q * n + r;
    if r + 1 < n {
      DivMod(m + 1, n, q, r + 1);
    } else {
      assert (q + 1) * n == q * n + n;
      DivMod(m + 1, n, q + 1, 0);
    }
  }

  lemma DivMod(m: nat, n: nat, q: nat, r: nat)
    requires r < n && m == q * n + r
    ensures m / n == q && m % n == r
  {
    var k, s := m / n, m % n;
    assert m == k * n + s;
    assert (q - k) * n == q * n - k * n;
    MultipleBelow(q - k, n);
  }

  lemma MultipleBelow(d: int, n: nat)
    requires -(n as int) < d * n < n
    ensures d == 0
  {
  }

  /** How many of the calls have returned loop `i`. */
  function Share(given: seq<nat>, i: nat): nat
    decreases |given|
  {
    if given == [] then 0
    else Share(given[..|given| - 1], i) + if given[|given| - 1] == i then 1 else 0
  }

  lemma {:induction false} ShareIs(given: seq<nat>, n: nat, i: nat)
    requires i < n && forall j :: 0 <= j < |given| ==> given[j] == j % n
    ensures Share(given, i) == |given| / n + if i < |given| % n then 1 else 0
    decreases |given|
  {
    if given == [] {
      DivMod(0, n, 0, 0);
    } else {
      ShareIs(given[..|given| - 1], n, i);
      ModStep(|given| - 1, n);
    }
  }
}
