/** Handing out I/O contexts in turn, with an index that wraps around. */
module RoundRobin {

  /** The index after one call. */
  function Next(n: nat, i: nat): nat
    requires i < n
  {
    if i + 1 == n then 0 else i + 1
  }

  /** The index in front of call `k`, counting calls from 0. */
  function Index(n: nat, k: nat): (i: nat)
    requires n > 0
    ensures i < n
  {
    if k == 0 then 0 else Next(n, Index(n, k - 1))
  }

  /** How often context `i` was handed out by the first `k` calls. */
  function HandedOut(n: nat, k: nat, i: nat): nat
    requires n > 0
  {
    if k == 0 then 0 else HandedOut(n, k - 1, i) + (if Index(n, k - 1) == i then 1 else 0)
  }

  lemma {:induction false} Rounds(n: nat, k: nat, q: nat, r: nat, i: nat)
    requires k == q * n + r && r < n && i < n
    ensures Index(n, k) == r
    ensures HandedOut(n, k, i) == q + if i < r then 1 else 0
    decreases k
  {
    if r > 0 {
      Rounds(n, k - 1, q, r - 1, i);
    } else if q > 0 {
      assert k - 1 == (q - 1) * n + (n - 1);
      Rounds(n, k - 1, q - 1, n - 1, i);
    }
  }

  lemma {:induction false} Decompose(n: nat, k: nat) returns (q: nat, r: nat)
    requires n > 0
    ensures k == q * n + r && r < n
  {
    if k < n {
      q, r := 0, k;
    } else {
      q, r := Decompose(n, k - n);
      q := q + 1;
    }
  }

  /**
   * After `k` calls context `i` was handed out c = ceil((k - i) / n) times when i < k, that is
   * (c - 1) * n < k - i <= c * n, and never otherwise.
   */
  lemma Share(n: nat, k: nat, i: nat)
    requires i < n
    ensures var c := HandedOut(n, k, i);
            if i < k then (c - 1) * n < k - i <= c * n else c == 0
  {
    var q, r := Decompose(n, k);
    Rounds(n, k, q, r, i);
    assert (q + 1) * n == q * n + n && (q - 1) * n == q * n - n;
    assert q == 0 ==> q * n == 0;
  }

  /** Two contexts never differ by more than one. */
  lemma Balanced(n: nat, k: nat, i: nat, j: nat)
    requires i < n && j < n
    ensures -1 <= HandedOut(n, k, i) - HandedOut(n, k, j) <= 1
  {
    var q, r := Decompose(n, k);
    Rounds(n, k, q, r, i);
    Rounds(n, k, q, r, j);
  }

  /** Any `n` calls in a row hand out every context exactly once. */
  lemma Window(n: nat, k: nat, i: nat)
    requires i < n
    ensures HandedOut(n, k + n, i) == HandedOut(n, k, i) + 1
  {
    var q, r := Decompose(n, k);
    Rounds(n, k, q, r, i);
    assert k + n == (q + 1) * n + r;
    Rounds(n, k + n, q + 1, r, i);
  }

  class AsioIOServicePool<Context> {
    const contexts: seq<Context>
    var nextIOContext: nat
    ghost var calls: nat

    ghost predicate Valid()
      reads this
    {
      |contexts| > 0 && nextIOContext == Index(|contexts|, calls)
    }

    constructor (contexts: seq<Context>)
      requires |contexts| > 0
      ensures Valid() && this.contexts == contexts && calls == 0
    {
      this.contexts, nextIOContext, calls := contexts, 0, 0;
    }

    method GetIOContext() returns (service: Context)
      requires Valid()
      modifies this
      ensures Valid() && calls == old(calls) + 1
      ensures service == contexts[Index(|contexts|, old(calls))]
    {
      service := contexts[nextIOContext];
      nextIOContext := nextIOContext + 1;
      if nextIOContext == |contexts| {
        nextIOContext := 0;
      }
      calls := calls + 1;
    }
  }
}
