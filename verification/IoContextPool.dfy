/** The S12 pool: `get_io_context` hands out the contexts in rotation. */
module IoContextPool {

  class IOContextPool {
    const size: nat
    var index: nat
    /** Every context handed out so far. */
    ghost var given: seq<nat>

    ghost predicate Valid()
      reads this
    {
      && 0 < size && index < size
      && index == |given| % size
      && forall k :: 0 <= k < |given| ==> given[k] == k % size
    }

    constructor (size: nat)
      requires size > 0
      ensures Valid() && this.size == size && given == []
    {
      this.size, index, given := size, 0, [];
    }

    method GetIoContext() returns (context: nat)
      requires Valid()
      modifies `index, `given
      ensures Valid() && context < size
      ensures context == old(|given|) % size && given == old(given) + [context]
    {
      context := index;
      DivModStep(|given|, size);
      index := index + 1;
      if index == size {
        index := 0;
      }
      given := given + [context];
    }
  }

  function Occurrences(s: seq<nat>, c: nat): nat {
    if s == [] then 0
    else Occurrences(s[..|s| - 1], c) + (if s[|s| - 1] == c then 1 else 0)
  }

  lemma DivModStep(m: nat, n: nat)
    requires n > 0
    ensures if m % n == n - 1 then (m + 1) % n == 0 && (m + 1) / n == m / n + 1
            else (m + 1) % n == m % n + 1 && (m + 1) / n == m / n
  {
    var q, r := m / n, m % n;
    DivMod(m, n);
    if r == n - 1 {
      NextMultiple(q, n);
      DivModUnique(m + 1, n, q + 1, 0);
    } else {
      DivModUnique(m + 1, n, q, r + 1);
    }
  }

  lemma DivMod(m: nat, n: nat)
    requires n > 0
    ensures m == m / n * n + m % n
  {
  }

  lemma NextMultiple(q: nat, n: nat)
    ensures (q + 1) * n == q * n + n
  {
  }

  lemma DivModUnique(m: nat, n: nat, q: nat, r: nat)
    requires n > 0 && r < n && m == q * n + r
    ensures m / n == q && m % n == r
  {
    var a := m / n;
    if a > q {
      Multiples(n, q, a);
    } else if a < q {
      Multiples(n, a, q);
    }
  }

  lemma Multiples(n: nat, x: nat, y: nat)
    requires x < y
    ensures x * n + n <= y * n
  {
    var d := y - x - 1;
    assert y * n == x * n + n + d * n;
  }

  /** How often `c` is handed out in a window of calls, in closed form. */
  lemma {:induction false} WindowCount(n: nat, window: seq<nat>, start: nat, c: nat)
    requires c < n && forall k :: 0 <= k < |window| ==> window[k] == (start + k) % n
    ensures Occurrences(window, c)
         == (start + |window|) / n - start / n
            + (if (start + |window|) % n > c then 1 else 0) - (if start % n > c then 1 else 0)
    decreases |window|
  {
    if window != [] {
      var last := |window| - 1;
      WindowCount(n, window[..last], start, c);
      DivModStep(start + last, n);
    }
  }

  /** In any window of consecutive calls two contexts are used equally often, give or take one. */
  lemma Balanced(n: nat, window: seq<nat>, start: nat, c: nat, d: nat)
    requires c < n && d < n && forall k :: 0 <= k < |window| ==> window[k] == (start + k) % n
    ensures -1 <= Occurrences(window, c) - Occurrences(window, d) <= 1
  {
    WindowCount(n, window, start, c);
    WindowCount(n, window, start, d);
    hide Occurrences;
  }

  /** The same of what a pool really handed out. */
  lemma PoolIsBalanced(pool: IOContextPool, start: nat, end: nat, c: nat, d: nat)
    requires pool.Valid() && start <= end <= |pool.given| && c < pool.size && d < pool.size
    ensures var w := pool.given[start..end];
            -1 <= Occurrences(w, c) - Occurrences(w, d) <= 1
  {
    Balanced(pool.size, pool.given[start..end], start, c, d);
  }
}
