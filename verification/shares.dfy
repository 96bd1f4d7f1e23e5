/**
 * Even splitting of `n` items over `k` recipients, the arithmetic shared by
 * the distribution plan (`baseTasksPerAgent + (index < remainingTasks ? 1 : 0)`)
 * and by the round-robin writers (`index % length`).
 */
module Shares {

  /** The share of recipient `j`: `n / k`, plus one for the first `n % k`. */
  function Share(n: nat, k: nat, j: nat): nat
    requires k > 0
  {
    n / k + if j < n % k then 1 else 0
  }

  lemma MulAtLeast(a: int, k: nat)
    requires a >= 1
    ensures a * k >= k
  {
    assert a * k == (a - 1) * k + k;
  }

  lemma DivModUnique(n: nat, k: nat, q: nat, r: nat)
    requires k > 0 && r < k && n == q * k + r
    ensures n / k == q && n % k == r
  {
    var q', r' := n / k, n % k;
    assert n == q' * k + r';
    assert (q - q') * k == r' - r by {
      assert (q - q') * k == q * k - q' * k;
    }
    if q > q' {
      MulAtLeast(q - q', k);
    } else if q < q' {
      MulAtLeast(q' - q, k);
    }
  }

  /** One more item adds one to the share of recipient `n % k` and to no
      other. */
  lemma ShareStep(n: nat, k: nat, j: nat)
    requires k > 0 && j < k
    ensures Share(n + 1, k, j) == Share(n, k, j) + if n % k == j then 1 else 0
  {
    var q, r := n / k, n % k;
    if r + 1 < k {
      DivModUnique(n + 1, k, q, r + 1);
    } else {
      DivModUnique(n + 1, k, q + 1, 0);
    }
  }

  /** Shares differ by at most one and shrink along the recipients. */
  lemma ShareBalanced(n: nat, k: nat, i: nat, j: nat)
    requires k > 0 && i <= j
    ensures n / k <= Share(n, k, j) <= Share(n, k, i) <= n / k + 1
    ensures Share(n, k, j) == n / k + 1 <==> j < n % k
  {
  }

  function SumShares(n: nat, k: nat, m: nat): nat
    requires k > 0
  {
    if m == 0 then 0 else SumShares(n, k, m - 1) + Share(n, k, m - 1)
  }

  lemma {:induction false} SumSharesPrefix(n: nat, k: nat, m: nat)
    requires k > 0
    ensures SumShares(n, k, m) == m * (n / k) + if m < n % k then m else n % k
  {
    if m > 0 {
      SumSharesPrefix(n, k, m - 1);
    }
  }

  /** The shares of all `k` recipients add up to `n`: nothing is lost or
      handed out twice. */
  lemma SharesAddUp(n: nat, k: nat)
    requires k > 0
    ensures SumShares(n, k, k) == n
  {
    SumSharesPrefix(n, k, k);
  }

  /** Round robin: item `i` goes to `ds[i % |ds|]`. */
  function Cyclic<T>(ds: seq<T>, n: nat): (xs: seq<T>)
    requires |ds| > 0
    ensures |xs| == n
    ensures forall i :: 0 <= i < n ==> xs[i] == ds[i % |ds|]
  {
    seq(n, i requires 0 <= i => ds[i % |ds|])
  }

  /** How many of the first `n` entries of `xs` are `x`. */
  function Hits<T(==)>(xs: seq<T>, x: T, n: nat): nat
    requires n <= |xs|
  {
    if n == 0 then 0 else Hits(xs, x, n - 1) + if xs[n - 1] == x then 1 else 0
  }

  /** Handing out `n` items round robin over distinct recipients gives
      recipient `j` exactly its share. */
  lemma {:induction false} CyclicHits<T>(ds: seq<T>, total: nat, n: nat, j: nat)
    requires |ds| > 0 && j < |ds| && n <= total
    requires forall a, b :: 0 <= a < b < |ds| ==> ds[a] != ds[b]
    ensures Hits(Cyclic(ds, total), ds[j], n) == Share(n, |ds|, j)
  {
    if n > 0 {
      CyclicHits(ds, total, n - 1, j);
      ShareStep(n - 1, |ds|, j);
      var i := (n - 1) % |ds|;
      assert Cyclic(ds, total)[n - 1] == ds[i];
      assert ds[i] == ds[j] <==> i == j;
    } else {
      assert Share(0, |ds|, j) == 0;
    }
  }

  /** A value that never occurs is never counted. */
  lemma {:induction false} NoHits<T>(xs: seq<T>, x: T, n: nat)
    requires n <= |xs| && x !in xs
    ensures Hits(xs, x, n) == 0
  {
    if n > 0 {
      NoHits(xs, x, n - 1);
    }
  }

  /** Round robin hands out nothing but the recipients given. */
  lemma CyclicOnly<T>(ds: seq<T>, n: nat, x: T)
    requires |ds| > 0 && x !in ds
    ensures x !in Cyclic(ds, n)
  {
    forall i | 0 <= i < n
      ensures Cyclic(ds, n)[i] != x
    {
      assert Cyclic(ds, n)[i] == ds[i % |ds|];
    }
  }
}
