/** What several parts share. */
module Basics {
  datatype Option<T> = None | Some(value: T)

  function Pow2(k: nat): (p: nat)
    ensures p >= 1
  {
    if k == 0 then 1 else 2 * Pow2(k - 1)
  }

  function Flatten<T>(parts: seq<seq<T>>): seq<T> {
    if parts == [] then [] else parts[0] + Flatten(parts[1..])
  }

  lemma {:induction false} FlattenSnoc<T>(parts: seq<seq<T>>, last: seq<T>)
    ensures Flatten(parts + [last]) == Flatten(parts) + last
  {
    if parts == [] {
      assert [last][1..] == [] && last + [] == last;
    } else {
      FlattenSnoc(parts[1..], last);
      assert (parts + [last])[1..] == parts[1..] + [last];
    }
  }

  lemma Regroup<T>(a: seq<T>, b: seq<T>, c: seq<T>)
    ensures (a + b) + c == a + (b + c)
  {}

  /** Elements move from the front of the queue to the end of what has passed. */
  lemma Passed<T>(all: seq<T>, past: seq<T>, queue: seq<T>, n: nat)
    requires all == past + queue && n <= |queue|
    ensures all == (past + queue[..n]) + queue[n..]
  {}

  lemma ModuloBelow(x: int, k: int, m: int)
    requires 0 <= x < m
    ensures (x + k * m) % m == x
  {
    var q, r := (x + k * m) / m, (x + k * m) % m;
    assert x + k * m == q * m + r;
    assert (k - q) * m == r - x;
    assert k - q >= 1 ==> (k - q) * m >= m;
    assert k - q <= -1 ==> (k - q) * m <= -m;
  }

  /** What is left of `n` beyond whole units of `k`; for a power of two, `n & (k - 1)`. */
  function Odd(n: nat, k: int): (r: nat)
    requires 0 < k
    ensures r < k && r <= n
  {
    if n < k then n else Odd(n - k, k)
  }

  lemma {:induction false} OddIsModulo(n: nat, k: int)
    requires 0 < k
    ensures Odd(n, k) == n % k
  {
    if n >= k {
      OddIsModulo(n - k, k);
      LessOne(n, k);
    }
  }

  lemma LessOne(n: nat, k: int)
    requires 0 < k <= n
    ensures (n - k) % k == n % k
  {
    var q, r := (n - k) / k, (n - k) % k;
    assert n - k == q * k + r;
    assert n == r + (q + 1) * k;
    ModuloBelow(r, q + 1, k);
  }
}
