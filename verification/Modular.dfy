/** Remainders, as the two ring buffers use them. */
module Modular {

  lemma Multiples(d: int, n: nat)
    requires n > 0
    ensures d >= 1 ==> d * n >= n
    ensures d <= -1 ==> d * n + n <= 0
  {
    if d >= 1 { assert (d - 1) * n >= 0; }
    if d <= -1 { assert (-d - 1) * n >= 0; }
  }

  /** Quotient and remainder are unique. */
  lemma Remainder(q: int, r: nat, n: nat)
    requires r < n
    ensures (q * n + r) % n == r
  {
    var a := q * n + r;
    var d := q - a / n;
    assert d * n == q * n - (a / n) * n;
    Multiples(d, n);
  }

  /** Two indexes less than one turn apart fall on different places. */
  lemma ModApart(i: nat, j: nat, n: nat)
    requires i < j < i + n
    ensures i % n != j % n
  {
    var q, r := i / n, i % n;
    assert i == q * n + r;
    if r + (j - i) < n {
      Remainder(q, r + (j - i), n);
    } else {
      assert (q + 1) * n == q * n + n;
      Remainder(q + 1, r + (j - i) - n, n);
    }
  }

  /** Reducing before adding changes nothing. */
  lemma ModAdd(i: nat, d: nat, n: nat)
    requires n > 0
    ensures (i % n + d) % n == (i + d) % n
  {
    var q, e := i / n, i % n + d;
    assert i == q * n + i % n;
    assert e == (e / n) * n + e % n;
    assert (q + e / n) * n == q * n + (e / n) * n;
    Remainder(q + e / n, e % n, n);
  }
}
