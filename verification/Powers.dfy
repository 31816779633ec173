/** Powers of the slot count and the few division facts the timer wheel rests on. */
module Powers {

  function Pow(b: nat, k: nat): nat {
    if k == 0 then 1 else b * Pow(b, k - 1)
  }

  lemma {:induction false} PowPositive(b: nat, k: nat)
    requires b >= 1
    ensures Pow(b, k) >= 1
  {
    if k > 0 {
      PowPositive(b, k - 1);
      MulOrder(1, Pow(b, k - 1), b);
    }
  }

  lemma {:induction false} PowSplit(b: nat, j: nat, k: nat)
    requires j <= k
    ensures Pow(b, k) == Pow(b, j) * Pow(b, k - j)
  {
    if j > 0 {
      PowSplit(b, j - 1, k - 1);
      assert b * (Pow(b, j - 1) * Pow(b, k - j)) == (b * Pow(b, j - 1)) * Pow(b, k - j);
    }
  }

  lemma PowMonotone(b: nat, j: nat, k: nat)
    requires b >= 1 && j <= k
    ensures Pow(b, j) <= Pow(b, k)
  {
    PowSplit(b, j, k);
    PowPositive(b, k - j);
    PowPositive(b, j);
    MulOrder(1, Pow(b, k - j), Pow(b, j));
  }

  /** Multiplying by a factor that is not negative keeps the order. */
  lemma MulOrder(a: int, b: int, w: int)
    ensures w >= 0 && a <= b ==> w * a <= w * b
  {
  }

  /** Quotients are monotone. */
  lemma DivMonotone(x: nat, y: nat, w: nat)
    requires w >= 1 && x <= y
    ensures x / w <= y / w
  {
    MulOrder(y / w + 1, x / w, w);
  }

  /** q is the quotient of x by w exactly when x lies in the q-th block. */
  lemma DivUnique(x: nat, w: nat, q: nat)
    requires w >= 1 && q * w <= x < q * w + w
    ensures x / w == q
  {
    MulOrder(x / w + 1, q, w);
    MulOrder(q + 1, x / w, w);
  }

  /** The next tick either stays in its block of w ticks or opens the next one. */
  lemma DivStep(x: nat, w: nat)
    requires w >= 1
    ensures (x + 1) % w != 0 ==> (x + 1) / w == x / w
    ensures (x + 1) % w == 0 ==> (x + 1) / w == x / w + 1
  {
    var q := (x + 1) / w;
    assert x + 1 == w * q + (x + 1) % w;
    if (x + 1) % w != 0 {
      DivUnique(x, w, q);
    } else {
      assert q >= 1;
      DivUnique(x, w, q - 1);
    }
  }

  /** Adding at least w moves at least one block ahead. */
  lemma DivAddAtLeast(x: nat, d: nat, w: nat)
    requires w >= 1 && d >= w
    ensures (x + d) / w >= x / w + 1
  {
    DivMonotone(x + w, x + d, w);
    assert x == w * (x / w) + x % w;
    DivUnique(x + w, w, x / w + 1);
  }

  /** Adding less than n blocks moves at most n blocks ahead. */
  lemma DivAddBelow(x: nat, d: nat, w: nat, n: nat)
    requires w >= 1 && d < n * w
    ensures (x + d) / w <= x / w + n
  {
    assert x == w * (x / w) + x % w;
    DivUnique(x + n * w, w, x / w + n) by {
      assert (x / w + n) * w == w * (x / w) + n * w;
    }
    DivMonotone(x + d, x + n * w, w);
  }

  /** Block q of w lies in block m of b * w if q lies in block m of b. */
  lemma BlockOfBlock(x: nat, w: nat, b: nat, q: int, m: int)
    requires w >= 1 && b >= 1
    requires w * q <= x < w * q + w && b * m <= q <= b * m + b - 1
    ensures b * w >= 1 && m * (b * w) <= x < m * (b * w) + b * w
  {
    MulOrder(1, b, w);
    MulOrder(b * m, q, w);
    MulOrder(q, b * m + b - 1, w);
    BlockInBlock(m, b, w);
  }

  lemma InBlock(x: nat, w: nat)
    requires w >= 1
    ensures w * (x / w) <= x <= w * (x / w) + w - 1
  {
  }

  /** Dividing by b * w is dividing by w and then by b. */
  lemma DivDiv(x: nat, w: nat, b: nat)
    requires w >= 1 && b >= 1
    ensures b * w >= 1 && x / (b * w) == (x / w) / b
  {
    var q := x / w;
    InBlock(x, w);
    InBlock(q, b);
    BlockOfBlock(x, w, b, q, q / b);
    DivUnique(x, b * w, q / b);
  }

  lemma BlockInBlock(m: int, b: int, w: int)
    ensures w * (b * m) == m * (b * w)
    ensures w * (b * m + b - 1) == m * (b * w) + b * w - w
  {
    assert w * (b * m + b - 1) == w * (b * m) + w * b - w;
    assert w * (b * m) == (w * b) * m;
  }

  /** Adding multiples of s does not change the remainder. */
  lemma ModShift(f: nat, s: nat, k: nat)
    requires s >= 1
    ensures (f + s * k) % s == f % s
  {
    InBlock(f, s);
    Distribute(s, f / s + k, k);
    MulOrder(0, f / s + k, s);
    DivUnique(f + s * k, s, f / s + k);
  }

  /** A multiple of b * w is a multiple of w. */
  lemma MultipleOfProduct(x: nat, w: nat, b: nat)
    requires w >= 1 && b >= 1 && b * w >= 1 && x % (b * w) == 0
    ensures x % w == 0
  {
    var q := x / (b * w);
    assert x == (b * w) * q;
    assert (b * w) * q == w * (b * q);
    DivUnique(x, w, b * q) by { assert (b * q) * w == w * (b * q); }
  }

  /** Congruent numbers differ by a multiple: the closest one above is b away. */
  lemma CongruentApart(x: nat, y: nat, b: nat)
    requires b >= 1 && x <= y && x % b == y % b
    ensures y - x == b * (y / b - x / b)
    ensures x < y ==> y - x >= b
  {
    MulOrder(y / b, x / b, b);
    MulOrder(1, y / b - x / b, b);
    Distribute(b, y / b, x / b);
  }

  lemma Distribute(b: int, m: int, n: int)
    ensures b * m - b * n == b * (m - n)
  {
  }
}
