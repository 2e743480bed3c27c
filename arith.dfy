/** Facts about integer division used by the index arithmetic of the reorderer and the encoder. */
module Arith {

  /** Quotient and remainder are the only pair with `a == q * d + r` and `0 <= r < d`. */
  lemma DivModUnique(a: int, d: int, q: int, r: int)
    requires 0 < d && 0 <= r < d && a == q * d + r
    ensures a / d == q && a % d == r
  {
    var q', r' := a / d, a % d;
    assert a == q' * d + r';
    if q' < q {
      assert (q' + 1) * d == q' * d + d;
      MulLe(q' + 1, q, d);
    } else if q < q' {
      assert (q + 1) * d == q * d + d;
      MulLe(q + 1, q', d);
    }
  }

  lemma MulLe(x: int, y: int, d: int)
    requires x <= y && 0 <= d
    ensures x * d <= y * d
  {
    assert y * d - x * d == (y - x) * d;
  }

  /** A number with digit `q` in place `d` and digit `r < d` stays below the next power `Q * d`. */
  lemma MulAddBound(q: nat, r: nat, Q: nat, d: nat)
    requires q < Q && r < d
    ensures q * d + r < Q * d
  {
    MulLe(q + 1, Q, d);
    assert (q + 1) * d == q * d + d;
  }

  /** Dividing a number below `Q * d` by `d` leaves a quotient below `Q`. */
  lemma DivBound(k: nat, d: nat, Q: nat)
    requires 0 < d && k < Q * d
    ensures k / d < Q
  {
  }

  /** `k` written in the mixed radix `(w, bs)` with `w == bpr * bs`: a row, a block below `bpr` and a column below `bs`. */
  lemma MixedRadix(k: int, bpr: int, bs: int)
    requires 0 < bs && 0 < bpr && 0 <= k
    ensures var w := bpr * bs;
      && 0 < w && 0 <= k / w && 0 <= (k % w) / bs < bpr && 0 <= (k % w) % bs < bs
      && k == k / w * w + ((k % w) / bs * bs + (k % w) % bs)
  {
    var w := bpr * bs;
    MulLe(1, bpr, bs);
    DivBound(k % w, bs, bpr);
  }

  lemma MulSucc(a: int, b: int)
    ensures (a + 1) * b == a * b + b
  {
  }

  /** The products that describe a grid of `rows` x `cols` blocks of `bs` x `bs` cells, regrouped. */
  lemma GridProducts(rows: nat, bs: nat, cols: nat)
    requires bs > 0 && cols > 0
    ensures cols * bs > 0 && bs * bs > 0 && bs * bs * cols > 0
    ensures rows * (bs * bs * cols) == (rows * bs) * (cols * bs)
    ensures rows * (bs * bs * cols) == (rows * cols) * (bs * bs)
  {
  }
}
