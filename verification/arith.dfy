/** Integer facts shared by the models: Euclidean division, powers of two and
    the bitwise `|` and `&` of two naturals, defined bit by bit from the
    least significant end. */
module Arith {
  /** Euclidean division is determined by a quotient and a remainder below the
      divisor. */
  lemma DivMod(a: int, n: int, q: int, r: int)
    requires 0 < n && 0 <= r < n && a == q * n + r
    ensures a / n == q && a % n == r
  {
    var q', r' := a / n, a % n;
    assert (q' - q) * n == q' * n - q * n;
    MulSign(q' - q, n);
  }

  /** The sign of a multiple of a positive number: at least `n` in size
      unless the factor is 0. */
  lemma MulSign(k: int, n: int)
    requires n > 0
    ensures k == 0 ==> k * n == 0
    ensures k >= 1 ==> k * n >= n
    ensures k <= -1 ==> k * n <= -n
  {
    if k >= 1 {
      MulAtLeast(k, n);
    } else if k <= -1 {
      MulAtLeast(-k, n);
      assert (-k) * n == -(k * n);
    }
  }

  lemma {:induction false} MulAtLeast(k: int, n: int)
    requires k >= 1 && n > 0
    ensures k * n >= n
    decreases k
  {
    if k > 1 {
      MulAtLeast(k - 1, n);
      assert k * n == (k - 1) * n + n;
    }
  }


  function Pow2(k: nat): (p: nat)
    ensures p >= 1
  {
    if k == 0 then 1 else 2 * Pow2(k - 1)
  }

  lemma {:induction false} Pow2Add(a: nat, b: nat)
    ensures Pow2(a + b) == Pow2(a) * Pow2(b)
    decreases a
  {
    if a > 0 {
      Pow2Add(a - 1, b);
    }
  }

  /** `1 << 16`. */
  lemma Pow2Of16()
    ensures Pow2(16) == 0x1_0000
  {
    assert Pow2(2) == 4;
    Pow2Add(2, 2);
    Pow2Add(4, 4);
    Pow2Add(8, 8);
  }

  /** Bitwise or: bit `i` of the result is set when it is set in either
      operand. */
  function BitOr(a: nat, b: nat): nat
    decreases a + b
  {
    if a == 0 then b
    else if b == 0 then a
    else 2 * BitOr(a / 2, b / 2) + (if a % 2 == 1 || b % 2 == 1 then 1 else 0)
  }

  /** Bitwise and: bit `i` of the result is set when it is set in both. */
  function BitAnd(a: nat, b: nat): nat
    decreases a + b
  {
    if a == 0 || b == 0 then 0
    else 2 * BitAnd(a / 2, b / 2) + (if a % 2 == 1 && b % 2 == 1 then 1 else 0)
  }

  /** Or-ing a value shifted left by `k` with one below `2^k` adds them: the
      two have no set bit in common. */
  lemma {:induction false} OrShifted(a: nat, b: nat, k: nat)
    requires b < Pow2(k)
    ensures BitOr(a * Pow2(k), b) == a * Pow2(k) + b
    decreases k
  {
    if k > 0 && a > 0 && b > 0 {
      var m := a * Pow2(k - 1);
      assert a * Pow2(k) == 2 * m;
      DivMod(a * Pow2(k), 2, m, 0);
      OrShifted(a, b / 2, k - 1);
    }
  }

  /** The remainder by `2p` is made of the remainder of `a / 2` by `p` and
      the lowest bit of `a`. */
  lemma ModDouble(a: nat, p: nat)
    requires p > 0
    ensures a % (2 * p) == 2 * ((a / 2) % p) + a % 2
  {
    var q, r := (a / 2) / p, (a / 2) % p;
    assert a / 2 == q * p + r;
    assert a == q * (2 * p) + (2 * r + a % 2);
    DivMod(a, 2 * p, q, 2 * r + a % 2);
  }

  /** And-ing with an odd number keeps the lowest bit. */
  lemma AndOdd(a: nat, m: nat)
    requires a > 0 && m % 2 == 1
    ensures BitAnd(a, m) == 2 * BitAnd(a / 2, m / 2) + a % 2
  {
  }

  /** Masking with `2^k - 1` keeps the low `k` bits: the remainder by `2^k`. */
  lemma {:induction false} AndMask(a: nat, k: nat)
    ensures BitAnd(a, Pow2(k) - 1) == a % Pow2(k)
    decreases k
  {
    if k == 0 {
      DivMod(a, 1, a, 0);
    } else if a == 0 {
      DivMod(0, Pow2(k), 0, 0);
    } else {
      AndMask(a / 2, k - 1);
      AndMaskStep(a, k);
    }
  }

  /** One bit more of mask: the lowest bit of `a` joins the masked rest. */
  lemma AndMaskStep(a: nat, k: nat)
    requires k > 0 && a > 0
    requires BitAnd(a / 2, Pow2(k - 1) - 1) == (a / 2) % Pow2(k - 1)
    ensures BitAnd(a, Pow2(k) - 1) == a % Pow2(k)
  {
    var p := Pow2(k - 1);
    var mask := Pow2(k) - 1;
    assert Pow2(k) == 2 * p;
    DivMod(mask, 2, p - 1, 1);
    AndOdd(a, mask);
    ModDouble(a, p);
  }
}
