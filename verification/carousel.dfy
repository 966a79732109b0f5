/** The drawings carousel of `drawings/page.tsx`: `nextImage` and
    `prevImage` step the shown index through the `totalImages` drawings,
    wrapping around at both ends. */
module Carousel {
  import opened Arith

  /** `(prevIndex + 1) % totalImages`. */
  function NextImage(i: nat, total: nat): (j: nat)
    requires total > 0
    ensures i < total ==> j < total
    ensures i + 1 < total ==> j == i + 1
    ensures i + 1 == total ==> j == 0
  {
    (i + 1) % total
  }

  /** `prevIndex === 0 ? totalImages - 1 : prevIndex - 1`. */
  function PrevImage(i: nat, total: nat): (j: nat)
    requires total > 0
    ensures i < total ==> j < total
    ensures i == 0 ==> j == total - 1
    ensures i > 0 ==> j == i - 1
  {
    if i == 0 then total - 1 else i - 1
  }

  /** The two buttons undo each other. */
  lemma NextPrevInverse(i: nat, total: nat)
    requires i < total
    ensures PrevImage(NextImage(i, total), total) == i
    ensures NextImage(PrevImage(i, total), total) == i
  {
  }

  /** `nextImage` pressed `k` times. */
  function NextTimes(i: nat, total: nat, k: nat): (j: nat)
    requires total > 0
  {
    if k == 0 then i else NextImage(NextTimes(i, total, k - 1), total)
  }

  /** Adding one commutes with reducing modulo `n`. */
  lemma ModSucc(a: nat, n: nat)
    requires n > 0
    ensures (a % n + 1) % n == (a + 1) % n
  {
    var q, m := a / n, a % n;
    var qn := q * n;
    assert a == qn + m;
    if m + 1 < n {
      DivMod(m + 1, n, 0, m + 1);
      DivMod(a + 1, n, q, m + 1);
    } else {
      assert (q + 1) * n == qn + n;
      DivMod(n, n, 1, 0);
      DivMod(a + 1, n, q + 1, 0);
    }
  }

  /** `k` presses of `nextImage` from a valid index move it `k` places on,
      modulo the number of drawings. */
  lemma {:induction false} NextTimesMod(i: nat, total: nat, k: nat)
    requires i < total
    ensures NextTimes(i, total, k) == (i + k) % total
  {
    if k == 0 {
      DivMod(i, total, 0, i);
    } else {
      NextTimesMod(i, total, k - 1);
      ModSucc(i + k - 1, total);
    }
  }

  /** Going once round the carousel comes back to the same drawing. */
  lemma FullCircle(i: nat, total: nat)
    requires i < total
    ensures NextTimes(i, total, total) == i
  {
    NextTimesMod(i, total, total);
    DivMod(i + total, total, 1, i);
  }
}
