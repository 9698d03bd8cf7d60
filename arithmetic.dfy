/** Multiplication facts, proved once in isolation so that the proofs using them stay linear. */
module Arithmetic {

  lemma MulMonotone(a: nat, b: nat, n: nat)
    requires a <= b
    ensures a * n <= b * n
  {
  }

  /** `y * n` is one `n` more than `(y - 1) * n`. */
  lemma MulPred(y: int, n: int)
    ensures y * n == (y - 1) * n + n
  {
  }

  /** Row `y` of width `n` starts inside a grid of `rows` rows and ends within it. */
  lemma RowInside(rows: nat, n: nat, y: nat, x: nat)
    requires y < rows && x < n
    ensures y * n + x < rows * n
    ensures (y + 1) * n <= rows * n
    ensures (y + 1) * n == y * n + n
  {
    MulMonotone(y + 1, rows, n);
  }

  /** `i * n` as repeated addition, for proofs that step `i` one at a time. */
  function Times(i: nat, n: nat): nat
  {
    if i == 0 then 0 else Times(i - 1, n) + n
  }

  lemma {:induction false} TimesIsMul(i: nat, n: nat)
    ensures Times(i, n) == i * n
  {
    if i > 0 {
      TimesIsMul(i - 1, n);
      MulPred(i, n);
    }
  }
}
