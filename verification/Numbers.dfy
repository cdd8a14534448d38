/** Integer facts shared by the other modules. */
module Numbers {

  lemma {:induction false} MulGrows(q: nat, b: nat)
    requires b > 0
    ensures q * b >= q
    decreases q
  {
    if q > 0 {
      MulGrows(q - 1, b);
      assert q * b == (q - 1) * b + b;
    }
  }

  lemma DivAtMost(a: nat, b: nat)
    requires b > 0
    ensures a / b <= a
  {
    var q := a / b;
    assert a == b * q + a % b;
    MulGrows(q, b);
  }

  lemma DivNat(a: nat, b: nat)
    requires b > 0
    ensures a / b >= 0
  {
  }

  function Div(a: nat, b: nat): nat
    requires b > 0
  {
    DivNat(a, b);
    a / b
  }

  function Pow2(n: nat): (p: nat)
    ensures p > 0
  {
    if n == 0 then 1 else 2 * Pow2(n - 1)
  }

  lemma {:induction false} Pow2Le(m: nat, n: nat)
    requires m <= n
    ensures Pow2(m) <= Pow2(n)
    decreases n
  {
    if m < n { Pow2Le(m, n - 1); }
  }

  /** The quotient is the only multiple count that fits. */
  lemma DivIs(a: int, b: int, q: int)
    requires b > 0 && q * b <= a < q * b + b
    ensures a / b == q && a % b == a - q * b
  {
    var d := a / b;
    assert a == d * b + a % b;
    assert (d + 1) * b == d * b + b;
    assert (q + 1) * b == q * b + b;
    if d < q { MulLe(d + 1, q, b); }
    if q < d { MulLe(q + 1, d, b); }
  }

  lemma MulLe(x: int, y: int, b: int)
    requires x <= y && b >= 0
    ensures x * b <= y * b
  {
    assert (y - x) * b >= 0;
    assert (y - x) * b == y * b - x * b;
  }

  lemma Assoc(a: int, b: int, c: int)
    ensures (a * b) * c == a * (b * c)
  {
  }

  lemma PowZero()
    ensures Pow2(0) == 1
  {
  }

  lemma PowOne()
    ensures Pow2(1) == 2
  {
  }
}
