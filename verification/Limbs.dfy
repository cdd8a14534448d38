/** Numbers written as 32-bit limbs, least significant first. */
module Limbs {
  import opened Numbers

  const B := 0x1_0000_0000

  /** The weight of limb k. */
  function Base(k: nat): (r: nat)
    ensures r > 0
  {
    Pow2(32 * k)
  }

  /** The number in the first n limbs. */
  function Val(s: seq<nat>, n: nat): nat
    requires n <= |s|
  {
    if n == 0 then 0 else Val(s, n - 1) + s[n - 1] * Base(n - 1)
  }

  function Value(s: seq<nat>): nat { Val(s, |s|) }

  ghost predicate InRange(s: seq<nat>) {
    forall i :: 0 <= i < |s| ==> s[i] < B
  }

  lemma {:induction false} Pow2Add(m: nat, n: nat)
    ensures Pow2(m + n) == Pow2(m) * Pow2(n)
  {
    if m > 0 {
      Pow2Add(m - 1, n);
      assert m + n - 1 == (m - 1) + n;
      Assoc(2, Pow2(m - 1), Pow2(n));
    } else {
      assert Pow2(0) == 1;
    }
  }

  lemma Pow2Of32()
    ensures Pow2(32) == B
  {
    assert Pow2(8) == 256;
    Pow2Add(8, 8);
    Pow2Add(16, 16);
  }

  lemma BaseStep(k: nat)
    ensures Base(k + 1) == B * Base(k)
  {
    Pow2Add(32, 32 * k);
    Pow2Of32();
  }

  lemma ValStep(s: seq<nat>, n: nat)
    requires n < |s|
    ensures Val(s, n + 1) == Val(s, n) + s[n] * Base(n)
  {
  }

  /** n limbs hold less than the weight of the next one. */
  lemma {:induction false} ValBound(s: seq<nat>, n: nat)
    requires n <= |s| && InRange(s)
    ensures Val(s, n) < Base(n)
  {
    if n > 0 {
      ValBound(s, n - 1);
      BaseStep(n - 1);
      MulLe(s[n - 1], B - 1, Base(n - 1));
      Less1(Base(n - 1));
    }
  }

  lemma Less1(x: int)
    ensures (B - 1) * x == B * x - x
  {
  }

  lemma {:induction false} ValSame(s: seq<nat>, t: seq<nat>, n: nat)
    requires n <= |s| && n <= |t| && forall i :: 0 <= i < n ==> s[i] == t[i]
    ensures Val(s, n) == Val(t, n)
  {
    if n > 0 { ValSame(s, t, n - 1); }
  }

  lemma {:induction false} ValUpdate(s: seq<nat>, j: nat, v: nat, n: nat)
    requires j < n <= |s|
    ensures Val(s[j := v], n) == Val(s, n) + (v - s[j]) * Base(j)
  {
    hide Base;
    if j == n - 1 {
      ValSame(s, s[j := v], n - 1);
      Minus(v, s[j], Base(j));
    } else {
      ValUpdate(s, j, v, n - 1);
    }
  }

  lemma Minus(a: int, b: int, x: int)
    ensures (a - b) * x == a * x - b * x
  {
  }

  lemma {:induction false} ValZero(s: seq<nat>, n: nat)
    requires n <= |s| && forall i :: 0 <= i < n ==> s[i] == 0
    ensures Val(s, n) == 0
  {
    if n > 0 { ValZero(s, n - 1); }
  }

  /** The first limb from the top that differs decides. */
  lemma {:induction false} ValLess(s: seq<nat>, t: seq<nat>, k: nat, n: nat)
    requires k < n <= |s| == |t| && InRange(s) && InRange(t)
    requires s[k] < t[k] && forall i :: k < i < n ==> s[i] == t[i]
    ensures Val(s, n) < Val(t, n)
  {
    hide Base;
    if k == n - 1 {
      ValBound(s, k);
      MulLe(s[k] + 1, t[k], Base(k));
      Plus1(s[k], Base(k));
    } else {
      ValLess(s, t, k, n - 1);
    }
  }

  lemma Plus1(a: int, x: int)
    ensures (a + 1) * x == a * x + x
  {
  }

  // ---------- bitwise or ----------

  function Or(a: nat, b: nat): nat {
    if a == 0 && b == 0 then 0 else (if a % 2 == 1 || b % 2 == 1 then 1 else 0) + 2 * Or(a / 2, b / 2)
  }

  /** Numbers without common bits are added. */
  lemma {:induction false} OrIsPlus(a: nat, b: nat, k: nat)
    requires b < Pow2(k)
    ensures Or(a * Pow2(k), b) == a * Pow2(k) + b
  {
    if k == 0 {
      OrZero(a * 1);
    } else {
      var c := a * Pow2(k - 1);
      assert a * Pow2(k) == 2 * c by { Assoc(2, Pow2(k - 1), a); Assoc(a, 2, Pow2(k - 1)); }
      OrIsPlus(a, b / 2, k - 1);
      OrHalves(c, b);
    }
  }

  lemma OrHalves(c: nat, b: nat)
    requires Or(c, b / 2) == c + b / 2
    ensures Or(2 * c, b) == 2 * c + b
  {
  }

  lemma {:induction false} OrZero(a: nat)
    ensures Or(a, 0) == a
  {
    if a > 0 { OrZero(a / 2); }
  }

  lemma {:induction false} OrComm(a: nat, b: nat)
    ensures Or(a, b) == Or(b, a)
  {
    if a != 0 || b != 0 { OrComm(a / 2, b / 2); }
  }

  // ---------- carries ----------

  /** A 64-bit partial result is split into a limb and a carry. */
  lemma SplitLimb(n: nat, i: nat)
    ensures (n % B) * Base(i) + (n / B) * Base(i + 1) == n * Base(i)
  {
    hide Base;
    BaseStep(i);
    var q, r, x := n / B, n % B, Base(i);
    assert n == q * B + r;
    Assoc(q, B, x);
    Plus(q * B, r, x);
  }

  lemma Plus(a: int, b: int, x: int)
    ensures (a + b) * x == a * x + b * x
  {
  }

  /** One step of a carry loop: limb i of s becomes the low part of n. */
  lemma CarryStep(s: seq<nat>, i: nat, n: nat)
    requires i < |s|
    ensures Val(s[i := n % B], i + 1) + (n / B) * Base(i + 1) == Val(s, i) + n * Base(i)
  {
    hide Base;
    ValSame(s, s[i := n % B], i);
    SplitLimb(n, i);
  }

  /** What is carried out of the top limb is what is lost. */
  lemma CarryOut(s: seq<nat>, x: int, out: int)
    requires InRange(s) && Value(s) + out * Base(|s|) == x
    ensures Value(s) == x % Base(|s|)
  {
    ValBound(s, |s|);
    DivIs(x, Base(|s|), out);
  }

  /** The limbs from m on, as a number of their own. */
  lemma {:induction false} ValSplit(s: seq<nat>, m: nat, n: nat)
    requires m <= n <= |s|
    ensures Val(s, n) == Val(s, m) + Val(s[m..], n - m) * Base(m)
    decreases n
  {
    if m < n {
      ValSplit(s, m, n - 1);
      BaseAdd(m, n - 1 - m);
      var high, limb := Val(s[m..], n - 1 - m), s[n - 1];
      assert s[m..][n - 1 - m] == limb;
      Assoc(limb, Base(n - 1 - m), Base(m));
      Plus(high, limb * Base(n - 1 - m), Base(m));
    }
  }

  lemma BaseAdd(i: nat, j: nat)
    ensures Base(i + j) == Base(j) * Base(i)
  {
    Pow2Add(32 * j, 32 * i);
  }
}
