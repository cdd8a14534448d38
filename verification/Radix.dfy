/** Numbers as digit strings in some base, most significant digit first, and the in-place
    conversion between bases. */
module Radix {
  import opened Numbers

  ghost predicate Digital(s: seq<nat>, base: nat) {
    forall i :: 0 <= i < |s| ==> s[i] < base
  }

  /** The number a digit string stands for. */
  function Num(s: seq<nat>, base: nat): nat {
    if s == [] then 0 else Num(s[..|s| - 1], base) * base + s[|s| - 1]
  }

  /** The digits of a number, without leading zeros. */
  function Digits(v: nat, base: nat): (s: seq<nat>)
    requires base > 1
    ensures Digital(s, base)
    decreases v
  {
    if v == 0 then [] else
    Parts(v, base);
    Digits(Quot(v, base), base) + [Rem(v, base)]
  }

  function Quot(v: nat, base: nat): nat
    requires base > 0
  {
    DivNat(v, base);
    v / base
  }

  function Rem(v: nat, base: nat): nat
    requires base > 0
  {
    v % base
  }

  lemma Parts(v: nat, base: nat)
    requires base > 1
    ensures v == Quot(v, base) * base + Rem(v, base) && Rem(v, base) < base && (v > 0 ==> Quot(v, base) < v)
  {
    var q := v / base;
    assert v == q * base + v % base;
    DivNat(v, base);
    MulLe(2, base, q);
  }

  predicate Bare(s: seq<nat>) { s == [] || s[0] != 0 }

  lemma NumStep(s: seq<nat>, d: nat, base: nat)
    ensures Num(s + [d], base) == Num(s, base) * base + d
  {
    assert (s + [d])[..|s|] == s;
  }

  lemma {:induction false} NumOfDigits(v: nat, base: nat)
    requires base > 1
    ensures Num(Digits(v, base), base) == v && Bare(Digits(v, base)) && (v > 0 ==> Digits(v, base) != [])
    decreases v
  {
    hide Num, Quot, Rem;
    if v == 0 {
      assert Num([], base) == 0 by { NumNone(base); }
    } else {
      Parts(v, base);
      var q, r := Quot(v, base), Rem(v, base);
      NumOfDigits(q, base);
      NumStep(Digits(q, base), r, base);
      assert q == 0 ==> r != 0;
    }
  }

  lemma NumNone(base: nat)
    ensures Num([], base) == 0
  {
  }

  lemma {:induction false} DigitsOfNum(s: seq<nat>, base: nat)
    requires base > 1 && Digital(s, base) && Bare(s)
    ensures Digits(Num(s, base), base) == s && (s != [] ==> Num(s, base) > 0)
    decreases |s|
  {
    if s != [] {
      var front, last := s[..|s| - 1], s[|s| - 1];
      DigitsOfNum(front, base);
      var v := Num(front, base);
      if front != [] { MulLe(1, v, base); }
      DivIs(v * base + last, base, v);
      assert Quot(v * base + last, base) == v && Rem(v * base + last, base) == last;
      assert front + [last] == s;
    }
  }

  // ---------- leading zeros ----------

  function Zeros(n: nat): seq<nat> { seq(n, _ => 0) }

  function Leading(s: seq<nat>): (n: nat)
    ensures n <= |s| && (n < |s| ==> s[n] != 0) && forall i :: 0 <= i < n ==> s[i] == 0
  {
    if s == [] || s[0] != 0 then 0 else 1 + Leading(s[1..])
  }

  /** The conversion: leading zeros are kept one by one, the rest as a number. */
  function Convert(s: seq<nat>, from: nat, to: nat): seq<nat>
    requires to > 1
  {
    Zeros(Leading(s)) + Digits(Num(s[Leading(s)..], from), to)
  }

  lemma LeadingIs(n: nat, s: seq<nat>)
    requires Bare(s)
    ensures Leading(Zeros(n) + s) == n && (Zeros(n) + s)[n..] == s
  {
    var t := Zeros(n) + s;
    assert t[n..] == s;
    assert forall i :: 0 <= i < n ==> t[i] == 0;
    assert n < |t| ==> t[n] == s[0];
  }

  /** Converting back gives the same string. */
  lemma ConvertBack(s: seq<nat>, from: nat, to: nat)
    requires from > 1 && to > 1 && Digital(s, from)
    ensures Digital(Convert(s, from, to), to)
    ensures Convert(Convert(s, from, to), to, from) == s
  {
    hide Digits, Num, Leading;
    var n := Leading(s);
    var rest := s[n..];
    var v := Num(rest, from);
    NumOfDigits(v, to);
    LeadingIs(n, Digits(v, to));
    DigitsOfNum(rest, from);
    assert Zeros(n) + rest == s;
  }

  // ---------- powers ----------

  function Pow(b: nat, n: nat): nat {
    if n == 0 then 1 else b * Pow(b, n - 1)
  }

  lemma {:induction false} PowPositive(b: nat, n: nat)
    requires b > 0
    ensures Pow(b, n) > 0
  {
    if n > 0 {
      PowPositive(b, n - 1);
      MulLe(1, b, Pow(b, n - 1));
    }
  }

  lemma {:induction false} PowAdd(b: nat, m: nat, n: nat)
    ensures Pow(b, m + n) == Pow(b, m) * Pow(b, n)
  {
    if m > 0 {
      PowAdd(b, m - 1, n);
      Assoc(b, Pow(b, m - 1), Pow(b, n));
    }
  }

  lemma {:induction false} PowMul(b: nat, m: nat, n: nat)
    ensures Pow(b, m * n) == Pow(Pow(b, m), n)
  {
    if n > 0 {
      PowMul(b, m, n - 1);
      assert m * n == m + m * (n - 1);
      PowAdd(b, m, m * (n - 1));
    } else {
      assert m * 0 == 0;
    }
  }

  lemma {:induction false} PowMonotone(b: nat, m: nat, n: nat)
    requires b > 0 && m <= n
    ensures Pow(b, m) <= Pow(b, n)
    decreases n
  {
    if m < n {
      PowMonotone(b, m, n - 1);
      PowPositive(b, n - 1);
      MulLe(1, b, Pow(b, n - 1));
    }
  }

  lemma {:induction false} PowLess(a: nat, b: nat, k: nat)
    requires 0 < a < b && k > 0
    ensures Pow(a, k) < Pow(b, k)
  {
    if k == 1 {
      assert Pow(a, 0) == 1 && Pow(b, 0) == 1;
    } else {
      PowLess(a, b, k - 1);
      PowPositive(a, k - 1);
      Products(a, b, Pow(a, k - 1), Pow(b, k - 1));
    }
  }

  lemma Products(a: nat, b: nat, x: nat, y: nat)
    requires 0 < a < b && 0 < x < y
    ensures a * x < b * y
  {
    MulLe(a + 1, b, x);
    assert (a + 1) * x == a * x + x;
    MulLe(x, y, b);
    assert x * b == b * x && y * b == b * y;
  }

  /** If q digits in base b hold p digits in base a, enough digits always do. */
  lemma Enough(a: nat, b: nat, p: nat, q: nat, n: nat, size: nat)
    requires a > 0 && b > 0 && p > 0 && Pow(a, p) <= Pow(b, q) && q * n <= p * size
    ensures Pow(a, n) <= Pow(b, size)
  {
    hide Pow;
    PowPositive(b, size);
    if Pow(a, n) > Pow(b, size) { PowLess(Pow(b, size), Pow(a, n), p); }
    Powers(a, b, p, q, n, size);
  }

  /** The same, to the power of p. */
  lemma Powers(a: nat, b: nat, p: nat, q: nat, n: nat, size: nat)
    requires a > 0 && b > 0 && Pow(a, p) <= Pow(b, q) && q * n <= p * size
    ensures Pow(Pow(a, n), p) <= Pow(Pow(b, size), p)
  {
    hide Pow;
    Commute(a, n, p);
    Commute(b, size, p);
    PowLe(Pow(a, p), Pow(b, q), n);
    Longer(b, q, n, p, size);
  }

  lemma Longer(b: nat, q: nat, n: nat, p: nat, size: nat)
    requires b > 0 && q * n <= p * size
    ensures Pow(Pow(b, q), n) <= Pow(Pow(b, p), size)
  {
    hide Pow;
    PowMul(b, p, size);
    PowMul(b, q, n);
    PowMonotone(b, q * n, p * size);
  }

  lemma Commute(a: nat, n: nat, p: nat)
    ensures Pow(Pow(a, n), p) == Pow(Pow(a, p), n)
  {
    hide Pow;
    PowMul(a, n, p);
    PowMul(a, p, n);
    assert n * p == p * n;
  }

  lemma {:induction false} PowLe(a: nat, b: nat, k: nat)
    requires a <= b
    ensures Pow(a, k) <= Pow(b, k)
  {
    if k > 0 {
      PowLe(a, b, k - 1);
      MulLe(a, b, Pow(a, k - 1));
      MulLe(Pow(a, k - 1), Pow(b, k - 1), b);
      assert Pow(a, k - 1) * b == b * Pow(a, k - 1) && Pow(b, k - 1) * b == b * Pow(b, k - 1);
    }
  }

  // ---------- digits from the back ----------

  lemma {:induction false} NumFront(d: nat, t: seq<nat>, base: nat)
    ensures Num([d] + t, base) == d * Pow(base, |t|) + Num(t, base)
    decreases |t|
  {
    hide Num, Pow;
    if t == [] {
      NumNone(base);
      NumStep([], d, base);
      assert [] + [d] == [d] + t;
      PowNone(base);
    } else {
      var front, last := t[..|t| - 1], t[|t| - 1];
      NumFront(d, front, base);
      NumStep(front, last, base);
      NumStep([d] + front, last, base);
      assert front + [last] == t && ([d] + front) + [last] == [d] + t;
      PowMore(base, |front|);
      Spread(d, Pow(base, |front|), base, Num(front, base));
    }
  }

  lemma PowNone(b: nat)
    ensures Pow(b, 0) == 1
  {
  }

  lemma PowMore(b: nat, n: nat)
    ensures Pow(b, n + 1) == b * Pow(b, n)
  {
  }

  lemma Spread(d: int, p: int, b: int, x: int)
    ensures (d * p + x) * b == d * (b * p) + x * b
  {
    assert (d * p) * b == d * (b * p);
  }

  lemma {:induction false} NumZeros(z: nat, t: seq<nat>, base: nat)
    ensures Num(Zeros(z) + t, base) == Num(t, base)
    decreases z
  {
    hide Num;
    if z == 0 {
      assert Zeros(0) + t == t;
    } else {
      NumZeros(z - 1, t, base);
      assert [0] + (Zeros(z - 1) + t) == Zeros(z) + t;
      NumFront(0, Zeros(z - 1) + t, base);
    }
  }

  lemma {:induction false} NumBound(s: seq<nat>, base: nat)
    requires Digital(s, base)
    ensures Num(s, base) < Pow(base, |s|)
    decreases |s|
  {
    if s != [] {
      var front := s[..|s| - 1];
      NumBound(front, base);
      MulLe(Num(front, base) + 1, Pow(base, |front|), base);
      assert (Num(front, base) + 1) * base == Num(front, base) * base + base;
      assert Pow(base, |front|) * base == base * Pow(base, |front|);
    }
  }

  /** t is s with the last i digits multiplied by m, plus d, but for a carry. */
  ghost predicate Carried(s: seq<nat>, t: seq<nat>, m: nat, d: nat, base: nat, i: nat, carry: nat) {
    && i <= |s| == |t| && base > 1 && Digital(s, base) && Digital(t, base) && t[..|s| - i] == s[..|s| - i]
    && Num(t[|s| - i..], base) + carry * Pow(base, i) == m * Num(s[|s| - i..], base) + d
  }

  lemma CarryStart(s: seq<nat>, m: nat, d: nat, base: nat)
    requires base > 1 && Digital(s, base)
    ensures Carried(s, s, m, d, base, 0, d)
  {
  }

  lemma CarryStep(s: seq<nat>, t: seq<nat>, m: nat, d: nat, base: nat, i: nat, carry: nat, c: nat)
    requires Carried(s, t, m, d, base, i, carry) && i < |s| && c == carry + m * s[|s| - i - 1]
    ensures t[|s| - i - 1] == s[|s| - i - 1]
    ensures Carried(s, t[|s| - i - 1 := Rem(c, base)], m, d, base, i + 1, Quot(c, base))
  {
    hide Num, Pow, Quot, Rem;
    var n, k := |s|, |s| - i - 1;
    assert t[k] == t[..k + 1][k] == s[..k + 1][k] == s[k];
    Parts(c, base);
    var low, high, p := Rem(c, base), Quot(c, base), Pow(base, i);
    var u := t[k := low];
    assert u[..k] == t[..k + 1][..k] == s[..k + 1][..k] == s[..k];
    assert u[k..] == [low] + t[k + 1..];
    assert s[k..] == [s[k]] + s[k + 1..];
    NumFront(low, t[k + 1..], base);
    NumFront(s[k], s[k + 1..], base);
    PowMore(base, i);
    CarrySum(low, high, p, base, carry, m, s[k], c, Num(t[k + 1..], base), Num(s[k + 1..], base), d);
  }

  lemma CarrySum(low: int, high: int, p: int, base: int, carry: int, m: int, x: int, c: int, nt: int, ns: int, d: int)
    requires c == high * base + low && c == carry + m * x && nt + carry * p == m * ns + d
    ensures low * p + nt + high * (base * p) == m * (x * p + ns) + d
  {
    assert (high * base + low) * p == high * (base * p) + low * p by { assert (high * base) * p == high * (base * p); }
    assert (carry + m * x) * p == carry * p + m * (x * p) by { assert (m * x) * p == m * (x * p); }
    assert m * (x * p + ns) == m * (x * p) + m * ns;
  }

  /** At the end of the buffer nothing is left to carry. */
  lemma CarryFits(s: seq<nat>, t: seq<nat>, m: nat, d: nat, base: nat, carry: nat)
    requires Carried(s, t, m, d, base, |s|, carry) && m * Num(s, base) + d < Pow(base, |s|)
    ensures carry == 0
  {
    hide Num, Pow;
    assert s[0..] == s;
    if carry > 0 { MulLe(1, carry, Pow(base, |s|)); }
  }

  /** With nothing to carry and only zeros in front, the job is done. */
  lemma CarryDone(s: seq<nat>, t: seq<nat>, m: nat, d: nat, base: nat, i: nat)
    requires Carried(s, t, m, d, base, i, 0) && forall k :: 0 <= k < |s| - i ==> s[k] == 0
    ensures Num(t, base) == m * Num(s, base) + d && forall k :: 0 <= k < |s| - i ==> t[k] == 0
  {
    hide Num, Pow;
    var z := |s| - i;
    assert forall k :: 0 <= k < z ==> t[k] == t[..z][k] == s[..z][k] == s[k];
    assert Zeros(z) + s[z..] == s;
    assert Zeros(z) + t[z..] == t;
    NumZeros(z, s[z..], base);
    NumZeros(z, t[z..], base);
  }

  /** Multiplies the number in the buffer and adds a digit, from the back. */
  method MultiplyAdd(buf: array<nat>, length: nat, m: nat, d: nat, base: nat) returns (newLength: nat)
    requires base > 1 && Digital(buf[..], base) && length <= buf.Length
    requires forall k :: 0 <= k < buf.Length - length ==> buf[k] == 0
    requires m * Num(buf[..], base) + d < Pow(base, buf.Length)
    modifies buf
    ensures Digital(buf[..], base) && Num(buf[..], base) == m * old(Num(buf[..], base)) + d
    ensures newLength <= buf.Length && forall k :: 0 <= k < buf.Length - newLength ==> buf[k] == 0
  {
    hide Num, Pow, Quot, Rem, Digital, Carried;
    ghost var s := buf[..];
    var carry: nat, i := d, 0;
    CarryStart(s, m, d, base);
    while (carry != 0 || i < length) && i < buf.Length
      invariant 0 <= i <= buf.Length && Carried(s, buf[..], m, d, base, i, carry)
      decreases buf.Length - i
    {
      var k := buf.Length - i - 1;
      ghost var t := buf[..];
      ghost var c: nat := carry + m * s[k];
      CarryStep(s, t, m, d, base, i, carry, c);
      carry := carry + m * buf[k];
      buf[k] := Rem(carry, base);
      assert buf[..] == t[k := Rem(c, base)];
      carry := Quot(carry, base);
      i := i + 1;
    }
    if i == buf.Length { CarryFits(s, buf[..], m, d, base, carry); }
    assert carry == 0;
    assert Digital(buf[..], base) by { CarriedDigital(s, buf[..], m, d, base, i, carry); }
    CarryDone(s, buf[..], m, d, base, i);
    newLength := i;
  }

  lemma CarriedDigital(s: seq<nat>, t: seq<nat>, m: nat, d: nat, base: nat, i: nat, carry: nat)
    requires Carried(s, t, m, d, base, i, carry)
    ensures Digital(t, base)
  {
  }

  /** The digits in the buffer, without leading zeros. */
  method Stripped(buf: array<nat>, length: nat, base: nat) returns (t: seq<nat>)
    requires base > 1 && Digital(buf[..], base) && length <= buf.Length
    requires forall k :: 0 <= k < buf.Length - length ==> buf[k] == 0
    ensures t == Digits(Num(buf[..], base), base)
  {
    hide Num, Digits;
    var it := buf.Length - length;
    while it < buf.Length && buf[it] == 0
      invariant 0 <= it <= buf.Length && forall k :: 0 <= k < it ==> buf[k] == 0
    {
      it := it + 1;
    }
    t := buf[it..];
    assert Zeros(it) + t == buf[..];
    NumZeros(it, t, base);
    DigitsOfNum(t, base);
  }
}
