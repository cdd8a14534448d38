/** Unsigned big integers of a fixed number of 32-bit limbs, changed in place. */
module ArithUint256 {
  import opened Limbs
  import opened Numbers

  class BaseUint {
    const pn: array<nat>

    ghost predicate Valid()
      reads pn
    {
      pn.Length > 0 && InRange(pn[..])
    }

    ghost function Num(): nat
      reads pn
    {
      Value(pn[..])
    }

    /** The modulus of the arithmetic. */
    ghost function Mod(): (m: nat)
      ensures m > 0
    {
      Base(pn.Length)
    }

    constructor Zero(width: nat)
      requires width > 0
      ensures Valid() && fresh(pn) && pn.Length == width && Num() == 0
    {
      pn := new nat[width](_ => 0);
      new;
      ValZero(pn[..], width);
    }

    constructor Copy(b: BaseUint)
      requires b.Valid()
      ensures Valid() && fresh(pn) && pn.Length == b.pn.Length && pn[..] == b.pn[..] && Num() == b.Num()
    {
      var a := new nat[b.pn.Length];
      for i := 0 to b.pn.Length
        invariant forall j :: 0 <= j < i ==> a[j] == b.pn[j]
      {
        a[i] := b.pn[i];
      }
      pn := a;
      new;
      assert pn[..] == b.pn[..];
    }

    method Add(b: BaseUint)
      requires Valid() && b.Valid() && b.pn.Length == pn.Length
      modifies pn
      ensures Valid() && Num() == (old(Num()) + old(b.Num())) % Mod()
    {
      hide Base, Value, Val, InRange;
      ghost var x, y := pn[..], b.pn[..];
      var carry: nat := 0;
      AddStart(x, y);
      for i := 0 to pn.Length
        invariant pn[i..] == x[i..] && b.pn[i..] == y[i..]
        invariant Added(pn[..], x, y, i, carry)
      {
        AddStep(pn[..], x, y, i, carry);
        assert pn[i] == pn[i..][0] && b.pn[i] == b.pn[i..][0];
        var n: nat := carry + pn[i] + b.pn[i];
        var low: nat := n % B;
        ghost var s := pn[..];
        pn[i] := low;
        assert pn[..] == s[i := low];
        carry := n / B;
      }
      AddEnd(pn[..], x, y, carry);
    }

    /** Every limb inverted: the largest number minus this one. */
    method Invert() returns (r: BaseUint)
      requires Valid()
      ensures fresh(r) && fresh(r.pn) && r.Valid() && r.pn.Length == pn.Length && r.Num() == Mod() - 1 - Num()
    {
      hide Base, Value, Val;
      r := new BaseUint.Zero(pn.Length);
      for i := 0 to pn.Length
        invariant forall j :: 0 <= j < i ==> r.pn[j] == B - 1 - pn[j]
        invariant fresh(r.pn)
      {
        r.pn[i] := B - 1 - pn[i];
      }
      InvertedVal(r.pn[..], pn[..], pn.Length);
      ValBound(pn[..], pn.Length);
      ValueIs(pn[..]);
      ValueIs(r.pn[..]);
    }

    method Increment()
      requires Valid()
      modifies pn
      ensures Valid() && Num() == (old(Num()) + 1) % Mod()
    {
      hide Base, Value, Val, InRange;
      ghost var x := pn[..];
      var i := 0;
      assert Base(0) == 1 by { BaseZero(); }
      while true
        invariant 0 <= i < pn.Length && InRange(pn[..]) && Value(pn[..]) + Base(i) == Value(x) + 1
        decreases pn.Length - i
      {
        ghost var s := pn[..];
        IncrementStep(s, i, Value(x) + 1);
        var n: nat := (pn[i] + 1) % B;
        pn[i] := n;
        assert pn[..] == s[i := n];
        if !(pn[i] == 0 && i < pn.Length - 1) { break; }
        i := i + 1;
      }
    }

    method Decrement()
      requires Valid()
      modifies pn
      ensures Valid() && Num() == (old(Num()) - 1) % Mod()
    {
      hide Base, Value, Val, InRange;
      ghost var x := pn[..];
      var i := 0;
      assert Base(0) == 1 by { BaseZero(); }
      while true
        invariant 0 <= i < pn.Length && InRange(pn[..]) && Value(pn[..]) - Base(i) == Value(x) - 1
        decreases pn.Length - i
      {
        ghost var s := pn[..];
        DecrementStep(s, i, Value(x) - 1);
        var n: nat := (pn[i] + B - 1) % B;
        pn[i] := n;
        assert pn[..] == s[i := n];
        if !(pn[i] == B - 1 && i < pn.Length - 1) { break; }
        i := i + 1;
      }
    }

    method Negate() returns (r: BaseUint)
      requires Valid()
      ensures fresh(r) && fresh(r.pn) && r.Valid() && r.pn.Length == pn.Length && r.Num() == (0 - Num()) % Mod()
    {
      hide Base, Value, Val, InRange;
      r := Invert();
      r.Increment();
      assert (Mod() - 1 - Num()) + 1 == 0 - Num() + Mod();
      AddMod(0 - Num(), Mod());
    }

    method Subtract(b: BaseUint)
      requires Valid() && b.Valid() && b.pn.Length == pn.Length
      modifies pn
      ensures Valid() && Num() == (old(Num()) - old(b.Num())) % Mod()
    {
      hide Base, Value, Val, InRange;
      var n := b.Negate();
      Add(n);
      ModPlus(old(Num()), 0 - old(b.Num()), Mod());
    }

    method MultiplySmall(b32: nat)
      requires Valid() && b32 < B
      modifies pn
      ensures Valid() && Num() == (b32 * old(Num())) % Mod()
    {
      hide Base, Value, Val, InRange;
      ghost var x := pn[..];
      var carry: nat := 0;
      ScaleStart(x, b32);
      for i := 0 to pn.Length
        invariant pn[i..] == x[i..] && Scaled(pn[..], x, b32, i, carry)
      {
        assert pn[i] == pn[i..][0];
        MulLe(0, b32, pn[i]);
        var n: nat := carry + b32 * pn[i];
        ScaleStep(pn[..], x, b32, i, carry, n);
        var low: nat := n % B;
        ghost var s := pn[..];
        pn[i] := low;
        assert pn[..] == s[i := low];
        carry := n / B;
      }
      ScaleEnd(pn[..], x, b32, carry);
    }

    /** Schoolbook multiplication.  The operand is read after this number was cleared, so
        multiplying a number by itself in place gives zero. */
    method Multiply(b: BaseUint)
      requires Valid() && b.Valid() && b.pn.Length == pn.Length
      modifies pn
      ensures Valid() && Num() == (if b.pn == pn then 0 else (old(Num()) * old(b.Num())) % Mod())
    {
      hide Base, Value, Val, InRange, Product, Row;
      var a := new BaseUint.Copy(this);
      Clear();
      ghost var x, y := a.pn[..], b.pn[..];
      ghost var lost := 0;
      ProductStart(pn[..], x, y);
      for j := 0 to pn.Length
        invariant b.pn[..] == y && a.pn[..] == x && Product(pn[..], x, y, j, lost)
        invariant b.pn == pn ==> forall k :: 0 <= k < pn.Length ==> pn[k] == 0
      {
        ghost var t := pn[..];
        var carry: nat := 0;
        RowStart(t, x, y, j, lost);
        for i := 0 to pn.Length - j
          invariant b.pn[..] == y && a.pn[..] == x && pn[i + j..] == t[i + j..] && Row(pn[..], t, x, y, j, i, carry)
          invariant b.pn == pn ==> carry == 0 && forall k :: 0 <= k < pn.Length ==> pn[k] == 0
        {
          assert pn[i + j] == pn[i + j..][0];
          MulLe(0, a.pn[j], b.pn[i]);
          var n: nat := carry + pn[i + j] + a.pn[j] * b.pn[i];
          RowStep(pn[..], t, x, y, j, i, carry, n);
          var low: nat := n % B;
          ghost var s := pn[..];
          pn[i + j] := low;
          assert pn[..] == s[i + j := low];
          carry := n / B;
        }
        lost := RowEnd(pn[..], t, x, y, j, carry, lost);
      }
      ProductEnd(pn[..], x, y, lost);
      if b.pn == pn { ValZero(pn[..], pn.Length); ValueIs(pn[..]); }
    }

    method Clear()
      requires Valid()
      modifies pn
      ensures Valid() && forall k :: 0 <= k < pn.Length ==> pn[k] == 0
      ensures Num() == 0
    {
      for i := 0 to pn.Length
        invariant forall k :: 0 <= k < i ==> pn[k] == 0
      {
        pn[i] := 0;
      }
      ValZero(pn[..], pn.Length);
    }

    method CompareTo(b: BaseUint) returns (r: int)
      requires Valid() && b.Valid() && b.pn.Length == pn.Length
      ensures r < 0 <==> Num() < b.Num()
      ensures r > 0 <==> Num() > b.Num()
    {
      hide Base, Val;
      ValueIs(pn[..]);
      ValueIs(b.pn[..]);
      var i := pn.Length - 1;
      while i >= 0
        invariant -1 <= i < pn.Length && forall k :: i < k < pn.Length ==> pn[k] == b.pn[k]
      {
        if pn[i] < b.pn[i] {
          ValLess(pn[..], b.pn[..], i, pn.Length);
          return -1;
        }
        if pn[i] > b.pn[i] {
          ValLess(b.pn[..], pn[..], i, pn.Length);
          return 1;
        }
        i := i - 1;
      }
      assert pn[..] == b.pn[..];
      r := 0;
    }

    method ShiftLeft(shift: nat)
      requires Valid()
      modifies pn
      ensures Valid() && Num() == (old(Num()) * Pow2(shift)) % Mod()
    {
      hide Base, Value, Val, InRange, Shl, Pow2, High, Low, Or;
      var a := new BaseUint.Copy(this);
      ghost var x := a.pn[..];
      Clear();
      var k, bits := shift / 32, shift % 32;
      ghost var lost := 0;
      ShlStart(pn[..], x, k, bits);
      for i := 0 to pn.Length
        invariant a.pn[..] == x && Shl(pn[..], x, i, k, bits, lost)
      {
        ghost var s := pn[..];
        if i + k + 1 < pn.Length && bits != 0 { pn[i + k + 1] := Or(pn[i + k + 1], High(a.pn[i], bits)); }
        if i + k < pn.Length { pn[i + k] := Or(pn[i + k], Low(a.pn[i], bits)); }
        assert pn[..] == Shifted(s, x[i], i + k, bits);
        lost := ShlStep(s, x, i, k, bits, lost);
      }
      ShlEnd(pn[..], x, k, bits, lost);
      assert 32 * k + bits == shift;
    }

    method ShiftRight(shift: nat)
      requires Valid()
      modifies pn
      ensures Valid() && Num() == old(Num()) / Pow2(shift)
    {
      hide Base, Value, Val, InRange, Shr, Pow2, Low, Or, Down;
      var a := new BaseUint.Copy(this);
      ghost var x := a.pn[..];
      Clear();
      var k, bits := shift / 32, shift % 32;
      ghost var rem := 0;
      ShrStart(pn[..], x, k, bits);
      for i := 0 to pn.Length
        invariant a.pn[..] == x && Shr(pn[..], x, i, k, bits, rem)
      {
        ghost var s := pn[..];
        if i - k - 1 >= 0 && bits != 0 { pn[i - k - 1] := Or(pn[i - k - 1], Low(a.pn[i], 32 - bits)); }
        if i - k >= 0 { pn[i - k] := Or(pn[i - k], Down(a.pn[i], bits)); }
        assert pn[..] == ShiftedDown(s, x[i], i - k, bits);
        rem := ShrStep(s, x, i, k, bits, rem);
      }
      ShrEnd(pn[..], x, k, bits, rem);
      assert 32 * k + bits == shift;
    }

    /** The position of the highest bit set plus one, or zero. */
    method Bits() returns (r: nat)
      requires Valid()
      ensures r <= 32 * pn.Length && Num() < Pow2(r) && (r > 0 ==> Num() >= Pow2(r - 1))
    {
      hide Base, Val, Pow2, Value, InRange;
      var pos := pn.Length - 1;
      while pos >= 0
        invariant -1 <= pos < pn.Length && forall m :: pos < m < pn.Length ==> pn[m] == 0
      {
        if pn[pos] != 0 {
          var bits := 31;
          LimbBelow(pn[..], pos);
          while bits > 0
            invariant 0 <= bits <= 31 && pn[pos] < Pow2(bits + 1)
          {
            TopBit(pn[pos], bits);
            if Down(pn[pos], bits) % 2 != 0 {
              BitLength(pn[..], pos, bits);
              return 32 * pos + bits + 1;
            }
            bits := bits - 1;
          }
          PowZero();
          BitLength(pn[..], pos, 0);
          return 32 * pos + 1;
        }
        pos := pos - 1;
      }
      ValZero(pn[..], pn.Length);
      ValueIs(pn[..]);
      PowZero();
      r := 0;
    }

    /** One bit of the quotient. */
    method DivideBit(num: BaseUint, div: BaseUint, shift: nat, ghost x: nat, ghost y: nat)
      requires pn != num.pn && pn != div.pn && num.pn != div.pn && shift / 32 < pn.Length
      requires num.Valid() && div.Valid() && num.pn.Length == div.pn.Length
      requires Quotient(pn[..], x, y, num.Num(), shift + 1) && div.Num() == y * Pow2(shift)
      modifies pn, num.pn
      ensures num.Valid() && Quotient(pn[..], x, y, num.Num(), shift)
    {
      hide Base, Val, Pow2, Value, InRange, Or, Quotient;
      ghost var s, n, d := pn[..], num.Num(), div.Num();
      var c := num.CompareTo(div);
      if c >= 0 {
        NumBound(num.pn[..]);
        num.Subtract(div);
        SmallSub(num.pn[..], n, d);
        var limb: nat := Or(pn[shift / 32], Pow2(shift % 32));
        pn[shift / 32] := limb;
        assert pn[..] == s[shift / 32 := limb];
        QuotientSet(s, x, y, n, shift);
      } else {
        QuotientSkip(s, x, y, n, shift);
      }
    }

    /** Shift and subtract; not ok stands for the division-by-zero exception. */
    method Divide(b: BaseUint) returns (ok: bool)
      requires Valid() && b.Valid() && b.pn.Length == pn.Length
      modifies pn
      ensures Valid() && (ok <==> old(b.Num()) != 0)
      ensures Num() == if ok then old(Num()) / old(b.Num()) else 0
    {
      hide Base, Val, Pow2, Value, InRange, Or, Quotient;
      var div := new BaseUint.Copy(b);
      var num := new BaseUint.Copy(this);
      ghost var x, y := num.Num(), div.Num();
      Clear();
      var numBits := num.Bits();
      var divBits := div.Bits();
      PowZero();
      if divBits == 0 { return false; }
      if divBits > numBits {
        TooSmall(x, y, numBits, divBits);
        return true;
      }
      var shift: int := numBits - divBits;
      div.ShiftLeft(shift);
      Aligned(x, y, numBits, divBits, pn.Length);
      QuotientStart(pn[..], x, y, shift, pn.Length);
      while shift >= 0
        invariant -1 <= shift && shift < 32 * pn.Length && num.Valid() && div.Valid()
        invariant div.pn.Length == pn.Length == num.pn.Length && fresh(num.pn) && fresh(div.pn) && num.pn != div.pn
        invariant Quotient(pn[..], x, y, num.Num(), shift + 1)
        invariant shift >= 0 ==> div.Num() == y * Pow2(shift)
      {
        DivideBit(num, div, shift, x, y);
        div.ShiftRight(1);
        if shift >= 1 { HalfOf(y, shift); }
        shift := shift - 1;
      }
      QuotientEnd(pn[..], x, y, num.Num());
      ok := true;
    }

    method Assign(b: nat)
      requires Valid() && pn.Length >= 2 && b < B * B
      modifies pn
      ensures Valid() && Num() == b
    {
      hide Base, Val;
      pn[0] := b % B;
      var high: nat := b / B;
      DivLess(b);
      pn[1] := high;
      for i := 2 to pn.Length
        invariant pn[0] == b % B && pn[1] == high && forall j :: 2 <= j < i ==> pn[j] == 0
      {
        pn[i] := 0;
      }
      TwoLimbs(pn[..]);
    }

    method EqualTo(b: nat) returns (r: bool)
      requires Valid() && pn.Length >= 2 && b < B * B
      ensures r <==> Num() == b
    {
      hide Base, Val, Value;
      var i := pn.Length - 1;
      while i >= 2
        invariant 1 <= i < pn.Length && forall j :: i < j < pn.Length ==> pn[j] == 0
      {
        if pn[i] != 0 {
          HighLimb(pn[..], i);
          return false;
        }
        i := i - 1;
      }
      TwoLimbs(pn[..]);
      if pn[1] != b / B { return false; }
      if pn[0] != b % B { return false; }
      r := true;
    }

    method GetLow64() returns (r: nat)
      requires Valid() && pn.Length >= 2
      ensures r == Num() % (B * B)
    {
      hide Base, Val, Value, Or, Pow2;
      r := Or(pn[0], pn[1] * B);
      Pow2Of32();
      OrIsPlus(pn[1], pn[0], 32);
      OrComm(pn[0], pn[1] * B);
      Low64Is(pn[..]);
    }
  }

  lemma BaseZero()
    ensures Base(0) == 1
  {
  }

  lemma ValueIs(s: seq<nat>)
    ensures Value(s) == Val(s, |s|)
  {
  }

  lemma {:induction false} InvertedVal(s: seq<nat>, x: seq<nat>, n: nat)
    requires n <= |s| == |x| && forall i :: 0 <= i < n ==> s[i] == B - 1 - x[i]
    ensures Val(s, n) + Val(x, n) == Base(n) - 1
  {
    hide Base;
    if n == 0 {
      BaseZero();
    } else {
      InvertedVal(s, x, n - 1);
      BaseStep(n - 1);
      Plus(s[n - 1], x[n - 1], Base(n - 1));
      Less1(Base(n - 1));
    }
  }

  /** The carry into limb i is taken in, or passed on. */
  lemma IncrementStep(s: seq<nat>, i: nat, x: nat)
    requires i < |s| && InRange(s) && Value(s) + Base(i) == x
    ensures var n: nat := (s[i] + 1) % B;
            var t := s[i := n];
            && InRange(t)
            && (if n == 0 && i < |s| - 1 then Value(t) + Base(i + 1) == x else Value(t) == x % Base(|s|))
  {
    hide Base;
    DivIs(s[i] + 1, B, if s[i] == B - 1 then 1 else 0);
    var n: nat := (s[i] + 1) % B;
    ValUpdate(s, i, n, |s|);
    BaseStep(i);
    if n == 0 {
      Less1(Base(i));
      assert (n - s[i]) * Base(i) == -((B - 1) * Base(i));
      if i == |s| - 1 { CarryOut(s[i := n], x, 1); }
    } else {
      CarryOut(s[i := n], x, 0);
    }
  }

  lemma DecrementStep(s: seq<nat>, i: nat, x: int)
    requires i < |s| && InRange(s) && Value(s) - Base(i) == x
    ensures var n: nat := (s[i] + B - 1) % B;
            var t := s[i := n];
            && InRange(t)
            && (if n == B - 1 && i < |s| - 1 then Value(t) - Base(i + 1) == x else Value(t) == x % Base(|s|))
  {
    hide Base;
    DivIs(s[i] + B - 1, B, if s[i] == 0 then 0 else 1);
    var n: nat := (s[i] + B - 1) % B;
    ValUpdate(s, i, n, |s|);
    BaseStep(i);
    if s[i] == 0 {
      Less1(Base(i));
      if i == |s| - 1 { CarryOut(s[i := n], x, -1); }
    } else {
      assert (n - s[i]) * Base(i) == 0 - Base(i);
      CarryOut(s[i := n], x, 0);
    }
  }

  lemma AddMod(x: int, m: nat)
    requires m > 0
    ensures (x + m) % m == x % m
  {
    var q := x / m;
    assert x == q * m + x % m;
    Plus1(q, m);
    DivIs(x + m, m, q + 1);
  }

  lemma ModPlus(a: int, x: int, m: nat)
    requires m > 0
    ensures (a + x % m) % m == (a + x) % m
  {
    var q, c := x / m, a + x % m;
    assert x == q * m + x % m;
    var p := c / m;
    assert c == p * m + c % m;
    Plus(p, q, m);
    DivIs(a + x, m, p + q);
  }

  ghost predicate Scaled(s: seq<nat>, x: seq<nat>, b: nat, i: nat, carry: nat) {
    i <= |s| == |x| && InRange(s) && InRange(x) && b < B && carry < B && Val(s, i) + carry * Base(i) == b * Val(x, i)
  }

  lemma ScaleStart(x: seq<nat>, b: nat)
    requires InRange(x) && b < B
    ensures Scaled(x, x, b, 0, 0)
  {
  }

  /** The 64-bit intermediate does not overflow. */
  lemma Product64(a: nat, b: nat, c: nat, d: nat)
    requires a < B && b < B && c < B && d < B
    ensures a + b + c * d < B * B && (a + b + c * d) / B < B
  {
    MulLe(0, c, d);
    MulLe(c, B - 1, d);
    var n: nat := c * d;
    assert n <= (B - 1) * d <= (B - 1) * (B - 1);
    DivLess(a + b + n);
  }

  lemma DivLess(n: nat)
    requires n < B * B
    ensures n / B < B
  {
  }

  lemma ScaleStep(s: seq<nat>, x: seq<nat>, b: nat, i: nat, carry: nat, n: nat)
    requires Scaled(s, x, b, i, carry) && i < |s| && n == carry + b * x[i]
    ensures var low: nat := n % B; n < B * B && Scaled(s[i := low], x, b, i + 1, n / B)
  {
    hide Base;
    Product64(carry, 0, b, x[i]);
    CarryStep(s, i, n);
    Plus(carry, b * x[i], Base(i));
    Assoc(b, x[i], Base(i));
    Distribute(b, Val(x, i), x[i] * Base(i));
  }

  lemma Distribute(b: int, p: int, q: int)
    ensures b * (p + q) == b * p + b * q
  {
  }

  lemma ScaleEnd(s: seq<nat>, x: seq<nat>, b: nat, carry: nat)
    requires Scaled(s, x, b, |s|, carry)
    ensures InRange(s) && Value(s) == (b * Value(x)) % Base(|s|)
  {
    CarryOut(s, b * Value(x), carry);
  }

  ghost predicate Added(s: seq<nat>, x: seq<nat>, y: seq<nat>, i: nat, carry: nat) {
    && i <= |s| == |x| == |y| && InRange(s) && InRange(x) && InRange(y) && carry <= 1
    && Val(s, i) + carry * Base(i) == Val(x, i) + Val(y, i)
  }

  lemma AddStart(x: seq<nat>, y: seq<nat>)
    requires |x| == |y| && InRange(x) && InRange(y)
    ensures Added(x, x, y, 0, 0)
  {
  }

  lemma AddStep(s: seq<nat>, x: seq<nat>, y: seq<nat>, i: nat, carry: nat)
    requires Added(s, x, y, i, carry) && i < |s|
    ensures var n: nat := carry + x[i] + y[i];
            var low: nat := n % B;
            Added(s[i := low], x, y, i + 1, n / B)
  {
    hide Base;
    CarryStep(s, i, carry + x[i] + y[i]);
    Plus3(carry, x[i], y[i], Base(i));
  }

  lemma AddEnd(s: seq<nat>, x: seq<nat>, y: seq<nat>, carry: nat)
    requires Added(s, x, y, |s|, carry)
    ensures InRange(s) && Value(s) == (Value(x) + Value(y)) % Base(|s|)
  {
    CarryOut(s, Value(x) + Value(y), carry);
  }

  lemma Plus3(a: int, b: int, c: int, x: int)
    ensures (a + b + c) * x == a * x + b * x + c * x
  {
  }

  // ---------- multiplication ----------

  /** s is the product of the first j limbs of x with y, up to what was lost at the top. */
  ghost predicate Product(s: seq<nat>, x: seq<nat>, y: seq<nat>, j: nat, lost: nat) {
    && j <= |s| == |x| == |y| && InRange(s) && InRange(x) && InRange(y)
    && Value(s) + lost * Base(|s|) == Val(x, j) * Value(y)
  }

  /** Row j: limb j of x times the first i limbs of y is added to t. */
  ghost predicate Row(s: seq<nat>, t: seq<nat>, x: seq<nat>, y: seq<nat>, j: nat, i: nat, carry: nat) {
    && |s| == |t| == |x| == |y| && j < |s| && i + j <= |s| && InRange(s) && InRange(t) && InRange(x) && InRange(y)
        && carry < B
    && Val(s, i + j) + carry * Base(i + j) == Val(t, i + j) + x[j] * Val(y, i) * Base(j)
  }

  lemma ProductStart(s: seq<nat>, x: seq<nat>, y: seq<nat>)
    requires |s| == |x| == |y| && InRange(s) && InRange(x) && InRange(y) && Value(s) == 0
    ensures Product(s, x, y, 0, 0)
  {
  }

  lemma RowStart(t: seq<nat>, x: seq<nat>, y: seq<nat>, j: nat, lost: nat)
    requires Product(t, x, y, j, lost) && j < |t|
    ensures Row(t, t, x, y, j, 0, 0)
  {
  }

  lemma RowStep(s: seq<nat>, t: seq<nat>, x: seq<nat>, y: seq<nat>, j: nat, i: nat, carry: nat, n: nat)
    requires Row(s, t, x, y, j, i, carry) && i + j < |s| && s[i + j] == t[i + j] && n == carry + s[i + j] + x[j] * y[i]
    ensures var low: nat := n % B; n < B * B && Row(s[i + j := low], t, x, y, j, i + 1, n / B)
  {
    hide Base;
    Product64(carry, s[i + j], x[j], y[i]);
    CarryStep(s, i + j, n);
    RowSum(carry, s[i + j], x[j], y[i], Val(y, i), i, j);
  }

  lemma RowSum(carry: nat, limb: nat, xj: nat, yi: nat, low: nat, i: nat, j: nat)
    ensures (carry + limb + xj * yi) * Base(i + j) + xj * low * Base(j)
            == carry * Base(i + j) + limb * Base(i + j) + xj * (low + yi * Base(i)) * Base(j)
  {
    hide Base;
    var p, q := Base(i), Base(j);
    BaseAdd(j, i);
    Plus3(carry, limb, xj * yi, p * q);
    Regroup(xj, yi, low, p, q);
  }

  lemma Regroup(x: int, y: int, low: int, p: int, q: int)
    ensures x * y * (p * q) + x * low * q == x * (low + y * p) * q
  {
    Distribute(x, low, y * p);
    Plus(x * low, x * (y * p), q);
    Assoc(x, y * p, q);
    Assoc(y, p, q);
    Assoc(x, y, p * q);
  }

  /** The end of a row: the last carry and the limbs that did not fit are lost. */
  lemma RowEnd(s: seq<nat>, t: seq<nat>, x: seq<nat>, y: seq<nat>, j: nat, carry: nat, lost: nat) returns (lost': nat)
    requires j <= |s| && Row(s, t, x, y, j, |s| - j, carry) && Product(t, x, y, j, lost)
    ensures Product(s, x, y, j + 1, lost')
  {
    hide Base, InRange;
    var w := |s|;
    var high, low := Val(y[w - j..], j), Val(y, w - j);
    lost' := lost + carry + x[j] * high;
    ValSplit(y, w - j, w);
    BaseAdd(w - j, j);
    RowEndSum(Value(s), Value(t), Val(x, j), x[j], low, high, Base(j), Base(w - j), carry, lost);
  }

  lemma RowEndSum(s: int, t: int, xs: int, xj: int, low: int, high: int, p: int, q: int, carry: int, lost: int)
    requires s + carry * (p * q) == t + xj * low * p
    requires t + lost * (p * q) == xs * (low + high * q)
    ensures s + (lost + carry + xj * high) * (p * q) == (xs + xj * p) * (low + high * q)
  {
    Plus3(lost, carry, xj * high, p * q);
    Plus(xs, xj * p, low + high * q);
    Distribute(xj * p, low, high * q);
    Swap4(xj, high, p, q);
    Swap3(xj, low, p);
  }

  lemma Swap3(a: int, b: int, c: int)
    ensures a * b * c == a * c * b
  {
  }

  lemma Swap4(a: int, b: int, c: int, d: int)
    ensures a * b * (c * d) == a * c * (b * d)
  {
    Assoc(a, b, c * d);
    Assoc(a, c, b * d);
    Assoc(b, c, d);
    Assoc(c, b, d);
  }

  lemma ProductEnd(s: seq<nat>, x: seq<nat>, y: seq<nat>, lost: nat)
    requires Product(s, x, y, |s|, lost)
    ensures InRange(s) && Value(s) == (Value(x) * Value(y)) % Base(|s|)
  {
    CarryOut(s, Value(x) * Value(y), lost);
  }

  // ---------- shifts ----------

  /** The part of a limb that moves into the next limb, and the part that stays. */
  function High(v: nat, shift: nat): nat
    requires shift < 32
  {
    Div(v, Pow2(32 - shift))
  }

  function Low(v: nat, shift: nat): nat {
    (v * Pow2(shift)) % B
  }

  lemma HighLow(v: nat, shift: nat)
    requires v < B && shift < 32
    ensures v * Pow2(shift) == High(v, shift) * B + Low(v, shift)
    ensures High(v, shift) < Pow2(shift) && High(v, 0) == 0
    ensures Low(v, shift) == (v % Pow2(32 - shift)) * Pow2(shift)
  {
    hide Pow2;
    var p, q := Pow2(shift), Pow2(32 - shift);
    assert p * q == B by { Pow2Add(shift, 32 - shift); Pow2Of32(); }
    var h, r := v / q, v % q;
    assert v == h * q + r;
    assert v * p == h * B + r * p by { Plus(h * q, r, p); Assoc(h, q, p); }
    assert r * p < B by { MulLe(r + 1, q, p); Plus1(r, p); }
    assert r * p >= 0 by { MulLe(0, r, p); }
    DivIs(v * p, B, h);
    if h >= p { MulLe(p, h, q); }
    Pow2Of32();
  }

  function Shifted(s: seq<nat>, v: nat, p: nat, shift: nat): seq<nat>
    requires shift < 32
  {
    var t := if p + 1 < |s| && shift != 0 then s[p + 1 := Or(s[p + 1], High(v, shift))] else s;
    if p < |s| then t[p := Or(t[p], Low(v, shift))] else t
  }

  /** s holds the first i limbs of a, shifted left by k limbs and `shift` bits. */
  ghost predicate Shl(s: seq<nat>, a: seq<nat>, i: nat, k: nat, shift: nat, lost: nat) {
    && |s| == |a| && i <= |a| && shift < 32 && InRange(s) && InRange(a)
    && Value(s) + lost * Base(|s|) == Val(a, i) * Pow2(32 * k + shift)
    && (forall m :: i + k < m < |s| ==> s[m] == 0)
    && (i + k < |s| ==> s[i + k] < Pow2(shift))
  }

  lemma ShlStart(s: seq<nat>, a: seq<nat>, k: nat, shift: nat)
    requires |s| == |a| && shift < 32 && InRange(a) && forall m :: 0 <= m < |s| ==> s[m] == 0
    ensures Shl(s, a, 0, k, shift, 0)
  {
    ValZero(s, |s|);
  }

  lemma OrInLimb(x: nat, v: nat, shift: nat)
    requires x < Pow2(shift) && v < B && shift < 32
    ensures Or(x, Low(v, shift)) == x + Low(v, shift) < B
  {
    hide Pow2, Or, High, Low;
    HighLow(v, shift);
    var p, q, r := Pow2(shift), Pow2(32 - shift), v % Pow2(32 - shift);
    assert p * q == B by { Pow2Add(shift, 32 - shift); Pow2Of32(); }
    OrIsPlus(r, x, shift);
    OrComm(x, Low(v, shift));
    MulLe(r + 1, q, p);
    Plus1(r, p);
  }

  /** What one limb adds, and what of it does not fit. */
  lemma ShiftedValue(s: seq<nat>, v: nat, p: nat, shift: nat) returns (out: nat)
    requires InRange(s) && v < B && shift < 32
    requires (p < |s| ==> s[p] < Pow2(shift)) && (p + 1 < |s| ==> s[p + 1] == 0)
    ensures var t := Shifted(s, v, p, shift);
            && |t| == |s| && InRange(t)
            && Value(t) + out * Base(|s|) == Value(s) + v * Pow2(shift) * Base(p)
            && (p + 1 < |s| ==> t[p + 1] < Pow2(shift))
            && (forall m :: p + 1 < m < |s| ==> t[m] == s[m])
  {
    hide Base, Pow2, Or, High, Low, Val;
    HighLow(v, shift);
    var h, l := High(v, shift), Low(v, shift);
    var full := v * Pow2(shift);
    assert full * Base(p)
        == l * Base(p) + h * Base(p + 1) by { BaseStep(p); Plus(h * B, l, Base(p)); Assoc(h, B, Base(p)); }
    if p + 1 < |s| {
      out := 0;
      OrInLimb(s[p], v, shift);
      OrZero(h);
      OrComm(0, h);
      BelowB(h, shift);
      var t := s[p + 1 := h];
      assert shift == 0 ==> s == t;
      ValUpdate(s, p + 1, h, |s|);
      ValUpdate(t, p, t[p] + l, |s|);
    } else if p < |s| {
      out := h;
      OrInLimb(s[p], v, shift);
      ValUpdate(s, p, s[p] + l, |s|);
    } else {
      out := full * Base(p - |s|);
      BaseAdd(p - |s|, |s|);
      Assoc(full, Base(p - |s|), Base(|s|));
      MulLe(0, full, Base(p - |s|));
    }
  }

  lemma BelowB(h: nat, shift: nat)
    requires h < Pow2(shift) && shift < 32
    ensures h < B
  {
    Pow2Le(shift, 32);
    Pow2Of32();
  }

  lemma ShlStep(s: seq<nat>, a: seq<nat>, i: nat, k: nat, shift: nat, lost: nat) returns (lost': nat)
    requires Shl(s, a, i, k, shift, lost) && i < |a|
    ensures Shl(Shifted(s, a[i], i + k, shift), a, i + 1, k, shift, lost')
  {
    hide Pow2, Shifted;
    var out := ShiftedValue(s, a[i], i + k, shift);
    lost' := lost + out;
    Plus(lost, out, Base(|s|));
    assert a[i] * Base(i) * Pow2(32 * k + shift) == a[i] * Pow2(shift) * Base(i + k) by {
      Pow2Add(32 * k, shift);
      BaseAdd(i, k);
      Shuffle(a[i], Base(i), Base(k), Pow2(shift));
    }
    Plus(Val(a, i), a[i] * Base(i), Pow2(32 * k + shift));
  }

  lemma Shuffle(v: int, x: int, y: int, z: int)
    ensures v * x * (y * z) == v * z * (y * x)
  {
    Swap4(v, x, z, y);
  }

  lemma ShlEnd(s: seq<nat>, a: seq<nat>, k: nat, shift: nat, lost: nat)
    requires Shl(s, a, |a|, k, shift, lost)
    ensures InRange(s) && Value(s) == (Value(a) * Pow2(32 * k + shift)) % Base(|s|)
  {
    CarryOut(s, Value(a) * Pow2(32 * k + shift), lost);
  }

  function Down(v: nat, shift: nat): nat {
    DivNat(v, Pow2(shift));
    v / Pow2(shift)
  }

  /** One limb, shifted right into place p and the place below. */
  function ShiftedDown(s: seq<nat>, v: nat, p: int, shift: nat): seq<nat>
    requires shift < 32 && p < |s|
  {
    var t := if p - 1 >= 0 && shift != 0 then s[p - 1 := Or(s[p - 1], Low(v, 32 - shift))] else s;
    if p >= 0 then t[p := Or(t[p], Down(v, shift))] else t
  }

  /** s holds the first i limbs of a, shifted right by k limbs and `shift` bits; the rest is rem. */
  ghost predicate Shr(s: seq<nat>, a: seq<nat>, i: nat, k: nat, shift: nat, rem: nat) {
    && |s| == |a| && i <= |a| && shift < 32 && InRange(s) && InRange(a)
    && Val(a, i) == Value(s) * Pow2(32 * k + shift) + rem
    && rem < (if i <= k then Base(i) else Pow2(32 * k + shift))
    && (forall m :: 0 <= m < |s| && m >= i - k ==> s[m] == 0)
    && (i - k - 1 >= 0 ==> s[i - k - 1] < Pow2(32 - shift))
  }

  lemma ShrStart(s: seq<nat>, a: seq<nat>, k: nat, shift: nat)
    requires |s| == |a| && shift < 32 && InRange(a) && forall m :: 0 <= m < |s| ==> s[m] == 0
    ensures Shr(s, a, 0, k, shift, 0)
  {
    ValZero(s, |s|);
  }

  /** The quotient and remainder of a limb by the bit shift. */
  lemma Halves(v: nat, shift: nat)
    requires v < B && shift < 32
    ensures v / Pow2(shift) < Pow2(32 - shift) && v / Pow2(shift) < B
    ensures v == v / Pow2(shift) * Pow2(shift) + v % Pow2(shift) && v % Pow2(shift) < Pow2(shift)
    ensures shift != 0 ==> Low(v, 32 - shift) == v % Pow2(shift) * Pow2(32 - shift)
    ensures shift == 0 ==> v % Pow2(shift) == 0
  {
    hide Pow2, Low, High;
    var p, q := Pow2(shift), Pow2(32 - shift);
    assert p * q == B by { Pow2Add(shift, 32 - shift); Pow2Of32(); }
    var h := v / p;
    assert v == h * p + v % p;
    if h >= q { MulLe(q, h, p); }
    DivAtMost(v, p);
    if shift != 0 { HighLow(v, 32 - shift); } else { assert p == 1 by { PowZero(); } }
  }

  lemma OrHigh(x: nat, v: nat, shift: nat)
    requires 0 < shift < 32 && x < Pow2(32 - shift) && v < B
    ensures Or(x, Low(v, 32 - shift)) == x + Low(v, 32 - shift) < B
  {
    OrInLimb(x, v, 32 - shift);
  }

  lemma ShiftedDownValue(s: seq<nat>, v: nat, p: nat, shift: nat)
    requires InRange(s) && v < B && shift < 32 && p < |s| && s[p] == 0 && (p >= 1 ==> s[p - 1] < Pow2(32 - shift))
    ensures var t := ShiftedDown(s, v, p, shift);
            && |t| == |s| && InRange(t) && t[p] < Pow2(32 - shift)
            && Value(t) == Value(s) + v / Pow2(shift) * Base(p)
                + (if p >= 1 then v % Pow2(shift) * Pow2(32 - shift) * Base(p - 1) else 0)
            && (forall m :: p < m < |s| ==> t[m] == s[m])
  {
    hide Base, Pow2, Or, Low, Val;
    Halves(v, shift);
    var q := v / Pow2(shift);
    OrZero(q);
    OrComm(0, q);
    if p >= 1 && shift != 0 {
      OrHigh(s[p - 1], v, shift);
      var l := Low(v, 32 - shift);
      ValUpdate(s, p - 1, s[p - 1] + l, |s|);
      ValUpdate(s[p - 1 := s[p - 1] + l], p, q, |s|);
    } else {
      ValUpdate(s, p, q, |s|);
      if p >= 1 { assert v % Pow2(shift) * Pow2(32 - shift) * Base(p - 1) == 0; }
    }
  }

  lemma ShrStep(s: seq<nat>, a: seq<nat>, i: nat, k: nat, shift: nat, rem: nat) returns (rem': nat)
    requires Shr(s, a, i, k, shift, rem) && i < |a|
    ensures Shr(ShiftedDown(s, a[i], i - k, shift), a, i + 1, k, shift, rem')
  {
    if i < k { rem' := ShrBelow(s, a, i, k, shift, rem); }
    else if i == k { rem' := ShrAt(s, a, k, shift, rem); }
    else { ShrAbove(s, a, i, k, shift, rem); rem' := rem; }
  }

  lemma ShrBelow(s: seq<nat>, a: seq<nat>, i: nat, k: nat, shift: nat, rem: nat) returns (rem': nat)
    requires Shr(s, a, i, k, shift, rem) && i < |a| && i < k
    ensures Shr(ShiftedDown(s, a[i], i - k, shift), a, i + 1, k, shift, rem')
  {
    hide Pow2, ShiftedDown, Base, Value;
    rem' := rem + a[i] * Base(i);
    DownBelow(s, a[i], i - k, shift);
    FitsNext(rem, a[i], i);
  }

  lemma ShrAt(s: seq<nat>, a: seq<nat>, k: nat, shift: nat, rem: nat) returns (rem': nat)
    requires Shr(s, a, k, k, shift, rem) && k < |a|
    ensures Shr(ShiftedDown(s, a[k], 0, shift), a, k + 1, k, shift, rem')
  {
    hide Pow2, ShiftedDown, Base, Value;
    var v := a[k];
    var q, r := v / Pow2(shift), v % Pow2(shift);
    Halves(v, shift);
    ShiftedDownValue(s, v, 0, shift);
    rem' := rem + r * Base(k);
    BaseZero();
    RemFits(rem, r, k, shift);
    Plus(Value(s), q, Pow2(32 * k + shift));
    LimbAtK(v, q, r, k, shift);
  }

  lemma ShrAbove(s: seq<nat>, a: seq<nat>, i: nat, k: nat, shift: nat, rem: nat)
    requires Shr(s, a, i, k, shift, rem) && k < i < |a|
    ensures Shr(ShiftedDown(s, a[i], i - k, shift), a, i + 1, k, shift, rem)
  {
    hide Pow2, ShiftedDown, Base, Value;
    var v := a[i];
    var P, q, r := Pow2(32 * k + shift), v / Pow2(shift), v % Pow2(shift);
    Halves(v, shift);
    ShiftedDownValue(s, v, i - k, shift);
    LimbAbove(v, q, r, i, k, shift);
    Plus3(Value(s), q * Base(i - k), r * Pow2(32 - shift) * Base(i - k - 1), P);
  }

  lemma DownBelow(s: seq<nat>, v: nat, p: int, shift: nat)
    requires p < 0 && shift < 32
    ensures ShiftedDown(s, v, p, shift) == s
  {
  }

  lemma FitsNext(rem: nat, v: nat, i: nat)
    requires rem < Base(i) && v < B
    ensures rem + v * Base(i) < Base(i + 1)
  {
    hide Base;
    BaseStep(i);
    MulLe(v + 1, B, Base(i));
    Plus1(v, Base(i));
  }

  lemma RemFits(rem: nat, r: nat, k: nat, shift: nat)
    requires rem < Base(k) && r < Pow2(shift)
    ensures rem + r * Base(k) < Pow2(32 * k + shift)
  {
    Pow2Add(shift, 32 * k);
    MulLe(r + 1, Pow2(shift), Base(k));
    Plus1(r, Base(k));
  }

  lemma LimbAtK(v: nat, q: nat, r: nat, k: nat, shift: nat)
    requires v == q * Pow2(shift) + r
    ensures v * Base(k) == q * Pow2(32 * k + shift) + r * Base(k)
  {
    Pow2Add(shift, 32 * k);
    Plus(q * Pow2(shift), r, Base(k));
    Assoc(q, Pow2(shift), Base(k));
  }

  lemma LimbAbove(v: nat, q: nat, r: nat, i: nat, k: nat, shift: nat)
    requires v == q * Pow2(shift) + r && k < i && shift < 32
    ensures q * Base(i - k) * Pow2(32 * k + shift) + r * Pow2(32 - shift) * Base(i - k - 1) * Pow2(32 * k + shift)
            == v * Base(i)
  {
    hide Pow2;
    Pow2Add(32 * (i - k), 32 * k + shift);
    Pow2Add(shift, 32 * i);
    Pow2Add(32 - shift, 32 * (i - k - 1));
    Pow2Add(32 - shift + 32 * (i - k - 1), 32 * k + shift);
    Assoc(q, Base(i - k), Pow2(32 * k + shift));
    Assoc(q, Pow2(shift), Base(i));
    Assoc(r, Pow2(32 - shift), Base(i - k - 1));
    Assoc(r, Pow2(32 - shift) * Base(i - k - 1), Pow2(32 * k + shift));
    Plus(q * Pow2(shift), r, Base(i));
  }

  lemma ShrEnd(s: seq<nat>, a: seq<nat>, k: nat, shift: nat, rem: nat)
    requires Shr(s, a, |a|, k, shift, rem)
    ensures InRange(s) && Value(s) == Value(a) / Pow2(32 * k + shift)
  {
    hide Val;
    Pow2Le(32 * k, 32 * k + shift);
    if |a| <= k { Pow2Le(32 * |a|, 32 * k); }
    DivIs(Value(a), Pow2(32 * k + shift), Value(s));
  }

  // ---------- division ----------

  lemma LimbBelow(s: seq<nat>, i: nat)
    requires InRange(s) && i < |s|
    ensures s[i] < Pow2(32)
  {
    Pow2Of32();
  }

  lemma TopBit(v: nat, bits: nat)
    requires v < Pow2(bits + 1)
    ensures Down(v, bits) % 2 != 0 <==> v >= Pow2(bits)
  {
    var p := Pow2(bits);
    if v >= p { DivIs(v, p, 1); } else { DivIs(v, p, 0); }
  }

  lemma BitLength(s: seq<nat>, pos: nat, bits: nat)
    requires InRange(s) && pos < |s| && Pow2(bits) <= s[pos] < Pow2(bits + 1) && forall m :: pos < m < |s| ==> s[m] == 0
    ensures Pow2(32 * pos + bits) <= Value(s) < Pow2(32 * pos + bits + 1)
  {
    hide Pow2, InRange;
    TopZero(s, pos + 1, |s|);
    ValBound(s, pos);
    ValStep(s, pos);
    Pow2Add(bits, 32 * pos);
    Pow2Add(bits + 1, 32 * pos);
    MulLe(Pow2(bits), s[pos], Base(pos));
    MulLe(s[pos] + 1, Pow2(bits + 1), Base(pos));
    Plus1(s[pos], Base(pos));
  }

  lemma {:induction false} TopZero(s: seq<nat>, m: nat, n: nat)
    requires m <= n <= |s| && forall i :: m <= i < n ==> s[i] == 0
    ensures Val(s, n) == Val(s, m)
    decreases n
  {
    if m < n { TopZero(s, m, n - 1); }
  }

  lemma TooSmall(x: nat, y: nat, numBits: nat, divBits: nat)
    requires x < Pow2(numBits) && numBits < divBits && Pow2(divBits - 1) <= y
    ensures y != 0 && x / y == 0
  {
    Pow2Le(numBits, divBits - 1);
    DivIs(x, y, 0);
  }

  /** Shifting the divisor up to the length of the dividend loses nothing. */
  lemma Aligned(x: nat, y: nat, numBits: nat, divBits: nat, width: nat)
    requires divBits <= numBits <= 32 * width && 0 < divBits && x < Pow2(numBits)
             && Pow2(divBits - 1) <= y < Pow2(divBits)
    ensures (y * Pow2(numBits - divBits)) % Base(width) == y * Pow2(numBits - divBits)
    ensures x < y * Pow2(numBits - divBits + 1)
  {
    hide Pow2;
    var shift := numBits - divBits;
    Pow2Add(divBits, shift);
    Pow2Add(divBits - 1, shift + 1);
    MulLe(y + 1, Pow2(divBits), Pow2(shift));
    Plus1(y, Pow2(shift));
    Pow2Le(numBits, 32 * width);
    MulLe(0, y, Pow2(shift));
    DivIs(y * Pow2(shift), Base(width), 0);
    MulLe(Pow2(divBits - 1), y, Pow2(shift + 1));
  }

  /** The low n bits are clear. */
  ghost predicate LowClear(s: seq<nat>, n: nat) {
    && (forall m :: 0 <= m < |s| && m < n / 32 ==> s[m] == 0)
    && (n / 32 < |s| ==> s[n / 32] % Pow2(n % 32) == 0)
  }

  /** s times y, and num, make x; the quotient bits from n on are done. */
  ghost predicate Quotient(s: seq<nat>, x: nat, y: nat, num: nat, n: nat) {
    InRange(s) && LowClear(s, n) && x == Value(s) * y + num && num < y * Pow2(n)
  }

  lemma QuotientStart(s: seq<nat>, x: nat, y: nat, shift: nat, width: nat)
    requires |s| == width && InRange(s) && Value(s) == 0 && (forall m :: 0 <= m < |s| ==> s[m] == 0)
             && x < y * Pow2(shift + 1)
    ensures Quotient(s, x, y, x, shift + 1)
  {
    if (shift + 1) / 32 < |s| { ZeroMod(Pow2((shift + 1) % 32)); }
  }

  lemma ZeroMod(p: nat)
    requires p > 0
    ensures 0 % p == 0
  {
    DivIs(0, p, 0);
  }

  lemma HalfPower(v: nat, k: nat) returns (q: nat)
    requires v % Pow2(k + 1) == 0
    ensures v % Pow2(k) == 0 && v == q * Pow2(k + 1)
  {
    DivNat(v, Pow2(k + 1));
    var p := Pow2(k);
    q := v / Pow2(k + 1);
    assert v == q * Pow2(k + 1);
    assert Pow2(k + 1) == 2 * p;
    Assoc(q, 2, p);
    DivIs(v, p, q * 2);
  }

  lemma LowClearLess(s: seq<nat>, n: nat)
    requires LowClear(s, n + 1)
    ensures LowClear(s, n)
  {
    hide Pow2;
    if n / 32 < |s| {
      if n % 32 == 31 {
        ZeroMod(Pow2(31));
      } else {
        assert (n + 1) / 32 == n / 32 && (n + 1) % 32 == n % 32 + 1;
        var _ := HalfPower(s[n / 32], n % 32);
      }
    }
  }

  /** Setting a bit of a limb whose lower bits are clear adds it. */
  lemma SetLimb(v: nat, k: nat)
    requires v < B && k < 32 && (if k == 31 then v == 0 else v % Pow2(k + 1) == 0)
    ensures Or(v, Pow2(k)) == v + Pow2(k) < B && (v + Pow2(k)) % Pow2(k) == 0
  {
    hide Pow2, Or;
    var p := Pow2(k);
    if k == 31 {
      OrZero(p);
      OrComm(0, p);
      DivIs(p, p, 1);
      Pow2Add(1, 31);
      PowOne();
      Pow2Of32();
    } else {
      var c := HalfPower(v, k);
      Double(k);
      OrIsPlus(c, p, k + 1);
      var q := v / p;
      assert v == q * p;
      Plus1(q, p);
      DivIs(v + p, p, q + 1);
      RoomInLimb(c, k);
    }
  }

  lemma Double(k: nat)
    ensures Pow2(k + 1) == 2 * Pow2(k) && Pow2(k) < Pow2(k + 1)
  {
  }

  lemma RoomInLimb(c: nat, k: nat)
    requires k < 31 && c * Pow2(k + 1) < B
    ensures c * Pow2(k + 1) + Pow2(k) < B
  {
    hide Pow2;
    var p, q := Pow2(k + 1), Pow2(31 - k);
    assert p * q == B by { Pow2Add(k + 1, 31 - k); Pow2Of32(); }
    if c >= q { MulLe(q, c, p); }
    MulLe(c + 1, q, p);
    Plus1(c, p);
    Double(k);
  }

  lemma SetBit(s: seq<nat>, shift: nat)
    requires InRange(s) && shift / 32 < |s| && LowClear(s, shift + 1)
    ensures var v: nat := Or(s[shift / 32], Pow2(shift % 32));
            var t := s[shift / 32 := v];
            InRange(t) && LowClear(t, shift) && Value(t) == Value(s) + Pow2(shift)
  {
    hide Pow2, Or;
    var j, k := shift / 32, shift % 32;
    if k < 31 { assert (shift + 1) / 32 == j && (shift + 1) % 32 == k + 1; }
    SetLimb(s[j], k);
    ValUpdate(s, j, s[j] + Pow2(k), |s|);
    Pow2Add(k, 32 * j);
    assert 32 * j + k == shift;
  }

  lemma QuotientSet(s: seq<nat>, x: nat, y: nat, num: nat, shift: nat)
    requires Quotient(s, x, y, num, shift + 1) && shift / 32 < |s| && num >= y * Pow2(shift)
    ensures var v: nat := Or(s[shift / 32], Pow2(shift % 32));
            Quotient(s[shift / 32 := v], x, y, num - y * Pow2(shift), shift)
  {
    hide Pow2, Or, InRange, LowClear, Value;
    SetBit(s, shift);
    Double(shift);
    Assoc(y, 2, Pow2(shift));
    Plus(Value(s), Pow2(shift), y);
  }

  lemma QuotientSkip(s: seq<nat>, x: nat, y: nat, num: nat, shift: nat)
    requires Quotient(s, x, y, num, shift + 1) && num < y * Pow2(shift)
    ensures Quotient(s, x, y, num, shift)
  {
    hide Pow2, Value;
    LowClearLess(s, shift);
  }

  lemma QuotientEnd(s: seq<nat>, x: nat, y: nat, num: nat)
    requires Quotient(s, x, y, num, 0) && y > 0
    ensures InRange(s) && Value(s) == x / y
  {
    hide Value, InRange, LowClear;
    PowZero();
    DivIs(x, y, Value(s));
  }

  lemma NumBound(s: seq<nat>)
    requires InRange(s)
    ensures Value(s) < Base(|s|)
  {
    ValBound(s, |s|);
  }

  lemma SmallSub(s: seq<nat>, n: nat, d: nat)
    requires InRange(s) && d <= n < Base(|s|)
    ensures (n - d) % Base(|s|) == n - d
  {
    DivIs(n - d, Base(|s|), 0);
  }

  lemma HalfOf(y: nat, shift: nat)
    requires shift >= 1
    ensures y * Pow2(shift) / Pow2(1) == y * Pow2(shift - 1)
  {
    Double(shift - 1);
    PowOne();
    Swap3(y, 2, Pow2(shift - 1));
    Assoc(y, Pow2(shift - 1), 2);
    DivIs(y * Pow2(shift), 2, y * Pow2(shift - 1));
  }

  // ---------- 64-bit values ----------

  lemma TwoLimbs(s: seq<nat>)
    requires |s| >= 2 && forall i :: 2 <= i < |s| ==> s[i] == 0
    ensures Value(s) == s[0] + s[1] * B
  {
    hide Base;
    TopZero(s, 2, |s|);
    ValStep(s, 1);
    ValStep(s, 0);
    BaseZero();
    BaseStep(0);
  }

  lemma HighLimb(s: seq<nat>, i: nat)
    requires InRange(s) && 2 <= i < |s| && s[i] != 0
    ensures Value(s) >= B * B
  {
    hide Base;
    ValSplit(s, i, |s|);
    ValSplit(s[i..], 1, |s| - i);
    ValStep(s[i..], 0);
    BaseZero();
    assert s[i..][0] == s[i];
    var high := Val(s[i..], |s| - i);
    assert high >= 1 by { MulLe(0, Val(s[i..][1..], |s| - i - 1), Base(1)); }
    MulLe(1, high, Base(i));
    TwoBase(i);
  }

  lemma TwoBase(i: nat)
    requires i >= 2
    ensures Base(i) >= B * B
  {
    Pow2Le(64, 32 * i);
    Pow2Add(32, 32);
    Pow2Of32();
  }

  lemma Low64Is(s: seq<nat>)
    requires InRange(s) && |s| >= 2
    ensures s[0] + s[1] * B == Value(s) % (B * B)
  {
    hide Val, Base;
    var k := Above64(s, |s|);
    assert s[0] + s[1] * B < B * B;
    DivIs(Value(s), B * B, k);
  }

  /** Limbs above the second weigh a multiple of 2^64. */
  lemma {:induction false} Above64(s: seq<nat>, n: nat) returns (k: nat)
    requires 2 <= n <= |s|
    ensures Val(s, n) == k * (B * B) + s[0] + s[1] * B
  {
    hide Base;
    if n == 2 {
      BaseZero();
      BaseStep(0);
      ValStep(s, 0);
      ValStep(s, 1);
      k := 0;
    } else {
      var j := Above64(s, n - 1);
      BaseStep(n - 3);
      BaseStep(n - 2);
      assert Base(n - 1) == Base(n - 3) * (B * B);
      Assoc(s[n - 1], Base(n - 3), B * B);
      k := j + s[n - 1] * Base(n - 3);
      Plus(j, s[n - 1] * Base(n - 3), B * B);
    }
  }
}
