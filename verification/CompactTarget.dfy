/** The compact form of a target and the trust of a block. */
module CompactTarget {
  import opened ArithUint256
  import opened Limbs
  import opened Numbers

  const WIDTH := 8

  function Size(c: nat): nat { c / 0x100_0000 }

  function Word(c: nat): nat { c % 0x80_0000 }

  predicate Sign(c: nat) { c / 0x80_0000 % 2 == 1 }

  /** The number a compact form stands for, however large. */
  function Exact(c: nat): nat {
    if Size(c) <= 3 then Down(Word(c), 8 * (3 - Size(c))) else Word(c) * Pow2(8 * (Size(c) - 3))
  }

  // ---------- decoding ----------

  lemma Overflows(c: nat)
    ensures Exact(c) >= Pow2(256) <==>
            Size(c) > 3 && Word(c) != 0
                && (Size(c) > 34 || (Word(c) > 0xff && Size(c) > 33) || (Word(c) > 0xffff && Size(c) > 32))
  {
    hide Pow2;
    var n, w := Size(c), Word(c);
    if n <= 3 {
      SmallExact(c);
    } else {
      Compare(w, 8 * (n - 3));
    }
  }

  lemma SmallExact(c: nat)
    requires Size(c) <= 3
    ensures Exact(c) < 0x80_0000 < Pow2(256)
  {
    var p := Pow2(8 * (3 - Size(c)));
    DivAtMost(Word(c), p);
    PowSmall();
    Pow2Le(24, 256);
  }

  lemma PowSmall()
    ensures Pow2(8) == 0x100 && Pow2(16) == 0x1_0000 && Pow2(23) == 0x80_0000 && Pow2(24) == 0x100_0000
            && Pow2(15) == 0x8000
  {
    assert Pow2(8) == 0x100;
    Pow2Add(8, 8);
    Pow2Add(8, 16);
    assert Pow2(24) == 2 * Pow2(23) && Pow2(16) == 2 * Pow2(15);
  }

  /** w shifted left reaches bit 256 exactly if it has the bits. */
  lemma Compare(w: nat, k: nat)
    requires w < 0x80_0000 && k % 8 == 0
    ensures w * Pow2(k) >= Pow2(256) <==> w != 0 && (k >= 256 || (k == 248 && w > 0xff) || (k == 240 && w > 0xffff))
  {
    hide Pow2;
    PowSmall();
    if w == 0 {
    } else if k >= 256 {
      Pow2Le(256, k);
      MulLe(1, w, Pow2(k));
    } else if k == 248 {
      Pow2Add(8, 248);
      if w >= 256 { MulLe(256, w, Pow2(248)); } else { MulLess(w, 256, Pow2(248)); }
    } else if k == 240 {
      Pow2Add(16, 240);
      if w >= 0x1_0000 { MulLe(0x1_0000, w, Pow2(240)); } else { MulLess(w, 0x1_0000, Pow2(240)); }
    } else {
      Pow2Add(23, k);
      MulLess(w, 0x80_0000, Pow2(k));
      Pow2Le(23 + k, 256);
    }
  }

  lemma MulLess(x: int, y: int, b: int)
    requires x < y && b > 0
    ensures x * b < y * b
  {
    MulLe(x + 1, y, b);
    Plus1(x, b);
  }

  method SetCompact(x: BaseUint, c: nat) returns (negative: bool, overflow: bool)
    requires x.Valid() && x.pn.Length == WIDTH && c < B
    modifies x.pn
    ensures x.Valid() && x.Num() == Exact(c) % Pow2(256)
    ensures overflow <==> Exact(c) >= Pow2(256)
    ensures negative <==> Sign(c) && Exact(c) != 0
  {
    hide Pow2, Value, Val, InRange;
    var size := Size(c);
    var word := Word(c);
    Overflows(c);
    if size <= 3 {
      word := Down(word, 8 * (3 - size));
      SmallExact(c);
      x.Assign(word);
      DivIs(word, Pow2(256), 0);
    } else {
      x.Assign(word);
      x.ShiftLeft(8 * (size - 3));
      NonZero(word, Pow2(8 * (size - 3)));
    }
    negative := word != 0 && Sign(c);
    overflow := word != 0 && (size > 34 || (word > 0xff && size > 33) || (word > 0xffff && size > 32));
  }

  lemma NonZero(w: nat, p: nat)
    requires p > 0
    ensures w * p == 0 <==> w == 0
  {
    if w > 0 { MulLe(1, w, p); }
  }

  // ---------- encoding ----------

  /** c is an encoding of v: never more, and less by at most one part in 2^15; and exactly v
      if v is a 23-bit number times a power of 256. */
  ghost predicate Encodes(v: nat, c: nat) {
    && Exact(c) <= v && (v - Exact(c)) * 0x8000 <= v
    && (forall w, j :: 0 <= w < 0x80_0000 && 0 <= j && Times(w, j) == v ==> Exact(c) == v)
  }

  function Times(w: nat, j: nat): nat { w * Pow2(8 * j) }

  /** Cutting off e bytes of a number of more than 8 * e + 15 bits. */
  lemma Truncated(v: nat, e: nat)
    requires e == 0 || v >= Pow2(8 * e + 15)
    ensures var y := Down(v, 8 * e) * Pow2(8 * e);
            && y <= v && (v - y) * 0x8000 <= v
            && (forall w, j :: 0 <= w < 0x80_0000 && 0 <= j && Times(w, j) == v ==> y == v)
  {
    hide Pow2;
    var p := Pow2(8 * e);
    var q, r := v / p, v % p;
    assert v == q * p + r;
    PowSmall();
    if e == 0 {
      PowZero();
    } else {
      Pow2Add(15, 8 * e);
      MulLe(r, p, 0x8000);
      forall w, j | 0 <= w < 0x80_0000 && 0 <= j && Times(w, j) == v ensures r == 0 { Divides(w, j, e, v); }
    }
  }

  lemma Divides(w: nat, j: nat, e: nat, v: nat)
    requires w < 0x80_0000 && Times(w, j) == v >= Pow2(8 * e + 15)
    ensures v % Pow2(8 * e) == 0
  {
    hide Pow2;
    PowSmall();
    if j < e {
      Pow2Add(23, 8 * j);
      MulLess(w, 0x80_0000, Pow2(8 * j));
      Pow2Le(8 * j + 23, 8 * e + 15);
      assert false;
    } else {
      Pow2Add(8 * (j - e), 8 * e);
      Assoc(w, Pow2(8 * (j - e)), Pow2(8 * e));
      DivIs(v, Pow2(8 * e), w * Pow2(8 * (j - e)));
    }
  }

  /** The top three bytes of a number of `size` bytes. */
  function Mantissa(v: nat, size: nat): nat {
    if size <= 3 then v * Pow2(8 * (3 - size)) else Down(v, 8 * (size - 3))
  }

  /** v has exactly `size` bytes. */
  ghost predicate Bytes(v: nat, size: nat) {
    v < Pow2(8 * size) && (size > 0 ==> v >= Pow2(8 * (size - 1)))
  }

  lemma MantissaFits(v: nat, size: nat)
    requires Bytes(v, size)
    ensures Mantissa(v, size) < 0x100_0000
    ensures size > 3 ==> Mantissa(v, size) * Pow2(8 * (size - 3)) <= v && Mantissa(v, size) >= 0x1_0000
  {
    hide Pow2;
    PowSmall();
    if size <= 3 {
      Pow2Add(8 * size, 8 * (3 - size));
      MulLess(v, Pow2(8 * size), Pow2(8 * (3 - size)));
    } else {
      var p := Pow2(8 * (size - 3));
      var q := v / p;
      assert v == q * p + v % p;
      Pow2Add(24, 8 * (size - 3));
      Pow2Add(16, 8 * (size - 3));
      if q >= 0x100_0000 { MulLe(0x100_0000, q, p); }
      if q < 0x1_0000 { MulLe(q + 1, 0x1_0000, p); Plus1(q, p); }
    }
  }

  lemma DownDown(v: nat, a: nat, b: nat)
    ensures Down(Down(v, a), b) == Down(v, a + b)
  {
    hide Pow2;
    var p, q := Pow2(a), Pow2(b);
    Pow2Add(a, b);
    var x := v / p;
    var y := x / q;
    assert v == x * p + v % p;
    assert x == y * q + x % q;
    var r := x % q;
    Plus(y * q, r, p);
    Assoc(y, q, p);
    MulLe(r + 1, q, p);
    Plus1(r, p);
    MulLe(0, r, p);
    DivIs(v, p * q, y);
  }

  lemma UpDown(v: nat, a: nat, b: nat)
    requires b <= a
    ensures Down(v * Pow2(a), b) == v * Pow2(a - b)
  {
    hide Pow2;
    Pow2Add(a - b, b);
    Assoc(v, Pow2(a - b), Pow2(b));
    DivIs(v * Pow2(a), Pow2(b), v * Pow2(a - b));
  }

  /** The sign bit would be set: one byte less of the number is kept. */
  function FinalSize(v: nat, size: nat): nat { if Mantissa(v, size) >= 0x80_0000 then size + 1 else size }

  function FinalWord(v: nat, size: nat): nat { if Mantissa(v, size) >= 0x80_0000 then Down(Mantissa(v, size), 8)
                     else Mantissa(v, size) }

  function Kept(v: nat, size: nat): nat { if FinalSize(v, size) <= 3 then 0 else FinalSize(v, size) - 3 }

  lemma FinalFits(v: nat, size: nat)
    requires Bytes(v, size)
    ensures FinalWord(v, size) < 0x80_0000
    ensures var e := Kept(v, size); e == 0 || v >= Pow2(8 * e + 15)
  {
    hide Pow2;
    MantissaFits(v, size);
    PowSmall();
    var m, e := Mantissa(v, size), Kept(v, size);
    if m >= 0x80_0000 {
      DivIs(m, 0x100, m / 0x100);
      if size > 3 {
        Pow2Add(23, 8 * (size - 3));
        MulLe(0x80_0000, m, Pow2(8 * (size - 3)));
        assert 8 * e + 15 == 8 * (size - 3) + 23;
      } else if size == 3 {
        PowZero();
        assert 8 * e + 15 == 23;
      }
    } else if size > 3 {
      Pow2Le(8 * e + 15, 8 * (size - 1));
    }
  }

  /** The word and size say how much of v is left. */
  lemma FinalExact(v: nat, c: nat, size: nat)
    requires Bytes(v, size) && Size(c) == FinalSize(v, size) && Word(c) == FinalWord(v, size)
    ensures Exact(c) == Down(v, 8 * Kept(v, size)) * Pow2(8 * Kept(v, size))
  {
    hide Pow2, Down, Word, Size;
    var m, e := Mantissa(v, size), Kept(v, size);
    PowZero();
    DownZero(v);
    if m >= 0x80_0000 {
      if size > 3 {
        DownDown(v, 8 * (size - 3), 8);
      } else if size == 3 {
      } else {
        UpDown(v, 8 * (3 - size), 8);
        UpDown(v, 8 * (2 - size), 8 * (2 - size));
      }
    } else if size <= 3 {
      UpDown(v, 8 * (3 - size), 8 * (3 - size));
    }
  }

  lemma DownZero(v: nat)
    ensures Down(v, 0) == v
  {
  }

  /** Putting the parts together. */
  lemma Assembled(m: nat, size: nat, sign: bool)
    requires m < 0x80_0000
    ensures var c := m + size * 0x100_0000 + (if sign then 0x80_0000 else 0);
            Size(c) == size && Word(c) == m && (Sign(c) <==> sign)
  {
    var c := m + size * 0x100_0000 + (if sign then 0x80_0000 else 0);
    DivIs(c, 0x100_0000, size);
    DivIs(c, 0x80_0000, 2 * size + (if sign then 1 else 0));
  }

  lemma OrParts(m: nat, size: nat, sign: bool)
    requires m < 0x80_0000
    ensures Or(m, size * 0x100_0000) == m + size * 0x100_0000
    ensures Or(m + size * 0x100_0000, 0x80_0000) == m + size * 0x100_0000 + 0x80_0000
  {
    hide Or, Pow2;
    PowSmall();
    OrIsPlus(size, m, 24);
    OrComm(m, size * 0x100_0000);
    var c := m + size * 0x100_0000;
    OrThree(size, m);
  }

  /** The three parts have no bits in common. */
  lemma OrThree(size: nat, m: nat)
    requires m < 0x80_0000
    ensures Or(m + size * 0x100_0000, 0x80_0000) == m + size * 0x100_0000 + 0x80_0000
  {
    hide Or, Pow2;
    PowSmall();
    OrIsPlus(2 * size, m, 23);
    OrIsPlus(2 * size + 1, m, 23);
    OrIsPlus(1, m, 23);
    OrMiddle(m, 23, size);
  }

  lemma {:induction false} OrMiddle(m: nat, k: nat, size: nat)
    requires m < Pow2(k)
    ensures Or(m + 2 * size * Pow2(k), Pow2(k)) == m + 2 * size * Pow2(k) + Pow2(k)
    decreases k
  {
    hide Or;
    var p := Pow2(k);
    if k == 0 {
      assert 2 * size * p == 2 * size;
      OrOdd(2 * size);
    } else {
      var h := Pow2(k - 1);
      assert p == 2 * h;
      hide Pow2;
      Assoc(2 * size, 2, h);
      Assoc(2, 2 * size, h);
      var b := 2 * size * h;
      assert 2 * size * p == 2 * b;
      MulLe(0, 2 * size, h);
      OrMiddle(m / 2, k - 1, size);
      OrDouble(m, m / 2 + b, h);
    }
  }

  lemma OrOdd(a: nat)
    requires a % 2 == 0
    ensures Or(a, 1) == a + 1
  {
    OrZero(a / 2);
  }

  lemma OrDouble(m: nat, a: nat, h: nat)
    requires h > 0 && Or(a, h) == a + h
    ensures Or(2 * a + m % 2, 2 * h) == 2 * a + m % 2 + 2 * h
  {
    var x := 2 * a + m % 2;
    assert x / 2 == a && x % 2 == m % 2;
  }

  method TopBytes(x: BaseUint) returns (size: nat, compact: nat)
    requires x.Valid() && x.pn.Length == WIDTH
    ensures size <= 32 && Bytes(x.Num(), size) && compact == Mantissa(x.Num(), size)
  {
    hide Pow2, Value, Val, InRange, Down;
    ghost var v := x.Num();
    var bits := x.Bits();
    size := (bits + 7) / 8;
    if bits > 0 { Pow2Le(bits, 8 * size); Pow2Le(8 * (size - 1), bits - 1); } else { PowZero(); }
    assert Bytes(v, size);
    MantissaFits(v, size);
    if size <= 3 {
      Pow2Le(8 * size, 24);
      PowSmall();
      var low := x.GetLow64();
      compact := low * Pow2(8 * (3 - size));
    } else {
      var bn := new BaseUint.Copy(x);
      bn.ShiftRight(8 * (size - 3));
      assert bn.Num() == Mantissa(v, size) by { DownIs(v, 8 * (size - 3)); }
      compact := bn.GetLow64();
    }
  }

  lemma DownIs(v: nat, k: nat)
    ensures Down(v, k) == v / Pow2(k)
  {
  }

  lemma FinalEncodes(v: nat, c: nat, size: nat)
    requires Bytes(v, size) && Size(c) == FinalSize(v, size) && Word(c) == FinalWord(v, size)
    ensures Encodes(v, c)
  {
    hide Pow2, Down, Times, Exact, FinalSize, FinalWord, Size, Word, Bytes, Kept;
    FinalFits(v, size);
    FinalExact(v, c, size);
    Truncated(v, Kept(v, size));
  }

  method GetCompact(x: BaseUint, fNegative: bool) returns (c: nat)
    requires x.Valid() && x.pn.Length == WIDTH
    ensures c < B && Encodes(x.Num(), c) && (Sign(c) <==> fNegative && Word(c) != 0)
  {
    hide Pow2, Value, Val, InRange, Or, Bytes, Encodes, Mantissa, Size, Word, Sign;
    ghost var v := x.Num();
    var size, compact := TopBytes(x);
    ghost var bytes := size;
    MantissaFits(v, size);
    FinalFits(v, size);
    PowSmall();
    if compact / 0x80_0000 % 2 != 0 {
      compact := compact / 0x100;
      size := size + 1;
    }
    assert compact == FinalWord(v, bytes) && size == FinalSize(v, bytes);
    ghost var m := compact;
    OrParts(m, size, fNegative);
    Assembled(m, size, false);
    Assembled(m, size, true);
    compact := Or(compact, size * 0x100_0000);
    if fNegative && Word(compact) != 0 { compact := Or(compact, 0x80_0000); }
    FinalEncodes(v, compact, bytes);
    c := compact;
  }

  /** A target that goes through the compact form loses at most one part in 2^15, never
      grows, and keeps its value if it came from a compact form. */
  method ThroughCompact(x: BaseUint) returns (y: BaseUint, negative: bool, overflow: bool)
    requires x.Valid() && x.pn.Length == WIDTH
    ensures !negative && !overflow
    ensures y.Valid() && y.Num() <= x.Num() && (x.Num() - y.Num()) * 0x8000 <= x.Num()
    ensures forall c :: 0 <= c && Exact(c) == x.Num() ==> y.Num() == x.Num()
  {
    hide Pow2, Value, Val, InRange, Exact;
    var c := GetCompact(x, false);
    y := new BaseUint.Zero(WIDTH);
    negative, overflow := SetCompact(y, c);
    Below256(x.pn[..]);
    DivIs(Exact(c), Pow2(256), 0);
    forall d | 0 <= d && Exact(d) == x.Num() ensures y.Num() == x.Num() { ExactIsTimes(d); }
  }

  lemma Below256(s: seq<nat>)
    requires InRange(s) && |s| == WIDTH
    ensures Value(s) < Pow2(256)
  {
    NumBound(s);
  }

  /** Every compact form stands for a 23-bit number times a power of 256. */
  lemma ExactIsTimes(c: nat)
    ensures exists w, j :: 0 <= w < 0x80_0000 && 0 <= j && Times(w, j) == Exact(c)
  {
    if Size(c) <= 3 {
      SmallExact(c);
      assert Times(Exact(c), 0) == Exact(c);
    } else {
      assert Times(Word(c), Size(c) - 3) == Exact(c);
    }
  }

  // ---------- block trust ----------

  /** How many hashes a target is worth: computed without the one bit too many. */
  lemma TrustFormula(t: nat, m: nat)
    requires t + 1 <= m
    ensures (m - 1 - t) / (t + 1) + 1 == m / (t + 1)
  {
    var q := m / (t + 1);
    assert m == q * (t + 1) + m % (t + 1);
    assert (q - 1) * (t + 1) == q * (t + 1) - (t + 1);
    DivIs(m - 1 - t, t + 1, q - 1);
  }

  method GetBlockTrust(nBits: nat, isProofOfStake: bool) returns (trust: BaseUint)
    requires nBits < B
    ensures trust.Valid() && trust.pn.Length == WIDTH
    ensures trust.Num() == if Sign(nBits) || Exact(nBits) >= Pow2(256) || Exact(nBits) == 0 then 0
                           else if isProofOfStake then Pow2(256) / (Exact(nBits) + 1) else 1
  {
    hide Pow2, Value, Val, InRange, Exact, Sign;
    var target := new BaseUint.Zero(WIDTH);
    var negative, overflow := SetCompact(target, nBits);
    ghost var t := Exact(nBits);
    if !overflow { DivIs(t, Pow2(256), 0); }
    var zero := target.EqualTo(0);
    trust := new BaseUint.Zero(WIDTH);
    if negative || overflow || zero { return; }
    var one := new BaseUint.Zero(WIDTH);
    one.Assign(1);
    if !isProofOfStake { return one; }
    TargetRoom(nBits);
    trust := Worth(target, one);
  }

  method Worth(target: BaseUint, one: BaseUint) returns (trust: BaseUint)
    requires target.Valid() && one.Valid() && target.pn.Length == one.pn.Length == WIDTH
    requires one.Num() == 1 <= target.Num() && target.Num() + 1 < Pow2(256)
    ensures fresh(trust) && trust.Valid() && trust.pn.Length == WIDTH && trust.Num() == Pow2(256) / (target.Num() + 1)
  {
    hide Pow2, Value, Val, InRange;
    ghost var t := target.Num();
    trust := target.Invert();
    var next := new BaseUint.Copy(target);
    next.Add(one);
    DivIs(t + 1, Pow2(256), 0);
    var _ := trust.Divide(next);
    TrustFormula(t, Pow2(256));
    trust.Add(one);
    TrustFits(t, Pow2(256));
  }

  lemma TrustFits(t: nat, m: nat)
    requires 1 <= t && t + 1 <= m
    ensures (m / (t + 1)) % m == m / (t + 1)
  {
    var q := m / (t + 1);
    assert m == q * (t + 1) + m % (t + 1);
    MulLe(2, t + 1, q);
    DivNat(m, t + 1);
    DivIs(q, m, 0);
  }

  /** No compact form is all ones, so the target plus one does not wrap. */
  lemma TargetRoom(c: nat)
    requires Exact(c) < Pow2(256)
    ensures Exact(c) + 1 < Pow2(256)
  {
    hide Pow2;
    if Size(c) <= 3 {
      SmallExact(c);
    } else {
      EvenPower(8 * (Size(c) - 3));
      EvenPower(256);
      var h := Pow2(8 * (Size(c) - 3) - 1);
      Assoc(Word(c), h, 2);
    }
  }

  lemma EvenPower(k: nat)
    requires k > 0
    ensures Pow2(k) == Pow2(k - 1) * 2
  {
  }
}
