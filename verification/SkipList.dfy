/** The heights of skip links, and how many links a walk back to a given height takes. */
module SkipList {
  import opened Numbers

  /** Bitwise and. */
  function And(a: nat, b: nat): nat {
    if a == 0 || b == 0 then 0 else (if a % 2 == 1 && b % 2 == 1 then 1 else 0) + 2 * And(a / 2, b / 2)
  }

  lemma {:induction false} AndSelf(a: nat)
    ensures And(a, a) == a
  {
    if a > 0 { AndSelf(a / 2); }
  }

  function InvertLowestOne(n: nat): nat { if n == 0 then 0 else And(n, n - 1) }

  lemma InvertStep(n: nat)
    requires n > 0
    ensures InvertLowestOne(n) == if n % 2 == 1 then n - 1 else 2 * InvertLowestOne(n / 2)
  {
    if n % 2 == 1 {
      AndSelf(n / 2);
      assert (n - 1) / 2 == n / 2;
    } else {
      assert (n - 1) / 2 == n / 2 - 1;
    }
  }

  lemma Twice(a: nat)
    requires a > 0
    ensures InvertLowestOne(2 * a) == 2 * InvertLowestOne(a)
  {
    hide InvertLowestOne;
    DivIs(2 * a, 2, a);
    InvertStep(2 * a);
  }

  lemma TwiceOne(a: nat)
    ensures InvertLowestOne(2 * a + 1) == 2 * a
  {
    hide InvertLowestOne;
    DivIs(2 * a + 1, 2, a);
    InvertStep(2 * a + 1);
  }

  lemma {:induction false} InvertLess(n: nat)
    ensures InvertLowestOne(n) <= n && (n > 0 ==> InvertLowestOne(n) < n)
  {
    hide InvertLowestOne;
    if n > 0 {
      InvertStep(n);
      if n % 2 == 0 { InvertLess(n / 2); }
    } else {
      InvertZero();
    }
  }

  lemma InvertZero()
    ensures InvertLowestOne(0) == 0
  {
  }

  /** The lowest one is the only bit that goes. */
  lemma {:induction false} LowestOneGoes(m: nat, k: nat)
    ensures InvertLowestOne((2 * m + 1) * Pow2(k)) == 2 * m * Pow2(k)
  {
    if k == 0 {
      hide InvertLowestOne;
      TwiceOne(m);
    } else {
      LowestOneGoes(m, k - 1);
      Halves(k);
      hide InvertLowestOne, Pow2;
      var q := Pow2(k - 1);
      Positive(2 * m + 1, q);
      Twice((2 * m + 1) * q);
      Doubled(2 * m + 1, q);
      Doubled(2 * m, q);
    }
  }

  lemma Doubled(a: nat, p: nat)
    ensures a * (2 * p) == 2 * (a * p)
  {
  }

  lemma Positive(a: nat, p: nat)
    requires a > 0 && p > 0
    ensures a * p > 0
  {
  }

  predicate Odd(n: nat) { n % 2 == 1 }

  predicate OnEight(n: nat) { n % 8 == 0 }

  lemma ZeroOnEight()
    ensures OnEight(0)
  {
  }

  lemma OddBefore(z: nat)
    requires Odd(z)
    ensures z > 0 && !Odd(z - 1)
  {
  }

  lemma EvenBefore(z: nat)
    requires !Odd(z)
    ensures !OnEight(z) ==> z >= 2
    ensures z >= 2 ==> !Odd(z - 2) && Odd(z - 1)
  {
  }

  lemma OddNeighbour(n: nat)
    ensures Odd(n + 1) <==> !Odd(n)
    ensures OnEight(n) ==> !Odd(n)
  {
  }

  /** The height to jump back to. */
  function SkipHeight(height: nat): nat {
    if height < 2 then 0
    else if height % 2 == 1 then InvertLowestOne(InvertLowestOne(height - 1)) + 1
    else InvertLowestOne(height)
  }

  /** Skipping goes strictly down. */
  lemma SkipsDown(height: nat)
    requires height > 0
    ensures SkipHeight(height) < height
  {
    hide InvertLowestOne;
    if height >= 2 {
      InvertLess(height - 1);
      InvertLess(height);
      InvertLess(InvertLowestOne(height - 1));
      if height % 2 == 1 && InvertLowestOne(height - 1) == 0 { InvertZero(); }
    }
  }

  // ---------- the walk ----------

  /** From height w on the way to t: the link is followed unless the parent's one is better. */
  function Next(w: nat, t: nat): (n: nat)
    requires t < w
    ensures t <= n < w
  {
    var skip, skipPrev := SkipHeight(w), SkipHeight(w - 1);
    SkipsDown(w);
    if skip == t || (skip > t && !(skipPrev < skip - 2 && skipPrev >= t)) then skip else w - 1
  }

  function Steps(w: nat, t: nat): nat
    requires t <= w
    decreases w
  {
    if t == w then 0 else 1 + Steps(Next(w, t), t)
  }

  lemma StepsMore(w: nat, t: nat)
    requires t < w
    ensures Steps(w, t) == 1 + Steps(Next(w, t), t)
  {
  }

  lemma OneStep(t: nat)
    ensures Steps(t, t) == 0 && Steps(t + 1, t) == 1
  {
    assert Next(t + 1, t) == t;
  }

  lemma OddNext(w: nat, t: nat)
    requires t < w && Odd(w)
    ensures SkipHeight(w) == if w == 1 then 0 else InvertLowestOne(InvertLowestOne(w - 1)) + 1
    ensures Next(w, t) == if SkipHeight(w) >= t then SkipHeight(w) else w - 1
  {
    hide InvertLowestOne;
    if w > 1 { InvertLess(InvertLowestOne(w - 1)); }
  }

  lemma EvenNext(w: nat, t: nat)
    requires t < w && !Odd(w)
    ensures SkipHeight(w) == InvertLowestOne(w)
    ensures var skip, skipPrev := InvertLowestOne(w), SkipHeight(w - 1);
            Next(w, t) == if skip >= t && (skip == t || skipPrev >= skip - 2 || skipPrev < t) then skip else w - 1
  {
    hide InvertLowestOne;
  }

  /** From a multiple of 8 the link is followed whenever it does not lead too far. */
  lemma EightNext(w: nat, t: nat)
    requires t < w && OnEight(w)
    ensures Next(w, t) == if InvertLowestOne(w) >= t then InvertLowestOne(w) else w - 1
    ensures OnEight(InvertLowestOne(w))
  {
    var q := w / 8;
    assert w == 8 * q;
    EightNextAt(q, t);
  }

  lemma EightNextAt(q: nat, t: nat)
    requires t < 8 * q
    ensures Next(8 * q, t) == if InvertLowestOne(8 * q) >= t then InvertLowestOne(8 * q) else 8 * q - 1
    ensures OnEight(InvertLowestOne(8 * q))
  {
    hide InvertLowestOne, SkipHeight, Next;
    EightInvert(q);
    EightBefore(q - 1);
    Times8(q);
    Times8(InvertLowestOne(q));
    EvenNext(8 * q, t);
    OddNext(8 * q - 1, 0);
  }

  lemma EightInvert(q: nat)
    requires q > 0
    ensures InvertLowestOne(8 * q) == 8 * InvertLowestOne(q) <= 8 * q - 8
  {
    hide InvertLowestOne;
    Twice(4 * q);
    Twice(2 * q);
    Twice(q);
    InvertLess(q);
  }

  lemma EightBefore(q: nat)
    ensures InvertLowestOne(InvertLowestOne(8 * q + 6)) == 8 * q
  {
    hide InvertLowestOne;
    EightInverts(q);
  }

  // ---------- heights by their bits ----------

  /** The lowest m bits of b are zero. */
  predicate Aligned(b: nat, m: nat) { m == 0 || (b % 2 == 0 && Aligned(b / 2, m - 1)) }

  lemma {:induction false} AlignedLess(b: nat, m: nat)
    requires Aligned(b, m + 1)
    ensures Aligned(b, m) && Aligned(b + Pow2(m), m)
    decreases m
  {
    if m > 0 {
      AlignedLess(b / 2, m - 1);
      assert (b + Pow2(m)) / 2 == b / 2 + Pow2(m - 1);
    }
  }

  lemma {:induction false} AlignedZero(m: nat)
    ensures Aligned(0, m)
  {
    if m > 0 { AlignedZero(m - 1); }
  }

  lemma AlignedEight(b: nat, m: nat)
    requires Aligned(b, m) && m >= 3
    ensures OnEight(b)
  {
    var c := b / 2;
    var d := c / 2;
    assert Aligned(c, m - 1) && Aligned(d, m - 2);
    var e := d / 2;
    assert b == 2 * c && c == 2 * d && d == 2 * e;
    Times8(e);
  }

  lemma Times8(q: nat)
    ensures 8 * q % 8 == 0 && 8 * q / 8 == q && 8 * q % 2 == 0
  {
    DivIs(8 * q, 8, q);
    DivIs(8 * q, 2, 4 * q);
  }

  lemma {:induction false} PowEight(m: nat)
    requires m >= 3
    ensures OnEight(Pow2(m)) && Pow2(m) >= 8
    decreases m
  {
    if m > 3 {
      PowEight(m - 1);
      EightTwice(Pow2(m - 1));
    } else {
      assert Pow2(3) == 2 * Pow2(2) && Pow2(2) == 2 * Pow2(1) && Pow2(1) == 2;
    }
  }

  lemma EightTwice(a: nat)
    requires OnEight(a)
    ensures OnEight(2 * a)
  {
    Times8(2 * (a / 8));
  }

  /** Bits above the lowest one do not matter. */
  lemma {:induction false} InvertAbove(b: nat, z: nat, m: nat)
    requires Aligned(b, m) && 0 < z < Pow2(m)
    ensures InvertLowestOne(b + z) == b + InvertLowestOne(z)
    decreases m
  {
    hide InvertLowestOne;
    InvertStep(z);
    InvertStep(b + z);
    if z % 2 == 0 {
      InvertAbove(b / 2, z / 2, m - 1);
      assert (b + z) / 2 == b / 2 + z / 2;
    }
  }

  lemma {:induction false} InvertPow(k: nat)
    ensures InvertLowestOne(Pow2(k)) == 0
  {
    hide InvertLowestOne;
    InvertStep(Pow2(k));
    if k > 0 { InvertPow(k - 1); }
  }

  /** How many bits are set. */
  function Ones(n: nat): nat { if n == 0 then 0 else n % 2 + Ones(n / 2) }

  lemma {:induction false} OnesInvert(n: nat)
    requires n > 0
    ensures Ones(InvertLowestOne(n)) == Ones(n) - 1
  {
    hide InvertLowestOne;
    InvertStep(n);
    if n % 2 == 1 {
      assert (n - 1) / 2 == n / 2;
    } else {
      OnesInvert(n / 2);
      var k := InvertLowestOne(n / 2);
      assert 2 * k / 2 == k;
    }
  }

  lemma {:induction false} OnesBelow(n: nat, m: nat)
    requires n < Pow2(m)
    ensures Ones(n) <= m
    decreases m
  {
    if n > 0 { OnesBelow(n / 2, m - 1); }
  }

  lemma OnesEven(n: nat)
    requires !Odd(n)
    ensures Ones(n) == Ones(n / 2)
  {
  }

  lemma NoOnes(n: nat)
    ensures Ones(n) == 0 <==> n == 0
  {
    if n > 0 { OnesInvert(n); }
  }

  /** Inverting keeps multiples of a power of two what they are. */
  lemma InvertEven(n: nat)
    requires !Odd(n)
    ensures !Odd(InvertLowestOne(n))
  {
    hide InvertLowestOne;
    if n > 0 { InvertStep(n); } else { InvertZero(); }
  }

  // ---------- the bounds ----------

  /** Steps within 2^m aligned heights, from an odd one. */
  function FromOdd(m: nat): nat { if m <= 3 then 4 else FromOdd(m - 1) + (m + 3) / 2 }

  function Max(a: nat, b: nat): nat { if a < b then b else a }

  /** Steps within 2^m aligned heights. */
  function FromAny(m: nat): nat {
    if m <= 3 then 4 else Max(FromAny(m - 1), FromOdd(m - 1) + Max(m - 3, (m - 2) / 2 + 3))
  }

  // ---------- crossing the middle ----------

  /** The middle of 2^m aligned heights from b. */
  function Mid(b: nat, m: nat): nat
    requires m > 0
  {
    b + Pow2(m - 1)
  }

  function Between(b: nat, x: nat, y: nat): nat
    requires y <= x
  {
    Steps(b + x, b + y)
  }

  /** What is known of the lower half. */
  ghost predicate LowerKnown(b: nat, m: nat) {
    forall x, y :: 0 <= y <= x < Pow2(m) && Odd(x) ==> Between(b, x, y) <= FromOdd(m)
  }

  lemma MidFacts(b: nat, m: nat)
    requires Aligned(b, m) && m >= 4
    ensures Aligned(Mid(b, m), m - 1) && InvertLowestOne(Mid(b, m)) == b && Mid(b, m) >= b + 8
  {
    hide InvertLowestOne, Aligned;
    AlignedLess(b, m - 1);
    InvertAbove(b, Pow2(m - 1), m);
    InvertPow(m - 1);
    PowEight(m - 1);
  }

  /** A height above the middle ends in the same three bits. */
  lemma MidEight(b: nat, m: nat, z: nat)
    requires Aligned(b, m) && m >= 4
    ensures (OnEight(Mid(b, m) + z) <==> OnEight(z)) && (Odd(Mid(b, m) + z) <==> Odd(z))
  {
    hide Aligned;
    AlignedEight(b, m);
    PowEight(m - 1);
    EightSum(b, Pow2(m - 1));
    EightSum(Mid(b, m), z);
  }

  lemma FromMid(b: nat, m: nat, y: nat)
    requires Aligned(b, m) && m >= 4 && y < Pow2(m - 1) && LowerKnown(b, m - 1)
    ensures Steps(Mid(b, m), b + y) <= 1 + FromOdd(m - 1)
  {
    hide InvertLowestOne, Aligned, Next, FromOdd, Steps, Odd, OnEight;
    MidFacts(b, m);
    var w, t := Mid(b, m), b + y;
    MidEight(b, m, 0);
    ZeroOnEight();
    EightNext(w, t);
    StepsMore(w, t);
    if y == 0 {
      OneStep(b);
    } else {
      PowEight(m - 1);
      OddNeighbour(Pow2(m - 1) - 1);
      OddNeighbour(Pow2(m - 1));
      assert Between(b, Pow2(m - 1) - 1, y) <= FromOdd(m - 1);
    }
  }

  /** With one bit left above the middle, the middle is next. */
  lemma LastBit(b: nat, m: nat, u: nat, y: nat)
    requires Aligned(b, m) && m >= 4 && 2 <= y < Pow2(m - 1) && LowerKnown(b, m - 1)
    requires !Odd(u) && 0 < u < Pow2(m - 1) && InvertLowestOne(u) == 0
    ensures Steps(Mid(b, m) + u, b + y) <= 2 + FromOdd(m - 1)
  {
    hide InvertLowestOne, Aligned, Next, FromOdd, Steps, LowerKnown, SkipHeight, Mid, Odd, OnEight;
    MidFacts(b, m);
    var w, t := Mid(b, m) + u, b + y;
    MidIs(b, m);
    InvertAbove(Mid(b, m), u, m - 1);
    StepsMore(w, t);
    FromMid(b, m, y);
    assert Next(w, t) == Mid(b, m) by {
      MidEight(b, m, u);
      if OnEight(u) {
        EightNext(w, t);
      } else {
        EvenNext(w, t);
        SmallBit(u);
        BeforeSmall(b, m, u);
        InvertLess(b);
      }
    }
  }

  lemma EightSum(a: nat, u: nat)
    requires OnEight(a)
    ensures (Odd(a + u) <==> Odd(u)) && (OnEight(a + u) <==> OnEight(u))
  {
    var q := a / 8;
    DivIs(a + u, 8, q + u / 8);
    DivIs(a + u, 2, 4 * q + u / 2);
  }

  lemma MidIs(b: nat, m: nat)
    requires m > 0
    ensures Mid(b, m) == b + Pow2(m - 1)
  {
  }

  lemma SmallBit(u: nat)
    requires !Odd(u) && !OnEight(u) && InvertLowestOne(u) == 0
    ensures u == 2 || u == 4
  {
    hide InvertLowestOne;
    FurtherBefore(u);
  }

  lemma BeforeSmall(b: nat, m: nat, u: nat)
    requires Aligned(b, m) && m >= 4 && (u == 2 || u == 4)
    ensures SkipHeight(Mid(b, m) + u - 1) <= b + 1
  {
    hide InvertLowestOne, Aligned, Next, Mid;
    MidFacts(b, m);
    var w := Mid(b, m) + u - 1;
    assert Odd(w) by { MidEight(b, m, u - 1); }
    OddNext(w, 0);
    InvertLess(b);
    if u == 4 {
      PowEight(m - 1);
      InvertAbove(Mid(b, m), 2, m - 1);
      InvertStep(2);
      InvertStep(1);
    }
  }

  /** From an odd height above the middle: two bits go with every link. */
  lemma {:induction false} ChainOdd(b: nat, m: nat, z: nat, y: nat)
    requires Aligned(b, m) && m >= 4 && y < Pow2(m - 1) && LowerKnown(b, m - 1)
    requires Odd(z) && z < Pow2(m - 1)
    ensures Steps(Mid(b, m) + z, b + y) <= (Ones(z - 1) + 1) / 2 + 2 + FromOdd(m - 1)
    decreases z
  {
    hide InvertLowestOne, Aligned, Next, FromOdd, Steps, LowerKnown, SkipHeight, Mid, Ones, Odd, OnEight;
    OddBefore(z);
    MidFacts(b, m);
    MidIs(b, m);
    var mid, u := Mid(b, m), z - 1;
    var w, t := mid + z, b + y;
    assert Odd(w) by { MidEight(b, m, z); }
    OddNext(w, t);
    StepsMore(w, t);
    InvertLess(b);
    OneStep(t);
    NoOnes(u);
    if u == 0 {
      FromMid(b, m, y);
    } else {
      var v := InvertLowestOne(u);
      InvertAbove(mid, u, m - 1);
      OnesInvert(u);
      InvertLess(u);
      InvertEven(u);
      if v == 0 {
        NoOnes(v);
        if y >= 2 { LastBit(b, m, u, y); }
      } else {
        InvertAbove(mid, v, m - 1);
        OnesInvert(v);
        InvertLess(v);
        InvertEven(v);
        OddNeighbour(InvertLowestOne(v));
        ChainOdd(b, m, InvertLowestOne(v) + 1, y);
      }
    }
  }

  lemma EightStays(z: nat)
    requires z > 0 && OnEight(z)
    ensures OnEight(InvertLowestOne(z))
  {
    hide InvertLowestOne;
    EightInvert(z / 8);
  }

  /** From a multiple of 8 above the middle: one bit goes with every link. */
  lemma {:induction false} ChainEight(b: nat, m: nat, z: nat, y: nat)
    requires Aligned(b, m) && m >= 4 && y < Pow2(m - 1) && LowerKnown(b, m - 1)
    requires OnEight(z) && z < Pow2(m - 1)
    ensures Steps(Mid(b, m) + z, b + y) <= Ones(z) + 1 + FromOdd(m - 1)
    decreases z
  {
    hide InvertLowestOne, Aligned, Next, FromOdd, Steps, LowerKnown, SkipHeight, Mid, Ones;
    MidFacts(b, m);
    MidIs(b, m);
    if z == 0 {
      FromMid(b, m, y);
    } else {
      var w, t := Mid(b, m) + z, b + y;
      MidEight(b, m, z);
      EightNext(w, t);
      StepsMore(w, t);
      InvertAbove(Mid(b, m), z, m - 1);
      OnesInvert(z);
      InvertLess(z);
      EightStays(z);
      ChainEight(b, m, InvertLowestOne(z), y);
    }
  }

  lemma OnesEight(q: nat, r: nat)
    requires r < 8
    ensures Ones(8 * q + r) == Ones(q) + Ones(r)
  {
    hide Ones;
    var h := r / 2;
    var k := h / 2;
    assert h < 4 && k < 2 && k / 2 == 0;
    OnesHalf(4 * q, r);
    OnesHalf(2 * q, h);
    OnesHalf(q, k);
    NoOnes(0);
  }

  lemma OnesHalf(a: nat, r: nat)
    ensures Ones(2 * a + r) == Ones(a + r / 2) + r % 2 && Ones(r) == Ones(r / 2) + r % 2
  {
    DivIs(2 * a + r, 2, a + r / 2);
  }

  /** Even and not a multiple of 8: the link of the height before leads further, if bits are left. */
  lemma FurtherBefore(z: nat)
    requires !Odd(z) && !OnEight(z)
    ensures InvertLowestOne(z) == if z % 8 == 4 then z - 4 else z - 2
    ensures z % 8 == 4 ==> InvertLowestOne(z - 2) == z - 4
    ensures InvertLowestOne(z - 2) > 0 ==> InvertLowestOne(InvertLowestOne(z - 2)) + 1 < InvertLowestOne(z) - 2
  {
    hide InvertLowestOne;
    var q, r := z / 8, z % 8;
    assert z == 8 * q + r;
    EvenRest(q, r);
    FurtherAt(q, r);
  }

  lemma EvenRest(q: nat, r: nat)
    requires 0 < r < 8 && (8 * q + r) % 2 == 0
    ensures r == 2 || r == 4 || r == 6
  {
    var h := r / 2;
    DivIs(8 * q + r, 2, 4 * q + h);
  }

  lemma FurtherAt(q: nat, r: nat)
    requires r == 2 || r == 4 || r == 6
    ensures InvertLowestOne(8 * q + r) == 8 * q + (if r == 6 then 4 else 0)
    ensures r == 4 ==> InvertLowestOne(8 * q + r - 2) == 8 * q
    ensures var v := InvertLowestOne(8 * q + r - 2); v > 0 ==> InvertLowestOne(v) + 1 < InvertLowestOne(8 * q + r) - 2
  {
    hide InvertLowestOne;
    EightInverts(q);
    InvertLess(q);
    InvertLess(InvertLowestOne(q));
    if q > 0 { EightInvert(q); } else { InvertZero(); }
    if InvertLowestOne(q) > 0 { EightInvert(InvertLowestOne(q)); }
  }

  lemma EightInverts(q: nat)
    ensures InvertLowestOne(8 * q + 2) == 8 * q && InvertLowestOne(8 * q + 4) == 8 * q
    ensures InvertLowestOne(8 * q + 6) == 8 * q + 4
  {
    hide InvertLowestOne;
    Twice(4 * q + 1);
    TwiceOne(2 * q);
    Twice(4 * q + 2);
    Twice(2 * q + 1);
    TwiceOne(q);
    Twice(4 * q + 3);
    TwiceOne(2 * q + 1);
  }

  /** Of the two bits below bit 3 only one is set before such a height. */
  lemma OnesBefore(z: nat, m: nat)
    requires !Odd(z) && !OnEight(z) && m >= 4 && z < Pow2(m - 1)
    ensures Ones(z - 2) <= m - 3
  {
    hide Ones, Pow2;
    var q, r := (z - 2) / 8, (z - 2) % 8;
    assert z - 2 == 8 * q + r;
    OnesEight(q, r);
    Eighth(m - 1);
    OnesBelow(q, m - 4);
    BeforeEight(z);
    OnesSmall();
  }

  lemma BeforeEight(z: nat)
    requires !Odd(z) && !OnEight(z)
    ensures var r := (z - 2) % 8; r == 0 || r == 2 || r == 4
  {
    var q, r := z / 8, z % 8;
    EvenRest(q, r);
    DivIs(z - 2, 8, q);
  }

  lemma OnesSmall()
    ensures Ones(0) == 0 && Ones(2) == 1 && Ones(4) == 1
  {
    assert Ones(1) == 1;
    assert Ones(2) == Ones(1);
  }

  lemma Eighth(m: nat)
    requires m >= 3
    ensures Pow2(m) == 8 * Pow2(m - 3)
  {
    assert Pow2(m) == 2 * Pow2(m - 1);
    assert Pow2(m - 1) == 2 * Pow2(m - 2);
  }

  /** What the height before w leads to. */
  lemma BeforeEven(b: nat, m: nat, z: nat)
    requires Aligned(b, m) && m >= 4 && !Odd(z) && 2 <= z < Pow2(m - 1)
    ensures SkipHeight(Mid(b, m) + z - 1) ==
            (if z == 2 then InvertLowestOne(b)
             else if InvertLowestOne(z - 2) == 0 then b
             else Mid(b, m) + InvertLowestOne(InvertLowestOne(z - 2))) + 1
  {
    hide InvertLowestOne, Aligned, Next, Mid, SkipHeight, Odd, OnEight;
    EvenBefore(z);
    MidFacts(b, m);
    var mid, u := Mid(b, m), z - 2;
    assert Odd(mid + u + 1) by { MidEight(b, m, u + 1); }
    OddNext(mid + u + 1, 0);
    if u > 0 {
      InvertAbove(mid, u, m - 1);
      InvertLess(u);
      if InvertLowestOne(u) > 0 { InvertAbove(mid, InvertLowestOne(u), m - 1); }
    }
  }

  lemma FarBefore(z: nat)
    requires !Odd(z) && !OnEight(z) && z > 2 && InvertLowestOne(z - 2) > 0
    ensures InvertLowestOne(InvertLowestOne(z - 2)) + 1 < InvertLowestOne(z) - 2
  {
    hide InvertLowestOne, Odd, OnEight;
    FurtherBefore(z);
  }

  lemma EvenMid(b: nat, m: nat, z: nat, t: nat)
    requires Aligned(b, m) && m >= 4 && !Odd(z) && 2 < z < Pow2(m - 1) && t < Mid(b, m) + z - 1
    ensures var w := Mid(b, m) + z;
            var skip, skipPrev := Mid(b, m) + InvertLowestOne(z), SkipHeight(w - 1);
            && Next(w, t) == (if skip >= t && (skip == t || skipPrev >= skip - 2 || skipPrev < t) then skip else w - 1)
            && Next(w - 1, t) == if skipPrev >= t then skipPrev else w - 2
  {
    hide InvertLowestOne, Aligned, Next, SkipHeight, Mid, Pow2, Odd, OnEight;
    var w := Mid(b, m) + z;
    assert !Odd(w) && Odd(w - 1) by {
      MidEight(b, m, z);
      OddNeighbour(w - 1);
    }
    MidFacts(b, m);
    EvenNext(w, t);
    OddNext(w - 1, t);
    InvertAbove(Mid(b, m), z, m - 1);
  }

  lemma EvenTwice(b: nat, m: nat, z: nat, y: nat)
    requires Aligned(b, m) && m >= 4 && y < Pow2(m - 1)
    requires !Odd(z) && !OnEight(z) && 2 < z < Pow2(m - 1) && InvertLowestOne(z - 2) > 0
    ensures var w := Mid(b, m) + z; Next(w, b + y) == w - 1
    ensures Next(Mid(b, m) + z - 1, b + y) == Mid(b, m) + InvertLowestOne(InvertLowestOne(z - 2)) + 1
  {
    hide InvertLowestOne, Aligned, Next, SkipHeight, Mid, Pow2, Odd, OnEight;
    MidIs(b, m);
    EvenMid(b, m, z, b + y);
    BeforeEven(b, m, z);
    FarBefore(z);
  }

  lemma ChainEven(b: nat, m: nat, z: nat, y: nat)
    requires Aligned(b, m) && m >= 4 && y < Pow2(m - 1) && LowerKnown(b, m - 1)
    requires !Odd(z) && !OnEight(z) && z < Pow2(m - 1)
    ensures Steps(Mid(b, m) + z, b + y) <= (m - 2) / 2 + 3 + FromOdd(m - 1)
  {
    hide InvertLowestOne, Aligned, Next, FromOdd, Steps, LowerKnown, Mid, Pow2, Odd, OnEight;
    EvenBefore(z);
    if z > 2 && InvertLowestOne(z - 2) > 0 {
      EvenTwice(b, m, z, y);
      TwoBits(b, m, z, y);
    } else {
      FewBits(b, m, z, y);
    }
  }

  /** The height before takes two bits at once. */
  lemma TwoBits(b: nat, m: nat, z: nat, y: nat)
    requires Aligned(b, m) && m >= 4 && y < Pow2(m - 1) && LowerKnown(b, m - 1)
    requires !Odd(z) && !OnEight(z) && 2 < z < Pow2(m - 1) && InvertLowestOne(z - 2) > 0
    requires var w := Mid(b, m) + z; Next(w, b + y) == w - 1
    requires Next(Mid(b, m) + z - 1, b + y) == Mid(b, m) + InvertLowestOne(InvertLowestOne(z - 2)) + 1
    ensures Steps(Mid(b, m) + z, b + y) <= (m - 2) / 2 + 3 + FromOdd(m - 1)
  {
    hide InvertLowestOne, Aligned, Next, FromOdd, Steps, LowerKnown, SkipHeight, Mid, Ones, Odd, OnEight;
    EvenBefore(z);
    MidFacts(b, m);
    MidIs(b, m);
    var u := z - 2;
    var v := InvertLowestOne(u);
    StepsMore(Mid(b, m) + z, b + y);
    StepsMore(Mid(b, m) + z - 1, b + y);
    InvertLess(u);
    InvertLess(v);
    InvertEven(u);
    InvertEven(v);
    OddNeighbour(InvertLowestOne(v));
    OnesInvert(u);
    OnesInvert(v);
    OnesBefore(z, m);
    ChainOdd(b, m, InvertLowestOne(v) + 1, y);
  }

  lemma FewBits(b: nat, m: nat, z: nat, y: nat)
    requires Aligned(b, m) && m >= 4 && y < Pow2(m - 1) && LowerKnown(b, m - 1)
    requires !Odd(z) && !OnEight(z) && z < Pow2(m - 1) && (z == 2 || InvertLowestOne(z - 2) == 0)
    ensures Steps(Mid(b, m) + z, b + y) <= 3 + FromOdd(m - 1)
  {
    hide InvertLowestOne, Aligned, Next, FromOdd, Steps, LowerKnown, SkipHeight, Mid, Ones, Odd, OnEight;
    EvenBefore(z);
    MidFacts(b, m);
    MidIs(b, m);
    FewIs(z);
    var mid := Mid(b, m);
    var w, t := mid + z, b + y;
    StepsMore(w, t);
    StepsMore(w - 1, t);
    FewNext(b, m, z, y);
    if Next(w, t) == w - 1 {
      OneStep(t);
    } else if InvertLowestOne(z) == 0 {
      FromMid(b, m, y);
    } else {
      LastBit(b, m, z - 2, y);
    }
  }

  lemma FewIs(z: nat)
    requires !Odd(z) && !OnEight(z) && (z == 2 || InvertLowestOne(z - 2) == 0)
    ensures InvertLowestOne(z) == 0 || (InvertLowestOne(z) == z - 2 > 0 && InvertLowestOne(z - 2) == 0)
  {
    hide InvertLowestOne;
    FurtherBefore(z);
  }

  lemma FewNext(b: nat, m: nat, z: nat, y: nat)
    requires Aligned(b, m) && m >= 4 && y < Pow2(m - 1)
    requires !Odd(z) && !OnEight(z) && z < Pow2(m - 1) && (z == 2 || InvertLowestOne(z - 2) == 0)
    ensures var w, t := Mid(b, m) + z, b + y;
            if Next(w, t) == w - 1 then Next(w - 1, t) <= t + 1
            else Next(w, t) == Mid(b, m) + InvertLowestOne(z) && (InvertLowestOne(z) != 0 ==> y >= 2)
  {
    hide InvertLowestOne, Aligned, Next, SkipHeight, Mid, Odd, OnEight;
    EvenBefore(z);
    MidFacts(b, m);
    MidIs(b, m);
    FewIs(z);
    var mid := Mid(b, m);
    var w, t := mid + z, b + y;
    assert !Odd(w) && Odd(w - 1) by {
      MidEight(b, m, z);
      OddNeighbour(w - 1);
    }
    EvenNext(w, t);
    OddNext(w - 1, t);
    InvertAbove(mid, z, m - 1);
    InvertLess(b);
    InvertLess(z);
    BeforeEven(b, m, z);
  }

  // ---------- the last eight heights ----------

  lemma EightHeights(b: nat)
    requires OnEight(b)
    ensures SkipHeight(b + 2) == b && SkipHeight(b + 4) == b && SkipHeight(b + 6) == b + 4
    ensures SkipHeight(b + 3) == InvertLowestOne(b) + 1 == SkipHeight(b + 5) && SkipHeight(b + 7) == b + 1
    ensures InvertLowestOne(b) <= b
  {
    hide InvertLowestOne, SkipHeight;
    var q := b / 8;
    assert b == 8 * q;
    EightInverts(q);
    EvenSkip(4 * q + 1);
    EvenSkip(4 * q + 2);
    EvenSkip(4 * q + 3);
    OddSkip(4 * q + 1);
    OddSkip(4 * q + 2);
    OddSkip(4 * q + 3);
    InvertLess(b);
  }

  lemma EvenSkip(k: nat)
    requires k > 0
    ensures SkipHeight(2 * k) == InvertLowestOne(2 * k)
  {
    hide InvertLowestOne;
  }

  lemma OddSkip(k: nat)
    requires k > 0
    ensures SkipHeight(2 * k + 1) == InvertLowestOne(InvertLowestOne(2 * k)) + 1
  {
    hide InvertLowestOne;
  }

  /** Steps within eight aligned heights. */
  function Few(x: nat, y: nat): nat
    requires y <= x < 8
  {
    [[0], [1, 0], [1, 1, 0], [2, 2, 1, 0], [1, 3, 2, 1, 0], [2, 4, 3, 2, 1, 0], [3, 4, 3, 2, 1, 1, 0],
     [2, 1, 4, 3, 2, 2, 1, 0]][x][y]
  }

  lemma {:induction false} WithinEight(b: nat, x: nat, y: nat)
    requires OnEight(b) && y <= x < 8
    ensures Steps(b + x, b + y) <= Few(x, y)
    decreases x
  {
    hide InvertLowestOne, SkipHeight, Next, Steps, Few;
    var w, t := b + x, b + y;
    OneStep(t);
    if y < x {
      NextInEight(b, x, y);
      StepsMore(w, t);
      var n := Next(w, t) - b;
      if x == 6 && n == 5 && y <= 4 {
        StepsMore(w - 1, t);
        FewEnd(y);
      } else {
        WithinEight(b, n, y);
        FewMore(x, y, n);
      }
    } else {
      FewNone(x);
    }
  }

  lemma FewNone(x: nat)
    requires x < 8
    ensures Few(x, x) == 0
  {
  }

  lemma FewEnd(y: nat)
    requires y <= 1
    ensures Few(6, y) >= 3
  {
  }

  /** The link is followed to n, or the parent is. */
  predicate InEight(x: nat, y: nat, n: nat) {
    && y <= n < x
    && if x == 1 then n == 0
       else if x == 7 then n == if y <= 1 then 1 else 6
       else if x == 6 then n == 4 || n == 5
       else if x == 3 || x == 5 then n <= 1 || n == x - 1
       else n == if y == 0 then 0 else x - 1
  }

  lemma NextInEight(b: nat, x: nat, y: nat)
    requires OnEight(b) && y < x < 8
    ensures Next(b + x, b + y) >= b && InEight(x, y, Next(b + x, b + y) - b)
    ensures x == 6 && y <= 4 && Next(b + x, b + y) == b + 5 ==> Next(b + 5, b + y) <= b + 1
    ensures x == 6 && y == 5 ==> Next(b + x, b + y) == b + 5
  {
    hide InvertLowestOne, SkipHeight, Next;
    var w, t := b + x, b + y;
    EightHeights(b);
    EightSum(b, x);
    if Odd(x) { OddNext(w, t); } else { EvenNext(w, t); }
    if x == 6 && y <= 4 {
      EightSum(b, 5);
      OddNext(b + 5, t);
    }
  }

  lemma FewMore(x: nat, y: nat, n: nat)
    requires y < x < 8 && InEight(x, y, n) && (x == 6 && n == 5 ==> y == 5)
    ensures 1 + Few(n, y) <= Few(x, y)
  {
  }

  lemma FewIsFew(x: nat, y: nat)
    requires y <= x < 8
    ensures Few(x, y) <= 4
  {
  }

  // ---------- within aligned heights ----------

  lemma Halves(m: nat)
    requires m > 0
    ensures Pow2(m) == 2 * Pow2(m - 1)
  {
  }

  lemma {:induction false} OddWithin(b: nat, m: nat, x: nat, y: nat)
    requires Aligned(b, m) && m >= 3 && y <= x < Pow2(m) && Odd(x)
    ensures Steps(b + x, b + y) <= FromOdd(m)
    decreases m, 0
  {
    hide Aligned, Steps, Ones, Pow2, LowerKnown, Few, Mid;
    if m == 3 {
      Eighth(3);
      PowZero();
      AlignedEight(b, 3);
      WithinEight(b, x, y);
      FewIsFew(x, y);
    } else {
      var h := Pow2(m - 1);
      Halves(m);
      MidIs(b, m);
      AlignedLess(b, m - 1);
      PowEight(m - 1);
      if x >= h { EightSum(h, x - h); }
      if x < h {
        OddWithin(b, m - 1, x, y);
      } else if y >= h {
        OddWithin(b + h, m - 1, x - h, y - h);
      } else {
        LowerHalf(b, m - 1);
        ChainOdd(b, m, x - h, y);
        OnesOdd(x - h, m);
      }
    }
  }

  lemma OnesOdd(z: nat, m: nat)
    requires Odd(z) && m >= 4 && z < Pow2(m - 1)
    ensures Ones(z - 1) <= m - 2
  {
    hide Ones, Pow2;
    Halves(m - 1);
    var h := z / 2;
    DivIs(z - 1, 2, h);
    OnesEven(z - 1);
    OnesBelow(h, m - 2);
  }

  lemma {:induction false} LowerHalf(b: nat, m: nat)
    requires Aligned(b, m) && m >= 3
    ensures LowerKnown(b, m)
    decreases m, 1
  {
    hide Aligned, Steps, FromOdd;
    forall x, y | 0 <= y <= x < Pow2(m) && Odd(x) ensures Between(b, x, y) <= FromOdd(m) { OddWithin(b, m, x, y); }
  }

  lemma {:induction false} AnyWithin(b: nat, m: nat, x: nat, y: nat)
    requires Aligned(b, m) && m >= 3 && y <= x < Pow2(m)
    ensures Steps(b + x, b + y) <= FromAny(m)
    decreases m
  {
    hide Aligned, Steps, Ones, FromOdd, Pow2, LowerKnown, Few, OnEight;
    if m == 3 {
      Eighth(3);
      PowZero();
      AlignedEight(b, 3);
      WithinEight(b, x, y);
      FewIsFew(x, y);
    } else {
      var h := Pow2(m - 1);
      Halves(m);
      MidIs(b, m);
      AlignedLess(b, m - 1);
      PowEight(m - 1);
      if x < h {
        AnyWithin(b, m - 1, x, y);
      } else if y >= h {
        AnyWithin(b + h, m - 1, x - h, y - h);
      } else {
        LowerHalf(b, m - 1);
        FromUpper(b, m, x - h, y);
      }
    }
  }

  lemma FromUpper(b: nat, m: nat, z: nat, y: nat)
    requires Aligned(b, m) && m >= 4 && y < Pow2(m - 1) && z < Pow2(m - 1) && LowerKnown(b, m - 1)
    ensures Steps(Mid(b, m) + z, b + y) <= FromOdd(m - 1) + Max(m - 3, (m - 2) / 2 + 3)
  {
    hide Aligned, Steps, Ones, FromOdd, LowerKnown, Mid;
    if Odd(z) {
      ChainOdd(b, m, z, y);
      OnesOdd(z, m);
    } else if OnEight(z) {
      ChainEight(b, m, z, y);
      var q := z / 8;
      assert z == 8 * q;
      OnesEight(q, 0);
      OnesSmall();
      Eighth(m - 1);
      OnesBelow(q, m - 4);
    } else {
      ChainEven(b, m, z, y);
    }
  }

  /** From below 2^m, any lower height is reached in about m^2 / 4 steps. */
  lemma StepsBound(w: nat, t: nat, m: nat)
    requires t <= w < Pow2(m) && m >= 3
    ensures Steps(w, t) <= FromAny(m) && 4 * Steps(w, t) <= m * m + 10 * m
  {
    hide Steps, FromAny;
    AlignedZero(m);
    AnyWithin(0, m, w, t);
    FromAnyIs(m);
  }

  lemma {:induction false} FromAnyIs(m: nat)
    requires m >= 3
    ensures 4 * FromAny(m) <= m * m + 10 * m
    decreases m
  {
    hide FromOdd;
    if m > 3 {
      FromAnyIs(m - 1);
      FromOddIs(m - 1);
      Square(m);
    }
  }

  lemma {:induction false} FromOddIs(m: nat)
    requires m >= 3
    ensures 4 * FromOdd(m) <= m * m + 8 * m - 16
    decreases m
  {
    if m > 3 {
      FromOddIs(m - 1);
      Square(m);
    }
  }

  lemma Square(m: nat)
    requires m > 0
    ensures m * m == (m - 1) * (m - 1) + 2 * m - 1
  {
  }

  lemma FromAny18()
    ensures FromAny(18) == 110
  {
    assert FromOdd(5) == 11 && FromOdd(7) == 20 && FromOdd(9) == 31;
    assert FromOdd(11) == 44 && FromOdd(13) == 59 && FromOdd(15) == 76 && FromOdd(17) == 95;
    assert FromAny(6) == 16 && FromAny(8) == 26 && FromAny(10) == 38;
    assert FromAny(12) == 53 && FromAny(14) == 70 && FromAny(16) == 89;
  }

  /** At most 110 steps below height 2^18. */
  lemma Steps110(w: nat, t: nat)
    requires t <= w < 0x4_0000
    ensures Steps(w, t) <= 110
  {
    hide Steps;
    Eighth(18);
    Eighth(15);
    Eighth(12);
    Eighth(9);
    Eighth(6);
    Eighth(3);
    StepsBound(w, t, 18);
    FromAny18();
  }
}
