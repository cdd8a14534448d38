/** The rolling Bloom filter: every position holds the generation that last touched it, and
    starting a generation forgets the oldest one.  The generations are stored as two bits in
    two parallel 64-bit words. */
module RollingBloom {
  import Numbers

  /** 0 is unset; generations are 1, 2 and 3. */
  datatype Filter = Filter(gens: seq<nat>, gen: nat, count: nat, perGeneration: nat)

  ghost predicate Valid(f: Filter) {
    1 <= f.gen <= 3 && forall p :: 0 <= p < |f.gens| ==> f.gens[p] <= 3
  }

  ghost predicate Fits(ps: seq<nat>, n: nat) {
    forall i :: 0 <= i < |ps| ==> ps[i] < n
  }

  function Wiped(gens: seq<nat>, g: nat): (r: seq<nat>)
    ensures |r| == |gens|
  {
    seq(|gens|, p requires 0 <= p < |gens| => if gens[p] == g then 0 else gens[p])
  }

  function NextGen(gen: nat): nat { if gen + 1 == 4 then 1 else gen + 1 }

  /** Starts a new generation if the current one is full. */
  function Advance(f: Filter): Filter {
    if f.count != f.perGeneration then f
    else Filter(Wiped(f.gens, NextGen(f.gen)), NextGen(f.gen), 0, f.perGeneration)
  }

  /** The first n of the positions are set. */
  function Marked(gens: seq<nat>, ps: seq<nat>, n: nat, g: nat): (r: seq<nat>)
    requires n <= |ps| && Fits(ps, |gens|)
    ensures |r| == |gens|
  {
    if n == 0 then gens else Marked(gens, ps, n - 1, g)[ps[n - 1] := g]
  }

  function Inserted(f: Filter, ps: seq<nat>): (r: Filter)
    requires Fits(ps, |f.gens|)
    ensures |r.gens| == |f.gens|
  {
    var a := Advance(f);
    a.(count := a.count + 1, gens := Marked(a.gens, ps, |ps|, a.gen))
  }

  predicate Found(f: Filter, ps: seq<nat>)
    requires Fits(ps, |f.gens|)
  {
    forall i :: 0 <= i < |ps| ==> f.gens[ps[i]] != 0
  }

  // ---------- the last insertions are found ----------

  /** How many generations ago. */
  function Age(g: nat, gen: nat): nat
    requires 1 <= g <= 3 && 1 <= gen <= 3
  {
    (gen + 3 - g) % 3
  }

  ghost predicate Young(gens: seq<nat>, gen: nat, p: nat, age: nat)
    requires 1 <= gen <= 3
  {
    p < |gens| && 1 <= gens[p] <= 3 && Age(gens[p], gen) <= age
  }

  /** How old the trace of an insertion that was d insertions ago can be. */
  function AgeOf(f: Filter, d: nat): nat {
    if d < f.count then 0 else if d < f.count + f.perGeneration then 1 else 2
  }

  /** Every recent insertion left its trace in a recent generation. */
  ghost predicate Remembers(f: Filter, past: seq<seq<nat>>) {
    && Valid(f)
    && forall i, k :: 0 <= i < |past| && 0 <= k < |past[i]| && |past| - 1 - i < f.count + 2 * f.perGeneration ==>
         Young(f.gens, f.gen, past[i][k], AgeOf(f, |past| - 1 - i))
  }

  lemma AdvanceRemembers(f: Filter, past: seq<seq<nat>>)
    requires Remembers(f, past)
    ensures Remembers(Advance(f), past)
  {
    if f.count == f.perGeneration {
      var a := Advance(f);
      forall i, k | 0 <= i < |past| && 0 <= k < |past[i]| && |past| - 1 - i < a.count + 2 * a.perGeneration
        ensures Young(a.gens, a.gen, past[i][k], AgeOf(a, |past| - 1 - i))
      {
        assert Young(f.gens, f.gen, past[i][k], AgeOf(f, |past| - 1 - i));
      }
    }
  }

  lemma {:induction false} MarkedAt(gens: seq<nat>, ps: seq<nat>, n: nat, g: nat, p: nat)
    requires n <= |ps| && Fits(ps, |gens|) && p < |gens|
    ensures Marked(gens, ps, n, g)[p] == if p in ps[..n] then g else gens[p]
  {
    if n > 0 {
      MarkedAt(gens, ps, n - 1, g, p);
      assert ps[..n] == ps[..n - 1] + [ps[n - 1]];
    }
  }

  lemma MarkRemembers(f: Filter, past: seq<seq<nat>>, ps: seq<nat>)
    requires Remembers(f, past) && Fits(ps, |f.gens|)
    ensures Remembers(f.(count := f.count + 1, gens := Marked(f.gens, ps, |ps|, f.gen)), past + [ps])
  {
    hide Marked;
    var m := Marked(f.gens, ps, |ps|, f.gen);
    var r, all := f.(count := f.count + 1, gens := m), past + [ps];
    assert ps[..|ps|] == ps;
    forall p | 0 <= p < |m| ensures m[p] == if p in ps then f.gen
        else f.gens[p] { MarkedAt(f.gens, ps, |ps|, f.gen, p); }
    forall i, k | 0 <= i < |all| && 0 <= k < |all[i]| && |all| - 1 - i < r.count + 2 * r.perGeneration
      ensures Young(r.gens, r.gen, all[i][k], AgeOf(r, |all| - 1 - i))
    {
      if i < |past| {
        assert Young(f.gens, f.gen, past[i][k], AgeOf(f, |past| - 1 - i));
      } else {
        assert ps[k] in ps;
      }
    }
  }

  function Fresh(size: nat, perGeneration: nat): Filter {
    Filter(seq(size, _ => 0), 1, 0, perGeneration)
  }

  /** A filter of `size` positions after a run of insertions. */
  function Fed(size: nat, perGeneration: nat, past: seq<seq<nat>>): (f: Filter)
    requires forall i :: 0 <= i < |past| ==> Fits(past[i], size)
    ensures |f.gens| == size && f.perGeneration == perGeneration
    decreases |past|
  {
    if past == [] then Fresh(size, perGeneration)
    else Inserted(Fed(size, perGeneration, past[..|past| - 1]), past[|past| - 1])
  }

  lemma {:induction false} FedRemembers(size: nat, perGeneration: nat, past: seq<seq<nat>>)
    requires forall i :: 0 <= i < |past| ==> Fits(past[i], size)
    ensures var f := Fed(size, perGeneration, past); Remembers(f, past) && (past != [] ==> f.count > 0)
    decreases |past|
  {
    hide Remembers, Marked, Fits;
    if past == [] {
      FreshRemembers(size, perGeneration);
    } else {
      var front, last := past[..|past| - 1], past[|past| - 1];
      FedRemembers(size, perGeneration, front);
      var f := Fed(size, perGeneration, front);
      AdvanceRemembers(f, front);
      MarkRemembers(Advance(f), front, last);
      assert front + [last] == past;
    }
  }

  lemma FreshRemembers(size: nat, perGeneration: nat)
    ensures Remembers(Fresh(size, perGeneration), [])
  {
  }

  /** One of the last nElements insertions is always found, and in fact one of the last
      2 * perGeneration + 1. */
  lemma RecentIsFound(size: nat, nElements: nat, past: seq<seq<nat>>, i: nat)
    requires (forall j :: 0 <= j < |past| ==> Fits(past[j], size)) && i < |past|
    requires |past| - 1 - i < nElements || |past| - 1 - i <= 2 * ((nElements + 1) / 2)
    ensures Found(Fed(size, (nElements + 1) / 2, past), past[i])
  {
    var per := (nElements + 1) / 2;
    FedRemembers(size, per, past);
    var f := Fed(size, per, past);
    forall k | 0 <= k < |past[i]| ensures f.gens[past[i][k]] != 0 {
      assert Young(f.gens, f.gen, past[i][k], AgeOf(f, |past| - 1 - i));
    }
  }

  /** Starting a generation forgets exactly what only the oldest generation touched. */
  lemma WipesOldest(f: Filter, p: nat)
    requires Valid(f) && p < |f.gens| && f.count == f.perGeneration
    ensures Advance(f).gens[p] == if f.gens[p] != 0 && Age(f.gens[p], f.gen) == 2 then 0 else f.gens[p]
    ensures Valid(Advance(f))
  {
  }

  // ---------- two bits in two words ----------

  const ONES: bv64 := 0xFFFF_FFFF_FFFF_FFFF

  predicate Bit(w: bv64, b: bv6) { (w >> b) & 1 == 1 }

  // The word operations by name, so that proofs can treat them as opaque.

  function And(v: bv64, w: bv64): bv64 { v & w }

  function Or(v: bv64, w: bv64): bv64 { v | w }

  function Xor(v: bv64, w: bv64): bv64 { v ^ w }

  function Hole(b: bv6): bv64 { !(1 << b) }

  function Alone(v: bv64, b: bv6): bv64 { v << b }

  lemma RawAnd(v: bv64, w: bv64, b: bv6)
    ensures Bit(v & w, b) == (Bit(v, b) && Bit(w, b))
  {
  }

  lemma BitAnd(v: bv64, w: bv64, b: bv6)
    ensures Bit(And(v, w), b) == (Bit(v, b) && Bit(w, b))
  {
    hide Bit;
    RawAnd(v, w, b);
  }

  lemma RawOr(v: bv64, w: bv64, b: bv6)
    ensures Bit(v | w, b) == (Bit(v, b) || Bit(w, b))
  {
  }

  lemma BitOr(v: bv64, w: bv64, b: bv6)
    ensures Bit(Or(v, w), b) == (Bit(v, b) || Bit(w, b))
  {
    hide Bit;
    RawOr(v, w, b);
  }

  lemma RawXor(v: bv64, w: bv64, b: bv6)
    ensures Bit(v ^ w, b) == (Bit(v, b) != Bit(w, b))
  {
  }

  lemma BitXor(v: bv64, w: bv64, b: bv6)
    ensures Bit(Xor(v, w), b) == (Bit(v, b) != Bit(w, b))
  {
    hide Bit;
    RawXor(v, w, b);
  }

  lemma BitConst(b: bv6)
    ensures !Bit(0, b) && Bit(ONES, b)
  {
  }

  lemma BitHole(b: bv6, c: bv6)
    ensures Bit(Hole(b), c) == (c != b)
  {
  }

  lemma BitAlone(v: bv64, b: bv6, c: bv6)
    requires v <= 1
    ensures Bit(Alone(v, b), c) == (c == b && v == 1)
  {
  }

  /** Generation numbers as two bits. */
  function Low(g: nat): bv64 { if g % 2 == 1 then 1 else 0 }

  function High(g: nat): bv64 { if g / 2 == 1 then 1 else 0 }

  /** The words with one bit replaced. */
  function Replaced(w: bv64, b: bv6, v: bv64): bv64 { Or(And(w, Hole(b)), Alone(v, b)) }

  lemma ReplacedBit(w: bv64, b: bv6, v: bv64, c: bv6)
    requires v <= 1
    ensures Bit(Replaced(w, b, v), c) == if c == b then v == 1 else Bit(w, c)
  {
    hide Bit, Or, And, Hole, Alone;
    BitOr(And(w, Hole(b)), Alone(v, b), c);
    BitAnd(w, Hole(b), c);
    BitHole(b, c);
    BitAlone(v, b, c);
  }

  function Pair(low: bool, high: bool): nat { (if low then 1 else 0) + (if high then 2 else 0) }

  /** The generation at position q. */
  function GenAt(d: seq<bv64>, q: nat): nat
    requires q < 32 * |d| && |d| % 2 == 0
  {
    var b := (q % 64) as bv6;
    Pair(Bit(d[q / 64 * 2], b), Bit(d[q / 64 * 2 + 1], b))
  }

  function Gens(d: seq<bv64>): (r: seq<nat>)
    requires |d| % 2 == 0
    ensures |r| == 32 * |d|
  {
    seq(32 * |d|, q requires 0 <= q < 32 * |d| => GenAt(d, q))
  }

  lemma SameBit(p: nat, q: nat)
    ensures (p % 64) as bv6 == (q % 64) as bv6 <==> p % 64 == q % 64
  {
    BackAndForth(p % 64);
    BackAndForth(q % 64);
  }

  lemma BackAndForth(k: nat)
    requires k < 64
    ensures (k as bv6) as nat == k
  {
  }

  lemma SamePosition(p: nat, q: nat)
    ensures p == q <==> p / 64 == q / 64 && p % 64 == q % 64
  {
  }

  /** Writing a generation at one position changes only that position. */
  lemma Rewritten(d: seq<bv64>, p: nat, g: nat, q: nat)
    requires |d| % 2 == 0 && p < 32 * |d| && q < 32 * |d| && g <= 3
    ensures var b, w := (p % 64) as bv6, p / 64 * 2;
            GenAt(d[w := Replaced(d[w], b, Low(g))][w + 1 := Replaced(d[w + 1], b, High(g))], q) == if q == p then g
                else GenAt(d, q)
  {
    hide Bit, Replaced;
    var b, c, w := (p % 64) as bv6, (q % 64) as bv6, p / 64 * 2;
    ReplacedBit(d[w], b, Low(g), c);
    ReplacedBit(d[w + 1], b, High(g), c);
    SameBit(p, q);
    SamePosition(p, q);
  }

  /** The generation masks: all ones or all zeros. */
  function Spread(v: bv64): bv64 { if v == 1 then ONES else 0 }

  /** Where the generation is g the mask is zero. */
  function Mask(p1: bv64, p2: bv64, g: nat): bv64 { Or(Xor(p1, Spread(Low(g))), Xor(p2, Spread(High(g)))) }

  lemma SpreadBit(g: nat, b: bv6)
    requires 1 <= g <= 3
    ensures Bit(Spread(Low(g)), b) == (g % 2 == 1) && Bit(Spread(High(g)), b) == (g >= 2)
  {
    hide Bit;
    BitConst(b);
  }

  lemma MaskedBit(p1: bv64, p2: bv64, g: nat, b: bv6)
    requires 1 <= g <= 3
    ensures var mask := Mask(p1, p2, g);
            var was := Pair(Bit(p1, b), Bit(p2, b));
            Pair(Bit(And(p1, mask), b), Bit(And(p2, mask), b)) == if was == g then 0 else was
  {
    hide Bit, Or, And, Xor, Spread, Low, High;
    var m1, m2 := Spread(Low(g)), Spread(High(g));
    SpreadBit(g, b);
    BitXor(p1, m1, b);
    BitXor(p2, m2, b);
    BitOr(Xor(p1, m1), Xor(p2, m2), b);
    BitAnd(p1, Mask(p1, p2, g), b);
    BitAnd(p2, Mask(p1, p2, g), b);
  }

  /** The even one of the two words that a hash points at. */
  function EvenWord(h: nat, words: nat): (w: nat)
    requires words > 0 && words % 2 == 0
    ensures w + 1 < words && w % 2 == 0
  {
    var pos := h / 64 % words;
    EvenBelow(pos, words);
    pos - pos % 2
  }

  lemma EvenBelow(pos: nat, words: nat)
    requires pos < words && words % 2 == 0
    ensures 0 <= pos - pos % 2 && pos - pos % 2 + 1 < words && (pos - pos % 2) % 2 == 0
  {
    Numbers.DivIs(pos - pos % 2, 2, pos / 2);
  }

  function BitNumber(h: nat): bv6 { (h % 64) as bv6 }

  function PositionOf(h: nat, words: nat): (q: nat)
    requires words > 0 && words % 2 == 0
    ensures q < 32 * words
  {
    32 * EvenWord(h, words) + h % 64
  }

  lemma PositionParts(h: nat, words: nat)
    requires words > 0 && words % 2 == 0
    ensures var q := PositionOf(h, words); q / 64 * 2 == EvenWord(h, words) && (q % 64) as bv6 == BitNumber(h)
  {
    hide EvenWord;
    var w := EvenWord(h, words);
    assert 32 * w == 64 * (w / 2);
  }

  lemma GenIsPair(d: seq<bv64>, h: nat)
    requires |d| > 0 && |d| % 2 == 0
    ensures var w := EvenWord(h, |d|);
            GenAt(d, PositionOf(h, |d|)) == Pair(Bit(d[w], BitNumber(h)), Bit(d[w + 1], BitNumber(h)))
  {
    hide Bit, Pair, PositionOf, EvenWord, BitNumber;
    PositionParts(h, |d|);
  }

  lemma RewrittenAt(d: seq<bv64>, h: nat, g: nat)
    requires |d| > 0 && |d| % 2 == 0 && g <= 3
    ensures var b, w := BitNumber(h), EvenWord(h, |d|);
            Gens(d[w := Replaced(d[w], b, Low(g))][w + 1 := Replaced(d[w + 1], b, High(g))])
                == Gens(d)[PositionOf(h, |d|) := g]
  {
    hide Replaced, GenAt, PositionOf, EvenWord, BitNumber, Low, High;
    PositionParts(h, |d|);
    var b, w, q := BitNumber(h), EvenWord(h, |d|), PositionOf(h, |d|);
    var e := d[w := Replaced(d[w], b, Low(g))][w + 1 := Replaced(d[w + 1], b, High(g))];
    forall k | 0 <= k < 32 * |d| ensures GenAt(e, k) == if k == q then g else GenAt(d, k) { Rewritten(d, q, g, k); }
  }

  type Key = nat

  class RollingBloomFilter {
    const hash: (nat, nat, Key) -> nat
    const data: array<bv64>
    const nEntriesPerGeneration: nat
    const nHashFuncs: nat
    var nEntriesThisGeneration: nat
    var nGeneration: nat
    var nTweak: nat

    ghost predicate Ready()
      reads this
    {
      data.Length > 0 && data.Length % 2 == 0 && 1 <= nGeneration <= 3
    }

    ghost function View(): Filter
      requires Ready()
      reads this, data
    {
      Filter(Gens(data[..]), nGeneration, nEntriesThisGeneration, nEntriesPerGeneration)
    }

    /** The position of hash number n. */
    function Position(n: nat, key: Key): (q: nat)
      requires data.Length > 0 && data.Length % 2 == 0
      reads this
      ensures q < 32 * data.Length
    {
      PositionOf(hash(n, nTweak, key), data.Length)
    }

    function Positions(key: Key): (ps: seq<nat>)
      requires data.Length > 0 && data.Length % 2 == 0
      reads this
      ensures |ps| == nHashFuncs && Fits(ps, 32 * data.Length)
    {
      seq(nHashFuncs, n requires 0 <= n < nHashFuncs reads this => Position(n, key))
    }

    /** The sizing formulas are not modelled: the number of hash functions and of words are
        parameters. */
    constructor (hash: (nat, nat, Key) -> nat, nElements: nat, nHashFuncs: nat, pairs: nat, tweak: nat)
      requires pairs > 0
      ensures Ready() && data.Length == 2 * pairs && fresh(data)
      ensures View() == Fresh(64 * pairs, (nElements + 1) / 2)
    {
      this.hash := hash;
      this.nHashFuncs := nHashFuncs;
      nEntriesPerGeneration := (nElements + 1) / 2;
      data := new bv64[2 * pairs](_ => 0);
      nEntriesThisGeneration, nGeneration, nTweak := 0, 1, tweak;
      new;
      AllZero(data[..]);
    }

    /** Forgets the oldest generation, two words at a time. */
    method Wipe()
      requires Ready()
      modifies data
      ensures Gens(data[..]) == Wiped(old(Gens(data[..])), nGeneration)
    {
      hide And, Or, Xor, Spread, GenAt;
      ghost var d := data[..];
      var p := 0;
      while p < data.Length
        invariant 0 <= p <= data.Length && p % 2 == 0
        invariant forall k :: p <= k < data.Length ==> data[k] == d[k]
        invariant forall q :: 0 <= q < 32 * p ==> GenAt(data[..], q) == WipedGen(GenAt(d, q), nGeneration)
      {
        ghost var s := data[..];
        var p1, p2 := data[p], data[p + 1];
        var mask := Mask(p1, p2, nGeneration);
        data[p] := And(p1, mask);
        data[p + 1] := And(p2, mask);
        forall q | 0 <= q < 32 * (p + 2) ensures GenAt(data[..], q) == WipedGen(GenAt(d, q), nGeneration) {
          WipedPair(s, data[..], d, p, nGeneration, q);
        }
        p := p + 2;
      }
      forall q | 0 <= q < 32 * data.Length ensures Gens(data[..])[q] == Wiped(Gens(d), nGeneration)[q] {
        assert GenAt(data[..], q) == WipedGen(GenAt(d, q), nGeneration);
      }
    }

    method Insert(key: Key)
      requires Ready()
      modifies this`nEntriesThisGeneration, this`nGeneration, data
      ensures Ready() && View() == Inserted(old(View()), Positions(key))
    {
      hide Gens, Wiped, Marked;
      if nEntriesThisGeneration == nEntriesPerGeneration {
        nEntriesThisGeneration := 0;
        nGeneration := nGeneration + 1;
        if nGeneration == 4 { nGeneration := 1; }
        Wipe();
      }
      nEntriesThisGeneration := nEntriesThisGeneration + 1;
      ghost var gens, ps, gen, count := Gens(data[..]), Positions(key), nGeneration, nEntriesThisGeneration;
      MarkedNone(gens, ps, nGeneration);
      for n := 0 to nHashFuncs
        invariant nGeneration == gen && nEntriesThisGeneration == count && Gens(data[..]) == Marked(gens, ps, n, gen)
      {
        MarkedStep(gens, ps, n, nGeneration);
        Set(n, key);
      }
    }

    /** Writes the current generation at one position. */
    method Set(n: nat, key: Key)
      requires Ready()
      modifies data
      ensures Gens(data[..]) == old(Gens(data[..]))[Position(n, key) := nGeneration]
    {
      hide Replaced, Gens, EvenWord, PositionOf, BitNumber, Low, High;
      ghost var d := data[..];
      var h := hash(n, nTweak, key);
      var bit, even := BitNumber(h), EvenWord(h, data.Length);
      data[even] := Replaced(data[even], bit, Low(nGeneration));
      data[even + 1] := Replaced(data[even + 1], bit, High(nGeneration));
      assert data[..] == d[even := Replaced(d[even], bit, Low(nGeneration))][even + 1 :=
          Replaced(d[even + 1], bit, High(nGeneration))];
      RewrittenAt(d, h, nGeneration);
    }

    method Contains(key: Key) returns (r: bool)
      requires Ready()
      ensures r == Found(View(), Positions(key))
    {
      hide Bit, Or, EvenWord, PositionOf, BitNumber, GenAt;
      ghost var ps := Positions(key);
      for n := 0 to nHashFuncs
        invariant forall k :: 0 <= k < n ==> View().gens[ps[k]] != 0
      {
        var h := hash(n, nTweak, key);
        var bit, even := BitNumber(h), EvenWord(h, data.Length);
        GenIsPair(data[..], h);
        EitherBit(data[even], data[even + 1], bit);
        assert View().gens[ps[n]] == GenAt(data[..], PositionOf(h, data.Length));
        if !Bit(Or(data[even], data[even + 1]), bit) { return false; }
      }
      r := true;
    }

    method Clear(tweak: nat)
      requires Ready()
      modifies this, data
      ensures Ready() && View() == Fresh(32 * data.Length, nEntriesPerGeneration) && nTweak == tweak
    {
      nTweak, nEntriesThisGeneration, nGeneration := tweak, 0, 1;
      for i := 0 to data.Length
        invariant nTweak == tweak && nEntriesThisGeneration == 0 && nGeneration == 1
        invariant forall k :: 0 <= k < i ==> data[k] == 0
      {
        data[i] := 0;
      }
      AllZero(data[..]);
    }
  }

  lemma EitherBit(v: bv64, w: bv64, b: bv6)
    ensures Bit(Or(v, w), b) <==> Pair(Bit(v, b), Bit(w, b)) != 0
  {
    hide Bit, Or;
    BitOr(v, w, b);
  }

  function WipedGen(x: nat, g: nat): nat { if x == g then 0 else x }

  lemma WipedPair(s: seq<bv64>, t: seq<bv64>, d: seq<bv64>, p: nat, g: nat, q: nat)
    requires |s| == |t| == |d| && |d| % 2 == 0 && p % 2 == 0 && p + 1 < |d| && q < 32 * (p + 2) && 1 <= g <= 3
    requires s[p] == d[p] && s[p + 1] == d[p + 1]
    requires t == s[p := And(s[p], Mask(s[p], s[p + 1], g))][p + 1 := And(s[p + 1], Mask(s[p], s[p + 1], g))]
    requires q < 32 * p ==> GenAt(s, q) == WipedGen(GenAt(d, q), g)
    ensures GenAt(t, q) == WipedGen(GenAt(d, q), g)
  {
    hide Bit, And, Mask, GenAt, Pair;
    WordOf(p, q);
    if q >= 32 * p {
      MaskedBit(s[p], s[p + 1], g, (q % 64) as bv6);
      PairAt(d, q, p);
      PairAt(t, q, p);
    } else {
      PairAt(s, q, q / 64 * 2);
      PairAt(t, q, q / 64 * 2);
    }
  }

  lemma PairAt(d: seq<bv64>, q: nat, w: nat)
    requires q < 32 * |d| && |d| % 2 == 0 && w == q / 64 * 2
    ensures w + 1 < |d| && GenAt(d, q) == Pair(Bit(d[w], (q % 64) as bv6), Bit(d[w + 1], (q % 64) as bv6))
  {
    hide Bit, Pair;
  }

  /** The first of the two words that position q belongs to. */
  lemma WordOf(p: nat, q: nat)
    requires p % 2 == 0 && q < 32 * (p + 2)
    ensures if q >= 32 * p then q / 64 * 2 == p else q / 64 * 2 + 1 < p
  {
  }

  lemma MarkedNone(gens: seq<nat>, ps: seq<nat>, g: nat)
    requires Fits(ps, |gens|)
    ensures Marked(gens, ps, 0, g) == gens
  {
  }

  lemma MarkedStep(gens: seq<nat>, ps: seq<nat>, n: nat, g: nat)
    requires n < |ps| && Fits(ps, |gens|)
    ensures Marked(gens, ps, n + 1, g) == Marked(gens, ps, n, g)[ps[n] := g]
  {
  }

  lemma AllZero(d: seq<bv64>)
    requires |d| % 2 == 0 && forall k :: 0 <= k < |d| ==> d[k] == 0
    ensures Gens(d) == seq(32 * |d|, _ => 0)
  {
    hide Bit, GenAt;
    forall q | 0 <= q < 32 * |d| ensures GenAt(d, q) == 0 { ZeroAt(d, q); }
  }

  lemma ZeroAt(d: seq<bv64>, q: nat)
    requires |d| % 2 == 0 && q < 32 * |d| && forall k :: 0 <= k < |d| ==> d[k] == 0
    ensures GenAt(d, q) == 0
  {
    hide Bit;
    BitConst((q % 64) as bv6);
  }

  /** Inserting keys one after the other and then looking one of them up. */
  method RememberAndLook(f: RollingBloomFilter, nElements: nat, keys: seq<Key>, i: nat) returns (found: bool)
    requires f.Ready() && f.View() == Fresh(32 * f.data.Length, (nElements + 1) / 2) && i < |keys|
    modifies f, f.data
    ensures |keys| - i <= nElements || |keys| - i <= 2 * ((nElements + 1) / 2) + 1 ==> found
  {
    hide Inserted, Gens;
    ghost var size, per := 32 * f.data.Length, (nElements + 1) / 2;
    ghost var past: seq<seq<nat>> := [];
    for k := 0 to |keys|
      invariant f.Ready() && |past| == k && f.nTweak == old(f.nTweak)
      invariant forall j :: 0 <= j < k ==> Fits(past[j], size) && past[j] == f.Positions(keys[j])
      invariant f.View() == Fed(size, per, past)
    {
      ghost var ps := f.Positions(keys[k]);
      assert (past + [ps])[..k] == past;
      f.Insert(keys[k]);
      past := past + [ps];
    }
    found := f.Contains(keys[i]);
    if |keys| - i <= nElements || |keys| - i <= 2 * per + 1 { RecentIsFound(size, nElements, past, i); }
  }
}
