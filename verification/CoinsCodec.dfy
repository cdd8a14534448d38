/** How the unspent outputs of a transaction are stored: a code with the first two outputs
    and the number of non-zero mask bytes, the mask of the others, and the outputs. */
module CoinsCodec {
  import opened CoinsCache
  import Compressor
  import Limbs
  import opened Numbers
  import opened Options
  import opened VarInts

  const NULL_OUT := TxOut(-1, [])

  predicate Avail(vout: seq<TxOut>, k: nat) { k < |vout| && !vout[k].IsNull() }

  /** Output k, or a null one. */
  function OutAt(vout: seq<TxOut>, k: nat): TxOut { if Avail(vout, k) then vout[k] else NULL_OUT }

  // ---------- the mask ----------

  /** The j-th output of mask byte b. */
  predicate InGroup(vout: seq<TxOut>, b: nat, j: nat) { Avail(vout, 2 + 8 * b + j) }

  /** The first i bits of mask byte b. */
  function Bits(vout: seq<TxOut>, b: nat, i: nat): (x: nat)
    ensures x < Pow2(i)
  {
    if i == 0 then 0 else Bits(vout, b, i - 1) + (if InGroup(vout, b, i - 1) then Pow2(i - 1) else 0)
  }

  function MaskByte(vout: seq<TxOut>, b: nat): nat { Bits(vout, b, 8) }

  predicate BitSet(x: nat, p: nat) {
    DivNat(x, Pow2(p));
    x / Pow2(p) % 2 == 1
  }

  lemma {:induction false} BitsAbove(vout: seq<TxOut>, b: nat, p: nat, i: nat) returns (h: nat)
    requires p <= i
    ensures Bits(vout, b, i) == Bits(vout, b, p) + h * Pow2(p)
    decreases i
  {
    if p == i {
      h := 0;
    } else {
      var g := BitsAbove(vout, b, p, i - 1);
      Limbs.Pow2Add(i - 1 - p, p);
      h := g + (if InGroup(vout, b, i - 1) then Pow2(i - 1 - p) else 0);
      Limbs.Plus(g, Pow2(i - 1 - p), Pow2(p));
    }
  }

  /** Bit p of a mask byte says whether its output is unspent. */
  lemma BitIs(vout: seq<TxOut>, b: nat, p: nat)
    requires p < 8
    ensures BitSet(MaskByte(vout, b), p) <==> InGroup(vout, b, p)
  {
    hide Pow2;
    var h := BitsAbove(vout, b, p + 1, 8);
    var low, a, q := Bits(vout, b, p), if InGroup(vout, b, p) then 1 else 0, Pow2(p);
    assert Pow2(p + 1) == 2 * q by { Limbs.Pow2Add(1, p); PowOne(); }
    assert Bits(vout, b, p + 1) == low + a * q;
    TwoParts(low, a, h, q, MaskByte(vout, b));
  }

  lemma TwoParts(low: nat, a: nat, h: nat, q: nat, x: nat)
    requires low < q && a <= 1 && x == low + a * q + h * (2 * q)
    ensures x / q == a + 2 * h && x / q % 2 == a
  {
    assert (a + 2 * h) * q == a * q + h * (2 * q);
    DivIs(x, q, a + 2 * h);
  }

  /** How many mask bytes are needed, of the first n. */
  function LastUsed(vout: seq<TxOut>, n: nat): (r: nat)
    ensures r <= n && (r > 0 ==> MaskByte(vout, r - 1) != 0)
    ensures forall b :: r <= b < n ==> MaskByte(vout, b) == 0
  {
    if n == 0 then 0 else if MaskByte(vout, n - 1) != 0 then n else LastUsed(vout, n - 1)
  }

  function NonZero(vout: seq<TxOut>, n: nat): nat {
    if n == 0 then 0 else NonZero(vout, n - 1) + (if MaskByte(vout, n - 1) != 0 then 1 else 0)
  }

  /** The number of mask bytes that have outputs. */
  function Groups(vout: seq<TxOut>): nat { if |vout| <= 2 then 0 else (|vout| - 2 + 7) / 8 }

  function Size(vout: seq<TxOut>): nat { LastUsed(vout, Groups(vout)) }

  lemma {:induction false} ZeroMeansNone(vout: seq<TxOut>, b: nat, i: nat)
    requires i <= 8
    ensures Bits(vout, b, i) == 0 <==> forall j :: 0 <= j < i ==> !InGroup(vout, b, j)
  {
    if i > 0 { ZeroMeansNone(vout, b, i - 1); }
  }

  /** The mask covers every unspent output. */
  lemma Covered(vout: seq<TxOut>, k: nat)
    requires Avail(vout, k)
    ensures k < 2 + 8 * Size(vout)
  {
    if k >= 2 {
      var b, j := (k - 2) / 8, (k - 2) % 8;
      ZeroMeansNone(vout, b, 8);
      assert k == 2 + 8 * b + j;
      assert InGroup(vout, b, j);
      assert MaskByte(vout, b) != 0 && b < Groups(vout);
    }
  }

  method GroupEmpty(vout: seq<TxOut>, b: nat) returns (zero: bool)
    ensures zero <==> MaskByte(vout, b) == 0
  {
    hide Bits;
    zero := true;
    var i := 0;
    while i < 8 && 2 + b * 8 + i < |vout|
      invariant 0 <= i <= 8 && (zero <==> forall j :: 0 <= j < i ==> !InGroup(vout, b, j))
    {
      assert InGroup(vout, b, i) <==> !vout[2 + b * 8 + i].IsNull();
      if !vout[2 + b * 8 + i].IsNull() { zero := false; }
      i := i + 1;
    }
    assert forall j :: i <= j < 8 ==> !InGroup(vout, b, j);
    ZeroMeansNone(vout, b, 8);
  }

  method CalcMaskSize(vout: seq<TxOut>) returns (nBytes: nat, nNonzeroBytes: nat)
    ensures nBytes == Size(vout) && nNonzeroBytes == NonZero(vout, Groups(vout))
  {
    hide MaskByte;
    nBytes, nNonzeroBytes := 0, 0;
    var b := 0;
    while 2 + b * 8 < |vout|
      invariant 0 <= b <= Groups(vout) && nBytes == LastUsed(vout, b) && nNonzeroBytes == NonZero(vout, b)
      decreases |vout| - b
    {
      var zero := GroupEmpty(vout, b);
      if !zero { nBytes, nNonzeroBytes := b + 1, nNonzeroBytes + 1; }
      b := b + 1;
    }
  }

  /** The mask bytes from b on. */
  function Mask(vout: seq<TxOut>, b: nat, n: nat): Bytes
    decreases n - b
  {
    if b >= n then [] else [MaskByte(vout, b)] + Mask(vout, b + 1, n)
  }

  /** The availability of the eight outputs of a mask byte. */
  function Flags(x: nat): (r: seq<bool>)
    ensures |r| == 8
  {
    seq(8, p => p >= 0 && BitSet(x, p))
  }

  /** Reads mask bytes until so many of them were not zero. */
  function ParseMask(s: Bytes, k: nat): Parsed<seq<bool>>
    decreases |s|
  {
    if k == 0 then Done([], s) else
    if s == [] then Fail else
    var more := ParseMask(s[1..], if s[0] != 0 then k - 1 else k);
    if more.Fail? then Fail else Done(Flags(s[0]) + more.value, more.rest)
  }

  /** The flags of the mask bytes from b on. */
  function Flagged(vout: seq<TxOut>, b: nat, n: nat): (r: seq<bool>)
    ensures |r| == if b < n then 8 * (n - b) else 0
    decreases n - b
  {
    if b >= n then [] else Flags(MaskByte(vout, b)) + Flagged(vout, b + 1, n)
  }

  /** The non-zero mask bytes from b on. */
  function NonZeroFrom(vout: seq<TxOut>, b: nat, n: nat): nat
    decreases n - b
  {
    if b >= n then 0 else (if MaskByte(vout, b) != 0 then 1 else 0) + NonZeroFrom(vout, b + 1, n)
  }

  lemma {:induction false} NonZeroSplit(vout: seq<TxOut>, b: nat, n: nat)
    requires b <= n
    ensures NonZero(vout, n) == NonZero(vout, b) + NonZeroFrom(vout, b, n)
    decreases n - b
  {
    hide MaskByte;
    if b < n { NonZeroSplit(vout, b + 1, n); }
  }

  lemma {:induction false} NonZeroPast(vout: seq<TxOut>, r: nat, n: nat)
    requires r <= n && forall b :: r <= b < n ==> MaskByte(vout, b) == 0
    ensures NonZero(vout, n) == NonZero(vout, r)
    decreases n
  {
    hide MaskByte;
    if r < n { NonZeroPast(vout, r, n - 1); }
  }

  lemma {:induction false} SomeFrom(vout: seq<TxOut>, b: nat, n: nat)
    requires b < n && MaskByte(vout, n - 1) != 0
    ensures NonZeroFrom(vout, b, n) > 0
    decreases n - b
  {
    hide MaskByte;
    if b + 1 < n { SomeFrom(vout, b + 1, n); }
  }

  lemma MaskUnfold(vout: seq<TxOut>, b: nat, n: nat)
    requires b < n
    ensures Mask(vout, b, n) == [MaskByte(vout, b)] + Mask(vout, b + 1, n)
    ensures Flagged(vout, b, n) == Flags(MaskByte(vout, b)) + Flagged(vout, b + 1, n)
    ensures NonZeroFrom(vout, b, n) == (if MaskByte(vout, b) != 0 then 1 else 0) + NonZeroFrom(vout, b + 1, n)
  {
    hide MaskByte, Flags;
  }

  lemma MaskEnd(vout: seq<TxOut>, n: nat, t: Bytes)
    ensures ParseMask(Mask(vout, n, n) + t, NonZeroFrom(vout, n, n)) == Done(Flagged(vout, n, n), t)
  {
    assert [] + t == t;
  }

  lemma ParseMaskMore(x: nat, t: Bytes, k: nat)
    requires k > 0
    ensures ParseMask([x] + t, k) ==
            var more := ParseMask(t, if x != 0 then k - 1 else k);
            if more.Fail? then Fail else Done(Flags(x) + more.value, more.rest)
  {
    hide Flags;
    var s := [x] + t;
    assert s[0] == x && s[1..] == t;
  }

  /** Reading stops exactly behind the last mask byte. */
  lemma {:induction false} MaskRoundTrip(vout: seq<TxOut>, b: nat, n: nat, t: Bytes)
    requires b <= n && (n > 0 ==> MaskByte(vout, n - 1) != 0)
    ensures ParseMask(Mask(vout, b, n) + t, NonZeroFrom(vout, b, n)) == Done(Flagged(vout, b, n), t)
    decreases n - b
  {
    hide MaskByte, Flags, Mask, ParseMask, Flagged, NonZeroFrom;
    if b == n {
      MaskEnd(vout, n, t);
    } else {
      MaskRoundTrip(vout, b + 1, n, t);
      SomeFrom(vout, b, n);
      MaskUnfold(vout, b, n);
      var x, rest := MaskByte(vout, b), Mask(vout, b + 1, n);
      assert ([x] + rest) + t == [x] + (rest + t);
      ParseMaskMore(x, rest + t, NonZeroFrom(vout, b, n));
    }
  }

  lemma {:induction false} FlaggedAt(vout: seq<TxOut>, b: nat, n: nat, k: nat)
    requires b <= n && k < 8 * (n - b)
    ensures Flagged(vout, b, n)[k] == Avail(vout, 2 + 8 * b + k)
    decreases n - b
  {
    hide MaskByte;
    if k < 8 { BitIs(vout, b, k); } else { FlaggedAt(vout, b + 1, n, k - 8); }
  }

  /** The availability of all outputs that the code and the mask speak of. */
  lemma AvailableIs(vout: seq<TxOut>, k: nat)
    requires k < 2 + 8 * Size(vout)
    ensures ([Avail(vout, 0), Avail(vout, 1)] + Flagged(vout, 0, Size(vout)))[k] == Avail(vout, k)
  {
    if k >= 2 { FlaggedAt(vout, 0, Size(vout), k - 2); }
  }

  // ---------- the outputs ----------

  const TWO64 := Compressor.TWO64
  const TWO32 := Compressor.TWO32

  function Signed(x: nat, modulus: nat): int
    requires modulus > 0
  {
    var y := x % modulus;
    if 2 * y >= modulus then y - modulus else y
  }

  function OutBytes(cv: Compressor.Curve, o: TxOut): Bytes {
    VarInt(Compressor.Compressed(o.value % TWO64) % TWO64) + Compressor.ScriptBytes(cv, o.script)
  }

  function ParseOut(cv: Compressor.Curve, s: Bytes): Parsed<TxOut> {
    var x := Parse(s, 0);
    if x.Fail? then Fail else
    var script := Compressor.ParseScript(cv, x.rest);
    if script.Fail? then Fail else
    Done(TxOut(Signed(Compressor.Decompressed(x.value % TWO64), TWO64), script.value), script.rest)
  }

  /** An output that can be stored: a valid amount and a script that is not overlong. */
  ghost predicate Storable(o: TxOut) {
    0 <= o.value <= Compressor.MAX_MONEY && |o.script| <= Compressor.MAX_SCRIPT_SIZE
  }

  lemma OutRoundTrip(cv: Compressor.Curve, o: TxOut, t: Bytes)
    requires Compressor.Lawful(cv) && Storable(o)
    ensures ParseOut(cv, OutBytes(cv, o) + t) == Done(o, t)
  {
    hide Parse, VarInt, Compressor.Compressed, Compressor.Decompressed, Compressor.ScriptBytes, Compressor.ParseScript,
         Compressor.Lawful;
    var x, bytes := Compressor.Compressed(o.value), Compressor.ScriptBytes(cv, o.script);
    Compressor.CompressedFits(o.value);
    Compressor.CompressedBack(o.value);
    assert o.value % TWO64 == o.value && x % TWO64 == x;
    VarIntRoundTrip(x, bytes + t);
    assert VarInt(x) + bytes + t == VarInt(x) + (bytes + t);
    Compressor.ScriptRoundTrip(cv, o.script, t);
  }

  /** The unspent outputs from k on. */
  function OutsFrom(cv: Compressor.Curve, vout: seq<TxOut>, k: nat): Bytes
    decreases |vout| - k
  {
    if k >= |vout| then [] else (if vout[k].IsNull() then [] else OutBytes(cv, vout[k])) + OutsFrom(cv, vout, k + 1)
  }

  function ParseOuts(cv: Compressor.Curve, avail: seq<bool>, k: nat, s: Bytes): Parsed<seq<TxOut>>
    requires k <= |avail|
    decreases |avail| - k
  {
    if k == |avail| then Done([], s) else
    var out := if avail[k] then ParseOut(cv, s) else Done(NULL_OUT, s);
    if out.Fail? then Fail else
    var more := ParseOuts(cv, avail, k + 1, out.rest);
    if more.Fail? then Fail else Done([out.value] + more.value, more.rest)
  }

  /** The outputs up to n, with null ones for those that are spent or missing. */
  function Padded(vout: seq<TxOut>, k: nat, n: nat): (r: seq<TxOut>)
    requires k <= n
    ensures |r| == n - k && forall i :: 0 <= i < n - k ==> r[i] == OutAt(vout, k + i)
    decreases n - k
  {
    if k == n then [] else [OutAt(vout, k)] + Padded(vout, k + 1, n)
  }

  lemma {:induction false} OutsRoundTrip(cv: Compressor.Curve, vout: seq<TxOut>, avail: seq<bool>, k: nat, t: Bytes)
    requires Compressor.Lawful(cv) && k <= |avail|
    requires forall i :: 0 <= i < |avail| ==> avail[i] == Avail(vout, i)
    requires forall i :: k <= i < |vout| && Avail(vout, i) ==> Storable(vout[i]) && i < |avail|
    ensures ParseOuts(cv, avail, k, OutsFrom(cv, vout, k) + t) == Done(Padded(vout, k, |avail|), t)
    decreases |avail| - k
  {
    hide OutBytes, ParseOut, Compressor.Lawful, Storable;
    if k == |avail| {
      NothingLeft(cv, vout, k);
      assert [] + t == t;
    } else {
      OutsRoundTrip(cv, vout, avail, k + 1, t);
      var rest := OutsFrom(cv, vout, k + 1) + t;
      if avail[k] {
        OutRoundTrip(cv, vout[k], rest);
        assert OutsFrom(cv, vout, k) + t == OutBytes(cv, vout[k]) + rest;
      } else {
        SkipNull(cv, vout, k);
      }
    }
  }

  lemma {:induction false} NothingLeft(cv: Compressor.Curve, vout: seq<TxOut>, k: nat)
    requires forall i :: k <= i < |vout| ==> !Avail(vout, i)
    ensures OutsFrom(cv, vout, k) == []
    decreases |vout| - k
  {
    if k < |vout| {
      assert !Avail(vout, k);
      NothingLeft(cv, vout, k + 1);
    }
  }

  lemma SkipNull(cv: Compressor.Curve, vout: seq<TxOut>, k: nat)
    requires !Avail(vout, k)
    ensures OutsFrom(cv, vout, k) == OutsFrom(cv, vout, k + 1)
  {
  }

  // ---------- trimming ----------

  /** One past the last unspent output. */
  lemma {:induction false} TrimIs(vout: seq<TxOut>)
    ensures var r := TrimNull(vout);
            && |r| <= |vout| && r == vout[..|r|] && (|r| > 0 ==> !vout[|r| - 1].IsNull())
            && forall k :: |r| <= k ==> !Avail(vout, k)
    decreases |vout|
  {
    if |vout| > 0 && vout[|vout| - 1].IsNull() {
      TrimIs(vout[..|vout| - 1]);
      var front := vout[..|vout| - 1];
      forall k | |TrimNull(vout)| <= k ensures !Avail(vout, k) { assert !Avail(front, k); }
    }
  }

  /** Sequences with the same outputs are the same once trimmed. */
  lemma TrimSame(a: seq<TxOut>, b: seq<TxOut>)
    requires forall k: nat :: OutAt(a, k) == OutAt(b, k)
    requires (forall k :: 0 <= k < |a| && a[k].IsNull() ==> a[k] == NULL_OUT)
             && (forall k :: 0 <= k < |b| && b[k].IsNull() ==> b[k] == NULL_OUT)
    ensures TrimNull(a) == TrimNull(b)
  {
    hide TrimNull;
    TrimIs(a);
    TrimIs(b);
    var x, y := TrimNull(a), TrimNull(b);
    if |x| > 0 { assert OutAt(a, |x| - 1) == OutAt(b, |x| - 1); }
    if |y| > 0 { assert OutAt(a, |y| - 1) == OutAt(b, |y| - 1); }
    assert |x| == |y|;
    forall k | 0 <= k < |x| ensures x[k] == y[k] { assert OutAt(a, k) == OutAt(b, k); }
  }

  lemma PaddedTrims(vout: seq<TxOut>, n: nat)
    requires (forall k :: n <= k ==> !Avail(vout, k)) && forall k :: 0 <= k < |vout| && vout[k].IsNull() ==>
               vout[k] == NULL_OUT
    ensures TrimNull(Padded(vout, 0, n)) == TrimNull(vout)
  {
    hide TrimNull;
    var p := Padded(vout, 0, n);
    forall k: nat ensures OutAt(p, k) == OutAt(vout, k) {
      if k < n { assert p[k] == OutAt(vout, k); }
    }
    TrimSame(p, vout);
  }

  // ---------- the whole record ----------

  function Bit(f: bool): nat { if f then 1 else 0 }

  /** More outputs would not fit the 32-bit header code, or the loop counters. */
  const MAX_OUTPUTS := TWO32 - 16

  function Code(c: Coins): nat
    requires Avail(c.vout, 0) || Avail(c.vout, 1) || NonZero(c.vout, Groups(c.vout)) > 0
  {
    var first, second, n := Avail(c.vout, 0), Avail(c.vout, 1), NonZero(c.vout, Groups(c.vout));
    8 * (n - (if first || second then 0 else 1)) + Bit(c.coinBase) + 2 * Bit(first) + 4 * Bit(second)
  }

  /** There is something to store. */
  lemma SomethingUnspent(c: Coins)
    requires !c.IsPruned()
    ensures Avail(c.vout, 0) || Avail(c.vout, 1) || NonZero(c.vout, Groups(c.vout)) > 0
  {
    var k :| 0 <= k < |c.vout| && !c.vout[k].IsNull();
    assert Avail(c.vout, k);
    Covered(c.vout, k);
    if k >= 2 {
      NonZeroSplit(c.vout, 0, Groups(c.vout));
      NonZeroSplit(c.vout, 0, Size(c.vout));
      NonZeroPast(c.vout, Size(c.vout), Groups(c.vout));
      SomeFrom(c.vout, 0, Size(c.vout));
    }
  }

  function Serialized(cv: Compressor.Curve, c: Coins): Bytes
    requires !c.IsPruned()
  {
    SomethingUnspent(c);
    VarInt(c.version) + (VarInt(Code(c)) + (Mask(c.vout, 0, Size(c.vout)) + (OutsFrom(cv, c.vout, 0)
      + (VarInt(c.height) + (VarInt(Bit(c.coinStake)) + VarInt(c.time))))))
  }

  /** What follows the outputs. */
  function ParseEnd(version: int, coinBase: bool, outs: seq<TxOut>, s: Bytes): Parsed<Coins> {
    var height := Parse(s, 0);
    if height.Fail? then Fail else
    var flag := Parse(height.rest, 0);
    if flag.Fail? then Fail else
    var time := Parse(flag.rest, 0);
    if time.Fail? then Fail else
    Done(Coins(coinBase, outs, Signed(height.value, TWO32), version, flag.value % 2 == 1, time.value % TWO32).Cleanup(),
        time.rest)
  }

  /** What follows the code. */
  function ParseRest(cv: Compressor.Curve, version: int, code: nat, s: Bytes): Parsed<Coins> {
    var first, second := code / 2 % 2 == 1, code / 4 % 2 == 1;
    var mask := ParseMask(s, code / 8 + (if first || second then 0 else 1));
    if mask.Fail? then Fail else
    var outs := ParseOuts(cv, [first, second] + mask.value, 0, mask.rest);
    if outs.Fail? then Fail else ParseEnd(version, code % 2 == 1, outs.value, outs.rest)
  }

  function ParseCoins(cv: Compressor.Curve, s: Bytes): Parsed<Coins> {
    var version := Parse(s, 0);
    if version.Fail? then Fail else
    var code := Parse(version.rest, 0);
    if code.Fail? then Fail else ParseRest(cv, Signed(version.value, TWO32), code.value % TWO32, code.rest)
  }

  /** Coins with numbers of their types, and every output either spent or storable. */
  ghost predicate Sound(c: Coins) {
    && -TWO32 / 2 <= c.version < TWO32 / 2 && -TWO32 / 2 <= c.height < TWO32 / 2 && c.time < TWO32
    && |c.vout| < MAX_OUTPUTS
    && forall k :: 0 <= k < |c.vout| ==> c.vout[k] == NULL_OUT || Storable(c.vout[k])
  }

  /** What a signed number comes back as. */
  function Reread(n: int): int { if n < 0 then n % 128 else n }

  lemma EndRoundTrip(c: Coins, version: int, outs: seq<TxOut>, t: Bytes)
    requires -TWO32 / 2 <= c.height < TWO32 / 2 && c.time < TWO32
    ensures ParseEnd(version, c.coinBase, outs, VarInt(c.height) + (VarInt(Bit(c.coinStake)) + VarInt(c.time)) + t)
            == Done(c.(version := version, height := Reread(c.height), vout := outs).Cleanup(), t)
  {
    hide Parse, VarInt;
    var x, y, z := VarInt(c.height), VarInt(Bit(c.coinStake)), VarInt(c.time);
    assert x + (y + z) + t == x + (y + (z + t));
    VarIntRoundTrip(c.height, y + (z + t));
    VarIntRoundTrip(Bit(c.coinStake), z + t);
    VarIntRoundTrip(c.time, t);
  }

  lemma CodeParts(c: Coins)
    requires !c.IsPruned()
    ensures Avail(c.vout, 0) || Avail(c.vout, 1) || NonZero(c.vout, Groups(c.vout)) > 0
    ensures var code, first, second := Code(c), Avail(c.vout, 0), Avail(c.vout, 1);
            && (code % 2 == 1 <==> c.coinBase) && (code / 2 % 2 == 1 <==> first) && (code / 4 % 2 == 1 <==> second)
            && code / 8 + (if first || second then 0 else 1) == NonZeroFrom(c.vout, 0, Size(c.vout))
  {
    hide NonZero, NonZeroFrom, Groups;
    SomethingUnspent(c);
    var n := Size(c.vout);
    NonZeroSplit(c.vout, 0, n);
    NonZeroPast(c.vout, n, Groups(c.vout));
    NoneBefore(c.vout);
    var first, second := Avail(c.vout, 0), Avail(c.vout, 1);
    Digits(NonZero(c.vout, Groups(c.vout)) - (if first || second then 0 else 1), Bit(c.coinBase), Bit(first),
        Bit(second));
  }

  lemma Digits(n: nat, a: nat, b: nat, d: nat)
    requires a <= 1 && b <= 1 && d <= 1
    ensures var code := 8 * n + a + 2 * b + 4 * d;
            && code % 2 == a && code / 2 % 2 == b && code / 4 % 2 == d && code / 8 == n
  {
    var code := 8 * n + a + 2 * b + 4 * d;
    DivIs(code, 2, 4 * n + b + 2 * d);
    DivIs(code, 4, 2 * n + d);
    DivIs(code, 8, n);
    DivIs(4 * n + b + 2 * d, 2, 2 * n + d);
    DivIs(2 * n + d, 2, n);
  }

  lemma NoneBefore(vout: seq<TxOut>)
    ensures NonZero(vout, 0) == 0
  {
  }

  lemma {:induction false} NonZeroAtMost(vout: seq<TxOut>, n: nat)
    ensures NonZero(vout, n) <= n
  {
    if n > 0 { NonZeroAtMost(vout, n - 1); }
  }

  lemma CodeIs(c: Coins)
    requires Avail(c.vout, 0) || Avail(c.vout, 1) || NonZero(c.vout, Groups(c.vout)) > 0
    ensures var first, second := |c.vout| > 0 && !c.vout[0].IsNull(), |c.vout| > 1 && !c.vout[1].IsNull();
            var nonzero := NonZero(c.vout, Groups(c.vout));
            && (first || second || nonzero > 0)
            && Code(c) == 8 * (nonzero - (if first || second then 0 else 1)) + (if c.coinBase then 1 else 0)
                   + (if first then 2 else 0) + (if second then 4 else 0)
  {
    hide NonZero, Groups;
  }

  lemma CodeFits(c: Coins)
    requires !c.IsPruned() && |c.vout| < MAX_OUTPUTS
    ensures Avail(c.vout, 0) || Avail(c.vout, 1) || NonZero(c.vout, Groups(c.vout)) > 0
    ensures Code(c) < TWO32
  {
    SomethingUnspent(c);
    NonZeroAtMost(c.vout, Groups(c.vout));
  }

  lemma RestRoundTrip(cv: Compressor.Curve, c: Coins, version: int, t: Bytes)
    requires Compressor.Lawful(cv) && Sound(c) && !c.IsPruned()
    ensures Avail(c.vout, 0) || Avail(c.vout, 1) || NonZero(c.vout, Groups(c.vout)) > 0
    ensures var end := VarInt(c.height) + (VarInt(Bit(c.coinStake)) + VarInt(c.time));
            ParseRest(cv, version, Code(c), Mask(c.vout, 0, Size(c.vout)) + (OutsFrom(cv, c.vout, 0) + end) + t)
            == Done(c.(version := version, height := Reread(c.height)).Cleanup(), t)
  {
    hide Parse, VarInt, Code, Mask, ParseMask, OutsFrom, ParseOuts, ParseEnd, NonZero, NonZeroFrom, Size, Flagged,
         TrimNull, Storable, Compressor.Lawful;
    CodeParts(c);
    var end := VarInt(c.height) + (VarInt(Bit(c.coinStake)) + VarInt(c.time));
    var n, mask, outs := Size(c.vout), Mask(c.vout, 0, Size(c.vout)), OutsFrom(cv, c.vout, 0);
    assert mask + (outs + end) + t == mask + (outs + (end + t));
    MaskBack(c.vout, outs + (end + t));
    var avail := [Avail(c.vout, 0), Avail(c.vout, 1)] + Flagged(c.vout, 0, n);
    AvailAll(c.vout, avail);
    SoundOuts(c);
    OutsRoundTrip(cv, c.vout, avail, 0, end + t);
    EndRoundTrip(c, version, Padded(c.vout, 0, |avail|), t);
    PaddedTrims(c.vout, |avail|);
  }

  lemma SoundOuts(c: Coins)
    requires Sound(c)
    ensures forall k :: 0 <= k < |c.vout| && Avail(c.vout, k) ==> Storable(c.vout[k])
    ensures forall k :: 0 <= k < |c.vout| && c.vout[k].IsNull() ==> c.vout[k] == NULL_OUT
  {
  }

  lemma MaskBack(vout: seq<TxOut>, t: Bytes)
    ensures ParseMask(Mask(vout, 0, Size(vout)) + t, NonZeroFrom(vout, 0, Size(vout)))
            == Done(Flagged(vout, 0, Size(vout)), t)
    ensures |Flagged(vout, 0, Size(vout))| == 8 * Size(vout)
  {
    hide MaskByte, ParseMask, Mask, NonZeroFrom;
    MaskRoundTrip(vout, 0, Size(vout), t);
  }

  lemma AvailAll(vout: seq<TxOut>, avail: seq<bool>)
    requires avail == [Avail(vout, 0), Avail(vout, 1)] + Flagged(vout, 0, Size(vout))
    ensures |avail| == 2 + 8 * Size(vout) && (forall i :: 0 <= i < |avail| ==> avail[i] == Avail(vout, i))
    ensures forall k: nat :: Avail(vout, k) ==> k < |avail|
  {
    hide Size, Flagged;
    forall i | 0 <= i < |avail| ensures avail[i] == Avail(vout, i) { AvailableIs(vout, i); }
    forall k: nat | Avail(vout, k) ensures k < |avail| { Covered(vout, k); }
  }

  /** Storing coins and reading them back gives their cleaned-up form with the signed numbers
      as they come back; nothing but negative ones is lost. */
  lemma CoinsRoundTrip(cv: Compressor.Curve, c: Coins, t: Bytes)
    requires Compressor.Lawful(cv) && Sound(c) && !c.IsPruned()
    ensures ParseCoins(cv, Serialized(cv, c) + t)
            == Done(c.(version := Reread(c.version), height := Reread(c.height)).Cleanup(), t)
    ensures ParseCoins(cv, Serialized(cv, c) + t) == Done(c.Cleanup(), t) <==> c.version >= 0 && c.height >= 0
  {
    hide Parse, VarInt, Code, Mask, OutsFrom, ParseRest, Size, TrimNull, Compressor.Lawful;
    RestRoundTrip(cv, c, Reread(c.version), t);
    CodeFits(c);
    var end := VarInt(c.height) + (VarInt(Bit(c.coinStake)) + VarInt(c.time));
    var rest := Mask(c.vout, 0, Size(c.vout)) + (OutsFrom(cv, c.vout, 0) + end);
    assert Serialized(cv, c) + t == VarInt(c.version) + (VarInt(Code(c)) + (rest + t));
    VarIntRoundTrip(c.version, VarInt(Code(c)) + (rest + t));
    VarIntRoundTrip(Code(c), rest + t);
    assert Signed(Reread(c.version), TWO32) == Reread(c.version);
  }

  /** One unspent output of a transaction with version -1: it comes back with version 127. */
  lemma VersionLost(cv: Compressor.Curve)
    requires Compressor.Lawful(cv)
    ensures var c := Coins(false, [TxOut(5, [])], 100, -1, false, 1000);
            !c.IsPruned() && ParseCoins(cv, Serialized(cv, c)) == Done(c.(version := 127), [])
  {
    hide ParseCoins, Serialized, Compressor.Lawful;
    var out := TxOut(5, []);
    var c := Coins(false, [out], 100, -1, false, 1000);
    assert !out.IsNull();
    assert !c.vout[0].IsNull();
    CoinsRoundTrip(cv, c, []);
    assert Serialized(cv, c) + [] == Serialized(cv, c);
  }

  // ---------- writing and reading ----------

  /** The bits of a mask byte are set one by one. */
  method WriteMaskByte(vout: seq<TxOut>, b: nat) returns (avail: nat)
    ensures avail == MaskByte(vout, b)
  {
    hide Pow2, Limbs.Or;
    avail := 0;
    for i := 0 to 8
      invariant avail == Bits(vout, b, i)
    {
      Limbs.OrIsPlus(1, avail, i);
      Limbs.OrComm(avail, Pow2(i));
      if 2 + b * 8 + i < |vout| && !vout[2 + b * 8 + i].IsNull() { avail := Limbs.Or(avail, Pow2(i)); }
    }
  }

  method WriteMask(vout: seq<TxOut>, size: nat) returns (out: Bytes)
    ensures out == Mask(vout, 0, size)
  {
    hide MaskByte, Mask;
    out := [];
    MaskNone(vout, size);
    for b := 0 to size
      invariant out + Mask(vout, b, size) == Mask(vout, 0, size)
    {
      MaskMore(vout, b, size);
      var avail := WriteMaskByte(vout, b);
      assert out + ([avail] + Mask(vout, b + 1, size)) == (out + [avail]) + Mask(vout, b + 1, size);
      out := out + [avail];
    }
    assert out + [] == out;
  }

  lemma MaskNone(vout: seq<TxOut>, n: nat)
    ensures Mask(vout, n, n) == []
    ensures [] + Mask(vout, 0, n) == Mask(vout, 0, n)
  {
  }

  lemma MaskMore(vout: seq<TxOut>, b: nat, n: nat)
    requires b < n
    ensures Mask(vout, b, n) == [MaskByte(vout, b)] + Mask(vout, b + 1, n)
  {
  }

  method WriteOuts(cv: Compressor.Curve, vout: seq<TxOut>) returns (out: Bytes)
    ensures out == OutsFrom(cv, vout, 0)
  {
    hide OutBytes, OutsFrom;
    out := [];
    OutsNone(cv, vout);
    for i := 0 to |vout|
      invariant out + OutsFrom(cv, vout, i) == OutsFrom(cv, vout, 0)
    {
      OutsMore(cv, vout, i);
      if !vout[i].IsNull() {
        var bytes := WriteOut(cv, vout[i]);
        assert out + (bytes + OutsFrom(cv, vout, i + 1)) == (out + bytes) + OutsFrom(cv, vout, i + 1);
        out := out + bytes;
      }
    }
    assert out + [] == out;
  }

  lemma OutsNone(cv: Compressor.Curve, vout: seq<TxOut>)
    ensures OutsFrom(cv, vout, |vout|) == [] && [] + OutsFrom(cv, vout, 0) == OutsFrom(cv, vout, 0)
  {
  }

  lemma OutsMore(cv: Compressor.Curve, vout: seq<TxOut>, k: nat)
    requires k < |vout|
    ensures OutsFrom(cv, vout, k) == if vout[k].IsNull() then OutsFrom(cv, vout, k + 1)
            else OutBytes(cv, vout[k]) + OutsFrom(cv, vout, k + 1)
  {
    assert [] + OutsFrom(cv, vout, k + 1) == OutsFrom(cv, vout, k + 1);
  }

  method WriteOut(cv: Compressor.Curve, o: TxOut) returns (out: Bytes)
    ensures out == OutBytes(cv, o)
  {
    hide VarInt, Compressor.ScriptBytes, Compressor.Compressed;
    var x := Compressor.CompressAmount(o.value % TWO64);
    Limbs.Pow2Of32();
    Limbs.Pow2Add(32, 32);
    var amount := WriteVarInt(x, 64);
    out := amount + Compressor.ScriptBytes(cv, o.script);
  }

  /** The size of the mask and the header code. */
  method Header(c: Coins) returns (size: nat, code: nat)
    requires !c.IsPruned() && |c.vout| < MAX_OUTPUTS
    ensures size == Size(c.vout)
    ensures Avail(c.vout, 0) || Avail(c.vout, 1) || NonZero(c.vout, Groups(c.vout)) > 0
    ensures code == Code(c) < TWO32
  {
    hide MaskByte, NonZero, Groups, Size, Code, Avail;
    var nonzero;
    size, nonzero := CalcMaskSize(c.vout);
    var first := |c.vout| > 0 && !c.vout[0].IsNull();
    var second := |c.vout| > 1 && !c.vout[1].IsNull();
    CodeFits(c);
    CodeIs(c);
    code := 8 * (nonzero - (if first || second then 0 else 1)) + (if c.coinBase then 1 else 0)
        + (if first then 2 else 0) + (if second then 4 else 0);
  }

  method Serialize(cv: Compressor.Curve, c: Coins) returns (out: Bytes)
    requires !c.IsPruned() && c.version < TWO32 / 2 && c.height < TWO32 / 2 && c.time < TWO32 && |c.vout| < MAX_OUTPUTS
    ensures out == Serialized(cv, c)
  {
    hide VarInt, Mask, OutsFrom, NonZero, Groups, Size, Code, Avail, Pow2;
    var size, code := Header(c);
    Limbs.Pow2Of32();
    var version := WriteVarInt(c.version, 32);
    var codeBytes := WriteVarInt(code, 32);
    var mask := WriteMask(c.vout, size);
    var outs := WriteOuts(cv, c.vout);
    var height := WriteVarInt(c.height, 32);
    var flag := WriteVarInt(if c.coinStake then 1 else 0, 32);
    var time := WriteVarInt(c.time, 32);
    Regrouped(version, codeBytes, mask, outs, height, flag, time);
    out := version + codeBytes + mask + outs + height + flag + time;
  }

  lemma Regrouped(a: Bytes, b: Bytes, c: Bytes, d: Bytes, e: Bytes, f: Bytes, g: Bytes)
    ensures a + b + c + d + e + f + g == a + (b + (c + (d + (e + (f + g)))))
  {
  }

  /** What was read before, and what is read next. */
  function Prepend<T>(front: seq<T>, p: Parsed<seq<T>>): Parsed<seq<T>> {
    if p.Fail? then Fail else Done(front + p.value, p.rest)
  }

  lemma PrependTwice<T>(a: seq<T>, b: seq<T>, p: Parsed<seq<T>>)
    ensures Prepend(a, Prepend(b, p)) == Prepend(a + b, p)
  {
    if p.Done? { assert a + (b + p.value) == a + b + p.value; }
  }

  lemma PrependNone<T>(p: Parsed<seq<T>>)
    ensures Prepend([], p) == p
  {
    if p.Done? { assert [] + p.value == p.value; }
  }

  lemma MaskNext(x: nat, t: Bytes, k: nat)
    requires k > 0
    ensures ParseMask([x] + t, k) == Prepend(Flags(x), ParseMask(t, if x != 0 then k - 1 else k))
  {
    assert ([x] + t)[1..] == t;
  }

  lemma MaskStop(s: Bytes)
    ensures ParseMask(s, 0) == Done([], s)
  {
  }

  lemma MaskFail(k: nat)
    requires k > 0
    ensures ParseMask([], k) == Fail
  {
  }

  method ReadMask(r: Reader, code: nat) returns (flags: Option<seq<bool>>)
    requires r.Valid()
    modifies r
    ensures r.Valid()
    ensures ParseMask(old(r.Rest()), code) == if flags.None? then Fail else Done(flags.value, r.Rest())
  {
    hide ParseMask, Flags, BitSet;
    var avail: seq<bool> := [];
    var k := code;
    ghost var s := r.Rest();
    PrependNone(ParseMask(s, code));
    while k > 0
      invariant r.Valid() && 0 <= k && Prepend(avail, ParseMask(r.Rest(), k)) == ParseMask(s, code)
      decreases |r.data| - r.pos
    {
      var x := r.ReadByte();
      if x.None? {
        MaskFail(k);
        return None;
      }
      MaskNext(x.value, r.Rest(), k);
      PrependTwice(avail, Flags(x.value), ParseMask(r.Rest(), if x.value != 0 then k - 1 else k));
      var f := ReadFlags(x.value);
      avail := avail + f;
      if x.value != 0 { k := k - 1; }
    }
    MaskStop(r.Rest());
    assert avail + [] == avail;
    flags := Some(avail);
  }

  method ReadFlags(x: nat) returns (f: seq<bool>)
    ensures f == Flags(x)
  {
    hide BitSet;
    f := [];
    for p := 0 to 8
      invariant |f| == p && forall i :: 0 <= i < p ==> f[i] == BitSet(x, i)
    {
      f := f + [BitSet(x, p)];
    }
  }

  method ReadScript(cv: Compressor.Curve, r: Reader) returns (script: Option<Bytes>)
    requires r.Valid()
    modifies r
    ensures r.Valid()
    ensures Compressor.ParseScript(cv, old(r.Rest())) == if script.None? then Fail else Done(script.value, r.Rest())
  {
    hide Parse, Compressor.Decompress;
    var n := r.ReadVarInt();
    if n.None? { return None; }
    var size := n.value % TWO32;
    if size < Compressor.SPECIAL_SCRIPTS {
      var data := r.ReadBytes(Compressor.SpecialSize(size));
      if data.None? { return None; }
      return Some(Compressor.Decompress(cv, size, data.value));
    }
    size := size - Compressor.SPECIAL_SCRIPTS;
    var data := r.ReadBytes(size);
    if data.None? { return None; }
    script := Some(if size > Compressor.MAX_SCRIPT_SIZE then [Compressor.OP_RETURN] else data.value);
  }

  method ReadOut(cv: Compressor.Curve, r: Reader) returns (out: Option<TxOut>)
    requires r.Valid()
    modifies r
    ensures r.Valid()
    ensures ParseOut(cv, old(r.Rest())) == if out.None? then Fail else Done(out.value, r.Rest())
  {
    hide Parse, Compressor.ParseScript, Compressor.Decompressed;
    var x := r.ReadVarInt();
    if x.None? { return None; }
    var amount := Compressor.DecompressAmount(x.value % TWO64);
    var script := ReadScript(cv, r);
    if script.None? { return None; }
    out := Some(TxOut(Signed(amount, TWO64), script.value));
  }

  lemma OutsNext(cv: Compressor.Curve, avail: seq<bool>, k: nat, s: Bytes)
    requires k < |avail|
    ensures var out := if avail[k] then ParseOut(cv, s) else Done(NULL_OUT, s);
            ParseOuts(cv, avail, k, s) == if out.Fail? then Fail
                else Prepend([out.value], ParseOuts(cv, avail, k + 1, out.rest))
  {
  }

  method ReadOuts(cv: Compressor.Curve, avail: seq<bool>, r: Reader) returns (outs: Option<seq<TxOut>>)
    requires r.Valid()
    modifies r
    ensures r.Valid()
    ensures ParseOuts(cv, avail, 0, old(r.Rest())) == if outs.None? then Fail else Done(outs.value, r.Rest())
  {
    hide ParseOuts, ParseOut;
    var vout: seq<TxOut> := [];
    ghost var s := r.Rest();
    PrependNone(ParseOuts(cv, avail, 0, s));
    for i := 0 to |avail|
      invariant r.Valid() && Prepend(vout, ParseOuts(cv, avail, i, r.Rest())) == ParseOuts(cv, avail, 0, s)
    {
      OutsNext(cv, avail, i, r.Rest());
      var out := NULL_OUT;
      if avail[i] {
        var o := ReadOut(cv, r);
        if o.None? { return None; }
        out := o.value;
      }
      PrependTwice(vout, [out], ParseOuts(cv, avail, i + 1, r.Rest()));
      vout := vout + [out];
    }
    OutsStop(cv, avail, r.Rest());
    assert vout + [] == vout;
    outs := Some(vout);
  }

  lemma OutsStop(cv: Compressor.Curve, avail: seq<bool>, s: Bytes)
    ensures ParseOuts(cv, avail, |avail|, s) == Done([], s)
  {
  }

  method ReadEnd(version: int, coinBase: bool, outs: seq<TxOut>, r: Reader) returns (c: Option<Coins>)
    requires r.Valid()
    modifies r
    ensures r.Valid()
    ensures ParseEnd(version, coinBase, outs, old(r.Rest())) == if c.None? then Fail else Done(c.value, r.Rest())
  {
    hide Parse, TrimNull;
    var height := r.ReadVarInt();
    if height.None? { return None; }
    var flag := r.ReadVarInt();
    if flag.None? { return None; }
    var time := r.ReadVarInt();
    if time.None? { return None; }
    c := Some(Coins(coinBase, outs, Signed(height.value, TWO32), version, flag.value % 2 == 1,
        time.value % TWO32).Cleanup());
  }

  method Unserialize(cv: Compressor.Curve, r: Reader) returns (c: Option<Coins>)
    requires r.Valid()
    modifies r
    ensures r.Valid()
    ensures ParseCoins(cv, old(r.Rest())) == if c.None? then Fail else Done(c.value, r.Rest())
  {
    hide Parse, ParseRest, Signed;
    var version := r.ReadVarInt();
    if version.None? { return None; }
    var nCode := r.ReadVarInt();
    if nCode.None? { return None; }
    c := ReadRest(cv, Signed(version.value, TWO32), nCode.value % TWO32, r);
  }

  /** What follows the header code. */
  method ReadRest(cv: Compressor.Curve, version: int, code: nat, r: Reader) returns (c: Option<Coins>)
    requires r.Valid()
    modifies r
    ensures r.Valid()
    ensures ParseRest(cv, version, code, old(r.Rest())) == if c.None? then Fail else Done(c.value, r.Rest())
  {
    hide ParseMask, ParseOuts, ParseEnd;
    var first, second := code / 2 % 2 == 1, code / 4 % 2 == 1;
    var mask := ReadMask(r, code / 8 + (if first || second then 0 else 1));
    if mask.None? { return None; }
    var outs := ReadOuts(cv, [first, second] + mask.value, r);
    if outs.None? { return None; }
    c := ReadEnd(version, code % 2 == 1, outs.value, r);
  }

  /** Writing to the database and reading from it. */
  method StoreAndLoad(cv: Compressor.Curve, c: Coins) returns (d: Option<Coins>)
    requires Compressor.Lawful(cv) && Sound(c) && !c.IsPruned()
    ensures d == Some(c.(version := Reread(c.version), height := Reread(c.height)).Cleanup())
    ensures d == Some(c.Cleanup()) <==> c.version >= 0 && c.height >= 0
  {
    hide Compressor.Lawful, ParseCoins, Serialized;
    var bytes := Serialize(cv, c);
    var r := new Reader(bytes);
    CoinsRoundTrip(cv, c, []);
    assert bytes + [] == bytes;
    d := Unserialize(cv, r);
  }
}
