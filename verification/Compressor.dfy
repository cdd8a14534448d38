/** The compact form of a transaction output: the amount without its trailing decimal zeros,
    and the common scripts by their type. */
module Compressor {
  import opened Numbers
  import opened Options
  import opened VarInts

  const TWO64 := 0x1_0000_0000_0000_0000
  const TWO32 := 0x1_0000_0000
  const MAX_MONEY := 100_000_000_000_000_000
  const MAX_SCRIPT_SIZE := 22000
  const SPECIAL_SCRIPTS := 6

  // ---------- amounts ----------

  function Ten(e: nat): (p: nat)
    ensures p > 0
  {
    if e == 0 then 1 else 10 * Ten(e - 1)
  }

  /** m * 10^e, where either m does not end in a zero or e is nine. */
  datatype Scaled = Scaled(m: nat, e: nat)

  predicate Canonical(s: Scaled) { s.m > 0 && s.e <= 9 && (s.e < 9 ==> s.m % 10 != 0) }

  function Amount(s: Scaled): nat { s.m * Ten(s.e) }

  function Strip(n: nat, e: nat): (s: Scaled)
    requires n > 0 && e <= 9
    ensures Canonical(s) && s.e >= e
    decreases 9 - e
  {
    if n % 10 == 0 && e < 9 then Strip(n / 10, e + 1) else Scaled(n, e)
  }

  function Pack(s: Scaled): nat
    requires Canonical(s)
  {
    if s.e < 9 then 1 + (s.m / 10 * 9 + s.m % 10 - 1) * 10 + s.e else 1 + (s.m - 1) * 10 + 9
  }

  function Unpack(x: nat): (s: Scaled)
    requires x > 0
    ensures Canonical(s)
  {
    var e, z := (x - 1) % 10, (x - 1) / 10;
    if e < 9 then Scaled(z / 9 * 10 + z % 9 + 1, e) else Scaled(z + 1, e)
  }

  function Compressed(n: nat): nat { if n == 0 then 0 else Pack(Strip(n, 0)) }

  function Decompressed(x: nat): nat { if x == 0 then 0 else Amount(Unpack(x)) }

  lemma {:induction false} StripIs(n: nat, e: nat)
    requires n > 0 && e <= 9
    ensures n * Ten(e) == Amount(Strip(n, e))
    decreases 9 - e
  {
    if n % 10 == 0 && e < 9 {
      StripIs(n / 10, e + 1);
      assert n == n / 10 * 10;
      Assoc(n / 10, 10, Ten(e));
    }
  }

  lemma StripMore(k: nat, e: nat)
    requires k > 0 && e < 9
    ensures Strip(10 * k, e) == Strip(k, e + 1)
  {
    DivIs(10 * k, 10, k);
  }

  lemma {:induction false} StripOf(s: Scaled, e: nat)
    requires Canonical(s) && e <= s.e
    ensures s.m * Ten(s.e - e) > 0 && Strip(s.m * Ten(s.e - e), e) == s
    decreases s.e - e
  {
    if e < s.e {
      StripOf(s, e + 1);
      hide Strip;
      var k := s.m * Ten(s.e - e - 1);
      Assoc(s.m, 10, Ten(s.e - e - 1));
      Assoc(10, s.m, Ten(s.e - e - 1));
      assert s.m * Ten(s.e - e) == 10 * k;
      StripMore(k, e);
    }
  }

  lemma UnpackPack(s: Scaled)
    requires Canonical(s)
    ensures Pack(s) > 0 && Unpack(Pack(s)) == s
  {
    if s.e < 9 {
      var q, r := s.m / 10, s.m % 10;
      var z := q * 9 + r - 1;
      Split10(z, s.e);
      Split9(q, r - 1);
      assert Pack(s) == z * 10 + s.e + 1;
    }
  }

  lemma Split10(z: nat, e: nat)
    requires e < 10
    ensures (z * 10 + e) / 10 == z && (z * 10 + e) % 10 == e
  {
  }

  lemma Split9(q: nat, r: nat)
    requires r < 9
    ensures (q * 9 + r) / 9 == q && (q * 9 + r) % 9 == r
  {
  }

  lemma PackUnpack(x: nat)
    requires x > 0
    ensures Pack(Unpack(x)) == x
  {
  }

  /** Compression is a bijection of the natural numbers. */
  lemma CompressedBack(n: nat)
    ensures Decompressed(Compressed(n)) == n && Compressed(Decompressed(n)) == n
  {
    hide Strip, Pack, Unpack;
    if n > 0 {
      StripIs(n, 0);
      UnpackPack(Strip(n, 0));
      PackUnpack(n);
      StripOf(Unpack(n), 0);
    }
  }

  /** Every valid amount fits in 64 bits. */
  lemma CompressedFits(n: nat)
    ensures Compressed(n) <= 9 * n + 8
  {
    hide Strip, Pack, Ten;
    if n > 0 {
      var s := Strip(n, 0);
      StripIs(n, 0);
      TenOfZero();
      PackLess(s);
      MulLe(1, Ten(s.e), s.m);
      if s.e == 9 {
        TenOfNine();
        MulLe(10, Ten(9), s.m);
      }
    }
  }

  lemma PackLess(s: Scaled)
    requires Canonical(s)
    ensures Pack(s) <= if s.e == 9 then 10 * s.m else 9 * s.m + s.e
  {
    var q := s.m / 10;
    assert s.m == 10 * q + s.m % 10;
  }

  lemma TenOfZero()
    ensures Ten(0) == 1
  {
  }

  lemma TenOfNine()
    ensures Ten(9) >= 10
  {
  }

  /** In 64-bit arithmetic. */
  method CompressAmount(amount: nat) returns (r: nat)
    requires amount < TWO64
    ensures r == Compressed(amount) % TWO64
  {
    if amount == 0 { return 0; }
    var n, e := amount, 0;
    while n % 10 == 0 && e < 9
      invariant n > 0 && 0 <= e <= 9 && Strip(n, e) == Strip(amount, 0)
      decreases 9 - e
    {
      n, e := n / 10, e + 1;
    }
    if e < 9 {
      var d := n % 10;
      n := n / 10;
      r := (1 + (n * 9 + d - 1) * 10 + e) % TWO64;
    } else {
      r := (1 + (n - 1) * 10 + 9) % TWO64;
    }
  }

  method DecompressAmount(x: nat) returns (r: nat)
    requires x < TWO64
    ensures r == Decompressed(x) % TWO64
  {
    hide Amount, Ten;
    if x == 0 { return 0; }
    var y := x - 1;
    var e := y % 10;
    y := y / 10;
    var n: nat := 0;
    if e < 9 {
      var d := y % 9 + 1;
      y := y / 9;
      n := y * 10 + d;
    } else {
      n := y + 1;
    }
    assert Scaled(n, e) == Unpack(x);
    r := ScaleUp(n, e);
  }

  /** Appends decimal zeros, in 64-bit arithmetic. */
  method ScaleUp(m: nat, zeros: nat) returns (n: nat)
    ensures n == Amount(Scaled(m, zeros)) % TWO64
  {
    hide Ten, Amount;
    n := m % TWO64;
    var e := zeros;
    WrapAmount(m, zeros);
    while e != 0
      invariant 0 <= e <= zeros && n < TWO64 && Amount(Scaled(n, e)) % TWO64 == Amount(Scaled(m, zeros)) % TWO64
    {
      MoveZero(n, e);
      WrapAmount(n * 10, e - 1);
      n := (n * 10) % TWO64;
      e := e - 1;
    }
    NoZeros(n);
  }

  lemma NoZeros(n: nat)
    ensures Amount(Scaled(n, 0)) == n
  {
  }

  lemma MoveZero(n: nat, e: nat)
    requires e > 0
    ensures Amount(Scaled(n * 10, e - 1)) == Amount(Scaled(n, e))
  {
    Assoc(n, 10, Ten(e - 1));
  }

  /** Wrapping a factor does not change the product modulo 2^64. */
  lemma WrapAmount(n: nat, e: nat)
    ensures Amount(Scaled(n % TWO64, e)) % TWO64 == Amount(Scaled(n, e)) % TWO64
  {
    hide Ten;
    var q, r, p := n / TWO64, n % TWO64, Ten(e);
    assert n == q * TWO64 + r;
    var d := r * p / TWO64;
    assert r * p == d * TWO64 + r * p % TWO64;
    assert n * p == (q * p + d) * TWO64 + r * p % TWO64 by { Spread(q, r, p, d); }
    DivIs(n * p, TWO64, q * p + d);
  }

  lemma Spread(q: int, r: int, p: int, d: int)
    requires r * p == d * TWO64 + (r * p) % TWO64
    ensures (q * TWO64 + r) * p == (q * p + d) * TWO64 + (r * p) % TWO64
  {
    assert (q * TWO64 + r) * p == q * TWO64 * p + r * p;
    assert q * TWO64 * p == q * p * TWO64;
  }

  method AmountRoundTrip(amount: nat) returns (r: nat)
    requires amount <= MAX_MONEY
    ensures r == amount
  {
    hide Compressed, Decompressed;
    CompressedFits(amount);
    CompressedBack(amount);
    var x := CompressAmount(amount);
    r := DecompressAmount(x);
  }

  // ---------- scripts ----------

  const OP_RETURN := 0x6a
  const OP_DUP := 0x76
  const OP_EQUAL := 0x87
  const OP_EQUALVERIFY := 0x88
  const OP_HASH160 := 0xa9
  const OP_CHECKSIG := 0xac

  /** The curve: which 65-byte keys are valid, and the full form of a 33-byte key. */
  datatype Curve = Curve(valid: Bytes -> bool, expand: Bytes -> Option<Bytes>)

  /** A valid key is determined by its first coordinate and the parity of the second. */
  ghost predicate Lawful(c: Curve) {
    forall k :: |k| == 65 && k[0] == 4 && c.valid(k) ==> c.expand([2 + k[64] % 2] + k[1..33]) == Some(k)
  }

  predicate IsToKeyID(s: Bytes) {
    |s| == 25 && s[0] == OP_DUP && s[1] == OP_HASH160 && s[2] == 20 && s[23] == OP_EQUALVERIFY && s[24] == OP_CHECKSIG
  }

  predicate IsToScriptID(s: Bytes) {
    |s| == 23 && s[0] == OP_HASH160 && s[1] == 20 && s[22] == OP_EQUAL
  }

  predicate IsToShortKey(s: Bytes) {
    |s| == 35 && s[0] == 33 && s[34] == OP_CHECKSIG && (s[1] == 2 || s[1] == 3)
  }

  predicate IsToFullKey(c: Curve, s: Bytes) {
    |s| == 67 && s[0] == 65 && s[66] == OP_CHECKSIG && s[1] == 4 && c.valid(s[1..66])
  }

  function Compress(c: Curve, s: Bytes): Option<Bytes> {
    if IsToKeyID(s) then Some([0] + s[3..23])
    else if IsToScriptID(s) then Some([1] + s[2..22])
    else if IsToShortKey(s) then Some([s[1]] + s[2..34])
    else if IsToFullKey(c, s) then Some([4 + s[65] % 2] + s[2..34])
    else None
  }

  function SpecialSize(n: nat): nat { if n <= 1 then 20 else 32 }

  /** The script of a special form; a key that is not on the curve leaves it empty. */
  function Decompress(c: Curve, n: nat, data: Bytes): Bytes
    requires n < SPECIAL_SCRIPTS && |data| == SpecialSize(n)
  {
    if n == 0 then [OP_DUP, OP_HASH160, 20] + data + [OP_EQUALVERIFY, OP_CHECKSIG]
    else if n == 1 then [OP_HASH160, 20] + data + [OP_EQUAL]
    else if n <= 3 then [33, n] + data + [OP_CHECKSIG]
    else
      var k := c.expand([n - 2] + data);
      if k.None? then [] else [65] + k.value + [OP_CHECKSIG]
  }

  /** The size is a 32-bit number. */
  function ScriptBytes(c: Curve, s: Bytes): Bytes {
    var short := Compress(c, s);
    if short.Some? then short.value else VarInt((|s| + SPECIAL_SCRIPTS) % TWO32) + s
  }

  /** Overlong scripts are replaced by one that cannot be spent. */
  function ParseScript(c: Curve, s: Bytes): Parsed<Bytes> {
    var head := Parse(s, 0);
    if head.Fail? then Fail else
    var n, t := head.value % TWO32, head.rest;
    if n < SPECIAL_SCRIPTS then
      var k := SpecialSize(n);
      if |t| < k then Fail else Done(Decompress(c, n, t[..k]), t[k..])
    else
      var k := n - SPECIAL_SCRIPTS;
      if |t| < k then Fail else Done(if k > MAX_SCRIPT_SIZE then [OP_RETURN] else t[..k], t[k..])
  }

  /** The compact form of a script gives the script back. */
  lemma CompressBack(c: Curve, s: Bytes)
    requires Lawful(c) && Compress(c, s).Some?
    ensures var out := Compress(c, s).value;
            |out| > 0 && out[0] < SPECIAL_SCRIPTS && |out| == 1 + SpecialSize(out[0])
                && Decompress(c, out[0], out[1..]) == s
  {
    var out := Compress(c, s).value;
    if IsToKeyID(s) {
      assert out[1..] == s[3..23];
      assert [OP_DUP, OP_HASH160, 20] + s[3..23] + [OP_EQUALVERIFY, OP_CHECKSIG] == s;
    } else if IsToScriptID(s) {
      assert out[1..] == s[2..22];
      assert [OP_HASH160, 20] + s[2..22] + [OP_EQUAL] == s;
    } else if IsToShortKey(s) {
      assert out[1..] == s[2..34];
      assert [33, s[1]] + s[2..34] + [OP_CHECKSIG] == s;
    } else {
      FullKeyBack(c, s);
    }
  }

  lemma FullKeyBack(c: Curve, s: Bytes)
    requires Lawful(c) && IsToFullKey(c, s)
    ensures var out := [4 + s[65] % 2] + s[2..34]; Decompress(c, out[0], out[1..]) == s
  {
    var k, out := s[1..66], [4 + s[65] % 2] + s[2..34];
    assert k[1..33] == s[2..34] && k[64] == s[65] && k[0] == 4;
    assert out[1..] == s[2..34];
    assert c.expand([2 + k[64] % 2] + k[1..33]) == Some(k);
    assert [65] + k + [OP_CHECKSIG] == s;
  }

  /** A script is read back unchanged exactly if it is not overlong; if its size fits in 32
      bits it is then replaced. */
  lemma ScriptRoundTrip(c: Curve, s: Bytes, t: Bytes)
    requires Lawful(c)
    ensures ParseScript(c, ScriptBytes(c, s) + t) == Done(s, t) <==> |s| <= MAX_SCRIPT_SIZE
    ensures |s| + SPECIAL_SCRIPTS < TWO32 ==>
              ParseScript(c, ScriptBytes(c, s) + t) == Done(if |s| > MAX_SCRIPT_SIZE then [OP_RETURN] else s, t)
  {
    hide Decompress, Parse, VarInt, Lawful;
    var short := Compress(c, s);
    if short.Some? {
      CompressBack(c, s);
      var out := short.value;
      var n := out[0];
      assert out + t == [n] + (out[1..] + t);
      OneByte(n, 0, out[1..] + t);
      var k := SpecialSize(n);
      assert (out[1..] + t)[..k] == out[1..] && (out[1..] + t)[k..] == t;
      assert |s| <= MAX_SCRIPT_SIZE;
    } else {
      PlainRoundTrip(c, s, t);
    }
  }

  /** A script without a short form. */
  lemma PlainRoundTrip(c: Curve, s: Bytes, t: Bytes)
    requires Compress(c, s).None?
    ensures ParseScript(c, ScriptBytes(c, s) + t) == Done(s, t) <==> |s| <= MAX_SCRIPT_SIZE
    ensures |s| + SPECIAL_SCRIPTS < TWO32 ==>
              ParseScript(c, ScriptBytes(c, s) + t) == Done(if |s| > MAX_SCRIPT_SIZE then [OP_RETURN] else s, t)
  {
    hide Compress, Decompress, Parse, VarInt;
    var n := (|s| + SPECIAL_SCRIPTS) % TWO32;
    VarIntRoundTrip(n, s + t);
    assert VarInt(n) + s + t == VarInt(n) + (s + t);
    if |s| + SPECIAL_SCRIPTS < TWO32 {
      assert (s + t)[..|s|] == s && (s + t)[|s|..] == t;
    } else {
      TooShort(n, |s|);
      assert ParseScript(c, ScriptBytes(c, s) + t).rest != t;
    }
  }

  /** A size that wrapped leaves bytes unread. */
  lemma TooShort(n: nat, size: nat)
    requires n == (size + SPECIAL_SCRIPTS) % TWO32 && size + SPECIAL_SCRIPTS >= TWO32
    ensures n < size && SpecialSize(n) < size
  {
  }
}
