/** Variable-length integers: base 128, most significant digit first, and one is taken off
    every continued digit so that no number has two forms. */
module VarInts {
  import opened Numbers
  import opened Options

  /** Bytes as numbers below 256. */
  type Bytes = seq<nat>

  ghost predicate Octets(s: Bytes) { forall i :: 0 <= i < |s| ==> s[i] < 256 }

  /** What a reader gets: a value and the bytes that follow, or the end of the data. */
  datatype Parsed<T> = Fail | Done(value: T, rest: Bytes)

  function Low(n: nat, more: bool): (b: nat)
    ensures b < 256
  {
    n % 128 + (if more then 128 else 0)
  }

  /** The form of n, continued by more bytes or not. */
  function Tail(n: nat, more: bool): (s: Bytes)
    ensures s != [] && Octets(s)
  {
    if n <= 0x7F then [Low(n, more)] else Tail(n / 128 - 1, true) + [Low(n, more)]
  }

  /** A negative number passes the test for the last byte at once, and only its low seven
      bits are written. */
  function VarInt(n: int): (s: Bytes)
    ensures Octets(s)
  {
    if n < 0 then [n % 128] else Tail(n, false)
  }

  function Parse(s: Bytes, n: nat): Parsed<nat> {
    if s == [] then Fail else
    var m := n * 128 + s[0] % 128;
    if s[0] >= 128 then Parse(s[1..], m + 1) else Done(m, s[1..])
  }

  lemma {:induction false} ParseTail(n: nat, more: bool, t: Bytes)
    ensures Parse(Tail(n, more) + t, 0) == if more then Parse(t, n + 1) else Done(n, t)
    decreases n
  {
    hide Parse, Low;
    if n <= 0x7F {
      LowByte(n, more, 0, t);
    } else {
      var m := n / 128 - 1;
      ParseTail(m, true, [Low(n, more)] + t);
      assert Tail(n, more) + t == Tail(m, true) + ([Low(n, more)] + t);
      LowByte(n, more, m + 1, t);
    }
  }

  lemma LowByte(n: nat, more: bool, high: nat, t: Bytes)
    requires high == n / 128
    ensures Parse([Low(n, more)] + t, high) == if more then Parse(t, n + 1) else Done(n, t)
  {
    hide Parse;
    OneByte(Low(n, more), high, t);
  }

  lemma OneByte(b: nat, n: nat, t: Bytes)
    ensures Parse([b] + t, n) == if b >= 128 then Parse(t, n * 128 + b % 128 + 1) else Done(n * 128 + b, t)
  {
    assert ([b] + t)[1..] == t;
  }

  /** Reading gives back what was written exactly if it was not negative. */
  lemma VarIntRoundTrip(n: int, t: Bytes)
    ensures Parse(VarInt(n) + t, 0) == Done(if n < 0 then n % 128 else n, t)
    ensures Parse(VarInt(n) + t, 0) == Done(n as int, t) <==> n >= 0
  {
    if n < 0 { OneByte(n % 128, 0, t); } else { ParseTail(n, false, t); }
  }

  function Reversed(s: Bytes): (r: Bytes)
    ensures |r| == |s|
  {
    if s == [] then [] else [s[|s| - 1]] + Reversed(s[..|s| - 1])
  }

  lemma ReversedMore(s: Bytes, b: nat)
    ensures Reversed(s + [b]) == [b] + Reversed(s)
  {
    assert (s + [b])[..|s|] == s;
  }

  /** The digits found so far, last ones first, and what is left of n. */
  ghost predicate Taken(n: nat, m: nat, tmp: Bytes, bits: nat) {
    Tail(n, false) == Tail(m, tmp != []) + Reversed(tmp) && m * Pow2(7 * |tmp|) < Pow2(bits)
  }

  lemma TakenStart(n: nat, bits: nat)
    requires n < Pow2(bits)
    ensures Taken(n, n, [], bits)
  {
    assert Tail(n, false) + [] == Tail(n, false);
    assert Pow2(0) == 1;
  }

  /** One more digit, and still room for the next. */
  lemma TakenMore(n: nat, m: nat, tmp: Bytes, bits: nat)
    requires Taken(n, m, tmp, bits) && m > 0x7F
    ensures Taken(n, m / 128 - 1, tmp + [Low(m, tmp != [])], bits) && 7 * (|tmp| + 1) < bits
  {
    hide Pow2, Low;
    var b, k := Low(m, tmp != []), m / 128 - 1;
    ReversedMore(tmp, b);
    assert Tail(m, tmp != []) == Tail(k, true) + [b];
    assert Tail(k, true) + [b] + Reversed(tmp) == Tail(k, true) + ([b] + Reversed(tmp));
    RoomLeft(m, k, |tmp|, bits);
  }

  lemma RoomLeft(m: nat, k: nat, len: nat, bits: nat)
    requires m * Pow2(7 * len) < Pow2(bits) && 128 * k <= m && m > 0x7F
    ensures k * Pow2(7 * (len + 1)) < Pow2(bits) && 7 * (len + 1) < bits
  {
    hide Pow2;
    var p := Pow2(7 * len);
    Times128(7 * len);
    MulLe(128, m, p);
    MulLe(k * 128, m, p);
    Assoc(k, 128, p);
    if 7 * (len + 1) >= bits { Pow2Le(bits, 7 * (len + 1)); }
  }

  lemma Times128(k: nat)
    ensures Pow2(k + 7) == 128 * Pow2(k)
  {
    assert Pow2(k + 7) == 2 * Pow2(k + 6);
    assert Pow2(k + 6) == 2 * Pow2(k + 5);
    assert Pow2(k + 5) == 2 * Pow2(k + 4);
    assert Pow2(k + 4) == 2 * Pow2(k + 3);
    assert Pow2(k + 3) == 2 * Pow2(k + 2);
    assert Pow2(k + 2) == 2 * Pow2(k + 1);
  }

  /** Writes a number of a type with so many bits; the buffer is never too small. */
  method WriteVarInt(n: int, bits: nat) returns (out: Bytes)
    requires n < Pow2(bits) && bits > 0
    ensures out == VarInt(n)
  {
    hide Pow2, Tail, Reversed;
    var tmp, len := LastFirst(n, bits);
    out := Emit(tmp, len);
  }

  /** How many groups of seven bits there are. */
  function Groups7(bits: nat): nat { (bits + 6) / 7 }

  lemma GroupsFit(bits: nat, k: nat)
    requires 7 * k < bits
    ensures k < Groups7(bits)
  {
  }

  method LastFirst(n: int, bits: nat) returns (tmp: array<nat>, len: nat)
    requires n < Pow2(bits) && bits > 0
    ensures len < tmp.Length && Reversed(tmp[..len + 1]) == VarInt(n)
  {
    hide Tail, Low, Pow2, Reversed, Taken, Groups7;
    tmp := new nat[Groups7(bits)];
    GroupsFit(bits, 0);
    len := 0;
    if n < 0 {
      tmp[0] := n % 128;
      assert tmp[..1] == [] + [n % 128];
      ReversedMore([], n % 128);
      ReversedNone();
      return;
    }
    var m := n;
    TakenStart(n, bits);
    assert tmp[..0] == [];
    while true
      invariant len < tmp.Length && m >= 0 && Taken(n, m, tmp[..len], bits)
      decreases m
    {
      tmp[len] := Low(m, len > 0);
      assert tmp[..len + 1] == tmp[..len] + [Low(m, len > 0)];
      if m <= 0x7F { break; }
      TakenMore(n, m, tmp[..len], bits);
      GroupsFit(bits, len + 1);
      m := m / 128 - 1;
      len := len + 1;
    }
    TakenEnd(n, m, tmp[..len], bits, tmp[len]);
  }

  method Emit(tmp: array<nat>, len: nat) returns (out: Bytes)
    requires len < tmp.Length
    ensures out == Reversed(tmp[..len + 1])
  {
    hide Reversed;
    out := [];
    var left := len;
    ReversedNone();
    while left >= 0
      invariant -1 <= left <= len && out + Reversed(tmp[..left + 1]) == Reversed(tmp[..len + 1])
    {
      ReversedMore(tmp[..left], tmp[left]);
      assert tmp[..left + 1] == tmp[..left] + [tmp[left]];
      assert out + ([tmp[left]] + Reversed(tmp[..left])) == (out + [tmp[left]]) + Reversed(tmp[..left]);
      out := out + [tmp[left]];
      left := left - 1;
    }
    assert tmp[..0] == [] && out + [] == out;
  }

  lemma ReversedNone()
    ensures Reversed([]) == []
  {
  }

  lemma TakenEnd(n: nat, m: nat, tmp: Bytes, bits: nat, b: nat)
    requires Taken(n, m, tmp, bits) && m <= 0x7F && b == Low(m, tmp != [])
    ensures Tail(n, false) == Reversed(tmp + [b])
  {
    ReversedMore(tmp, b);
  }

  /** A place in some data that is being read. */
  class Reader {
    const data: Bytes
    var pos: nat

    constructor (data: Bytes)
      ensures Valid() && Rest() == data
    {
      this.data, pos := data, 0;
    }

    ghost predicate Valid()
      reads this
    {
      pos <= |data|
    }

    ghost function Rest(): Bytes
      requires Valid()
      reads this
    {
      data[pos..]
    }

    method ReadByte() returns (r: Option<nat>)
      requires Valid()
      modifies this
      ensures Valid() && (r.None? <==> old(Rest()) == [])
      ensures r.Some? ==> old(Rest()) == [r.value] + Rest()
    {
      if pos == |data| { return None; }
      pos := pos + 1;
      r := Some(data[pos - 1]);
    }

    method ReadBytes(n: nat) returns (r: Option<Bytes>)
      requires Valid()
      modifies this
      ensures Valid() && (r.None? <==> |old(Rest())| < n)
      ensures r.Some? ==> r.value == old(Rest())[..n] && Rest() == old(Rest())[n..]
    {
      if |data| - pos < n { return None; }
      r := Some(data[pos..pos + n]);
      pos := pos + n;
    }

    method ReadVarInt() returns (r: Option<nat>)
      requires Valid()
      modifies this
      ensures Valid()
      ensures Parse(old(Rest()), 0) == if r.None? then Fail else Done(r.value, Rest())
    {
      hide Parse;
      var n: nat := 0;
      ghost var s := Rest();
      while true
        invariant Valid() && Parse(Rest(), n) == Parse(s, 0)
        decreases |data| - pos
      {
        ghost var t := Rest();
        var b := ReadByte();
        if b.None? {
          ParseNone(n);
          return None;
        }
        OneByte(b.value, n, Rest());
        n := n * 128 + b.value % 128;
        if b.value >= 128 { n := n + 1; } else { return Some(n); }
      }
    }
  }

  lemma ParseNone(n: nat)
    ensures Parse([], n) == Fail
  {
  }
}
