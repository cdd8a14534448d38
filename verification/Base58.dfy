/** Base 58 text for byte strings, with and without a checksum. */
module Base58 {
  import opened Numbers
  import opened Options
  import opened Radix

  type Bytes = seq<nat>

  /** All alphanumeric characters except 0, I, O and l, in order. */
  function CharOf(d: nat): char
    requires d < 58
  {
    if d < 9 then '1' + d as char
    else if d < 17 then 'A' + (d - 9) as char
    else if d < 22 then 'J' + (d - 17) as char
    else if d < 33 then 'P' + (d - 22) as char
    else if d < 44 then 'a' + (d - 33) as char
    else 'm' + (d - 44) as char
  }

  lemma Alphabet()
    ensures "123456789ABCDEFGHJKLMNPQRSTUVWXYZabcdefghijkmnopqrstuvwxyz" ==
            [CharOf(0), CharOf(1), CharOf(2), CharOf(3), CharOf(4), CharOf(5), CharOf(6), CharOf(7),
             CharOf(8), CharOf(9), CharOf(10), CharOf(11), CharOf(12), CharOf(13), CharOf(14), CharOf(15),
             CharOf(16), CharOf(17), CharOf(18), CharOf(19), CharOf(20), CharOf(21), CharOf(22), CharOf(23),
             CharOf(24), CharOf(25), CharOf(26), CharOf(27), CharOf(28), CharOf(29), CharOf(30), CharOf(31),
             CharOf(32), CharOf(33), CharOf(34), CharOf(35), CharOf(36), CharOf(37), CharOf(38), CharOf(39),
             CharOf(40), CharOf(41), CharOf(42), CharOf(43), CharOf(44), CharOf(45), CharOf(46), CharOf(47),
             CharOf(48), CharOf(49), CharOf(50), CharOf(51), CharOf(52), CharOf(53), CharOf(54), CharOf(55),
             CharOf(56), CharOf(57)]
  {
  }

  lemma CharsDiffer(d: nat, e: nat)
    requires d < 58 && e < 58 && CharOf(d) == CharOf(e)
    ensures d == e
  {
  }

  // ---------- the buffers are large enough ----------

  lemma Eleven()
    ensures Pow(256, 8) <= Pow(58, 11)
  {
    assert Pow(58, 1) == 58;
    PowAdd(58, 1, 1);
    PowAdd(58, 2, 2);
    PowAdd(58, 4, 4);
    PowAdd(58, 8, 2);
    PowAdd(58, 10, 1);
    assert Pow(256, 1) == 256;
    PowAdd(256, 1, 1);
    PowAdd(256, 2, 2);
    PowAdd(256, 4, 4);
  }

  lemma Power58()
    ensures Pow(58, 8) == 128063081718016
    ensures Pow(58, 7) == 2207984167552
  {
    assert Pow(58, 1) == 58;
    PowAdd(58, 1, 1);
    PowAdd(58, 2, 2);
    PowAdd(58, 4, 4);
    PowAdd(58, 4, 2);
    PowAdd(58, 6, 1);
  }

  lemma SeventyOne()
    ensures Pow(58, 71) <= Pow(256, 52)
  {
    hide Pow;
    Power58();
    Power256();
    PowAdd(58, 8, 8);
    PowAdd(58, 16, 16);
    PowAdd(58, 32, 32);
    PowAdd(58, 64, 7);
    PowAdd(256, 4, 4);
    PowAdd(256, 8, 8);
    PowAdd(256, 16, 16);
    PowAdd(256, 32, 16);
    PowAdd(256, 48, 4);
    assert Pow(58, 16) == 16400152899115243850138976256;
    assert Pow(58, 32) == 268965015114358137726910587140455987105619365599731777536;
    assert Pow(58, 64) ==
        72342179355466901471258927612150153907721848234316445933056526044582001260898145151856420451025374266490194231296;
    assert Pow(256, 48) ==
        39402006196394479212279040100143613805079739270465446667948293404245721771497210611414266254884915640806627990306816;
  }

  lemma Power256()
    ensures Pow(256, 4) == 0x1_0000_0000
  {
    assert Pow(256, 1) == 256;
    PowAdd(256, 1, 1);
    PowAdd(256, 2, 2);
  }

  lemma EncodeFits(n: nat)
    ensures Pow(256, n) <= Pow(58, n * 138 / 100 + 1)
  {
    hide Pow;
    Eleven();
    var size := n * 138 / 100 + 1;
    Enough(256, 58, 8, 11, n, size);
  }

  lemma DecodeFits(n: nat)
    ensures Pow(58, n) <= Pow(256, n * 733 / 1000 + 1)
  {
    hide Pow;
    SeventyOne();
    var size := n * 733 / 1000 + 1;
    Enough(58, 256, 71, 52, n, size);
  }

  // ---------- characters and digits ----------

  function Search(c: char, d: nat): (r: Option<nat>)
    requires d <= 58
    ensures r.Some? ==> d <= r.value < 58 && CharOf(r.value) == c
    ensures r.None? ==> forall e :: d <= e < 58 ==> CharOf(e) != c
    decreases 58 - d
  {
    if d == 58 then None else if CharOf(d) == c then Some(d) else Search(c, d + 1)
  }

  function DigitOf(c: char): Option<nat> { Search(c, 0) }

  lemma DigitOfChar(d: nat)
    requires d < 58
    ensures DigitOf(CharOf(d)) == Some(d)
  {
    hide CharOf;
    var r := Search(CharOf(d), 0);
    CharsDiffer(r.value, d);
  }

  function Chars(ds: seq<nat>): (s: string)
    requires Digital(ds, 58)
    ensures |s| == |ds| && forall i :: 0 <= i < |ds| ==> s[i] == CharOf(ds[i])
  {
    seq(|ds|, i requires 0 <= i < |ds| => CharOf(ds[i]))
  }

  /** The digits of a text, if all its characters are in the alphabet. */
  function Values(s: string): (r: Option<seq<nat>>)
    ensures r.Some? ==> |r.value| == |s| && Digital(r.value, 58) && forall i :: 0 <= i < |s| ==>
              s[i] == CharOf(r.value[i])
  {
    if s == [] then Some([]) else
    var front, last := Values(s[..|s| - 1]), DigitOf(s[|s| - 1]);
    if front.Some? && last.Some? then Some(front.value + [last.value]) else None
  }

  lemma {:induction false} ValuesOfChars(ds: seq<nat>)
    requires Digital(ds, 58)
    ensures Values(Chars(ds)) == Some(ds)
    decreases |ds|
  {
    if ds != [] {
      var front, last := ds[..|ds| - 1], ds[|ds| - 1];
      ValuesOfChars(front);
      DigitOfChar(last);
      assert Chars(ds)[..|ds| - 1] == Chars(front);
      assert front + [last] == ds;
    }
  }

  lemma CharsOfValues(s: string)
    requires Values(s).Some?
    ensures Chars(Values(s).value) == s
  {
  }

  predicate IsSpace(c: char) {
    c == ' ' || c == '\t' || c == '\n' || c == '\r' || c == '\U{000B}' || c == '\U{000C}'
  }

  predicate AllSpace(s: string) { forall i :: 0 <= i < |s| ==> IsSpace(s[i]) }

  predicate NoSpace(s: string) { forall i :: 0 <= i < |s| ==> !IsSpace(s[i]) }

  lemma {:induction false} NoSpaceInValues(s: string)
    requires Values(s).Some?
    ensures NoSpace(s)
  {
    forall i | 0 <= i < |s| ensures !IsSpace(s[i]) {
      assert s[i] == CharOf(Values(s).value[i]);
    }
  }

  // ---------- the codec ----------

  function Encoded(bytes: Bytes): string
    requires Digital(bytes, 256)
  {
    ConvertBack(bytes, 256, 58);
    Chars(Convert(bytes, 256, 58))
  }

  /** How many spaces a text starts with, and how many other characters. */
  function Spaces(s: string): (n: nat)
    ensures n <= |s| && AllSpace(s[..n]) && (n < |s| ==> !IsSpace(s[n]))
  {
    if s == [] || !IsSpace(s[0]) then 0 else
    var n := 1 + Spaces(s[1..]);
    assert s[..n] == [s[0]] + s[1..][..n - 1];
    n
  }

  function Word(s: string): (n: nat)
    ensures n <= |s| && NoSpace(s[..n]) && (n < |s| ==> IsSpace(s[n]))
  {
    if s == [] || IsSpace(s[0]) then 0 else
    var n := 1 + Word(s[1..]);
    assert s[..n] == [s[0]] + s[1..][..n - 1];
    n
  }

  /** Spaces around the text are ignored. */
  function Decoded(s: string): Option<Bytes> {
    var t := s[Spaces(s)..];
    var n := Word(t);
    var values := Values(t[..n]);
    if !AllSpace(t[n..]) || values.None? then None else Some(Convert(values.value, 58, 256))
  }

  lemma WordIs(s: string)
    requires NoSpace(s)
    ensures Spaces(s) == 0 && Word(s) == |s|
  {
  }

  lemma DecodedPlain(s: string)
    requires NoSpace(s)
    ensures Decoded(s) == if Values(s).Some? then Some(Convert(Values(s).value, 58, 256)) else None
  {
    hide Values, Convert;
    WordIs(s);
    assert s[0..] == s && s[..|s|] == s && AllSpace(s[|s|..]);
  }

  /** Decoding undoes encoding. */
  lemma DecodeEncode(bytes: Bytes)
    requires Digital(bytes, 256)
    ensures Decoded(Encoded(bytes)) == Some(bytes)
  {
    hide Values, Convert, Chars, Decoded;
    ConvertBack(bytes, 256, 58);
    var ds := Convert(bytes, 256, 58);
    ValuesOfChars(ds);
    NoSpaceInValues(Chars(ds));
    DecodedPlain(Chars(ds));
  }

  /** Encoding undoes decoding, on texts without spaces. */
  lemma EncodeDecode(s: string)
    requires NoSpace(s) && Decoded(s).Some?
    ensures Digital(Decoded(s).value, 256) && Encoded(Decoded(s).value) == s
  {
    hide Values, Convert, Chars, Decoded;
    DecodedPlain(s);
    ConvertBack(Values(s).value, 58, 256);
    CharsOfValues(s);
  }

  method EncodeBase58(bytes: Bytes) returns (str: string)
    requires Digital(bytes, 256)
    ensures str == Encoded(bytes)
  {
    hide Num, Pow, Digits;
    var zeroes := 0;
    while zeroes < |bytes| && bytes[zeroes] == 0
      invariant 0 <= zeroes <= |bytes| && forall i :: 0 <= i < zeroes ==> bytes[i] == 0
    {
      zeroes := zeroes + 1;
    }
    var rest := bytes[zeroes..];
    var size := |rest| * 138 / 100 + 1;
    var b58 := new nat[size](_ => 0);
    EncodeFits(|rest|);
    var length := 0;
    AllZeros(b58[..], 58);
    NumNone(256);
    for j := 0 to |rest|
      invariant Digital(b58[..], 58) && Num(b58[..], 58) == Num(rest[..j], 256)
      invariant 0 <= length <= size && forall k :: 0 <= k < size - length ==> b58[k] == 0
    {
      Room(rest, j, 256, 58, size);
      length := MultiplyAdd(b58, length, 256, rest[j], 58);
    }
    assert rest[..|rest|] == rest;
    var digits := Stripped(b58, length, 58);
    assert zeroes == Leading(bytes);
    str := Text(zeroes, digits);
    assert Zeros(zeroes) + digits == Convert(bytes, 256, 58);
  }

  lemma AllZeros(s: seq<nat>, base: nat)
    requires forall i :: 0 <= i < |s| ==> s[i] == 0
    ensures Num(s, base) == 0
  {
    hide Num;
    assert Zeros(|s|) + [] == s;
    NumZeros(|s|, [], base);
    NumNone(base);
  }

  /** One more digit fits. */
  lemma Room(s: seq<nat>, j: nat, from: nat, to: nat, size: nat)
    requires j < |s| && Digital(s, from) && from > 0 && Pow(from, |s|) <= Pow(to, size)
    ensures from * Num(s[..j], from) + s[j] == Num(s[..j + 1], from) < Pow(to, size)
  {
    hide Num, Pow;
    NumStep(s[..j], s[j], from);
    assert s[..j] + [s[j]] == s[..j + 1];
    NumBound(s[..j + 1], from);
    PowMonotone(from, j + 1, |s|);
    assert from * Num(s[..j], from) == Num(s[..j], from) * from;
  }

  method Text(zeroes: nat, digits: seq<nat>) returns (str: string)
    requires Digital(digits, 58)
    ensures Digital(Zeros(zeroes) + digits, 58) && str == Chars(Zeros(zeroes) + digits)
  {
    hide CharOf;
    str := seq(zeroes, _ => '1');
    assert CharOf(0) == '1' by { FirstChar(); }
    for i := 0 to |digits|
      invariant |str| == zeroes + i && (forall k :: 0 <= k < zeroes ==> str[k] == CharOf(0))
      invariant forall k :: 0 <= k < i ==> str[zeroes + k] == CharOf(digits[k])
    {
      str := str + [CharOf(digits[i])];
    }
  }

  lemma FirstChar()
    ensures CharOf(0) == '1'
  {
  }

  // ---------- decoding ----------

  lemma {:induction false} ValuesConcat(a: string, b: string)
    ensures Values(a + b) == if Values(a).Some? && Values(b).Some? then Some(Values(a).value + Values(b).value)
            else None
    decreases |b|
  {
    if b == [] {
      assert a + b == a;
      if Values(a).Some? { assert Values(a).value + [] == Values(a).value; }
    } else {
      var front, last := b[..|b| - 1], b[|b| - 1];
      ValuesConcat(a, front);
      assert (a + b)[..|a + b| - 1] == a + front;
      if Values(a).Some? && Values(front).Some? && DigitOf(last).Some? {
        assert (Values(a).value + Values(front).value) + [DigitOf(last).value]
            == Values(a).value + (Values(front).value + [DigitOf(last).value]);
      }
    }
  }

  lemma ValuesStep(s: string, c: char)
    ensures Values(s + [c]) == if Values(s).Some? && DigitOf(c).Some? then Some(Values(s).value + [DigitOf(c).value])
            else None
  {
    assert (s + [c])[..|s|] == s;
  }

  lemma {:induction false} ValuesOfOnes(n: nat)
    ensures Values(seq(n, _ => '1')) == Some(Zeros(n))
  {
    hide Values;
    assert Values([]) == Some([]) by { ValuesNone(); }
    if n == 0 {
      assert seq(0, _ => '1') == [];
      assert Zeros(0) == [];
    } else {
      ValuesOfOnes(n - 1);
      DigitOfChar(0);
      FirstChar();
      ValuesStep(seq(n - 1, _ => '1'), '1');
      assert seq(n - 1, _ => '1') + ['1'] == seq(n, _ => '1');
      assert Zeros(n - 1) + [0] == Zeros(n);
    }
  }

  lemma ValuesNone()
    ensures Values([]) == Some([])
  {
  }

  lemma BadChar(s: string, i: nat)
    requires i < |s| && DigitOf(s[i]).None?
    ensures Values(s).None?
  {
    hide CharOf, DigitOf;
    if Values(s).Some? {
      DigitOfChar(Values(s).value[i]);
    }
  }

  lemma WordReaches(t: string, k: nat)
    requires k <= |t| && NoSpace(t[..k])
    ensures Word(t) >= k && (k == |t| || IsSpace(t[k]) ==> Word(t) == k)
  {
    hide IsSpace;
    var n := Word(t);
    assert forall i :: 0 <= i < k ==> t[..k][i] == t[i];
    assert forall i :: 0 <= i < n ==> t[..n][i] == t[i];
  }

  lemma SpacesAre(s: string, k: nat)
    requires k <= |s| && AllSpace(s[..k]) && (k == |s| || !IsSpace(s[k]))
    ensures Spaces(s) == k
  {
    hide IsSpace;
    var n := Spaces(s);
    assert forall i :: 0 <= i < k ==> s[..k][i] == s[i];
    assert forall i :: 0 <= i < n ==> s[..n][i] == s[i];
  }

  lemma RoomFor(vs: seq<nat>, d: nat, n: nat, size: nat)
    requires Digital(vs, 58) && d < 58 && |vs| < n && Pow(58, n) <= Pow(256, size)
    ensures 58 * Num(vs, 58) + d == Num(vs + [d], 58) < Pow(256, size)
  {
    hide Num, Pow;
    NumStep(vs, d, 58);
    NumBound(vs + [d], 58);
    PowMonotone(58, |vs| + 1, n);
  }

  /** The word being read: some ones, then digits that do not start with a one. */
  ghost predicate Read(s: string, start: nat, zeroes: nat, p: nat, vs: seq<nat>) {
    && start + zeroes <= p <= |s| && start == Spaces(s) && NoSpace(s[start..p])
    && s[start..start + zeroes] == seq(zeroes, _ => '1')
    && Values(s[start + zeroes..p]) == Some(vs) && Bare(vs)
  }

  lemma ReadStart(s: string, start: nat, zeroes: nat)
    requires start == Spaces(s) && start + zeroes <= |s| && s[start..start + zeroes] == seq(zeroes, _ => '1')
    ensures Read(s, start, zeroes, start + zeroes, [])
  {
    hide Spaces;
    var w := s[start..start + zeroes];
    assert forall i :: 0 <= i < |w| ==> w[i] == '1';
    assert NoSpace(w);
    assert s[start + zeroes..start + zeroes] == [];
  }

  lemma ReadMore(s: string, start: nat, zeroes: nat, p: nat, vs: seq<nat>)
    requires Read(s, start, zeroes, p, vs) && p < |s| && !IsSpace(s[p]) && DigitOf(s[p]).Some?
             && (p == start + zeroes ==> s[p] != '1')
    ensures Read(s, start, zeroes, p + 1, vs + [DigitOf(s[p]).value])
  {
    hide Values, IsSpace, CharOf;
    assert s[start..p + 1] == s[start..p] + [s[p]];
    assert s[start + zeroes..p + 1] == s[start + zeroes..p] + [s[p]];
    ValuesStep(s[start + zeroes..p], s[p]);
    if vs == [] {
      assert p == start + zeroes;
      FirstChar();
    }
  }

  lemma ReadBad(s: string, start: nat, zeroes: nat, p: nat, vs: seq<nat>)
    requires Read(s, start, zeroes, p, vs) && p < |s| && !IsSpace(s[p]) && DigitOf(s[p]).None?
    ensures Decoded(s) == None
  {
    hide Values, IsSpace, DigitOf, Decoded, Word, Spaces, Bare;
    var t, k := s[start..], p + 1 - start;
    assert t[..k] == s[start..p] + [s[p]];
    WordReaches(t, k);
    BadWord(s, k - 1);
  }

  lemma BadWord(s: string, i: nat)
    requires var t := s[Spaces(s)..]; i < Word(t) && DigitOf(t[i]).None?
    ensures Decoded(s) == None
  {
    hide Values, IsSpace, DigitOf, Convert, Word, Spaces, AllSpace;
    var t := s[Spaces(s)..];
    var w := t[..Word(t)];
    assert w[i] == t[i];
    BadChar(w, i);
  }

  lemma ReadValues(s: string, start: nat, zeroes: nat, p: nat, vs: seq<nat>)
    requires Read(s, start, zeroes, p, vs)
    ensures Values(s[start..p]) == Some(Zeros(zeroes) + vs)
  {
    hide Values, Zeros, Spaces, NoSpace, Bare;
    var ones, rest := s[start..start + zeroes], s[start + zeroes..p];
    assert s[start..p] == ones + rest;
    ValuesConcat(ones, rest);
    ValuesOfOnes(zeroes);
  }

  lemma ConvertLed(zeroes: nat, vs: seq<nat>)
    requires Bare(vs)
    ensures Convert(Zeros(zeroes) + vs, 58, 256) == Zeros(zeroes) + Digits(Num(vs, 58), 256)
  {
    hide Digits, Num, Zeros, Leading;
    LeadingIs(zeroes, vs);
  }

  lemma ReadEnd(s: string, start: nat, zeroes: nat, p: nat, vs: seq<nat>)
    requires Read(s, start, zeroes, p, vs) && (p == |s| || IsSpace(s[p]))
    ensures Decoded(s) == if AllSpace(s[p..]) then Some(Zeros(zeroes) + Digits(Num(vs, 58), 256)) else None
  {
    ReadValues(s, start, zeroes, p, vs);
    ConvertLed(zeroes, vs);
    hide Values, IsSpace, Digits, Num, AllSpace, Convert, Zeros, Word, Spaces, NoSpace, Bare;
    var t, n := s[start..], p - start;
    assert t[..n] == s[start..p];
    WordReaches(t, n);
    assert t[n..] == s[p..];
  }

  method DecodeBase58(s: string) returns (r: Option<Bytes>)
    ensures r == Decoded(s)
  {
    hide Num, Pow, Digits, Values, IsSpace, Decoded, Read, Spaces, CharOf;
    var p := 0;
    while p < |s| && IsSpace(s[p])
      invariant 0 <= p <= |s| && forall i :: 0 <= i < p ==> IsSpace(s[i])
    {
      p := p + 1;
    }
    SpacesAre(s, p);
    ghost var start := p;
    var zeroes := 0;
    while p < |s| && s[p] == '1'
      invariant start + zeroes == p <= |s| && 0 <= zeroes && forall i :: start <= i < p ==> s[i] == '1'
    {
      zeroes, p := zeroes + 1, p + 1;
    }
    ReadStart(s, start, zeroes);
    ghost var n, first := |s| - p, p;
    var size := (|s| - p) * 733 / 1000 + 1;
    var b256 := new nat[size](_ => 0);
    DecodeFits(n);
    var length := 0;
    AllZeros(b256[..], 256);
    NumNone(58);
    ghost var vs: seq<nat> := [];
    while p < |s| && !IsSpace(s[p])
      invariant first <= p <= |s| && |vs| == p - first && Digital(vs, 58) && Read(s, start, zeroes, p, vs)
      invariant Digital(b256[..], 256) && Num(b256[..], 256) == Num(vs, 58)
      invariant 0 <= length <= size && forall k :: 0 <= k < size - length ==> b256[k] == 0
    {
      var d := DigitOf(s[p]);
      if d.None? {
        ReadBad(s, start, zeroes, p, vs);
        return None;
      }
      RoomFor(vs, d.value, n, size);
      length := MultiplyAdd(b256, length, 58, d.value, 256);
      ReadMore(s, start, zeroes, p, vs);
      vs := vs + [d.value];
      p := p + 1;
    }
    ReadEnd(s, start, zeroes, p, vs);
    ghost var end := p;
    while p < |s| && IsSpace(s[p])
      invariant end <= p <= |s| && forall i :: end <= i < p ==> IsSpace(s[i])
    {
      p := p + 1;
    }
    if p < |s| {
      assert s[end..][p - end] == s[p];
      return None;
    }
    var digits := Stripped(b256, length, 256);
    r := Some(Zeros(zeroes) + digits);
  }

  // ---------- the checksummed form ----------

  /** The first four bytes of the hash of a byte string. */
  type Checksum = Bytes -> Bytes

  ghost predicate Sums(h: Checksum) {
    forall b :: |h(b)| == 4 && Digital(h(b), 256)
  }

  method EncodeBase58Check(bytes: Bytes, h: Checksum) returns (str: string)
    requires Digital(bytes, 256) && Sums(h)
    ensures Digital(bytes + h(bytes), 256) && str == Encoded(bytes + h(bytes))
  {
    str := EncodeBase58(bytes + h(bytes));
  }

  /** A text decodes to the bytes exactly if it decodes to the bytes and their checksum. */
  method DecodeBase58Check(s: string, h: Checksum) returns (r: Option<Bytes>)
    requires Sums(h)
    ensures forall b :: r == Some(b) <==> Decoded(s) == Some(b + h(b))
  {
    hide Decoded;
    var v := DecodeBase58(s);
    if v.None? || |v.value| < 4 { return None; }
    var n := |v.value| - 4;
    assert v.value == v.value[..n] + v.value[n..];
    if h(v.value[..n]) != v.value[n..] {
      forall b ensures Decoded(s) != Some(b + h(b)) { assert (b + h(b))[..|b|] == b && (b + h(b))[|b|..] == h(b); }
      return None;
    }
    r := Some(v.value[..n]);
    forall b ensures r == Some(b)
        <==> Decoded(s) == Some(b + h(b)) { assert (b + h(b))[..|b|] == b && (b + h(b))[|b|..] == h(b); }
  }

  /** Through the checksummed form and back. */
  method CheckRoundTrip(bytes: Bytes, h: Checksum) returns (r: Option<Bytes>)
    requires Digital(bytes, 256) && Sums(h)
    ensures r == Some(bytes)
  {
    var s := EncodeBase58Check(bytes, h);
    DecodeEncode(bytes + h(bytes));
    r := DecodeBase58Check(s, h);
  }
}
