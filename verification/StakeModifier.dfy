/** The stake modifier: candidate blocks are sorted by an unusual recursive exchange sort,
    and 64 rounds of a selection with cached hashes each contribute one bit. */
module StakeModifier {
  import opened Limbs
  import opened Numbers

  /** The block hash is eight 32-bit words, the most significant last. */
  datatype Block = Block(time: int, hash: seq<nat>, isProofOfStake: bool, proofHash: nat, entropyBit: bool)

  /** A candidate: `taken` stands for a block reference that was set to null, and a cached
      selection hash of zero for one that was not computed yet. */
  datatype Item = Item(block: Block, taken: bool, cached: nat)

  ghost predicate Proper(b: Block) { |b.hash| == 8 && InRange(b.hash) }

  ghost predicate AllProper(s: seq<Item>) {
    forall i :: 0 <= i < |s| ==> Proper(s[i].block)
  }

  predicate Less(a: Block, b: Block) {
    a.time < b.time || (a.time == b.time && Value(a.hash) < Value(b.hash))
  }

  function BlockAt(s: seq<Item>, i: nat): Block
    requires i < |s|
  {
    s[i].block
  }

  // ---------- inversions ----------

  /** How many of the first n items belong after b. */
  ghost function Above(s: seq<Item>, n: nat, b: Block): nat
    requires n <= |s|
  {
    if n == 0 then 0 else Above(s, n - 1, b) + (if Less(b, s[n - 1].block) then 1 else 0)
  }

  /** Pairs among the first n items that are in the wrong order. */
  ghost function Inversions(s: seq<Item>, n: nat): nat
    requires n <= |s|
  {
    if n == 0 then 0 else Inversions(s, n - 1) + Above(s, n - 1, s[n - 1].block)
  }

  ghost function Disorder(s: seq<Item>): nat { Inversions(s, |s|) }

  function Exchanged(s: seq<Item>, pos: nat): seq<Item>
    requires pos + 1 < |s|
  {
    s[pos := s[pos + 1]][pos + 1 := s[pos]]
  }

  lemma {:induction false} AboveExchanged(s: seq<Item>, pos: nat, n: nat, b: Block)
    requires pos + 1 < |s| && n <= |s| && n != pos + 1
    ensures Above(Exchanged(s, pos), n, b) == Above(s, n, b)
  {
    hide Less;
    if n == 0 {
    } else if n == pos + 2 {
      AboveExchanged(s, pos, pos, b);
      var t := Exchanged(s, pos);
      assert Above(t, pos + 2, b) == Above(t, pos + 1, b) + (if Less(b, t[pos + 1].block) then 1 else 0);
      assert Above(s, pos + 2, b) == Above(s, pos + 1, b) + (if Less(b, s[pos + 1].block) then 1 else 0);
    } else {
      AboveExchanged(s, pos, n - 1, b);
    }
  }

  /** Exchanging neighbours that are in the wrong order removes exactly one inversion. */
  lemma {:induction false} ExchangeDrops(s: seq<Item>, pos: nat, n: nat)
    requires pos + 1 < |s| && n <= |s| && n != pos + 1 && Less(s[pos + 1].block, s[pos].block)
    ensures Inversions(s, n) == Inversions(Exchanged(s, pos), n) + (if n > pos then 1 else 0)
  {
    if n == 0 {
    } else if n == pos + 2 {
      ExchangeDrops(s, pos, pos);
      var t := Exchanged(s, pos);
      var x, y := s[pos].block, s[pos + 1].block;
      AboveExchanged(s, pos, pos, x);
      AboveExchanged(s, pos, pos, y);
      assert Above(t, pos + 1, x) == Above(t, pos, x) + (if Less(x, y) then 1 else 0);
      assert Above(s, pos + 1, y) == Above(s, pos, y) + 1;
      assert Inversions(t, pos + 2) == Inversions(t, pos + 1) + Above(t, pos + 1, x);
      assert Inversions(s, pos + 2) == Inversions(s, pos + 1) + Above(s, pos + 1, y);
    } else {
      ExchangeDrops(s, pos, n - 1);
      AboveExchanged(s, pos, n - 1, s[n - 1].block);
    }
  }

  /** The first k items, or all of them, are in order. */
  ghost predicate SortedTo(s: seq<Item>, k: nat) {
    forall i, j :: 0 <= i < j < k && j < |s| ==> !Less(BlockAt(s, j), BlockAt(s, i))
  }

  lemma {:induction false} NoneAbove(s: seq<Item>, n: nat, b: Block)
    requires n <= |s| && forall i :: 0 <= i < n ==> !Less(b, BlockAt(s, i))
    ensures Above(s, n, b) == 0
  {
    if n > 0 {
      NoneAbove(s, n - 1, b);
      assert !Less(b, BlockAt(s, n - 1));
    }
  }

  lemma {:induction false} SortedHasNone(s: seq<Item>, n: nat)
    requires n <= |s| && SortedTo(s, n)
    ensures Inversions(s, n) == 0
  {
    if n > 0 {
      SortedHasNone(s, n - 1);
      NoneAbove(s, n - 1, BlockAt(s, n - 1));
    }
  }

  /** Everything in the first k items belongs before or with b. */
  ghost predicate AllUpTo(s: seq<Item>, k: nat, b: Block) {
    forall i :: 0 <= i < k && i < |s| ==> !Less(b, BlockAt(s, i))
  }

  lemma Cancel(a: multiset<Item>, b: multiset<Item>, c: multiset<Item>)
    requires a + c == b + c
    ensures a == b
  {
    assert a == (a + c) - c;
    assert b == (b + c) - c;
  }

  /** Permuting the items before place k keeps that they belong before b. */
  lemma AllUpToMoves(s: seq<Item>, t: seq<Item>, k: nat, b: Block)
    requires k <= |s| == |t| && multiset(s) == multiset(t) && s[k..] == t[k..] && AllUpTo(s, k, b)
    ensures AllUpTo(t, k, b)
  {
    hide Less;
    assert s == s[..k] + s[k..] && t == t[..k] + t[k..];
    assert multiset(s) == multiset(s[..k]) + multiset(s[k..]);
    assert multiset(t) == multiset(t[..k]) + multiset(t[k..]);
    Cancel(multiset(s[..k]), multiset(t[..k]), multiset(s[k..]));
    forall i | 0 <= i < k && i < |t| ensures !Less(b, BlockAt(t, i)) {
      var x := t[i];
      assert x in t[..k];
      assert x in multiset(t[..k]);
      assert x in multiset(s[..k]);
      assert x in s[..k];
      var j :| 0 <= j < k && s[..k][j] == x;
      assert BlockAt(s, j) == x.block;
    }
  }

  lemma SortedExtends(s: seq<Item>, k: nat)
    requires k < |s| && SortedTo(s, k) && AllUpTo(s, k, s[k].block)
    ensures SortedTo(s, k + 1)
  {
    hide Less;
    assert BlockAt(s, k) == s[k].block;
  }

  lemma SortedTop(s: seq<Item>, pos: nat)
    requires pos < |s| && SortedTo(s, pos + 1)
    ensures AllUpTo(s, pos, s[pos].block)
  {
    hide Less;
    assert BlockAt(s, pos) == s[pos].block;
  }

  // ---------- the sort ----------

  /** Whether the first block belongs after the second: by time, then word by word. */
  method Greater(a: Block, b: Block) returns (r: bool)
    requires Proper(a) && Proper(b)
    ensures r == Less(b, a)
  {
    hide Val;
    if a.time < b.time { return false; }
    if a.time == b.time {
      var cnt := 8;
      while true
        invariant 0 < cnt <= 8 && forall i :: cnt <= i < 8 ==> a.hash[i] == b.hash[i]
        decreases cnt
      {
        cnt := cnt - 1;
        if a.hash[cnt] < b.hash[cnt] {
          ValLess(a.hash, b.hash, cnt, 8);
          return false;
        }
        if a.hash[cnt] > b.hash[cnt] {
          ValLess(b.hash, a.hash, cnt, 8);
          break;
        }
        if cnt == 0 {
          assert a.hash == b.hash;
          return false;
        }
      }
    }
    r := true;
  }

  const MAX_UINT32 := 0xFFFF_FFFF

  /** What one call does, whatever the order before. */
  ghost predicate Swaps(s: seq<Item>, t: seq<Item>, pos: nat, swaps: nat) {
    && |s| == |t| && multiset(s) == multiset(t) && Disorder(s) == Disorder(t) + swaps
    && (pos + 1 >= |s| ==> s == t)
    && (pos + 1 < |s| && !Less(BlockAt(s, pos + 1), BlockAt(s, pos)) ==> s == t)
  }

  /** What one call does when the items up to pos were in order. */
  ghost predicate Sorts(s: seq<Item>, t: seq<Item>, pos: nat) {
    && SortedTo(t, pos + 2) && |s| == |t|
    && (pos + 2 < |s| && AllUpTo(s, pos + 2, BlockAt(s, pos + 2)) ==> s[pos + 2..] == t[pos + 2..])
  }

  lemma ExchangeSwaps(s: seq<Item>, pos: nat)
    requires pos + 1 < |s| && Less(s[pos + 1].block, s[pos].block)
    ensures multiset(Exchanged(s, pos)) == multiset(s) && Disorder(s) == Disorder(Exchanged(s, pos)) + 1
  {
    ExchangeDrops(s, pos, |s|);
  }

  /** Exchange, then left, then right: the items up to pos + 1 end up in order. */
  lemma SortsStep(s: seq<Item>, t: seq<Item>, u: seq<Item>, pos: nat)
    requires pos + 1 < |s| && Less(s[pos + 1].block, s[pos].block) && SortedTo(s, pos + 1)
    requires |s| == |t| == |u| && multiset(Exchanged(s, pos)) == multiset(t)
    requires pos == 0 ==> t == Exchanged(s, 0)
    requires pos > 0 && SortedTo(Exchanged(s, pos), pos) ==> Sorts(Exchanged(s, pos), t, pos - 1)
    requires SortedTo(t, pos + 2) ==> Sorts(t, u, pos + 1)
    requires pos + 2 < |t| && !Less(BlockAt(t, pos + 2), BlockAt(t, pos + 1)) ==> t == u
    ensures Sorts(s, u, pos)
  {
    LeftHalf(s, t, pos);
    hide Less, AllUpTo;
    assert SortedTo(u, pos + 2);
    if pos + 2 < |s| && AllUpTo(s, pos + 2, BlockAt(s, pos + 2)) {
      TopStays(s, t, pos);
    }
  }

  lemma LeftHalf(s: seq<Item>, t: seq<Item>, pos: nat)
    requires pos + 1 < |s| && Less(s[pos + 1].block, s[pos].block) && SortedTo(s, pos + 1)
    requires |s| == |t| && multiset(Exchanged(s, pos)) == multiset(t)
    requires pos == 0 ==> t == Exchanged(s, 0)
    requires pos > 0 && SortedTo(Exchanged(s, pos), pos) ==> Sorts(Exchanged(s, pos), t, pos - 1)
    ensures SortedTo(t, pos + 2) && t[pos + 1..] == Exchanged(s, pos)[pos + 1..]
  {
    var e := Exchanged(s, pos);
    SortedTop(s, pos);
    assert forall i :: 0 <= i < pos ==> BlockAt(e, i) == BlockAt(s, i);
    assert BlockAt(e, pos) == s[pos + 1].block && BlockAt(e, pos + 1) == s[pos].block;
    assert AllUpTo(e, pos + 1, BlockAt(e, pos + 1));
    assert SortedTo(e, pos);
    assert t[pos + 1..] == e[pos + 1..];
    assert t[pos + 1] == t[pos + 1..][0];
    AllUpToMoves(e, t, pos + 1, BlockAt(e, pos + 1));
    assert SortedTo(t, pos + 1);
    SortedExtends(t, pos + 1);
  }

  lemma TopStays(s: seq<Item>, t: seq<Item>, pos: nat)
    requires pos + 2 < |s| == |t| && t[pos + 1..] == Exchanged(s, pos)[pos + 1..]
    requires AllUpTo(s, pos + 2, BlockAt(s, pos + 2))
    ensures !Less(BlockAt(t, pos + 2), BlockAt(t, pos + 1)) && t[pos + 2..] == s[pos + 2..]
  {
    hide Less;
    var e := Exchanged(s, pos);
    assert t[pos + 1] == t[pos + 1..][0] == e[pos + 1..][0] == s[pos];
    assert t[pos + 2] == t[pos + 1..][1] == e[pos + 1..][1] == s[pos + 2];
    assert BlockAt(t, pos + 1) == BlockAt(s, pos);
    assert t[pos + 2..] == t[pos + 1..][1..] == e[pos + 1..][1..] == s[pos + 2..];
  }

  lemma ProperAt(s: seq<Item>, pos: nat)
    requires pos + 1 < |s| && AllProper(s)
    ensures Proper(s[pos].block) && Proper(s[pos + 1].block) && AllProper(Exchanged(s, pos))
  {
  }

  lemma AlreadySorted(s: seq<Item>, pos: nat)
    requires pos + 1 >= |s| || !Less(BlockAt(s, pos + 1), BlockAt(s, pos))
    ensures SortedTo(s, pos + 1) ==> Sorts(s, s, pos)
  {
    if SortedTo(s, pos + 1) && pos + 1 < |s| {
      SortedTop(s, pos);
      forall i | 0 <= i < pos + 1 ensures !Less(BlockAt(s, pos + 1), BlockAt(s, i)) { }
      SortedExtends(s, pos + 1);
    }
  }

  method SwapSort(v: array<Item>, pos: nat) returns (ghost swaps: nat)
    requires 0 < v.Length <= MAX_UINT32 + 1 && AllProper(v[..])
    modifies v
    ensures AllProper(v[..]) && Swaps(old(v[..]), v[..], pos, swaps)
    ensures old(SortedTo(v[..], pos + 1)) ==> Sorts(old(v[..]), v[..], pos)
    decreases Disorder(v[..])
  {
    hide Less, Disorder, SortedTo, AllUpTo, AllProper;
    swaps := 0;
    ghost var s := v[..];
    if pos >= v.Length - 1 {
      AlreadySorted(s, pos);
      return;
    }
    ProperAt(s, pos);
    var greater := Greater(v[pos].block, v[pos + 1].block);
    if !greater {
      AlreadySorted(s, pos);
      return;
    }
    v[pos], v[pos + 1] := v[pos + 1], v[pos];
    ghost var e := v[..];
    assert e == Exchanged(s, pos);
    ExchangeSwaps(s, pos);
    ghost var left := SwapSort(v, if pos == 0 then MAX_UINT32 else pos - 1);
    ghost var t := v[..];
    ghost var right := SwapSort(v, pos + 1);
    swaps := 1 + left + right;
    if SortedTo(s, pos + 1) { SortsStep(s, t, v[..], pos); }
  }

  /** Sorts by time and hash, with exactly as many exchanges as there were inversions. */
  method SortCandidates(v: array<Item>) returns (ghost swaps: nat)
    requires v.Length <= MAX_UINT32 + 1 && AllProper(v[..])
    modifies v
    ensures AllProper(v[..]) && multiset(v[..]) == multiset(old(v[..])) && SortedTo(v[..], v.Length)
    ensures swaps == Disorder(old(v[..]))
  {
    hide Less, Disorder, SortedTo, AllUpTo, AllProper, BlockAt;
    swaps := 0;
    ghost var s := v[..];
    var i := 0;
    SortedOne(s);
    while i < v.Length - 1
      invariant 0 <= i && (i < v.Length || v.Length == 0) && SortedTo(v[..], i + 1) && AllProper(v[..])
      invariant multiset(v[..]) == multiset(s) && Disorder(s) == Disorder(v[..]) + swaps
    {
      ghost var more := SwapSort(v, i);
      swaps := swaps + more;
      i := i + 1;
    }
    SortedAll(v[..], i + 1);
  }

  lemma SortedOne(s: seq<Item>)
    ensures SortedTo(s, 1)
  {
  }

  lemma SortedAll(s: seq<Item>, k: nat)
    requires SortedTo(s, k) && k >= |s|
    ensures SortedTo(s, |s|) && Disorder(s) == 0
  {
    SortedHasNone(s, |s|);
  }

  // ---------- selecting a candidate ----------

  /** The selection hash: proof-of-stake blocks are favoured by 2^32. */
  function SelectionHash(hash: (nat, nat) -> nat, modifier: nat, b: Block): nat {
    var proof := if b.isProofOfStake then b.proofHash else Value(b.hash);
    if b.isProofOfStake then hash(proof, modifier) / B else hash(proof, modifier)
  }

  /** The scan without the cache: the best candidate from place i on, given the best so far. */
  function Scan(s: seq<Item>, hash: Block -> nat, stop: int, i: nat, best: int): (r: int)
    requires i <= |s| && -1 <= best < i
    ensures -1 <= r < |s|
    decreases |s| - i
  {
    if i == |s| then best
    else if s[i].taken then Scan(s, hash, stop, i + 1, best)
    else if best >= 0 && s[i].block.time > stop then best
    else if best < 0 || hash(s[i].block) < hash(s[best].block) then Scan(s, hash, stop, i + 1, i)
    else Scan(s, hash, stop, i + 1, best)
  }

  function Pick(s: seq<Item>, hash: Block -> nat, stop: int): (k: int)
    ensures -1 <= k < |s|
  {
    Scan(s, hash, stop, 0, -1)
  }

  ghost predicate InTime(s: seq<Item>) {
    forall i, j :: 0 <= i < j < |s| ==> BlockAt(s, i).time <= BlockAt(s, j).time
  }

  predicate Open(s: seq<Item>, i: nat)
    requires i < |s|
  {
    !s[i].taken
  }

  /** k is the first open candidate with the least hash among those up to the stop, or the
      first open one if all are later. */
  ghost predicate IsPick(s: seq<Item>, hash: Block -> nat, stop: int, k: nat) {
    && k < |s| && Open(s, k)
    && (forall j :: 0 <= j < |s| && Open(s, j) && BlockAt(s, j).time <= stop ==>
          BlockAt(s, k).time <= stop && hash(BlockAt(s, k)) <= hash(BlockAt(s, j))
              && (j < k ==> hash(BlockAt(s, k)) < hash(BlockAt(s, j))))
    && (BlockAt(s, k).time > stop ==> forall j :: 0 <= j < k ==> !Open(s, j))
  }

  /** The same, seen after i candidates. */
  ghost predicate BestOf(s: seq<Item>, hash: Block -> nat, stop: int, i: nat, best: int)
    requires i <= |s|
  {
    && -1 <= best < i
    && (best < 0 ==> forall j :: 0 <= j < i ==> !Open(s, j))
    && (best >= 0 ==>
          && Open(s, best)
          && (BlockAt(s, best).time > stop ==> forall j :: 0 <= j < i && j != best ==> !Open(s, j)))
    && (best >= 0 ==> forall j :: 0 <= j < i && Open(s, j) && BlockAt(s, j).time <= stop ==>
          BlockAt(s, best).time <= stop && hash(BlockAt(s, best)) <= hash(BlockAt(s, j))
              && (j < best ==> hash(BlockAt(s, best)) < hash(BlockAt(s, j))))
  }

  lemma {:induction false} ScanIs(s: seq<Item>, hash: Block -> nat, stop: int, i: nat, best: int)
    requires InTime(s) && i <= |s| && BestOf(s, hash, stop, i, best)
    ensures var r := Scan(s, hash, stop, i, best);
            if r < 0 then forall j :: 0 <= j < |s| ==> !Open(s, j) else IsPick(s, hash, stop, r)
    decreases |s| - i
  {
    if i < |s| {
      if !Open(s, i) {
        ScanIs(s, hash, stop, i + 1, best);
      } else if best >= 0 && BlockAt(s, i).time > stop {
        ScanStops(s, hash, stop, i, best);
      } else if best < 0 || hash(BlockAt(s, i)) < hash(BlockAt(s, best)) {
        ScanTakes(s, hash, stop, i, best);
        ScanIs(s, hash, stop, i + 1, i);
      } else {
        ScanIs(s, hash, stop, i + 1, best);
      }
    }
  }

  lemma ScanStops(s: seq<Item>, hash: Block -> nat, stop: int, i: nat, best: int)
    requires InTime(s) && i < |s| && BestOf(s, hash, stop, i, best) && best >= 0 && BlockAt(s, i).time > stop
    ensures IsPick(s, hash, stop, best)
  {
    assert forall j :: i <= j < |s| ==> BlockAt(s, i).time <= BlockAt(s, j).time;
  }

  lemma ScanTakes(s: seq<Item>, hash: Block -> nat, stop: int, i: nat, best: int)
    requires InTime(s) && i < |s| && BestOf(s, hash, stop, i, best) && Open(s, i)
    requires best < 0 || (BlockAt(s, i).time <= stop && hash(BlockAt(s, i)) < hash(BlockAt(s, best)))
    ensures BestOf(s, hash, stop, i + 1, i)
  {
    if best >= 0 { assert BlockAt(s, best).time <= BlockAt(s, i).time; }
  }

  lemma PickIs(s: seq<Item>, hash: Block -> nat, stop: int)
    requires InTime(s)
    ensures var r := Pick(s, hash, stop);
            if r < 0 then forall j :: 0 <= j < |s| ==> !Open(s, j) else IsPick(s, hash, stop, r)
  {
    ScanIs(s, hash, stop, 0, -1);
  }

  /** A cached hash is right, or zero. */
  ghost predicate CacheOk(s: seq<Item>, hash: Block -> nat) {
    forall i :: 0 <= i < |s| ==> s[i].cached == 0 || s[i].cached == hash(BlockAt(s, i))
  }

  /** The same candidates, whatever is cached. */
  ghost predicate Same(s: seq<Item>, t: seq<Item>) {
    |s| == |t| && forall i :: 0 <= i < |s| ==> BlockAt(s, i) == BlockAt(t, i) && Open(s, i) == Open(t, i)
  }

  function Marked(s: seq<Item>, k: int): seq<Item>
    requires 0 <= k < |s|
  {
    s[k := s[k].(taken := true)]
  }

  lemma {:induction false} ScanSame(s: seq<Item>, t: seq<Item>, hash: Block -> nat, stop: int, i: nat, best: int)
    requires Same(s, t) && i <= |s| && -1 <= best < i
    ensures Scan(s, hash, stop, i, best) == Scan(t, hash, stop, i, best)
    decreases |s| - i
  {
    if i < |s| {
      assert BlockAt(s, i) == BlockAt(t, i) && Open(s, i) == Open(t, i);
      if best >= 0 { assert BlockAt(s, best) == BlockAt(t, best); }
      ScanSame(s, t, hash, stop, i + 1, best);
      ScanSame(s, t, hash, stop, i + 1, i);
    }
  }

  lemma MarkedSame(s: seq<Item>, t: seq<Item>, k: nat)
    requires Same(s, t) && k < |s|
    ensures Same(Marked(s, k), Marked(t, k))
  {
    var a, b := Marked(s, k), Marked(t, k);
    forall i | 0 <= i < |a| ensures BlockAt(a, i) == BlockAt(b, i) && Open(a, i) == Open(b, i) {
      assert BlockAt(s, i) == BlockAt(t, i) && Open(s, i) == Open(t, i);
    }
  }

  /** Picks what the scan without the cache picks. */
  method SelectBlock(v: array<Item>, hash: Block -> nat, stop: int) returns (found: bool, k: int)
    requires CacheOk(v[..], hash)
    modifies v
    ensures CacheOk(v[..], hash) && k == Pick(old(v[..]), hash, stop) && (found <==> k >= 0)
    ensures Same(v[..], if found then Marked(old(v[..]), k) else old(v[..]))
  {
    ghost var s := v[..];
    k := -1;
    var i := 0;
    while i < v.Length
      invariant 0 <= i <= v.Length && -1 <= k < i && CacheOk(v[..], hash) && Same(v[..], s)
      invariant Scan(s, hash, stop, i, k) == Pick(s, hash, stop)
      invariant k >= 0 ==> Open(s, k) && v[k].cached == hash(BlockAt(s, k))
    {
      assert BlockAt(v[..], i) == BlockAt(s, i) && Open(v[..], i) == Open(s, i);
      if !v[i].taken {
        if k >= 0 && v[i].block.time > stop { break; }
        if k < 0 || v[i].cached < v[k].cached {
          if v[i].cached == 0 {
            v[i] := v[i].(cached := hash(v[i].block));
            if !(k >= 0 && v[i].cached >= v[k].cached) { k := i; }
          } else {
            k := i;
          }
        }
      }
      i := i + 1;
    }
    found := k >= 0;
    if found {
      ghost var t := v[..];
      v[k] := v[k].(taken := true);
      assert v[..] == Marked(t, k);
      MarkedSame(t, s, k);
    }
  }

  // ---------- the rounds ----------

  const MODIFIER_INTERVAL_RATIO := 3

  function Section(interval: nat, n: nat): nat
    requires n < 64
  {
    var d := 63 + (63 - n) * (MODIFIER_INTERVAL_RATIO - 1);
    assert d > 0;
    DivNat(interval * 63, d);
    interval * 63 / d
  }

  /** The stop of round r - 1. */
  function Stop(start: int, interval: nat, r: nat): int
    requires r <= 64
  {
    if r == 0 then start else Stop(start, interval, r - 1) + Section(interval, r - 1)
  }

  datatype Play = Play(items: seq<Item>, picks: seq<int>)

  /** r rounds with every hash recomputed. */
  function Played(s: seq<Item>, hash: Block -> nat, start: int, interval: nat, r: nat): (p: Play)
    requires r <= 64
    ensures |p.items| == |s| && |p.picks| == r && forall i :: 0 <= i < r ==> -1 <= p.picks[i] < |s|
  {
    if r == 0 then Play(s, []) else
    var p := Played(s, hash, start, interval, r - 1);
    var k := Pick(p.items, hash, Stop(start, interval, r));
    Play(if k < 0 then p.items else Marked(p.items, k), p.picks + [k])
  }

  ghost function OpenCount(s: seq<Item>, n: nat): nat
    requires n <= |s|
  {
    if n == 0 then 0 else OpenCount(s, n - 1) + (if Open(s, n - 1) then 1 else 0)
  }

  lemma {:induction false} CountMarked(s: seq<Item>, k: nat, n: nat)
    requires k < |s| && n <= |s| && Open(s, k)
    ensures OpenCount(Marked(s, k), n) == OpenCount(s, n) - (if k < n then 1 else 0)
  {
    if n > 0 { CountMarked(s, k, n - 1); }
  }

  lemma {:induction false} CountAll(s: seq<Item>, n: nat)
    requires n <= |s|
    ensures (forall j :: 0 <= j < n ==> Open(s, j)) ==> OpenCount(s, n) == n
    ensures (forall j :: 0 <= j < n ==> !Open(s, j)) ==> OpenCount(s, n) == 0
  {
    if n > 0 { CountAll(s, n - 1); }
  }

  /** While there are candidates, every round picks one that was not picked before. */
  lemma {:induction false} RoundsSucceed(s: seq<Item>, hash: Block -> nat, start: int, interval: nat, r: nat)
    requires r <= 64 && r <= |s| && InTime(s) && forall j :: 0 <= j < |s| ==> Open(s, j)
    ensures var p := Played(s, hash, start, interval, r);
            && (forall i :: 0 <= i < r ==> 0 <= p.picks[i])
            && (forall i, j :: 0 <= i < j < r ==> p.picks[i] != p.picks[j])
            && InTime(p.items) && OpenCount(p.items, |s|) == |s| - r
            && (forall j :: 0 <= j < |s| ==> BlockAt(p.items, j) == BlockAt(s, j))
            && (forall j :: 0 <= j < |s| ==> (Open(p.items, j) <==> j !in p.picks))
  {
    if r == 0 {
      CountAll(s, |s|);
    } else {
      RoundsSucceed(s, hash, start, interval, r - 1);
      var p := Played(s, hash, start, interval, r - 1);
      PickIs(p.items, hash, Stop(start, interval, r));
      CountAll(p.items, |s|);
      var k := Pick(p.items, hash, Stop(start, interval, r));
      RoundStep(s, p, k, r - 1);
    }
  }

  lemma RoundStep(s: seq<Item>, p: Play, k: nat, r: nat)
    requires |p.items| == |s| && |p.picks| == r && k < |s| && Open(p.items, k)
    requires (forall i :: 0 <= i < r ==> 0 <= p.picks[i])
             && (forall i, j :: 0 <= i < j < r ==> p.picks[i] != p.picks[j])
    requires InTime(p.items) && (forall j :: 0 <= j < |s| ==> BlockAt(p.items, j) == BlockAt(s, j))
    requires forall j :: 0 <= j < |s| ==> (Open(p.items, j) <==> j !in p.picks)
    ensures var items, picks := Marked(p.items, k), p.picks + [k];
            && (forall i, j :: 0 <= i < j < r + 1 ==> picks[i] != picks[j])
            && InTime(items) && OpenCount(items, |s|) == OpenCount(p.items, |s|) - 1
            && (forall j :: 0 <= j < |s| ==> BlockAt(items, j) == BlockAt(s, j))
            && (forall j :: 0 <= j < |s| ==> (Open(items, j) <==> j !in picks))
  {
    CountMarked(p.items, k, |s|);
    var items, picks := Marked(p.items, k), p.picks + [k];
    forall j | 0 <= j < |s| ensures BlockAt(items, j) == BlockAt(s, j) && (Open(items, j) <==> j !in picks) {
      assert BlockAt(p.items, j) == BlockAt(s, j);
      assert Open(p.items, j) <==> j !in p.picks;
      assert j in picks <==> j in p.picks || j == k;
    }
  }

  /** The number whose bit k is the entropy bit of the k-th pick. */
  function Bits(s: seq<Item>, picks: seq<int>, n: nat): nat
    requires n <= |picks| && forall i :: 0 <= i < n ==> 0 <= picks[i] < |s|
  {
    if n == 0 then 0 else Bits(s, picks, n - 1) + (if BlockAt(s, picks[n - 1]).entropyBit then Pow2(n - 1) else 0)
  }

  lemma {:induction false} BitsBound(s: seq<Item>, picks: seq<int>, n: nat)
    requires n <= |picks| && forall i :: 0 <= i < n ==> 0 <= picks[i] < |s|
    ensures Bits(s, picks, n) < Pow2(n)
  {
    if n > 0 { BitsBound(s, picks, n - 1); }
  }

  method SelectRounds(v: array<Item>, hash: Block -> nat, start: int, interval: nat)
      returns (modifier: nat, ghost picks: seq<int>)
    requires CacheOk(v[..], hash) && InTime(v[..]) && forall j :: 0 <= j < v.Length ==> Open(v[..], j)
    modifies v
    ensures var rounds := if v.Length < 64 then v.Length else 64;
            && picks == Played(old(v[..]), hash, start, interval, rounds).picks
            && (forall i :: 0 <= i < rounds ==> 0 <= picks[i]) && modifier == Bits(old(v[..]), picks, rounds)
  {
    hide CacheOk, Pick, Bits, Or, Section, Played, Same, Open, InTime;
    ghost var s := v[..];
    var rounds := if v.Length < 64 then v.Length else 64;
    modifier, picks := 0, [];
    var stop := start;
    RoundNone(s, hash, start, interval);
    for r := 0 to rounds
      invariant CacheOk(v[..], hash) && stop == Stop(start, interval, r)
      invariant var p := Played(s, hash, start, interval, r); Same(v[..], p.items) && picks == p.picks
      invariant (forall i :: 0 <= i < r ==> 0 <= picks[i] < |s|) && modifier == Bits(s, picks, r)
    {
      stop := stop + Section(interval, r);
      ghost var t := v[..];
      var found, k := SelectBlock(v, hash, stop);
      RoundMore(s, t, hash, start, interval, r);
      if !found { assert false; }
      RoundPick(s, v[..], t, hash, start, interval, r, k);
      assert v[k].block == BlockAt(v[..], k);
      BitsMore(s, picks, k);
      modifier := Or(modifier, if v[k].block.entropyBit then Pow2(r) else 0);
      picks := picks + [k];
    }
  }

  lemma RoundNone(s: seq<Item>, hash: Block -> nat, start: int, interval: nat)
    ensures var p := Played(s, hash, start, interval, 0); Same(s, p.items) && p.picks == []
    ensures Bits(s, [], 0) == 0
  {
  }

  lemma RoundMore(s: seq<Item>, t: seq<Item>, hash: Block -> nat, start: int, interval: nat, r: nat)
    requires r < 64 && r < |s| && InTime(s) && (forall j :: 0 <= j < |s| ==> Open(s, j))
             && Same(t, Played(s, hash, start, interval, r).items)
    ensures Pick(t, hash, Stop(start, interval, r + 1)) >= 0
    ensures Played(s, hash, start, interval, r + 1).picks
            == Played(s, hash, start, interval, r).picks + [Pick(t, hash, Stop(start, interval, r + 1))]
  {
    var p := Played(s, hash, start, interval, r);
    ScanSame(t, p.items, hash, Stop(start, interval, r + 1), 0, -1);
    RoundsSucceed(s, hash, start, interval, r + 1);
    assert Played(s, hash, start, interval, r + 1).picks[r] >= 0;
  }

  lemma RoundPick(s: seq<Item>, u: seq<Item>, t: seq<Item>, hash: Block -> nat, start: int, interval: nat, r: nat,
                  k: int)
    requires r < 64 && r < |s| && InTime(s) && (forall j :: 0 <= j < |s| ==> Open(s, j))
             && Same(t, Played(s, hash, start, interval, r).items)
    requires k == Pick(t, hash, Stop(start, interval, r + 1)) && k >= 0 && |t| == |s| && k < |t|
             && Same(u, Marked(t, k))
    ensures Same(u, Played(s, hash, start, interval, r + 1).items) && BlockAt(u, k) == BlockAt(s, k)
  {
    hide Pick, InTime;
    var p := Played(s, hash, start, interval, r);
    assert k == Pick(p.items, hash,
        Stop(start, interval, r + 1)) by { PickSame(t, p.items, hash, Stop(start, interval, r + 1)); }
    MarkedSame(t, p.items, k);
    SameTrans(u, Marked(t, k), Marked(p.items, k));
    RoundsSucceed(s, hash, start, interval, r + 1);
    assert BlockAt(u, k) == BlockAt(Marked(p.items, k), k) == BlockAt(s, k);
  }

  lemma PickSame(s: seq<Item>, t: seq<Item>, hash: Block -> nat, stop: int)
    requires Same(s, t)
    ensures Pick(s, hash, stop) == Pick(t, hash, stop)
  {
    ScanSame(s, t, hash, stop, 0, -1);
  }

  lemma SameTrans(a: seq<Item>, b: seq<Item>, c: seq<Item>)
    requires Same(a, b) && Same(b, c)
    ensures Same(a, c)
  {
    forall i | 0 <= i < |a| ensures BlockAt(a, i) == BlockAt(c, i) && Open(a, i) == Open(c, i) {
      assert BlockAt(a, i) == BlockAt(b, i) && Open(a, i) == Open(b, i);
      assert BlockAt(b, i) == BlockAt(c, i) && Open(b, i) == Open(c, i);
    }
  }

  /** The next bit does not touch the ones before. */
  lemma BitsMore(s: seq<Item>, picks: seq<int>, k: int)
    requires 0 <= k < |s| && forall i :: 0 <= i < |picks| ==> 0 <= picks[i] < |s|
    ensures var r := |picks|;
            Or(Bits(s, picks, r), if BlockAt(s, k).entropyBit then Pow2(r) else 0) == Bits(s, picks + [k], r + 1)
  {
    hide Or, Pow2;
    var r, m := |picks|, Bits(s, picks, |picks|);
    BitsBound(s, picks, r);
    BitsSame(s, picks, picks + [k], r);
    OrZero(m);
    OrIsPlus(1, m, r);
    OrComm(m, Pow2(r));
  }

  lemma {:induction false} BitsSame(s: seq<Item>, p: seq<int>, q: seq<int>, n: nat)
    requires n <= |p| <= |q| && (forall i :: 0 <= i < |p| ==> 0 <= p[i] < |s|)
             && (forall i :: 0 <= i < |p| ==> p[i] == q[i])
    ensures Bits(s, p, n) == Bits(s, q, n)
  {
    if n > 0 { BitsSame(s, p, q, n - 1); }
  }

  method SelectionInterval(interval: nat) returns (sum: int)
    ensures sum == Stop(0, interval, 64)
  {
    hide Section;
    sum := 0;
    for n := 0 to 64
      invariant sum == Stop(0, interval, n)
    {
      sum := sum + Section(interval, n);
    }
  }

  lemma {:induction false} StopShifts(start: int, interval: nat, r: nat)
    requires r <= 64
    ensures Stop(start, interval, r) == start + Stop(0, interval, r)
  {
    hide Section;
    if r > 0 { StopShifts(start, interval, r - 1); }
  }

  /** The sections grow from a third of the interval to the whole interval. */
  lemma SectionsGrow(interval: nat, n: nat)
    requires n < 63
    ensures Section(interval, n) <= Section(interval, n + 1)
    ensures Section(interval, 0) == interval / 3 && Section(interval, 63) == interval
  {
    var a, b := 63 + (63 - n) * 2, 63 + (62 - n) * 2;
    var x, q := interval * 63, interval * 63 / a;
    assert x == q * a + x % a;
    assert q * b <= q * a by { DivNat(x, a); MulLe(b, a, q); }
    var d := x / b;
    assert x == d * b + x % b;
    if d < q { MulLe(d + 1, q, b); Plus1(d, b); }
    var t := interval / 3;
    DivIs(interval * 63, 189, t);
  }

  function Selector(hash: (nat, nat) -> nat, modifier: nat): Block -> nat {
    b => SelectionHash(hash, modifier, b)
  }

  /** The new modifier, computed from the candidates of the last selection interval. */
  method NewModifier(v: array<Item>, hash: (nat, nat) -> nat, modifier: nat, prevTime: nat, interval: nat)
    returns (newModifier: nat, ghost sorted: seq<Item>, ghost picks: seq<int>)
    requires v.Length <= MAX_UINT32 + 1 && AllProper(v[..]) && interval > 0
    requires forall j :: 0 <= j < v.Length ==> !v[j].taken && v[j].cached == 0
    modifies v
    ensures multiset(sorted) == multiset(old(v[..])) && |sorted| == v.Length && SortedTo(sorted, |sorted|)
    ensures var rounds := if |sorted| < 64 then |sorted| else 64;
            var start := prevTime / interval * interval - Stop(0, interval, 64);
            && picks == Played(sorted, Selector(hash, modifier), start, interval, rounds).picks
            && (forall i :: 0 <= i < rounds ==> 0 <= picks[i]) && newModifier == Bits(sorted, picks, rounds)
  {
    hide Played, Bits, SelectionHash, AllProper, Less, Selector, SortedTo, Stop;
    ghost var before := v[..];
    var sum := SelectionInterval(interval);
    var start: int := prevTime / interval * interval - sum;
    ghost var _ := SortCandidates(v);
    sorted := v[..];
    StillNew(before, sorted);
    SortedInTime(sorted);
    newModifier, picks := SelectRounds(v, Selector(hash, modifier), start, interval);
  }

  lemma StillNew(s: seq<Item>, t: seq<Item>)
    requires multiset(s) == multiset(t) && forall j :: 0 <= j < |s| ==> !s[j].taken && s[j].cached == 0
    ensures |s| == |t| && forall j :: 0 <= j < |t| ==> !t[j].taken && t[j].cached == 0
  {
    assert |multiset(s)| == |s| && |multiset(t)| == |t|;
    forall j | 0 <= j < |t| ensures !t[j].taken && t[j].cached == 0 {
      assert t[j] in multiset(t);
      assert t[j] in multiset(s);
      assert t[j] in s;
    }
  }

  lemma SortedInTime(s: seq<Item>)
    requires SortedTo(s, |s|)
    ensures InTime(s)
  {
    forall i, j | 0 <= i < j < |s| ensures BlockAt(s, i).time <= BlockAt(s, j).time {
      assert !Less(BlockAt(s, j), BlockAt(s, i));
    }
  }
}
