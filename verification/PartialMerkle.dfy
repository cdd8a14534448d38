/** The partial Merkle tree of a filtered block: a depth-first encoding of the part of the
    block's Merkle tree that proves some transactions are in it. */
module PartialMerkle {
  import opened ByteBits
  import opened Numbers

  /** A 256-bit hash; zero stands for "no hash". */
  type Hash = nat

  type PairHash = (Hash, Hash) -> Hash

  /** The number of nodes at a height above n leaves. */
  function Width(n: nat, height: nat): nat {
    (n + Pow2(height) - 1) / Pow2(height)
  }

  lemma WidthZero(n: nat)
    ensures Width(n, 0) == n
  {
  }

  /** w = Width(n, height) is n divided by 2^height, rounded up. */
  lemma WidthIs(n: nat, height: nat)
    ensures var w, p := Width(n, height), Pow2(height); w * p >= n && w * p < n + p
  {
    var p := Pow2(height);
    var w := Width(n, height);
    assert n + p - 1 == w * p + (n + p - 1) % p;
  }

  lemma WidthUnique(n: nat, height: nat, w: nat)
    requires w * Pow2(height) >= n && w * Pow2(height) < n + Pow2(height)
    ensures Width(n, height) == w
  {
    DivIs(n + Pow2(height) - 1, Pow2(height), w);
  }

  /** Each level pairs up the one below. */
  lemma WidthStep(n: nat, height: nat)
    ensures Width(n, height + 1) == (Width(n, height) + 1) / 2
  {
    hide Width;
    var p, w := Pow2(height), Width(n, height);
    WidthIs(n, height);
    var v := (w + 1) / 2;
    Halved(p, w, v);
    WidthUnique(n, height + 1, v);
  }

  lemma Halved(p: nat, w: nat, v: nat)
    requires v == (w + 1) / 2
    ensures v * (2 * p) == if w % 2 == 0 then w * p else w * p + p
  {
    assert v * (2 * p) == (2 * v) * p;
    if w % 2 == 0 {
      assert 2 * v == w;
    } else {
      assert 2 * v == w + 1;
    }
  }

  lemma ChildFits(n: nat, height: nat, pos: nat)
    requires height > 0 && pos < Width(n, height)
    ensures 2 * pos < Width(n, height - 1)
  {
    hide Width;
    WidthStep(n, height - 1);
  }

  /** The hash of a node; an only child is paired with itself. */
  function CalcHash(pair: PairHash, height: nat, pos: nat, txids: seq<Hash>): Hash
    requires pos < Width(|txids|, height)
    decreases height
  {
    if height == 0 then WidthZero(|txids|); txids[pos] else
    ChildFits(|txids|, height, pos);
    var left := CalcHash(pair, height - 1, pos * 2, txids);
    var right := if pos * 2 + 1 < Width(|txids|, height - 1) then CalcHash(pair, height - 1, pos * 2 + 1, txids)
        else left;
    pair(left, right)
  }

  function First(height: nat, pos: nat): nat { pos * Pow2(height) }

  /** One past the last leaf under a node. */
  function End(n: nat, height: nat, pos: nat): (e: nat)
    ensures e <= n
  {
    if (pos + 1) * Pow2(height) < n then (pos + 1) * Pow2(height) else n
  }

  /** Whether some leaf in [lo, hi) is matched. */
  predicate AnyMatch(matches: seq<bool>, lo: nat, hi: nat) {
    exists p :: lo <= p < hi && p < |matches| && matches[p]
  }

  predicate Under(matches: seq<bool>, height: nat, pos: nat) {
    AnyMatch(matches, First(height, pos), End(|matches|, height, pos))
  }

  /** The leaves under a node are those under its children. */
  lemma Split(n: nat, height: nat, pos: nat)
    requires height > 0 && pos < Width(n, height)
    ensures First(height - 1, 2 * pos) == First(height, pos) < End(n, height - 1, 2 * pos)
    ensures 2 * pos + 1 < Width(n, height - 1) ==>
              && End(n, height - 1, 2 * pos) == First(height - 1, 2 * pos + 1)
              && End(n, height - 1, 2 * pos + 1) == End(n, height, pos) > End(n, height - 1, 2 * pos)
    ensures 2 * pos + 1 >= Width(n, height - 1) ==> End(n, height - 1, 2 * pos) == End(n, height, pos)
  {
    hide Width;
    var q := Pow2(height - 1);
    ChildFits(n, height, pos);
    WidthIs(n, height - 1);
    SplitArith(n, Width(n, height - 1), pos, q);
  }

  lemma SplitArith(n: nat, w: nat, pos: nat, q: nat)
    requires q > 0 && w * q >= n && w * q < n + q && 2 * pos < w
    ensures (2 * pos) * q == pos * (2 * q) < n && (2 * pos + 1) * q == (2 * pos) * q + q
            && (pos + 1) * (2 * q) == (2 * pos) * q + 2 * q
    ensures 2 * pos + 1 < w ==> (2 * pos + 1) * q < n
    ensures 2 * pos + 1 >= w ==> (2 * pos + 1) * q >= n
  {
    assert (2 * pos) * q == pos * (2 * q);
    assert (2 * pos + 1) * q == (2 * pos) * q + q;
    MulLe(2 * pos, w - 1, q);
    assert (w - 1) * q == w * q - q;
    if 2 * pos + 1 < w { MulLe(2 * pos + 1, w - 1, q); }
    if 2 * pos + 1 >= w { MulLe(w, 2 * pos + 1, q); }
  }

  lemma UnderSplit(matches: seq<bool>, height: nat, pos: nat)
    requires height > 0 && pos < Width(|matches|, height)
    ensures Under(matches, height, pos) <==>
              || Under(matches, height - 1, 2 * pos)
              || (2 * pos + 1 < Width(|matches|, height - 1) && Under(matches, height - 1, 2 * pos + 1))
  {
    hide Width, First, End;
    Split(|matches|, height, pos);
    var lo, hi := First(height, pos), End(|matches|, height, pos);
    var mid := End(|matches|, height - 1, 2 * pos);
    if 2 * pos + 1 < Width(|matches|, height - 1) {
      AnySplit(matches, lo, mid, hi);
    }
  }

  lemma AnySplit(matches: seq<bool>, lo: nat, mid: nat, hi: nat)
    requires lo <= mid
    ensures mid <= hi ==> (AnyMatch(matches, lo, hi) <==> AnyMatch(matches, lo, mid) || AnyMatch(matches, mid, hi))
  {
    if mid <= hi && AnyMatch(matches, lo, hi) {
      var p :| lo <= p < hi && p < |matches| && matches[p];
      assert p < mid ==> AnyMatch(matches, lo, mid);
      assert mid <= p ==> AnyMatch(matches, mid, hi);
    }
  }

  // ---------- building ----------

  /** The flag bits and hashes a node contributes, in depth-first order. */
  datatype Parts = Parts(bits: seq<bool>, hashes: seq<Hash>)

  function Build(pair: PairHash, height: nat, pos: nat, txids: seq<Hash>, matches: seq<bool>): Parts
    requires |txids| == |matches| && pos < Width(|txids|, height)
    decreases height
  {
    var parent := Under(matches, height, pos);
    if height == 0 || !parent then Parts([parent], [CalcHash(pair, height, pos, txids)]) else
    ChildFits(|txids|, height, pos);
    var left := Build(pair, height - 1, pos * 2, txids, matches);
    if pos * 2 + 1 < Width(|txids|, height - 1) then
      var right := Build(pair, height - 1, pos * 2 + 1, txids, matches);
      Parts([true] + left.bits + right.bits, left.hashes + right.hashes)
    else Parts([true] + left.bits, left.hashes)
  }

  // ---------- extracting ----------

  /** How far an extraction has got: flag bits and hashes used, what was matched, and
      whether something was wrong. */
  datatype Progress = Progress(bitsUsed: nat, hashUsed: nat, found: seq<(Hash, nat)>, bad: bool)

  function Extract(pair: PairHash, n: nat, bits: seq<bool>, hashes: seq<Hash>, height: nat, pos: nat,
                   p: Progress): (Hash, Progress)
    decreases height
  {
    if p.bitsUsed >= |bits| then (0, p.(bad := true)) else
    var parent := bits[p.bitsUsed];
    var p := p.(bitsUsed := p.bitsUsed + 1);
    if height == 0 || !parent then
      if p.hashUsed >= |hashes| then (0, p.(bad := true)) else
      var hash := hashes[p.hashUsed];
      var p := p.(hashUsed := p.hashUsed + 1);
      (hash, if height == 0 && parent then p.(found := p.found + [(hash, pos)]) else p)
    else
      var (left, p) := Extract(pair, n, bits, hashes, height - 1, pos * 2, p);
      if pos * 2 + 1 < Width(n, height - 1) then
        var (right, p) := Extract(pair, n, bits, hashes, height - 1, pos * 2 + 1, p);
        (pair(left, right), if right == left then p.(bad := true) else p)
      else (pair(left, left), p)
  }

  /** The matched leaves in [lo, hi), with their positions. */
  function Matched(txids: seq<Hash>, matches: seq<bool>, lo: nat, hi: nat): seq<(Hash, nat)>
    requires |txids| == |matches| && hi <= |txids|
    decreases hi
  {
    if lo >= hi then [] else
    Matched(txids, matches, lo, hi - 1) + (if matches[hi - 1] then [(txids[hi - 1], hi - 1)] else [])
  }

  lemma {:induction false} MatchedSplit(txids: seq<Hash>, matches: seq<bool>, lo: nat, mid: nat, hi: nat)
    requires |txids| == |matches| && lo <= mid <= hi <= |txids|
    ensures Matched(txids, matches, lo, hi) == Matched(txids, matches, lo, mid) + Matched(txids, matches, mid, hi)
    decreases hi
  {
    if mid < hi { MatchedSplit(txids, matches, lo, mid, hi - 1); }
  }

  lemma {:induction false} NoneMatched(txids: seq<Hash>, matches: seq<bool>, lo: nat, hi: nat)
    requires |txids| == |matches| && hi <= |txids| && !AnyMatch(matches, lo, hi)
    ensures Matched(txids, matches, lo, hi) == []
    decreases hi
  {
    if lo < hi {
      assert !matches[hi - 1];
      assert !AnyMatch(matches, lo, hi - 1);
      NoneMatched(txids, matches, lo, hi - 1);
    }
  }

  // ---------- different subtrees have different hashes ----------

  ghost predicate Injective(pair: PairHash) {
    forall a, b, c, d :: pair(a, b) == pair(c, d) ==> a == c && b == d
  }

  ghost predicate Distinct(txids: seq<Hash>) {
    forall j, k :: 0 <= j < k < |txids| ==> txids[j] != txids[k]
  }

  lemma Unpair(pair: PairHash, a: Hash, b: Hash, c: Hash, d: Hash)
    requires Injective(pair) && pair(a, b) == pair(c, d)
    ensures a == c && b == d
  {
  }

  /** The children's hashes of an inner node. */
  function LeftHash(pair: PairHash, height: nat, pos: nat, txids: seq<Hash>): Hash
    requires height > 0 && pos < Width(|txids|, height)
  {
    ChildFits(|txids|, height, pos);
    CalcHash(pair, height - 1, pos * 2, txids)
  }

  function RightHash(pair: PairHash, height: nat, pos: nat, txids: seq<Hash>): Hash
    requires height > 0 && pos < Width(|txids|, height)
  {
    if pos * 2 + 1 < Width(|txids|, height - 1) then CalcHash(pair, height - 1, pos * 2 + 1, txids)
        else LeftHash(pair, height, pos, txids)
  }

  lemma HashSplit(pair: PairHash, height: nat, pos: nat, txids: seq<Hash>)
    requires height > 0 && pos < Width(|txids|, height)
    ensures CalcHash(pair, height, pos, txids)
            == pair(LeftHash(pair, height, pos, txids), RightHash(pair, height, pos, txids))
  {
  }

  /** Equal node hashes at one height mean equal first leaves. */
  lemma {:induction false} SameHashSameLeaf(pair: PairHash, txids: seq<Hash>, height: nat, a: nat, b: nat)
    requires Injective(pair) && a < Width(|txids|, height) && b < Width(|txids|, height)
    requires CalcHash(pair, height, a, txids) == CalcHash(pair, height, b, txids)
    ensures First(height, a) < |txids| && First(height, b) < |txids|
            && txids[First(height, a)] == txids[First(height, b)]
    decreases height
  {
    hide Width, Injective;
    if height == 0 {
      WidthZero(|txids|);
    } else {
      hide CalcHash, First;
      HashSplit(pair, height, a, txids);
      HashSplit(pair, height, b, txids);
      Unpair(pair, LeftHash(pair, height, a, txids), RightHash(pair, height, a, txids),
          LeftHash(pair, height, b, txids), RightHash(pair, height, b, txids));
      ChildFits(|txids|, height, a);
      ChildFits(|txids|, height, b);
      Split(|txids|, height, a);
      Split(|txids|, height, b);
      SameHashSameLeaf(pair, txids, height - 1, 2 * a, 2 * b);
    }
  }

  lemma SiblingsDiffer(pair: PairHash, txids: seq<Hash>, height: nat, pos: nat)
    requires Injective(pair) && Distinct(txids) && pos * 2 + 1 < Width(|txids|, height)
    ensures CalcHash(pair, height, pos * 2, txids) != CalcHash(pair, height, pos * 2 + 1, txids)
  {
    hide Width, Injective, CalcHash;
    if CalcHash(pair, height, pos * 2, txids) == CalcHash(pair, height, pos * 2 + 1, txids) {
      SameHashSameLeaf(pair, txids, height, pos * 2, pos * 2 + 1);
      MulStep(pos, Pow2(height));
    }
  }

  lemma MulStep(pos: nat, q: nat)
    ensures (pos * 2 + 1) * q == (pos * 2) * q + q
  {
  }

  // ---------- extracting what was built ----------

  /** `part` stands in `all` from `at` on. */
  predicate StandsAt<T(==)>(all: seq<T>, at: nat, part: seq<T>) {
    at + |part| <= |all| && all[at..at + |part|] == part
  }

  lemma StandsSplit<T>(all: seq<T>, at: nat, a: seq<T>, b: seq<T>)
    requires StandsAt(all, at, a + b)
    ensures StandsAt(all, at, a) && StandsAt(all, at + |a|, b)
  {
    var ab := a + b;
    assert all[at..at + |ab|] == ab;
    assert all[at..at + |a|] == ab[..|a|];
    assert all[at + |a|..at + |a| + |b|] == ab[|a|..];
  }

  /** Extraction over what Build wrote for a node consumes exactly that, and yields the node's
      true hash and its matched leaves. */
  lemma {:induction false} ExtractBuild(pair: PairHash, txids: seq<Hash>, matches: seq<bool>, height: nat, pos: nat,
                                        bits: seq<bool>, hashes: seq<Hash>, p: Progress)
    requires Injective(pair) && Distinct(txids) && |txids| == |matches| && pos < Width(|txids|, height)
    requires StandsAt(bits, p.bitsUsed, Build(pair, height, pos, txids, matches).bits)
    requires StandsAt(hashes, p.hashUsed, Build(pair, height, pos, txids, matches).hashes)
    ensures var b := Build(pair, height, pos, txids, matches);
            Extract(pair, |txids|, bits, hashes, height, pos, p) ==
            (CalcHash(pair, height, pos, txids),
             Progress(p.bitsUsed + |b.bits|, p.hashUsed + |b.hashes|,
                      p.found + Matched(txids, matches, First(height, pos), End(|txids|, height, pos)), p.bad))
    decreases height
  {
    var b := Build(pair, height, pos, txids, matches);
    if height == 0 || !Under(matches, height, pos) {
      LeafExtract(pair, txids, matches, height, pos, bits, hashes, p);
    } else {
      InnerExtract(pair, txids, matches, height, pos, bits, hashes, p);
    }
  }

  lemma LeafExtract(pair: PairHash, txids: seq<Hash>, matches: seq<bool>, height: nat, pos: nat,
                    bits: seq<bool>, hashes: seq<Hash>, p: Progress)
    requires |txids| == |matches| && pos < Width(|txids|, height) && (height == 0 || !Under(matches, height, pos))
    requires StandsAt(bits, p.bitsUsed, [Under(matches, height, pos)])
    requires StandsAt(hashes, p.hashUsed, [CalcHash(pair, height, pos, txids)])
    ensures Extract(pair, |txids|, bits, hashes, height, pos, p) ==
            (CalcHash(pair, height, pos, txids),
             Progress(p.bitsUsed + 1, p.hashUsed + 1,
                      p.found + Matched(txids, matches, First(height, pos), End(|txids|, height, pos)), p.bad))
  {
    hide Width, CalcHash;
    assert bits[p.bitsUsed] == bits[p.bitsUsed..p.bitsUsed + 1][0];
    assert hashes[p.hashUsed] == hashes[p.hashUsed..p.hashUsed + 1][0];
    var lo, hi := First(height, pos), End(|txids|, height, pos);
    if Under(matches, height, pos) {
      AtLeaf(pair, txids, pos);
      assert matches[pos];
      assert Matched(txids, matches, lo, hi) == [(txids[pos], pos)];
    } else {
      NoneMatched(txids, matches, lo, hi);
      assert p.found + [] == p.found;
    }
  }

  lemma AtLeaf(pair: PairHash, txids: seq<Hash>, pos: nat)
    requires pos < Width(|txids|, 0)
    ensures pos < |txids| && CalcHash(pair, 0, pos, txids) == txids[pos] && First(0, pos) == pos
            && End(|txids|, 0, pos) == pos + 1
  {
    WidthZero(|txids|);
  }

  lemma InnerExtract(pair: PairHash, txids: seq<Hash>, matches: seq<bool>, height: nat, pos: nat,
                     bits: seq<bool>, hashes: seq<Hash>, p: Progress)
    requires Injective(pair) && Distinct(txids) && |txids| == |matches| && pos < Width(|txids|, height)
    requires height > 0 && Under(matches, height, pos)
    requires StandsAt(bits, p.bitsUsed, Build(pair, height, pos, txids, matches).bits)
    requires StandsAt(hashes, p.hashUsed, Build(pair, height, pos, txids, matches).hashes)
    ensures var b := Build(pair, height, pos, txids, matches);
            Extract(pair, |txids|, bits, hashes, height, pos, p) ==
            (CalcHash(pair, height, pos, txids),
             Progress(p.bitsUsed + |b.bits|, p.hashUsed + |b.hashes|,
                      p.found + Matched(txids, matches, First(height, pos), End(|txids|, height, pos)), p.bad))
    decreases height, 0
  {
    hide Width, Injective, Distinct, First, End, Under, Matched, Build, Extract, CalcHash, StandsAt;
    var n := |txids|;
    ChildFits(n, height, pos);
    Split(n, height, pos);
    HashSplit(pair, height, pos, txids);
    BuildInner(pair, height, pos, txids, matches);
    var left := Build(pair, height - 1, pos * 2, txids, matches);
    var p1 := p.(bitsUsed := p.bitsUsed + 1);
    var lo, mid, hi := First(height, pos), End(n, height - 1, 2 * pos), End(n, height, pos);
    var p2 := Progress(p1.bitsUsed + |left.bits|, p1.hashUsed + |left.hashes|,
        p1.found + Matched(txids, matches, lo, mid), p1.bad);
    if pos * 2 + 1 < Width(n, height - 1) {
      var right := Build(pair, height - 1, pos * 2 + 1, txids, matches);
      StandsSplit(bits, p.bitsUsed, [true], left.bits + right.bits);
      StandsSplit(bits, p1.bitsUsed, left.bits, right.bits);
      StandsSplit(hashes, p.hashUsed, left.hashes, right.hashes);
      FirstAt(bits, p.bitsUsed, true);
      ExtractBuild(pair, txids, matches, height - 1, pos * 2, bits, hashes, p1);
      ExtractBuild(pair, txids, matches, height - 1, pos * 2 + 1, bits, hashes, p2);
      SiblingsDiffer(pair, txids, height - 1, pos);
      MatchedSplit(txids, matches, lo, mid, hi);
      Concat3(p.found, Matched(txids, matches, lo, mid), Matched(txids, matches, mid, hi));
    } else {
      StandsSplit(bits, p.bitsUsed, [true], left.bits);
      FirstAt(bits, p.bitsUsed, true);
      ExtractBuild(pair, txids, matches, height - 1, pos * 2, bits, hashes, p1);
    }
    ExtractInner(pair, n, bits, hashes, height, pos, p);
  }

  lemma Concat3(a: seq<(Hash, nat)>, b: seq<(Hash, nat)>, c: seq<(Hash, nat)>)
    ensures a + (b + c) == a + b + c
  {
  }

  lemma BuildInner(pair: PairHash, height: nat, pos: nat, txids: seq<Hash>, matches: seq<bool>)
    requires |txids| == |matches| && pos < Width(|txids|, height) && height > 0 && Under(matches, height, pos)
    requires 2 * pos < Width(|txids|, height - 1)
    ensures var left := Build(pair, height - 1, pos * 2, txids, matches);
            Build(pair, height, pos, txids, matches) ==
              if pos * 2 + 1 < Width(|txids|, height - 1) then
                var right := Build(pair, height - 1, pos * 2 + 1, txids, matches);
                Parts([true] + (left.bits + right.bits), left.hashes + right.hashes)
              else Parts([true] + left.bits, left.hashes)
  {
    hide Width, Under;
    if pos * 2 + 1 < Width(|txids|, height - 1) {
      var left, right := Build(pair, height - 1, pos * 2, txids, matches),
          Build(pair, height - 1, pos * 2 + 1, txids, matches);
      assert [true] + (left.bits + right.bits) == [true] + left.bits + right.bits;
    }
  }

  lemma ExtractInner(pair: PairHash, n: nat, bits: seq<bool>, hashes: seq<Hash>, height: nat, pos: nat, p: Progress)
    requires height > 0 && p.bitsUsed < |bits| && bits[p.bitsUsed]
    ensures var (left, p2) := Extract(pair, n, bits, hashes, height - 1, pos * 2, p.(bitsUsed := p.bitsUsed + 1));
            Extract(pair, n, bits, hashes, height, pos, p) ==
              if pos * 2 + 1 < Width(n, height - 1) then
                var (right, p3) := Extract(pair, n, bits, hashes, height - 1, pos * 2 + 1, p2);
                (pair(left, right), if right == left then p3.(bad := true) else p3)
              else (pair(left, left), p2)
  {
    hide Width;
  }

  lemma FirstAt<T>(all: seq<T>, at: nat, x: T)
    requires StandsAt(all, at, [x])
    ensures at < |all| && all[at] == x
  {
    assert all[at] == all[at..at + 1][0];
  }

  // ---------- whole trees ----------

  const MAX_BLOCK_BASE_SIZE := 2000000

  /** The height of the tree: the first level with at most one node, from `height` up. */
  function HeightFrom(n: nat, height: nat): (h: nat)
    ensures h >= height && Width(n, h) <= 1
    decreases Width(n, height)
  {
    if Width(n, height) <= 1 then height else
    WidthStep(n, height);
    HeightFrom(n, height + 1)
  }

  function Height(n: nat): nat { HeightFrom(n, 0) }

  lemma {:induction false} WidthPositive(n: nat, height: nat)
    requires n > 0
    ensures Width(n, height) > 0
    decreases height
  {
    if height == 0 {
      WidthZero(n);
    } else {
      hide Width;
      WidthPositive(n, height - 1);
      WidthStep(n, height - 1);
    }
  }

  /** The whole tree is one node at the top. */
  lemma RootIs(n: nat)
    requires n > 0
    ensures Width(n, Height(n)) == 1 && First(Height(n), 0) == 0 && End(n, Height(n), 0) == n
  {
    hide Width;
    WidthPositive(n, Height(n));
    WidthIs(n, Height(n));
  }

  /** The Merkle root of a block. */
  function Root(pair: PairHash, txids: seq<Hash>): Hash
    requires |txids| > 0
  {
    RootIs(|txids|);
    CalcHash(pair, Height(|txids|), 0, txids)
  }

  /** The encoding of a whole block. */
  function Encode(pair: PairHash, txids: seq<Hash>, matches: seq<bool>): Parts
    requires |txids| == |matches| > 0
  {
    RootIs(|txids|);
    Build(pair, Height(|txids|), 0, txids, matches)
  }

  /** What ExtractMatches answers: the root, or 0 if anything is wrong. */
  function Decode(pair: PairHash, n: nat, bits: seq<bool>, hashes: seq<Hash>): (Hash, seq<(Hash, nat)>) {
    if n == 0 || n > MAX_BLOCK_BASE_SIZE / 60 || |hashes| > n || |bits| < |hashes| then (0, []) else
    var (root, p) := Extract(pair, n, bits, hashes, Height(n), 0, Progress(0, 0, [], false));
    (if p.bad || (p.bitsUsed + 7) / 8 != (|bits| + 7) / 8 || p.hashUsed != |hashes| then 0 else root, p.found)
  }

  /** Reading back a built tree, padded to whole bytes or not, gives the true root and exactly
      the matched transactions with their positions. */
  lemma EncodeThenDecode(pair: PairHash, txids: seq<Hash>, matches: seq<bool>, pad: seq<bool>)
    requires Injective(pair) && Distinct(txids) && |txids| == |matches| && 0 < |txids| <= MAX_BLOCK_BASE_SIZE / 60
    requires var b := Encode(pair, txids, matches); (|b.bits| + |pad| + 7) / 8 == (|b.bits| + 7) / 8
    ensures var b := Encode(pair, txids, matches);
            Decode(pair, |txids|, b.bits + pad, b.hashes) == (Root(pair, txids), Matched(txids, matches, 0, |txids|))
  {
    hide Width, Injective, Distinct, Build, Extract, CalcHash, Height;
    var n := |txids|;
    var b := Encode(pair, txids, matches);
    RootIs(n);
    BuildSizes(pair, Height(n), 0, txids, matches);
    assert (b.bits + pad)[0..|b.bits|] == b.bits;
    assert b.hashes[0..|b.hashes|] == b.hashes;
    ExtractBuild(pair, txids, matches, Height(n), 0, b.bits + pad, b.hashes, Progress(0, 0, [], false));
    assert [] + Matched(txids, matches, 0, n) == Matched(txids, matches, 0, n);
  }

  // ---------- sizes ----------

  function Count(matches: seq<bool>, lo: nat, hi: nat): nat
    requires hi <= |matches|
    decreases hi
  {
    if lo >= hi then 0 else Count(matches, lo, hi - 1) + (if matches[hi - 1] then 1 else 0)
  }

  /** The inner nodes below (and including) this one that are opened and have only one child. */
  function Lonely(matches: seq<bool>, height: nat, pos: nat): nat
    requires pos < Width(|matches|, height)
    decreases height
  {
    if height == 0 || !Under(matches, height, pos) then 0 else
    ChildFits(|matches|, height, pos);
    if pos * 2 + 1 < Width(|matches|, height - 1)
    then Lonely(matches, height - 1, pos * 2) + Lonely(matches, height - 1, pos * 2 + 1)
    else 1 + Lonely(matches, height - 1, pos * 2)
  }

  /** Stored hashes N and bits for one node: N is at most the leaves below it and at most
      1 + matched * height; the bits are 2N - 1, plus one for every lonely node opened. */
  lemma {:induction false} BuildSizes(pair: PairHash, height: nat, pos: nat, txids: seq<Hash>, matches: seq<bool>)
    requires |txids| == |matches| && pos < Width(|txids|, height)
    ensures First(height, pos) < End(|txids|, height, pos)
    ensures var b := Build(pair, height, pos, txids, matches);
            && 1 <= |b.hashes| <= End(|txids|, height, pos) - First(height, pos)
            && |b.hashes| <= 1 + Count(matches, First(height, pos), End(|txids|, height, pos)) * height
            && |b.bits| == 2 * |b.hashes| - 1 + Lonely(matches, height, pos)
    decreases height
  {
    hide Width, First, End, AnyMatch, CalcHash, Count;
    var n := |txids|;
    NonEmpty(n, height, pos);
    if height == 0 || !Under(matches, height, pos) {
    } else {
      ChildFits(n, height, pos);
      Split(n, height, pos);
      BuildInner(pair, height, pos, txids, matches);
      CountPositive(matches, First(height, pos), End(n, height, pos));
      BuildSizes(pair, height - 1, pos * 2, txids, matches);
      var lo, mid, hi := First(height, pos), End(n, height - 1, 2 * pos), End(n, height, pos);
      if pos * 2 + 1 < Width(n, height - 1) {
        BuildSizes(pair, height - 1, pos * 2 + 1, txids, matches);
        CountSplit(matches, lo, mid, hi);
        PerLevel(Count(matches, lo, mid), Count(matches, mid, hi), height);
      } else {
        PerLevel(Count(matches, lo, hi), 0, height);
      }
    }
  }

  lemma PerLevel(a: nat, b: nat, height: nat)
    requires height > 0
    ensures (a + b) * height == a * (height - 1) + b * (height - 1) + (a + b)
  {
  }

  lemma NonEmpty(n: nat, height: nat, pos: nat)
    requires pos < Width(n, height)
    ensures First(height, pos) < End(n, height, pos)
  {
    hide Width;
    WidthIs(n, height);
    MulLe(pos, Width(n, height) - 1, Pow2(height));
    var w, q := Width(n, height), Pow2(height);
    assert (w - 1) * q == w * q - q;
    assert (pos + 1) * q == pos * q + q;
  }

  lemma CountPositive(matches: seq<bool>, lo: nat, hi: nat)
    requires hi <= |matches| && AnyMatch(matches, lo, hi)
    ensures Count(matches, lo, hi) > 0
    decreases hi
  {
    if !matches[hi - 1] {
      var p :| lo <= p < hi && p < |matches| && matches[p];
      assert AnyMatch(matches, lo, hi - 1);
      CountPositive(matches, lo, hi - 1);
    }
  }

  lemma {:induction false} CountSplit(matches: seq<bool>, lo: nat, mid: nat, hi: nat)
    requires lo <= mid <= hi <= |matches|
    ensures Count(matches, lo, hi) == Count(matches, lo, mid) + Count(matches, mid, hi)
    decreases hi
  {
    if mid < hi { CountSplit(matches, lo, mid, hi - 1); }
  }

  /** Whether opening the tree for these matches meets a node with an only child: on some level
      of odd width the last node above it is the parent of a match. */
  predicate Ragged(matches: seq<bool>, height: nat)
    decreases height
  {
    && height > 0 && Width(|matches|, height) > 0
    && (|| Ragged(matches, height - 1)
        || (Width(|matches|, height - 1) % 2 == 1 && Under(matches, height, Width(|matches|, height) - 1)))
  }

  /** The size promised for the flag bits, 2N - 1 at most, holds exactly for the blocks and
      matches that meet no such node. */
  lemma BitsPromise(pair: PairHash, txids: seq<Hash>, matches: seq<bool>)
    requires |txids| == |matches| > 0
    ensures var b := Encode(pair, txids, matches);
            && |b.hashes| <= |txids|
            && |b.hashes| <= 1 + Count(matches, 0, |matches|) * Height(|txids|)
            && (|b.bits| <= 2 * |b.hashes| - 1 <==> !Ragged(matches, Height(|txids|)))
  {
    hide Width, Build, Height, Lonely, Ragged;
    var n := |txids|;
    RootIs(n);
    BuildSizes(pair, Height(n), 0, txids, matches);
    LonelyLast(matches, Height(n));
  }

  /** Before the last node of a level nothing is lonely. */
  lemma {:induction false} LonelyBefore(matches: seq<bool>, height: nat, pos: nat)
    requires pos + 1 < Width(|matches|, height)
    ensures Lonely(matches, height, pos) == 0
    decreases height
  {
    hide Width, Under;
    if height > 0 {
      WidthStep(|matches|, height - 1);
      LonelyBefore(matches, height - 1, pos * 2);
      if pos * 2 + 2 < Width(|matches|, height - 1) { LonelyBefore(matches, height - 1, pos * 2 + 1); }
    }
  }

  /** The last node of a level is the parent of the last node below. */
  lemma LastChild(n: nat, height: nat)
    requires n > 0 && height > 0
    ensures var w, last := Width(n, height - 1), Width(n, height) - 1;
            && w > 0 && last >= 0 && last * 2 < w
            && (w % 2 == 1 ==> last * 2 == w - 1)
            && (w % 2 == 0 ==> last * 2 + 1 == w - 1)
  {
    hide Width;
    WidthPositive(n, height - 1);
    WidthPositive(n, height);
    WidthStep(n, height - 1);
  }

  lemma {:induction false} RaggedUnder(matches: seq<bool>, height: nat)
    requires |matches| > 0 && Ragged(matches, height)
    ensures Width(|matches|, height) > 0 && Under(matches, height, Width(|matches|, height) - 1)
    decreases height
  {
    hide Width, Under;
    LastChild(|matches|, height);
    if Ragged(matches, height - 1) {
      RaggedUnder(matches, height - 1);
      UnderSplit(matches, height, Width(|matches|, height) - 1);
    }
  }

  lemma {:induction false} LonelyLast(matches: seq<bool>, height: nat)
    requires |matches| > 0
    ensures Width(|matches|, height) > 0
    ensures Lonely(matches, height, Width(|matches|, height) - 1) == 0 <==> !Ragged(matches, height)
    decreases height
  {
    hide Width, Under;
    var n := |matches|;
    WidthPositive(n, height);
    var last := Width(n, height) - 1;
    if height > 0 {
      LastChild(n, height);
      LonelyLast(matches, height - 1);
      if !Under(matches, height, last) {
        if Ragged(matches, height) { RaggedUnder(matches, height); }
      } else if Width(n, height - 1) % 2 == 0 {
        LonelyBefore(matches, height - 1, last * 2);
      }
    }
  }

  lemma WidthsOfThree()
    ensures Width(3, 0) == 3 && Width(3, 1) == 2 && Width(3, 2) == 1 && Height(3) == 2
  {
    WidthUnique(3, 0, 3);
    WidthUnique(3, 1, 2);
    assert Pow2(2) == 2 * Pow2(1);
    WidthUnique(3, 2, 1);
    hide Width;
    assert HeightFrom(3, 2) == 2;
    assert HeightFrom(3, 1) == HeightFrom(3, 2);
  }

  lemma UnderOfThree()
    ensures var m := [false, false, true];
            Under(m, 2, 0) && Under(m, 1, 1) && Under(m, 0, 2) && !Under(m, 1, 0)
  {
    var m := [false, false, true];
    assert Pow2(0) == 1 && Pow2(1) == 2 && Pow2(2) == 4;
    assert m[2];
    assert AnyMatch(m, 0, 3) && AnyMatch(m, 2, 3) && !AnyMatch(m, 0, 2);
  }

  /** Three transactions, the last one matched: four bits for two hashes. */
  lemma BitsPromiseFails(pair: PairHash, a: Hash, b: Hash, c: Hash)
    ensures var e := Encode(pair, [a, b, c], [false, false, true]);
            |e.hashes| == 2 && |e.bits| == 4
  {
    hide Width, Under, CalcHash;
    var txids, matches := [a, b, c], [false, false, true];
    WidthsOfThree();
    UnderOfThree();
    RootIs(3);
    assert |Build(pair, 1, 0, txids, matches).bits| == |Build(pair, 1, 0, txids, matches).hashes| == 1;
    assert |Build(pair, 0, 2, txids, matches).bits| == |Build(pair, 0, 2, txids, matches).hashes| == 1;
    BuildInner(pair, 1, 1, txids, matches);
    BuildInner(pair, 2, 0, txids, matches);
  }

  // ---------- what a true root proves ----------

  /** For any flag bits and hashes: if a node extracts without complaint to its true hash, then
      everything found under it is where it says. */
  lemma {:induction false} ExtractSound(pair: PairHash, txids: seq<Hash>, height: nat, pos: nat, bits: seq<bool>,
                                        hashes: seq<Hash>, p: Progress)
    requires Injective(pair) && pos < Width(|txids|, height)
    requires var (hash, q) := Extract(pair, |txids|, bits, hashes, height, pos, p);
             !q.bad && hash == CalcHash(pair, height, pos, txids)
    requires forall k :: 0 <= k < |p.found| ==> True(txids, p.found[k])
    ensures var (_, q) := Extract(pair, |txids|, bits, hashes, height, pos, p);
            forall k :: 0 <= k < |q.found| ==> True(txids, q.found[k])
    decreases height
  {
    hide Width, Injective;
    var n := |txids|;
    if height == 0 {
      WidthZero(n);
    } else if p.bitsUsed < |bits| && bits[p.bitsUsed] {
      hide Extract, CalcHash;
      ExtractInner(pair, n, bits, hashes, height, pos, p);
      HashSplit(pair, height, pos, txids);
      ChildFits(n, height, pos);
      var p1 := p.(bitsUsed := p.bitsUsed + 1);
      var (left, p2) := Extract(pair, n, bits, hashes, height - 1, pos * 2, p1);
      if pos * 2 + 1 < Width(n, height - 1) {
        var (right, p3) := Extract(pair, n, bits, hashes, height - 1, pos * 2 + 1, p2);
        BadStays(pair, n, bits, hashes, height - 1, pos * 2 + 1, p2);
        Unpair(pair, left, right, LeftHash(pair, height, pos, txids), RightHash(pair, height, pos, txids));
        ExtractSound(pair, txids, height - 1, pos * 2, bits, hashes, p1);
        ExtractSound(pair, txids, height - 1, pos * 2 + 1, bits, hashes, p2);
      } else {
        Unpair(pair, left, left, LeftHash(pair, height, pos, txids), RightHash(pair, height, pos, txids));
        ExtractSound(pair, txids, height - 1, pos * 2, bits, hashes, p1);
      }
    }
  }

  /** The pair names a transaction of the block and its position. */
  predicate True(txids: seq<Hash>, found: (Hash, nat)) {
    found.1 < |txids| && txids[found.1] == found.0
  }

  lemma {:induction false} BadStays(pair: PairHash, n: nat, bits: seq<bool>, hashes: seq<Hash>, height: nat, pos: nat,
                                    p: Progress)
    ensures p.bad ==> Extract(pair, n, bits, hashes, height, pos, p).1.bad
    decreases height
  {
    hide Width;
    if height > 0 && p.bitsUsed < |bits| && bits[p.bitsUsed] {
      var p1 := p.(bitsUsed := p.bitsUsed + 1);
      BadStays(pair, n, bits, hashes, height - 1, pos * 2, p1);
      BadStays(pair, n, bits, hashes, height - 1, pos * 2 + 1,
          Extract(pair, n, bits, hashes, height - 1, pos * 2, p1).1);
    }
  }

  /** Whatever flag bits and hashes arrive: a decoding that yields the block's true root reports
      only transactions of the block, each at its position. */
  lemma TrueRootProves(pair: PairHash, txids: seq<Hash>, bits: seq<bool>, hashes: seq<Hash>)
    requires Injective(pair) && |txids| > 0 && Root(pair, txids) != 0
    requires Decode(pair, |txids|, bits, hashes).0 == Root(pair, txids)
    ensures var found := Decode(pair, |txids|, bits, hashes).1;
            forall k :: 0 <= k < |found| ==> True(txids, found[k])
  {
    hide Width, Injective, Extract, CalcHash, Height;
    RootIs(|txids|);
    ExtractSound(pair, txids, Height(|txids|), 0, bits, hashes, Progress(0, 0, [], false));
  }

  // ---------- the object ----------

  class PartialMerkleTree {
    const pair: PairHash
    var nTransactions: nat
    var vBits: seq<bool>
    var vHash: seq<Hash>
    var fBad: bool

    /** Builds the tree of a block for the transactions selected by `matches`. */
    constructor (pair: PairHash, txids: seq<Hash>, matches: seq<bool>)
      requires |txids| == |matches| > 0
      ensures this.pair == pair && nTransactions == |txids| && !fBad
      ensures Parts(vBits, vHash) == Encode(pair, txids, matches)
    {
      this.pair, nTransactions, vBits, vHash, fBad := pair, |txids|, [], [], false;
      new;
      var height := TreeHeight();
      RootIs(nTransactions);
      TraverseAndBuild(height, 0, txids, matches);
    }

    /** A tree as it arrives from a peer. */
    constructor Received(pair: PairHash, n: nat, bits: seq<bool>, hashes: seq<Hash>)
      ensures this.pair == pair && nTransactions == n && vBits == bits && vHash == hashes && !fBad
    {
      this.pair, nTransactions, vBits, vHash, fBad := pair, n, bits, hashes, false;
    }

    method TreeHeight() returns (height: nat)
      ensures height == Height(nTransactions)
    {
      height := 0;
      while Width(nTransactions, height) > 1
        invariant HeightFrom(nTransactions, height) == Height(nTransactions)
        decreases Width(nTransactions, height)
      {
        WidthStep(nTransactions, height);
        height := height + 1;
      }
    }

    /** Whether the node is the parent of at least one matched transaction. */
    method ParentOfMatch(height: nat, pos: nat, matches: seq<bool>) returns (parent: bool)
      requires nTransactions == |matches| && pos < Width(|matches|, height)
      ensures parent == Under(matches, height, pos)
    {
      hide Width, First, End;
      NonEmpty(nTransactions, height, pos);
      parent := false;
      for p := First(height, pos) to End(nTransactions, height, pos)
        invariant parent == AnyMatch(matches, First(height, pos), p)
      {
        AnySplit(matches, First(height, pos), p, p + 1);
        assert AnyMatch(matches, p, p + 1) <==> matches[p];
        parent := parent || matches[p];
      }
    }

    method TraverseAndBuild(height: nat, pos: nat, txids: seq<Hash>, matches: seq<bool>)
      requires nTransactions == |txids| == |matches| && pos < Width(|txids|, height)
      modifies this`vBits, this`vHash
      ensures var b := Build(pair, height, pos, txids, matches);
              vBits == old(vBits) + b.bits && vHash == old(vHash) + b.hashes
      decreases height
    {
      hide Width, CalcHash, Under, Build;
      var parent := ParentOfMatch(height, pos, matches);
      vBits := vBits + [parent];
      if height == 0 || !parent {
        BuildLeaf(pair, height, pos, txids, matches);
        vHash := vHash + [CalcHash(pair, height, pos, txids)];
      } else {
        ChildFits(nTransactions, height, pos);
        BuildInner(pair, height, pos, txids, matches);
        TraverseAndBuild(height - 1, pos * 2, txids, matches);
        ghost var left := Build(pair, height - 1, pos * 2, txids, matches);
        if pos * 2 + 1 < Width(nTransactions, height - 1) {
          TraverseAndBuild(height - 1, pos * 2 + 1, txids, matches);
          ghost var right := Build(pair, height - 1, pos * 2 + 1, txids, matches);
          Chain(old(vBits), [true], left.bits, right.bits);
          Chain(old(vHash), [], left.hashes, right.hashes);
        } else {
          Chain(old(vBits), [true], left.bits, []);
        }
      }
    }

    method TraverseAndExtract(height: nat, pos: nat, bitsUsed: nat, hashUsed: nat, found: seq<(Hash, nat)>)
        returns (hash: Hash, bitsUsed': nat, hashUsed': nat, found': seq<(Hash, nat)>)
      modifies this`fBad
      ensures (hash, Progress(bitsUsed', hashUsed', found', fBad)) ==
              Extract(pair, nTransactions, vBits, vHash, height, pos, Progress(bitsUsed, hashUsed, found, old(fBad)))
      ensures old(fBad) ==> fBad
      decreases height
    {
      hide Width;
      bitsUsed', hashUsed', found' := bitsUsed, hashUsed, found;
      if bitsUsed' >= |vBits| {
        fBad := true;
        return 0, bitsUsed', hashUsed', found';
      }
      var parent := vBits[bitsUsed'];
      bitsUsed' := bitsUsed' + 1;
      if height == 0 || !parent {
        if hashUsed' >= |vHash| {
          fBad := true;
          return 0, bitsUsed', hashUsed', found';
        }
        hash := vHash[hashUsed'];
        hashUsed' := hashUsed' + 1;
        if height == 0 && parent {
          found' := found' + [(hash, pos)];
        }
      } else {
        var left, right;
        left, bitsUsed', hashUsed', found' := TraverseAndExtract(height - 1, pos * 2, bitsUsed', hashUsed', found');
        if pos * 2 + 1 < Width(nTransactions, height - 1) {
          right, bitsUsed', hashUsed', found' :=
              TraverseAndExtract(height - 1, pos * 2 + 1, bitsUsed', hashUsed', found');
          if right == left {
            fBad := true;
          }
        } else {
          right := left;
        }
        hash := pair(left, right);
      }
    }

    /** The Merkle root this tree claims, or 0, and the matched transactions with their positions.
        A tree that was found bad stays bad. */
    method ExtractMatches() returns (root: Hash, found: seq<(Hash, nat)>)
      modifies this`fBad
      ensures !old(fBad) ==> (root, found) == Decode(pair, nTransactions, vBits, vHash)
      ensures old(fBad) ==> fBad && root == 0
    {
      hide Width, Height, Extract;
      if nTransactions == 0 { return 0, []; }
      if nTransactions > MAX_BLOCK_BASE_SIZE / 60 { return 0, []; }
      if |vHash| > nTransactions { return 0, []; }
      if |vBits| < |vHash| { return 0, []; }
      var height := TreeHeight();
      var bitsUsed, hashUsed;
      root, bitsUsed, hashUsed, found := TraverseAndExtract(height, 0, 0, 0, []);
      if fBad { return 0, found; }
      if (bitsUsed + 7) / 8 != (|vBits| + 7) / 8 { return 0, found; }
      if hashUsed != |vHash| { return 0, found; }
    }
  }

  lemma Chain<T>(a: seq<T>, b: seq<T>, c: seq<T>, d: seq<T>)
    ensures a + b + c + d == a + (b + (c + d)) && b + [] == b && [] + b == b && c + [] == c
    ensures [] + (c + d) == c + d && a + [] + c + d == a + c + d && a + b + c == a + (b + c)
  {
  }

  lemma BuildLeaf(pair: PairHash, height: nat, pos: nat, txids: seq<Hash>, matches: seq<bool>)
    requires |txids| == |matches| && pos < Width(|txids|, height) && (height == 0 || !Under(matches, height, pos))
    ensures Build(pair, height, pos, txids, matches)
            == Parts([Under(matches, height, pos)], [CalcHash(pair, height, pos, txids)])
  {
  }

  // ---------- packing the flag bits into bytes ----------

  /** Packs eight flag bits to a byte; the last byte is filled up with zeros. */
  method PackBits(bits: seq<bool>) returns (bytes: seq<bv8>)
    ensures |bytes| == (|bits| + 7) / 8
    ensures forall p :: 0 <= p < 8 * |bytes| ==> BitAt(bytes, p) == (p < |bits| && bits[p])
  {
    hide Mask, BitAt;
    var vBytes := new bv8[(|bits| + 7) / 8](_ => 0);
    ZeroBits(vBytes[..]);
    for p := 0 to |bits|
      invariant forall q :: 0 <= q < 8 * vBytes.Length ==> BitAt(vBytes[..], q) == (q < p && bits[q])
    {
      if bits[p] {
        ghost var before := vBytes[..];
        vBytes[p / 8] := vBytes[p / 8] | Mask(p % 8);
        assert vBytes[..] == before[p / 8 := before[p / 8] | Mask(p % 8)];
        forall q | 0 <= q < 8 * vBytes.Length ensures BitAt(vBytes[..], q) == (q < p + 1 && bits[q]) {
          SetOne(before, p, q);
        }
      } else {
        assert forall q :: 0 <= q < 8 * vBytes.Length ==> BitAt(vBytes[..], q) == (q < p + 1 && bits[q]);
      }
    }
    bytes := vBytes[..];
  }

  lemma ZeroBits(bytes: seq<bv8>)
    requires forall k :: 0 <= k < |bytes| ==> bytes[k] == 0
    ensures forall p :: 0 <= p < 8 * |bytes| ==> !BitAt(bytes, p)
  {
  }

  method UnpackBits(bytes: seq<bv8>) returns (bits: seq<bool>)
    ensures |bits| == 8 * |bytes| && forall p :: 0 <= p < |bits| ==> bits[p] == BitAt(bytes, p)
  {
    hide Mask;
    bits := [];
    for p := 0 to 8 * |bytes|
      invariant |bits| == p && forall q :: 0 <= q < p ==> bits[q] == BitAt(bytes, q)
    {
      bits := bits + [bytes[p / 8] & Mask(p % 8) != 0];
    }
  }

  /** Over the wire: a tree that is built, packed, unpacked and extracted yields the block's
      root and exactly the selected transactions with their positions. */
  method SendAndExtract(pair: PairHash, txids: seq<Hash>, matches: seq<bool>)
      returns (root: Hash, found: seq<(Hash, nat)>)
    requires Injective(pair) && Distinct(txids) && |txids| == |matches| && 0 < |txids| <= MAX_BLOCK_BASE_SIZE / 60
    ensures root == Root(pair, txids) && found == Matched(txids, matches, 0, |txids|)
  {
    hide Encode, Decode, Root, Matched, Injective, Distinct, BitAt;
    var sent := new PartialMerkleTree(pair, txids, matches);
    var bytes := PackBits(sent.vBits);
    var bits := UnpackBits(bytes);
    var n := |sent.vBits|;
    assert bits == sent.vBits + bits[n..];
    EncodeThenDecode(pair, txids, matches, bits[n..]);
    var got := new PartialMerkleTree.Received(pair, sent.nTransactions, bits, sent.vHash);
    root, found := got.ExtractMatches();
  }
}
