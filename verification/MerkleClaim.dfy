/** What a partial Merkle tree proves when its count of transactions, which arrives with it, may
    be wrong: exactly a count whose tree is not lower than the block's is safe. */
module MerkleClaim {
  import opened Numbers
  import opened PartialMerkle

  /** No transaction id is the hash of a pair. */
  ghost predicate Apart(pair: PairHash, txids: seq<Hash>) {
    forall a, b :: pair(a, b) !in txids
  }

  ghost predicate AllTrue(txids: seq<Hash>, found: seq<(Hash, nat)>) {
    forall k :: 0 <= k < |found| ==> True(txids, found[k])
  }

  // ---------- a claimed tree that is as high or higher ----------

  /** A node of a claimed tree that lies `extra` levels above the block's leaves more than it
      should: if it extracts to the true hash, it reports true transactions, or none if extra > 0. */
  lemma {:induction false} ClaimedSound(pair: PairHash, n: nat, txids: seq<Hash>, extra: nat, height: nat, pos: nat,
                                        bits: seq<bool>, hashes: seq<Hash>, p: Progress)
    requires Injective(pair) && Distinct(txids) && (extra > 0 ==> Apart(pair, txids)) && pos < Width(|txids|, height)
    requires var (hash, q) := Extract(pair, n, bits, hashes, height + extra, pos, p);
             !q.bad && hash == CalcHash(pair, height, pos, txids)
    requires AllTrue(txids, p.found)
    ensures AllTrue(txids, Extract(pair, n, bits, hashes, height + extra, pos, p).1.found)
    decreases height
  {
    hide Width, Injective, Distinct, Apart, AllTrue, Extract, CalcHash, LeftHash, RightHash;
    if height + extra > 0 && p.bitsUsed < |bits| && bits[p.bitsUsed] {
      ExtractInner(pair, n, bits, hashes, height + extra, pos, p);
      if height == 0 {
        LeafApart(pair, n, txids, extra, pos, bits, hashes, p);
      } else {
        ClaimedInner(pair, n, txids, extra, height, pos, bits, hashes, p);
      }
    } else {
      ClaimedLeaf(pair, n, txids, extra, height, pos, bits, hashes, p);
    }
  }

  /** A node that is not opened reports at most itself. */
  lemma ClaimedLeaf(pair: PairHash, n: nat, txids: seq<Hash>, extra: nat, height: nat, pos: nat,
                    bits: seq<bool>, hashes: seq<Hash>, p: Progress)
    requires pos < Width(|txids|, height) && AllTrue(txids, p.found)
    requires height + extra == 0 || p.bitsUsed >= |bits| || !bits[p.bitsUsed]
    requires var (hash, q) := Extract(pair, n, bits, hashes, height + extra, pos, p);
             !q.bad && hash == CalcHash(pair, height, pos, txids)
    ensures AllTrue(txids, Extract(pair, n, bits, hashes, height + extra, pos, p).1.found)
  {
    hide Width;
    if height == 0 { WidthZero(|txids|); }
  }

  /** A transaction that is claimed to be an inner node cannot be opened. */
  lemma LeafApart(pair: PairHash, n: nat, txids: seq<Hash>, extra: nat, pos: nat,
                  bits: seq<bool>, hashes: seq<Hash>, p: Progress)
    requires Apart(pair, txids) && extra > 0 && pos < Width(|txids|, 0) && p.bitsUsed < |bits| && bits[p.bitsUsed]
    ensures Extract(pair, n, bits, hashes, extra, pos, p).0 != CalcHash(pair, 0, pos, txids)
  {
    hide Width, Extract;
    WidthZero(|txids|);
    ExtractInner(pair, n, bits, hashes, extra, pos, p);
    assert CalcHash(pair, 0, pos, txids) in txids;
    var (left, p2) := Extract(pair, n, bits, hashes, extra - 1, pos * 2, p.(bitsUsed := p.bitsUsed + 1));
    var right := Extract(pair, n, bits, hashes, extra - 1, pos * 2 + 1, p2).0;
    assert pair(left, left) !in txids && pair(left, right) !in txids;
  }

  lemma ClaimedInner(pair: PairHash, n: nat, txids: seq<Hash>, extra: nat, height: nat, pos: nat,
                     bits: seq<bool>, hashes: seq<Hash>, p: Progress)
    requires Injective(pair) && Distinct(txids) && (extra > 0 ==> Apart(pair, txids)) && pos < Width(|txids|, height)
    requires height > 0 && p.bitsUsed < |bits| && bits[p.bitsUsed]
    requires var (hash, q) := Extract(pair, n, bits, hashes, height + extra, pos, p);
             !q.bad && hash == CalcHash(pair, height, pos, txids)
    requires AllTrue(txids, p.found)
    ensures AllTrue(txids, Extract(pair, n, bits, hashes, height + extra, pos, p).1.found)
    decreases height, 0
  {
    hide Width, Injective, Distinct, Apart, AllTrue, Extract, CalcHash;
    ExtractInner(pair, n, bits, hashes, height + extra, pos, p);
    HashSplit(pair, height, pos, txids);
    ChildFits(|txids|, height, pos);
    var p1 := p.(bitsUsed := p.bitsUsed + 1);
    var (left, p2) := Extract(pair, n, bits, hashes, height - 1 + extra, pos * 2, p1);
    var l, r := LeftHash(pair, height, pos, txids), RightHash(pair, height, pos, txids);
    if pos * 2 + 1 < Width(n, height - 1 + extra) {
      var (right, p3) := Extract(pair, n, bits, hashes, height - 1 + extra, pos * 2 + 1, p2);
      BadStays(pair, n, bits, hashes, height - 1 + extra, pos * 2 + 1, p2);
      Unpair(pair, left, right, l, r);
      ClaimedSound(pair, n, txids, extra, height - 1, pos * 2, bits, hashes, p1);
      assert pos * 2 + 1 < Width(|txids|, height - 1);
      ClaimedSound(pair, n, txids, extra, height - 1, pos * 2 + 1, bits, hashes, p2);
    } else {
      Unpair(pair, left, left, l, r);
      ClaimedSound(pair, n, txids, extra, height - 1, pos * 2, bits, hashes, p1);
    }
  }

  /** A true root proves the transactions reported with it if the claimed tree is not lower. */
  lemma HighEnough(pair: PairHash, n: nat, txids: seq<Hash>, bits: seq<bool>, hashes: seq<Hash>)
    requires Injective(pair) && Distinct(txids) && |txids| > 0 && Root(pair, txids) != 0
    requires Height(n) == Height(|txids|) || (Height(n) > Height(|txids|) && Apart(pair, txids))
    requires Decode(pair, n, bits, hashes).0 == Root(pair, txids)
    ensures AllTrue(txids, Decode(pair, n, bits, hashes).1)
  {
    hide Width, Injective, Distinct, Apart, Extract, CalcHash, Height;
    RootIs(|txids|);
    var h := Height(|txids|);
    ClaimedSound(pair, n, txids, Height(n) - h, h, 0, bits, hashes, Progress(0, 0, [], false));
  }

  // ---------- a claimed tree that is lower ----------

  lemma {:induction false} WideFrom(n: nat, from: nat, k: nat)
    requires from <= k < HeightFrom(n, from)
    ensures Width(n, k) > 1
    decreases Width(n, from)
  {
    hide Width;
    if Width(n, from) > 1 {
      WidthStep(n, from);
      if from < k { WideFrom(n, from + 1, k); }
    }
  }

  /** Below its top a tree is more than one node wide. */
  lemma Wide(n: nat, k: nat)
    requires k < Height(n)
    ensures Width(n, k) > 1
  {
    WideFrom(n, 0, k);
  }

  /** A tree has more leaves than levels above them. */
  lemma {:induction false} LeavesOf(n: nat, k: nat)
    requires n > 0 && k <= Height(n)
    ensures Width(n, k) >= Height(n) - k + 1
    decreases Height(n) - k
  {
    hide Width, Height;
    if k == Height(n) {
      RootIs(n);
    } else {
      LeavesOf(n, k + 1);
      WidthStep(n, k);
      Wide(n, k);
    }
  }

  /** The flag bits of a tree opened along its left side only, with the first leaf matched. */
  function PathBits(h: nat): (bits: seq<bool>)
    ensures |bits| == 2 * h + 1
  {
    if h == 0 then [true] else [true] + (PathBits(h - 1) + [false])
  }

  /** Its hashes, for the nodes `low` levels above the block's transactions taken as leaves. */
  function PathHashes(pair: PairHash, txids: seq<Hash>, low: nat, h: nat): (hashes: seq<Hash>)
    requires |txids| > 0 && low + h <= Height(|txids|)
    ensures |hashes| == h + 1
  {
    WidthPositive(|txids|, low);
    if h == 0 then [CalcHash(pair, low, 0, txids)] else
    Wide(|txids|, low + h - 1);
    PathHashes(pair, txids, low, h - 1) + [CalcHash(pair, low + h - 1, 1, txids)]
  }

  lemma {:induction false} PathExtract(pair: PairHash, n: nat, txids: seq<Hash>, low: nat, h: nat, bits: seq<bool>,
                                       hashes: seq<Hash>, p: Progress)
    requires Injective(pair) && Distinct(txids) && |txids| > 0 && low + h <= Height(|txids|) && h <= Height(n)
    requires StandsAt(bits, p.bitsUsed, PathBits(h)) && StandsAt(hashes, p.hashUsed, PathHashes(pair, txids, low, h))
    ensures Width(|txids|, low + h) > 0 && Width(|txids|, low) > 0
    ensures Extract(pair, n, bits, hashes, h, 0, p) ==
            (CalcHash(pair, low + h, 0, txids),
             Progress(p.bitsUsed + 2 * h + 1, p.hashUsed + h + 1, p.found + [(CalcHash(pair, low, 0, txids), 0)],
                 p.bad))
    decreases h
  {
    hide Width, Injective, Distinct, CalcHash, Height, StandsAt;
    WidthPositive(|txids|, low + h);
    WidthPositive(|txids|, low);
    if h == 0 {
      FirstAt(bits, p.bitsUsed, true);
      FirstAt(hashes, p.hashUsed, CalcHash(pair, low, 0, txids));
    } else {
      Wide(|txids|, low + h - 1);
      Wide(n, h - 1);
      StandsSplit(bits, p.bitsUsed, [true], PathBits(h - 1) + [false]);
      StandsSplit(bits, p.bitsUsed + 1, PathBits(h - 1), [false]);
      FirstAt(bits, p.bitsUsed, true);
      FirstAt(bits, p.bitsUsed + 2 * h, false);
      var sibling := CalcHash(pair, low + h - 1, 1, txids);
      StandsSplit(hashes, p.hashUsed, PathHashes(pair, txids, low, h - 1), [sibling]);
      FirstAt(hashes, p.hashUsed + h, sibling);
      var p1 := p.(bitsUsed := p.bitsUsed + 1);
      PathExtract(pair, n, txids, low, h - 1, bits, hashes, p1);
      PathTop(pair, n, txids, low, h, bits, hashes, p);
    }
  }

  lemma PathTop(pair: PairHash, n: nat, txids: seq<Hash>, low: nat, h: nat, bits: seq<bool>, hashes: seq<Hash>,
                p: Progress)
    requires Injective(pair) && Distinct(txids) && h > 0 && Width(|txids|, low + h - 1) > 1 && Width(n, h - 1) > 1
    requires Width(|txids|, low) > 0 && Width(|txids|, low + h) > 0
    requires p.bitsUsed + 2 * h < |bits| && bits[p.bitsUsed] && !bits[p.bitsUsed + 2 * h]
    requires p.hashUsed + h < |hashes| && hashes[p.hashUsed + h] == CalcHash(pair, low + h - 1, 1, txids)
    requires Extract(pair, n, bits, hashes, h - 1, 0, p.(bitsUsed := p.bitsUsed + 1)) ==
             (CalcHash(pair, low + h - 1, 0, txids),
              Progress(p.bitsUsed + 2 * h, p.hashUsed + h, p.found + [(CalcHash(pair, low, 0, txids), 0)], p.bad))
    ensures Extract(pair, n, bits, hashes, h, 0, p) ==
            (CalcHash(pair, low + h, 0, txids),
             Progress(p.bitsUsed + 2 * h + 1, p.hashUsed + h + 1, p.found + [(CalcHash(pair, low, 0, txids), 0)],
                 p.bad))
  {
    hide Width, Injective, Distinct;
    SiblingsDiffer(pair, txids, low + h - 1, 0);
    HashSplit(pair, low + h, 0, txids);
  }

  /** A lower claimed tree with the true root that reports an inner node as the first transaction. */
  lemma TooLow(pair: PairHash, n: nat, txids: seq<Hash>)
    requires Injective(pair) && Distinct(txids) && Apart(pair, txids) && |txids| > 0
    requires 0 < n <= MAX_BLOCK_BASE_SIZE / 60 && Height(n) < Height(|txids|)
    ensures var low := Height(|txids|) - Height(n);
            var bits, hashes := PathBits(Height(n)), PathHashes(pair, txids, low, Height(n));
            && Decode(pair, n, bits, hashes).0 == Root(pair, txids)
            && !AllTrue(txids, Decode(pair, n, bits, hashes).1)
  {
    hide Width, Injective, Distinct, CalcHash, Height, Extract, PathBits, PathHashes, Apart, AllTrue;
    var h, top := Height(n), Height(|txids|);
    var low := top - h;
    var bits, hashes := PathBits(h), PathHashes(pair, txids, low, h);
    assert bits[0..0 + |bits|] == bits && hashes[0..0 + |hashes|] == hashes;
    PathExtract(pair, n, txids, low, h, bits, hashes, Progress(0, 0, [], false));
    LeavesOf(n, 0);
    WidthZero(n);
    InnerApart(pair, txids, low);
    var inner := CalcHash(pair, low, 0, txids);
    assert Decode(pair, n, bits, hashes).1 == [(inner, 0)];
    OneFalse(txids, inner);
  }

  lemma InnerApart(pair: PairHash, txids: seq<Hash>, height: nat)
    requires Apart(pair, txids) && height > 0 && Width(|txids|, height) > 0
    ensures CalcHash(pair, height, 0, txids) !in txids
  {
    hide Width;
    HashSplit(pair, height, 0, txids);
  }

  lemma OneFalse(txids: seq<Hash>, h: Hash)
    requires h !in txids
    ensures !AllTrue(txids, [(h, 0)])
  {
    assert !True(txids, [(h, 0)][0]);
  }

  // ---------- exactly ----------

  /** Every tree with this count and the true root reports only transactions of the block. */
  ghost predicate Proves(pair: PairHash, n: nat, txids: seq<Hash>)
    requires |txids| > 0
  {
    forall bits, hashes :: Decode(pair, n, bits, hashes).0 == Root(pair, txids) ==>
      AllTrue(txids, Decode(pair, n, bits, hashes).1)
  }

  /** A claimed count proves what is reported exactly if its tree is not lower than the block's. */
  lemma ClaimProves(pair: PairHash, n: nat, txids: seq<Hash>)
    requires Injective(pair) && Distinct(txids) && Apart(pair, txids) && |txids| > 0 && Root(pair, txids) != 0
    requires 0 < n <= MAX_BLOCK_BASE_SIZE / 60
    ensures Proves(pair, n, txids) <==> Height(n) >= Height(|txids|)
  {
    hide Injective, Distinct, Apart, AllTrue, Decode, Root, Height;
    if Height(n) >= Height(|txids|) {
      forall bits, hashes | Decode(pair, n, bits, hashes).0 == Root(pair, txids)
        ensures AllTrue(txids, Decode(pair, n, bits, hashes).1)
      {
        HighEnough(pair, n, txids, bits, hashes);
      }
    } else {
      TooLow(pair, n, txids);
    }
  }
}
