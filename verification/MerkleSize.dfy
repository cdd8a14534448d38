/** How many bytes a partial Merkle tree takes on the wire, against what its format promises. */
module MerkleSize {
  import opened Numbers
  import opened PartialMerkle

  function CompactSize(n: nat): nat {
    if n < 253 then 1 else if n <= 0xFFFF then 3 else if n <= 0xFFFF_FFFF then 5 else 9
  }

  /** The count of transactions, the hashes, and the flag bits in whole bytes. */
  function WireSize(b: Parts): nat {
    var flags := (|b.bits| + 7) / 8;
    4 + CompactSize(|b.hashes|) + 32 * |b.hashes| + CompactSize(flags) + flags
  }

  /** 10 + 32.25 bytes for each hash, rounded up. */
  function Promised(hashes: nat): nat { 10 + (129 * hashes + 3) / 4 }

  /** How many hashes are stored for one node. */
  function Stored(matches: seq<bool>, height: nat, pos: nat): nat
    requires pos < Width(|matches|, height)
    decreases height
  {
    if height == 0 || !Under(matches, height, pos) then 1 else
    ChildFits(|matches|, height, pos);
    if pos * 2 + 1 < Width(|matches|, height - 1)
    then Stored(matches, height - 1, pos * 2) + Stored(matches, height - 1, pos * 2 + 1)
    else Stored(matches, height - 1, pos * 2)
  }

  lemma {:induction false} StoredIs(pair: PairHash, height: nat, pos: nat, txids: seq<Hash>, matches: seq<bool>)
    requires |txids| == |matches| && pos < Width(|txids|, height)
    ensures |Build(pair, height, pos, txids, matches).hashes| == Stored(matches, height, pos)
    decreases height
  {
    hide Width, Under, CalcHash;
    if height > 0 && Under(matches, height, pos) {
      ChildFits(|txids|, height, pos);
      BuildInner(pair, height, pos, txids, matches);
      StoredIs(pair, height - 1, pos * 2, txids, matches);
      if pos * 2 + 1 < Width(|txids|, height - 1) { StoredIs(pair, height - 1, pos * 2 + 1, txids, matches); }
    }
  }

  /** Room for n hashes and for the bits of `lonely` opened nodes with an only child. */
  predicate Roomy(n: nat, lonely: nat)
    requires n > 0
  {
    var flags := (2 * n + 6 + lonely) / 8;
    CompactSize(n) + CompactSize(flags) + flags <= 6 + (n + 3) / 4
  }

  /** The size is as promised exactly if there is room, which is known from the matches alone. */
  lemma SizePromise(pair: PairHash, txids: seq<Hash>, matches: seq<bool>)
    requires |txids| == |matches| > 0
    ensures var top := Height(|matches|);
            && 0 < Width(|matches|, top) && Stored(matches, top, 0) > 0
            && var b := Encode(pair, txids, matches);
            && |b.hashes| == Stored(matches, top, 0)
            && (WireSize(b) <= Promised(|b.hashes|) <==> Roomy(Stored(matches, top, 0), Lonely(matches, top, 0)))
  {
    hide Width, Build, Height, Lonely, Stored, CompactSize;
    var n := |matches|;
    RootIs(n);
    BuildSizes(pair, Height(n), 0, txids, matches);
    StoredIs(pair, Height(n), 0, txids, matches);
    var b := Encode(pair, txids, matches);
    PromisedIs(|b.hashes|);
  }

  lemma PromisedIs(n: nat)
    ensures Promised(n) == 10 + 32 * n + (n + 3) / 4
  {
  }

  /** Small trees always have room; others exactly if the bits fit in a quarter byte for each
      hash, with two bytes more while the count of flag bytes takes one byte only. */
  lemma WhenRoomy(n: nat, lonely: nat)
    requires 0 < n <= 0xFFFF && lonely <= 33
    ensures n < 253 ==> Roomy(n, lonely)
    ensures n >= 253 ==>
              (Roomy(n, lonely) <==>
               2 * n - 1 + lonely <= 8 * ((n + 3) / 4 + (if 2 * n + 6 + lonely < 8 * 253 then 2 else 0)))
  {
  }

  /** There is at most one such node on a level. */
  lemma {:induction false} LonelyAtMost(matches: seq<bool>, height: nat, pos: nat)
    requires pos < Width(|matches|, height)
    ensures Lonely(matches, height, pos) <= height
    decreases height
  {
    hide Width, Under;
    if height > 0 && Under(matches, height, pos) {
      ChildFits(|matches|, height, pos);
      if pos * 2 + 1 < Width(|matches|, height - 1) {
        LonelyBefore(matches, height - 1, pos * 2);
        LonelyAtMost(matches, height - 1, pos * 2 + 1);
      } else {
        LonelyAtMost(matches, height - 1, pos * 2);
      }
    }
  }

  /** A tree of at most 33 levels with fewer than 253 hashes has the promised size. */
  lemma SmallTree(pair: PairHash, txids: seq<Hash>, matches: seq<bool>)
    requires |txids| == |matches| > 0 && Height(|matches|) <= 33
    ensures var b := Encode(pair, txids, matches); |b.hashes| < 253 ==> WireSize(b) <= Promised(|b.hashes|)
  {
    hide Width, Build, Height, Lonely, Stored, Roomy, WireSize, Promised;
    var top := Height(|matches|);
    SizePromise(pair, txids, matches);
    LonelyAtMost(matches, top, 0);
    if Stored(matches, top, 0) < 253 { WhenRoomy(Stored(matches, top, 0), Lonely(matches, top, 0)); }
  }

  // ---------- everything matched ----------

  predicate All(matches: seq<bool>) { forall k :: 0 <= k < |matches| ==> matches[k] }

  /** Levels below `height` that have a last node without a sibling. */
  function OddWidths(n: nat, height: nat): nat {
    if height == 0 then 0 else OddWidths(n, height - 1) + Width(n, height - 1) % 2
  }

  lemma AllUnder(matches: seq<bool>, height: nat, pos: nat)
    requires All(matches) && pos < Width(|matches|, height)
    ensures Under(matches, height, pos)
  {
    hide Width, First, End;
    NonEmpty(|matches|, height, pos);
    assert matches[First(height, pos)];
  }

  lemma {:induction false} AllStored(matches: seq<bool>, height: nat, pos: nat)
    requires All(matches) && pos < Width(|matches|, height)
    ensures First(height, pos) < End(|matches|, height, pos)
    ensures Stored(matches, height, pos) == End(|matches|, height, pos) - First(height, pos)
    decreases height
  {
    hide Width, First, End, Under, All;
    NonEmpty(|matches|, height, pos);
    AllUnder(matches, height, pos);
    if height == 0 {
      OneLeaf(|matches|, pos);
    } else {
      ChildFits(|matches|, height, pos);
      Split(|matches|, height, pos);
      AllStored(matches, height - 1, pos * 2);
      if pos * 2 + 1 < Width(|matches|, height - 1) { AllStored(matches, height - 1, pos * 2 + 1); }
    }
  }

  lemma OneLeaf(n: nat, pos: nat)
    requires pos < Width(n, 0)
    ensures First(0, pos) == pos && End(n, 0, pos) == pos + 1
  {
    WidthZero(n);
  }

  lemma {:induction false} AllLonely(matches: seq<bool>, height: nat)
    requires All(matches) && |matches| > 0
    ensures Width(|matches|, height) > 0
    ensures Lonely(matches, height, Width(|matches|, height) - 1) == OddWidths(|matches|, height)
    decreases height
  {
    hide Width, Under, All;
    var n := |matches|;
    WidthPositive(n, height);
    var last := Width(n, height) - 1;
    if height > 0 {
      LastChild(n, height);
      AllUnder(matches, height, last);
      AllLonely(matches, height - 1);
      if Width(n, height - 1) % 2 == 0 { LonelyBefore(matches, height - 1, last * 2); }
    }
  }

  /** With every transaction matched the promise depends on the number of transactions only. */
  lemma AllMatchedSize(pair: PairHash, txids: seq<Hash>, matches: seq<bool>)
    requires |txids| == |matches| > 0 && All(matches)
    ensures var b := Encode(pair, txids, matches);
            && |b.hashes| == |txids|
            && (WireSize(b) <= Promised(|txids|) <==> Roomy(|txids|, OddWidths(|txids|, Height(|txids|))))
  {
    hide Width, Build, Height, Lonely, Stored, Roomy, All, WireSize, Promised;
    var n := |matches|;
    RootIs(n);
    SizePromise(pair, txids, matches);
    AllStored(matches, Height(n), 0);
    WholeTree(n, Height(n));
    AllLonely(matches, Height(n));
  }

  lemma WholeTree(n: nat, height: nat)
    requires Width(n, height) == 1
    ensures First(height, 0) == 0 && End(n, height, 0) == n
  {
    hide Width;
    WidthIs(n, height);
  }

  // ---------- a block whose tree is larger than promised ----------

  lemma WidthsOf1012()
    ensures Width(1012, 0) == 1012 && Width(1012, 1) == 506 && Width(1012, 2) == 253 && Width(1012, 3) == 127
    ensures OddWidths(1012, 4) == 2 && Height(1012) >= 4
  {
    hide Width, Height;
    WidthZero(1012);
    WidthStep(1012, 0);
    WidthStep(1012, 1);
    WidthStep(1012, 2);
    RootIs(1012);
    assert OddWidths(1012, 1) == 0 && OddWidths(1012, 2) == 0 && OddWidths(1012, 3) == 1;
    var top := Height(1012);
    assert top != 0 && top != 1 && top != 2 && top != 3;
  }

  lemma {:induction false} OddWidthsGrow(n: nat, low: nat, height: nat)
    requires low <= height
    ensures OddWidths(n, low) <= OddWidths(n, height)
    decreases height
  {
    if low < height { OddWidthsGrow(n, low, height - 1); }
  }

  /** 1012 transactions, all matched. */
  lemma SizePromiseFails(pair: PairHash, txids: seq<Hash>, matches: seq<bool>)
    requires |txids| == |matches| == 1012 && All(matches)
    ensures WireSize(Encode(pair, txids, matches)) > Promised(1012)
  {
    hide Width, Height, All, WireSize, Promised, OddWidths;
    AllMatchedSize(pair, txids, matches);
    WidthsOf1012();
    OddWidthsGrow(1012, 4, Height(1012));
    NoRoom1012(OddWidths(1012, Height(1012)));
  }

  lemma NoRoom1012(lonely: nat)
    requires lonely >= 2
    ensures !Roomy(1012, lonely)
  {
    assert (2 * 1012 + 6 + lonely) / 8 >= 254;
  }
}
