/** The block tree with skip links, and the active chain as a vector of its blocks. */
module Chain {
  import opened Numbers
  import opened SkipList

  // ---------- the tree ----------

  /** Links to the parent never change; the skip link is filled in later. */
  class BlockIndex {
    const pprev: BlockIndex?
    const nHeight: nat
    var pskip: BlockIndex?

    constructor (pprev: BlockIndex?)
      requires pprev != null ==> Rooted(pprev)
      ensures this.pprev == pprev && Rooted(this) && pskip == null
    {
      this.pprev := pprev;
      nHeight := if pprev == null then 0 else pprev.nHeight + 1;
      pskip := null;
    }

    /** The block at a height of this block's past, along skip links where that pays.  With all
        links in place the number of steps depends on the heights only. */
    method GetAncestor(height: int, ghost tree: set<BlockIndex>) returns (r: BlockIndex?, ghost steps: nat)
      requires Tree(tree) && this in tree
      ensures r == null <==> height < 0 || height > nHeight
      ensures r != null ==> r == Walk(this, height) && r in tree
      ensures r != null && Linked(tree) ==> steps == Steps(nHeight, height)
    {
      hide SkipHeight, Steps, Tree, Linked;
      steps := 0;
      if height > nHeight || height < 0 { return null, 0; }
      var walk, heightWalk := this, nHeight;
      InTree(tree, this);
      while heightWalk > height
        invariant walk in tree && Rooted(walk) && heightWalk == walk.nHeight >= height
        invariant Walk(walk, height) == Walk(this, height)
        invariant Linked(tree) ==> steps + Steps(heightWalk, height) == Steps(nHeight, height)
      {
        var heightSkip := SkipHeight(heightWalk);
        var heightSkipPrev := SkipHeight(heightWalk - 1);
        SkipsDown(heightWalk);
        StepsMore(heightWalk, height);
        InTree(tree, walk);
        SkipLink(tree, walk);
        if walk.pskip != null
           && (heightSkip == height
               || (heightSkip > height && !(heightSkipPrev < heightSkip - 2 && heightSkipPrev >= height))) {
          WalkWalk(walk, heightSkip, height);
          walk, heightWalk := walk.pskip, heightSkip;
        } else {
          walk, heightWalk := walk.pprev, heightWalk - 1;
        }
        steps := steps + 1;
      }
      NoSteps(height);
      r := walk;
    }

    method BuildSkip(ghost tree: set<BlockIndex>)
      requires Tree(tree) && this in tree
      modifies this`pskip
      ensures Tree(tree)
      ensures pprev != null ==> pskip != null && pskip == SkipTarget(this)
    {
      if pprev != null {
        SkipsDown(nHeight);
        var skip, _ := pprev.GetAncestor(SkipHeight(nHeight), tree);
        pskip := skip;
      }
    }
  }

  lemma NoSteps(t: nat)
    ensures Steps(t, t) == 0
  {
  }

  ghost predicate Rooted(b: BlockIndex)
    decreases b.nHeight
  {
    if b.pprev == null then b.nHeight == 0 else b.nHeight == b.pprev.nHeight + 1 && Rooted(b.pprev)
  }

  /** The reference: parents one by one. */
  ghost function Walk(b: BlockIndex, height: nat): (r: BlockIndex)
    requires Rooted(b) && height <= b.nHeight
    ensures r.nHeight == height && Rooted(r)
    decreases b.nHeight
  {
    if b.nHeight == height then b else Walk(b.pprev, height)
  }

  lemma WalkSelf(b: BlockIndex)
    requires Rooted(b)
    ensures Walk(b, b.nHeight) == b
  {
  }

  lemma {:induction false} WalkWalk(b: BlockIndex, m: nat, height: nat)
    requires Rooted(b) && height <= m <= b.nHeight
    ensures Walk(Walk(b, m), height) == Walk(b, height)
    decreases b.nHeight
  {
    if b.nHeight > m { WalkWalk(b.pprev, m, height); }
  }

  /** Where a skip link should lead. */
  ghost function SkipTarget(b: BlockIndex): BlockIndex
    requires Rooted(b)
  {
    if b.nHeight == 0 then b else SkipsDown(b.nHeight); Walk(b, SkipHeight(b.nHeight))
  }

  /** A tree that is closed under parents, and whose skip links, where set, are right. */
  ghost predicate Tree(tree: set<BlockIndex>)
    reads tree
  {
    forall b :: b in tree ==>
      && Rooted(b) && (b.pprev != null ==> b.pprev in tree)
      && (b.pskip != null ==> b.pskip in tree && b.pskip == SkipTarget(b))
  }

  lemma InTree(tree: set<BlockIndex>, b: BlockIndex)
    requires Tree(tree) && b in tree
    ensures Rooted(b) && (b.pprev != null ==> b.pprev in tree)
  {
  }

  lemma SkipLink(tree: set<BlockIndex>, b: BlockIndex)
    requires Tree(tree) && b in tree
    ensures Rooted(b) && (b.pskip != null ==> b.pskip in tree && b.pskip == SkipTarget(b))
    ensures Linked(tree) && b.pprev != null ==> b.pskip != null
  {
  }

  /** Every block but the first has its skip link. */
  ghost predicate Linked(tree: set<BlockIndex>)
    reads tree
  {
    forall b :: b in tree && b.pprev != null ==> b.pskip != null
  }

  /** A new block may be added. */
  lemma TreeGrows(tree: set<BlockIndex>, b: BlockIndex)
    requires Tree(tree) && Rooted(b) && (b.pprev != null ==> b.pprev in tree) && b.pskip == null
    ensures Tree(tree + {b})
  {
  }

  /** Every tree grown from genesis: block k + 1 is put on block parents[k].  All skip links are
      in place and right. */
  method GrowTree(parents: seq<nat>) returns (blocks: seq<BlockIndex>, ghost tree: set<BlockIndex>)
    requires forall k :: 0 <= k < |parents| ==> parents[k] <= k
    ensures |blocks| == |parents| + 1 && (forall b :: b in tree <==> b in blocks) && Tree(tree) && Linked(tree)
    ensures blocks[0].pprev == null && forall k :: 0 <= k < |parents| ==> blocks[k + 1].pprev == blocks[parents[k]]
  {
    hide SkipHeight;
    var genesis := new BlockIndex(null);
    blocks, tree := [genesis], {genesis};
    for k := 0 to |parents|
      invariant |blocks| == k + 1 && (forall b :: b in tree <==> b in blocks) && Tree(tree) && Linked(tree)
                && fresh(tree)
      invariant blocks[0].pprev == null && forall j :: 0 <= j < k ==> blocks[j + 1].pprev == blocks[parents[j]]
    {
      var parent := blocks[parents[k]];
      InTree(tree, parent);
      var b := new BlockIndex(parent);
      TreeGrows(tree, b);
      ghost var more := tree + {b};
      b.BuildSkip(more);
      blocks, tree := blocks + [b], more;
    }
  }

  /** In every such tree, a block below height 2^18 finds each of its ancestors in at most 110 steps. */
  method FindAncestor(parents: seq<nat>, k: nat, height: nat) returns (b: BlockIndex, r: BlockIndex?, ghost steps: nat)
    requires (forall j :: 0 <= j < |parents| ==> parents[j] <= j) && k <= |parents|
    ensures Rooted(b) && (r == null <==> height > b.nHeight) && (r != null ==> r == Walk(b, height))
    ensures r != null && b.nHeight < 0x4_0000 ==> steps <= 110
    ensures forall m :: r != null && 3 <= m && b.nHeight < Pow2(m) ==> 4 * steps <= m * m + 10 * m
  {
    hide SkipHeight, Steps;
    var blocks, tree := GrowTree(parents);
    b := blocks[k];
    InTree(tree, b);
    r, steps := b.GetAncestor(height, tree);
    if r != null {
      if b.nHeight < 0x4_0000 { Steps110(b.nHeight, height); }
      forall m | 3 <= m && b.nHeight < Pow2(m) ensures 4 * steps <= m * m + 10 * m { StepsBound(b.nHeight, height, m); }
    }
  }

  // ---------- the active chain ----------

  /** The vector holds the tip's ancestors by height. */
  ghost predicate IsPast(v: seq<BlockIndex?>, tip: BlockIndex) {
    Rooted(tip) && |v| == tip.nHeight + 1 && forall i :: 0 <= i < |v| ==> v[i] == Walk(tip, i)
  }

  ghost predicate ChainOk(v: seq<BlockIndex?>, tree: set<BlockIndex>)
    reads tree
  {
    Tree(tree) && (v == [] || (v[|v| - 1] != null && v[|v| - 1] in tree && IsPast(v, v[|v| - 1])))
  }

  lemma {:induction false} WalkInTree(tree: set<BlockIndex>, b: BlockIndex, height: nat)
    requires Tree(tree) && b in tree && height <= b.nHeight
    ensures Walk(b, height) in tree
    decreases b.nHeight
  {
    if height < b.nHeight { WalkInTree(tree, b.pprev, height); }
  }

  /** If a valid vector has a block at its height, it has the block's whole past. */
  lemma SharedPast(v: seq<BlockIndex?>, tip: BlockIndex, b: BlockIndex, i: nat)
    requires IsPast(v, tip) && Rooted(b) && b.nHeight < |v| && v[b.nHeight] == b && i <= b.nHeight
    ensures v[i] == Walk(b, i)
  {
    WalkWalk(tip, b.nHeight, i);
  }

  function Down(height: nat, step: nat): nat { if height < step then 0 else height - step }

  /** Single steps for the first ten blocks, then twice as far every time. */
  function LocatorStep(i: nat): (step: nat)
    ensures step > 0
  {
    if i <= 10 then 1 else 2 * LocatorStep(i - 1)
  }

  lemma LocatorStart()
    ensures LocatorStep(0) == 1
  {
  }

  lemma LocatorMore(i: nat)
    ensures LocatorStep(i + 1) == if i + 1 > 10 then 2 * LocatorStep(i) else LocatorStep(i)
  {
  }

  class ActiveChain {
    var vChain: seq<BlockIndex?>

    constructor ()
      ensures vChain == []
    {
      vChain := [];
    }

    function At(height: int): BlockIndex?
      reads this
    {
      if height < 0 || height >= |vChain| then null else vChain[height]
    }

    predicate Contains(b: BlockIndex)
      reads this
    {
      At(b.nHeight) == b
    }

    /** Only the part that changes is rewritten. */
    method SetTip(tip: BlockIndex?, ghost tree: set<BlockIndex>)
      requires ChainOk(vChain, tree) && (tip != null ==> tip in tree)
      modifies this
      ensures ChainOk(vChain, tree)
      ensures if tip == null then vChain == [] else IsPast(vChain, tip) && vChain[|vChain| - 1] == tip
    {
      if tip == null {
        vChain := [];
        return;
      }
      hide Tree, Rewritten, IsPast;
      InTree(tree, tip);
      ghost var before := vChain;
      vChain := if tip.nHeight + 1 <= |vChain| then vChain[..tip.nHeight + 1]
                else vChain + seq(tip.nHeight + 1 - |vChain|, _ => null);
      ghost var resized := vChain;
      var p: BlockIndex? := tip;
      RewriteStart(vChain, tip);
      while p != null && vChain[p.nHeight] != p
        invariant |vChain| == tip.nHeight + 1 && Rewritten(vChain, resized, tip, p)
        invariant p != null ==> p in tree && p.nHeight <= tip.nHeight
        decreases if p == null then 0 else p.nHeight + 1
      {
        InTree(tree, p);
        RewriteStep(vChain, resized, tip, p);
        vChain := vChain[p.nHeight := p];
        p := p.pprev;
      }
      if p != null { InTree(tree, p); }
      RewriteEnd(before, vChain, resized, tip, p);
    }

    /** The highest block of this chain in the past of the given one. */
    method FindFork(b: BlockIndex?, ghost tree: set<BlockIndex>) returns (r: BlockIndex?)
      requires ChainOk(vChain, tree) && (b != null ==> b in tree)
      ensures r != null ==> b != null && r in tree && r.nHeight <= b.nHeight && r == Walk(b, r.nHeight) && Contains(r)
      ensures b != null ==> forall h :: 0 <= h <= b.nHeight ==> (Contains(Walk(b, h)) <==> r != null && h <= r.nHeight)
    {
      hide Tree;
      if b == null { return null; }
      InTree(tree, b);
      r := b;
      if b.nHeight > |vChain| - 1 {
        var ancestor, _ := b.GetAncestor(|vChain| - 1, tree);
        r := ancestor;
        if r == null { return; }
      }
      while r != null && !Contains(r)
        invariant r != null ==> r in tree && r.nHeight <= b.nHeight && r.nHeight < |vChain| && r == Walk(b, r.nHeight)
        invariant forall h :: 0 <= h <= b.nHeight && (r == null || h > r.nHeight) ==> !Contains(Walk(b, h))
        decreases if r == null then 0 else r.nHeight + 1
      {
        InTree(tree, r);
        WalkWalk(b, r.nHeight, if r.nHeight == 0 then 0 else r.nHeight - 1);
        r := r.pprev;
      }
      if r != null {
        InTree(tree, r);
        forall h | 0 <= h <= r.nHeight ensures Contains(Walk(b, h)) {
          SharedPast(vChain, vChain[|vChain| - 1], r, h);
          WalkWalk(b, r.nHeight, h);
        }
      }
    }

    /** By the vector if the block is in it, else by the skip links. */
    method Back(p: BlockIndex, height: nat, ghost tree: set<BlockIndex>) returns (r: BlockIndex)
      requires ChainOk(vChain, tree) && p in tree && height <= p.nHeight
      ensures Rooted(p) && r == Walk(p, height) && r in tree
    {
      hide Tree;
      InTree(tree, p);
      WalkInTree(tree, p, height);
      if Contains(p) {
        SharedPast(vChain, vChain[|vChain| - 1], p, height);
        r := At(height);
      } else {
        var ancestor, _ := p.GetAncestor(height, tree);
        r := ancestor;
      }
    }

    /** Blocks further and further back, down to genesis; from the tip if no block is given. */
    method GetLocator(b: BlockIndex?, ghost tree: set<BlockIndex>) returns (have: seq<BlockIndex>)
      requires ChainOk(vChain, tree) && (b != null ==> b in tree)
      ensures b == null && vChain == [] <==> have == []
      ensures have != [] ==> have[0] == (if b == null then vChain[|vChain| - 1] else b) && have[|have| - 1].nHeight == 0
      ensures forall i :: 0 <= i < |have| ==>
                have[i] in tree && have[i].nHeight <= have[0].nHeight && have[i] == Walk(have[0], have[i].nHeight)
      ensures forall i :: 0 <= i < |have| - 1 ==>
                have[i + 1].nHeight == Down(have[i].nHeight, LocatorStep(i))
    {
      hide Tree, LocatorStep, Walk, Rooted;
      var step := 1;
      have := [];
      var p := if b == null then At(|vChain| - 1) else b;
      if p == null { return; }
      ghost var top := p;
      InTree(tree, top);
      WalkSelf(top);
      LocatorStart();
      while true
        invariant p in tree && Rooted(p) && p.nHeight <= top.nHeight && p == Walk(top, p.nHeight)
                  && step == LocatorStep(|have|)
        invariant have != [] ==>
                    have[0] == top && p.nHeight == Down(have[|have| - 1].nHeight, LocatorStep(|have| - 1))
                    && have[|have| - 1].nHeight > 0
        invariant have == [] ==> p == top
        invariant forall i :: 0 <= i < |have| ==>
                    have[i] in tree && have[i].nHeight <= top.nHeight && have[i] == Walk(top, have[i].nHeight)
        invariant forall i :: 0 <= i < |have| - 1 ==> have[i + 1].nHeight == Down(have[i].nHeight, LocatorStep(i))
        decreases p.nHeight
      {
        have := have + [p];
        if p.nHeight == 0 { break; }
        LocatorMore(|have| - 1);
        var height := Down(p.nHeight, step);
        WalkWalk(top, p.nHeight, height);
        p := Back(p, height, tree);
        if |have| > 10 { step := step * 2; }
      }
    }

    method Next(b: BlockIndex, ghost tree: set<BlockIndex>) returns (r: BlockIndex?)
      requires ChainOk(vChain, tree)
      ensures r != null <==> Contains(b) && b.nHeight + 1 < |vChain|
      ensures r != null ==> r.pprev == b && Contains(r)
    {
      if !Contains(b) { return null; }
      r := At(b.nHeight + 1);
      if r != null { WalkWalk(vChain[|vChain| - 1], r.nHeight, b.nHeight); }
    }
  }

  /** The vector holds the tip's past above p and is as it was below. */
  ghost predicate Rewritten(chain: seq<BlockIndex?>, resized: seq<BlockIndex?>, tip: BlockIndex, p: BlockIndex?) {
    && Rooted(tip) && |chain| == |resized| == tip.nHeight + 1
    && (p != null ==> p.nHeight <= tip.nHeight && p == Walk(tip, p.nHeight))
    && forall i :: 0 <= i < |chain| ==> chain[i] == if p == null || i > p.nHeight then Walk(tip, i) else resized[i]
  }

  lemma RewriteStart(chain: seq<BlockIndex?>, tip: BlockIndex)
    requires Rooted(tip) && |chain| == tip.nHeight + 1
    ensures Rewritten(chain, chain, tip, tip)
  {
  }

  lemma RewriteStep(chain: seq<BlockIndex?>, resized: seq<BlockIndex?>, tip: BlockIndex, p: BlockIndex)
    requires Rewritten(chain, resized, tip, p) && Rooted(p)
    ensures Rewritten(chain[p.nHeight := p], resized, tip, p.pprev)
  {
    if p.nHeight > 0 { WalkWalk(tip, p.nHeight, p.nHeight - 1); }
  }

  lemma RewriteEnd(before: seq<BlockIndex?>, chain: seq<BlockIndex?>, resized: seq<BlockIndex?>, tip: BlockIndex,
                   p: BlockIndex?)
    requires before == [] || (before[|before| - 1] != null && IsPast(before, before[|before| - 1]))
    requires Rewritten(chain, resized, tip, p) && (p != null ==> Rooted(p) && chain[p.nHeight] == p)
    requires forall i :: 0 <= i < |resized| ==> resized[i] == if i < |before| then before[i] else null
    ensures IsPast(chain, tip) && chain[|chain| - 1] == tip
  {
    if p != null { Rejoined(before, resized, tip, p); }
    assert chain[|chain| - 1] == Walk(tip, tip.nHeight);
  }

  /** The early stop: what was not rewritten is right already. */
  lemma Rejoined(before: seq<BlockIndex?>, resized: seq<BlockIndex?>, tip: BlockIndex, p: BlockIndex)
    requires before == [] || (before[|before| - 1] != null && IsPast(before, before[|before| - 1]))
    requires Rooted(tip) && Rooted(p) && p.nHeight <= tip.nHeight && p == Walk(tip, p.nHeight)
             && |resized| == tip.nHeight + 1
    requires forall i :: 0 <= i < |resized| ==> resized[i] == if i < |before| then before[i] else null
    requires resized[p.nHeight] == p
    ensures forall i :: 0 <= i <= p.nHeight ==> resized[i] == Walk(tip, i)
  {
    forall i | 0 <= i <= p.nHeight ensures resized[i] == Walk(tip, i) {
      SharedPast(before, before[|before| - 1], p, i);
      WalkWalk(tip, p.nHeight, i);
    }
  }
}
