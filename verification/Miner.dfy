/** Filling a block template from the memory pool: a stack of candidates in time order, and
    a set of transactions that wait for a parent. */
module Miner {
  import opened Options

  /** A memory pool entry; parents and children are the entries it is linked to. */
  datatype Entry = Entry(weight: nat, size: nat, sigOpCost: nat, fee: int, hasWitness: bool, time: int, isFinal: bool,
                         parents: seq<nat>, children: seq<nat>)

  /** Entries by number. */
  type Pool = nat -> Entry

  const MAX_BLOCK_WEIGHT := 4000000
  const MAX_BLOCK_SERIALIZED_SIZE := 4000000
  const MAX_BLOCK_SIGOPS_COST := 80000
  const RESERVED_WEIGHT := 4000
  const RESERVED_SIZE := 1000
  const RESERVED_SIGOPS := 400

  /** The links of the pool agree with each other and stay inside the pool. */
  ghost predicate Linked(tx: Pool, ids: set<nat>) {
    && (forall a, b :: a in ids && b in ids ==> (b in tx(a).children <==> a in tx(b).parents))
    && (forall a, b :: a in ids && b in tx(a).parents ==> b in ids)
  }

  /** What block the transactions may go in. */
  datatype Rules = Rules(maxWeight: nat, maxSize: nat, includeWitness: bool, now: int, isProofOfStake: bool,
      stakeTime: int)

  predicate Sane(r: Rules) { r.maxWeight >= RESERVED_WEIGHT && r.maxSize >= RESERVED_SIZE }

  /** A transaction that may not be in the block, whatever else is. */
  predicate Excluded(e: Entry, r: Rules) {
    (!r.includeWitness && e.hasWitness) || e.time > r.now || (r.isProofOfStake && e.time > r.stakeTime) || !e.isFinal
  }

  datatype Totals = Totals(weight: nat, size: nat, sigOps: nat)

  predicate Unfit(e: Entry, r: Rules, t: Totals) { Exceeds(e, r, t, true) }

  /** Some limit would be reached; sizes are only looked at when they are accounted for. */
  predicate Exceeds(e: Entry, r: Rules, t: Totals, sized: bool) {
    || t.weight + e.weight >= r.maxWeight || (sized && t.size + e.size >= r.maxSize)
    || t.sigOps + e.sigOpCost >= MAX_BLOCK_SIGOPS_COST
  }

  predicate Outside(parents: seq<nat>, inBlock: set<nat>) {
    exists i :: 0 <= i < |parents| && parents[i] !in inBlock
  }

  // ---------- sums over the block ----------

  function Sums(tx: Pool, vtx: seq<nat>): Totals {
    if vtx == [] then Totals(RESERVED_WEIGHT, RESERVED_SIZE, RESERVED_SIGOPS) else
    var t, e := Sums(tx, vtx[..|vtx| - 1]), tx(vtx[|vtx| - 1]);
    Totals(t.weight + e.weight, t.size + e.size, t.sigOps + e.sigOpCost)
  }

  function Fees(tx: Pool, vtx: seq<nat>): int {
    if vtx == [] then 0 else Fees(tx, vtx[..|vtx| - 1]) + tx(vtx[|vtx| - 1]).fee
  }

  lemma EmptyBlock(tx: Pool)
    ensures Sums(tx, []) == Totals(RESERVED_WEIGHT, RESERVED_SIZE, RESERVED_SIGOPS) && Fees(tx, []) == 0
            && Topological(tx, [])
  {
  }

  lemma SumsMore(tx: Pool, vtx: seq<nat>, x: nat)
    ensures Sums(tx, vtx + [x])
            == Totals(Sums(tx, vtx).weight + tx(x).weight, Sums(tx, vtx).size + tx(x).size,
            Sums(tx, vtx).sigOps + tx(x).sigOpCost)
    ensures Fees(tx, vtx + [x]) == Fees(tx, vtx) + tx(x).fee
  {
    assert (vtx + [x])[..|vtx|] == vtx;
  }

  // ---------- the invariant ----------

  ghost predicate Within(r: Rules, t: Totals, some: bool) {
    && t.weight <= r.maxWeight && t.size <= r.maxSize && t.sigOps < MAX_BLOCK_SIGOPS_COST
    && (some ==> t.weight < r.maxWeight && t.size < r.maxSize)
  }

  /** Parents come first, and nothing twice. */
  ghost predicate Topological(tx: Pool, vtx: seq<nat>) {
    && (forall i, j :: 0 <= i < j < |vtx| ==> vtx[i] != vtx[j])
    && (forall i, p :: 0 <= i < |vtx| && p in tx(vtx[i]).parents ==> p in vtx[..i])
  }

  ghost predicate NoDoubles(stack: seq<nat>) {
    forall i, j :: 0 <= i < j < |stack| ==> stack[i] != stack[j]
  }

  /** Every pool transaction is in exactly one of four places. */
  ghost predicate Parted(ids: set<nat>, stack: seq<nat>, wait: set<nat>, inBlock: set<nat>, skipped: set<nat>) {
    && NoDoubles(stack) && wait !! inBlock && wait !! skipped && inBlock !! skipped
    && (forall x :: x in stack ==> x !in wait && x !in inBlock && x !in skipped)
    && (forall x :: x in ids <==> x in stack || x in wait || x in inBlock || x in skipped)
  }

  ghost predicate Waiting(tx: Pool, wait: set<nat>, inBlock: set<nat>) {
    forall w :: w in wait ==> Outside(tx(w).parents, inBlock)
  }

  /** What was passed over cannot be in the block as it is now. */
  ghost predicate Passed(tx: Pool, r: Rules, skipped: set<nat>, t: Totals) {
    forall x :: x in skipped ==> Excluded(tx(x), r) || Unfit(tx(x), r, t)
  }

  // ---------- the steps ----------

  lemma PopSkips(ids: set<nat>, stack: seq<nat>, wait: set<nat>, inBlock: set<nat>, skipped: set<nat>)
    requires stack != [] && Parted(ids, stack, wait, inBlock, skipped)
    ensures var n, x := |stack| - 1, stack[|stack| - 1];
            && Parted(ids, stack[..n], wait, inBlock, skipped + {x})
            && Parted(ids, stack[..n], wait + {x}, inBlock, skipped)
            && Parted(ids, stack[..n], wait, inBlock + {x}, skipped)
            && x in ids && x !in inBlock && x !in wait && x !in skipped
  {
    var n, x := |stack| - 1, stack[|stack| - 1];
    assert x in stack;
    forall y ensures y in stack <==> y in stack[..n] || y == x {
      if y in stack {
        var i :| 0 <= i < |stack| && stack[i] == y;
        if i < n { assert stack[..n][i] == y; }
      }
    }
    assert x !in stack[..n];
  }

  /** A waiting transaction that is not a child still lacks the parent it lacked. */
  lemma StillWaiting(tx: Pool, ids: set<nat>, wait: set<nat>, inBlock: set<nat>, x: nat)
    requires Linked(tx, ids) && x in ids && wait <= ids && Waiting(tx, wait, inBlock)
    ensures forall w :: w in wait && w !in tx(x).children ==> Outside(tx(w).parents, inBlock + {x})
  {
    forall w | w in wait && w !in tx(x).children ensures Outside(tx(w).parents, inBlock + {x}) {
      var parents := tx(w).parents;
      assert Outside(parents, inBlock);
      var i :| 0 <= i < |parents| && parents[i] !in inBlock;
      assert w in ids && x !in tx(w).parents;
      assert parents[i] != x;
    }
  }

  lemma NotOutside(tx: Pool, vtx: seq<nat>, inBlock: set<nat>, x: nat)
    requires Topological(tx, vtx) && (forall y :: y in inBlock <==> y in vtx) && x !in inBlock
             && !Outside(tx(x).parents, inBlock)
    ensures Topological(tx, vtx + [x])
  {
    var next := vtx + [x];
    forall i, p | 0 <= i < |next| && p in tx(next[i]).parents ensures p in next[..i] {
      if i < |vtx| {
        assert next[..i] == vtx[..i] && next[i] == vtx[i];
      } else {
        assert next[..i] == vtx;
        var k :| 0 <= k < |tx(x).parents| && tx(x).parents[k] == p;
        assert p in inBlock;
      }
    }
  }

  lemma PassedGrows(tx: Pool, r: Rules, skipped: set<nat>, t: Totals, u: Totals)
    requires Passed(tx, r, skipped, t) && t.weight <= u.weight && t.size <= u.size && t.sigOps <= u.sigOps
    ensures Passed(tx, r, skipped, u)
  {
  }

  lemma PassedMore(tx: Pool, r: Rules, skipped: set<nat>, t: Totals, x: nat)
    requires Passed(tx, r, skipped, t) && (Excluded(tx(x), r) || Unfit(tx(x), r, t))
    ensures Passed(tx, r, skipped + {x}, t)
  {
  }

  lemma MoveBack(ids: set<nat>, stack: seq<nat>, wait: set<nat>, inBlock: set<nat>, skipped: set<nat>, c: nat)
    requires Parted(ids, stack, wait, inBlock, skipped) && c in wait
    ensures Parted(ids, stack + [c], wait - {c}, inBlock, skipped)
  {
    var next := stack + [c];
    forall x ensures x in next <==> x in stack || x == c { }
    assert c !in stack;
  }

  lemma Smaller(ids: set<nat>, inBlock: set<nat>, x: nat)
    requires inBlock <= ids && x in ids && x !in inBlock
    ensures |inBlock + {x}| == |inBlock| + 1 && |inBlock| < |ids|
  {
    assert |inBlock + {x}| <= |ids| by { SubsetSize(inBlock + {x}, ids); }
  }

  lemma {:induction false} SubsetSize(a: set<nat>, b: set<nat>)
    requires a <= b
    ensures |a| <= |b|
    decreases |a|
  {
    if x :| x in a {
      SubsetSize(a - {x}, b - {x});
    } else {
      assert a == {};
    }
  }

  lemma WaitingMore(tx: Pool, wait: set<nat>, inBlock: set<nat>, x: nat)
    requires Waiting(tx, wait, inBlock) && Outside(tx(x).parents, inBlock)
    ensures Waiting(tx, wait + {x}, inBlock)
  {
    hide Outside;
  }

  lemma StartParted(tx: Pool, r: Rules, t: Totals, ids: set<nat>, byTime: seq<nat>, stack: seq<nat>)
    requires NoDoubles(byTime) && (forall x :: x in ids <==> x in byTime)
    requires |stack| == |byTime| && forall i :: 0 <= i < |stack| ==> stack[i] == byTime[|byTime| - 1 - i]
    ensures Parted(ids, stack, {}, {}, {}) && Waiting(tx, {}, {}) && Passed(tx, r, {}, t)
  {
    forall x ensures x in byTime <==> x in stack {
      if x in byTime {
        var i :| 0 <= i < |byTime| && byTime[i] == x;
        assert stack[|byTime| - 1 - i] == x;
      }
    }
  }

  lemma InBlockInPool(ids: set<nat>, stack: seq<nat>, wait: set<nat>, inBlock: set<nat>, skipped: set<nat>)
    requires Parted(ids, stack, wait, inBlock, skipped)
    ensures inBlock <= ids && wait <= ids
  {
  }

  function Min(a: nat, b: nat): nat { if a < b then a else b }

  function Max(a: nat, b: nat): nat { if a < b then b else a }

  class BlockAssembler {
    const tx: Pool
    var rules: Rules
    var inBlock: set<nat>
    var vtx: seq<nat>
    var nBlockWeight: nat
    var nBlockSize: nat
    var nBlockSigOpsCost: nat
    var nBlockTx: nat
    var nFees: int
    var lastFewTxs: nat
    var blockFinished: bool
    var fNeedSizeAccounting: bool

    /** The limits from the command line, as 32-bit numbers, forced into a sane range. */
    constructor (tx: Pool, maxWeight: Option<nat>, maxSize: Option<nat>, r: Rules)
      ensures Sane(rules) && rules.maxWeight <= MAX_BLOCK_WEIGHT - 4000
              && rules.maxSize <= MAX_BLOCK_SERIALIZED_SIZE - 1000
      ensures this.tx == tx && rules == r.(maxWeight := rules.maxWeight, maxSize := rules.maxSize)
      ensures fNeedSizeAccounting == (rules.maxSize < MAX_BLOCK_SERIALIZED_SIZE - 1000)
    {
      var weight: nat, size: nat := 3000000, 750000;
      if maxWeight.Some? { weight, size := maxWeight.value % 0x1_0000_0000, MAX_BLOCK_SERIALIZED_SIZE; }
      if maxSize.Some? {
        size := maxSize.value % 0x1_0000_0000;
        if maxWeight.None? { weight := (size * 4) % 0x1_0000_0000; }
      }
      weight := Max(4000, Min(MAX_BLOCK_WEIGHT - 4000, weight));
      size := Max(1000, Min(MAX_BLOCK_SERIALIZED_SIZE - 1000, size));
      this.tx, rules := tx, r.(maxWeight := weight, maxSize := size);
      fNeedSizeAccounting := size < MAX_BLOCK_SERIALIZED_SIZE - 1000;
      inBlock, vtx, nBlockWeight, nBlockSize, nBlockSigOpsCost, nBlockTx, nFees := {}, [], 0, 0, 0, 0, 0;
      lastFewTxs, blockFinished := 0, false;
    }

    ghost function Counted(): Totals
      reads this
    {
      Totals(nBlockWeight, nBlockSize, nBlockSigOpsCost)
    }

    /** The counters agree with the block, which is in order and within the limits. */
    ghost predicate Valid()
      reads this
    {
      && Sane(rules) && (forall y :: y in inBlock <==> y in vtx) && Topological(tx, vtx)
      && Counted() == Sums(tx, vtx) && nFees == Fees(tx, vtx) && nBlockTx == |vtx|
          && Within(rules, Counted(), vtx != [])
    }

    method ResetBlock()
      requires Sane(rules)
      modifies this
      ensures Valid() && vtx == [] && inBlock == {} && !blockFinished && unchanged(`rules)
              && unchanged(`fNeedSizeAccounting)
    {
      hide Topological, Sums, Fees;
      EmptyBlock(tx);
      inBlock, vtx := {}, [];
      nBlockSize, nBlockWeight, nBlockSigOpsCost := RESERVED_SIZE, RESERVED_WEIGHT, RESERVED_SIGOPS;
      nBlockTx, nFees, lastFewTxs, blockFinished := 0, 0, 0, false;
    }

    method IsStillDependent(x: nat) returns (b: bool)
      ensures b == Outside(tx(x).parents, inBlock)
    {
      var parents := tx(x).parents;
      for i := 0 to |parents|
        invariant forall k :: 0 <= k < i ==> parents[k] in inBlock
      {
        if parents[i] !in inBlock { return true; }
      }
      b := false;
    }

    method TestForBlock(x: nat) returns (ok: bool)
      requires Sane(rules)
      modifies this`lastFewTxs, this`blockFinished
      ensures ok <==> !Exceeds(tx(x), rules, Counted(), fNeedSizeAccounting) && tx(x).isFinal
      ensures ok ==> unchanged(this)
      ensures blockFinished && !old(blockFinished) ==> Exceeds(tx(x), rules, Counted(), fNeedSizeAccounting)
    {
      var e := tx(x);
      if nBlockWeight + e.weight >= rules.maxWeight {
        if nBlockWeight > rules.maxWeight - 400 || lastFewTxs > 50 {
          blockFinished := true;
          return false;
        }
        if nBlockWeight > rules.maxWeight - 4000 { lastFewTxs := lastFewTxs + 1; }
        return false;
      }
      if fNeedSizeAccounting {
        if nBlockSize + e.size >= rules.maxSize {
          if nBlockSize > rules.maxSize - 100 || lastFewTxs > 50 {
            blockFinished := true;
            return false;
          }
          if nBlockSize > rules.maxSize - 1000 { lastFewTxs := lastFewTxs + 1; }
          return false;
        }
      }
      if nBlockSigOpsCost + e.sigOpCost >= MAX_BLOCK_SIGOPS_COST {
        if nBlockSigOpsCost > MAX_BLOCK_SIGOPS_COST - 8 {
          blockFinished := true;
          return false;
        }
        return false;
      }
      if !e.isFinal { return false; }
      ok := true;
    }

    method AddToBlock(x: nat)
      requires Valid() && fNeedSizeAccounting && x !in inBlock && !Outside(tx(x).parents, inBlock)
               && !Unfit(tx(x), rules, Counted())
      modifies this`vtx, this`nBlockSize, this`nBlockWeight, this`nBlockTx, this`nBlockSigOpsCost, this`nFees,
          this`inBlock
      ensures Valid() && vtx == old(vtx) + [x] && inBlock == old(inBlock) + {x}
      ensures Counted().weight >= old(Counted()).weight && Counted().size >= old(Counted()).size
              && Counted().sigOps >= old(Counted()).sigOps
    {
      hide Topological, Sums, Fees;
      NotOutside(tx, vtx, inBlock, x);
      SumsMore(tx, vtx, x);
      ghost var before := vtx;
      vtx := vtx + [x];
      if fNeedSizeAccounting { nBlockSize := nBlockSize + tx(x).size; }
      nBlockWeight := nBlockWeight + tx(x).weight;
      nBlockTx := nBlockTx + 1;
      nBlockSigOpsCost := nBlockSigOpsCost + tx(x).sigOpCost;
      nFees := nFees + tx(x).fee;
      inBlock := inBlock + {x};
      forall y ensures y in vtx <==> y in before || y == x { }
    }

    /** The first in time order ends up on top. */
    static method FillStack(byTime: seq<nat>) returns (stack: seq<nat>)
      ensures |stack| == |byTime| && forall i :: 0 <= i < |stack| ==> stack[i] == byTime[|byTime| - 1 - i]
    {
      stack := [];
      var i := |byTime|;
      while i > 0
        invariant 0 <= i <= |byTime| && |stack| == |byTime| - i
        invariant forall k :: 0 <= k < |stack| ==> stack[k] == byTime[|byTime| - 1 - k]
      {
        i := i - 1;
        stack := stack + [byTime[i]];
      }
    }

    /** The children of a new block transaction that waited are tried again. */
    method Wake(stack: seq<nat>, waitSet: set<nat>, x: nat, ghost ids: set<nat>, ghost skipped: set<nat>)
      returns (stack': seq<nat>, waitSet': set<nat>)
      requires Parted(ids, stack, waitSet, inBlock, skipped)
      requires forall w :: w in waitSet && w !in tx(x).children ==> Outside(tx(w).parents, inBlock)
      ensures Parted(ids, stack', waitSet', inBlock, skipped) && Waiting(tx, waitSet', inBlock)
    {
      hide Parted, Outside;
      stack', waitSet' := stack, waitSet;
      var children := tx(x).children;
      for k := 0 to |children|
        invariant Parted(ids, stack', waitSet', inBlock, skipped)
        invariant forall w :: w in waitSet' ==> w in waitSet && w !in children[..k]
      {
        var child := children[k];
        if child in waitSet' {
          MoveBack(ids, stack', waitSet', inBlock, skipped, child);
          stack', waitSet' := stack' + [child], waitSet' - {child};
        }
        forall w | w in waitSet' ensures w !in children[..k + 1] {
          assert children[..k + 1] == children[..k] + [child];
        }
      }
      assert children[..|children|] == children;
    }

    /** What holds between two steps. */
    ghost predicate Rest(ids: set<nat>, stack: seq<nat>, waitSet: set<nat>, skipped: set<nat>)
      reads this
    {
      && Valid() && Parted(ids, stack, waitSet, inBlock, skipped)
      && Waiting(tx, waitSet, inBlock) && Passed(tx, rules, skipped, Counted())
    }

    /** Tries the transaction on top of the stack. */
    method Step(stack: seq<nat>, waitSet: set<nat>, ghost ids: set<nat>, ghost skipped: set<nat>)
      returns (stack': seq<nat>, waitSet': set<nat>, ghost skipped': set<nat>)
      requires stack != [] && !blockFinished && fNeedSizeAccounting && Linked(tx, ids)
               && Rest(ids, stack, waitSet, skipped)
      modifies this
      ensures Rest(ids, stack', waitSet', skipped') && unchanged(`rules) && fNeedSizeAccounting
      ensures |inBlock| <= |ids| && (|inBlock| > old(|inBlock|) || (|inBlock| == old(|inBlock|) && |stack'| < |stack|))
    {
      hide Parted, Waiting, Passed, Linked, Valid, Outside;
      PopSkips(ids, stack, waitSet, inBlock, skipped);
      InBlockInPool(ids, stack, waitSet, inBlock, skipped);
      var x := stack[|stack| - 1];
      Smaller(ids, inBlock, x);
      stack', waitSet', skipped' := stack[..|stack| - 1], waitSet, skipped;
      if x in inBlock { assert false; }
      if !rules.includeWitness && tx(x).hasWitness {
        PassedMore(tx, rules, skipped, Counted(), x);
        skipped' := skipped + {x};
        return;
      }
      var dependent := IsStillDependent(x);
      if dependent {
        WaitingMore(tx, waitSet, inBlock, x);
        waitSet' := waitSet + {x};
        return;
      }
      if tx(x).time > rules.now || (rules.isProofOfStake && tx(x).time > rules.stakeTime) {
        PassedMore(tx, rules, skipped, Counted(), x);
        skipped' := skipped + {x};
        return;
      }
      SaneRules();
      label Before:
      var ok := TestForBlock(x);
      assert Valid() by { SameValid@Before(); }
      if ok {
        stack', waitSet' := Take(x, stack', waitSet, ids, skipped);
      } else {
        PassedMore(tx, rules, skipped, Counted(), x);
        skipped' := skipped + {x};
      }
    }

    lemma SaneRules()
      requires Valid()
      ensures Sane(rules)
    {
    }

    twostate lemma SameValid()
      requires old(Valid()) && unchanged(`rules) && unchanged(`inBlock) && unchanged(`vtx)
      requires old(Counted()) == Counted() && unchanged(`nFees) && unchanged(`nBlockTx)
      ensures Valid()
    {
    }

    method Take(x: nat, stack: seq<nat>, waitSet: set<nat>, ghost ids: set<nat>, ghost skipped: set<nat>)
      returns (stack': seq<nat>, waitSet': set<nat>)
      requires Valid() && fNeedSizeAccounting && Linked(tx, ids) && x in ids && waitSet <= ids && x !in inBlock
      requires Parted(ids, stack, waitSet, inBlock + {x}, skipped) && Waiting(tx, waitSet, inBlock)
               && Passed(tx, rules, skipped, Counted())
      requires !Outside(tx(x).parents, inBlock) && !Unfit(tx(x), rules, Counted())
      modifies this
      ensures Rest(ids, stack', waitSet', skipped) && unchanged(`rules) && fNeedSizeAccounting
              && inBlock == old(inBlock) + {x}
    {
      hide Parted, Waiting, Passed, Linked, Outside, Topological, Sums, Fees, Unfit;
      StillWaiting(tx, ids, waitSet, inBlock, x);
      ghost var t := Counted();
      AddToBlock(x);
      PassedGrows(tx, rules, skipped, t, Counted());
      if nBlockSize >= rules.maxSize { assert false; }
      stack', waitSet' := Wake(stack, waitSet, x, ids, skipped);
    }

    /** Fills the block.  Nothing is selected twice, parents come first, the totals are right
        and within the limits, and unless the block was declared full, every transaction that
        was left out lacks a parent, may not be in the block, or does not fit any more. */
    method AddTxs(byTime: seq<nat>, ghost ids: set<nat>)
      returns (ghost rest: seq<nat>, ghost wait: set<nat>, ghost skipped: set<nat>)
      requires Valid() && vtx == [] && inBlock == {} && !blockFinished && Linked(tx, ids)
      requires NoDoubles(byTime) && forall x :: x in ids <==> x in byTime
      modifies this
      ensures Valid() && unchanged(`rules) && unchanged(`fNeedSizeAccounting)
      ensures Parted(ids, rest, wait, inBlock, skipped) && Waiting(tx, wait, inBlock)
              && Passed(tx, rules, skipped, Counted())
      ensures blockFinished || rest == []
    {
      hide Parted, Waiting, Passed, Linked, Valid;
      var accounting := fNeedSizeAccounting;
      fNeedSizeAccounting := true;
      var stack: seq<nat> := FillStack(byTime);
      var waitSet: set<nat> := {};
      skipped := {};
      StartParted(tx, rules, Counted(), ids, byTime, stack);
      SameValid();
      while stack != [] && !blockFinished
        invariant fNeedSizeAccounting && unchanged(`rules) && Rest(ids, stack, waitSet, skipped)
        decreases |ids| - |inBlock|, |stack|
      {
        stack, waitSet, skipped := Step(stack, waitSet, ids, skipped);
      }
      label End:
      fNeedSizeAccounting := accounting;
      SameValid@End();
      rest, wait := stack, waitSet;
    }
  }
}
