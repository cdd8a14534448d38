/** Compact block relay (BIP 152): the sender replaces transactions by short ids, the
    receiver fills the slots it can from its pools, asks for the rest by differentially
    coded indexes, and puts the block together.  Hashing to short ids is opaque. */
module CompactBlocks {
  import opened Numbers
  import opened Options

  datatype Tx = Tx(hash: nat, witnessHash: nat, isNull: bool)

  type Slots = seq<Option<Tx>>

  datatype Prefilled = Prefilled(index: nat, tx: Tx)

  /** header 0 stands for the null header. */
  datatype Message = Message(header: nat, shortIds: seq<nat>, prefilled: seq<Prefilled>)

  datatype Status = OK | INVALID | FAILED | CHECKBLOCK_FAILED

  /** The verdict of the block check, which is not part of this model. */
  datatype Verdict = Good | Corrupt | Bad

  /** Corruption may come from colliding short ids, so the block is fetched in full. */
  function Outcome(v: Verdict): Status {
    match v
    case Good => OK
    case Corrupt => FAILED
    case Bad => CHECKBLOCK_FAILED
  }

  const MAX_BLOCK_BASE_SIZE := 2000000
  const MIN_TRANSACTION_BASE_SIZE := 14
  const MAX_UINT16 := 65535

  function Uint16(x: nat): (r: nat)
    ensures x <= MAX_UINT16 ==> r == x
  {
    x % (MAX_UINT16 + 1)
  }

  function Uint64(x: int): (r: nat)
    ensures 0 <= x <= MAX_UINT16 ==> r == x
  {
    x % 0x1_0000_0000_0000_0000
  }

  // ---------- slots ----------

  function SlotAt(slots: Slots, k: nat): Option<Tx>
    requires k < |slots|
  {
    slots[k]
  }

  /** The empty slots among the first n, in order. */
  function Empties(slots: Slots, n: nat): (r: seq<nat>)
    requires n <= |slots|
    ensures |r| <= n
    ensures forall i :: 0 <= i < |r| ==> r[i] < n && SlotAt(slots, r[i]) == None
    ensures forall i, j :: 0 <= i < j < |r| ==> r[i] < r[j]
  {
    if n == 0 then [] else
    var r := Empties(slots, n - 1);
    if slots[n - 1] == None then r + [n - 1] else r
  }

  lemma EmptiesNone(slots: Slots)
    ensures Empties(slots, 0) == []
  {
  }

  lemma {:induction false} EmptiesHas(slots: Slots, n: nat, k: nat)
    requires k < n <= |slots| && SlotAt(slots, k) == None
    ensures k in Empties(slots, n)
  {
    if k < n - 1 { EmptiesHas(slots, n - 1, k); }
  }

  /** How many of the first n slots are filled. */
  function Filled(slots: Slots, n: nat): nat
    requires n <= |slots|
  {
    if n == 0 then 0 else Filled(slots, n - 1) + (if slots[n - 1].Some? then 1 else 0)
  }

  lemma {:induction false} FilledPlusEmpty(slots: Slots, n: nat)
    requires n <= |slots|
    ensures |Empties(slots, n)| + Filled(slots, n) == n
  {
    if n > 0 { FilledPlusEmpty(slots, n - 1); }
  }

  lemma {:induction false} FilledUpdate(slots: Slots, n: nat, k: nat, o: Option<Tx>)
    requires n <= |slots| && k < |slots|
    ensures Filled(slots[k := o], n) ==
            Filled(slots, n) + (if k >= n then 0 else (if o.Some? then 1 else 0) - (if slots[k].Some? then 1 else 0))
  {
    if n > 0 { FilledUpdate(slots, n - 1, k, o); }
  }

  lemma {:induction false} EmptiesPrefix(slots: Slots, m: nat, n: nat)
    requires m <= n <= |slots|
    ensures Empties(slots, m) <= Empties(slots, n)
    decreases n
  {
    if m < n { EmptiesPrefix(slots, m, n - 1); }
  }

  // ---------- the sender ----------

  /** Only the coinbase is sent in full. */
  function Compact(header: nat, vtx: seq<Tx>, key: Tx -> nat, shortId: nat -> nat): Message
    requires |vtx| > 0
  {
    Message(header, seq(|vtx| - 1, i requires 0 <= i < |vtx| - 1 => shortId(key(vtx[i + 1]))), [Prefilled(0, vtx[0])])
  }

  function Key(useWitnessHash: bool): Tx -> nat {
    (tx: Tx) => if useWitnessHash then tx.witnessHash else tx.hash
  }

  method CompactBlock(header: nat, vtx: seq<Tx>, useWitnessHash: bool, shortId: nat -> nat) returns (m: Message)
    requires |vtx| > 0
    ensures m == Compact(header, vtx, Key(useWitnessHash), shortId)
  {
    var shortIds: seq<nat> := [];
    for i := 1 to |vtx|
      invariant |shortIds| == i - 1
      invariant forall k :: 0 <= k < i - 1 ==>
                  shortIds[k] == shortId(if useWitnessHash then vtx[k + 1].witnessHash else vtx[k + 1].hash)
    {
      shortIds := shortIds + [shortId(if useWitnessHash then vtx[i].witnessHash else vtx[i].hash)];
    }
    m := Message(header, shortIds, [Prefilled(0, vtx[0])]);
  }

  // ---------- the receiver: prefilled transactions ----------

  /** The absolute position of the j-th prefilled transaction, from the coded gaps. */
  function Position(prefilled: seq<Prefilled>, j: int): int
    requires -1 <= j < |prefilled|
    decreases j + 1
  {
    if j == -1 then -1 else Position(prefilled, j - 1) + prefilled[j].index + 1
  }

  predicate WellPlaced(m: Message, j: nat)
    requires j < |m.prefilled|
  {
    && !m.prefilled[j].tx.isNull
    && Position(m.prefilled, j) <= MAX_UINT16
    && Position(m.prefilled, j) <= |m.shortIds| + j
  }

  lemma {:induction false} PositionsGrow(prefilled: seq<Prefilled>, i: int, j: int)
    requires -1 <= i < j < |prefilled|
    ensures Position(prefilled, i) < Position(prefilled, j) && Position(prefilled, j) >= j
    decreases j
  {
    if i < j - 1 { PositionsGrow(prefilled, i, j - 1); }
    else if i >= 0 { PositionsGrow(prefilled, -1, i); }
  }

  function TxCount(m: Message): nat { |m.shortIds| + |m.prefilled| }

  /** The slots with the first n prefilled transactions put in. */
  function Placed(m: Message, n: nat): (slots: Slots)
    requires n <= |m.prefilled| && forall j :: 0 <= j < n ==> WellPlaced(m, j)
    ensures |slots| == TxCount(m)
  {
    if n == 0 then seq(TxCount(m), _ => None) else
    PositionsGrow(m.prefilled, -1, n - 1);
    assert WellPlaced(m, n - 1);
    var slots := Placed(m, n - 1);
    slots[Position(m.prefilled, n - 1) := Some(m.prefilled[n - 1].tx)]
  }

  /** Nothing is filled beyond the last position named so far. */
  lemma {:induction false} PlacedBeyond(m: Message, n: nat, k: nat)
    requires n <= |m.prefilled| && forall j :: 0 <= j < n ==> WellPlaced(m, j)
    requires k < TxCount(m) && (n == 0 || k > Position(m.prefilled, n - 1))
    ensures SlotAt(Placed(m, n), k) == None
  {
    if n > 0 {
      PositionsGrow(m.prefilled, n - 2, n - 1);
      PlacedBeyond(m, n - 1, k);
    }
  }

  lemma {:induction false} PlacedCount(m: Message, n: nat)
    requires n <= |m.prefilled| && forall j :: 0 <= j < n ==> WellPlaced(m, j)
    ensures Filled(Placed(m, n), TxCount(m)) == n
  {
    if n == 0 {
      NoneFilled(Placed(m, 0), TxCount(m));
    } else {
      PlacedCount(m, n - 1);
      PositionsGrow(m.prefilled, n - 2, n - 1);
      PositionsGrow(m.prefilled, -1, n - 1);
      assert WellPlaced(m, n - 1);
      var p := Position(m.prefilled, n - 1);
      PlacedBeyond(m, n - 1, p);
      FilledUpdate(Placed(m, n - 1), TxCount(m), p, Some(m.prefilled[n - 1].tx));
    }
  }

  lemma {:induction false} NoneFilled(slots: Slots, n: nat)
    requires n <= |slots| && forall k :: 0 <= k < n ==> slots[k] == None
    ensures Filled(slots, n) == 0
  {
    if n > 0 { NoneFilled(slots, n - 1); }
  }

  // ---------- the receiver: short ids to slots ----------

  /** Short id i belongs to the i-th slot that was not prefilled; positions are 16-bit. */
  function IdMap(shortIds: seq<nat>, empties: seq<nat>, n: nat): map<nat, nat>
    requires n <= |shortIds| <= |empties|
  {
    if n == 0 then map[] else IdMap(shortIds, empties, n - 1)[shortIds[n - 1] := Uint16(empties[n - 1])]
  }

  lemma IdMapStep(shortIds: seq<nat>, empties: seq<nat>, n: nat)
    requires n < |shortIds| <= |empties|
    ensures IdMap(shortIds, empties, n + 1) == IdMap(shortIds, empties, n)[shortIds[n] := Uint16(empties[n])]
  {
  }

  lemma IdMapNone(shortIds: seq<nat>, empties: seq<nat>)
    requires |shortIds| <= |empties|
    ensures IdMap(shortIds, empties, 0) == map[]
  {
  }

  /** Every entry comes from some short id and its slot. */
  lemma {:induction false} IdMapIs(shortIds: seq<nat>, empties: seq<nat>, n: nat, id: nat)
    requires n <= |shortIds| <= |empties| && id in IdMap(shortIds, empties, n)
    ensures exists i :: 0 <= i < n && shortIds[i] == id && IdMap(shortIds, empties, n)[id] == Uint16(empties[i])
  {
    if shortIds[n - 1] == id {
      assert shortIds[n - 1] == id && IdMap(shortIds, empties, n)[id] == Uint16(empties[n - 1]);
    } else {
      IdMapIs(shortIds, empties, n - 1, id);
      var i :| 0 <= i < n - 1 && shortIds[i] == id && IdMap(shortIds, empties, n - 1)[id] == Uint16(empties[i]);
      assert 0 <= i < n && shortIds[i] == id;
    }
  }

  // ---------- the receiver: matching pool transactions ----------

  datatype Fill = Fill(slots: Slots, have: set<nat>, count: int)

  function Lookup(ids: map<nat, nat>, id: nat): Option<nat> {
    if id in ids then Some(ids[id]) else None
  }

  /** A transaction of the pool (or, if `extra`, of the extra list) whose short id is `id`. */
  function Offer(f: Fill, ids: map<nat, nat>, id: nat, tx: Tx, extra: bool): Fill {
    match Lookup(ids, id)
    case None => f
    case Some(p) =>
      if p >= |f.slots| then f
      else if p !in f.have then Fill(f.slots[p := Some(tx)], f.have + {p}, f.count + 1)
      else if f.slots[p].Some? && (extra ==> f.slots[p].value.witnessHash != tx.witnessHash)
          then f.(slots := f.slots[p := None], count := f.count - 1)
      else f
  }

  /** The first n offers, stopping once every short id is matched. */
  function Offers(f: Fill, ids: map<nat, nat>, shortId: nat -> nat, pool: seq<(nat, Tx)>, extra: bool, n: nat): Fill
    requires n <= |pool|
  {
    if n == 0 then f else
    var g := Offers(f, ids, shortId, pool, extra, n - 1);
    if n > 1 && g.count == |ids| then g else Offer(g, ids, shortId(pool[n - 1].0), pool[n - 1].1, extra)
  }

  /** Only slots that were empty are touched, and the count is what was filled. */
  ghost predicate FillOk(f: Fill, base: Slots) {
    && |f.slots| == |base|
    && f.count == Filled(f.slots, |base|) - Filled(base, |base|)
    && (forall p :: 0 <= p < |base| ==> p in f.have || SlotAt(f.slots, p) == SlotAt(base, p))
    && (forall p :: p in f.have ==> p < |base| && SlotAt(base, p) == None)
  }

  /** What is in a slot is what belongs there. */
  ghost predicate Right(slots: Slots, want: seq<Tx>) {
    |slots| == |want| && forall p :: 0 <= p < |slots| && SlotAt(slots, p).Some? ==> SlotAt(slots, p).value == want[p]
  }

  ghost predicate IdsFit(ids: map<nat, nat>, base: Slots) {
    forall id :: Lookup(ids, id).Some? ==> Lookup(ids, id).value < |base| && SlotAt(base, Lookup(ids, id).value) == None
  }

  lemma OfferKeeps(f: Fill, base: Slots, ids: map<nat, nat>, id: nat, tx: Tx, extra: bool)
    requires FillOk(f, base) && IdsFit(ids, base)
    ensures FillOk(Offer(f, ids, id, tx, extra), base)
  {
    if Lookup(ids, id).Some? {
      var p := Lookup(ids, id).value;
      FilledUpdate(f.slots, |base|, p, Some(tx));
      FilledUpdate(f.slots, |base|, p, None);
      assert SlotAt(f.slots, p) == SlotAt(base, p) || p in f.have;
    }
  }

  lemma {:induction false} OffersKeep(f: Fill, base: Slots, ids: map<nat, nat>, shortId: nat -> nat,
                                      pool: seq<(nat, Tx)>, extra: bool, n: nat)
    requires FillOk(f, base) && IdsFit(ids, base) && n <= |pool|
    ensures FillOk(Offers(f, ids, shortId, pool, extra, n), base)
  {
    hide FillOk;
    if n > 0 {
      OffersKeep(f, base, ids, shortId, pool, extra, n - 1);
      OfferKeeps(Offers(f, ids, shortId, pool, extra, n - 1), base, ids, shortId(pool[n - 1].0), pool[n - 1].1, extra);
    }
  }

  /** No short id of the pool leads to a slot that another transaction belongs in. */
  ghost predicate NoCollision(ids: map<nat, nat>, shortId: nat -> nat, pool: seq<(nat, Tx)>, want: seq<Tx>) {
    forall k :: 0 <= k < |pool| ==> Leads(ids, shortId(pool[k].0), pool[k].1, want)
  }

  ghost predicate Leads(ids: map<nat, nat>, id: nat, tx: Tx, want: seq<Tx>) {
    Lookup(ids, id).Some? ==> Lookup(ids, id).value < |want| && want[Lookup(ids, id).value] == tx
  }

  lemma {:induction false} OffersRight(f: Fill, want: seq<Tx>, ids: map<nat, nat>, shortId: nat -> nat,
                                       pool: seq<(nat, Tx)>, extra: bool, n: nat)
    requires Right(f.slots, want) && n <= |pool| && NoCollision(ids, shortId, pool, want)
    ensures Right(Offers(f, ids, shortId, pool, extra, n).slots, want)
  {
    if n > 0 {
      OffersRight(f, want, ids, shortId, pool, extra, n - 1);
      assert Leads(ids, shortId(pool[n - 1].0), pool[n - 1].1, want);
    }
  }

  predicate Invalid(m: Message) {
    || m.header == 0 || (m.shortIds == [] && m.prefilled == [])
    || TxCount(m) > MAX_BLOCK_BASE_SIZE / MIN_TRANSACTION_BASE_SIZE
    || exists j :: 0 <= j < |m.prefilled| && !WellPlaced(m, j)
  }

  function Base(m: Message): Slots
    requires !Invalid(m)
  {
    Placed(m, |m.prefilled|)
  }

  /** There is a free slot for every short id. */
  lemma EnoughSlots(m: Message)
    requires !Invalid(m)
    ensures |Empties(Base(m), TxCount(m))| == |m.shortIds|
  {
    PlacedCount(m, |m.prefilled|);
    FilledPlusEmpty(Base(m), TxCount(m));
  }

  function Ids(m: Message): map<nat, nat>
    requires !Invalid(m)
  {
    EnoughSlots(m);
    IdMap(m.shortIds, Empties(Base(m), TxCount(m)), |m.shortIds|)
  }

  /** Every short id leads to some slot, and to a free one if 16 bits are enough. */
  lemma IdInSlots(slots: Slots, shortIds: seq<nat>, id: nat)
    requires |shortIds| <= |Empties(slots, |slots|)|
    ensures var o := Lookup(IdMap(shortIds, Empties(slots, |slots|), |shortIds|), id);
            o.Some? ==> o.value < |slots| && (|slots| <= MAX_UINT16 + 1 ==> SlotAt(slots, o.value) == None)
  {
    hide IdMap;
    var empties := Empties(slots, |slots|);
    var ids := IdMap(shortIds, empties, |shortIds|);
    if id in ids {
      IdMapIs(shortIds, empties, |shortIds|, id);
      var i :| 0 <= i < |shortIds| && shortIds[i] == id && ids[id] == Uint16(empties[i]);
      var e: nat := empties[i];
      assert e < |slots| && SlotAt(slots, e) == None;
    }
  }

  lemma IdsInSlots(m: Message)
    requires !Invalid(m)
    ensures TxCount(m) <= MAX_UINT16 + 1 ==> IdsFit(Ids(m), Base(m))
    ensures forall id :: Lookup(Ids(m), id).Some? ==> Lookup(Ids(m), id).value < TxCount(m)
  {
    hide Placed, Invalid, Empties, IdMap;
    EnoughSlots(m);
    var ids, base := Ids(m), Base(m);
    forall id | Lookup(ids, id).Some?
      ensures Lookup(ids, id).value < |base|
              && (|base| <= MAX_UINT16 + 1 ==> SlotAt(base, Lookup(ids, id).value) == None)
    {
      IdInSlots(base, m.shortIds, id);
    }
  }

  /** What the receiver has after looking through its pools. */
  function Received(m: Message, shortId: nat -> nat, pool: seq<(nat, Tx)>, extra: seq<(nat, Tx)>): Fill
    requires !Invalid(m)
  {
    var ids := Ids(m);
    Offers(Offers(Fill(Base(m), {}, 0), ids, shortId, pool, false, |pool|), ids, shortId, extra, true, |extra|)
  }

  /** The count kept on the side is the number of slots filled from the pools. */
  lemma CountIsFilled(m: Message, shortId: nat -> nat, pool: seq<(nat, Tx)>, extra: seq<(nat, Tx)>)
    requires !Invalid(m) && IdsFit(Ids(m), Base(m))
    ensures var f := Received(m, shortId, pool, extra);
            && |f.slots| == TxCount(m)
            && f.count == Filled(f.slots, TxCount(m)) - |m.prefilled|
            && forall p :: 0 <= p < TxCount(m) && SlotAt(Base(m), p).Some? ==> SlotAt(f.slots, p) == SlotAt(Base(m), p)
  {
    hide Placed, Offers, Ids, IdsFit, WellPlaced;
    var f := Fill(Base(m), {}, 0);
    OffersKeep(f, Base(m), Ids(m), shortId, pool, false, |pool|);
    OffersKeep(Offers(f, Ids(m), shortId, pool, false, |pool|), Base(m), Ids(m), shortId, extra, true, |extra|);
    PlacedCount(m, |m.prefilled|);
  }

  /** The block has what the slots have, and the missing transactions in the empty slots in order. */
  ghost predicate CompletedTo(slots: Slots, missing: seq<Tx>, block: seq<Tx>, n: nat)
    requires n <= |slots|
  {
    |block| == n && KeepsTo(slots, block, n) && FillsIn(Empties(slots, n), missing, block)
  }

  ghost predicate KeepsTo(slots: Slots, block: seq<Tx>, n: nat)
    requires n <= |slots| && n <= |block|
  {
    forall k :: 0 <= k < n && SlotAt(slots, k).Some? ==> block[k] == SlotAt(slots, k).value
  }

  /** The missing transactions stand at these positions, in order. */
  ghost predicate FillsIn(empties: seq<nat>, missing: seq<Tx>, block: seq<Tx>) {
    |missing| >= |empties| && forall i :: 0 <= i < |empties| ==> empties[i] < |block| && block[empties[i]] == missing[i]
  }

  ghost predicate Completed(slots: Slots, missing: seq<Tx>, block: seq<Tx>) {
    CompletedTo(slots, missing, block, |slots|)
  }

  lemma CompletedNone(slots: Slots, missing: seq<Tx>)
    ensures CompletedTo(slots, missing, [], 0)
  {
  }

  lemma CompletedStep(slots: Slots, missing: seq<Tx>, block: seq<Tx>, n: nat)
    requires n < |slots| && CompletedTo(slots, missing, block, n)
    ensures SlotAt(slots, n).Some? ==> CompletedTo(slots, missing, block + [SlotAt(slots, n).value], n + 1)
    ensures SlotAt(slots, n) == None && |missing| > |Empties(slots, n)| ==>
              CompletedTo(slots, missing, block + [missing[|Empties(slots, n)|]], n + 1)
  {
    hide Empties, KeepsTo, FillsIn, SlotAt;
    EmptiesStep(slots, n);
    var empties := Empties(slots, n);
    if SlotAt(slots, n).Some? {
      var tx := SlotAt(slots, n).value;
      KeepsMore(slots, block, n, tx);
      FillsLonger(empties, missing, block, tx);
    } else if |missing| > |empties| {
      KeepsMore(slots, block, n, missing[|empties|]);
      FillsMore(empties, missing, block);
    }
  }

  lemma KeepsMore(slots: Slots, block: seq<Tx>, n: nat, tx: Tx)
    requires n < |slots| && |block| == n && KeepsTo(slots, block, n)
    requires SlotAt(slots, n).Some? ==> tx == SlotAt(slots, n).value
    ensures KeepsTo(slots, block + [tx], n + 1)
  {
    hide SlotAt;
  }

  lemma FillsLonger(empties: seq<nat>, missing: seq<Tx>, block: seq<Tx>, tx: Tx)
    requires FillsIn(empties, missing, block)
    ensures FillsIn(empties, missing, block + [tx])
  {
  }

  lemma FillsMore(empties: seq<nat>, missing: seq<Tx>, block: seq<Tx>)
    requires FillsIn(empties, missing, block) && |missing| > |empties|
    ensures FillsIn(empties + [|block|], missing, block + [missing[|empties|]])
  {
  }

  /** The slots from n on are as they were. */
  ghost predicate Untouched(now: Slots, slots: Slots, n: nat) {
    |now| == |slots| && forall k :: n <= k < |slots| ==> SlotAt(now, k) == SlotAt(slots, k)
  }

  lemma UntouchedAll(slots: Slots)
    ensures Untouched(slots, slots, 0)
  {
  }

  lemma TouchOne(now: Slots, slots: Slots, n: nat)
    requires Untouched(now, slots, n) && n < |slots|
    ensures now[n] == slots[n] == SlotAt(slots, n) && Untouched(now, slots, n + 1)
    ensures Untouched(now[n := None], slots, n + 1)
  {
    assert SlotAt(now, n) == SlotAt(slots, n);
  }

  lemma EmptiesStep(slots: Slots, n: nat)
    requires n < |slots|
    ensures Empties(slots, n + 1) == if SlotAt(slots, n) == None then Empties(slots, n) + [n] else Empties(slots, n)
  {
  }

  // ---------- whether the walk over filled slots ends ----------

  lemma {:induction false} FilledGrows(slots: Slots, m: nat, n: nat)
    requires m <= n <= |slots|
    ensures Filled(slots, m) <= Filled(slots, n)
    decreases n
  {
    if m < n { FilledGrows(slots, m, n - 1); }
  }

  /** What lies before a slot is filled or empty. */
  lemma FilledBefore(slots: Slots, n: nat)
    requires n <= |slots|
    ensures n - |Empties(slots, n)| == Filled(slots, n) <= Filled(slots, |slots|)
  {
    FilledPlusEmpty(slots, n);
    FilledGrows(slots, n, |slots|);
  }

  /** The slot looked at for short id i once the offset was incremented k times is free. */
  predicate FreeAfter(slots: Slots, i: nat, offset: nat, k: nat) {
    var p := i + Incremented(offset, k);
    p < |slots| && slots[p] == None
  }

  /** k increments in 16 bits. */
  function Incremented(offset: nat, k: nat): nat { if k == 0 then offset else Uint16(Incremented(offset, k - 1) + 1) }

  lemma Wraps(n: nat)
    ensures Uint16(n % (MAX_UINT16 + 1) + 1) == (n + 1) % (MAX_UINT16 + 1)
  {
    var q, r := n / (MAX_UINT16 + 1), n % (MAX_UINT16 + 1);
    assert n == q * (MAX_UINT16 + 1) + r;
    if r == MAX_UINT16 {
      DivIs(n + 1, MAX_UINT16 + 1, q + 1);
      DivIs(r + 1, MAX_UINT16 + 1, 1);
    } else {
      DivIs(n + 1, MAX_UINT16 + 1, q);
    }
  }

  lemma {:induction false} IncrementedIs(offset: nat, k: nat)
    requires offset <= MAX_UINT16
    ensures Incremented(offset, k) == (offset + k) % (MAX_UINT16 + 1)
    decreases k
  {
    if k > 0 {
      IncrementedIs(offset, k - 1);
      hide Uint16;
      Wraps(offset + k - 1);
    } else {
      DivIs(offset, MAX_UINT16 + 1, 0);
    }
  }

  /** The walk for short id i, from a 16-bit offset on, comes to a free slot. */
  ghost predicate Ends(slots: Slots, i: nat, offset: nat) {
    exists k: nat :: FreeAfter(slots, i, offset, k)
  }

  /** The offset the walk for short id i starts from: how far the one before was moved. */
  function OffsetBefore(slots: Slots, i: nat): int
    requires i <= |Empties(slots, |slots|)|
  {
    if i == 0 then 0 else Empties(slots, |slots|)[i - 1] - (i - 1)
  }

  predicate OffsetFits(m: Message) { |m.prefilled| <= MAX_UINT16 || m.shortIds == [] }

  lemma {:induction false} EmptiesUpTo(slots: Slots, n: nat, i: nat)
    requires n <= |slots| && i < |Empties(slots, n)|
    ensures |Empties(slots, Empties(slots, n)[i])| == i
    decreases n
  {
    if i < |Empties(slots, n - 1)| { EmptiesUpTo(slots, n - 1, i); }
  }

  /** A free slot is reached after as many steps as filled slots lie between. */
  lemma WalkEnds(slots: Slots, i: nat)
    requires i < |Empties(slots, |slots|)| && Filled(slots, |slots|) <= MAX_UINT16
    ensures 0 <= OffsetBefore(slots, i) && Ends(slots, i, OffsetBefore(slots, i))
  {
    hide Empties, Filled, Incremented;
    var empties := Empties(slots, |slots|);
    var e, from := empties[i], OffsetBefore(slots, i);
    EmptiesUpTo(slots, |slots|, i);
    FilledBefore(slots, e);
    if i > 0 {
      EmptiesUpTo(slots, |slots|, i - 1);
      FilledBefore(slots, empties[i - 1]);
      assert empties[i - 1] < empties[i];
    }
    var k := e - i - from;
    IncrementedIs(from, k);
    DivIs(from + k, MAX_UINT16 + 1, 0);
    assert SlotAt(slots, e) == None;
    assert FreeAfter(slots, i, from, k);
  }

  /** The named positions hold their transactions. */
  lemma {:induction false} PlacedAt(m: Message, n: nat, j: nat)
    requires j < n <= |m.prefilled| && forall j :: 0 <= j < n ==> WellPlaced(m, j)
    ensures 0 <= Position(m.prefilled, j) < TxCount(m)
    ensures SlotAt(Placed(m, n), Position(m.prefilled, j)) == Some(m.prefilled[j].tx)
  {
    assert WellPlaced(m, j);
    PositionsGrow(m.prefilled, -1, j);
    if j < n - 1 {
      PositionsGrow(m.prefilled, j, n - 1);
      PlacedAt(m, n - 1, j);
    }
  }

  lemma {:induction false} PositionsApart(prefilled: seq<Prefilled>, i: nat, j: nat)
    requires i <= j < |prefilled|
    ensures Position(prefilled, j) - Position(prefilled, i) >= j - i
    decreases j
  {
    if i < j { PositionsApart(prefilled, i, j - 1); }
  }

  /** No more prefilled transactions than 16-bit positions, and then one at each. */
  lemma AllPositions(m: Message, p: nat)
    requires !Invalid(m) && |m.prefilled| > MAX_UINT16 && p <= MAX_UINT16
    ensures |m.prefilled| == MAX_UINT16 + 1 && p < |Base(m)| && SlotAt(Base(m), p).Some?
  {
    hide Placed, Position;
    var last := |m.prefilled| - 1;
    assert WellPlaced(m, last);
    PositionsApart(m.prefilled, 0, last);
    PositionsGrow(m.prefilled, -1, 0);
    PositionsApart(m.prefilled, p, last);
    PositionsGrow(m.prefilled, -1, p);
    PlacedAt(m, |m.prefilled|, p);
  }

  /** All walks end exactly if the 16-bit offset does not wrap, or there is nothing to walk for. */
  lemma AllWalksEnd(m: Message)
    requires !Invalid(m)
    ensures |m.shortIds| == |Empties(Base(m), |Base(m)|)|
    ensures (forall i :: 0 <= i < |m.shortIds| ==>
               0 <= OffsetBefore(Base(m), i) && Ends(Base(m), i, OffsetBefore(Base(m), i)))
            <==> OffsetFits(m)
  {
    hide Empties, Filled, Placed, Invalid, WellPlaced, Ends, OffsetBefore;
    EnoughSlots(m);
    if |m.prefilled| <= MAX_UINT16 {
      FilledIs(m);
      forall i | 0 <= i < |m.shortIds| ensures 0 <= OffsetBefore(Base(m), i)
          && Ends(Base(m), i, OffsetBefore(Base(m), i)) {
        WalkEnds(Base(m), i);
      }
    } else if m.shortIds != [] {
      NeverEnds(m);
    }
  }

  lemma FilledIs(m: Message)
    requires !Invalid(m)
    ensures |Base(m)| == TxCount(m) && Filled(Base(m), TxCount(m)) == |m.prefilled|
  {
    PlacedCount(m, |m.prefilled|);
  }

  /** With a prefilled transaction at every 16-bit position, the first walk goes round and round. */
  lemma NeverEnds(m: Message)
    requires !Invalid(m) && |m.prefilled| > MAX_UINT16
    ensures OffsetBefore(Base(m), 0) == 0 && !Ends(Base(m), 0, 0)
  {
    hide Placed, Invalid, WellPlaced, Empties, Incremented;
    forall k: nat ensures !FreeAfter(Base(m), 0, 0, k) {
      IncrementedIs(0, k);
      AllPositions(m, Incremented(0, k));
    }
  }

  /** 65536 transactions in full, and one short id. */
  function FullMessage(header: nat, tx: Tx, shortId: nat): Message {
    Message(header, [shortId], seq(MAX_UINT16 + 1, _ => Prefilled(0, tx)))
  }

  lemma {:induction false} FullPositions(header: nat, tx: Tx, shortId: nat, j: int)
    requires -1 <= j <= MAX_UINT16
    ensures Position(FullMessage(header, tx, shortId).prefilled, j) == j
    decreases j + 1
  {
    if j >= 0 { FullPositions(header, tx, shortId, j - 1); }
  }

  lemma FullNeverEnds(header: nat, tx: Tx, shortId: nat)
    requires header != 0 && !tx.isNull
    ensures var m := FullMessage(header, tx, shortId);
            !Invalid(m) && !OffsetFits(m) && !Ends(Base(m), 0, 0)
  {
    hide Ends, Placed;
    var m := FullMessage(header, tx, shortId);
    forall j | 0 <= j < |m.prefilled| ensures WellPlaced(m, j) { FullPositions(header, tx, shortId, j); }
    NeverEnds(m);
  }

  class PartiallyDownloadedBlock {
    var header: nat
    var txnAvailable: Slots
    var prefilledCount: nat
    var mempoolCount: int

    constructor ()
      ensures header == 0 && txnAvailable == [] && mempoolCount == 0
    {
      header, txnAvailable, prefilledCount, mempoolCount := 0, [], 0, 0;
    }

    /** `crowded` says at which short id the hash table's bucket gets too full.  The walk over
        filled slots must have an end. */
    method InitData(m: Message, shortId: nat -> nat, pool: seq<(nat, Tx)>, extra: seq<(nat, Tx)>, crowded: nat -> bool)
        returns (status: Status)
      requires header == 0 && txnAvailable == [] && mempoolCount == 0 && (Invalid(m) || OffsetFits(m))
      modifies this
      ensures status != CHECKBLOCK_FAILED && (status == INVALID <==> Invalid(m))
      ensures status == OK ==>
                && header == m.header && header != 0 && |Ids(m)| == |m.shortIds|
                && txnAvailable == Received(m, shortId, pool, extra).slots
                && mempoolCount == Received(m, shortId, pool, extra).count
                && |txnAvailable| == TxCount(m) && prefilledCount == |m.prefilled|
                && (IdsFit(Ids(m), Base(m)) ==> mempoolCount + prefilledCount == Filled(txnAvailable, TxCount(m)))
      ensures status == FAILED ==> |Ids(m)| != |m.shortIds| || exists i :: 0 <= i < |m.shortIds| && crowded(i)
    {
      hide Placed, Position, WellPlaced, Offers, IdMap, Empties, IdsFit, Filled, Lookup;
      if m.header == 0 || (m.shortIds == [] && m.prefilled == []) { return INVALID; }
      if TxCount(m) > MAX_BLOCK_BASE_SIZE / MIN_TRANSACTION_BASE_SIZE { return INVALID; }
      header := m.header;
      var ok := PlacePrefilled(m);
      if !ok { return INVALID; }
      prefilledCount := |m.prefilled|;
      assert txnAvailable == Base(m);
      EnoughSlots(m);
      IdsInSlots(m);
      PlacedCount(m, |m.prefilled|);
      var crowd, ids := MapIds(m.shortIds, crowded);
      if crowd { return FAILED; }
      if |ids| != |m.shortIds| { return FAILED; }
      assert ids == Ids(m);
      assert forall id :: Lookup(ids, id).Some? ==> Lookup(ids, id).value < |txnAvailable|;
      var have := Match(ids, shortId, pool, false, {});
      have := Match(ids, shortId, extra, true, have);
      if IdsFit(Ids(m), Base(m)) { CountIsFilled(m, shortId, pool, extra); }
      status := OK;
    }

    method PlacePrefilled(m: Message) returns (ok: bool)
      requires txnAvailable == []
      modifies this`txnAvailable
      ensures ok <==> forall j :: 0 <= j < |m.prefilled| ==> WellPlaced(m, j)
      ensures ok ==> txnAvailable == Placed(m, |m.prefilled|)
    {
      txnAvailable := seq(TxCount(m), _ => None);
      var last := -1;
      for i := 0 to |m.prefilled|
        invariant forall j :: 0 <= j < i ==> WellPlaced(m, j)
        invariant last == Position(m.prefilled, i - 1) && txnAvailable == Placed(m, i)
      {
        if m.prefilled[i].tx.isNull { assert !WellPlaced(m, i); return false; }
        last := last + m.prefilled[i].index + 1;
        if last > MAX_UINT16 { assert !WellPlaced(m, i); return false; }
        if last > |m.shortIds| + i { assert !WellPlaced(m, i); return false; }
        PositionsGrow(m.prefilled, -1, i);
        assert WellPlaced(m, i);
        txnAvailable := txnAvailable[last := Some(m.prefilled[i].tx)];
      }
      ok := true;
    }

    method IsTxAvailable(index: nat) returns (b: bool)
      requires header != 0 && index < |txnAvailable|
      ensures b == SlotAt(txnAvailable, index).Some?
    {
      b := txnAvailable[index].Some?;
    }

    /** Takes the transactions out of the slots; too few or too many missing ones fail. */
    method FillBlock(missing: seq<Tx>, check: seq<Tx> -> Verdict) returns (status: Status, block: seq<Tx>)
      requires header != 0
      modifies this
      ensures |missing| < |Empties(old(txnAvailable), |old(txnAvailable)|)| ==>
                status == INVALID && header == old(header)
      ensures |missing| > |Empties(old(txnAvailable), |old(txnAvailable)|)| ==> status == INVALID
      ensures |missing| >= |Empties(old(txnAvailable), |old(txnAvailable)|)| ==> header == 0 && txnAvailable == []
      ensures |missing| == |Empties(old(txnAvailable), |old(txnAvailable)|)| ==>
                && Completed(old(txnAvailable), missing, block)
                && status == Outcome(check(block))
    {
      hide Empties, CompletedTo, Untouched, SlotAt;
      ghost var slots := txnAvailable;
      var n := |txnAvailable|;
      EmptiesNone(slots);
      CompletedNone(slots, missing);
      assert Untouched(txnAvailable, slots, 0) by { UntouchedAll(slots); }
      block := [];
      var offset := 0;
      for i := 0 to n
        invariant |block| == i && offset == |Empties(slots, i)| <= |missing| && header == old(header)
        invariant |txnAvailable| == n && Untouched(txnAvailable, slots, i)
        invariant CompletedTo(slots, missing, block, i)
      {
        EmptiesPrefix(slots, i + 1, n);
        EmptiesStep(slots, i);
        CompletedStep(slots, missing, block, i);
        TouchOne(txnAvailable, slots, i);
        if txnAvailable[i] == None {
          if |missing| <= offset { return INVALID, block; }
          block := block + [missing[offset]];
          offset := offset + 1;
        } else {
          block := block + [txnAvailable[i].value];
          txnAvailable := txnAvailable[i := None];
        }
      }
      header, txnAvailable := 0, [];
      if |missing| != offset { return INVALID, block; }
      status := Outcome(check(block));
    }

    /** Walks over the filled slots, with a 16-bit offset, and gives every short id its place. */
    method MapIds(shortIds: seq<nat>, crowded: nat -> bool) returns (crowd: bool, ids: map<nat, nat>)
      requires |shortIds| == |Empties(txnAvailable, |txnAvailable|)|
      requires shortIds == [] || Filled(txnAvailable, |txnAvailable|) <= MAX_UINT16
      ensures crowd ==> exists i :: 0 <= i < |shortIds| && crowded(i)
      ensures !crowd ==> ids == IdMap(shortIds, Empties(txnAvailable, |txnAvailable|), |shortIds|)
    {
      hide Empties, Uint16, IdMap, Filled;
      var n := |txnAvailable|;
      EmptiesNone(txnAvailable);
      ghost var empties := Empties(txnAvailable, n);
      ids := map[];
      IdMapNone(shortIds, empties);
      var offset := 0;
      for i := 0 to |shortIds|
        invariant 0 <= offset && i + offset <= n && |Empties(txnAvailable, i + offset)| == i
        invariant ids == IdMap(shortIds, empties, i)
      {
        offset := NextFree(i, offset);
        IdMapStep(shortIds, empties, i);
        ids := ids[shortIds[i] := Uint16(i + offset)];
        if crowded(i) { return true, ids; }
      }
      crowd := false;
    }

    method NextFree(i: nat, from: nat) returns (offset: nat)
      requires i < |Empties(txnAvailable, |txnAvailable|)| && Filled(txnAvailable, |txnAvailable|) <= MAX_UINT16
      requires i + from <= |txnAvailable| && |Empties(txnAvailable, i + from)| == i
      ensures i + offset < |txnAvailable| && |Empties(txnAvailable, i + offset + 1)| == i + 1
      ensures Empties(txnAvailable, |txnAvailable|)[i] == i + offset
    {
      hide Filled;
      offset := from;
      while txnAvailable[i + offset].Some?
        invariant i + offset < |txnAvailable| && |Empties(txnAvailable, i + offset)| == i
        decreases |txnAvailable| - offset
      {
        FilledBefore(txnAvailable, i + offset + 1);
        offset := Uint16(offset + 1);
      }
      EmptiesPrefix(txnAvailable, i + offset + 1, |txnAvailable|);
    }

    /** Offers the transactions of one pool to the slots. */
    method Match(ids: map<nat, nat>, shortId: nat -> nat, pool: seq<(nat, Tx)>, extra: bool, have: set<nat>)
        returns (have': set<nat>)
      modifies this`txnAvailable, this`mempoolCount
      requires forall id :: Lookup(ids, id).Some? ==> Lookup(ids, id).value < |txnAvailable|
      ensures |txnAvailable| == old(|txnAvailable|)
      ensures Fill(txnAvailable, have', mempoolCount) ==
              Offers(Fill(old(txnAvailable), have, old(mempoolCount)), ids, shortId, pool, extra, |pool|)
    {
      have' := have;
      ghost var f := Fill(txnAvailable, have, mempoolCount);
      var i := 0;
      while i < |pool|
        invariant 0 <= i <= |pool| && |txnAvailable| == |f.slots|
        invariant Fill(txnAvailable, have', mempoolCount) == Offers(f, ids, shortId, pool, extra, i)
        invariant i > 0 ==> mempoolCount != |ids|
      {
        var id, tx := shortId(pool[i].0), pool[i].1;
        if id in ids {
          var p := ids[id];
          assert Lookup(ids, id) == Some(p);
          if p !in have' {
            txnAvailable := txnAvailable[p := Some(tx)];
            have' := have' + {p};
            mempoolCount := mempoolCount + 1;
          } else if txnAvailable[p].Some? && (extra ==> txnAvailable[p].value.witnessHash != tx.witnessHash) {
            txnAvailable := txnAvailable[p := None];
            mempoolCount := mempoolCount - 1;
          }
        }
        i := i + 1;
        if mempoolCount == |ids| {
          StopsThere(f, ids, shortId, pool, extra, i, |pool|);
          return;
        }
      }
    }
  }

  // ---------- the request: differentially coded indexes ----------

  /** One above the last index, in 16 bits. */
  function After(indexes: seq<nat>): nat {
    if indexes == [] then 0 else Uint16(indexes[|indexes| - 1] + 1)
  }

  /** What is written for an index after `front`: a 64-bit difference. */
  function Gap(front: seq<nat>, last: nat): nat {
    Uint64(last - (if front == [] then 0 else front[|front| - 1] + 1) as int)
  }

  function Gaps(indexes: seq<nat>): (gaps: seq<nat>)
    ensures |gaps| == |indexes|
  {
    if indexes == [] then [] else
    var n := |indexes| - 1;
    Gaps(indexes[..n]) + [Gap(indexes[..n], indexes[n])]
  }

  /** The indexes as they are read back, or None on a 16-bit overflow. */
  function Indexes(gaps: seq<nat>): (r: Option<seq<nat>>)
    ensures r.Some? ==> |r.value| == |gaps|
  {
    if gaps == [] then Some([]) else
    var front := Indexes(gaps[..|gaps| - 1]);
    if front == None then None else
    var gap := gaps[|gaps| - 1];
    if gap > MAX_UINT16 || gap + After(front.value) > MAX_UINT16 then None
    else Some(front.value + [gap + After(front.value)])
  }

  ghost predicate Increasing(indexes: seq<nat>) {
    forall i, j :: 0 <= i < j < |indexes| ==> indexes[i] < indexes[j]
  }

  /** Reading one more gap. */
  function More(front: Option<seq<nat>>, gap: nat): Option<seq<nat>> {
    if front == None || gap > MAX_UINT16 || gap + After(front.value) > MAX_UINT16 then None
    else Some(front.value + [gap + After(front.value)])
  }

  lemma MoreIs(front: seq<nat>, gap: nat, last: nat)
    requires gap + After(front) == last <= MAX_UINT16
    ensures More(Some(front), gap) == Some(front + [last])
  {
  }

  lemma GapIs(front: seq<nat>, last: nat)
    requires (front == [] || front[|front| - 1] < last) && last <= MAX_UINT16
    ensures Gap(front, last) + After(front) == last
  {
    hide Uint16, Uint64;
  }

  lemma IndexesNone()
    ensures Indexes([]) == Some([])
  {
  }

  lemma IndexesStep(gaps: seq<nat>, gap: nat)
    ensures Indexes(gaps + [gap]) == More(Indexes(gaps), gap)
  {
    assert (gaps + [gap])[..|gaps|] == gaps;
  }

  lemma GapsStep(indexes: seq<nat>, last: nat)
    ensures Gaps(indexes + [last]) == Gaps(indexes) + [Gap(indexes, last)]
  {
    hide Gap;
    assert (indexes + [last])[..|indexes|] == indexes;
  }

  lemma {:induction false} IndexesRoundTrip(indexes: seq<nat>)
    requires Increasing(indexes) && forall i :: 0 <= i < |indexes| ==> indexes[i] <= MAX_UINT16
    ensures Indexes(Gaps(indexes)) == Some(indexes)
    decreases |indexes|
  {
    if indexes == [] {
    } else {
      var front, last := indexes[..|indexes| - 1], indexes[|indexes| - 1];
      assert front == [] || front[|front| - 1] < last;
      IndexesRoundTrip(front);
      RoundTripStep(front, last);
      assert front + [last] == indexes;
    }
  }

  lemma RoundTripStep(front: seq<nat>, last: nat)
    requires Indexes(Gaps(front)) == Some(front)
    requires (front == [] || front[|front| - 1] < last) && last <= MAX_UINT16
    ensures Indexes(Gaps(front + [last])) == Some(front + [last])
  {
    hide *;
    GapIs(front, last);
    var gap := Gap(front, last);
    GapsStep(front, last);
    IndexesStep(Gaps(front), gap);
    MoreIs(front, gap, last);
  }

  /** Where the offset stands after these gaps, if it never wraps: each takes its gap and one more. */
  function Reach(gaps: seq<nat>): nat {
    if gaps == [] then 0 else Reach(gaps[..|gaps| - 1]) + gaps[|gaps| - 1] + 1
  }

  /** No gap follows once the offset has reached 65536. */
  ghost predicate StopsAtTop(gaps: seq<nat>) {
    forall k :: 0 < k < |gaps| ==> Reach(gaps[..k]) != MAX_UINT16 + 1
  }

  lemma StopsStep(gaps: seq<nat>)
    requires |gaps| > 1
    ensures var front := gaps[..|gaps| - 1];
            StopsAtTop(gaps) <==> StopsAtTop(front) && Reach(front) != MAX_UINT16 + 1
  {
    hide Reach;
    var n := |gaps| - 1;
    forall k | 0 < k < n ensures gaps[..n][..k] == gaps[..k] { }
    if StopsAtTop(gaps[..n]) && Reach(gaps[..n]) != MAX_UINT16 + 1 {
      forall k | 0 < k < |gaps| ensures Reach(gaps[..k]) != MAX_UINT16 + 1 {
        if k < n { assert Reach(gaps[..n][..k]) != MAX_UINT16 + 1; }
      }
    }
    if StopsAtTop(gaps) {
      forall k | 0 < k < n ensures Reach(gaps[..n][..k]) != MAX_UINT16
          + 1 { assert Reach(gaps[..k]) != MAX_UINT16 + 1; }
    }
  }

  lemma IndexesFront(gaps: seq<nat>)
    requires gaps != [] && Indexes(gaps).Some?
    ensures var n := |gaps| - 1;
            && Indexes(gaps[..n]).Some? && gaps[n] + After(Indexes(gaps[..n]).value) <= MAX_UINT16
            && Indexes(gaps).value == Indexes(gaps[..n]).value + [gaps[n] + After(Indexes(gaps[..n]).value)]
  {
    hide Indexes, After;
    var n := |gaps| - 1;
    assert gaps[..n] + [gaps[n]] == gaps;
    IndexesStep(gaps[..n], gaps[n]);
  }

  /** Without a wrap the last index is one below where the offset stands. */
  lemma {:induction false} LastIndex(gaps: seq<nat>)
    requires gaps != [] && Indexes(gaps).Some? && StopsAtTop(gaps)
    ensures Indexes(gaps).value[|gaps| - 1] == Reach(gaps) - 1 <= MAX_UINT16
    decreases |gaps|
  {
    hide Indexes, StopsAtTop;
    IndexesFront(gaps);
    var front := gaps[..|gaps| - 1];
    if front == [] {
      IndexesNone();
    } else {
      StopsStep(gaps);
      LastIndex(front);
    }
  }

  /** What was read is increasing exactly if no gap follows once the 16-bit offset has come to
      its end, after which it starts again from 0. */
  lemma {:induction false} ReadIncreasing(gaps: seq<nat>)
    requires Indexes(gaps).Some?
    ensures Increasing(Indexes(gaps).value) <==> forall k :: 0 < k < |gaps| ==> Reach(gaps[..k]) != MAX_UINT16 + 1
    decreases |gaps|
  {
    hide Indexes;
    if |gaps| > 0 { IndexesFront(gaps); }
    if |gaps| > 1 {
      var front, last := Indexes(gaps[..|gaps| - 1]).value, Indexes(gaps).value[|gaps| - 1];
      ReadIncreasing(gaps[..|gaps| - 1]);
      StopsStep(gaps);
      IncreasingMore(front, last);
      if StopsAtTop(gaps[..|gaps| - 1]) { LastIndex(gaps[..|gaps| - 1]); }
    }
  }

  lemma IncreasingMore(front: seq<nat>, last: nat)
    requires front != []
    ensures Increasing(front + [last]) <==> Increasing(front) && front[|front| - 1] < last
  {
    var all := front + [last];
    if Increasing(all) {
      forall i, j | 0 <= i < j < |front| ensures front[i] < front[j] { assert all[i] < all[j]; }
      assert all[|front| - 1] < all[|front|];
    }
  }

  lemma ReadNotIncreasing()
    ensures Indexes([MAX_UINT16, 0]) == Some([MAX_UINT16, 0])
  {
    hide Indexes;
    var one: seq<nat> := [MAX_UINT16];
    IndexesStep([], MAX_UINT16);
    IndexesStep(one, 0);
    assert Indexes([]) == Some([]) by { IndexesNone(); }
    assert [] + [MAX_UINT16] == one && one + [0] == [MAX_UINT16, 0];
    assert After(one) == 0;
  }

  method WriteIndexes(indexes: seq<nat>) returns (gaps: seq<nat>)
    ensures gaps == Gaps(indexes)
  {
    gaps := [];
    for i := 0 to |indexes|
      invariant gaps == Gaps(indexes[..i])
    {
      GapsStep(indexes[..i], indexes[i]);
      assert indexes[..i] + [indexes[i]] == indexes[..i + 1];
      gaps := gaps + [Gap(indexes[..i], indexes[i])];
    }
    assert indexes[..|indexes|] == indexes;
  }

  /** The first j gaps are replaced by indexes. */
  ghost predicate ReadTo(gaps: seq<nat>, indexes: seq<nat>, j: nat, offset: nat) {
    && j <= |gaps| == |indexes| && indexes[j..] == gaps[j..]
    && Indexes(gaps[..j]) == Some(indexes[..j]) && offset == After(indexes[..j])
  }

  lemma ReadStart(gaps: seq<nat>)
    ensures ReadTo(gaps, gaps, 0, 0)
  {
  }

  lemma ReadStep(gaps: seq<nat>, indexes: seq<nat>, j: nat, offset: nat)
    requires ReadTo(gaps, indexes, j, offset) && j < |gaps| && gaps[j] <= MAX_UINT16
    ensures indexes[j] == gaps[j]
    ensures gaps[j] + offset > MAX_UINT16 ==> Indexes(gaps[..j + 1]) == None
    ensures var index := gaps[j] + offset;
            index <= MAX_UINT16 ==> ReadTo(gaps, indexes[j := index], j + 1, Uint16(index + 1))
  {
    hide Indexes;
    assert indexes[j] == indexes[j..][0] == gaps[j..][0] == gaps[j];
    assert gaps[..j + 1] == gaps[..j] + [gaps[j]];
    IndexesStep(gaps[..j], gaps[j]);
    var next := indexes[j := gaps[j] + offset];
    assert next[..j + 1] == indexes[..j] + [gaps[j] + offset];
    assert next[j + 1..] == indexes[j..][1..] == gaps[j..][1..] == gaps[j + 1..];
  }

  method ReadIndexes(gaps: seq<nat>) returns (r: Option<seq<nat>>)
    ensures r == Indexes(gaps)
  {
    hide Indexes, ReadTo;
    for i := 0 to |gaps|
      invariant forall k :: 0 <= k < i ==> gaps[k] <= MAX_UINT16
    {
      if gaps[i] > MAX_UINT16 {
        Overflow(gaps, i + 1, |gaps|);
        return None;
      }
    }
    var indexes: seq<nat>, offset: nat := gaps, 0;
    ReadStart(gaps);
    for j := 0 to |gaps|
      invariant |indexes| == |gaps| && ReadTo(gaps, indexes, j, offset)
    {
      ReadStep(gaps, indexes, j, offset);
      if indexes[j] + offset > MAX_UINT16 {
        Overflow(gaps, j + 1, |gaps|);
        return None;
      }
      indexes := indexes[j := indexes[j] + offset];
      offset := Uint16(indexes[j] + 1);
    }
    ReadAll(gaps, indexes, offset);
    r := Some(indexes);
  }

  lemma ReadAll(gaps: seq<nat>, indexes: seq<nat>, offset: nat)
    requires ReadTo(gaps, indexes, |gaps|, offset)
    ensures Indexes(gaps) == Some(indexes)
  {
    assert gaps[..|gaps|] == gaps && indexes[..|gaps|] == indexes;
  }

  lemma {:induction false} Overflow(gaps: seq<nat>, i: nat, n: nat)
    requires 0 < i <= n <= |gaps|
    requires gaps[i - 1] > MAX_UINT16 || Indexes(gaps[..i]) == None
    ensures Indexes(gaps) == None
    decreases |gaps| - i
  {
    assert gaps[..i][..i - 1] == gaps[..i - 1];
    assert Indexes(gaps[..i]) == None;
    if i == |gaps| { assert gaps[..i] == gaps; }
    else {
      assert gaps[..i + 1][..i] == gaps[..i];
      Overflow(gaps, i + 1, |gaps|);
    }
  }

  lemma {:induction false} StopsThere(f: Fill, ids: map<nat, nat>, shortId: nat -> nat, pool: seq<(nat, Tx)>,
                                      extra: bool, i: nat, n: nat)
    requires 0 < i <= n <= |pool| && Offers(f, ids, shortId, pool, extra, i).count == |ids|
    ensures Offers(f, ids, shortId, pool, extra, n) == Offers(f, ids, shortId, pool, extra, i)
    decreases n
  {
    if i < n { StopsThere(f, ids, shortId, pool, extra, i, n - 1); }
  }

  // ---------- the whole exchange ----------

  /** The answer to a request: the transactions asked for. */
  method Answer(vtx: seq<Tx>, indexes: seq<nat>) returns (r: Option<seq<Tx>>)
    ensures r.Some? <==> forall i :: 0 <= i < |indexes| ==> indexes[i] < |vtx|
    ensures r.Some? ==> |r.value| == |indexes| && forall i :: 0 <= i < |indexes| ==> r.value[i] == vtx[indexes[i]]
  {
    var txn: seq<Tx> := [];
    for i := 0 to |indexes|
      invariant |txn| == i && forall k :: 0 <= k < i ==> indexes[k] < |vtx| && txn[k] == vtx[indexes[k]]
    {
      if indexes[i] >= |vtx| { return None; }
      txn := txn + [vtx[indexes[i]]];
    }
    r := Some(txn);
  }

  method Request(block: PartiallyDownloadedBlock) returns (indexes: seq<nat>)
    requires block.header != 0
    ensures indexes == Empties(block.txnAvailable, |block.txnAvailable|)
  {
    indexes := [];
    for i := 0 to |block.txnAvailable|
      invariant indexes == Empties(block.txnAvailable, i)
    {
      var b := block.IsTxAvailable(i);
      if !b { indexes := indexes + [i]; }
    }
  }

  /** Slots that hold only what belongs there, completed from the block itself, are the block. */
  lemma CompletedIsBlock(slots: Slots, vtx: seq<Tx>, missing: seq<Tx>, block: seq<Tx>)
    requires Right(slots, vtx) && Completed(slots, missing, block)
    requires |missing| == |Empties(slots, |slots|)| && forall i :: 0 <= i < |missing| ==>
               missing[i] == vtx[Empties(slots, |slots|)[i]]
    ensures block == vtx
  {
    var empties := Empties(slots, |slots|);
    forall k | 0 <= k < |vtx| ensures block[k] == vtx[k] {
      if SlotAt(slots, k) == None {
        EmptiesHas(slots, |slots|, k);
        var i :| 0 <= i < |empties| && empties[i] == k;
        assert block[empties[i]] == missing[i];
      }
    }
  }

  function IdOf(vtx: seq<Tx>, key: Tx -> nat, shortId: nat -> nat, i: nat): nat
    requires i < |vtx|
  {
    shortId(key(vtx[i]))
  }

  /** A pool transaction with the short id of a block transaction is that transaction. */
  ghost predicate Honest(vtx: seq<Tx>, key: Tx -> nat, shortId: nat -> nat, pool: seq<(nat, Tx)>) {
    forall k, i :: 0 <= k < |pool| && 1 <= i < |vtx| && IdOf(vtx, key, shortId, i) == shortId(pool[k].0) ==>
          pool[k].1 == vtx[i]
  }

  ghost predicate Distinct(ids: seq<nat>) {
    forall i, j :: 0 <= i < j < |ids| ==> ids[i] != ids[j]
  }

  lemma {:induction false} IdMapSize(shortIds: seq<nat>, empties: seq<nat>, n: nat)
    requires n <= |shortIds| <= |empties| && Distinct(shortIds)
    ensures |IdMap(shortIds, empties, n)| == n
    ensures forall id :: id in IdMap(shortIds, empties, n) ==> exists i :: 0 <= i < n && shortIds[i] == id
  {
    hide Uint16;
    if n > 0 {
      IdMapSize(shortIds, empties, n - 1);
      var ids := IdMap(shortIds, empties, n - 1);
      var id := shortIds[n - 1];
      assert id !in ids;
      assert ids[id := Uint16(empties[n - 1])].Keys == ids.Keys + {id};
    }
  }

  /** Slot 0 of the sent block is filled; the i-th short id belongs in slot i + 1. */
  lemma CompactSlots(m: Message, tx: Tx)
    requires m.prefilled == [Prefilled(0, tx)] && !tx.isNull
    requires m.header != 0 && TxCount(m) <= MAX_BLOCK_BASE_SIZE / MIN_TRANSACTION_BASE_SIZE
    ensures !Invalid(m)
    ensures Base(m) == seq(TxCount(m), _ => None)[0 := Some(tx)]
  {
    assert Position(m.prefilled, 0) == 0;
    assert WellPlaced(m, 0);
    assert Placed(m, 1) == Placed(m, 0)[0 := Some(tx)];
  }

  lemma {:induction false} AfterFirst(slots: Slots, n: nat)
    requires 0 < n <= |slots| && slots[0].Some? && forall k :: 0 < k < |slots| ==> SlotAt(slots, k) == None
    ensures |Empties(slots, n)| == n - 1
    ensures forall i :: 0 <= i < n - 1 ==> Empties(slots, n)[i] == i + 1
  {
    if n > 1 {
      AfterFirst(slots, n - 1);
      EmptiesStep(slots, n - 1);
      assert SlotAt(slots, n - 1) == None;
    } else {
      EmptiesStep(slots, 0);
    }
  }

  /** Short ids of an honest pool lead to the right slots. */
  lemma HonestAt(vtx: seq<Tx>, key: Tx -> nat, shortId: nat -> nat, pool: seq<(nat, Tx)>, k: nat, i: nat)
    requires Honest(vtx, key, shortId, pool) && k < |pool| && 1 <= i < |vtx|
    ensures shortId(key(vtx[i])) == shortId(pool[k].0) ==> pool[k].1 == vtx[i]
  {
    assert IdOf(vtx, key, shortId, i) == shortId(key(vtx[i]));
  }

  lemma HonestLeads(m: Message, vtx: seq<Tx>, key: Tx -> nat, shortId: nat -> nat, pool: seq<(nat, Tx)>, k: nat)
    requires 0 < |vtx| <= MAX_UINT16 + 1 && m.header != 0 && !vtx[0].isNull && m == Compact(m.header, vtx, key, shortId)
    requires Honest(vtx, key, shortId, pool) && k < |pool|
    ensures !Invalid(m) && Leads(Ids(m), shortId(pool[k].0), pool[k].1, vtx)
  {
    hide Placed, IdMap, Empties, Uint16, WellPlaced, Position, Invalid, Honest;
    CompactSlots(m, vtx[0]);
    EnoughSlots(m);
    var n, ids, id := TxCount(m), Ids(m), shortId(pool[k].0);
    AfterFirst(Base(m), n);
    var empties := Empties(Base(m), n);
    if id in ids {
      IdMapIs(m.shortIds, empties, |m.shortIds|, id);
      var i :| 0 <= i < |m.shortIds| && m.shortIds[i] == id && ids[id] == Uint16(empties[i]);
      assert empties[i] == i + 1;
      HonestAt(vtx, key, shortId, pool, k, i + 1);
    }
  }

  /** Whatever the pools hold, with no collision every filled slot is right. */
  lemma ReceivedRight(m: Message, vtx: seq<Tx>, key: Tx -> nat, shortId: nat -> nat, pool: seq<(nat, Tx)>,
                      extra: seq<(nat, Tx)>)
    requires 0 < |vtx| <= MAX_UINT16 + 1 && m.header != 0 && !vtx[0].isNull && m == Compact(m.header, vtx, key, shortId)
    requires Honest(vtx, key, shortId, pool) && Honest(vtx, key, shortId, extra)
    ensures !Invalid(m) && Right(Received(m, shortId, pool, extra).slots, vtx)
  {
    hide Placed, IdMap, Empties, Uint16, WellPlaced, Position, Invalid, Offers, Ids, Honest, Leads;
    CompactSlots(m, vtx[0]);
    forall k | 0 <= k < |pool|
        ensures Leads(Ids(m), shortId(pool[k].0), pool[k].1, vtx) { HonestLeads(m, vtx, key, shortId, pool, k); }
    forall k | 0 <= k < |extra|
        ensures Leads(Ids(m), shortId(extra[k].0), extra[k].1, vtx) { HonestLeads(m, vtx, key, shortId, extra, k); }
    var f := Fill(Base(m), {}, 0);
    OffersRight(f, vtx, Ids(m), shortId, pool, false, |pool|);
    OffersRight(Offers(f, Ids(m), shortId, pool, false, |pool|), vtx, Ids(m), shortId, extra, true, |extra|);
  }

  /** Without a repeated short id, each leads to its own slot, in 16 bits. */
  lemma {:induction false} IdMapAt(shortIds: seq<nat>, empties: seq<nat>, n: nat, i: nat)
    requires i < n <= |shortIds| <= |empties| && Distinct(shortIds)
    ensures Lookup(IdMap(shortIds, empties, n), shortIds[i]) == Some(Uint16(empties[i]))
    decreases n
  {
    hide Uint16;
    if i < n - 1 {
      IdMapAt(shortIds, empties, n - 1, i);
      assert shortIds[i] != shortIds[n - 1];
    }
  }

  /** In a block that is too long, transaction 65536 is taken for the coinbase. */
  lemma TakenForFirst(m: Message, vtx: seq<Tx>, key: Tx -> nat, shortId: nat -> nat)
    requires |vtx| > MAX_UINT16 + 1 && !Invalid(m) && m == Compact(m.header, vtx, key, shortId) && Distinct(m.shortIds)
    ensures Lookup(Ids(m), IdOf(vtx, key, shortId, MAX_UINT16 + 1)) == Some(0)
  {
    hide Placed, IdMap, Empties, WellPlaced, Position, Distinct;
    NotNull(m);
    CompactSlots(m, vtx[0]);
    EnoughSlots(m);
    AfterFirst(Base(m), TxCount(m));
    var empties := Empties(Base(m), TxCount(m));
    IdMapAt(m.shortIds, empties, |m.shortIds|, MAX_UINT16);
    assert m.shortIds[MAX_UINT16] == IdOf(vtx, key, shortId, MAX_UINT16 + 1);
    assert empties[MAX_UINT16] == MAX_UINT16 + 1;
  }

  lemma TooLong(m: Message, vtx: seq<Tx>, key: Tx -> nat, shortId: nat -> nat, pool: seq<(nat, Tx)>)
    requires |vtx| > MAX_UINT16 + 1 && !Invalid(m) && m == Compact(m.header, vtx, key, shortId) && Distinct(m.shortIds)
    requires vtx[MAX_UINT16 + 1] != vtx[0] && pool == [(key(vtx[MAX_UINT16 + 1]), vtx[MAX_UINT16 + 1])]
    ensures Honest(vtx, key, shortId, pool) && !Right(Received(m, shortId, pool, []).slots, vtx)
  {
    hide Placed, IdMap, Empties, WellPlaced, Position, Ids, Invalid;
    var tx := vtx[MAX_UINT16 + 1];
    TakenForFirst(m, vtx, key, shortId);
    forall i | 1 <= i < |vtx| && IdOf(vtx, key, shortId, i) == shortId(pool[0].0) ensures vtx[i] == tx {
      assert m.shortIds[i - 1] == m.shortIds[MAX_UINT16];
    }
    var f := Fill(Base(m), {}, 0);
    assert Offers(f, Ids(m), shortId, pool, false, 1) == Offer(f, Ids(m), shortId(pool[0].0), tx, false);
    assert SlotAt(Received(m, shortId, pool, []).slots, 0) == Some(tx);
  }

  /** Whether every pool without collisions fills only right slots: exactly in blocks whose
      positions fit in 16 bits. */
  lemma RightForAllPools(m: Message, vtx: seq<Tx>, key: Tx -> nat, shortId: nat -> nat)
    requires 0 < |vtx| && !Invalid(m) && m == Compact(m.header, vtx, key, shortId) && Distinct(m.shortIds)
    requires forall i :: 0 < i < |vtx| ==> vtx[i] != vtx[0]
    ensures (forall pool, extra :: Honest(vtx, key, shortId, pool) && Honest(vtx, key, shortId, extra) ==>
               Right(Received(m, shortId, pool, extra).slots, vtx))
            <==> |vtx| <= MAX_UINT16 + 1
  {
    hide Received, Right, Honest;
    if |vtx| <= MAX_UINT16 + 1 {
      forall pool, extra | Honest(vtx, key, shortId, pool) && Honest(vtx, key, shortId, extra)
        ensures Right(Received(m, shortId, pool, extra).slots, vtx)
      {
        NotNull(m);
        ReceivedRight(m, vtx, key, shortId, pool, extra);
      }
    } else {
      var pool := [(key(vtx[MAX_UINT16 + 1]), vtx[MAX_UINT16 + 1])];
      TooLong(m, vtx, key, shortId, pool);
      NoneHonest(vtx, key, shortId);
    }
  }

  lemma NotNull(m: Message)
    requires !Invalid(m) && m.prefilled != []
    ensures m.header != 0 && !m.prefilled[0].tx.isNull
  {
    assert WellPlaced(m, 0);
  }

  lemma NoneHonest(vtx: seq<Tx>, key: Tx -> nat, shortId: nat -> nat)
    ensures Honest(vtx, key, shortId, [])
  {
  }

  /** Asks for what is missing and puts the block together. */
  method Fetch(receiver: PartiallyDownloadedBlock, vtx: seq<Tx>, check: seq<Tx> -> Verdict)
      returns (status: Status, block: seq<Tx>)
    requires receiver.header != 0 && |receiver.txnAvailable| == |vtx| <= MAX_UINT16 + 1
    modifies receiver
    ensures Right(old(receiver.txnAvailable), vtx) ==> block == vtx && status == Outcome(check(vtx))
  {
    hide Right, Completed, Empties, Indexes, Gaps;
    ghost var slots := receiver.txnAvailable;
    var indexes := Request(receiver);
    var gaps := WriteIndexes(indexes);
    var asked := ReadIndexes(gaps);
    IndexesRoundTrip(indexes);
    var answer := Answer(vtx, asked.value);
    status, block := receiver.FillBlock(answer.value, check);
    if Right(slots, vtx) { CompletedIsBlock(slots, vtx, answer.value, block); }
  }

  lemma CompactShape(header: nat, vtx: seq<Tx>, key: Tx -> nat, shortId: nat -> nat)
    requires 0 < |vtx| <= MAX_UINT16 + 1 && header != 0 && !vtx[0].isNull
    ensures var m := Compact(header, vtx, key, shortId);
            !Invalid(m) && OffsetFits(m) && m.header == header && |m.shortIds| == |vtx| - 1
                && TxCount(m) == |vtx|
  {
    CompactSlots(Compact(header, vtx, key, shortId), vtx[0]);
  }

  lemma AllMapped(m: Message)
    requires !Invalid(m) && Distinct(m.shortIds)
    ensures |Ids(m)| == |m.shortIds|
  {
    hide Invalid, Placed, Empties, IdMap, Distinct;
    EnoughSlots(m);
    IdMapSize(m.shortIds, Empties(Base(m), TxCount(m)), |m.shortIds|);
  }

  /** Sending a block: if the short ids of its transactions differ from each other and from
      those of other pool transactions, the receiver ends up with exactly that block. */
  method Relay(header: nat, vtx: seq<Tx>, useWitnessHash: bool, shortId: nat -> nat,
               pool: seq<(nat, Tx)>, extra: seq<(nat, Tx)>, crowded: nat -> bool, check: seq<Tx> -> Verdict)
    returns (status: Status, block: seq<Tx>)
    requires header != 0 && 0 < |vtx| <= MAX_UINT16 + 1 && !vtx[0].isNull
    ensures && Distinct(Compact(header, vtx, Key(useWitnessHash), shortId).shortIds)
            && Honest(vtx, Key(useWitnessHash), shortId, pool) && Honest(vtx, Key(useWitnessHash), shortId, extra)
            && (forall i :: 0 <= i < |vtx| - 1 ==> !crowded(i))
            ==> block == vtx && status == Outcome(check(vtx))
  {
    hide *;
    ghost var key := Key(useWitnessHash);
    var m := CompactBlock(header, vtx, useWitnessHash, shortId);
    CompactShape(header, vtx, key, shortId);
    var receiver := new PartiallyDownloadedBlock();
    status := receiver.InitData(m, shortId, pool, extra, crowded);
    if Distinct(m.shortIds) { AllMapped(m); }
    if status != OK { return status, []; }
    if Honest(vtx, key, shortId, pool)
        && Honest(vtx, key, shortId, extra) { ReceivedRight(m, vtx, key, shortId, pool, extra); }
    status, block := Fetch(receiver, vtx, check);
  }
}
