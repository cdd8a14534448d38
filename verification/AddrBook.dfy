/** The address manager on values: one set of entries kept in six coupled structures
    (id map, address map, random-order vector, two bucket tables and two counters), what
    its consistency check asks of them, and every operation as a function on the whole
    state.  Bucket hashing is opaque; random draws and the clock are parameters. */
module AddrBook {

  const TRIED_BUCKETS := 256
  const NEW_BUCKETS := 1024
  const BUCKET_SIZE := 64
  const NEW_BUCKETS_PER_ADDRESS := 8
  const HORIZON_DAYS := 30
  const RETRIES := 3
  const MAX_FAILURES := 10
  const MIN_FAIL_DAYS := 7
  const GETADDR_MAX_PCT := 23
  const GETADDR_MAX := 2500

  type TriedBucket = b: int | 0 <= b < TRIED_BUCKETS
  type NewBucket = b: int | 0 <= b < NEW_BUCKETS
  type Slot = i: int | 0 <= i < BUCKET_SIZE

  datatype NetAddr = NetAddr(ip: seq<bv8>)
  datatype Service = Service(net: NetAddr, port: nat)

  /** An announced address: where, which service bits it sets, when it was last seen. */
  datatype Address = Address(service: Service, services: set<nat>, time: int)

  /** The bucket hashes under one key, left opaque. */
  datatype Hasher = Hasher(
    triedBucket: Service -> TriedBucket,
    newBucket: (Service, NetAddr) -> NewBucket,
    triedPos: (int, Service) -> Slot,
    newPos: (int, Service) -> Slot)

  datatype Info = Info(
    service: Service, services: set<nat>, time: int, source: NetAddr,
    lastTry: int, lastCountAttempt: int, lastSuccess: int, attempts: int,
    refCount: int, inTried: bool, randomPos: int)
  {
    /** Bad enough to be dropped at time `now`. */
    predicate IsTerrible(now: int) {
      !(lastTry != 0 && lastTry >= now - 60) &&
      (|| time > now + 10 * 60
       || time == 0 || now - time > HORIZON_DAYS * 24 * 60 * 60
       || (lastSuccess == 0 && attempts >= RETRIES)
       || (now - lastSuccess > MIN_FAIL_DAYS * 24 * 60 * 60 && attempts >= MAX_FAILURES))
    }
  }

  type Infos = map<int, Info>

  /** A bucket table as a value: its occupied cells, each with the id in it. */
  type Cells = map<(int, int), int>

  /** The id in a cell, or -1. */
  function IdAt(cells: Cells, c: (int, int)): int {
    if c in cells then cells[c] else -1
  }

  function IdOf(addrs: map<NetAddr, int>, a: NetAddr): int {
    if a in addrs then addrs[a] else -1
  }

  function Pick(random: seq<int>, k: nat): int
    requires k < |random|
  {
    random[k]
  }

  ghost function CellsOf(cells: Cells, id: int): set<(int, int)> {
    set c | c in cells && cells[c] == id
  }

  ghost function NewIds(infos: Infos): set<int> {
    set id | id in infos && !infos[id].inTried
  }

  ghost function TriedIds(infos: Infos): set<int> {
    set id | id in infos && infos[id].inTried
  }

  // ---------- the consistency check, as a predicate ----------

  /** The whole state as one value. */
  datatype Book = Book(
    h: Hasher, next: int, infos: Infos, addrs: map<NetAddr, int>, random: seq<int>,
    tried: Cells, nTried: int, cells: Cells, nNew: int, lastGood: int)

  function TriedCell(h: Hasher, s: Service): (int, int) {
    var b := h.triedBucket(s);
    (b, h.triedPos(b, s))
  }

  function NewCell(h: Hasher, s: Service, source: NetAddr): (int, int) {
    var b := h.newBucket(s, source);
    (b, h.newPos(b, s))
  }

  ghost predicate Numbered(infos: Infos, next: int) {
    0 <= next && forall id :: id in infos ==> 0 <= id < next
  }

  /** addrs is the inverse of the addresses recorded in infos. */
  ghost predicate Addressed(infos: Infos, addrs: map<NetAddr, int>) {
    && (forall id :: id in infos ==> infos[id].service.net in addrs && IdOf(addrs, infos[id].service.net) == id)
    && (forall a :: a in addrs ==> IdOf(addrs, a) in infos && infos[IdOf(addrs, a)].service.net == a)
  }

  /** random lists every id once, at the position its entry records. */
  ghost predicate Ordered(infos: Infos, random: seq<int>) {
    && (forall id :: id in infos ==> 0 <= infos[id].randomPos < |random| && Pick(random, infos[id].randomPos) == id)
    && (forall k :: 0 <= k < |random| ==> Pick(random, k) in infos && infos[Pick(random, k)].randomPos == k)
  }

  /** Tried entries sit exactly at their hashed cell, and nothing else does. */
  ghost predicate TriedPlaced(h: Hasher, infos: Infos, tried: Cells) {
    && (forall c :: c in tried ==>
          && IdAt(tried, c) in infos && infos[IdAt(tried, c)].inTried
          && TriedCell(h, infos[IdAt(tried, c)].service) == c)
    && (forall id :: id in infos && infos[id].inTried ==>
          && TriedCell(h, infos[id].service) in tried
          && IdAt(tried, TriedCell(h, infos[id].service)) == id)
  }

  /** Every occupied new cell holds an untried entry at that bucket's hashed position. */
  ghost predicate NewPlaced(h: Hasher, infos: Infos, cells: Cells) {
    forall c :: c in cells ==>
      && IdAt(cells, c) in infos && !infos[IdAt(cells, c)].inTried
      && h.newPos(c.0, infos[IdAt(cells, c)].service) == c.1
  }

  /** nRefCount counts the cells; only the entries in `zero` may have none. */
  ghost predicate RefsCounted(infos: Infos, cells: Cells, zero: set<int>) {
    forall id :: id in infos ==>
      && infos[id].refCount == |CellsOf(cells, id)| <= NEW_BUCKETS_PER_ADDRESS
      && (infos[id].inTried ==> infos[id].refCount == 0)
      && (!infos[id].inTried && id !in zero ==> infos[id].refCount >= 1)
  }

  /** The counters; entries in `out` are between the two tables. */
  ghost predicate Counted(infos: Infos, nTried: int, nNew: int, out: set<int>) {
    nTried == |TriedIds(infos)| && nNew == |NewIds(infos) - out|
  }

  /** Everything the consistency check asks of the structures; the times are AddrTimes' subject.
      Inside an operation the entries of `zero` may be without a cell and those of `out` missing
      from the counters. */
  ghost predicate Consistent(v: Book, zero: set<int>, out: set<int>) {
    && Numbered(v.infos, v.next) && Addressed(v.infos, v.addrs) && Ordered(v.infos, v.random)
    && TriedPlaced(v.h, v.infos, v.tried) && NewPlaced(v.h, v.infos, v.cells)
    && RefsCounted(v.infos, v.cells, zero) && Counted(v.infos, v.nTried, v.nNew, out)
  }

  ghost predicate Sound(v: Book) {
    Consistent(v, {}, {})
  }

  // ---------- changes that keep every entry where it is ----------
  //
  // The operations below are functions on the state.  Each is total: where the
  // invariant rules a case out (an id without an entry, say) it returns its argument.


  /** Same ids, at the same addresses, on the same side. */
  ghost predicate Alike(a: Infos, b: Infos) {
    && (forall id :: id in b ==> id in a)
    && (forall id :: id in a ==> id in b && a[id].service == b[id].service && a[id].inTried == b[id].inTried)
  }

  lemma AlikeKeeps(v: Book, infos: Infos, out: set<int>)
    requires Numbered(v.infos, v.next) && Addressed(v.infos, v.addrs) && TriedPlaced(v.h, v.infos, v.tried)
    requires NewPlaced(v.h, v.infos, v.cells) && Counted(v.infos, v.nTried, v.nNew, out) && Alike(infos, v.infos)
    ensures Numbered(infos, v.next) && Addressed(infos, v.addrs) && TriedPlaced(v.h, infos, v.tried)
    ensures NewPlaced(v.h, infos, v.cells) && Counted(infos, v.nTried, v.nNew, out)
  {
    AlikePlaced(v, infos, v.nTried, v.nNew, out);
  }

  lemma AlikePlaced(v: Book, infos: Infos, nTried: int, nNew: int, out: set<int>)
    requires TriedPlaced(v.h, v.infos, v.tried) && NewPlaced(v.h, v.infos, v.cells)
    requires Counted(v.infos, nTried, nNew, out) && Alike(infos, v.infos)
    ensures TriedPlaced(v.h, infos, v.tried) && NewPlaced(v.h, infos, v.cells) && Counted(infos, nTried, nNew, out)
  {
    assert NewIds(infos) == NewIds(v.infos) by { assert forall id :: id in NewIds(infos) <==> id in NewIds(v.infos); }
    assert TriedIds(infos) == TriedIds(v.infos) by {
      assert forall id :: id in TriedIds(infos) <==> id in TriedIds(v.infos);
    }
  }

  lemma OrderedUpdate(infos: Infos, random: seq<int>, id: int, info: Info)
    requires Ordered(infos, random) && id in infos && info.randomPos == infos[id].randomPos
    ensures Ordered(infos[id := info], random)
  {
  }

  lemma RefsUpdate(infos: Infos, cells: Cells, zero: set<int>, id: int, info: Info)
    requires RefsCounted(infos, cells, zero) && id in infos
    requires info.inTried == infos[id].inTried && info.refCount == infos[id].refCount
    ensures RefsCounted(infos[id := info], cells, zero)
  {
  }

  /** An entry with other statistics. */
  predicate Restated(info: Info, was: Info) {
    info == was.(services := info.services, time := info.time, lastTry := info.lastTry,
                 lastCountAttempt := info.lastCountAttempt, lastSuccess := info.lastSuccess, attempts := info.attempts)
  }

  function Touch(v: Book, id: int, info: Info): Book {
    v.(infos := v.infos[id := info])
  }

  lemma TouchKeeps(v: Book, id: int, info: Info)
    requires Sound(v) && id in v.infos && Restated(info, v.infos[id])
    ensures Sound(Touch(v, id, info))
  {
    hide Numbered, Addressed, Ordered, TriedPlaced, NewPlaced, RefsCounted, Counted;
    AlikeKeeps(v, v.infos[id := info], {});
    OrderedUpdate(v.infos, v.random, id, info);
    RefsUpdate(v.infos, v.cells, {}, id, info);
  }

  // ---------- the random vector ----------

  predicate CanSwap(v: Book, p: int, q: int) {
    0 <= p < |v.random| && 0 <= q < |v.random| && v.random[p] in v.infos && v.random[q] in v.infos
  }

  function Swap(v: Book, p: int, q: int): Book {
    if p == q || !CanSwap(v, p, q) then v else
      var id1, id2 := v.random[p], v.random[q];
      v.(infos := v.infos[id1 := v.infos[id1].(randomPos := q)][id2 := v.infos[id2].(randomPos := p)],
         random := v.random[p := id2][q := id1])
  }

  /** The same entries up to their random position. */
  ghost predicate OnlyMoved(a: Infos, b: Infos) {
    && (forall id :: id in b ==> id in a)
    && (forall id :: id in a ==> id in b && a[id] == b[id].(randomPos := a[id].randomPos))
  }

  lemma SwapOrdered(v: Book, p: nat, q: nat)
    requires Ordered(v.infos, v.random) && CanSwap(v, p, q)
    ensures Ordered(Swap(v, p, q).infos, Swap(v, p, q).random)
    ensures OnlyMoved(Swap(v, p, q).infos, v.infos)
    ensures Swap(v, p, q).infos[v.random[p]].randomPos == q
  {
    if p == q { assert Pick(v.random, p) == v.random[p]; return; }
    var id1, id2 := Pick(v.random, p), Pick(v.random, q);
    var w := Swap(v, p, q);
    forall k | 0 <= k < |w.random| ensures Pick(w.random, k) in w.infos && w.infos[Pick(w.random, k)].randomPos == k {
      if k != p && k != q { assert Pick(w.random, k) == Pick(v.random, k); }
    }
    forall id | id in w.infos ensures 0 <= w.infos[id].randomPos < |w.random|
        && Pick(w.random, w.infos[id].randomPos) == id {
      if id != id1 && id != id2 { assert Pick(v.random, v.infos[id].randomPos) == id; }
    }
  }

  lemma SwapKeeps(v: Book, zero: set<int>, out: set<int>, p: nat, q: nat)
    requires Consistent(v, zero, out) && p < |v.random| && q < |v.random|
    ensures CanSwap(v, p, q)
    ensures Consistent(Swap(v, p, q), zero, out) && OnlyMoved(Swap(v, p, q).infos, v.infos)
    ensures Swap(v, p, q).infos[v.random[p]].randomPos == q
  {
    hide Numbered, Addressed, TriedPlaced, NewPlaced, Counted;
    assert Pick(v.random, p) in v.infos && Pick(v.random, q) in v.infos;
    SwapOrdered(v, p, q);
    var w := Swap(v, p, q);
    assert Alike(w.infos, v.infos);
    AlikeKeeps(v, w.infos, out);
    RefsMoved(v.infos, w.infos, v.cells, zero);
  }

  lemma RefsMoved(infos: Infos, moved: Infos, cells: Cells, zero: set<int>)
    requires RefsCounted(infos, cells, zero) && OnlyMoved(moved, infos)
    ensures RefsCounted(moved, cells, zero)
  {
  }

  // ---------- creating and deleting entries ----------

  function NewInfo(addr: Address, source: NetAddr, pos: nat): Info {
    Info(addr.service, addr.services, addr.time, source, 0, 0, 0, 0, 0, false, pos)
  }

  /** A fresh id, known by address but in no table and not counted yet. */
  function Create(v: Book, addr: Address, source: NetAddr): Book {
    v.(next := v.next + 1,
       infos := v.infos[v.next := NewInfo(addr, source, |v.random|)],
       addrs := v.addrs[addr.service.net := v.next],
       random := v.random + [v.next])
  }

  lemma CreateKeeps(v: Book, addr: Address, source: NetAddr)
    requires Sound(v) && addr.service.net !in v.addrs
    ensures v.next !in v.infos && Consistent(Create(v, addr, source), {v.next}, {v.next})
  {
    hide Addressed, Ordered, TriedPlaced, NewPlaced, RefsCounted, Counted;
    var info := NewInfo(addr, source, |v.random|);
    OrderedAppend(v.infos, v.random, v.next, info);
    AddressedCreate(v.infos, v.addrs, v.next, info);
    PlacedCreate(v, {}, v.next, info);
    assert {} + {v.next} == {v.next};
    CountedCreate(v.infos, v.nTried, v.nNew, v.next, info);
  }

  lemma OrderedAppend(infos: Infos, random: seq<int>, id: int, info: Info)
    requires Ordered(infos, random) && id !in infos && info.randomPos == |random|
    ensures Ordered(infos[id := info], random + [id])
  {
    var r := random + [id];
    forall k | 0 <= k < |r| ensures Pick(r, k) in infos[id := info] && infos[id := info][Pick(r, k)].randomPos == k {
      if k < |random| { assert Pick(r, k) == Pick(random, k); }
    }
    forall k | k in infos ensures Pick(r, infos[k].randomPos) == k {
      assert Pick(random, infos[k].randomPos) == k;
    }
  }

  lemma AddressedCreate(infos: Infos, addrs: map<NetAddr, int>, id: int, info: Info)
    requires Addressed(infos, addrs) && id !in infos && info.service.net !in addrs
    ensures Addressed(infos[id := info], addrs[info.service.net := id])
  {
  }

  lemma PlacedCreate(v: Book, zero: set<int>, id: int, info: Info)
    requires TriedPlaced(v.h, v.infos, v.tried) && NewPlaced(v.h, v.infos, v.cells)
             && RefsCounted(v.infos, v.cells, zero)
    requires id !in v.infos && id != -1 && info.refCount == 0 && !info.inTried
    ensures var infos := v.infos[id := info];
            TriedPlaced(v.h, infos, v.tried) && NewPlaced(v.h, infos, v.cells)
                && RefsCounted(infos, v.cells, zero + {id})
  {
    assert forall c :: c in v.cells ==> IdAt(v.cells, c) != id;
    assert forall c :: c in CellsOf(v.cells, id) <==> c in {};
  }

  lemma CountedCreate(infos: Infos, nTried: int, nNew: int, id: int, info: Info)
    requires Counted(infos, nTried, nNew, {}) && id !in infos && !info.inTried
    ensures Counted(infos[id := info], nTried, nNew, {id})
  {
    var more := infos[id := info];
    assert NewIds(more) - {id} == NewIds(infos) - {} by {
      assert forall k :: k in NewIds(more) - {id} <==> k in NewIds(infos) - {};
    }
    assert TriedIds(more) == TriedIds(infos) by { assert forall k :: k in TriedIds(more) <==> k in TriedIds(infos); }
  }

  predicate CanDelete(v: Book, id: int) {
    && id in v.infos && 0 <= v.infos[id].randomPos < |v.random|
    && v.random[v.infos[id].randomPos] == id && v.random[|v.random| - 1] in v.infos
  }

  /** Forgets an entry: it is swapped to the end of the random vector, which is then cut. */
  function Delete(v: Book, id: int): Book {
    if !CanDelete(v, id) then v else
    var w := Swap(v, v.infos[id].randomPos, |v.random| - 1);
    w.(random := w.random[..|w.random| - 1], addrs := v.addrs - {v.infos[id].service.net},
       infos := w.infos - {id}, nNew := v.nNew - 1)
  }

  lemma DeleteKeeps(v: Book, zero: set<int>, out: set<int>, id: int)
    requires Consistent(v, zero, out)
    requires id in v.infos && id !in out && !v.infos[id].inTried && v.infos[id].refCount == 0
    ensures CanDelete(v, id) && Consistent(Delete(v, id), zero - {id}, out)
    ensures OnlyMoved(Delete(v, id).infos, v.infos - {id})
  {
    hide Numbered, Addressed, Ordered, TriedPlaced, NewPlaced, RefsCounted, Counted;
    OrderedEnds(v.infos, v.random, id);
    SwapKeeps(v, zero, out, v.infos[id].randomPos, |v.random| - 1);
    var w := Swap(v, v.infos[id].randomPos, |v.random| - 1);
    OrderedDropLast(w.infos, w.random, id);
    AddressedForget(w.infos, w.addrs, id);
    PlacedForget(w, zero, out, id);
    NumberedForget(w, id);
  }

  lemma OrderedEnds(infos: Infos, random: seq<int>, id: int)
    requires Ordered(infos, random) && id in infos
    ensures 0 <= infos[id].randomPos < |random| && random[infos[id].randomPos] == id && random[|random| - 1] in infos
  {
    assert Pick(random, infos[id].randomPos) == id;
    assert Pick(random, |random| - 1) in infos;
  }

  lemma NumberedForget(v: Book, id: int)
    requires Numbered(v.infos, v.next)
    ensures Numbered(v.infos - {id}, v.next)
  {
  }

  lemma OrderedDropLast(infos: Infos, random: seq<int>, id: int)
    requires Ordered(infos, random) && id in infos && infos[id].randomPos == |random| - 1
    ensures Ordered(infos - {id}, random[..|random| - 1])
  {
    var r := random[..|random| - 1];
    forall k | 0 <= k < |r| ensures Pick(r, k) in infos - {id} && infos[Pick(r, k)].randomPos == k {
      assert Pick(r, k) == Pick(random, k);
    }
    forall k | k in infos - {id} ensures 0 <= infos[k].randomPos < |r| && Pick(r, infos[k].randomPos) == k {
      assert Pick(random, infos[k].randomPos) == k;
      assert Pick(random, |r|) == id;
    }
  }

  lemma AddressedForget(infos: Infos, addrs: map<NetAddr, int>, id: int)
    requires Addressed(infos, addrs) && id in infos
    ensures Addressed(infos - {id}, addrs - {infos[id].service.net})
  {
  }

  lemma PlacedForget(v: Book, zero: set<int>, out: set<int>, id: int)
    requires TriedPlaced(v.h, v.infos, v.tried) && NewPlaced(v.h, v.infos, v.cells)
    requires RefsCounted(v.infos, v.cells, zero) && Counted(v.infos, v.nTried, v.nNew, out)
    requires id in v.infos && id !in out && v.infos[id].refCount == 0 && !v.infos[id].inTried
    ensures var infos := v.infos - {id};
            && TriedPlaced(v.h, infos, v.tried) && NewPlaced(v.h, infos, v.cells)
            && RefsCounted(infos, v.cells, zero - {id}) && Counted(infos, v.nTried, v.nNew - 1, out)
  {
    hide Counted;
    assert CellsOf(v.cells, id) == {};
    assert forall c :: c in v.cells ==> c !in CellsOf(v.cells, id);
    CountForget(v.infos, v.nTried, v.nNew, out, id);
  }

  lemma CountForget(was: Infos, nTried: int, nNew: int, out: set<int>, id: int)
    requires Counted(was, nTried, nNew, out) && id in was && id !in out && !was[id].inTried
    ensures Counted(was - {id}, nTried, nNew - 1, out)
  {
    var infos := was - {id};
    assert NewIds(infos) - out == NewIds(was) - out - {id} by {
      assert forall k :: k in NewIds(infos) - out <==> k in NewIds(was) - out - {id};
    }
    assert id in NewIds(was) - out;
    assert TriedIds(infos) == TriedIds(was) by { assert forall k :: k in TriedIds(infos) <==> k in TriedIds(was); }
  }

  // ---------- references from the new table ----------

  /** One more cell refers to `id`. */
  function Refer(v: Book, id: int, c: (int, int)): Book {
    if id !in v.infos then v else
    v.(infos := v.infos[id := v.infos[id].(refCount := v.infos[id].refCount + 1)], cells := v.cells[c := id])
  }

  lemma ReferKeeps(v: Book, zero: set<int>, out: set<int>, c: (int, int), id: int)
    requires Consistent(v, zero, out)
    requires c !in v.cells && id in v.infos && !v.infos[id].inTried && v.infos[id].refCount < NEW_BUCKETS_PER_ADDRESS
    requires v.h.newPos(c.0, v.infos[id].service) == c.1
    ensures Consistent(Refer(v, id, c), zero - {id}, out)
  {
    hide Numbered, Addressed, Ordered, TriedPlaced, RefsCounted, Counted;
    var info := v.infos[id].(refCount := v.infos[id].refCount + 1);
    AlikeKeeps(v, v.infos[id := info], out);
    OrderedUpdate(v.infos, v.random, id, info);
    RefsRefer(v.infos, v.cells, zero, c, id, info);
  }

  lemma RefsRefer(infos: Infos, cells: Cells, zero: set<int>, c: (int, int), id: int, info: Info)
    requires RefsCounted(infos, cells, zero) && id in infos && !infos[id].inTried && c !in cells
    requires info == infos[id].(refCount := infos[id].refCount + 1) && infos[id].refCount < NEW_BUCKETS_PER_ADDRESS
    ensures RefsCounted(infos[id := info], cells[c := id], zero - {id})
  {
    var cells' := cells[c := id];
    forall k ensures CellsOf(cells', k) == if k == id then CellsOf(cells, id) + {c} else CellsOf(cells, k) {
      if k == id {
        assert forall x :: x in CellsOf(cells', k) <==> x in CellsOf(cells, k) + {c};
      } else {
        assert forall x :: x in CellsOf(cells', k) <==> x in CellsOf(cells, k);
      }
    }
    assert c !in CellsOf(cells, id);
  }

  /** A cell is emptied and its entry's count lowered. */
  function Unrefer(v: Book, c: (int, int)): Book {
    var id := IdAt(v.cells, c);
    if c !in v.cells || id !in v.infos then v else
    v.(infos := v.infos[id := v.infos[id].(refCount := v.infos[id].refCount - 1)], cells := v.cells - {c})
  }

  lemma UnreferKeeps(v: Book, zero: set<int>, out: set<int>, c: (int, int))
    requires Consistent(v, zero, out) && c in v.cells
    ensures v.cells[c] in v.infos && !v.infos[v.cells[c]].inTried && v.infos[v.cells[c]].refCount > 0
    ensures Consistent(Unrefer(v, c), zero + {v.cells[c]}, out)
  {
    hide Numbered, Addressed, Ordered, TriedPlaced, RefsCounted, Counted;
    var id := IdAt(v.cells, c);
    var info := v.infos[id].(refCount := v.infos[id].refCount - 1);
    RefsDrop(v.infos, v.cells, zero, c, id, info);
    AlikeKeeps(v, v.infos[id := info], out);
    OrderedUpdate(v.infos, v.random, id, info);
    assert NewPlaced(v.h, v.infos[id := info], v.cells - {c});
  }

  lemma RefsDrop(infos: Infos, cells: Cells, zero: set<int>, c: (int, int), id: int, info: Info)
    requires RefsCounted(infos, cells, zero) && c in cells && cells[c] == id && id in infos && !infos[id].inTried
    requires info == infos[id].(refCount := infos[id].refCount - 1)
    ensures infos[id].refCount > 0 && RefsCounted(infos[id := info], cells - {c}, zero + {id})
  {
    var cells' := cells - {c};
    forall k ensures CellsOf(cells', k) == if k == id then CellsOf(cells, id) - {c} else CellsOf(cells, k) {
      if k == id {
        assert forall x :: x in CellsOf(cells', k) <==> x in CellsOf(cells, k) - {c};
      } else {
        assert forall x :: x in CellsOf(cells', k) <==> x in CellsOf(cells, k);
      }
    }
    assert c in CellsOf(cells, id);
  }

  /** Empties a cell of the new table; an entry that loses its last cell is deleted. */
  function ClearNew(v: Book, c: (int, int)): Book {
    var id := IdAt(v.cells, c);
    var w := Unrefer(v, c);
    if c in v.cells && id in w.infos && w.infos[id].refCount == 0 then Delete(w, id) else w
  }

  /** Up to random positions, `a` is `b` where `id` lost a reference and perhaps its entry. */
  ghost predicate Unreferred(a: Infos, b: Infos, id: int) {
    && (forall k :: k in b && k != id ==> k in a && a[k] == b[k].(randomPos := a[k].randomPos))
    && (forall k :: k in a ==> k in b)
    && (id in a ==> id in b && a[id] == b[id].(randomPos := a[id].randomPos, refCount := b[id].refCount - 1))
  }

  lemma ClearNewKeeps(v: Book, zero: set<int>, out: set<int>, c: (int, int))
    requires Consistent(v, zero, out) && out <= zero
    requires forall k :: k in zero && k in v.infos ==> v.infos[k].refCount == 0
    ensures Consistent(ClearNew(v, c), zero, out)
    ensures ClearNew(v, c).cells == v.cells - {c} && ClearNew(v, c).tried == v.tried && ClearNew(v, c).h == v.h
    ensures c !in v.cells ==> ClearNew(v, c) == v
    ensures c in v.cells ==>
              v.cells[c] in v.infos && !v.infos[v.cells[c]].inTried
              && Unreferred(ClearNew(v, c).infos, v.infos, v.cells[c])
  {
    hide Numbered, Addressed, Ordered, TriedPlaced, NewPlaced, RefsCounted, Counted, Delete, OnlyMoved;
    if c in v.cells {
      UnreferKeeps(v, zero, out, c);
      var id, w := IdAt(v.cells, c), Unrefer(v, c);
      if w.infos[id].refCount == 0 {
        DeleteKeeps(w, zero + {id}, out, id);
        assert zero + {id} - {id} == zero;
        DeletedFrom(w, id);
        DroppedOnly(Delete(w, id).infos, w.infos, v.infos, id);
      } else {
        RefsNonzero(w.infos, w.cells, zero, id);
      }
    }
  }

  lemma DeletedFrom(v: Book, id: int)
    ensures Delete(v, id).cells == v.cells && Delete(v, id).tried == v.tried && Delete(v, id).h == v.h
  {
  }

  lemma DroppedOnly(a: Infos, b: Infos, c: Infos, id: int)
    requires id in b && id in c && OnlyMoved(a, b - {id}) && b == c[id := b[id]]
    ensures Unreferred(a, c, id)
  {
  }

  lemma RefsNonzero(infos: Infos, cells: Cells, zero: set<int>, id: int)
    requires RefsCounted(infos, cells, zero + {id}) && id in infos && infos[id].refCount != 0
    ensures RefsCounted(infos, cells, zero)
  {
  }

  // ---------- moving an entry to the tried table ----------

  /** Takes `id` out of every new bucket and out of the count. */
  function Strip(v: Book, id: int): Book {
    if id !in v.infos then v else
    v.(cells := map c | c in v.cells && v.cells[c] != id :: v.cells[c],
       infos := v.infos[id := v.infos[id].(refCount := 0)], nNew := v.nNew - 1)
  }

  /** The cells left once the buckets below `bucket` have been stripped of `id`. */
  ghost function StripBelow(cells: Cells, id: int, bucket: int): Cells {
    map c | c in cells && !(cells[c] == id && c.0 < bucket) :: cells[c]
  }

  /** An entry can only be at one position of a bucket, so stripping that one is enough. */
  lemma StripBucket(v: Book, id: int, bucket: int)
    requires NewPlaced(v.h, v.infos, v.cells) && id in v.infos
    ensures var c := (bucket, v.h.newPos(bucket, v.infos[id].service));
            var before, after := StripBelow(v.cells, id, bucket), StripBelow(v.cells, id, bucket + 1);
            && (IdAt(before, c) == id && c in before ==>
                  && after == before - {c} && CellsOf(after, id) == CellsOf(before, id) - {c}
                      && c in CellsOf(before, id))
            && (!(IdAt(before, c) == id && c in before) ==> after == before)
  {
    var c := (bucket, v.h.newPos(bucket, v.infos[id].service));
    var before, after := StripBelow(v.cells, id, bucket), StripBelow(v.cells, id, bucket + 1);
    forall d | d in v.cells && v.cells[d] == id && d.0 == bucket ensures d == c {
      assert IdAt(v.cells, d) == id;
    }
    if IdAt(before, c) == id && c in before {
      assert forall d :: d in after <==> d in before - {c};
      assert after == before - {c};
      assert forall d :: d in CellsOf(after, id) <==> d in CellsOf(before, id) - {c};
    } else {
      assert forall d :: d in after <==> d in before;
      assert after == before;
    }
  }

  lemma StripEnds(v: Book, id: int)
    requires Consistent(v, {}, {}) && id in v.infos && forall c :: c in v.cells ==> 0 <= c.0 < NEW_BUCKETS
    ensures id >= 0 && NewPlaced(v.h, v.infos, v.cells)
    ensures StripBelow(v.cells, id, 0) == v.cells && v.infos[id].refCount == |CellsOf(StripBelow(v.cells, id, 0), id)|
    ensures StripBelow(v.cells, id, NEW_BUCKETS) == Strip(v, id).cells
            && CellsOf(StripBelow(v.cells, id, NEW_BUCKETS), id) == {}
  {
    hide Addressed, Ordered, TriedPlaced, NewPlaced, Counted;
    var first, last := StripBelow(v.cells, id, 0), StripBelow(v.cells, id, NEW_BUCKETS);
    assert forall c :: c in first <==> c in v.cells;
    assert first == v.cells;
    assert forall c :: c in last <==> c in Strip(v, id).cells;
    assert last == Strip(v, id).cells;
    assert forall c :: c in CellsOf(last, id) <==> c in {};
  }

  lemma StripKeeps(v: Book, id: int)
    requires Sound(v) && id in v.infos && !v.infos[id].inTried
    ensures Consistent(Strip(v, id), {id}, {id})
  {
    hide Numbered, Addressed, Ordered, TriedPlaced, RefsCounted;
    var w := Strip(v, id);
    assert Alike(w.infos, v.infos);
    AlikeKeeps(v, w.infos, {});
    OrderedUpdate(v.infos, v.random, id, v.infos[id].(refCount := 0));
    RefsStrip(v, id);
    CountOut(w.infos, v.nTried, v.nNew, {}, id);
    assert {} + {id} == {id};
  }

  lemma RefsStrip(v: Book, id: int)
    requires RefsCounted(v.infos, v.cells, {}) && id in v.infos && !v.infos[id].inTried
    ensures RefsCounted(Strip(v, id).infos, Strip(v, id).cells, {id})
  {
    var w := Strip(v, id);
    forall k ensures CellsOf(w.cells, k) == if k == id then {} else CellsOf(v.cells, k) {
      if k == id {
        assert forall x :: x in CellsOf(w.cells, k) <==> x in {};
      } else {
        assert forall x :: x in CellsOf(w.cells, k) <==> x in CellsOf(v.cells, k);
      }
    }
  }

  lemma CountOut(infos: Infos, nTried: int, nNew: int, out: set<int>, id: int)
    requires Counted(infos, nTried, nNew, out) && id in infos && !infos[id].inTried && id !in out
    ensures Counted(infos, nTried, nNew - 1, out + {id})
  {
    assert NewIds(infos) - (out + {id}) == NewIds(infos) - out - {id};
    assert id in NewIds(infos) - out;
  }

  /** The entry in tried cell `c` leaves the tried table; it is in neither table for now. */
  function Evict(v: Book, c: (int, int)): Book {
    var id := IdAt(v.tried, c);
    if c !in v.tried || id !in v.infos then v else
    v.(infos := v.infos[id := v.infos[id].(inTried := false)], tried := v.tried - {c}, nTried := v.nTried - 1)
  }

  lemma EvictKeeps(v: Book, zero: set<int>, out: set<int>, c: (int, int))
    requires Consistent(v, zero, out) && c in v.tried
    ensures var id := v.tried[c];
            && id in v.infos && v.infos[id].inTried && v.infos[id].refCount == 0
            && Consistent(Evict(v, c), zero + {id}, out + {id})
  {
    hide Numbered, Addressed, Ordered, NewPlaced, RefsCounted, Counted;
    var id := IdAt(v.tried, c);
    var info := v.infos[id].(inTried := false);
    OrderedUpdate(v.infos, v.random, id, info);
    AddressedUpdate(v.infos, v.next, v.addrs, id, info);
    RefsEvict(v, zero, out, id);
  }

  lemma AddressedUpdate(infos: Infos, next: int, addrs: map<NetAddr, int>, id: int, info: Info)
    requires Addressed(infos, addrs) && Numbered(infos, next) && id in infos && info.service == infos[id].service
    ensures Addressed(infos[id := info], addrs) && Numbered(infos[id := info], next)
  {
  }

  lemma RefsEvict(v: Book, zero: set<int>, out: set<int>, id: int)
    requires RefsCounted(v.infos, v.cells, zero) && NewPlaced(v.h, v.infos, v.cells)
    requires Counted(v.infos, v.nTried, v.nNew, out) && id in v.infos && v.infos[id].inTried
    ensures var infos := v.infos[id := v.infos[id].(inTried := false)];
            && v.infos[id].refCount == 0
            && RefsCounted(infos, v.cells, zero + {id}) && NewPlaced(v.h, infos, v.cells)
            && Counted(infos, v.nTried - 1, v.nNew, out + {id})
  {
    var infos := v.infos[id := v.infos[id].(inTried := false)];
    assert NewIds(infos) - (out + {id}) == NewIds(v.infos) - out by {
      assert forall k :: k in NewIds(infos) - (out + {id}) <==> k in NewIds(v.infos) - out;
    }
    assert TriedIds(infos) == TriedIds(v.infos) - {id} by {
      assert forall k :: k in TriedIds(infos) <==> k in TriedIds(v.infos) - {id};
    }
    assert id in TriedIds(v.infos);
  }

  /** Puts an entry that is in no table into its tried cell. */
  function Promote(v: Book, id: int): Book {
    if id !in v.infos then v else
    v.(tried := v.tried[TriedCell(v.h, v.infos[id].service) := id], nTried := v.nTried + 1,
       infos := v.infos[id := v.infos[id].(inTried := true)])
  }

  lemma PromoteKeeps(v: Book, id: int)
    requires Consistent(v, {id}, {id}) && id in v.infos && !v.infos[id].inTried && v.infos[id].refCount == 0
    requires TriedCell(v.h, v.infos[id].service) !in v.tried
    ensures Sound(Promote(v, id))
  {
    hide Numbered, Addressed, Ordered, NewPlaced, RefsCounted, Counted;
    var info := v.infos[id].(inTried := true);
    OrderedUpdate(v.infos, v.random, id, info);
    AddressedUpdate(v.infos, v.next, v.addrs, id, info);
    RefsPromote(v, id);
  }

  lemma RefsPromote(v: Book, id: int)
    requires RefsCounted(v.infos, v.cells, {id}) && NewPlaced(v.h, v.infos, v.cells)
    requires Counted(v.infos, v.nTried, v.nNew, {id}) && id in v.infos && !v.infos[id].inTried
             && v.infos[id].refCount == 0
    ensures var infos := v.infos[id := v.infos[id].(inTried := true)];
            && RefsCounted(infos, v.cells, {}) && NewPlaced(v.h, infos, v.cells)
            && Counted(infos, v.nTried + 1, v.nNew, {})
  {
    hide Counted;
    assert CellsOf(v.cells, id) == {};
    assert forall c :: c in v.cells ==> c !in CellsOf(v.cells, id);
    CountPromote(v.infos, v.nTried, v.nNew, id);
  }

  lemma CountPromote(was: Infos, nTried: int, nNew: int, id: int)
    requires Counted(was, nTried, nNew, {id}) && id in was && !was[id].inTried
    ensures Counted(was[id := was[id].(inTried := true)], nTried + 1, nNew, {})
  {
    var infos := was[id := was[id].(inTried := true)];
    assert NewIds(infos) - {} == NewIds(was) - {id} by {
      assert forall k :: k in NewIds(infos) - {} <==> k in NewIds(was) - {id};
    }
    assert TriedIds(infos) == TriedIds(was) + {id} by {
      assert forall k :: k in TriedIds(infos) <==> k in TriedIds(was) + {id};
    }
  }

  ghost predicate SameUpToPos(a: Infos, b: Infos, k: int) {
    k in a && k in b && a[k] == b[k].(randomPos := a[k].randomPos)
  }

  /** Makes room in tried cell `c`: its entry goes back to a new bucket, displacing what is there. */
  function MakeRoom(v: Book, c: (int, int)): Book {
    var id := IdAt(v.tried, c);
    if c !in v.tried || id !in v.infos then v else
    var n := NewCell(v.h, v.infos[id].service, v.infos[id].source);
    var w := Refer(ClearNew(Evict(v, c), n), id, n);
    w.(nNew := w.nNew + 1)
  }

  lemma MakeRoomKeeps(v: Book, out: int, c: (int, int))
    requires Consistent(v, {out}, {out}) && c in v.tried
    requires out in v.infos && !v.infos[out].inTried && v.infos[out].refCount == 0
    ensures Consistent(MakeRoom(v, c), {out}, {out})
    ensures MakeRoom(v, c).h == v.h && MakeRoom(v, c).tried == v.tried - {c}
    ensures var e := v.tried[c];
            && e in v.infos && v.infos[e].inTried
            && var n := NewCell(v.h, v.infos[e].service, v.infos[e].source);
            && IdAt(v.cells, n) != out && IdAt(MakeRoom(v, c).cells, n) == e
                && Displaced(MakeRoom(v, c).infos, v.infos, e, IdAt(v.cells, n))
  {
    hide Numbered, Addressed, Ordered, TriedPlaced, RefsCounted, Counted, Delete;
    EvictKeeps(v, {out}, {out}, c);
    var id := IdAt(v.tried, c);
    var n := NewCell(v.h, v.infos[id].service, v.infos[id].source);
    var a := Evict(v, c);
    assert {out} + {id} == {out, id};
    BackToNew(a, out, id, n);
    var w := MakeRoom(v, c);
    forall k | k in v.infos && k != id && k != IdAt(v.cells, n) ensures SameUpToPos(w.infos, v.infos, k) {
      assert SameUpToPos(w.infos, a.infos, k);
    }
    assert Displaced(w.infos, v.infos, id, IdAt(v.cells, n));
  }

  /** Entry `e` is back in the new table, `d` lost a reference, the others are as before. */
  ghost predicate Displaced(a: Infos, b: Infos, e: int, d: int) {
    && e in a && e in b && a[e] == b[e].(inTried := false, refCount := 1, randomPos := a[e].randomPos)
    && forall k :: k in b && k != e && k != d ==> SameUpToPos(a, b, k)
  }

  lemma BackToNew(a: Book, out: int, id: int, n: (int, int))
    requires Consistent(a, {out, id}, {out, id}) && id in a.infos && out in a.infos && id != out
    requires !a.infos[id].inTried && !a.infos[out].inTried && a.infos[id].refCount == 0 && a.infos[out].refCount == 0
    requires a.h.newPos(n.0, a.infos[id].service) == n.1
    ensures var w := Refer(ClearNew(a, n), id, n);
            && Consistent(w.(nNew := w.nNew + 1), {out}, {out})
            && w.h == a.h && w.tried == a.tried && IdAt(a.cells, n) != out && IdAt(w.cells, n) == id
            && Displaced(w.infos, a.infos, id, IdAt(a.cells, n))
  {
    hide Numbered, Addressed, Ordered, TriedPlaced, NewPlaced, RefsCounted, Counted, Delete;
    ClearNewKeeps(a, {out, id}, {out, id}, n);
    var b := ClearNew(a, n);
    NotCell(a, {out, id}, {out, id}, n);
    ReferKeeps(b, {out, id}, {out, id}, n, id);
    var w := Refer(b, id, n);
    CountIn(w.infos, w.nTried, w.nNew, {out, id}, id);
    assert {out, id} - {id} == {out};
    forall k | k in a.infos && k != id && k != IdAt(a.cells, n) ensures SameUpToPos(w.infos, a.infos, k) {
      assert k in b.infos && b.infos[k] == a.infos[k].(randomPos := b.infos[k].randomPos);
    }
  }

  lemma EvictedStays(a: Book, out: int, id: int, n: (int, int))
    requires Consistent(a, {out, id}, {out, id}) && id in a.infos && out in a.infos && id != out
    requires a.infos[id].refCount == 0 && a.infos[out].refCount == 0
    ensures id in ClearNew(a, n).infos && ClearNew(a, n).infos[id].refCount == 0
  {
    hide Numbered, Addressed, Ordered, TriedPlaced, NewPlaced, RefsCounted, Counted, Delete;
    ClearNewKeeps(a, {out, id}, {out, id}, n);
    NotCell(a, {out, id}, {out, id}, n);
  }

  /** An entry without references is not in the cell that is about to be cleared. */
  lemma NotCell(v: Book, zero: set<int>, out: set<int>, c: (int, int))
    requires Consistent(v, zero, out)
    ensures forall k :: k in v.infos && v.infos[k].refCount == 0 ==> IdAt(v.cells, c) != k
  {
    forall k | k in v.infos && v.infos[k].refCount == 0 ensures IdAt(v.cells, c) != k {
      assert CellsOf(v.cells, k) == {};
      assert c !in CellsOf(v.cells, k);
    }
  }

  lemma CountIn(infos: Infos, nTried: int, nNew: int, out: set<int>, id: int)
    requires Counted(infos, nTried, nNew, out) && id in infos && !infos[id].inTried && id in out
    ensures Counted(infos, nTried, nNew + 1, out - {id})
  {
    assert NewIds(infos) - (out - {id}) == NewIds(infos) - out + {id} by {
      assert forall k :: k in NewIds(infos) - (out - {id}) <==> k in NewIds(infos) - out + {id};
    }
  }

  /** Moves a new entry to its tried cell. */
  function MakeTried(v: Book, id: int): Book {
    if id !in v.infos then v else
    Promote(MakeRoom(Strip(v, id), TriedCell(v.h, v.infos[id].service)), id)
  }

  lemma MakeTriedKeeps(v: Book, id: int)
    requires Sound(v) && id in v.infos && !v.infos[id].inTried
    ensures Sound(MakeTried(v, id))
    ensures var w := MakeTried(v, id);
            id in w.infos && w.infos[id]
                == v.infos[id].(inTried := true, refCount := 0, randomPos := w.infos[id].randomPos)
  {
    hide Numbered, Addressed, Ordered, TriedPlaced, NewPlaced, RefsCounted, Counted;
    StripKeeps(v, id);
    var a := Strip(v, id);
    var c := TriedCell(v.h, v.infos[id].service);
    if c in a.tried { MakeRoomKeeps(a, id, c); }
    PromoteKeeps(MakeRoom(a, c), id);
  }

  // ---------- the operations ----------

  function Good(v: Book, s: Service, time: int): Book {
    var u := v.(lastGood := time);
    var id := IdOf(v.addrs, s.net);
    if id !in v.infos || v.infos[id].service != s then u else
    var w := Touch(u, id, v.infos[id].(lastSuccess := time, lastTry := time, attempts := 0));
    if v.infos[id].inTried then w else MakeTried(w, id)
  }

  lemma LastGoodKeeps(v: Book, time: int)
    requires Sound(v)
    ensures Sound(v.(lastGood := time))
  {
  }

  lemma GoodKeeps(v: Book, s: Service, time: int)
    requires Sound(v)
    ensures Sound(Good(v, s, time))
  {
    hide Sound;
    LastGoodKeeps(v, time);
    var u := v.(lastGood := time);
    var id := IdOf(v.addrs, s.net);
    if id in v.infos && v.infos[id].service == s {
      var info := v.infos[id].(lastSuccess := time, lastTry := time, attempts := 0);
      TouchKeeps(u, id, info);
      if !info.inTried { MakeTriedKeeps(Touch(u, id, info), id); }
    }
  }

  function Attempt(v: Book, s: Service, countFailure: bool, time: int): Book {
    var id := IdOf(v.addrs, s.net);
    if id !in v.infos || v.infos[id].service != s then v else
    var info := v.infos[id].(lastTry := time);
    Touch(v, id, if countFailure && info.lastCountAttempt < v.lastGood
                 then info.(lastCountAttempt := time, attempts := info.attempts + 1) else info)
  }

  function Connected(v: Book, s: Service, time: int): Book {
    var id := IdOf(v.addrs, s.net);
    if id !in v.infos || v.infos[id].service != s || time - v.infos[id].time <= 20 * 60 then v else
    Touch(v, id, v.infos[id].(time := time))
  }

  function SetServices(v: Book, s: Service, services: set<nat>): Book {
    var id := IdOf(v.addrs, s.net);
    if id !in v.infos || v.infos[id].service != s then v else
    Touch(v, id, v.infos[id].(services := services))
  }

  lemma UpdatesKeep(v: Book, s: Service, countFailure: bool, time: int, services: set<nat>)
    requires Sound(v)
    ensures Sound(Attempt(v, s, countFailure, time)) && Sound(Connected(v, s, time))
            && Sound(SetServices(v, s, services))
  {
    hide Sound;
    var id := IdOf(v.addrs, s.net);
    if id in v.infos && v.infos[id].service == s {
      var info := v.infos[id].(lastTry := time);
      TouchKeeps(v, id, info);
      TouchKeeps(v, id, info.(lastCountAttempt := time, attempts := info.attempts + 1));
      TouchKeeps(v, id, v.infos[id].(time := time));
      TouchKeeps(v, id, v.infos[id].(services := services));
    }
  }

  /** Tries to give `id` one more cell in the new table, the one its source hashes to. */
  function Place(v: Book, id: int, source: NetAddr, now: int): Book {
    if id !in v.infos then v else
    var c := NewCell(v.h, v.infos[id].service, source);
    var there := IdAt(v.cells, c);
    if there == id then v
    else if c !in v.cells || there !in v.infos || v.infos[there].IsTerrible(now)
        || (v.infos[there].refCount > 1 && v.infos[id].refCount == 0)
    then Refer(ClearNew(v, c), id, c)
    else if v.infos[id].refCount == 0 then Delete(v, id) else v
  }

  lemma PlaceKeeps(v: Book, id: int, source: NetAddr, now: int)
    requires id in v.infos && !v.infos[id].inTried && v.infos[id].refCount < NEW_BUCKETS_PER_ADDRESS
    requires Consistent(v, if v.infos[id].refCount == 0 then {id} else {}, {})
    ensures Sound(Place(v, id, source, now))
  {
    hide Numbered, Addressed, Ordered, TriedPlaced, RefsCounted, Counted;
    var zero := if v.infos[id].refCount == 0 then {id} else {};
    var c := NewCell(v.h, v.infos[id].service, source);
    var there := IdAt(v.cells, c);
    if there == id {
      NotCell(v, zero, {}, c);
      assert zero == {};
    } else if c !in v.cells || v.infos[there].IsTerrible(now)
        || (v.infos[there].refCount > 1 && v.infos[id].refCount == 0) {
      ClearNewKeeps(v, zero, {}, c);
      ReferKeeps(ClearNew(v, c), zero, {}, c, id);
      assert zero - {id} == {};
    } else if v.infos[id].refCount == 0 {
      DeleteKeeps(v, zero, {}, id);
      assert zero - {id} == {};
    }
  }

  function Max(a: int, b: int): int { if a < b then b else a }

  /** What an announcement changes in an entry that is already known. */
  function Refreshed(info: Info, addr: Address, penalty: int, now: int): Info {
    var interval := if now - addr.time < 24 * 60 * 60 then 60 * 60 else 24 * 60 * 60;
    var time := if addr.time != 0 && (info.time == 0 || info.time < addr.time - interval - penalty)
                then Max(0, addr.time - penalty) else info.time;
    info.(time := time, services := info.services + addr.services)
  }

  /** Adds an announced address.  `coin` is the random number drawn when the entry already has cells. */
  function Add(v: Book, routable: bool, addr: Address, source: NetAddr,
               nTimePenalty: int, now: int, coin: nat): (Book, bool)
  {
    if !routable then (v, false) else
    var penalty := if addr.service.net == source then 0 else nTimePenalty;
    var id := IdOf(v.addrs, addr.service.net);
    if addr.service.net in v.addrs then
      if id !in v.infos then (v, false) else
      var info := Refreshed(v.infos[id], addr, penalty, now);
      var w := Touch(v, id, info);
      if addr.time == 0 || (info.time != 0 && addr.time <= info.time) then (w, false)
      else if info.inTried || info.refCount == NEW_BUCKETS_PER_ADDRESS
          || (info.refCount > 0 && coin != 0) then (w, false)
      else (Place(w, id, source, now), false)
    else
      var w := Create(v, addr, source);
      var info := w.infos[v.next].(time := Max(0, addr.time - penalty));
      (Place(Touch(w, v.next, info).(nNew := v.nNew + 1), v.next, source, now), true)
  }

  lemma AddKeeps(v: Book, routable: bool, addr: Address, source: NetAddr, nTimePenalty: int, now: int, coin: nat)
    requires Sound(v)
    ensures Sound(Add(v, routable, addr, source, nTimePenalty, now, coin).0)
  {
    hide Sound, Place;
    var penalty := if addr.service.net == source then 0 else nTimePenalty;
    if routable && addr.service.net in v.addrs {
      var id := IdOf(v.addrs, addr.service.net);
      if id in v.infos { RefreshKeeps(v, id, Refreshed(v.infos[id], addr, penalty, now), source, now); }
    } else if routable {
      InsertKeeps(v, addr, source, penalty, now);
    }
  }

  lemma RefreshKeeps(v: Book, id: int, info: Info, source: NetAddr, now: int)
    requires Sound(v) && id in v.infos && Restated(info, v.infos[id])
    ensures Sound(Touch(v, id, info))
    ensures !info.inTried && info.refCount != NEW_BUCKETS_PER_ADDRESS ==>
              Sound(Place(Touch(v, id, info), id, source, now))
  {
    hide Numbered, Addressed, Ordered, TriedPlaced, NewPlaced, Counted, Place;
    TouchKeeps(v, id, info);
    if !info.inTried && info.refCount != NEW_BUCKETS_PER_ADDRESS {
      PlaceKeeps(Touch(v, id, info), id, source, now);
    }
  }

  lemma InsertKeeps(v: Book, addr: Address, source: NetAddr, penalty: int, now: int)
    requires Sound(v) && addr.service.net !in v.addrs
    ensures var w := Create(v, addr, source);
            var info := w.infos[v.next].(time := Max(0, addr.time - penalty));
            Sound(Place(Touch(w, v.next, info).(nNew := v.nNew + 1), v.next, source, now))
  {
    hide Numbered, Addressed, Ordered, TriedPlaced, NewPlaced, RefsCounted, Counted, Place;
    CreateKeeps(v, addr, source);
    var w := Create(v, addr, source);
    var info := w.infos[v.next].(time := Max(0, addr.time - penalty));
    TouchOne(w, v.next, info);
    var x := Touch(w, v.next, info);
    CountIn(x.infos, x.nTried, x.nNew, {v.next}, v.next);
    assert {v.next} - {v.next} == {};
    PlaceKeeps(x.(nNew := v.nNew + 1), v.next, source, now);
  }

  lemma TouchOne(v: Book, id: int, info: Info)
    requires Consistent(v, {id}, {id}) && id in v.infos && Restated(info, v.infos[id])
    ensures Consistent(Touch(v, id, info), {id}, {id})
  {
    hide Numbered, Addressed, Ordered, TriedPlaced, NewPlaced, RefsCounted, Counted;
    AlikeKeeps(v, v.infos[id := info], {id});
    OrderedUpdate(v.infos, v.random, id, info);
    RefsUpdate(v.infos, v.cells, {id}, id, info);
  }

  /** The position drawn at step n: n or later. */
  function Later(draw: nat -> nat, n: nat, size: nat): (p: nat)
    requires n < size
    ensures n <= p < size
  {
    draw(n) % (size - n) + n
  }

  /** The first `m` steps of handing out addresses: step n swaps position n with a later one. */
  function Shuffle(v: Book, m: nat, draw: nat -> nat): Book
    decreases m
  {
    if m == 0 then v else
    var w := Shuffle(v, m - 1, draw);
    if m > |w.random| then w else Swap(w, m - 1, Later(draw, m - 1, |w.random|))
  }

  lemma ShuffleMore(v: Book, m: nat, draw: nat -> nat)
    ensures var w := Shuffle(v, m, draw);
            m < |w.random| ==> Shuffle(v, m + 1, draw) == Swap(w, m, Later(draw, m, |w.random|))
    ensures Shuffle(v, 0, draw) == v
  {
    hide Swap, Later;
  }

  lemma {:induction false} ShuffleKeeps(v: Book, m: nat, draw: nat -> nat)
    requires Sound(v)
    ensures Sound(Shuffle(v, m, draw)) && OnlyMoved(Shuffle(v, m, draw).infos, v.infos)
    ensures |Shuffle(v, m, draw).random| == |v.random|
    decreases m
  {
    hide Consistent, OnlyMoved, Later;
    if m == 0 {
      MovedTwice(v.infos, v.infos, v.infos);
    } else {
      ShuffleKeeps(v, m - 1, draw);
      var w := Shuffle(v, m - 1, draw);
      if m <= |w.random| {
        var q := Later(draw, m - 1, |w.random|);
        SwapKeeps(w, {}, {}, m - 1, q);
        MovedTwice(v.infos, w.infos, Swap(w, m - 1, q).infos);
      }
    }
  }

  lemma MovedTwice(a: Infos, b: Infos, c: Infos)
    ensures OnlyMoved(a, a)
    ensures OnlyMoved(b, a) && OnlyMoved(c, b) ==> OnlyMoved(c, a)
  {
  }

  function AddressOf(info: Info): Address {
    Address(info.service, info.services, info.time)
  }

  /** The addresses worth handing out among `ids`, in order. */
  function Worthy(infos: Infos, ids: seq<int>, now: int): seq<Address> {
    if ids == [] then [] else
    var rest := Worthy(infos, ids[..|ids| - 1], now);
    var id := ids[|ids| - 1];
    if id in infos && !infos[id].IsTerrible(now) then rest + [AddressOf(infos[id])] else rest
  }

  lemma {:induction false} WorthyMoved(infos: Infos, moved: Infos, ids: seq<int>, now: int)
    requires OnlyMoved(moved, infos)
    ensures Worthy(moved, ids, now) == Worthy(infos, ids, now)
  {
    if ids != [] {
      WorthyMoved(infos, moved, ids[..|ids| - 1], now);
      var id := ids[|ids| - 1];
      assert id in moved <==> id in infos;
    }
  }

  /** Drawing the n-th entry extends the selection by it if it is worth it. */
  lemma WorthyDraw(v: Book, n: nat, q: nat, now: int)
    requires Sound(v) && n <= q < |v.random|
    ensures var w := Swap(v, n, q);
            && |w.random| == |v.random| && w.random[n] in w.infos
            && Worthy(w.infos, w.random[..n + 1], now) ==
               Worthy(v.infos, v.random[..n], now)
                   + (if w.infos[w.random[n]].IsTerrible(now) then [] else [AddressOf(w.infos[w.random[n]])])
  {
    hide Consistent;
    SwapKeeps(v, {}, {}, n, q);
    var w := Swap(v, n, q);
    assert w.random[..n] == v.random[..n];
    WorthyMoved(v.infos, w.infos, v.random[..n], now);
    Listed(w, n);
    assert w.random[..n + 1][..n] == w.random[..n];
  }

  /** How many addresses one request may get. */
  function GetAddrLimit(size: nat): nat {
    var n := GETADDR_MAX_PCT * size / 100;
    if n > GETADDR_MAX then GETADDR_MAX else n
  }

  ghost function WorthyIds(infos: Infos, now: int): set<int> {
    set id | id in infos && !infos[id].IsTerrible(now)
  }

  /** Walking the whole random vector meets every entry worth handing out exactly once. */
  lemma AllWorthy(v: Book, now: int)
    requires Sound(v)
    ensures |Worthy(v.infos, v.random, now)| == |WorthyIds(v.infos, now)|
  {
    hide Numbered, Addressed, TriedPlaced, NewPlaced, RefsCounted, Counted;
    forall j, k | 0 <= j < k < |v.random| ensures v.random[j] != v.random[k] {
      assert Pick(v.random, j) in v.infos && Pick(v.random, k) in v.infos;
    }
    WorthyCount(v.infos, v.random, now);
    var all := WorthyOf(v.infos, v.random, now);
    forall id ensures id in all <==> id in WorthyIds(v.infos, now) {
      if id in v.infos { assert Pick(v.random, v.infos[id].randomPos) == id; }
    }
    assert all == WorthyIds(v.infos, now);
  }

  ghost function WorthyOf(infos: Infos, ids: seq<int>, now: int): set<int> {
    set id | id in ids && id in infos && !infos[id].IsTerrible(now)
  }

  lemma {:induction false} WorthyCount(infos: Infos, ids: seq<int>, now: int)
    requires forall j, k :: 0 <= j < k < |ids| ==> ids[j] != ids[k]
    ensures |Worthy(infos, ids, now)| == |WorthyOf(infos, ids, now)|
  {
    hide WorthyOf;
    if ids == [] {
      NoWorthy(infos, now);
    } else {
      var most, last := ids[..|ids| - 1], ids[|ids| - 1];
      WorthyCount(infos, most, now);
      assert ids == most + [last] && last !in most;
      WorthyMore(infos, most, last, now);
    }
  }

  lemma NoWorthy(infos: Infos, now: int)
    ensures WorthyOf(infos, [], now) == {}
  {
    assert forall id :: id in WorthyOf(infos, [], now) <==> id in {};
  }

  lemma WorthyMore(infos: Infos, most: seq<int>, last: int, now: int)
    requires last !in most
    ensures |WorthyOf(infos, most + [last], now)| ==
            |WorthyOf(infos, most, now)| + if last in infos && !infos[last].IsTerrible(now) then 1 else 0
  {
    var before, all := WorthyOf(infos, most, now), WorthyOf(infos, most + [last], now);
    if last in infos && !infos[last].IsTerrible(now) {
      assert forall id :: id in all <==> id in before + {last};
      assert all == before + {last};
    } else {
      assert forall id :: id in all <==> id in before;
      assert all == before;
    }
  }

  // ---------- whole runs ----------

  datatype Op =
    | OpAdd(routable: bool, addr: Address, source: NetAddr, penalty: int, now: int, coin: nat)
    | OpGood(s: Service, time: int)
    | OpAttempt(s: Service, countFailure: bool, time: int)
    | OpConnected(s: Service, time: int)
    | OpSetServices(s: Service, services: set<nat>)
    | OpGetAddr(m: nat, draw: nat -> nat)

  function Step(v: Book, op: Op): Book {
    match op
    case OpAdd(r, a, s, p, n, c) => Add(v, r, a, s, p, n, c).0
    case OpGood(s, t) => Good(v, s, t)
    case OpAttempt(s, f, t) => Attempt(v, s, f, t)
    case OpConnected(s, t) => Connected(v, s, t)
    case OpSetServices(s, f) => SetServices(v, s, f)
    case OpGetAddr(m, draw) => Shuffle(v, m, draw)
  }

  function Empty(h: Hasher): Book {
    Book(h, 0, map[], map[], [], map[], 0, map[], 0, 1)
  }

  function Run(v: Book, ops: seq<Op>): Book
    decreases |ops|
  {
    if ops == [] then v else Run(Step(v, ops[0]), ops[1..])
  }

  /** From construction, every run keeps the structures consistent, whatever is drawn and
      whatever the clock says. */
  lemma {:induction false} EveryRunIsSound(h: Hasher, ops: seq<Op>)
    ensures Sound(Run(Empty(h), ops))
  {
    assert forall k :: k in NewIds(map[]) - {} <==> k in {};
    assert forall k :: k in TriedIds(map[]) <==> k in {};
    assert Sound(Empty(h));
    RunKeeps(Empty(h), ops);
  }

  lemma {:induction false} RunKeeps(v: Book, ops: seq<Op>)
    requires Sound(v)
    ensures Sound(Run(v, ops))
    decreases |ops|
  {
    hide Sound;
    if ops != [] {
      StepKeeps(v, ops[0]);
      RunKeeps(Step(v, ops[0]), ops[1..]);
    }
  }

  lemma StepKeeps(v: Book, op: Op)
    requires Sound(v)
    ensures Sound(Step(v, op))
  {
    hide Sound, Add, Good, Attempt, Connected, SetServices, Shuffle;
    match op
    case OpAdd(r, a, s, p, n, c) => AddKeeps(v, r, a, s, p, n, c);
    case OpGood(s, t) => GoodKeeps(v, s, t);
    case OpAttempt(s, f, t) => UpdatesKeep(v, s, f, t, {});
    case OpConnected(s, t) => UpdatesKeep(v, s, false, t, {});
    case OpSetServices(s, f) => UpdatesKeep(v, s, false, 0, f);
    case OpGetAddr(m, draw) => ShuffleKeeps(v, m, draw);
  }

  // ---------- what an operation may change ----------

  /** Moving `id` to tried displaces at most two others: the entry in its tried cell, which
      goes back to one new cell, and the entry found in that new cell, which loses a reference. */
  lemma MakeTriedEffect(v: Book, id: int)
    requires Sound(v) && id in v.infos && !v.infos[id].inTried
    ensures var c := TriedCell(v.h, v.infos[id].service);
            var w := MakeTried(v, id);
            var e := IdAt(v.tried, c);
            && w.tried == v.tried[c := id]
            && (c !in v.tried ==> forall k :: k in v.infos && k != id ==> SameUpToPos(w.infos, v.infos, k))
            && (c in v.tried ==>
                  && e in v.infos && e in w.infos && e != id
                  && w.infos[e] == v.infos[e].(inTried := false, refCount := 1, randomPos := w.infos[e].randomPos)
                  && var n := NewCell(v.h, v.infos[e].service, v.infos[e].source);
                  && IdAt(w.cells, n) == e
                  && forall k :: k in v.infos && k != id && k != e && k != IdAt(v.cells, n) ==>
                        SameUpToPos(w.infos, v.infos, k))
  {
    hide Addressed, Ordered, TriedPlaced, NewPlaced, RefsCounted, Counted, MakeRoom;
    var c := TriedCell(v.h, v.infos[id].service);
    var a := Strip(v, id);
    StripKeeps(v, id);
    NoRoom(a, c);
    if c in v.tried {
      MakeRoomKeeps(a, id, c);
      var e, w := IdAt(v.tried, c), MakeTried(v, id);
      assert a.tried[c] == e && a.infos[e].inTried && e != id;
      assert a.infos[e] == v.infos[e];
      assert (v.tried - {c})[c := id] == v.tried[c := id];
      var n := NewCell(v.h, v.infos[e].service, v.infos[e].source);
      assert SameUpToPos(MakeRoom(a, c).infos, a.infos, id);
      forall k | k in v.infos && k != id && k != e && k != IdAt(v.cells, n) ensures SameUpToPos(w.infos, v.infos, k) {
        assert k in a.infos && a.infos[k] == v.infos[k];
        assert k != IdAt(a.cells, n);
        assert SameUpToPos(MakeRoom(a, c).infos, a.infos, k);
      }
    }
  }

  lemma NoRoom(v: Book, c: (int, int))
    ensures c !in v.tried ==> MakeRoom(v, c) == v
  {
  }

  /** Announcing an unknown address: it is stored exactly when its cell is free, or holds an
      entry that is terrible or has other cells.  The call reports it as added either way. */
  lemma AddStores(v: Book, addr: Address, source: NetAddr, penalty: int, now: int, coin: nat)
    requires Sound(v) && addr.service.net !in v.addrs
    ensures var (w, added) := Add(v, true, addr, source, penalty, now, coin);
            var c := NewCell(v.h, addr.service, source);
            && added
            && (c in v.cells ==> v.cells[c] in v.infos)
            && (addr.service.net in w.addrs <==>
                  c !in v.cells || v.infos[v.cells[c]].IsTerrible(now) || v.infos[v.cells[c]].refCount > 1)
  {
    hide Numbered, Addressed, Ordered, TriedPlaced, RefsCounted, Counted, Delete, ClearNew;
    var id, c := v.next, NewCell(v.h, addr.service, source);
    var pen := if addr.service.net == source then 0 else penalty;
    CreateKeeps(v, addr, source);
    InsertKeeps(v, addr, source, pen, now);
    var y := Create(v, addr, source);
    var info := y.infos[id].(time := Max(0, addr.time - pen));
    TouchOne(y, id, info);
    var x := Touch(y, id, info).(nNew := v.nNew + 1);
    CountIn(x.infos, x.nTried, v.nNew, {id}, id);
    assert {id} - {id} == {};
    ClearNewKeeps(x, {id}, {}, c);
    DeleteKeeps(x, {id}, {}, id);
    NotCell(x, {id}, {}, c);
    var w := Place(x, id, source, now);
    NetKnown(w, addr.service.net);
    NetKnown(v, addr.service.net);
  }

  /** Everything hashes to one cell. */
  function OneCell(): Hasher { Hasher(_ => 0, (_, _) => 0, (_, _) => 0, (_, _) => 0) }

  function Announced(ip: seq<bv8>): Address { Address(Service(NetAddr(ip), 8333), {}, 1000) }

  /** Two announcements for one cell: the second address is reported as added and dropped. */
  lemma AddDrops(source: NetAddr)
    ensures var v := Add(Empty(OneCell()), true, Announced([1]), source, 0, 1000, 0).0;
            var (w, added) := Add(v, true, Announced([2]), source, 0, 1000, 0);
            added && Announced([2]).service.net !in w.addrs
  {
    hide Consistent, Delete, Place, Add;
    var e, a, b := Empty(OneCell()), Announced([1]), Announced([2]);
    assert [1 as bv8][0] != [2 as bv8][0];
    EveryRunIsSound(OneCell(), []);
    AddKeeps(e, true, a, source, 0, 1000, 0);
    FirstAdded(source);
    AddStores(Add(e, true, a, source, 0, 1000, 0).0, b, source, 0, 1000, 0);
  }

  lemma FirstAdded(source: NetAddr)
    ensures var a := Announced([1]);
            var v := Add(Empty(OneCell()), true, a, source, 0, 1000, 0).0;
            && v.h == OneCell() && v.addrs == map[a.service.net := 0] && v.cells == map[(0, 0) := 0]
            && v.infos == map[0 := NewInfo(a, source, 0).(refCount := 1)]
  {
    hide Consistent, Delete;
    var e, a := Empty(OneCell()), Announced([1]);
    var y := Create(e, a, source);
    var x := Touch(y, 0, y.infos[0]).(nNew := 1);
    assert ClearNew(x, (0, 0)) == x;
    assert Place(x, 0, source, 1000) == Refer(x, 0, (0, 0));
  }

  lemma NetKnown(v: Book, a: NetAddr)
    requires Sound(v)
    ensures a in v.addrs <==> exists id :: id in v.infos && v.infos[id].service.net == a
  {
    if a in v.addrs { assert IdOf(v.addrs, a) in v.infos; }
  }

  lemma NextIsNat(v: Book)
    requires Sound(v)
    ensures v.next >= 0
  {
  }

  lemma IdIsNat(v: Book, zero: set<int>, out: set<int>, id: int)
    requires Consistent(v, zero, out) && id in v.infos
    ensures id >= 0
  {
  }

  /** An untried entry has a cell, at the position its bucket hashes it to. */
  lemma SomeCell(v: Book, id: int) returns (c: (int, int))
    requires Sound(v) && id in v.infos && !v.infos[id].inTried
    ensures c in v.cells && v.cells[c] == id && c.1 == v.h.newPos(c.0, v.infos[id].service)
  {
    hide Addressed, Ordered, TriedPlaced, Counted;
    assert |CellsOf(v.cells, id)| >= 1;
    c :| c in CellsOf(v.cells, id);
    assert IdAt(v.cells, c) == id;
  }

  lemma KnownNet(v: Book, a: NetAddr)
    requires Sound(v) && a in v.addrs
    ensures IdOf(v.addrs, a) in v.infos && v.infos[IdOf(v.addrs, a)].service.net == a
  {
  }

  lemma RefsAtMost(v: Book, id: int)
    requires Sound(v) && id in v.infos
    ensures 0 <= v.infos[id].refCount <= NEW_BUCKETS_PER_ADDRESS
    ensures v.infos[id].inTried <==> v.infos[id].refCount == 0
  {
  }

  lemma CountInBook(v: Book, id: int)
    requires Consistent(v, {id}, {id}) && id in v.infos && !v.infos[id].inTried
    ensures Consistent(v.(nNew := v.nNew + 1), {id}, {})
  {
    hide Numbered, Addressed, Ordered, TriedPlaced, NewPlaced, RefsCounted, Counted;
    CountIn(v.infos, v.nTried, v.nNew, {id}, id);
    assert {id} - {id} == {};
  }

  lemma RefreshFits(info: Info, addr: Address, penalty: int, now: int)
    ensures var r := Refreshed(info, addr, penalty, now);
            r == info.(time := r.time, services := r.services)
  {
  }

  lemma Listed(v: Book, k: nat)
    requires Sound(v) && k < |v.random|
    ensures v.random[k] in v.infos
  {
    assert Pick(v.random, k) in v.infos;
  }

  lemma NoneWorthy(infos: Infos, ids: seq<int>, now: int)
    requires ids == []
    ensures Worthy(infos, ids, now) == []
  {
  }
}
