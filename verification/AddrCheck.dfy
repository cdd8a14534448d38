/** The address manager's own debugging check, run as code: what exactly it accepts, and how
    that differs from full consistency. */
module AddrCheck {
  import opened AddrBook
  import A = AddrMan
  import P = Peers
  import opened AddrTimes

  // ---------- what the check accepts ----------

  /** Where an entry is looked up by its address.  Looking up an address that is missing
      enters it with id 0, so entry 0 alone may be missing. */
  predicate Indexed(n: int, a: NetAddr, addrs: map<NetAddr, int>) {
    if a in addrs then addrs[a] == n else n == 0
  }

  /** The full consistency of the manager, but for the address map. */
  ghost predicate Passes(v: Book) {
    && (forall id :: id in v.infos ==> Indexed(id, v.infos[id].service.net, v.addrs))
    && Ordered(v.infos, v.random) && TriedPlaced(v.h, v.infos, v.tried) && NewPlaced(v.h, v.infos, v.cells)
    && RefsCounted(v.infos, v.cells, {}) && Timed(v.infos) && Counted(v.infos, v.nTried, v.nNew, {})
  }

  /** What passes is fully consistent exactly if ids are below the counter and the address map
      misses no entry and holds no address without one. */
  lemma PassesOrSound(v: Book)
    ensures Sound(v) && Timed(v.infos) <==>
              && Passes(v) && Numbered(v.infos, v.next) && (0 in v.infos ==> v.infos[0].service.net in v.addrs)
              && forall a :: a in v.addrs ==> IdOf(v.addrs, a) in v.infos && v.infos[IdOf(v.addrs, a)].service.net == a
  {
    hide Ordered, TriedPlaced, NewPlaced, RefsCounted, Timed, Counted, Numbered;
    if Passes(v) {
      forall id | id in v.infos && (id == 0 ==> v.infos[id].service.net in v.addrs)
        ensures v.infos[id].service.net in v.addrs && IdOf(v.addrs, v.infos[id].service.net) == id
      {
        assert Indexed(id, v.infos[id].service.net, v.addrs);
      }
    }
    if Sound(v) {
      forall id | id in v.infos ensures Indexed(id, v.infos[id].service.net, v.addrs) {
        assert IdOf(v.addrs, v.infos[id].service.net) == id;
      }
    }
  }

  /** A reachable manager passes exactly if its times are right, as they are while every
      operation is in time. */
  lemma EveryRunPasses(h: Hasher, ops: seq<Op>)
    ensures Passes(Run(Empty(h), ops)) <==> Timed(Run(Empty(h), ops).infos)
    ensures AllInTime(Empty(h), ops) ==> Passes(Run(Empty(h), ops))
  {
    hide Passes, Sound, Timed, AllInTime, Step;
    var v := Run(Empty(h), ops);
    EveryRunIsSound(h, ops);
    PassesOrSound(v);
    PassesTimed(v);
    NoneTimed(h);
    EveryRunIsSound(h, []);
    RunTimes(Empty(h), ops);
    assert ops[..|ops|] == ops;
  }

  lemma PassesTimed(v: Book)
    ensures Passes(v) ==> Timed(v.infos)
  {
  }

  lemma NoneTimed(h: Hasher)
    ensures Timed(Empty(h).infos)
  {
  }

  /** An address announced and then marked good at time 0: the structures are consistent, the
      times are not, and the check fails. */
  lemma EpochFails(source: NetAddr)
    ensures var s := Announced([1]).service;
            var v := Add(Empty(OneCell()), true, Announced([1]), source, 0, 1000, 0).0;
            var w := Good(v, s, 0);
            Sound(w) && !Timed(w.infos) && !Passes(w)
  {
    hide Sound, Timed, Passes, Add, Good;
    var e, a := Empty(OneCell()), Announced([1]);
    EveryRunIsSound(OneCell(), []);
    AddKeeps(e, true, a, source, 0, 1000, 0);
    NoneTimed(OneCell());
    AddTimes(e, true, a, source, 0, 1000, 0);
    FirstAdded(source);
    var v := Add(e, true, a, source, 0, 1000, 0).0;
    GoodKeeps(v, a.service, 0);
    GoodTimes(v, a.service, 0);
    PassesTimed(Good(v, a.service, 0));
  }

  /** What is loaded back from a consistent manager with right times passes. */
  lemma RebornPasses(v: Book)
    requires Sound(v) && Timed(v.infos)
    ensures Passes(P.Reborn(v))
  {
    hide Passes, Sound, P.Reborn, P.Order;
    P.RebornSound(v);
    P.RebornIds(v);
    P.OrderLists(v);
    var r := P.Reborn(v);
    forall k | k in r.infos ensures TimesFit(r.infos[k]) {
      P.RebornInfo(v, k);
      assert TimesFit(v.infos[P.At(P.Order(v), k)]);
    }
    PassesOrSound(r);
  }

  /** An address left behind without an entry goes unnoticed, though no run leaves one. */
  lemma StalePasses(h: Hasher, a: NetAddr)
    ensures var v := Empty(h).(addrs := map[a := 7]); Passes(v) && !Sound(v)
  {
    var v := Empty(h).(addrs := map[a := 7]);
    assert TriedIds(v.infos) == {} by { assert forall id :: id !in TriedIds(v.infos); }
    assert NewIds(v.infos) - {} == {} by { assert forall id :: id !in NewIds(v.infos) - {}; }
    assert IdOf(v.addrs, a) == 7;
  }

  // ---------- the entries ----------

  ghost predicate EntryOk(v: Book, n: int)
    requires n in v.infos
  {
    var info := v.infos[n];
    && TimesFit(info) && Indexed(n, info.service.net, v.addrs)
    && (if info.inTried then info.refCount == 0 else 1 <= info.refCount <= NEW_BUCKETS_PER_ADDRESS)
    && 0 <= info.randomPos < |v.random| && v.random[info.randomPos] == n
  }

  /** The first test an entry fails, or 0. */
  function EntryError(v: Book, n: int): int
    requires n in v.infos
  {
    var info := v.infos[n];
    if info.inTried && info.lastSuccess == 0 then -1
    else if info.inTried && info.refCount != 0 then -2
    else if !info.inTried && (info.refCount < 0 || info.refCount > NEW_BUCKETS_PER_ADDRESS) then -3
    else if !info.inTried && info.refCount == 0 then -4
    else if !Indexed(n, info.service.net, v.addrs) then -5
    else if info.randomPos < 0 || info.randomPos >= |v.random| || v.random[info.randomPos] != n then -14
    else if info.lastTry < 0 then -6
    else if info.lastSuccess < 0 then -8
    else 0
  }

  lemma EntryErrorIs(v: Book, n: int)
    requires n in v.infos
    ensures EntryError(v, n) == 0 <==> EntryOk(v, n)
  {
  }

  /** The error is that of the first entry with one. */
  ghost predicate FirstError(v: Book, err: int) {
    exists n :: n in v.infos && err == EntryError(v, n) != 0 && forall k :: k in v.infos && k < n ==> EntryOk(v, k)
  }

  ghost predicate EntriesOk(v: Book) {
    forall id :: id in v.infos ==> EntryOk(v, id)
  }

  /** What is collected from all entries but those in `todo`. */
  ghost predicate Collected(infos: Infos, todo: set<int>, setTried: set<int>, mapNew: map<int, int>) {
    && (forall id :: id in setTried <==> id in infos && id !in todo && infos[id].inTried)
    && (forall id :: id in mapNew <==> id in infos && id !in todo && !infos[id].inTried)
    && (forall id :: id in mapNew ==> mapNew[id] == infos[id].refCount)
  }

  lemma CollectedSizes(infos: Infos, setTried: set<int>, mapNew: map<int, int>)
    requires Collected(infos, {}, setTried, mapNew)
    ensures |setTried| == |TriedIds(infos)| && |mapNew| == |NewIds(infos)|
  {
    var keys := mapNew.Keys;
    assert forall id :: id in setTried <==> id in TriedIds(infos);
    assert setTried == TriedIds(infos);
    assert forall id :: id in keys <==> id in NewIds(infos);
    assert keys == NewIds(infos);
  }

  lemma PassesEntries(v: Book)
    requires Passes(v)
    ensures EntriesOk(v)
  {
    hide TriedPlaced, NewPlaced, Counted;
    forall id | id in v.infos ensures EntryOk(v, id) {
      assert TimesFit(v.infos[id]) && Indexed(id, v.infos[id].service.net, v.addrs);
      assert Pick(v.random, v.infos[id].randomPos) == id;
    }
  }

  // ---------- the random vector has no room for anything else ----------

  lemma AllIds(infos: Infos)
    ensures |TriedIds(infos)| + |NewIds(infos)| == |infos.Keys|
  {
    var all := TriedIds(infos) + NewIds(infos);
    assert forall id :: id in all <==> id in infos.Keys;
    assert all == infos.Keys;
    assert TriedIds(infos) * NewIds(infos) == {};
  }

  ghost function Places(infos: Infos, ids: set<int>): set<int> {
    set id | id in ids && id in infos :: infos[id].randomPos
  }

  lemma {:induction false} PlacesSize(infos: Infos, random: seq<int>, ids: set<int>)
    requires forall id :: id in ids ==>
               id in infos && 0 <= infos[id].randomPos < |random| && Pick(random, infos[id].randomPos) == id
    ensures |Places(infos, ids)| == |ids|
  {
    if x :| x in ids {
      var rest := ids - {x};
      PlacesSize(infos, random, rest);
      var p := infos[x].randomPos;
      assert Places(infos, ids) == Places(infos, rest) + {p} by {
        assert forall k :: k in Places(infos, ids) <==> k in Places(infos, rest) + {p};
      }
      assert p !in Places(infos, rest);
    } else {
      assert forall id :: id in ids <==> id in {};
      assert forall k :: k in Places(infos, ids) <==> k in {};
    }
  }

  /** As many places as entries, and every entry at a place of its own: no place is left over. */
  lemma NoRoom(v: Book)
    requires EntriesOk(v) && |v.random| == |v.infos.Keys|
    ensures Ordered(v.infos, v.random)
  {
    forall id | id in v.infos ensures 0 <= v.infos[id].randomPos < |v.random|
        && Pick(v.random, v.infos[id].randomPos) == id {
      assert EntryOk(v, id);
    }
    var places, range := Places(v.infos, v.infos.Keys), P.Range(0, |v.random|);
    PlacesSize(v.infos, v.random, v.infos.Keys);
    P.RangeSize(0, |v.random|);
    assert forall k :: k in places ==> k in range;
    SubsetFull(places, range);
    forall k | 0 <= k < |v.random| ensures Pick(v.random, k) in v.infos && v.infos[Pick(v.random, k)].randomPos == k {
      assert k in range;
      assert k in places;
    }
  }

  lemma SubsetFull(a: set<int>, b: set<int>)
    requires a <= b && |a| == |b|
    ensures forall k :: k in b ==> k in a
  {
    var rest := b - a;
    assert forall k :: k in b <==> k in a + rest;
    assert b == a + rest && a * rest == {};
    assert rest == {};
    assert forall k :: k in b ==> k in a || k in rest;
  }

  lemma RandomSize(infos: Infos, random: seq<int>)
    requires Ordered(infos, random)
    ensures |random| == |TriedIds(infos)| + |NewIds(infos)|
  {
    forall j, k | 0 <= j < k < |random| ensures random[j] != random[k] {
      assert infos[Pick(random, j)].randomPos == j && infos[Pick(random, k)].randomPos == k;
    }
    P.SizeOfDistinct(random);
    var listed := set id | id in random;
    forall id ensures id in listed <==> id in infos.Keys {
      if id in infos { assert Pick(random, infos[id].randomPos) == id; }
      if id in random {
        var k :| 0 <= k < |random| && random[k] == id;
        assert Pick(random, k) in infos;
      }
    }
    assert listed == infos.Keys;
    AllIds(infos);
  }

  /** The three sizes are right exactly if the counters are and the random vector is full. */
  lemma SizesRight(v: Book)
    requires EntriesOk(v)
    ensures (|v.random| == v.nTried + v.nNew && |TriedIds(v.infos)| == v.nTried && |NewIds(v.infos)| == v.nNew)
            <==> (Ordered(v.infos, v.random) && Counted(v.infos, v.nTried, v.nNew, {}))
  {
    hide EntriesOk, Ordered;
    AllIds(v.infos);
    assert NewIds(v.infos) - {} == NewIds(v.infos);
    if Ordered(v.infos, v.random) { RandomSize(v.infos, v.random); }
    if |v.random| == |v.infos.Keys| { NoRoom(v); }
  }

  // ---------- the walk over the tried table ----------

  /** Cells that come before (b, i) in the walk over a table. */
  predicate Seen(c: (int, int), b: int, i: int) { c.0 < b || (c.0 == b && c.1 < i) }

  ghost predicate TriedCellOk(v: Book, c: (int, int))
    requires c in v.tried
  {
    && IdAt(v.tried, c) in v.infos && v.infos[IdAt(v.tried, c)].inTried
    && TriedCell(v.h, v.infos[IdAt(v.tried, c)].service) == c
  }

  ghost predicate Found(v: Book, id: int, b: int, i: int)
    requires id in v.infos
  {
    var c := TriedCell(v.h, v.infos[id].service);
    Seen(c, b, i) && c in v.tried && IdAt(v.tried, c) == id
  }

  /** The cells seen are right, and the tried entries left are those not found yet. */
  ghost predicate TriedLeft(v: Book, setTried: set<int>, b: int, i: int) {
    && (forall c :: c in v.tried && Seen(c, b, i) ==> TriedCellOk(v, c))
    && (forall id :: id in setTried <==> id in v.infos && v.infos[id].inTried && !Found(v, id, b, i))
  }

  lemma TriedStart(v: Book, setTried: set<int>, mapNew: map<int, int>)
    requires P.InRange(v) && Collected(v.infos, {}, setTried, mapNew)
    ensures TriedLeft(v, setTried, 0, 0)
  {
  }

  lemma TriedSkip(v: Book, setTried: set<int>, b: int, i: int)
    requires TriedLeft(v, setTried, b, i) && (b, i) !in v.tried
    ensures TriedLeft(v, setTried, b, i + 1)
  {
  }

  /** The entry of the next cell is left and belongs there, or the table is wrong. */
  lemma TriedStep(v: Book, setTried: set<int>, b: int, i: int)
    requires TriedLeft(v, setTried, b, i) && (b, i) in v.tried
    ensures var id := v.tried[(b, i)];
            if id in setTried && id in v.infos && TriedCell(v.h, v.infos[id].service) == (b, i)
            then TriedLeft(v, setTried - {id}, b, i + 1)
            else !TriedPlaced(v.h, v.infos, v.tried)
  {
    var c := (b, i);
    var id := IdAt(v.tried, c);
    if id in setTried && id in v.infos && TriedCell(v.h, v.infos[id].service) == c {
      assert TriedCellOk(v, c);
    } else if TriedPlaced(v.h, v.infos, v.tried) {
      assert false;
    }
  }

  lemma TriedNextBucket(v: Book, setTried: set<int>, b: int)
    requires TriedLeft(v, setTried, b, BUCKET_SIZE) && P.InRange(v)
    ensures TriedLeft(v, setTried, b + 1, 0)
  {
    forall c | c in v.tried ensures Seen(c, b, BUCKET_SIZE) <==> Seen(c, b + 1, 0) { }
  }

  lemma TriedEnd(v: Book, setTried: set<int>)
    requires TriedLeft(v, setTried, TRIED_BUCKETS, 0) && P.InRange(v)
    ensures setTried == {} <==> TriedPlaced(v.h, v.infos, v.tried)
  {
    forall c | c in v.tried ensures Seen(c, TRIED_BUCKETS, 0) && TriedCellOk(v, c) { }
    if setTried == {} {
      forall id | id in v.infos && v.infos[id].inTried
        ensures TriedCell(v.h, v.infos[id].service) in v.tried
                && IdAt(v.tried, TriedCell(v.h, v.infos[id].service)) == id
      {
        assert Found(v, id, TRIED_BUCKETS, 0);
      }
    }
    if TriedPlaced(v.h, v.infos, v.tried) {
      forall id | id in v.infos && v.infos[id].inTried ensures Found(v, id, TRIED_BUCKETS, 0) { }
      assert forall id :: id !in setTried;
    }
  }

  // ---------- the walk over the new table ----------

  /** The cells of `id` seen so far. */
  ghost function SeenOf(cells: Cells, id: int, b: int, i: int): set<(int, int)> {
    set c | c in cells && cells[c] == id && Seen(c, b, i)
  }

  ghost predicate NewCellOk(v: Book, c: (int, int))
    requires c in v.cells
  {
    && IdAt(v.cells, c) in v.infos && !v.infos[IdAt(v.cells, c)].inTried
    && v.h.newPos(c.0, v.infos[IdAt(v.cells, c)].service) == c.1
  }

  /** What a new entry's count says is still to come. */
  ghost function ToCome(v: Book, id: int, b: int, i: int): int
    requires id in v.infos
  {
    v.infos[id].refCount - |SeenOf(v.cells, id, b, i)|
  }

  /** The cells seen are right, and the new entries left are those with cells to come. */
  ghost predicate NewLeft(v: Book, mapNew: map<int, int>, b: int, i: int) {
    && (forall c :: c in v.cells && Seen(c, b, i) ==> NewCellOk(v, c))
    && (forall id :: id in v.infos && !v.infos[id].inTried ==> ToCome(v, id, b, i) >= 0)
    && (forall id :: id in mapNew <==> id in v.infos && !v.infos[id].inTried && ToCome(v, id, b, i) != 0)
    && (forall id :: id in mapNew ==> mapNew[id] == ToCome(v, id, b, i))
  }

  /** The new table and the reference counts agree. */
  ghost predicate NewRight(v: Book) {
    NewPlaced(v.h, v.infos, v.cells) && RefsCounted(v.infos, v.cells, {})
  }

  lemma NewStart(v: Book, setTried: set<int>, mapNew: map<int, int>)
    requires P.InRange(v) && EntriesOk(v) && Collected(v.infos, {}, setTried, mapNew)
    ensures NewLeft(v, mapNew, 0, 0)
  {
    forall id | id in v.infos ensures ToCome(v, id, 0, 0) == v.infos[id].refCount && EntryOk(v, id) {
      assert forall c :: c !in SeenOf(v.cells, id, 0, 0);
      assert SeenOf(v.cells, id, 0, 0) == {};
    }
  }

  /** One cell: only its own entry has one more cell seen. */
  lemma SeenStep(cells: Cells, id: int, b: int, i: int)
    ensures id != -1 && IdAt(cells, (b, i)) == id ==>
              (b, i) !in SeenOf(cells, id, b, i) && SeenOf(cells, id, b, i + 1) == SeenOf(cells, id, b, i) + {(b, i)}
    ensures IdAt(cells, (b, i)) != id ==> SeenOf(cells, id, b, i + 1) == SeenOf(cells, id, b, i)
  {
    var now, next := SeenOf(cells, id, b, i), SeenOf(cells, id, b, i + 1);
    var c := (b, i);
    if id != -1 && IdAt(cells, c) == id {
      assert forall x :: x in next <==> x in now + {c};
      assert next == now + {c};
    }
    if IdAt(cells, c) != id {
      assert forall x :: x in next <==> x in now;
      assert next == now;
    }
  }

  lemma NewSkip(v: Book, mapNew: map<int, int>, b: int, i: int)
    requires NewLeft(v, mapNew, b, i) && (b, i) !in v.cells
    ensures NewLeft(v, mapNew, b, i + 1)
  {
    hide SeenOf, NewCellOk;
    forall id | id in v.infos ensures SeenOf(v.cells, id, b, i + 1)
        == SeenOf(v.cells, id, b, i) { NothingSeen(v.cells, id, b, i); }
  }

  lemma NothingSeen(cells: Cells, id: int, b: int, i: int)
    requires (b, i) !in cells
    ensures SeenOf(cells, id, b, i + 1) == SeenOf(cells, id, b, i)
  {
    assert forall x :: x in SeenOf(cells, id, b, i + 1) <==> x in SeenOf(cells, id, b, i);
  }

  /** The entry of the next cell has a cell to come and this one fits, or the table or a count is wrong. */
  lemma NewStep(v: Book, mapNew: map<int, int>, b: int, i: int)
    requires NewLeft(v, mapNew, b, i) && (b, i) in v.cells && v.cells[(b, i)] != -1
    ensures var id := v.cells[(b, i)];
            if id in mapNew && id in v.infos && v.h.newPos(b, v.infos[id].service) == i
            then var k := mapNew[id] - 1; NewLeft(v, if k == 0 then mapNew - {id} else mapNew[id := k], b, i + 1)
            else !NewRight(v)
  {
    hide SeenOf;
    var c := (b, i);
    var id := IdAt(v.cells, c);
    SeenStep(v.cells, id, b, i);
    if id in mapNew && id in v.infos && v.h.newPos(b, v.infos[id].service) == i {
      forall x | x in v.infos && x != id ensures SeenOf(v.cells, x, b, i + 1)
          == SeenOf(v.cells, x, b, i) { SeenStep(v.cells, x, b, i); }
      assert NewCellOk(v, c);
      assert ToCome(v, id, b, i + 1) == mapNew[id] - 1;
    } else if NewRight(v) {
      assert id in v.infos && v.h.newPos(b, v.infos[id].service) == i;
      SeenSome(v.cells, id, b, i + 1);
      assert false;
    }
  }

  lemma SeenSome(cells: Cells, id: int, b: int, i: int)
    ensures |SeenOf(cells, id, b, i)| <= |CellsOf(cells, id)|
  {
    var some, all := SeenOf(cells, id, b, i), CellsOf(cells, id);
    assert forall c :: c in all <==> c in some + (all - some);
    assert all == some + (all - some);
  }

  lemma NewNextBucket(v: Book, mapNew: map<int, int>, b: int)
    requires NewLeft(v, mapNew, b, BUCKET_SIZE) && P.InRange(v)
    ensures NewLeft(v, mapNew, b + 1, 0)
  {
    forall c | c in v.cells ensures Seen(c, b, BUCKET_SIZE) <==> Seen(c, b + 1, 0) { }
    forall id | id in v.infos ensures SeenOf(v.cells, id, b + 1, 0) == SeenOf(v.cells, id, b, BUCKET_SIZE) {
      assert forall c :: c in SeenOf(v.cells, id, b + 1, 0) <==> c in SeenOf(v.cells, id, b, BUCKET_SIZE);
    }
  }

  lemma AllSeen(v: Book, id: int)
    requires P.InRange(v)
    ensures SeenOf(v.cells, id, NEW_BUCKETS, 0) == CellsOf(v.cells, id)
  {
    assert forall c :: c in SeenOf(v.cells, id, NEW_BUCKETS, 0) <==> c in CellsOf(v.cells, id);
  }

  lemma NewEnd(v: Book, mapNew: map<int, int>)
    requires NewLeft(v, mapNew, NEW_BUCKETS, 0) && P.InRange(v) && EntriesOk(v)
    ensures mapNew == map[] <==> NewRight(v)
  {
    hide SeenOf, CellsOf;
    forall id ensures SeenOf(v.cells, id, NEW_BUCKETS, 0) == CellsOf(v.cells, id) { AllSeen(v, id); }
    if mapNew == map[] {
      forall c | c in v.cells ensures NewCellOk(v, c) { assert Seen(c, NEW_BUCKETS, 0); }
      forall id | id in v.infos && v.infos[id].inTried ensures |CellsOf(v.cells, id)| == 0 { TriedHasNone(v, id); }
      forall id | id in v.infos ensures EntryOk(v, id) && v.infos[id].refCount == |CellsOf(v.cells, id)| {
        assert id !in mapNew;
      }
    }
    if NewRight(v) {
      forall id | id in v.infos ensures ToCome(v, id, NEW_BUCKETS, 0) == 0 { }
      assert forall id :: id !in mapNew;
    }
  }

  lemma TriedHasNone(v: Book, id: int)
    requires id in v.infos && v.infos[id].inTried && forall c :: c in v.cells ==> NewCellOk(v, c)
    ensures |CellsOf(v.cells, id)| == 0
  {
    forall c | c in v.cells ensures v.cells[c] != id { assert NewCellOk(v, c); }
    assert forall c :: c !in CellsOf(v.cells, id);
    assert CellsOf(v.cells, id) == {};
  }

  // ---------- the check as code ----------

  /** All parts pass exactly if the whole does. */
  lemma PartsPass(v: Book)
    requires EntriesOk(v)
    ensures Passes(v) <==>
              && |v.random| == v.nTried + v.nNew && |TriedIds(v.infos)| == v.nTried && |NewIds(v.infos)| == v.nNew
              && TriedPlaced(v.h, v.infos, v.tried) && NewRight(v)
  {
    hide Ordered, TriedPlaced, NewPlaced, RefsCounted, Counted;
    SizesRight(v);
    forall id | id in v.infos ensures TimesFit(v.infos[id]) && Indexed(id, v.infos[id].service.net, v.addrs) {
      assert EntryOk(v, id);
    }
  }

  /** The address map after entries were looked up in it. */
  function Looked(v: Book, todo: set<int>): map<NetAddr, int> {
    if 0 in v.infos && 0 !in todo && v.infos[0].service.net !in v.addrs
    then v.addrs[v.infos[0].service.net := 0] else v.addrs
  }

  /** Which part an error speaks of; the parts are tested in this order. */
  ghost predicate Explained(v: Book, keyIsNull: bool, err: int) {
    if |v.random| != v.nTried + v.nNew then err == -7
    else if !EntriesOk(v) then FirstError(v, err)
    else if |TriedIds(v.infos)| != v.nTried then err == -9
    else if |NewIds(v.infos)| != v.nNew then err == -10
    else
      && (err in {-11, -13, -17, -18} ==> !TriedPlaced(v.h, v.infos, v.tried))
      && (err in {-12, -15, -19} ==> !NewRight(v))
      && (err == -16 <==> Passes(v) && keyIsNull)
      && err in {0, -11, -12, -13, -15, -16, -17, -18, -19}
  }

  /** No numbered error exactly if the manager is consistent but for its address map and has a
      key; only the address of entry 0 may have been entered. */
  method Check_(a: A.AddrMan, keyIsNull: bool) returns (err: int)
    requires a.Shape()
    modifies a`mapAddr
    ensures err == 0 <==> Passes(old(a.State())) && !keyIsNull
    ensures Explained(old(a.State()), keyIsNull, err)
    ensures err == 0 ==> a.mapAddr == Looked(old(a.State()), {})
    ensures old(a.Valid()) && Timed(a.mapInfo) && !keyIsNull ==> err == 0 && a.mapAddr == old(a.mapAddr)
  {
    hide Passes, Sound, Timed, Collected, TriedLeft, NewLeft, NewRight, TriedPlaced, EntriesOk, FirstError, A.Occupied,
         P.InRange;
    ghost var v := a.State();
    A.TablesInRange(a);
    SoundChecked(v);
    if Passes(v) { PassesEntries(v); }
    if EntriesOk(v) { PartsPass(v); }
    if |a.vRandom| != a.nTried + a.nNew {
      return -7;
    }
    var setTried, mapNew;
    err, setTried, mapNew := CheckEntries(a);
    if err != 0 { return; }
    CollectedSizes(v.infos, setTried, mapNew);
    TriedStart(v, setTried, mapNew);
    NewStart(v, setTried, mapNew);
    CollectedIn(v.infos, setTried, mapNew);
    if |setTried| != a.nTried { return -9; }
    if |mapNew| != a.nNew { return -10; }
    err, setTried := CheckTried(a, v, setTried);
    if err != 0 { return; }
    err, mapNew := CheckNew(a, v, mapNew);
    if err != 0 { return; }
    TriedEnd(v, setTried);
    NewEnd(v, mapNew);
    if |setTried| != 0 { return -13; }
    if |mapNew| != 0 { return -15; }
    if keyIsNull { return -16; }
  }

  lemma SoundChecked(v: Book)
    ensures Sound(v) && Timed(v.infos) ==> Passes(v) && Looked(v, {}) == v.addrs
  {
    hide Passes, Sound, Timed;
    PassesOrSound(v);
  }

  lemma CollectedIn(infos: Infos, setTried: set<int>, mapNew: map<int, int>)
    requires Collected(infos, {}, setTried, mapNew)
    ensures (forall id :: id in setTried ==> id in infos) && (forall id :: id in mapNew ==> id in infos)
  {
  }

  predicate AtMost(n: int, ids: set<int>) { forall m :: m in ids ==> n <= m }

  lemma {:induction false} Least(ids: set<int>)
    ensures ids == {} || exists n :: n in ids && AtMost(n, ids)
    decreases |ids|
  {
    if x :| x in ids {
      var rest := ids - {x};
      Least(rest);
      if n :| n in rest && AtMost(n, rest) {
        var least := if x < n then x else n;
        forall m | m in ids ensures least <= m { assert m == x || m in rest; }
        assert least in ids && AtMost(least, ids);
      } else {
        assert forall m :: m in ids ==> m == x || m in rest;
        assert x in ids && AtMost(x, ids);
      }
    } else {
      assert forall m :: m in ids <==> m in {};
    }
  }

  /** Looks at the entries by ascending id. */
  method CheckEntries(a: A.AddrMan) returns (err: int, setTried: set<int>, mapNew: map<int, int>)
    requires a.Shape()
    modifies a`mapAddr
    ensures err == 0 <==> EntriesOk(old(a.State()))
    ensures err != 0 ==> FirstError(old(a.State()), err)
    ensures err == 0 ==> Collected(a.mapInfo, {}, setTried, mapNew) && a.mapAddr == Looked(old(a.State()), {})
  {
    hide A.Occupied, FirstError, EntryOk, EntryError, Indexed;
    setTried, mapNew := {}, map[];
    ghost var v := a.State();
    var todo := a.mapInfo.Keys;
    while todo != {}
      invariant todo <= a.mapInfo.Keys && Collected(a.mapInfo, todo, setTried, mapNew) && a.mapAddr == Looked(v, todo)
      invariant forall id :: id in v.infos && id !in todo ==> EntryOk(v, id)
    {
      Least(todo);
      var n :| n in todo && AtMost(n, todo);
      FirstIs(v, n);
      LookedUp(v, todo, n);
      err := CheckEntry(a, n);
      if err != 0 { return; }
      var info := a.mapInfo[n];
      todo := todo - {n};
      if info.inTried { setTried := setTried + {n}; } else { mapNew := mapNew[n := info.refCount]; }
    }
    err := 0;
  }

  lemma FirstIs(v: Book, n: int)
    requires n in v.infos
    ensures EntryError(v, n) == 0 <==> EntryOk(v, n)
    ensures EntryError(v, n) != 0 && (forall k :: k in v.infos && k < n ==> EntryOk(v, k)) ==>
              FirstError(v, EntryError(v, n)) && !EntriesOk(v)
  {
    hide EntryOk, EntryError;
    EntryErrorIs(v, n);
  }

  /** The tests of one entry; its address is looked up on the way. */
  method CheckEntry(a: A.AddrMan, n: int) returns (err: int)
    requires n in a.mapInfo
    modifies a`mapAddr
    ensures err == EntryError(old(a.State()), n)
    ensures var net := a.mapInfo[n].service.net;
            err == 0 ==> a.mapAddr == if net in old(a.mapAddr) then old(a.mapAddr) else old(a.mapAddr)[net := 0]
  {
    hide A.Occupied;
    var info := a.mapInfo[n];
    if info.inTried {
      if info.lastSuccess == 0 { return -1; }
      if info.refCount != 0 { return -2; }
    } else {
      if info.refCount < 0 || info.refCount > NEW_BUCKETS_PER_ADDRESS { return -3; }
      if info.refCount == 0 { return -4; }
    }
    if info.service.net !in a.mapAddr { a.mapAddr := a.mapAddr[info.service.net := 0]; }
    if a.mapAddr[info.service.net] != n { return -5; }
    if info.randomPos < 0 || info.randomPos >= |a.vRandom| || a.vRandom[info.randomPos] != n { return -14; }
    if info.lastTry < 0 { return -6; }
    if info.lastSuccess < 0 { return -8; }
    err := 0;
  }

  /** Looking up entries changes nothing for those still to be looked up, unless it fails. */
  lemma LookedUp(v: Book, todo: set<int>, n: int)
    requires n in todo && n in v.infos
    ensures var a := v.infos[n].service.net;
            var m := Looked(v, todo);
            && EntryError(v.(addrs := m), n) == EntryError(v, n)
            && (EntryError(v, n) == 0 ==> (if a in m then m else m[a := 0]) == Looked(v, todo - {n}))
  {
  }

  method CheckTried(a: A.AddrMan, ghost v: Book, all: set<int>) returns (err: int, setTried: set<int>)
    requires a.Shape() && P.InRange(v) && v.infos == a.mapInfo && v.h == a.hasher && v.tried == A.Occupied(a.vvTried)
    requires TriedLeft(v, all, 0, 0) && forall id :: id in all ==> id in a.mapInfo
    ensures if err == 0 then TriedLeft(v, setTried, TRIED_BUCKETS, 0) else !TriedPlaced(v.h, v.infos, v.tried)
    ensures err in {0, -11, -17, -18}
  {
    hide TriedLeft, TriedPlaced, A.Occupied, P.InRange;
    setTried := all;
    for b := 0 to TRIED_BUCKETS
      invariant TriedLeft(v, setTried, b, 0) && forall id :: id in setTried ==> id in a.mapInfo
    {
      for i := 0 to BUCKET_SIZE
        invariant TriedLeft(v, setTried, b, i) && forall id :: id in setTried ==> id in a.mapInfo
      {
        A.CellValue(a.vvTried, (b, i));
        if (b, i) in v.tried { TriedStep(v, setTried, b, i); } else { TriedSkip(v, setTried, b, i); }
        var id := a.vvTried[b, i];
        if id != -1 {
          if id !in setTried { return -11, setTried; }
          var s := a.mapInfo[id].service;
          if a.hasher.triedBucket(s) != b { return -17, setTried; }
          if a.hasher.triedPos(b, s) != i { return -18, setTried; }
          setTried := setTried - {id};
        }
      }
      TriedNextBucket(v, setTried, b);
    }
    err := 0;
  }

  method CheckNew(a: A.AddrMan, ghost v: Book, all: map<int, int>) returns (err: int, mapNew: map<int, int>)
    requires a.Shape() && P.InRange(v) && v.infos == a.mapInfo && v.h == a.hasher && v.cells == A.Occupied(a.vvNew)
    requires NewLeft(v, all, 0, 0) && forall id :: id in all ==> id in a.mapInfo
    ensures if err == 0 then NewLeft(v, mapNew, NEW_BUCKETS, 0) else !NewRight(v)
    ensures err in {0, -12, -19}
  {
    hide NewLeft, NewRight, A.Occupied, P.InRange;
    mapNew := all;
    for b := 0 to NEW_BUCKETS
      invariant NewLeft(v, mapNew, b, 0) && forall id :: id in mapNew ==> id in a.mapInfo
    {
      for i := 0 to BUCKET_SIZE
        invariant NewLeft(v, mapNew, b, i) && forall id :: id in mapNew ==> id in a.mapInfo
      {
        A.CellValue(a.vvNew, (b, i));
        if (b, i) in v.cells { NewStep(v, mapNew, b, i); } else { NewSkip(v, mapNew, b, i); }
        var id := a.vvNew[b, i];
        if id != -1 {
          if id !in mapNew { return -12, mapNew; }
          if a.hasher.newPos(b, a.mapInfo[id].service) != i { return -19, mapNew; }
          var k := mapNew[id] - 1;
          mapNew := if k == 0 then mapNew - {id} else mapNew[id := k];
        }
      }
      NewNextBucket(v, mapNew, b);
    }
    err := 0;
  }
}
