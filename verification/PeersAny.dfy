/** Loading any file of peers, not only one that was saved: what comes out is consistent but
    for the address map exactly if neither count is negative, and then fully consistent exactly
    if no kept entry shares its address. */
module PeersAny {
  import opened AddrBook
  import opened Options
  import opened Peers

  /** Consistent but for the address map, with these counts; entries in `zero` may have no cell. */
  ghost predicate Shaped(v: Book, zero: set<int>, nTried: int, nNew: int) {
    && Tidy(v) && Numbered(v.infos, v.next) && TriedPlaced(v.h, v.infos, v.tried) && NewPlaced(v.h, v.infos, v.cells)
    && RefsCounted(v.infos, v.cells, zero) && Counted(v.infos, nTried, nNew, {})
  }

  // ---------- entries ----------

  lemma NewcomerShaped(v: Book, nTried: int, nNew: int, info: Info, addrs: map<NetAddr, int>)
    requires Shaped(v, v.infos.Keys, nTried, nNew) && info.randomPos == |v.random| && info.refCount == 0
             && !info.inTried
    ensures var w := v.(next := v.next + 1, infos := v.infos[v.next := info], addrs := addrs, random :=
            v.random + [v.next]);
            Shaped(w, w.infos.Keys, nTried, nNew + 1)
  {
    hide Tidy, TriedPlaced, NewPlaced, RefsCounted, Counted, NewIds, TriedIds;
    var id := v.next;
    TidyEnter(v, info);
    TidyMore(v, addrs, v.tried, info);
    NextIsNew(v);
    PlacedCreate(v, v.infos.Keys, id, info);
    RefsLater(v.infos[id := info], v.cells, v.infos.Keys + {id}, v.infos[id := info].Keys);
    CountNew(v.infos, nTried, nNew, id, info);
  }

  lemma CountNew(infos: Infos, nTried: int, nNew: int, id: int, info: Info)
    requires Counted(infos, nTried, nNew, {}) && id !in infos && !info.inTried
    ensures Counted(infos[id := info], nTried, nNew + 1, {})
  {
    hide Counted;
    CountedCreate(infos, nTried, nNew, id, info);
    CountIn(infos[id := info], nTried, nNew, {id}, id);
    assert {id} - {id} == {};
  }

  lemma NextIsNew(v: Book)
    requires Tidy(v)
    ensures v.next !in v.infos
  {
  }

  lemma ReferShaped(v: Book, nTried: int, nNew: int, id: int, c: (int, int))
    requires Shaped(v, v.infos.Keys, nTried, nNew) && c !in v.cells
    requires id in v.infos && !v.infos[id].inTried && v.infos[id].refCount < NEW_BUCKETS_PER_ADDRESS
    requires v.h.newPos(c.0, v.infos[id].service) == c.1
    ensures Shaped(Refer(v, id, c), Refer(v, id, c).infos.Keys, nTried, nNew)
  {
    hide Tidy, TriedPlaced, RefsCounted, Counted;
    var info := v.infos[id].(refCount := v.infos[id].refCount + 1);
    var w := Refer(v, id, c);
    TidyRefer(v, id, c);
    AlikePlaced(v, w.infos, nTried, nNew, {});
    RefsRefer(v.infos, v.cells, v.infos.Keys, c, id, info);
    RefsLater(w.infos, w.cells, v.infos.Keys - {id}, w.infos.Keys);
  }

  lemma RefsLater(infos: Infos, cells: Cells, zero: set<int>, more: set<int>)
    requires RefsCounted(infos, cells, zero) && forall id :: id in zero ==> id in more
    ensures RefsCounted(infos, cells, more)
  {
  }

  lemma EnterNewShaped(v: Book, e: Stored, usable: bool, nTried: int, nNew: int)
    requires Shaped(v, v.infos.Keys, nTried, nNew)
    ensures var w := EnterNew(v, e, usable); Shaped(w, w.infos.Keys, nTried, nNew + 1)
  {
    hide Shaped;
    var id := v.next;
    var info, addrs := Load(e, |v.random|), v.addrs[e.address.service.net := id];
    NewcomerShaped(v, nTried, nNew, info, addrs);
    var w := v.(next := id + 1, infos := v.infos[id := info], addrs := addrs, random := v.random + [id]);
    var c := NewCell(v.h, e.address.service, e.source);
    if !usable && c !in v.cells { ReferShaped(w, nTried, nNew + 1, id, c); }
  }

  lemma EnterTriedShaped(v: Book, e: Stored, nTried: int, nNew: int)
    requires Shaped(v, v.infos.Keys, nTried, nNew) && TriedCell(v.h, e.address.service) !in v.tried
    ensures var w := EnterTried(v, e); Shaped(w, w.infos.Keys, nTried + 1, nNew)
  {
    hide Tidy, TriedPlaced, NewPlaced, RefsCounted, Counted;
    var info := Load(e, |v.random|).(inTried := true);
    TidyEnter(v, info);
    TidyMore(v, v.addrs[e.address.service.net := v.next], v.tried[TriedCell(v.h, e.address.service) := v.next], info);
    NextIsNew(v);
    TriedMoreOne(v, v.next, info);
    CountMore(v, v.next, info, nTried, nNew);
    RefsMore(v, v.next, info);
  }

  lemma TidyMore(v: Book, addrs: map<NetAddr, int>, tried: Cells, info: Info)
    requires Tidy(v.(next := v.next + 1, infos := v.infos[v.next := info], random := v.random + [v.next]))
    ensures Tidy(v.(next := v.next + 1, infos := v.infos[v.next := info], addrs := addrs, random :=
            v.random + [v.next], tried := tried))
  {
  }

  lemma CountMore(v: Book, id: int, info: Info, nTried: int, nNew: int)
    requires Counted(v.infos, nTried, nNew, {}) && id !in v.infos && info.inTried
    ensures Counted(v.infos[id := info], nTried + 1, nNew, {})
  {
    var infos := v.infos[id := info];
    assert NewIds(infos) - {} == NewIds(v.infos) - {} by {
      assert forall k :: k in NewIds(infos) - {} <==> k in NewIds(v.infos) - {};
    }
    assert TriedIds(infos) == TriedIds(v.infos) + {id} by {
      assert forall k :: k in TriedIds(infos) <==> k in TriedIds(v.infos) + {id};
    }
  }

  lemma RefsMore(v: Book, id: int, info: Info)
    requires NewPlaced(v.h, v.infos, v.cells) && RefsCounted(v.infos, v.cells, v.infos.Keys)
    requires id !in v.infos && info.inTried && info.refCount == 0
    ensures NewPlaced(v.h, v.infos[id := info], v.cells)
            && RefsCounted(v.infos[id := info], v.cells, v.infos[id := info].Keys)
  {
    assert forall c :: c in v.cells ==> IdAt(v.cells, c) != id;
    assert forall c :: c in CellsOf(v.cells, id) <==> c in {};
  }

  lemma TriedMoreOne(v: Book, id: int, info: Info)
    requires TriedPlaced(v.h, v.infos, v.tried) && id !in v.infos && info.inTried
             && TriedCell(v.h, info.service) !in v.tried
    ensures TriedPlaced(v.h, v.infos[id := info], v.tried[TriedCell(v.h, info.service) := id])
  {
  }

  // ---------- the stages of loading ----------

  /** Counts that are not negative, and as many entries. */
  predicate Natural(p: Peers) { 0 <= p.nNew && 0 <= p.nTried && Enough(p) }

  /** New entries have the ids below p.nNew. */
  ghost predicate Stage(p: Peers, v: Book, nTried: int, nNew: int) {
    && Shaped(v, v.infos.Keys, nTried, nNew) && v.nNew == p.nNew
    && forall id :: id in v.infos && id < p.nNew ==> !v.infos[id].inTried
  }

  lemma {:induction false} NewsShaped(p: Peers, k: nat)
    requires Natural(p) && k <= p.nNew
    ensures Stage(p, LoadNews(p, k), 0, k) && LoadNews(p, k).next == k && LoadNews(p, k).nTried == p.nTried
    decreases k
  {
    hide Shaped, EnterNew, Usable;
    if k == 0 {
      NoneShaped(LoadNews(p, 0));
    } else {
      NewsShaped(p, k - 1);
      EnterNewShaped(LoadNews(p, k - 1), p.entries[k - 1], Usable(p), 0, k - 1);
      EnterNewSide(LoadNews(p, k - 1), p.entries[k - 1], Usable(p));
    }
  }

  lemma EnterNewSide(v: Book, e: Stored, usable: bool)
    ensures var w := EnterNew(v, e, usable);
            && w.next == v.next + 1 && w.nTried == v.nTried && w.nNew == v.nNew
            && forall id :: id in w.infos && id != v.next ==> id in v.infos && w.infos[id] == v.infos[id]
    ensures !EnterNew(v, e, usable).infos[v.next].inTried
  {
  }

  lemma NoneShaped(v: Book)
    requires v.next >= 0 && v.infos == map[] && v.random == [] && v.tried == map[] && v.cells == map[]
    ensures Shaped(v, v.infos.Keys, 0, 0)
  {
    assert forall k :: k in NewIds(map[]) - {} <==> k in {};
    assert forall k :: k in TriedIds(map[]) <==> k in {};
  }

  /** Tried entries whose cell is taken are lost, and taken off the count. */
  lemma {:induction false} TriedsShaped(p: Peers, k: nat)
    requires Natural(p) && k <= p.nTried
    ensures var v := LoadTrieds(p, k);
            Stage(p, v, v.nTried - (p.nTried - k), p.nNew) && v.next >= p.nNew
    decreases k
  {
    hide Shaped;
    if k == 0 {
      NewsShaped(p, p.nNew);
    } else {
      TriedsShaped(p, k - 1);
      var v, e := LoadTrieds(p, k - 1), p.entries[p.nNew + k - 1];
      if TriedCell(v.h, e.address.service) !in v.tried {
        EnterTriedShaped(v, e, v.nTried - (p.nTried - (k - 1)), p.nNew);
      } else {
        OtherFields(v, v.nTried - 1, v.nTried - (p.nTried - (k - 1)), p.nNew);
      }
    }
  }

  lemma OtherFields(v: Book, n: int, nTried: int, nNew: int)
    requires Shaped(v, v.infos.Keys, nTried, nNew)
    ensures Shaped(v.(nTried := n), v.infos.Keys, nTried, nNew)
  {
  }

  lemma IndexShaped(p: Peers, v: Book, b: int, index: int, usable: bool, nTried: int)
    requires Stage(p, v, nTried, p.nNew)
    ensures Stage(p, EnterIndex(v, b, index, usable), nTried, p.nNew)
    ensures EnterIndex(v, b, index, usable).nTried == v.nTried
  {
    hide Shaped;
    if 0 <= index < v.nNew && index in v.infos {
      var c := (b, v.h.newPos(b, v.infos[index].service));
      if usable && c !in v.cells && v.infos[index].refCount < NEW_BUCKETS_PER_ADDRESS {
        ReferShaped(v, nTried, p.nNew, index, c);
      }
    }
  }

  lemma {:induction false} BucketShaped(p: Peers, v: Book, b: int, indexes: seq<int>, usable: bool, nTried: int)
    requires Stage(p, v, nTried, p.nNew)
    ensures Stage(p, LoadBucket(v, b, indexes, usable), nTried, p.nNew)
    ensures LoadBucket(v, b, indexes, usable).nTried == v.nTried
    decreases |indexes|
  {
    hide Stage, EnterIndex;
    if indexes != [] {
      var n := |indexes| - 1;
      BucketShaped(p, v, b, indexes[..n], usable, nTried);
      IndexShaped(p, LoadBucket(v, b, indexes[..n], usable), b, indexes[n], usable, nTried);
    }
  }

  lemma {:induction false} BucketsShaped(p: Peers, b: nat)
    requires Natural(p) && b <= |p.buckets|
    ensures Stage(p, LoadBuckets(p, b), LoadBuckets(p, b).nTried, p.nNew)
    decreases b
  {
    hide Stage, LoadBucket;
    if b == 0 {
      TriedsShaped(p, p.nTried);
    } else {
      BucketsShaped(p, b - 1);
      BucketShaped(p, LoadBuckets(p, b - 1), b - 1, p.buckets[b - 1], Usable(p), LoadBuckets(p, b - 1).nTried);
    }
  }

  // ---------- pruning ----------

  lemma DeleteShaped(v: Book, zero: set<int>, id: int)
    requires Shaped(v, zero, v.nTried, v.nNew) && id in v.infos && !v.infos[id].inTried && v.infos[id].refCount == 0
    ensures var w := Delete(v, id);
            && Shaped(w, zero - {id}, w.nTried, w.nNew) && OnlyMoved(w.infos, v.infos - {id})
            && w.addrs == v.addrs - {v.infos[id].service.net}
  {
    hide Tidy, TriedPlaced, NewPlaced, RefsCounted, Counted, Alike, Swap;
    TidyDelete(v, id);
    var w := Swap(v, v.infos[id].randomPos, |v.random| - 1);
    SwappedAlike(v, v.infos[id].randomPos, |v.random| - 1);
    AlikePlaced(v, w.infos, v.nTried, v.nNew, {});
    RefsMoved(v.infos, w.infos, v.cells, zero);
    PlacedForget(w, zero, {}, id);
  }

  lemma SwappedAlike(v: Book, p: int, q: int)
    ensures var w := Swap(v, p, q);
            && OnlyMoved(w.infos, v.infos) && Alike(w.infos, v.infos) && w == v.(infos := w.infos, random := w.random)
  {
  }

  /** The entries below n that got no cell. */
  ghost function Unplaced(infos: Infos, n: int): set<int> {
    set id | id in infos && 0 <= id < n && !infos[id].inTried && infos[id].refCount == 0
  }

  ghost function From(infos: Infos, n: int): set<int> { set id | id in infos && id >= n }

  ghost predicate Lost(infos: Infos, n: int, a: NetAddr) {
    exists id :: id in Unplaced(infos, n) && infos[id].service.net == a
  }

  /** Once pruned below n: the unplaced entries are gone, and their addresses with them. */
  ghost predicate Pruned(v: Book, w: Book, n: int) {
    && OnlyMoved(w.infos, v.infos - Unplaced(v.infos, n))
    && (forall a :: a in w.addrs <==> a in v.addrs && !Lost(v.infos, n, a))
    && (forall a :: a in w.addrs ==> w.addrs[a] == v.addrs[a])
  }

  lemma {:induction false} PruneShaped(v: Book, n: nat)
    requires Shaped(v, v.infos.Keys, v.nTried, v.nNew)
    ensures var w := Prune(v, n); Pruned(v, w, n) && Shaped(w, From(v.infos, n), w.nTried, w.nNew)
    decreases n
  {
    hide Shaped, Delete, OnlyMoved, Lost, Unplaced, From;
    if n == 0 {
      PruneStart(v);
    } else {
      PruneShaped(v, n - 1);
      var w := Prune(v, n - 1);
      var id := n - 1;
      if id in w.infos && !w.infos[id].inTried && w.infos[id].refCount == 0 {
        DeleteShaped(w, From(v.infos, id), id);
        PruneOne(v, w, Delete(w, id), id);
      } else {
        PruneNone(v, w, id);
      }
    }
  }

  lemma PruneStart(v: Book)
    requires Shaped(v, v.infos.Keys, v.nTried, v.nNew)
    ensures Pruned(v, v, 0) && Shaped(v, From(v.infos, 0), v.nTried, v.nNew)
  {
    assert forall id :: id in Unplaced(v.infos, 0) <==> id in {};
    assert v.infos - Unplaced(v.infos, 0) == v.infos;
    assert forall id :: id in From(v.infos, 0) <==> id in v.infos.Keys;
    assert From(v.infos, 0) == v.infos.Keys;
  }

  lemma PruneOne(v: Book, w: Book, x: Book, id: int)
    requires Pruned(v, w, id) && id in w.infos && id >= 0 && !w.infos[id].inTried && w.infos[id].refCount == 0
    requires Shaped(x, From(v.infos, id) - {id}, x.nTried, x.nNew)
    requires OnlyMoved(x.infos, w.infos - {id}) && x.addrs == w.addrs - {w.infos[id].service.net}
    ensures Pruned(v, x, id + 1) && Shaped(x, From(v.infos, id + 1), x.nTried, x.nNew)
  {
    hide Shaped;
    assert id in v.infos && v.infos[id].service == w.infos[id].service;
    assert forall k :: k in Unplaced(v.infos, id + 1) <==> k in Unplaced(v.infos, id) || k == id;
    assert forall k :: k in From(v.infos, id + 1) <==> k in From(v.infos, id) - {id};
    assert From(v.infos, id + 1) == From(v.infos, id) - {id};
    forall a ensures Lost(v.infos, id + 1, a) <==> Lost(v.infos, id, a) || a == v.infos[id].service.net {
      if a == v.infos[id].service.net { assert id in Unplaced(v.infos, id + 1); }
      if Lost(v.infos, id, a) {
        var k :| k in Unplaced(v.infos, id) && v.infos[k].service.net == a;
        assert k in Unplaced(v.infos, id + 1);
      }
    }
  }

  lemma PruneNone(v: Book, w: Book, id: int)
    requires Pruned(v, w, id) && id >= 0 && (id !in w.infos || w.infos[id].inTried || w.infos[id].refCount != 0)
    requires Shaped(w, From(v.infos, id), w.nTried, w.nNew)
    ensures Pruned(v, w, id + 1) && Shaped(w, From(v.infos, id + 1), w.nTried, w.nNew)
  {
    hide TriedPlaced, NewPlaced, Counted, Tidy;
    assert forall k :: k in Unplaced(v.infos, id + 1) <==> k in Unplaced(v.infos, id);
    assert Unplaced(v.infos, id + 1) == Unplaced(v.infos, id);
    assert forall a :: Lost(v.infos, id + 1, a) <==> Lost(v.infos, id, a);
    assert forall k :: k in From(v.infos, id) ==> k == id || k in From(v.infos, id + 1);
  }

  // ---------- what comes out of any file ----------

  ghost function Raw(p: Peers): Book
    requires Enough(p) && BucketCount(p) <= |p.buckets|
  {
    LoadBuckets(p, BucketCount(p))
  }

  lemma NaturalFile(p: Peers)
    requires Unserialized(p).Some? && Natural(p)
    ensures var w := Unserialized(p).value; Shaped(w, {}, w.nTried, w.nNew) && Pruned(Raw(p), w, Raw(p).next)
  {
    hide Shaped, Prune, LoadBuckets, Pruned;
    var v := Raw(p);
    BucketsShaped(p, BucketCount(p));
    StageIs(p, v);
    PruneShaped(v, Top(v));
    AllBelow(v);
  }

  lemma StageIs(p: Peers, v: Book)
    requires Stage(p, v, v.nTried, p.nNew)
    ensures Shaped(v, v.infos.Keys, v.nTried, v.nNew) && v.next >= 0
  {
  }

  lemma AllBelow(v: Book)
    requires Shaped(v, v.infos.Keys, v.nTried, v.nNew)
    ensures From(v.infos, v.next) == {}
  {
    assert forall id :: id !in From(v.infos, v.next);
  }

  // ---------- negative counts ----------

  lemma {:induction false} NewsCounts(p: Peers, k: nat)
    requires k <= |p.entries|
    ensures LoadNews(p, k).nNew == p.nNew && LoadNews(p, k).nTried == p.nTried
    decreases k
  {
    if k > 0 { NewsCounts(p, k - 1); }
  }

  /** Reading tried entries never raises a count; a negative one stays. */
  lemma {:induction false} TriedsCounts(p: Peers, k: nat)
    requires NewCount(p) + k <= |p.entries|
    ensures LoadTrieds(p, k).nNew == p.nNew && LoadTrieds(p, k).nTried <= p.nTried
    decreases k
  {
    hide LoadNews;
    if k == 0 { NewsCounts(p, NewCount(p)); } else { TriedsCounts(p, k - 1); }
  }

  lemma {:induction false} BucketCounts(v: Book, b: int, indexes: seq<int>, usable: bool)
    ensures LoadBucket(v, b, indexes, usable).nNew == v.nNew && LoadBucket(v, b, indexes, usable).nTried == v.nTried
    decreases |indexes|
  {
    if indexes != [] { BucketCounts(v, b, indexes[..|indexes| - 1], usable); }
  }

  lemma {:induction false} BucketsCounts(p: Peers, b: nat)
    requires Enough(p) && b <= |p.buckets|
    ensures LoadBuckets(p, b).nNew == p.nNew && LoadBuckets(p, b).nTried <= p.nTried
    decreases b
  {
    hide LoadBucket, LoadTrieds;
    if b == 0 {
      TriedsCounts(p, TriedCount(p));
    } else {
      BucketsCounts(p, b - 1);
      BucketCounts(LoadBuckets(p, b - 1), b - 1, p.buckets[b - 1], Usable(p));
    }
  }

  lemma {:induction false} PruneCounts(v: Book, n: nat)
    ensures Prune(v, n).nNew <= v.nNew && Prune(v, n).nTried == v.nTried
    decreases n
  {
    if n > 0 { PruneCounts(v, n - 1); }
  }

  /** Whatever the file says, the loaded manager is consistent but for the address map exactly if
      neither count is negative. */
  lemma AnyFile(p: Peers)
    requires Unserialized(p).Some?
    ensures var w := Unserialized(p).value;
            Shaped(w, {}, w.nTried, w.nNew) <==> 0 <= p.nNew && 0 <= p.nTried
  {
    hide Tidy, Numbered, TriedPlaced, NewPlaced, RefsCounted, Prune, LoadBuckets, NewIds, TriedIds;
    if Natural(p) {
      NaturalFile(p);
    } else {
      BucketsCounts(p, BucketCount(p));
      PruneCounts(Raw(p), Top(Raw(p)));
    }
  }

  // ---------- addresses ----------

  /** Every entry's address is known, and leads to an entry with that address. */
  ghost predicate Named(infos: Infos, addrs: map<NetAddr, int>) {
    && (forall id :: id in infos ==> infos[id].service.net in addrs)
    && (forall a :: a in addrs ==> IdOf(addrs, a) in infos && infos[IdOf(addrs, a)].service.net == a)
  }

  /** Only references were counted. */
  ghost predicate Recounted(w: Book, v: Book) {
    && w.addrs == v.addrs && w.infos.Keys == v.infos.Keys
    && forall id :: id in v.infos ==> w.infos[id].service == v.infos[id].service
  }

  ghost predicate Entered(w: Book, v: Book, id: int, s: Service) {
    && id in w.infos && w.infos[id].service == s && w.addrs == v.addrs[s.net := id]
    && (forall k :: k in v.infos ==> k in w.infos && w.infos[k].service == v.infos[k].service)
    && (forall k :: k in w.infos && k != id ==> k in v.infos)
  }

  lemma NamedMore(w: Book, v: Book, id: int, s: Service)
    requires Entered(w, v, id, s) && id !in v.infos && Named(v.infos, v.addrs)
    ensures Named(w.infos, w.addrs)
  {
  }

  lemma NamedSame(w: Book, v: Book)
    requires Recounted(w, v) && Named(v.infos, v.addrs)
    ensures Named(w.infos, w.addrs)
  {
  }

  lemma {:induction false} NewsNamed(p: Peers, k: nat)
    requires Natural(p) && k <= p.nNew
    ensures Named(LoadNews(p, k).infos, LoadNews(p, k).addrs)
    decreases k
  {
    hide EnterNew, Named, Usable;
    if k == 0 {
      NoneNamed(LoadNews(p, 0));
    } else {
      NewsNamed(p, k - 1);
      NewsShaped(p, k - 1);
      var v, e := LoadNews(p, k - 1), p.entries[k - 1];
      StageNext(p, v, 0, k - 1);
      EnterNewIs(v, e, Usable(p));
      NamedMore(EnterNew(v, e, Usable(p)), v, v.next, e.address.service);
    }
  }

  lemma NoneNamed(v: Book)
    requires v.infos == map[] && v.addrs == map[]
    ensures Named(v.infos, v.addrs)
  {
  }

  lemma StageNext(p: Peers, v: Book, nTried: int, nNew: int)
    requires Stage(p, v, nTried, nNew)
    ensures v.next !in v.infos
  {
  }

  lemma EnterNewIs(v: Book, e: Stored, usable: bool)
    requires v.next !in v.infos
    ensures Entered(EnterNew(v, e, usable), v, v.next, e.address.service)
  {
  }

  lemma {:induction false} TriedsNamed(p: Peers, k: nat)
    requires Natural(p) && k <= p.nTried
    ensures Named(LoadTrieds(p, k).infos, LoadTrieds(p, k).addrs)
    decreases k
  {
    hide EnterTried, Named, LoadNews, Entered, Recounted, TriedCell, Stage;
    if k == 0 {
      NewsNamed(p, p.nNew);
    } else {
      TriedsNamed(p, k - 1);
      TriedsShaped(p, k - 1);
      var v, e := LoadTrieds(p, k - 1), p.entries[p.nNew + k - 1];
      StageNext(p, v, v.nTried - (p.nTried - (k - 1)), p.nNew);
      EnterTriedIs(v, e);
      if TriedCell(v.h, e.address.service) in v.tried {
        NamedSame(EnterTried(v, e), v);
      } else {
        NamedMore(EnterTried(v, e), v, v.next, e.address.service);
      }
    }
  }

  lemma EnterTriedIs(v: Book, e: Stored)
    requires v.next !in v.infos
    ensures if TriedCell(v.h, e.address.service) in v.tried then Recounted(EnterTried(v, e), v)
            else Entered(EnterTried(v, e), v, v.next, e.address.service)
  {
  }

  lemma EnterIndexIs(v: Book, b: int, index: int, usable: bool)
    ensures Recounted(EnterIndex(v, b, index, usable), v)
  {
    if index in v.infos {
      var w := v.infos[index := v.infos[index].(refCount := v.infos[index].refCount + 1)];
      assert forall id :: id in w.Keys <==> id in v.infos.Keys;
      assert w.Keys == v.infos.Keys;
    }
  }

  lemma {:induction false} BucketNamed(v: Book, b: int, indexes: seq<int>, usable: bool)
    requires Named(v.infos, v.addrs)
    ensures Named(LoadBucket(v, b, indexes, usable).infos, LoadBucket(v, b, indexes, usable).addrs)
    decreases |indexes|
  {
    hide EnterIndex, Named, Recounted;
    if indexes != [] {
      var k := |indexes| - 1;
      BucketNamed(v, b, indexes[..k], usable);
      var u := LoadBucket(v, b, indexes[..k], usable);
      EnterIndexIs(u, b, indexes[k], usable);
      NamedSame(EnterIndex(u, b, indexes[k], usable), u);
    }
  }

  lemma {:induction false} BucketsNamed(p: Peers, b: nat)
    requires Natural(p) && b <= |p.buckets|
    ensures Named(LoadBuckets(p, b).infos, LoadBuckets(p, b).addrs)
    decreases b
  {
    hide LoadBucket, Named, LoadTrieds;
    if b == 0 {
      TriedsNamed(p, p.nTried);
    } else {
      BucketsNamed(p, b - 1);
      BucketNamed(LoadBuckets(p, b - 1), b - 1, p.buckets[b - 1], Usable(p));
    }
  }

  /** No kept entry has an address that another entry read, kept or not, has too. */
  ghost predicate OwnAddress(v: Book, w: Book) {
    forall id, j :: id in w.infos && j in v.infos && id != j ==> w.infos[id].service.net != v.infos[j].service.net
  }

  lemma PrunedAddressed(v: Book, w: Book, n: int)
    requires Pruned(v, w, n) && Named(v.infos, v.addrs)
    ensures Addressed(w.infos, w.addrs) <==> OwnAddress(v, w)
  {
    forall id | id in w.infos ensures id in v.infos && id !in Unplaced(v.infos, n)
        && w.infos[id].service == v.infos[id].service {
      assert id in v.infos - Unplaced(v.infos, n);
    }
    if OwnAddress(v, w) { OwnIsAddressed(v, w, n); }
    if Addressed(w.infos, w.addrs) {
      forall id, j | id in w.infos && j in v.infos && id != j
          ensures w.infos[id].service.net != v.infos[j].service.net {
        var a := w.infos[id].service.net;
        assert IdOf(w.addrs, a) == id && !Lost(v.infos, n, a);
        if j in Unplaced(v.infos, n) {
          assert v.infos[j].service.net != a;
        } else {
          assert j in v.infos - Unplaced(v.infos, n);
          assert j in w.infos && IdOf(w.addrs, w.infos[j].service.net) == j;
        }
      }
    }
  }

  lemma OwnIsAddressed(v: Book, w: Book, n: int)
    requires Pruned(v, w, n) && Named(v.infos, v.addrs) && OwnAddress(v, w)
    requires forall id :: id in w.infos ==>
               id in v.infos && id !in Unplaced(v.infos, n) && w.infos[id].service == v.infos[id].service
    ensures Addressed(w.infos, w.addrs)
  {
    forall id | id in w.infos ensures w.infos[id].service.net in w.addrs
        && IdOf(w.addrs, w.infos[id].service.net) == id {
      var a := w.infos[id].service.net;
      var k := IdOf(v.addrs, a);
      assert k in v.infos && v.infos[k].service.net == a;
      assert k == id;
      assert !Lost(v.infos, n, a);
    }
    forall a | a in w.addrs ensures IdOf(w.addrs, a) in w.infos && w.infos[IdOf(w.addrs, a)].service.net == a {
      var k := IdOf(v.addrs, a);
      assert k in v.infos && v.infos[k].service.net == a && !Lost(v.infos, n, a);
      assert k !in Unplaced(v.infos, n);
      assert k in v.infos - Unplaced(v.infos, n);
      assert k in w.infos;
    }
  }

  /** A loaded manager is fully consistent exactly if no kept entry shares its address. */
  lemma LoadedOwn(p: Peers)
    requires Unserialized(p).Some? && Natural(p)
    ensures Sound(Unserialized(p).value) <==> OwnAddress(Raw(p), Unserialized(p).value)
  {
    hide Prune, LoadBuckets, Pruned, Named, Addressed, OwnAddress;
    var v, w := Raw(p), Unserialized(p).value;
    NaturalFile(p);
    BucketsNamed(p, BucketCount(p));
    PrunedAddressed(v, w, v.next);
    ShapedSound(w);
  }

  lemma ShapedSound(w: Book)
    requires Shaped(w, {}, w.nTried, w.nNew)
    ensures Sound(w) <==> Addressed(w.infos, w.addrs)
  {
    hide Ordered, TriedPlaced, NewPlaced, RefsCounted, Counted, Addressed;
  }
}
