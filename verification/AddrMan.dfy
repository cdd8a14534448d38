/** The address manager as the object it is: maps, a vector and two bucket tables updated
    in place, each method proved against the operation of the same name in AddrBook. */
module AddrMan {
  import opened AddrBook
  import P = Peers
  import F = PeersFile
  import N = PeersAny
  import E = PeersFailed

  ghost function Occupied(t: array2<int>): Cells
    reads t
  {
    map b: int, i: int | 0 <= b < t.Length0 && 0 <= i < t.Length1 && t[b, i] != -1 :: (b, i) := t[b, i]
  }

  lemma CellValue(t: array2<int>, c: (int, int))
    requires 0 <= c.0 < t.Length0 && 0 <= c.1 < t.Length1
    ensures IdAt(Occupied(t), c) == t[c.0, c.1]
    ensures c in Occupied(t) <==> t[c.0, c.1] != -1
  {
  }

  /** Writes one cell of a bucket table. */
  method SetCell(t: array2<int>, b: int, i: int, id: int)
    requires 0 <= b < t.Length0 && 0 <= i < t.Length1
    modifies t
    ensures Occupied(t) == if id == -1 then old(Occupied(t)) - {(b, i)} else old(Occupied(t))[(b, i) := id]
    ensures t[b, i] == id && forall x, y :: 0 <= x < t.Length0 && 0 <= y < t.Length1 && (x, y) != (b, i) ==>
              t[x, y] == old(t[x, y])
  {
    t[b, i] := id;
    ghost var was, now := old(Occupied(t)), Occupied(t);
    ghost var want := if id == -1 then was - {(b, i)} else was[(b, i) := id];
    assert forall c :: c in now <==> c in want;
    assert forall c :: c in now ==> now[c] == want[c];
  }

  /** Empties a bucket table. */
  method Wipe(t: array2<int>)
    modifies t
    ensures Occupied(t) == map[]
  {
    for bucket := 0 to t.Length0
      invariant forall b, i :: 0 <= b < bucket && 0 <= i < t.Length1 ==> t[b, i] == -1
    {
      for entry := 0 to t.Length1
        invariant forall b, i :: 0 <= b < bucket && 0 <= i < t.Length1 ==> t[b, i] == -1
        invariant forall i :: 0 <= i < entry ==> t[bucket, i] == -1
      {
        t[bucket, entry] := -1;
      }
    }
    assert forall c :: c !in Occupied(t);
  }

  lemma SwapSize(v: Book, p: nat, q: nat, id: int)
    requires CanSwap(v, p, q) && id in v.infos
    ensures var w := Swap(v, p, q);
            |w.random| == |v.random| && w == v.(infos := w.infos, random := w.random)
                && id in w.infos && w.infos[id].service == v.infos[id].service
  {
  }

  class AddrMan {
    var nIdCount: int
    var mapInfo: Infos
    var mapAddr: map<NetAddr, int>
    var vRandom: seq<int>
    var nTried: int
    const vvTried: array2<int>
    var nNew: int
    const vvNew: array2<int>
    var nLastGood: int
    var hasher: Hasher

    ghost predicate Shape() {
      && vvTried.Length0 == TRIED_BUCKETS && vvTried.Length1 == BUCKET_SIZE
      && vvNew.Length0 == NEW_BUCKETS && vvNew.Length1 == BUCKET_SIZE
      && vvTried != vvNew
    }

    ghost function State(): Book
      reads this, vvNew, vvTried
    {
      Book(hasher, nIdCount, mapInfo, mapAddr, vRandom, Occupied(vvTried), nTried, Occupied(vvNew), nNew, nLastGood)
    }

    ghost predicate Valid()
      reads this, vvNew, vvTried
    {
      Shape() && Sound(State())
    }

    constructor (h: Hasher)
      ensures Shape() && State() == Empty(h) && Valid()
      ensures fresh(vvNew) && fresh(vvTried)
    {
      nIdCount, nTried, nNew, nLastGood := 0, 0, 0, 1;
      mapInfo, mapAddr, vRandom := map[], map[], [];
      vvTried := new int[TRIED_BUCKETS, BUCKET_SIZE]((_, _) => -1);
      vvNew := new int[NEW_BUCKETS, BUCKET_SIZE]((_, _) => -1);
      hasher := h;
      new;
      assert forall c :: c !in Occupied(vvNew);
      assert forall c :: c !in Occupied(vvTried);
      assert Occupied(vvNew) == map[] && Occupied(vvTried) == map[];
      EveryRunIsSound(h, []);
    }

    method Create(addr: Address, source: NetAddr) returns (id: int)
      modifies this`nIdCount, this`mapInfo, this`mapAddr, this`vRandom
      ensures id == old(nIdCount) && State() == AddrBook.Create(old(State()), addr, source)
    {
      id := nIdCount;
      nIdCount := nIdCount + 1;
      mapInfo := mapInfo[id := NewInfo(addr, source, 0)];
      mapAddr := mapAddr[addr.service.net := id];
      mapInfo := mapInfo[id := mapInfo[id].(randomPos := |vRandom|)];
      vRandom := vRandom + [id];
    }

    method SwapRandom(pos1: nat, pos2: nat)
      requires CanSwap(State(), pos1, pos2)
      modifies this`mapInfo, this`vRandom
      ensures State() == Swap(old(State()), pos1, pos2)
    {
      hide Occupied;
      if pos1 == pos2 { return; }
      var id1, id2 := vRandom[pos1], vRandom[pos2];
      mapInfo := mapInfo[id1 := mapInfo[id1].(randomPos := pos2)];
      mapInfo := mapInfo[id2 := mapInfo[id2].(randomPos := pos1)];
      vRandom := vRandom[pos1 := id2];
      vRandom := vRandom[pos2 := id1];
    }

    method Delete(id: int)
      requires CanDelete(State(), id)
      modifies this`mapInfo, this`mapAddr, this`vRandom, this`nNew
      ensures State() == AddrBook.Delete(old(State()), id)
    {
      hide Occupied, Swap;
      SwapSize(State(), mapInfo[id].randomPos, |vRandom| - 1, id);
      SwapRandom(mapInfo[id].randomPos, |vRandom| - 1);
      vRandom := vRandom[..|vRandom| - 1];
      mapAddr := mapAddr - {mapInfo[id].service.net};
      mapInfo := mapInfo - {id};
      nNew := nNew - 1;
    }

    method ClearNew(b: int, i: int, ghost zero: set<int>, ghost out: set<int>)
      requires Shape() && 0 <= b < NEW_BUCKETS && 0 <= i < BUCKET_SIZE
      requires Consistent(State(), zero, out) && out <= zero
      requires forall k :: k in zero && k in mapInfo ==> mapInfo[k].refCount == 0
      modifies this`mapInfo, this`mapAddr, this`vRandom, this`nNew, vvNew
      ensures State() == AddrBook.ClearNew(old(State()), (b, i)) && vvNew[b, i] == -1
    {
      hide Consistent, Occupied;
      CellValue(vvNew, (b, i));
      if vvNew[b, i] != -1 {
        var id := vvNew[b, i];
        UnreferKeeps(State(), zero, out, (b, i));
        assert mapInfo[id].refCount > 0;
        mapInfo := mapInfo[id := mapInfo[id].(refCount := mapInfo[id].refCount - 1)];
        SetCell(vvNew, b, i, -1);
        assert State() == Unrefer(old(State()), (b, i));
        if mapInfo[id].refCount == 0 {
          DeleteKeeps(State(), zero + {id}, out, id);
          Delete(id);
        }
      }
    }

    /** Takes `id` out of every new bucket: one hashed position per bucket is looked at. */
    method StripNew(id: int)
      requires Valid() && id in mapInfo && !mapInfo[id].inTried
      modifies this`mapInfo, this`nNew, vvNew
      ensures State() == Strip(old(State()), id)
    {
      hide Consistent, NewPlaced, Occupied, StripBelow, CellsOf;
      ghost var v := State();
      var info := mapInfo[id];
      CellsInRange();
      StripEnds(v, id);
      for bucket := 0 to NEW_BUCKETS
        invariant info == v.infos[id].(refCount := |CellsOf(Occupied(vvNew), id)|)
        invariant Occupied(vvNew) == StripBelow(v.cells, id, bucket)
        invariant mapInfo == v.infos && nNew == v.nNew
      {
        var pos := hasher.newPos(bucket, info.service);
        CellValue(vvNew, (bucket, pos));
        StripBucket(v, id, bucket);
        if vvNew[bucket, pos] == id {
          SetCell(vvNew, bucket, pos, -1);
          info := info.(refCount := info.refCount - 1);
        }
      }
      mapInfo := mapInfo[id := info];
      nNew := nNew - 1;
      assert mapInfo[id].refCount == 0;
    }

    lemma CellsInRange()
      requires Shape()
      ensures forall c :: c in Occupied(vvNew) ==> 0 <= c.0 < NEW_BUCKETS && 0 <= c.1 < BUCKET_SIZE
    {
    }

    /** Empties tried cell (b, i): its entry goes back to a new bucket. */
    method MakeRoom(b: int, i: int, ghost out: int)
      requires Shape() && 0 <= b < TRIED_BUCKETS && 0 <= i < BUCKET_SIZE && vvTried[b, i] != -1
      requires Consistent(State(), {out}, {out}) && out in mapInfo && !mapInfo[out].inTried
               && mapInfo[out].refCount == 0
      modifies this`mapInfo, this`mapAddr, this`vRandom, this`nNew, this`nTried, vvNew, vvTried
      ensures State() == AddrBook.MakeRoom(old(State()), (b, i)) && vvTried[b, i] == -1
    {
      hide Consistent, Occupied, AddrBook.ClearNew;
      CellValue(vvTried, (b, i));
      var idEvict := vvTried[b, i];
      EvictKeeps(State(), {out}, {out}, (b, i));
      mapInfo := mapInfo[idEvict := mapInfo[idEvict].(inTried := false)];
      SetCell(vvTried, b, i, -1);
      nTried := nTried - 1;
      ghost var a := State();
      assert a == Evict(old(State()), (b, i));
      var bucket := hasher.newBucket(mapInfo[idEvict].service, mapInfo[idEvict].source);
      var pos := hasher.newPos(bucket, mapInfo[idEvict].service);
      assert {out} + {idEvict} == {out, idEvict};
      BackToNew(a, out, idEvict, (bucket, pos));
      ClearNew(bucket, pos, {out, idEvict}, {out, idEvict});
      EvictedStays(a, out, idEvict, (bucket, pos));
      mapInfo := mapInfo[idEvict := mapInfo[idEvict].(refCount := 1)];
      SetCell(vvNew, bucket, pos, idEvict);
      nNew := nNew + 1;
    }

    method MakeTried(id: int)
      requires Valid() && id in mapInfo && !mapInfo[id].inTried
      modifies this`mapInfo, this`mapAddr, this`vRandom, this`nNew, this`nTried, vvNew, vvTried
      ensures State() == AddrBook.MakeTried(old(State()), id) && Valid()
    {
      hide Consistent, Occupied, AddrBook.MakeRoom;
      ghost var v := State();
      MakeTriedKeeps(v, id);
      StripKeeps(v, id);
      IdIsNat(v, {}, {}, id);
      StripNew(id);
      var bucket := hasher.triedBucket(mapInfo[id].service);
      var pos := hasher.triedPos(bucket, mapInfo[id].service);
      CellValue(vvTried, (bucket, pos));
      NoRoom(State(), (bucket, pos));
      if vvTried[bucket, pos] != -1 {
        MakeRoomKeeps(State(), id, (bucket, pos));
        MakeRoom(bucket, pos, id);
        assert SameUpToPos(mapInfo, Strip(v, id).infos, id);
      }
      assert vvTried[bucket, pos] == -1;
      ghost var r := State();
      assert r == AddrBook.MakeRoom(Strip(v, id), (bucket, pos));
      assert TriedCell(r.h, r.infos[id].service) == (bucket, pos);
      SetCell(vvTried, bucket, pos, id);
      nTried := nTried + 1;
      mapInfo := mapInfo[id := mapInfo[id].(inTried := true)];
      assert State() == Promote(r, id);
    }

    method Good_(s: Service, time: int, rnd: nat)
      requires Valid()
      modifies this`mapInfo, this`mapAddr, this`vRandom, this`nNew, this`nTried, this`nLastGood, vvNew, vvTried
      ensures State() == Good(old(State()), s, time) && Valid()
    {
      hide Consistent, Occupied, AddrBook.MakeTried;
      GoodKeeps(State(), s, time);
      LastGoodKeeps(State(), time);
      nLastGood := time;
      var id := IdOf(mapAddr, s.net);
      if id !in mapInfo { return; }
      if mapInfo[id].service != s { return; }
      var info := mapInfo[id].(lastSuccess := time, lastTry := time, attempts := 0);
      TouchKeeps(State(), id, info);
      mapInfo := mapInfo[id := info];
      if info.inTried { return; }
      ghost var hit := SomeBucket(id, rnd);
      var bucket := -1;
      var n := 0;
      while n < NEW_BUCKETS
        invariant 0 <= n <= NEW_BUCKETS && -1 <= bucket < NEW_BUCKETS
        invariant bucket == -1 ==> forall k :: 0 <= k < n ==> Missing(id, info.service, rnd, k)
      {
        var b := (n + rnd) % NEW_BUCKETS;
        var pos := hasher.newPos(b, info.service);
        if vvNew[b, pos] == id {
          bucket := b;
          break;
        }
        n := n + 1;
      }
      if bucket == -1 {
        // "something bad happened": cannot be, an untried entry has a cell
        assert false;
      }
      MakeTried(id);
    }

    /** The k-th bucket probed does not hold `id` at the only position it could. */
    ghost predicate Missing(id: int, s: Service, rnd: nat, k: nat)
      requires Shape()
      reads this`hasher, vvNew
    {
      var b := (k + rnd) % NEW_BUCKETS;
      vvNew[b, hasher.newPos(b, s)] != id
    }

    lemma SomeBucket(id: int, rnd: nat) returns (k: nat)
      requires Valid() && id in mapInfo && !mapInfo[id].inTried
      ensures k < NEW_BUCKETS && !Missing(id, mapInfo[id].service, rnd, k)
    {
      hide Consistent, Occupied;
      var c := SomeCell(State(), id);
      CellsInRange();
      k := (c.0 - rnd) % NEW_BUCKETS;
      assert (k + rnd) % NEW_BUCKETS == c.0;
      CellValue(vvNew, c);
    }

    method Attempt_(s: Service, countFailure: bool, time: int)
      requires Valid()
      modifies this`mapInfo
      ensures State() == Attempt(old(State()), s, countFailure, time) && Valid()
    {
      hide Consistent, Occupied;
      UpdatesKeep(State(), s, countFailure, time, {});
      var id := IdOf(mapAddr, s.net);
      if id !in mapInfo || mapInfo[id].service != s { return; }
      mapInfo := mapInfo[id := mapInfo[id].(lastTry := time)];
      if countFailure && mapInfo[id].lastCountAttempt < nLastGood {
        mapInfo := mapInfo[id := mapInfo[id].(lastCountAttempt := time)];
        mapInfo := mapInfo[id := mapInfo[id].(attempts := mapInfo[id].attempts + 1)];
      }
    }

    method Connected_(s: Service, time: int)
      requires Valid()
      modifies this`mapInfo
      ensures State() == Connected(old(State()), s, time) && Valid()
    {
      hide Consistent, Occupied;
      UpdatesKeep(State(), s, false, time, {});
      var id := IdOf(mapAddr, s.net);
      if id !in mapInfo || mapInfo[id].service != s { return; }
      if time - mapInfo[id].time > 20 * 60 {
        mapInfo := mapInfo[id := mapInfo[id].(time := time)];
      }
    }

    method SetServices_(s: Service, services: set<nat>)
      requires Valid()
      modifies this`mapInfo
      ensures State() == SetServices(old(State()), s, services) && Valid()
    {
      hide Consistent, Occupied;
      UpdatesKeep(State(), s, false, 0, services);
      var id := IdOf(mapAddr, s.net);
      if id !in mapInfo || mapInfo[id].service != s { return; }
      mapInfo := mapInfo[id := mapInfo[id].(services := services)];
    }

    /** Gives `id` one more cell, the one `source` hashes to, if it may have it. */
    method Place_(id: int, source: NetAddr, now: int)
      requires Shape() && id in mapInfo && !mapInfo[id].inTried && mapInfo[id].refCount < NEW_BUCKETS_PER_ADDRESS
      requires Consistent(State(), if mapInfo[id].refCount == 0 then {id} else {}, {})
      modifies this`mapInfo, this`mapAddr, this`vRandom, this`nNew, vvNew
      ensures State() == Place(old(State()), id, source, now) && Valid()
    {
      hide Consistent, Occupied, AddrBook.ClearNew, AddrBook.Delete;
      ghost var v := State();
      ghost var zero := if mapInfo[id].refCount == 0 then {id} else {};
      PlaceKeeps(v, id, source, now);
      IdIsNat(v, zero, {}, id);
      var bucket := hasher.newBucket(mapInfo[id].service, source);
      var pos := hasher.newPos(bucket, mapInfo[id].service);
      CellValue(vvNew, (bucket, pos));
      if vvNew[bucket, pos] != id {
        var insert := vvNew[bucket, pos] == -1;
        if !insert {
          UnreferKeeps(v, zero, {}, (bucket, pos));
          var existing := mapInfo[vvNew[bucket, pos]];
          if existing.IsTerrible(now) || (existing.refCount > 1 && mapInfo[id].refCount == 0) {
            insert := true;
          }
        }
        if insert {
          ClearNewKeeps(v, zero, {}, (bucket, pos));
          ClearNew(bucket, pos, zero, {});
          mapInfo := mapInfo[id := mapInfo[id].(refCount := mapInfo[id].refCount + 1)];
          SetCell(vvNew, bucket, pos, id);
        } else if mapInfo[id].refCount == 0 {
          DeleteKeeps(v, zero, {}, id);
          Delete(id);
        }
      }
    }

    /** A known address is announced again. */
    method Refresh(id: int, addr: Address, penalty: int, now: int)
      requires id in mapInfo
      modifies this`mapInfo
      ensures State() == Touch(old(State()), id, Refreshed(old(mapInfo[id]), addr, penalty, now))
    {
      hide Occupied;
      var info := mapInfo[id];
      var online := now - addr.time < 24 * 60 * 60;
      var interval := if online then 60 * 60 else 24 * 60 * 60;
      if addr.time != 0 && (info.time == 0 || info.time < addr.time - interval - penalty) {
        info := info.(time := Max(0, addr.time - penalty));
      }
      info := info.(services := info.services + addr.services);
      mapInfo := mapInfo[id := info];
    }

    /** An unknown address is announced: a counted entry without cells. */
    method Enter(addr: Address, source: NetAddr, penalty: int) returns (id: int)
      requires Valid() && addr.service.net !in mapAddr
      modifies this`nIdCount, this`mapInfo, this`mapAddr, this`vRandom, this`nNew
      ensures id == old(nIdCount) && id in mapInfo && !mapInfo[id].inTried && mapInfo[id].refCount == 0
      ensures var w := AddrBook.Create(old(State()), addr, source);
              State() == Touch(w, id, w.infos[id].(time := Max(0, addr.time - penalty))).(nNew := old(nNew) + 1)
      ensures Consistent(State(), {id}, {})
    {
      hide Consistent, Occupied;
      CreateKeeps(State(), addr, source);
      id := Create(addr, source);
      ghost var w := State();
      mapInfo := mapInfo[id := mapInfo[id].(time := Max(0, mapInfo[id].time - penalty))];
      TouchOne(w, id, mapInfo[id]);
      CountInBook(State(), id);
      nNew := nNew + 1;
    }

    /** `coin` is the number RandomInt returns in the stochastic test. */
    method Add_(routable: bool, addr: Address, source: NetAddr, nTimePenalty: int, now: int, coin: nat)
        returns (isNew: bool)
      requires Valid()
      modifies this`nIdCount, this`mapInfo, this`mapAddr, this`vRandom, this`nNew, vvNew
      ensures (State(), isNew) == Add(old(State()), routable, addr, source, nTimePenalty, now, coin) && Valid()
    {
      hide Consistent, Occupied, Place, Refreshed;
      ghost var v := State();
      AddKeeps(v, routable, addr, source, nTimePenalty, now, coin);
      if !routable { return false; }
      isNew := false;
      var id := IdOf(mapAddr, addr.service.net);
      var penalty := if addr.service.net == source then 0 else nTimePenalty;
      if addr.service.net in mapAddr {
        KnownNet(v, addr.service.net);
        RefreshFits(v.infos[id], addr, penalty, now);
        RefreshKeeps(v, id, Refreshed(v.infos[id], addr, penalty, now), source, now);
        Refresh(id, addr, penalty, now);
        if addr.time == 0 || (mapInfo[id].time != 0 && addr.time <= mapInfo[id].time) { return; }
        if mapInfo[id].inTried { return; }
        if mapInfo[id].refCount == NEW_BUCKETS_PER_ADDRESS { return; }
        RefsAtMost(State(), id);
        var factor := 1;
        for n := 0 to mapInfo[id].refCount
          invariant factor >= 1 && (factor > 1 <==> n > 0)
        {
          factor := factor * 2;
        }
        if factor > 1 && coin != 0 { return; }
      } else {
        id := Enter(addr, source, penalty);
        isNew := true;
      }
      Place_(id, source, now);
    }

    /** Hands out a random selection of the addresses worth it: a share of all entries,
        or all of those worth it when they are fewer. */
    method GetAddr_(now: int, draw: nat -> nat) returns (got: seq<Address>, ghost m: nat)
      requires Valid()
      modifies this`mapInfo, this`vRandom
      ensures m <= |vRandom| && State() == Shuffle(old(State()), m, draw) && Valid()
      ensures |vRandom| == |old(vRandom)| && OnlyMoved(mapInfo, old(mapInfo))
      ensures got == Worthy(mapInfo, vRandom[..m], now)
      ensures |got| <= GetAddrLimit(|vRandom|)
      ensures |got| == GetAddrLimit(|vRandom|) || |got| == |WorthyIds(mapInfo, now)|
    {
      hide Consistent, Occupied, Later, OnlyMoved, Worthy, Shuffle, Swap, GetAddrLimit;
      ghost var v := State();
      ShuffleMore(v, 0, draw);
      var limit := GetAddrLimit(|vRandom|);
      got := [];
      var n := 0;
      NoneWorthy(mapInfo, vRandom[..0], now);
      ShuffleKeeps(v, 0, draw);
      while n < |vRandom| && |got| < limit
        invariant 0 <= n <= |vRandom| == |v.random| && |got| <= limit
        invariant State() == Shuffle(v, n, draw)
        invariant got == Worthy(mapInfo, vRandom[..n], now)
      {
        var pos := Later(draw, n, |vRandom|);
        ShuffleMore(v, n, draw);
        ShuffleKeeps(v, n, draw);
        ShuffleKeeps(v, n + 1, draw);
        SwapKeeps(State(), {}, {}, n, pos);
        WorthyDraw(State(), n, pos, now);
        SwapRandom(n, pos);
        var info := mapInfo[vRandom[n]];
        if !info.IsTerrible(now) {
          got := got + [AddressOf(info)];
        }
        n := n + 1;
      }
      m := n;
      ShuffleKeeps(v, n, draw);
      if n == |vRandom| {
        assert vRandom[..n] == vRandom;
        AllWorthy(State(), now);
      }
    }

    // ---------- saving and loading ----------

    method Serialize() returns (p: P.Peers)
      requires Valid()
      ensures p == P.Saved(State())
    {
      hide Consistent, Occupied, P.Bucket, P.IdsBelow;
      ghost var v := State();
      var news, ranks := SerializeNew();
      var trieds := SerializeTried();
      var buckets: seq<seq<int>> := [];
      for b := 0 to NEW_BUCKETS
        invariant buckets == P.Buckets(v, b)
      {
        var indexes := SerializeBucket(b, ranks);
        buckets := buckets + [indexes];
      }
      p := P.Peers(1, 32, hasher, nNew, nTried, P.FlipBit30(NEW_BUCKETS), news + trieds, buckets);
    }

    /** Writes the new entries in id order and numbers them as it goes. */
    method SerializeNew() returns (news: seq<P.Stored>, ranks: map<int, int>)
      requires Valid()
      ensures nIdCount >= 0 && news == P.NewsBelow(mapInfo, nIdCount)
      ensures forall k :: 0 <= k < nIdCount && k in mapInfo ==> k in ranks && ranks[k] == P.Before(mapInfo, k)
    {
      hide Consistent, Occupied, P.Rank, P.Before, P.NewsBelow;
      ghost var v := State();
      P.NewsNext(mapInfo, 0);
      ranks := map[];
      news := [];
      var nIds := 0;
      NextIsNat(v);
      for id := 0 to nIdCount
        invariant news == P.NewsBelow(mapInfo, id) && nIds == |news|
        invariant forall k :: 0 <= k < id && k in mapInfo ==> k in ranks && ranks[k] == P.Before(mapInfo, k)
      {
        P.NewsNext(mapInfo, id);
        if id in mapInfo {
          ranks := ranks[id := nIds];
          RefsAtMost(v, id);
          if mapInfo[id].refCount != 0 {
            P.NumberedByRank(v, id);
            assert nIds != nNew;
            news := news + [P.Save(mapInfo[id])];
            nIds := nIds + 1;
          }
        }
      }
    }

    method SerializeTried() returns (trieds: seq<P.Stored>)
      requires Valid()
      ensures trieds == P.Stores(mapInfo, P.TriedList(State()))
    {
      hide Consistent, Occupied, P.IdsBelow, P.Stores;
      trieds := [];
      NextIsNat(State());
      P.TriedsNext(mapInfo, 0);
      for id := 0 to nIdCount
        invariant trieds == P.Stores(mapInfo, P.IdsBelow(mapInfo, true, id))
      {
        P.TriedsNext(mapInfo, id);
        if id in mapInfo && mapInfo[id].inTried {
          trieds := trieds + [P.Save(mapInfo[id])];
        }
      }
    }

    method SerializeBucket(b: int, ranks: map<int, int>) returns (indexes: seq<int>)
      requires Valid() && 0 <= b < NEW_BUCKETS
      requires forall k :: 0 <= k < nIdCount && k in mapInfo ==> k in ranks && ranks[k] == P.Before(mapInfo, k)
      ensures indexes == P.Bucket(State(), b, BUCKET_SIZE)
    {
      hide Consistent, Occupied, P.Rank, P.Before;
      ghost var v := State();
      indexes := [];
      for i := 0 to BUCKET_SIZE
        invariant indexes == P.Bucket(v, b, i)
      {
        CellValue(vvNew, (b, i));
        if vvNew[b, i] != -1 {
          var id := vvNew[b, i];
          UnreferKeeps(v, {}, {}, (b, i));
          P.NumberedByRank(v, id);
          indexes := indexes + [ranks[id]];
        }
      }
    }

    /** Resets the manager, but not its id map and its address map. */
    method Clear(h: Hasher)
      requires Shape()
      modifies this, vvNew, vvTried
      ensures Shape() && State() == E.Cleared(old(State()), h)
    {
      vRandom, hasher := [], h;
      Wipe(vvNew);
      Wipe(vvTried);
      nIdCount, nTried, nNew, nLastGood := 0, 0, 0, 1;
    }

    /** Loads the file of peers into a freshly constructed manager, which is reset if that fails.  It
        is clean then only if the file gave no entry. */
    method Read(p: P.Peers, h: Hasher) returns (ok: bool)
      requires Shape() && State() == Empty(hasher)
      modifies this, vvNew, vvTried
      ensures Shape() && ok == P.Unserialized(p).Some?
      ensures ok ==> State() == P.Unserialized(p).value && (Sound(State()) <==> N.Natural(p) && F.OwnInFile(p))
      ensures !ok ==> State() == E.Cleared(E.Stopped(p), h) && (Sound(State()) <==> E.ReadsNone(p))
    {
      hide Occupied, Empty, P.Unserialized, E.Stopped, E.ReadsNone, Sound, F.OwnInFile, N.Natural;
      ok := Unserialize(p);
      if !ok {
        Clear(h);
        E.FailedSound(p, h);
      }
    }

    /** Loads a stream into a freshly constructed manager.  The counts are only tested from above:
        what is loaded is consistent exactly if they are not negative and the addresses kept are apart. */
    method Unserialize(p: P.Peers) returns (ok: bool)
      requires Shape() && State() == Empty(hasher)
      modifies this, vvNew, vvTried
      ensures ok == P.Unserialized(p).Some? && Shape()
      ensures ok ==> State() == P.Unserialized(p).value
      ensures ok ==> (Sound(State()) <==> N.Natural(p) && F.OwnInFile(p))
      ensures !ok ==> mapInfo == E.Stopped(p).infos && mapAddr == E.Stopped(p).addrs
    {
      hide Occupied, Empty, P.Prune, P.LoadBuckets, P.LoadNews, P.LoadTrieds, P.BucketCount, F.OwnInFile, N.Natural,
        Sound;
      EmptyTidy(p);
      if p.keySize != 32 { return false; }
      if p.nNew > NEW_BUCKETS * BUCKET_SIZE { return false; }
      if p.nTried > TRIED_BUCKETS * BUCKET_SIZE { return false; }
      ok := LoadNew(p);
      if !ok { return; }
      ok := LoadTried(p);
      if !ok { return; }
      ok := LoadCells(p);
      if !ok { return; }
      PruneAll(p);
      F.LoadedSound(p);
    }

    /** Reads the new entries, unless the stream ends before. */
    method LoadNew(p: P.Peers) returns (ok: bool)
      requires Shape() && State() == Empty(hasher)
      modifies this, vvNew
      ensures ok == (P.NewCount(p) <= |p.entries|)
      ensures ok ==> State() == P.LoadTrieds(p, 0) && P.Tidy(State())
      ensures !ok ==> mapInfo == P.LoadNews(p, |p.entries|).infos && mapAddr == P.LoadNews(p, |p.entries|).addrs
    {
      hide Occupied, P.Tidy, P.EnterNew, P.Usable, Empty;
      EmptyTidy(p);
      hasher := p.key;
      nNew := p.nNew;
      nTried := p.nTried;
      for n := 0 to P.NewCount(p)
        invariant n <= |p.entries| && State().(next := n) == P.LoadNews(p, n) && P.Tidy(State().(next := n))
      {
        if n == |p.entries| { return false; }
        P.TidyEnterNew(State().(next := n), p.entries[n], P.Usable(p));
        LoadEntry(n, p.entries[n], P.Usable(p));
      }
      nIdCount := p.nNew;
      P.TidyNews(p);
      ok := true;
    }

    method LoadEntry(n: nat, e: P.Stored, usable: bool)
      requires Shape()
      modifies this`mapInfo, this`mapAddr, this`vRandom, vvNew
      ensures State().(next := n + 1) == P.EnterNew(old(State()).(next := n), e, usable)
    {
      hide Occupied;
      var info := P.Load(e, 0);
      mapAddr := mapAddr[info.service.net := n];
      info := info.(randomPos := |vRandom|);
      vRandom := vRandom + [n];
      if !usable {
        var bucket := hasher.newBucket(info.service, info.source);
        var pos := hasher.newPos(bucket, info.service);
        CellValue(vvNew, (bucket, pos));
        if vvNew[bucket, pos] == -1 {
          SetCell(vvNew, bucket, pos, n);
          info := info.(refCount := info.refCount + 1);
        }
      }
      mapInfo := mapInfo[n := info];
    }

    lemma EmptyTidy(p: P.Peers)
      requires State() == Empty(hasher)
      ensures P.LoadNews(p, 0) == State().(h := p.key, nNew := p.nNew, nTried := p.nTried)
              && P.Tidy(P.LoadNews(p, 0))
    {
    }

    method LoadTried(p: P.Peers) returns (ok: bool)
      requires Shape() && P.NewCount(p) <= |p.entries| && State() == P.LoadTrieds(p, 0) && P.Tidy(State())
      modifies this`mapInfo, this`mapAddr, this`vRandom, this`nTried, this`nIdCount, vvTried
      ensures ok == (P.NewCount(p) + P.TriedCount(p) <= |p.entries|)
      ensures ok ==> State() == P.LoadTrieds(p, P.TriedCount(p)) && P.Tidy(State())
      ensures !ok ==> var v := P.LoadTrieds(p, |p.entries| - P.NewCount(p)); mapInfo == v.infos && mapAddr == v.addrs
    {
      hide Occupied, P.Tidy, P.LoadNews, P.EnterTried;
      var nLost := 0;
      for n := 0 to P.TriedCount(p)
        invariant P.NewCount(p) + n <= |p.entries|
        invariant State().(nTried := nTried - nLost) == P.LoadTrieds(p, n)
        invariant P.Tidy(State().(nTried := nTried - nLost))
      {
        var k := P.NewCount(p) + n;
        if k == |p.entries| { return false; }
        P.TidyEnterTried(State().(nTried := nTried - nLost), p.entries[k]);
        var lost := LoadTriedEntry(p.entries[k], nLost);
        nLost := lost;
      }
      nTried := nTried - nLost;
      ok := true;
    }

    method LoadTriedEntry(e: P.Stored, nLost: nat) returns (lost: nat)
      requires Shape()
      modifies this`mapInfo, this`mapAddr, this`vRandom, this`nIdCount, vvTried
      ensures State().(nTried := nTried - lost) == P.EnterTried(old(State()).(nTried := nTried - nLost), e)
    {
      hide Occupied;
      lost := nLost;
      var info := P.Load(e, 0);
      var bucket := hasher.triedBucket(info.service);
      var pos := hasher.triedPos(bucket, info.service);
      CellValue(vvTried, (bucket, pos));
      if vvTried[bucket, pos] == -1 {
        info := info.(randomPos := |vRandom|, inTried := true);
        vRandom := vRandom + [nIdCount];
        mapInfo := mapInfo[nIdCount := info];
        mapAddr := mapAddr[info.service.net := nIdCount];
        SetCell(vvTried, bucket, pos, nIdCount);
        nIdCount := nIdCount + 1;
      } else {
        lost := lost + 1;
      }
    }

    /** Reads the bucket lists; the stream may end before the last one. */
    method LoadCells(p: P.Peers) returns (ok: bool)
      requires Shape() && P.Enough(p) && State() == P.LoadTrieds(p, P.TriedCount(p)) && P.Tidy(State())
      modifies this`mapInfo, vvNew
      ensures ok == (P.BucketCount(p) <= |p.buckets|)
      ensures ok ==> State() == P.LoadBuckets(p, P.BucketCount(p)) && P.Tidy(State())
      ensures !ok ==> State() == P.LoadBuckets(p, |p.buckets|)
    {
      hide Occupied, P.Tidy, P.LoadTrieds, P.EnterIndex, P.UBuckets;
      for b := 0 to P.BucketCount(p)
        invariant b <= |p.buckets| && State() == P.LoadBuckets(p, b) && P.Tidy(State())
      {
        if b == |p.buckets| { return false; }
        ghost var v := State();
        var indexes := p.buckets[b];
        for n := 0 to |indexes|
          invariant State() == P.LoadBucket(v, b, indexes[..n], P.Usable(p)) && P.Tidy(State())
        {
          assert indexes[..n + 1][..n] == indexes[..n];
          LoadCell(b, indexes[n], P.Usable(p));
        }
        assert indexes[..|indexes|] == indexes;
      }
      ok := true;
    }

    method LoadCell(b: nat, index: int, usable: bool)
      requires Shape() && P.Tidy(State()) && (usable ==> b < NEW_BUCKETS)
      modifies this`mapInfo, vvNew
      ensures State() == P.EnterIndex(old(State()), b, index, usable) && P.Tidy(State())
    {
      hide Occupied, P.Tidy;
      P.TidyEnterIndex(State(), b, index, usable);
      if 0 <= index < nNew && index in mapInfo {
        var pos := hasher.newPos(b, mapInfo[index].service);
        if usable {
          CellValue(vvNew, (b, pos));
          if vvNew[b, pos] == -1 && mapInfo[index].refCount < NEW_BUCKETS_PER_ADDRESS {
            mapInfo := mapInfo[index := mapInfo[index].(refCount := mapInfo[index].refCount + 1)];
            SetCell(vvNew, b, pos, index);
          }
        }
      }
    }

    method PruneAll(p: P.Peers)
      requires Shape() && P.Tidy(State())
      modifies this`mapInfo, this`mapAddr, this`vRandom, this`nNew
      ensures State() == P.Prune(old(State()), P.Top(old(State())))
    {
      hide Occupied, P.Tidy, AddrBook.Delete, CanDelete;
      ghost var v := State();
      var top := if nIdCount < 0 then 0 else nIdCount;
      for id := 0 to top
        invariant State() == P.Prune(v, id) && P.Tidy(State())
      {
        P.TidyPrune(v, id + 1);
        if id in mapInfo && !mapInfo[id].inTried && mapInfo[id].refCount == 0 {
          P.TidyDelete(State(), id);
          Delete(id);
        }
      }
    }
  }

  lemma TablesInRange(a: AddrMan)
    requires a.Shape()
    ensures P.InRange(a.State())
  {
  }

  /** Saving a manager and loading it into a fresh one gives back the same manager, renumbered. */
  method SaveThenLoad(a: AddrMan) returns (b: AddrMan)
    requires a.Valid()
    ensures fresh(b) && b.State() == P.Reborn(a.State()) && b.Valid()
  {
    hide Consistent, Occupied, P.Saved, P.Unserialized, P.Renumbered, P.FlipBit30;
    var p := a.Serialize();
    P.SavedUsable(a.State());
    TablesInRange(a);
    P.RoundTrip(a.State());
    P.RebornSound(a.State());
    b := new AddrMan(a.hasher);
    var ok := b.Unserialize(p);
  }
}
