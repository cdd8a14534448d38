/** Files of peers that leave an inconsistent manager. */
module PeersCases {
  import opened AddrBook
  import opened Options
  import opened Peers
  import opened PeersAny
  import opened PeersFailed
  import C = AddrCheck

  // ---------- a negative count ----------

  /** A count of -1 and nothing else: the id counter is -1 too, and the debugging check fails. */
  function NoPeers(h: Hasher): Peers {
    Peers(1, 32, h, -1, 0, FlipBit30(NEW_BUCKETS), [], seq(NEW_BUCKETS, _ => []))
  }

  lemma {:induction false} NoBuckets(h: Hasher, b: nat)
    requires b <= NEW_BUCKETS
    ensures LoadBuckets(NoPeers(h), b) == Book(h, -1, map[], map[], [], map[], 0, map[], -1, 1)
    decreases b
  {
    var p := NoPeers(h);
    if b == 0 {
      assert LoadTrieds(p, 0) == LoadNews(p, 0).(next := -1);
    } else {
      NoBuckets(h, b - 1);
      assert p.buckets[b - 1] == [];
    }
  }

  lemma NegativeLoads(h: Hasher)
    ensures Unserialized(NoPeers(h)) == Some(Book(h, -1, map[], map[], [], map[], 0, map[], -1, 1))
    ensures !Sound(Unserialized(NoPeers(h)).value) && !C.Passes(Unserialized(NoPeers(h)).value)
  {
    hide LoadBuckets;
    NoBuckets(h, NEW_BUCKETS);
    assert BucketCount(NoPeers(h)) == NEW_BUCKETS;
  }

  // ---------- a file that ends early ----------

  /** One new entry and no bucket list. */
  function CutShort(h: Hasher, e: Stored): Peers {
    Peers(1, 32, h, 1, 0, FlipBit30(NEW_BUCKETS), [e], [])
  }

  /** Loading fails, and the entry outlives the reset; the debugging check notices. */
  lemma CutShortLeft(h: Hasher, e: Stored)
    ensures Unserialized(CutShort(h, e)).None?
    ensures var w := Cleared(Stopped(CutShort(h, e)), h);
            w.infos == map[0 := Load(e, 0)] && w.random == [] && !Sound(w) && !C.Passes(w)
  {
    var p := CutShort(h, e);
    assert BucketCount(p) == NEW_BUCKETS;
    assert LoadNews(p, 1) == EnterNew(LoadNews(p, 0), e, true);
    assert LoadBuckets(p, 0) == LoadTrieds(p, 0) == LoadNews(p, 1).(next := 1);
    assert Stopped(p).infos == map[0 := Load(e, 0)];
    FailedSound(p, h);
  }

  // ---------- a file that loads into an inconsistent manager ----------

  /** One address twice, the second copy in no bucket. */
  function Twice(h: Hasher, e: Stored): Peers {
    Peers(1, 32, h, 2, 0, FlipBit30(NEW_BUCKETS), [e, e], seq(NEW_BUCKETS, b => if b == 0 then [0] else []))
  }

  lemma TwiceRead(h: Hasher, e: Stored)
    ensures BucketCount(Twice(h, e)) == NEW_BUCKETS && Unserialized(Twice(h, e)).Some?
    ensures LoadBuckets(Twice(h, e), 1).infos == map[0 := Load(e, 0).(refCount := 1), 1 := Load(e, 1)]
    ensures LoadBuckets(Twice(h, e), 1).addrs == map[e.address.service.net := 1]
            && LoadBuckets(Twice(h, e), 1).next == 2
  {
    hide Prune;
    var p := Twice(h, e);
    var one := LoadNews(p, 1);
    assert one == EnterNew(LoadNews(p, 0), e, true);
    var two := LoadNews(p, 2);
    assert two == EnterNew(one, e, true);
    assert LoadTrieds(p, 0) == two && LoadBuckets(p, 0) == two;
    var list := p.buckets[0];
    assert list == [0] && list[..0] == [];
    assert LoadBucket(two, 0, list, true) == EnterIndex(LoadBucket(two, 0, list[..0], true), 0, list[0], true);
    assert LoadBuckets(p, 1) == EnterIndex(two, 0, 0, true);
  }

  lemma {:induction false} TwiceRest(h: Hasher, e: Stored, b: nat)
    requires 1 <= b <= NEW_BUCKETS
    ensures LoadBuckets(Twice(h, e), b) == LoadBuckets(Twice(h, e), 1)
    decreases b
  {
    if b > 1 { TwiceRest(h, e, b - 1); }
  }

  /** The entry that is kept has lost its address; the debugging check lets that pass and
      enters the address again. */
  lemma TwicePasses(h: Hasher, e: Stored)
    requires e.lastSuccess >= 0
    ensures Unserialized(Twice(h, e)).Some?
    ensures var w := Unserialized(Twice(h, e)).value;
            && w.infos.Keys == {0} && w.infos[0].service == e.address.service && w.addrs == map[]
            && C.Passes(w) && !Sound(w)
  {
    hide Prune, LoadBuckets, Shaped, LoadNews;
    TwiceRead(h, e);
    TwiceRest(h, e, NEW_BUCKETS);
    var p := Twice(h, e);
    NaturalFile(p);
    TwiceLeft(h, e, Raw(p), Unserialized(p).value);
  }

  lemma TwiceLeft(h: Hasher, e: Stored, v: Book, w: Book)
    requires v.infos == map[0 := Load(e, 0).(refCount := 1), 1 := Load(e, 1)]
             && v.addrs == map[e.address.service.net := 1]
    requires e.lastSuccess >= 0 && Pruned(v, w, 2) && Shaped(w, {}, w.nTried, w.nNew)
    ensures w.infos.Keys == {0} && w.infos[0].service == e.address.service && w.addrs == map[]
    ensures C.Passes(w) && !Sound(w)
  {
    hide Ordered, TriedPlaced, NewPlaced, RefsCounted, Counted;
    assert 1 in Unplaced(v.infos, 2) && Lost(v.infos, 2, e.address.service.net);
    assert forall id :: id in Unplaced(v.infos, 2) <==> id in {1};
    assert forall id :: id in w.infos.Keys <==> id in {0};
    assert w.infos.Keys == {0};
    assert forall a :: a !in w.addrs;
    assert w.addrs == map[];
  }
}
