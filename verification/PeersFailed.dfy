/** Loading a file of peers that is refused or ends early: what `Clear` leaves afterwards. */
module PeersFailed {
  import opened AddrBook
  import opened Options
  import opened Peers

  /** Resetting a manager, with a new key: the id map and the address map stay. */
  function Cleared(v: Book, h: Hasher): Book {
    Book(h, 0, v.infos, v.addrs, [], map[], 0, map[], 0, 1)
  }

  /** The header is refused. */
  predicate Refused(p: Peers) {
    p.keySize != 32 || p.nNew > NEW_BUCKETS * BUCKET_SIZE || p.nTried > TRIED_BUCKETS * BUCKET_SIZE
  }

  /** What has been read into a fresh manager when loading fails. */
  ghost function Stopped(p: Peers): Book
    requires Unserialized(p).None?
  {
    if Refused(p) then LoadNews(p, 0)
    else if |p.entries| < NewCount(p) then LoadNews(p, |p.entries|)
    else if !Enough(p) then LoadTrieds(p, |p.entries| - NewCount(p))
    else LoadBuckets(p, |p.buckets|)
  }

  /** No entry is read, because the header is refused, none is announced or none is there. */
  predicate ReadsNone(p: Peers) {
    Refused(p) || p.entries == [] || NewCount(p) + TriedCount(p) == 0
  }

  ghost predicate Bare(v: Book) { v.infos == map[] && v.addrs == map[] }

  lemma {:induction false} NewsBare(p: Peers, k: nat)
    requires k <= |p.entries|
    ensures if k == 0 then Bare(LoadNews(p, k)) && LoadNews(p, k).tried == map[] else LoadNews(p, k).infos != map[]
    decreases k
  {
    if k > 0 {
      NewsBare(p, k - 1);
      EnteredNew(LoadNews(p, k - 1), p.entries[k - 1], Usable(p));
    }
  }

  lemma EnteredNew(v: Book, e: Stored, usable: bool)
    ensures EnterNew(v, e, usable).infos != map[]
  {
    assert v.next in EnterNew(v, e, usable).infos;
  }

  lemma {:induction false} TriedsBare(p: Peers, k: nat)
    requires NewCount(p) + k <= |p.entries|
    ensures NewCount(p) + k == 0 ==> Bare(LoadTrieds(p, k)) && LoadTrieds(p, k).tried == map[]
    ensures NewCount(p) + k > 0 ==> LoadTrieds(p, k).infos != map[]
    decreases k
  {
    hide LoadNews;
    if k == 0 {
      NewsBare(p, NewCount(p));
    } else {
      TriedsBare(p, k - 1);
      EnteredTried(LoadTrieds(p, k - 1), p.entries[NewCount(p) + k - 1]);
    }
  }

  lemma EnteredTried(v: Book, e: Stored)
    requires v.infos != map[] || v.tried == map[]
    ensures EnterTried(v, e).infos != map[]
  {
    if TriedCell(v.h, e.address.service) !in v.tried { assert v.next in EnterTried(v, e).infos; }
  }

  lemma {:induction false} BucketBare(v: Book, b: int, indexes: seq<int>, usable: bool)
    ensures Bare(v) ==> Bare(LoadBucket(v, b, indexes, usable))
    ensures v.infos != map[] ==> LoadBucket(v, b, indexes, usable).infos != map[]
    decreases |indexes|
  {
    if indexes != [] {
      var u := LoadBucket(v, b, indexes[..|indexes| - 1], usable);
      BucketBare(v, b, indexes[..|indexes| - 1], usable);
      IndexBare(u, b, indexes[|indexes| - 1], usable);
    }
  }

  lemma IndexBare(v: Book, b: int, index: int, usable: bool)
    ensures Bare(v) ==> Bare(EnterIndex(v, b, index, usable))
    ensures v.infos != map[] ==> EnterIndex(v, b, index, usable).infos != map[]
  {
    if index in v.infos && EnterIndex(v, b, index, usable) != v {
      assert index in EnterIndex(v, b, index, usable).infos;
    }
  }

  lemma {:induction false} BucketsBare(p: Peers, b: nat)
    requires Enough(p) && b <= |p.buckets|
    ensures NewCount(p) + TriedCount(p) == 0 ==> Bare(LoadBuckets(p, b))
    ensures NewCount(p) + TriedCount(p) > 0 ==> LoadBuckets(p, b).infos != map[]
    decreases b
  {
    hide LoadTrieds, LoadBucket, Bare, NewCount, TriedCount;
    if b == 0 {
      TriedsBare(p, TriedCount(p));
    } else {
      BucketsBare(p, b - 1);
      BucketBare(LoadBuckets(p, b - 1), b - 1, p.buckets[b - 1], Usable(p));
    }
  }

  lemma StoppedBare(p: Peers)
    requires Unserialized(p).None?
    ensures if ReadsNone(p) then Bare(Stopped(p)) else Stopped(p).infos != map[]
  {
    hide LoadTrieds, LoadNews, LoadBuckets, Bare, Prune;
    NewsBare(p, 0);
    if !Refused(p) {
      if |p.entries| < NewCount(p) { NewsBare(p, |p.entries|); }
      else if !Enough(p) { TriedsBare(p, |p.entries| - NewCount(p)); }
      else { BucketsBare(p, |p.buckets|); }
    }
  }

  /** Resetting is right only for a manager without entries and addresses. */
  lemma ClearedSound(v: Book, h: Hasher)
    ensures Sound(Cleared(v, h)) <==> Bare(v)
  {
    hide Ordered, TriedPlaced, NewPlaced, RefsCounted, Counted;
    if !(forall id :: id !in v.infos) {
      assert !Numbered(v.infos, 0);
    } else if !(forall a :: a !in v.addrs) {
      var a :| a in v.addrs;
      assert IdOf(v.addrs, a) !in v.infos;
    } else {
      assert v.infos == map[] && v.addrs == map[];
      assert Cleared(v, h) == Empty(h);
      EveryRunIsSound(h, []);
    }
  }

  /** After a failed load, resetting gives a consistent manager exactly if no entry was read. */
  lemma FailedSound(p: Peers, h: Hasher)
    requires Unserialized(p).None?
    ensures Sound(Cleared(Stopped(p), h)) <==> ReadsNone(p)
  {
    hide Sound, Stopped, ReadsNone;
    StoppedBare(p);
    ClearedSound(Stopped(p), h);
  }
}
