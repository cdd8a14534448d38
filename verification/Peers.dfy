/** Saving the address manager to disk and loading it back.  The stream is the record of
    what is written, in order; the random key stands for the hashing it selects. */
module Peers {
  import opened AddrBook
  import opened Options

  /** The fields of an entry that are saved. */
  datatype Stored = Stored(address: Address, source: NetAddr, lastSuccess: int, attempts: int)

  /** The header, with signed counts, then entries, new ones first, and bucket lists as far as the
      stream has them. */
  datatype Peers = Peers(
    version: nat, keySize: nat, key: Hasher, nNew: int, nTried: int, nUBuckets: int,
    entries: seq<Stored>, buckets: seq<seq<int>>)

  function Save(info: Info): Stored {
    Stored(AddressOf(info), info.source, info.lastSuccess, info.attempts)
  }

  function Load(e: Stored, pos: nat): Info {
    Info(e.address.service, e.address.services, e.address.time, e.source, 0, 0, e.lastSuccess, e.attempts, 0, false,
        pos)
  }

  /** n XOR 2^30. */
  function FlipBit30(n: int): int {
    if (n / 0x4000_0000) % 2 == 1 then n - 0x4000_0000 else n + 0x4000_0000
  }

  // ---------- the order in which entries are written ----------

  /** The ids below n on one side, ascending: a walk over the id map. */
  function IdsBelow(infos: Infos, tried: bool, n: nat): (ids: seq<int>)
    ensures forall k :: 0 <= k < |ids| ==> 0 <= ids[k] < n && ids[k] in infos && infos[ids[k]].inTried == tried
    ensures forall id :: 0 <= id < n && id in infos && infos[id].inTried == tried ==> id in ids
    ensures forall j, k :: 0 <= j < k < |ids| ==> ids[j] != ids[k]
  {
    if n == 0 then [] else
    var ids := IdsBelow(infos, tried, n - 1);
    if n - 1 in infos && infos[n - 1].inTried == tried then ids + [n - 1] else ids
  }

  /** Where the walk over the ids from 0 on stops. */
  function Top(v: Book): nat { if v.next < 0 then 0 else v.next }

  /** All ids, new entries first; an entry's place here is its id after loading. */
  function Order(v: Book): seq<int> {
    IdsBelow(v.infos, false, Top(v)) + IdsBelow(v.infos, true, Top(v))
  }

  function IndexOf(ids: seq<int>, id: int): (k: nat)
    ensures k <= |ids|
    ensures id in ids ==> k < |ids| && ids[k] == id
  {
    if ids == [] then 0 else if ids[0] == id then 0 else 1 + IndexOf(ids[1..], id)
  }

  function Rank(v: Book, id: int): nat {
    IndexOf(Order(v), id)
  }

  function NewList(v: Book): seq<int> { IdsBelow(v.infos, false, Top(v)) }

  function TriedList(v: Book): seq<int> { IdsBelow(v.infos, true, Top(v)) }

  function At(ids: seq<int>, k: nat): int
    requires k < |ids|
  {
    ids[k]
  }

  /** Order lists every id once; Rank is its inverse; the sides have the counted sizes. */
  lemma OrderFacts(v: Book)
    requires Sound(v)
    ensures forall k :: 0 <= k < |Order(v)| ==> At(Order(v), k) in v.infos && Rank(v, At(Order(v), k)) == k
    ensures forall id :: id in v.infos ==> Rank(v, id) < |Order(v)| && At(Order(v), Rank(v, id)) == id
    ensures forall k :: 0 <= k < |Order(v)| ==> (k < |NewList(v)| <==> !v.infos[At(Order(v), k)].inTried)
    ensures |NewList(v)| == v.nNew && |TriedList(v)| == v.nTried
  {
    hide Addressed, Ordered, TriedPlaced, NewPlaced, RefsCounted, Counted, IdsBelow;
    OrderLists(v);
    OrderCovers(v);
    OrderSizes(v);
  }

  lemma OrderLists(v: Book)
    ensures forall j, k :: 0 <= j < k < |Order(v)| ==> At(Order(v), j) != At(Order(v), k)
    ensures forall k :: 0 <= k < |Order(v)| ==>
              && At(Order(v), k) in v.infos && Rank(v, At(Order(v), k)) == k
              && (k < |NewList(v)| <==> !v.infos[At(Order(v), k)].inTried)
  {
    var a, b, ids := NewList(v), TriedList(v), Order(v);
    forall j, k | 0 <= j < k < |ids| ensures ids[j] != ids[k] {
      if j < |a| && |a| <= k { assert ids[j] == a[j] && ids[k] == b[k - |a|]; }
    }
    forall k | 0 <= k < |ids| ensures At(ids, k) in v.infos && Rank(v, At(ids, k)) == k
        && (k < |a| <==> !v.infos[At(ids, k)].inTried) {
      var id := ids[k];
      if k < |a| { assert id == a[k]; } else { assert id == b[k - |a|]; }
      assert id in ids && ids[IndexOf(ids, id)] == id;
    }
  }

  lemma OrderCovers(v: Book)
    requires Numbered(v.infos, v.next)
    ensures forall id :: id in v.infos ==> Rank(v, id) < |Order(v)| && At(Order(v), Rank(v, id)) == id
  {
    forall id | id in v.infos ensures Rank(v, id) < |Order(v)| && At(Order(v), Rank(v, id)) == id {
      assert id in NewList(v) || id in TriedList(v);
      assert id in Order(v);
    }
  }

  lemma OrderSizes(v: Book)
    requires Numbered(v.infos, v.next) && Counted(v.infos, v.nTried, v.nNew, {})
    ensures |NewList(v)| == v.nNew && |TriedList(v)| == v.nTried
  {
    hide IdsBelow;
    SideSize(v.infos, false, Top(v));
    SideSize(v.infos, true, Top(v));
    assert NewIds(v.infos) - {} == NewIds(v.infos);
  }

  lemma SideSize(infos: Infos, tried: bool, n: nat)
    requires Numbered(infos, n)
    ensures |IdsBelow(infos, tried, n)| == |if tried then TriedIds(infos) else NewIds(infos)|
  {
    var ids := IdsBelow(infos, tried, n);
    SizeOfDistinct(ids);
    var listed, side := set id | id in ids, if tried then TriedIds(infos) else NewIds(infos);
    assert forall id :: id in listed <==> id in side;
    assert listed == side;
  }

  lemma {:induction false} SizeOfDistinct(ids: seq<int>)
    requires forall j, k :: 0 <= j < k < |ids| ==> ids[j] != ids[k]
    ensures |set id | id in ids| == |ids|
  {
    var all := set id | id in ids;
    if ids == [] {
      assert forall id :: id in all <==> id in {};
    } else {
      var last := ids[|ids| - 1];
      var most := ids[..|ids| - 1];
      SizeOfDistinct(most);
      assert ids == most + [last] && last !in most;
      assert forall id :: id in all <==> id in (set id | id in most) + {last};
      assert all == (set id | id in most) + {last};
    }
  }

  // ---------- saving ----------

  function Stores(infos: Infos, ids: seq<int>): (es: seq<Stored>)
    requires forall k :: 0 <= k < |ids| ==> ids[k] in infos
    ensures |es| == |ids| && forall k :: 0 <= k < |ids| ==> es[k] == Save(infos[ids[k]])
  {
    if ids == [] then [] else Stores(infos, ids[..|ids| - 1]) + [Save(infos[ids[|ids| - 1]])]
  }

  /** The entries of the first `i` cells of a bucket, by rank. */
  function Bucket(v: Book, b: int, i: nat): seq<int> {
    if i == 0 then [] else
    var c := (b, i - 1);
    if c in v.cells then Bucket(v, b, i - 1) + [Rank(v, IdAt(v.cells, c))] else Bucket(v, b, i - 1)
  }

  function Buckets(v: Book, n: nat): (bs: seq<seq<int>>)
    ensures |bs| == n && forall b :: 0 <= b < n ==> bs[b] == Bucket(v, b, BUCKET_SIZE)
  {
    if n == 0 then [] else Buckets(v, n - 1) + [Bucket(v, n - 1, BUCKET_SIZE)]
  }

  function Saved(v: Book): Peers {
    Peers(1, 32, v.h, v.nNew, v.nTried, FlipBit30(NEW_BUCKETS),
        Stores(v.infos, NewList(v)) + Stores(v.infos, TriedList(v)),
        Buckets(v, NEW_BUCKETS))
  }

  // ---------- loading ----------

  function UBuckets(p: Peers): int {
    if p.version != 0 then FlipBit30(p.nUBuckets) else p.nUBuckets
  }

  /** How many entries are read. */
  function NewCount(p: Peers): nat { if p.nNew < 0 then 0 else p.nNew }

  function TriedCount(p: Peers): nat { if p.nTried < 0 then 0 else p.nTried }

  predicate Enough(p: Peers) { NewCount(p) + TriedCount(p) <= |p.entries| }

  /** How many bucket lists are read. */
  function BucketCount(p: Peers): nat {
    if UBuckets(p) < 0 then 0 else UBuckets(p)
  }

  /** Whether the saved new table can be used as it is. */
  predicate Usable(p: Peers) {
    p.version == 1 && UBuckets(p) == NEW_BUCKETS
  }

  /** Adds one saved new entry; without a usable table it gets a cell from its primary source. */
  function EnterNew(v: Book, e: Stored, usable: bool): Book {
    var id := v.next;
    var w := v.(next := id + 1, infos := v.infos[id := Load(e, |v.random|)],
                addrs := v.addrs[e.address.service.net := id], random := v.random + [id]);
    var c := NewCell(v.h, e.address.service, e.source);
    if !usable && c !in v.cells then Refer(w, id, c) else w
  }

  function LoadNews(p: Peers, k: nat): Book
    requires k <= |p.entries|
  {
    if k == 0 then Book(p.key, 0, map[], map[], [], map[], p.nTried, map[], p.nNew, 1)
    else EnterNew(LoadNews(p, k - 1), p.entries[k - 1], Usable(p))
  }

  /** Adds one saved tried entry, unless its cell is taken: then it is lost.  An id of -1 leaves
      the cell empty. */
  function EnterTried(v: Book, e: Stored): Book {
    var id := v.next;
    var c := TriedCell(v.h, e.address.service);
    if c in v.tried then v.(nTried := v.nTried - 1) else
    v.(next := id + 1, infos := v.infos[id := Load(e, |v.random|).(inTried := true)],
       addrs := v.addrs[e.address.service.net := id], random := v.random + [id],
       tried := if id == -1 then v.tried else v.tried[c := id])
  }

  function LoadTrieds(p: Peers, k: nat): Book
    requires NewCount(p) + k <= |p.entries|
  {
    if k == 0 then LoadNews(p, NewCount(p)).(next := p.nNew)
    else EnterTried(LoadTrieds(p, k - 1), p.entries[NewCount(p) + k - 1])
  }

  /** Restores one saved cell of bucket `b`. */
  function EnterIndex(v: Book, b: int, index: int, usable: bool): Book {
    if !(0 <= index < v.nNew) || index !in v.infos then v else
    var c := (b, v.h.newPos(b, v.infos[index].service));
    if usable && c !in v.cells && v.infos[index].refCount < NEW_BUCKETS_PER_ADDRESS then Refer(v, index, c) else v
  }

  function LoadBucket(v: Book, b: int, indexes: seq<int>, usable: bool): Book {
    if indexes == [] then v else
    EnterIndex(LoadBucket(v, b, indexes[..|indexes| - 1], usable), b, indexes[|indexes| - 1], usable)
  }

  function LoadBuckets(p: Peers, b: nat): Book
    requires Enough(p) && b <= |p.buckets|
  {
    if b == 0 then LoadTrieds(p, TriedCount(p))
        else LoadBucket(LoadBuckets(p, b - 1), b - 1, p.buckets[b - 1], Usable(p))
  }

  /** Drops the entries below n that got no cell. */
  function Prune(v: Book, n: nat): Book {
    if n == 0 then v else
    var w := Prune(v, n - 1);
    if n - 1 in w.infos && !w.infos[n - 1].inTried && w.infos[n - 1].refCount == 0 then Delete(w, n - 1) else w
  }

  /** Loading a saved address manager into a fresh one; None if the stream is refused or ends early. */
  function Unserialized(p: Peers): Option<Book> {
    if p.keySize != 32 then None
    else if p.nNew > NEW_BUCKETS * BUCKET_SIZE then None
    else if p.nTried > TRIED_BUCKETS * BUCKET_SIZE then None
    else if !Enough(p) || |p.buckets| < BucketCount(p) then None
    else
      var w := LoadBuckets(p, BucketCount(p));
      Some(Prune(w, Top(w)))
  }

  // ---------- what is loaded back ----------

  function InfoAt(v: Book, k: nat): Info
    requires k < |Order(v)|
  {
    OrderLists(v);
    v.infos[At(Order(v), k)]
  }

  /** Entry k as loaded once the cells in `done` are restored. */
  ghost function Reloaded(v: Book, k: nat, done: set<(int, int)>): Info
    requires k < |Order(v)|
  {
    InfoAt(v, k).(lastTry := 0, lastCountAttempt := 0, randomPos := k,
                  refCount := |CellsOf(v.cells, At(Order(v), k)) * done|)
  }

  ghost function UpTo(m: nat): seq<int> { seq(m, k => k) }

  ghost function InfosTo(v: Book, m: nat, done: set<(int, int)>): Infos
    requires m <= |Order(v)|
  {
    map k: int | 0 <= k < m :: Reloaded(v, k, done)
  }

  ghost function AddrsTo(v: Book, m: nat): map<NetAddr, int> {
    map a | a in v.addrs && Rank(v, IdOf(v.addrs, a)) < m :: Rank(v, IdOf(v.addrs, a))
  }

  ghost function TriedTo(v: Book, m: nat): Cells {
    map c | c in v.tried && Rank(v, IdAt(v.tried, c)) < m :: Rank(v, IdAt(v.tried, c))
  }

  ghost function CellsIn(v: Book, done: set<(int, int)>): Cells {
    map c | c in v.cells && c in done :: Rank(v, IdAt(v.cells, c))
  }

  /** `v` with its entries renumbered by rank, cut down to the first m of them and the cells in `done`. */
  ghost function Renumbered(v: Book, m: nat, done: set<(int, int)>): Book
    requires m <= |Order(v)|
  {
    Book(v.h, m, InfosTo(v, m, done), AddrsTo(v, m), UpTo(m), TriedTo(v, m), v.nTried, CellsIn(v, done), v.nNew, 1)
  }

  // ---------- loading back what was saved, step by step ----------

  lemma UpToMore(m: nat)
    ensures UpTo(m) + [m] == UpTo(m + 1)
  {
  }

  lemma InfosMore(v: Book, k: nat)
    requires k < |Order(v)|
    ensures InfosTo(v, k, {})[k := Load(Save(InfoAt(v, k)), k).(inTried := InfoAt(v, k).inTried)]
            == InfosTo(v, k + 1, {})
  {
    hide Order, InfoAt, Reloaded, Load, Save;
    ReloadedNone(v, k);
    var a := InfosTo(v, k, {})[k := Load(Save(InfoAt(v, k)), k).(inTried := InfoAt(v, k).inTried)];
    var b := InfosTo(v, k + 1, {});
    assert forall j :: j in a <==> j in b;
    assert forall j :: j in a ==> a[j] == b[j];
  }

  lemma ReloadedNone(v: Book, k: nat)
    requires k < |Order(v)|
    ensures Reloaded(v, k, {}) == Load(Save(InfoAt(v, k)), k).(inTried := InfoAt(v, k).inTried)
  {
    hide Order, InfoAt;
    assert CellsOf(v.cells, At(Order(v), k)) * {} == {};
  }

  lemma RankIff(v: Book, id: int, k: nat)
    requires Sound(v) && id in v.infos && k < |Order(v)|
    ensures Rank(v, id) == k <==> id == At(Order(v), k)
  {
    hide Consistent, Order, Rank;
    OrderFacts(v);
  }

  lemma AddrsMore(v: Book, k: nat)
    requires Sound(v) && k < |Order(v)|
    ensures AddrsTo(v, k)[InfoAt(v, k).service.net := k] == AddrsTo(v, k + 1)
  {
    hide Consistent, Order, Rank;
    var id, net := At(Order(v), k), InfoAt(v, k).service.net;
    OrderLists(v);
    AddressedIn(v);
    assert net in v.addrs && IdOf(v.addrs, net) == id;
    forall x | x in v.addrs ensures Rank(v, IdOf(v.addrs, x)) == k <==> x == net {
      RankIff(v, IdOf(v.addrs, x), k);
    }
    MapGrows(AddrsTo(v, k), AddrsTo(v, k + 1), net, k);
  }

  lemma AddressedIn(v: Book)
    requires Sound(v)
    ensures Addressed(v.infos, v.addrs) && TriedPlaced(v.h, v.infos, v.tried)
  {
  }

  lemma MapGrows<K>(a: map<K, int>, b: map<K, int>, key: K, value: int)
    requires forall x :: x in b <==> x in a || x == key
    requires forall x :: x in b ==> b[x] == if x == key then value else a[x]
    ensures a[key := value] == b
  {
    assert forall x :: x in a[key := value] <==> x in b;
  }

  lemma TriedMore(v: Book, k: nat)
    requires Sound(v) && k < |Order(v)|
    ensures var c := TriedCell(v.h, InfoAt(v, k).service);
            if InfoAt(v, k).inTried then c !in TriedTo(v, k) && TriedTo(v, k)[c := k] == TriedTo(v, k + 1)
            else TriedTo(v, k) == TriedTo(v, k + 1)
  {
    hide Consistent, Order, Rank;
    var id := At(Order(v), k);
    OrderLists(v);
    AddressedIn(v);
    var c := TriedCell(v.h, InfoAt(v, k).service);
    var a, b := TriedTo(v, k), TriedTo(v, k + 1);
    forall x | x in v.tried ensures Rank(v, IdAt(v.tried, x)) == k <==> (InfoAt(v, k).inTried && x == c) {
      RankIff(v, IdAt(v.tried, x), k);
    }
    if InfoAt(v, k).inTried {
      assert c in v.tried;
      MapGrows(a, b, c, k);
    } else {
      assert forall x :: x in a <==> x in b;
      assert forall x :: x in b ==> a[x] == b[x];
    }
  }

  lemma NoCells(v: Book)
    ensures CellsIn(v, {}) == map[]
  {
    assert forall c :: c !in CellsIn(v, {});
  }

  lemma SavedNew(v: Book, j: nat)
    requires j < |NewList(v)|
    ensures j < |Saved(v).entries| && j < |Order(v)|
    ensures Saved(v).entries[j] == Save(InfoAt(v, j)) && !InfoAt(v, j).inTried
  {
    hide Buckets, IdsBelow, FlipBit30;
    OrderLists(v);
    assert At(Order(v), j) == NewList(v)[j];
  }

  lemma SavedTried(v: Book, k: nat)
    requires k < |TriedList(v)|
    ensures var j := |NewList(v)| + k;
            && j < |Saved(v).entries| && j < |Order(v)|
            && Saved(v).entries[j] == Save(InfoAt(v, j)) && InfoAt(v, j).inTried
  {
    hide Buckets, IdsBelow, FlipBit30;
    OrderLists(v);
    assert At(Order(v), |NewList(v)| + k) == TriedList(v)[k];
  }

  lemma {:induction false} NewsLoaded(v: Book, k: nat)
    requires Sound(v) && k <= |NewList(v)|
    ensures k <= |Saved(v).entries| && LoadNews(Saved(v), k) == Renumbered(v, k, {})
    decreases k
  {
    hide Consistent, Renumbered, Saved, NewList, EnterNew, FlipBit30;
    if k == 0 {
      EmptyRenumbered(v);
    } else {
      NewsLoaded(v, k - 1);
      SavedNew(v, k - 1);
      SavedUsable(v);
      EnterNewMore(v, k - 1);
    }
  }

  lemma SavedUsable(v: Book)
    ensures Usable(Saved(v)) && |Saved(v).entries| == |NewList(v)| + |TriedList(v)|
    ensures Saved(v).nNew == v.nNew && Saved(v).nTried == v.nTried
    ensures |Saved(v).buckets| == NEW_BUCKETS == BucketCount(Saved(v))
  {
    hide IdsBelow, Bucket;
  }

  lemma UpToSize(m: nat)
    ensures |UpTo(m)| == m
  {
  }

  lemma EnterNewMore(v: Book, j: nat)
    requires Sound(v) && j < |Order(v)| && !InfoAt(v, j).inTried
    ensures EnterNew(Renumbered(v, j, {}), Save(InfoAt(v, j)), true) == Renumbered(v, j + 1, {})
  {
    hide Consistent, InfosTo, AddrsTo, TriedTo, UpTo, CellsIn, Order, Rank, InfoAt;
    InfosMore(v, j);
    AddrsMore(v, j);
    TriedMore(v, j);
    UpToMore(j);
    UpToSize(j);
  }

  lemma EnterTriedMore(v: Book, j: nat)
    requires Sound(v) && j < |Order(v)| && InfoAt(v, j).inTried
    ensures EnterTried(Renumbered(v, j, {}), Save(InfoAt(v, j))) == Renumbered(v, j + 1, {})
  {
    hide Consistent, InfosTo, AddrsTo, TriedTo, UpTo, CellsIn, Order, Rank, InfoAt;
    InfosMore(v, j);
    AddrsMore(v, j);
    TriedMore(v, j);
    UpToMore(j);
    UpToSize(j);
  }

  lemma EmptyRenumbered(v: Book)
    requires Sound(v)
    ensures LoadNews(Saved(v), 0) == Renumbered(v, 0, {})
  {
    hide Consistent, Buckets, IdsBelow, Rank, Reloaded;
    OrderFacts(v);
    assert forall k :: k !in InfosTo(v, 0, {});
    assert forall a :: a !in AddrsTo(v, 0);
    assert forall c :: c !in TriedTo(v, 0);
    NoCells(v);
    assert InfosTo(v, 0, {}) == map[] && AddrsTo(v, 0) == map[] && TriedTo(v, 0) == map[] && UpTo(0) == [];
  }

  lemma {:induction false} TriedsLoaded(v: Book, k: nat)
    requires Sound(v) && k <= |TriedList(v)|
    ensures NewCount(Saved(v)) == |NewList(v)| && NewCount(Saved(v)) + k <= |Saved(v).entries|
    ensures LoadTrieds(Saved(v), k) == Renumbered(v, |NewList(v)| + k, {})
    decreases k
  {
    hide Consistent, Renumbered, Saved, NewList, TriedList, EnterTried;
    SavedUsable(v);
    SavedCounts(v);
    if k == 0 {
      NewsLoaded(v, |NewList(v)|);
      RenumberedNext(v);
    } else {
      TriedsLoaded(v, k - 1);
      SavedTried(v, k - 1);
      EnterTriedMore(v, |NewList(v)| + k - 1);
    }
  }

  lemma SavedCounts(v: Book)
    requires Sound(v)
    ensures NewCount(Saved(v)) == |NewList(v)| == v.nNew && TriedCount(Saved(v)) == |TriedList(v)| == v.nTried
    ensures Enough(Saved(v))
  {
    hide Consistent, IdsBelow, Order, Rank, Buckets;
    OrderFacts(v);
    SavedUsable(v);
  }

  lemma RenumberedNext(v: Book)
    ensures |NewList(v)| <= |Order(v)| && Renumbered(v, |NewList(v)|, {}).next == |NewList(v)|
  {
    hide IdsBelow;
  }

  /** The cells before slot `i` of bucket `b`. */
  ghost function DoneTo(v: Book, b: int, i: int): set<(int, int)> {
    set c | c in v.cells && (c.0 < b || (c.0 == b && c.1 < i))
  }

  /** Restoring one more cell. */
  lemma CellsMore(v: Book, done: set<(int, int)>, c: (int, int))
    requires c in v.cells && c !in done
    ensures CellsIn(v, done)[c := Rank(v, IdAt(v.cells, c))] == CellsIn(v, done + {c})
  {
    hide Rank;
    MapGrows(CellsIn(v, done), CellsIn(v, done + {c}), c, Rank(v, IdAt(v.cells, c)));
  }

  lemma ReloadedMore(v: Book, j: nat, done: set<(int, int)>, c: (int, int))
    requires j < |Order(v)| && c in v.cells && c !in done
    ensures var r := Reloaded(v, j, done);
            Reloaded(v, j, done + {c}) == if IdAt(v.cells, c) == At(Order(v), j) then r.(refCount := r.refCount + 1)
                else r
  {
    hide Order, InfoAt;
    var cells := CellsOf(v.cells, At(Order(v), j));
    if IdAt(v.cells, c) == At(Order(v), j) {
      assert cells * (done + {c}) == cells * done + {c};
    } else {
      assert cells * (done + {c}) == cells * done;
    }
  }

  lemma RefsMore(v: Book, m: nat, done: set<(int, int)>, c: (int, int), k: nat)
    requires m <= |Order(v)| && k < m && c in v.cells && c !in done && IdAt(v.cells, c) == At(Order(v), k)
    requires forall j :: 0 <= j < |Order(v)| && j != k ==> At(Order(v), j) != At(Order(v), k)
    ensures InfosTo(v, m, done)[k := Reloaded(v, k, done).(refCount := Reloaded(v, k, done).refCount + 1)]
            == InfosTo(v, m, done + {c})
  {
    hide Order, Reloaded, IdAt;
    var a := InfosTo(v, m, done)[k := Reloaded(v, k, done).(refCount := Reloaded(v, k, done).refCount + 1)];
    var b := InfosTo(v, m, done + {c});
    forall j | 0 <= j < m ensures j in a && j in b && a[j] == b[j] {
      ReloadedMore(v, j, done, c);
    }
    assert forall j :: j in a <==> j in b;
  }

  lemma InfosAt(v: Book, m: nat, done: set<(int, int)>, k: nat)
    requires k < m <= |Order(v)|
    ensures k in InfosTo(v, m, done) && InfosTo(v, m, done)[k] == Reloaded(v, k, done)
  {
  }

  /** A saved cell is restored exactly where it was. */
  lemma EnterIndexMore(v: Book, done: set<(int, int)>, c: (int, int))
    requires Sound(v) && c in v.cells && c !in done
    ensures var m := |Order(v)|;
            EnterIndex(Renumbered(v, m, done), c.0, Rank(v, IdAt(v.cells, c)), true) == Renumbered(v, m, done + {c})
  {
    hide Consistent, Order, Rank, AddrsTo, TriedTo, UpTo, InfosTo, CellsIn, IdAt;
    var m, id := |Order(v)|, IdAt(v.cells, c);
    var k := Rank(v, id);
    CellFacts(v, done, c);
    CellsMore(v, done, c);
    RefsMore(v, m, done, c, k);
    InfosAt(v, m, done, k);
  }

  lemma CellFacts(v: Book, done: set<(int, int)>, c: (int, int))
    requires Sound(v) && c in v.cells && c !in done
    ensures var id := IdAt(v.cells, c);
            var k := Rank(v, id);
            && k < |Order(v)| && k < v.nNew && At(Order(v), k) == id && InfoAt(v, k) == v.infos[id]
            && v.h.newPos(c.0, InfoAt(v, k).service) == c.1
            && Reloaded(v, k, done).refCount < NEW_BUCKETS_PER_ADDRESS
            && c !in CellsIn(v, done)
            && forall j :: 0 <= j < |Order(v)| && j != k ==> At(Order(v), j) != At(Order(v), k)
  {
    hide Addressed, Ordered, TriedPlaced, Counted, Numbered, Order, Rank;
    var id := IdAt(v.cells, c);
    OrderFacts(v);
    var cells := CellsOf(v.cells, id);
    assert c in cells && c !in cells * done;
    assert cells * done + {c} <= cells;
    Smaller(cells * done + {c}, cells);
  }

  lemma Smaller(a: set<(int, int)>, b: set<(int, int)>)
    requires a <= b
    ensures |a| <= |b|
  {
    assert b == a + (b - a);
  }

  /** Cells lie inside the two tables. */
  ghost predicate InRange(v: Book) {
    && (forall c :: c in v.cells ==> 0 <= c.0 < NEW_BUCKETS && 0 <= c.1 < BUCKET_SIZE)
    && (forall c :: c in v.tried ==> 0 <= c.0 < TRIED_BUCKETS && 0 <= c.1 < BUCKET_SIZE)
  }

  lemma {:induction false} BucketLoaded(v: Book, b: int, i: nat)
    requires Sound(v) && InRange(v)
    ensures LoadBucket(Renumbered(v, |Order(v)|, DoneTo(v, b, 0)), b, Bucket(v, b, i), true)
            == Renumbered(v, |Order(v)|, DoneTo(v, b, i))
    decreases i
  {
    hide Consistent, Renumbered, Order, Rank, EnterIndex;
    if i > 0 {
      BucketLoaded(v, b, i - 1);
      var c := (b, i - 1);
      if c in v.cells {
        EnterIndexMore(v, DoneTo(v, b, i - 1), c);
        assert forall x :: x in DoneTo(v, b, i) <==> x in DoneTo(v, b, i - 1) + {c};
        assert DoneTo(v, b, i) == DoneTo(v, b, i - 1) + {c};
        var idx := Bucket(v, b, i);
        assert idx[..|idx| - 1] == Bucket(v, b, i - 1);
      } else {
        assert forall x :: x in DoneTo(v, b, i) <==> x in DoneTo(v, b, i - 1);
        assert DoneTo(v, b, i) == DoneTo(v, b, i - 1);
      }
    }
  }

  lemma {:induction false} BucketsLoaded(v: Book, b: nat)
    requires Sound(v) && InRange(v) && b <= NEW_BUCKETS
    ensures Enough(Saved(v)) && b <= |Saved(v).buckets|
    ensures LoadBuckets(Saved(v), b) == Renumbered(v, |Order(v)|, DoneTo(v, b, 0))
    decreases b
  {
    hide Consistent, Renumbered, Saved, Order, NewList, TriedList, Bucket, IdsBelow, Buckets;
    SavedCounts(v);
    SavedUsable(v);
    if b == 0 {
      OrderSplit(v);
      TriedsLoaded(v, |TriedList(v)|);
      assert forall x :: x in DoneTo(v, 0, 0) <==> x in {};
      assert DoneTo(v, 0, 0) == {};
    } else {
      BucketsLoaded(v, b - 1);
      SavedBucket(v, b - 1);
      BucketLoaded(v, b - 1, BUCKET_SIZE);
      assert forall x :: x in DoneTo(v, b - 1, BUCKET_SIZE) <==> x in DoneTo(v, b, 0);
      assert DoneTo(v, b - 1, BUCKET_SIZE) == DoneTo(v, b, 0);
    }
  }

  lemma SavedBucket(v: Book, b: nat)
    requires b < NEW_BUCKETS
    ensures b < |Saved(v).buckets| && Saved(v).buckets[b] == Bucket(v, b, BUCKET_SIZE)
  {
    hide Bucket, IdsBelow, Stores;
  }

  lemma OrderSplit(v: Book)
    ensures |Order(v)| == |NewList(v)| + |TriedList(v)|
  {
  }

  /** What a saved and loaded address manager is: `v` with its ids replaced by ranks, its
      random vector in id order and the memory-only statistics reset. */
  ghost function Reborn(v: Book): Book {
    Renumbered(v, |Order(v)|, v.cells.Keys)
  }

  /** Saving and loading loses nothing: the same new and tried entries, in the same cells,
      with the same reference counts; no collision, no pruning. */
  lemma RoundTrip(v: Book)
    requires Sound(v) && InRange(v)
    ensures Unserialized(Saved(v)) == Some(Reborn(v))
  {
    hide Consistent, Renumbered, Order, Rank, Saved, LoadBuckets, Prune, DoneTo;
    SavedUsable(v);
    SavedHeader(v);
    SavedCounts(v);
    SizesFit(v);
    BucketsLoaded(v, NEW_BUCKETS);
    AllDone(v);
    RebornNext(v);
    NothingToPrune(v, |Order(v)|);
  }

  lemma SavedHeader(v: Book)
    ensures Saved(v).keySize == 32
  {
  }

  lemma AllDone(v: Book)
    requires InRange(v)
    ensures DoneTo(v, NEW_BUCKETS, 0) == v.cells.Keys
  {
    assert forall x :: x in DoneTo(v, NEW_BUCKETS, 0) <==> x in v.cells.Keys;
  }

  lemma RebornNext(v: Book)
    ensures Reborn(v).next == |Order(v)|
  {
  }

  /** Entry k of the loaded manager is entry Order[k] of the saved one. */
  lemma RebornInfo(v: Book, k: nat)
    requires Sound(v) && k < |Order(v)|
    ensures k in Reborn(v).infos
    ensures Reborn(v).infos[k] == InfoAt(v, k).(lastTry := 0, lastCountAttempt := 0, randomPos := k)
  {
    hide Addressed, Ordered, TriedPlaced, NewPlaced, Counted, Numbered, Order, Rank, AddrsTo, TriedTo, CellsIn, UpTo;
    OrderLists(v);
    var id := At(Order(v), k);
    assert CellsOf(v.cells, id) * v.cells.Keys == CellsOf(v.cells, id) by {
      assert forall c :: c in CellsOf(v.cells, id) * v.cells.Keys <==> c in CellsOf(v.cells, id);
    }
    assert Reborn(v).infos[k] == Reloaded(v, k, v.cells.Keys);
  }

  lemma {:induction false} NothingToPrune(v: Book, n: nat)
    requires Sound(v) && n <= |Order(v)|
    ensures Prune(Reborn(v), n) == Reborn(v)
    decreases n
  {
    hide Consistent, Renumbered, Reborn, Order, Delete;
    if n > 0 {
      NothingToPrune(v, n - 1);
      RebornInfo(v, n - 1);
      OrderLists(v);
      RefsAtMost(v, At(Order(v), n - 1));
    }
  }

  // ---------- the loaded manager is the saved one up to renumbering ----------

  /** Every cell holds the entry it held, under its new id. */
  lemma SameCells(v: Book)
    requires Sound(v)
    ensures forall c :: c in Reborn(v).cells <==> c in v.cells
    ensures forall c :: c in v.cells ==>
              IdAt(v.cells, c) in v.infos && IdAt(Reborn(v).cells, c) == Rank(v, IdAt(v.cells, c))
    ensures forall c :: c in Reborn(v).tried <==> c in v.tried
    ensures forall c :: c in v.tried ==>
              IdAt(v.tried, c) in v.infos && IdAt(Reborn(v).tried, c) == Rank(v, IdAt(v.tried, c))
    ensures forall a :: a in Reborn(v).addrs <==> a in v.addrs
    ensures forall a :: a in v.addrs ==>
              IdOf(v.addrs, a) in v.infos && IdOf(Reborn(v).addrs, a) == Rank(v, IdOf(v.addrs, a))
  {
    hide Ordered, RefsCounted, Counted, Numbered, Order, Rank, InfosTo, UpTo;
    RanksFit(v);
    forall c | c in v.tried ensures Rank(v, IdAt(v.tried, c)) < |Order(v)| {
      assert IdAt(v.tried, c) in v.infos;
    }
    forall a | a in v.addrs ensures Rank(v, IdOf(v.addrs, a)) < |Order(v)| {
      assert IdOf(v.addrs, a) in v.infos;
    }
  }

  lemma RanksFit(v: Book)
    requires Sound(v)
    ensures forall id :: id in v.infos ==> Rank(v, id) < |Order(v)|
  {
    hide Consistent, Order, Rank;
    OrderFacts(v);
  }

  lemma SameRefs(v: Book, k: nat)
    requires Sound(v) && k < |Order(v)|
    ensures CellsOf(Reborn(v).cells, k) == CellsOf(v.cells, At(Order(v), k))
  {
    hide Consistent, Order, Rank, Renumbered;
    SameCells(v);
    var a, b := CellsOf(Reborn(v).cells, k), CellsOf(v.cells, At(Order(v), k));
    forall c ensures c in a <==> c in b {
      if c in v.cells { RankIff(v, IdAt(v.cells, c), k); }
    }
  }

  /** The loaded manager passes the full consistency check. */
  lemma RebornSound(v: Book)
    requires Sound(v)
    ensures Sound(Reborn(v))
  {
    hide Addressed, Ordered, TriedPlaced, NewPlaced, RefsCounted, Counted, Numbered, Renumbered;
    RebornOrdered(v);
    RebornAddressed(v);
    RebornTriedPlaced(v);
    RebornNewPlaced(v);
    RebornRefs(v);
    RebornCounted(v);
  }

  lemma RebornIds(v: Book)
    requires Sound(v)
    ensures forall k :: k in Reborn(v).infos <==> 0 <= k < |Order(v)|
    ensures Reborn(v).h == v.h && Reborn(v).next == |Order(v)| && Reborn(v).random == UpTo(|Order(v)|)
    ensures Reborn(v).nTried == v.nTried && Reborn(v).nNew == v.nNew
  {
  }

  lemma RebornOrdered(v: Book)
    requires Sound(v)
    ensures Ordered(Reborn(v).infos, Reborn(v).random) && Numbered(Reborn(v).infos, Reborn(v).next)
  {
    hide Consistent, Renumbered, Order, Reborn;
    RebornIds(v);
    var r := Reborn(v);
    forall k | k in r.infos ensures r.infos[k].randomPos == k { RebornInfo(v, k); }
    forall k | 0 <= k < |r.random| ensures Pick(r.random, k) == k { }
  }

  lemma RebornAddressed(v: Book)
    requires Sound(v)
    ensures Addressed(Reborn(v).infos, Reborn(v).addrs)
  {
    hide Consistent, Renumbered, Order, Rank, Reborn;
    var r := Reborn(v);
    RebornIds(v);
    SameCells(v);
    AddressedIn(v);
    OrderLists(v);
    forall k | k in r.infos ensures r.infos[k].service.net in r.addrs && IdOf(r.addrs, r.infos[k].service.net) == k {
      RebornInfo(v, k);
      var id := At(Order(v), k);
      assert IdOf(v.addrs, v.infos[id].service.net) == id;
      RankIff(v, id, k);
    }
    forall a | a in r.addrs ensures IdOf(r.addrs, a) in r.infos && r.infos[IdOf(r.addrs, a)].service.net == a {
      var id := IdOf(v.addrs, a);
      RanksFit(v);
      RankIff(v, id, Rank(v, id));
      RebornInfo(v, Rank(v, id));
    }
  }

  lemma RebornTriedPlaced(v: Book)
    requires Sound(v)
    ensures TriedPlaced(Reborn(v).h, Reborn(v).infos, Reborn(v).tried)
  {
    hide Consistent, Renumbered, Order, Rank, Reborn;
    var r := Reborn(v);
    RebornIds(v);
    SameCells(v);
    AddressedIn(v);
    OrderLists(v);
    forall k | k in r.infos && r.infos[k].inTried
      ensures TriedCell(r.h, r.infos[k].service) in r.tried && IdAt(r.tried, TriedCell(r.h, r.infos[k].service)) == k {
      RebornInfo(v, k);
      var id := At(Order(v), k);
      assert IdAt(v.tried, TriedCell(v.h, v.infos[id].service)) == id;
      RankIff(v, id, k);
    }
    forall c | c in r.tried
      ensures IdAt(r.tried, c) in r.infos && r.infos[IdAt(r.tried, c)].inTried
              && TriedCell(r.h, r.infos[IdAt(r.tried, c)].service) == c {
      var id := IdAt(v.tried, c);
      RanksFit(v);
      RankIff(v, id, Rank(v, id));
      RebornInfo(v, Rank(v, id));
    }
  }

  lemma RebornNewPlaced(v: Book)
    requires Sound(v)
    ensures NewPlaced(Reborn(v).h, Reborn(v).infos, Reborn(v).cells)
  {
    hide Addressed, TriedPlaced, Ordered, RefsCounted, Counted, Numbered, Renumbered, Order, Rank, Reborn;
    var r := Reborn(v);
    RebornIds(v);
    SameCells(v);
    forall c | c in r.cells
      ensures IdAt(r.cells, c) in r.infos && !r.infos[IdAt(r.cells, c)].inTried
              && r.h.newPos(c.0, r.infos[IdAt(r.cells, c)].service) == c.1 {
      var id := IdAt(v.cells, c);
      RanksFit(v);
      RankIff(v, id, Rank(v, id));
      RebornInfo(v, Rank(v, id));
    }
  }

  lemma RebornRefs(v: Book)
    requires Sound(v)
    ensures RefsCounted(Reborn(v).infos, Reborn(v).cells, {})
  {
    hide Addressed, TriedPlaced, NewPlaced, Ordered, Counted, Numbered, Renumbered, Order, Rank, Reborn;
    var r := Reborn(v);
    RebornIds(v);
    OrderLists(v);
    forall k | k in r.infos
      ensures && r.infos[k].refCount == |CellsOf(r.cells, k)| <= NEW_BUCKETS_PER_ADDRESS
              && (r.infos[k].inTried ==> r.infos[k].refCount == 0)
              && (!r.infos[k].inTried ==> r.infos[k].refCount >= 1) {
      RebornInfo(v, k);
      SameRefs(v, k);
    }
  }

  lemma RebornCounted(v: Book)
    requires Sound(v)
    ensures Counted(Reborn(v).infos, Reborn(v).nTried, Reborn(v).nNew, {})
  {
    hide Consistent, Renumbered, Order, Rank, Reborn, NewList, TriedList;
    var r := Reborn(v);
    RebornIds(v);
    OrderFacts(v);
    OrderSplit(v);
    var n, m := |NewList(v)|, |Order(v)|;
    forall k | k in r.infos ensures r.infos[k].inTried <==> k >= n { RebornInfo(v, k); }
    RangeSize(0, n);
    RangeSize(n, m);
    assert NewIds(r.infos) - {} == Range(0, n) by {
      assert forall k :: k in NewIds(r.infos) - {} <==> k in Range(0, n);
    }
    assert TriedIds(r.infos) == Range(n, m) by {
      assert forall k :: k in TriedIds(r.infos) <==> k in Range(n, m);
    }
  }

  predicate Within(k: int, lo: int, hi: int) { lo <= k < hi }

  ghost function Range(lo: int, hi: int): set<int> { set k | lo <= k < hi && Within(k, lo, hi) }

  lemma {:induction false} RangeSize(lo: int, hi: int)
    requires lo <= hi
    ensures |Range(lo, hi)| == hi - lo
    decreases hi - lo
  {
    if lo == hi {
      assert forall k :: k in Range(lo, hi) <==> k in {};
    } else {
      RangeSize(lo, hi - 1);
      assert forall k :: k in Range(lo, hi) <==> k in Range(lo, hi - 1) + {hi - 1};
      assert Range(lo, hi) == Range(lo, hi - 1) + {hi - 1};
    }
  }

  // ---------- the size limits of the format ----------

  ghost function Grid(buckets: nat): set<(int, int)> {
    set b, i | 0 <= b < buckets && 0 <= i < BUCKET_SIZE :: (b, i)
  }

  lemma {:induction false} GridSize(buckets: nat)
    ensures |Grid(buckets)| == buckets * BUCKET_SIZE
    decreases buckets
  {
    if buckets == 0 {
      assert forall c :: c in Grid(0) <==> c in {};
    } else {
      GridSize(buckets - 1);
      RowSize(buckets - 1, BUCKET_SIZE);
      assert forall c :: c in Grid(buckets) <==> c in Grid(buckets - 1) + Row(buckets - 1, BUCKET_SIZE);
      assert Grid(buckets) == Grid(buckets - 1) + Row(buckets - 1, BUCKET_SIZE);
      assert Grid(buckets - 1) * Row(buckets - 1, BUCKET_SIZE) == {};
    }
  }

  ghost function Row(b: int, n: nat): set<(int, int)> {
    set i | 0 <= i < n :: (b, i)
  }

  lemma {:induction false} RowSize(b: int, n: nat)
    ensures |Row(b, n)| == n
    decreases n
  {
    if n == 0 {
      assert forall c :: c in Row(b, 0) <==> c in {};
    } else {
      RowSize(b, n - 1);
      assert forall c :: c in Row(b, n) <==> c in Row(b, n - 1) + {(b, n - 1)};
      assert Row(b, n) == Row(b, n - 1) + {(b, n - 1)};
    }
  }

  /** Ids with a cell each, no two sharing one, are at most as many as the cells. */
  lemma {:induction false} AtMostCells(ids: set<int>, cells: Cells)
    requires forall id :: id in ids ==> exists c :: c in cells && cells[c] == id
    ensures |ids| <= |cells.Keys|
    decreases ids
  {
    if id :| id in ids {
      var c :| c in cells && cells[c] == id;
      var fewer := cells - {c};
      forall k | k in ids - {id} ensures exists d :: d in fewer && fewer[d] == k {
        var d :| d in cells && cells[d] == k;
        assert d in fewer && fewer[d] == k;
      }
      AtMostCells(ids - {id}, fewer);
      assert forall x :: x in fewer.Keys <==> x in cells.Keys - {c};
      assert fewer.Keys == cells.Keys - {c};
    } else {
      assert forall id :: id in ids <==> id in {};
    }
  }

  lemma SizesFit(v: Book)
    requires Sound(v) && InRange(v)
    ensures |NewList(v)| <= NEW_BUCKETS * BUCKET_SIZE && |TriedList(v)| <= TRIED_BUCKETS * BUCKET_SIZE
  {
    hide Sound, Order, Rank, NewList, TriedList;
    OrderFacts(v);
    NewFit(v);
    TriedFit(v);
    NumberedIn(v);
    assert NewIds(v.infos) - {} == NewIds(v.infos);
  }

  lemma NewFit(v: Book)
    requires Sound(v) && InRange(v)
    ensures |NewIds(v.infos)| <= NEW_BUCKETS * BUCKET_SIZE
  {
    hide Sound;
    forall id | id in NewIds(v.infos) ensures exists c :: c in v.cells && v.cells[c] == id {
      var c := SomeCell(v, id);
    }
    AtMostCells(NewIds(v.infos), v.cells);
    GridSize(NEW_BUCKETS);
    Smaller(v.cells.Keys, Grid(NEW_BUCKETS));
  }

  lemma TriedFit(v: Book)
    requires Sound(v) && InRange(v)
    ensures |TriedIds(v.infos)| <= TRIED_BUCKETS * BUCKET_SIZE
  {
    hide Addressed, Ordered, NewPlaced, RefsCounted, Counted, Numbered;
    forall id | id in TriedIds(v.infos) ensures exists c :: c in v.tried && v.tried[c] == id {
      assert IdAt(v.tried, TriedCell(v.h, v.infos[id].service)) == id;
    }
    AtMostCells(TriedIds(v.infos), v.tried);
    GridSize(TRIED_BUCKETS);
    Smaller(v.tried.Keys, Grid(TRIED_BUCKETS));
  }

  // ---------- facts the loading loops rely on, for any stream ----------

  ghost predicate Tidy(v: Book) {
    Ordered(v.infos, v.random) && Below(v.infos, v.next)
  }

  ghost predicate Below(infos: Infos, next: int) {
    forall id :: id in infos ==> id < next
  }

  /** The id counter is set to the count, which has no effect unless that is negative. */
  lemma TidyNews(p: Peers)
    requires NewCount(p) <= |p.entries| && Tidy(LoadNews(p, NewCount(p)))
    ensures Tidy(LoadTrieds(p, 0))
  {
    NewsNext0(p, NewCount(p));
  }

  lemma {:induction false} NewsNext0(p: Peers, k: nat)
    requires k <= |p.entries|
    ensures LoadNews(p, k).next == k && (k == 0 ==> LoadNews(p, k).infos == map[])
    decreases k
  {
    hide EnterNew, Usable;
    if k > 0 {
      NewsNext0(p, k - 1);
      EnterNewNext(LoadNews(p, k - 1), p.entries[k - 1], Usable(p));
    }
  }

  lemma EnterNewNext(v: Book, e: Stored, usable: bool)
    ensures EnterNew(v, e, usable).next == v.next + 1
  {
  }

  lemma TidyEnter(v: Book, info: Info)
    requires Tidy(v) && info.randomPos == |v.random|
    ensures Tidy(v.(next := v.next + 1, infos := v.infos[v.next := info], random := v.random + [v.next]))
  {
    OrderedAppend(v.infos, v.random, v.next, info);
  }

  lemma TidyRefer(v: Book, id: int, c: (int, int))
    requires Tidy(v)
    ensures Tidy(Refer(v, id, c))
  {
    if id in v.infos { OrderedUpdate(v.infos, v.random, id, v.infos[id].(refCount := v.infos[id].refCount + 1)); }
  }

  lemma TidyEnterNew(v: Book, e: Stored, usable: bool)
    requires Tidy(v)
    ensures Tidy(EnterNew(v, e, usable))
  {
    hide Ordered, Numbered;
    TidyEnter(v, Load(e, |v.random|));
    var id := v.next;
    var w := v.(next := id + 1, infos := v.infos[id := Load(e, |v.random|)],
                addrs := v.addrs[e.address.service.net := id], random := v.random + [id]);
    TidyRefer(w, id, NewCell(v.h, e.address.service, e.source));
  }

  lemma TidyEnterTried(v: Book, e: Stored)
    requires Tidy(v)
    ensures Tidy(EnterTried(v, e))
  {
    hide Ordered, Numbered;
    TidyEnter(v, Load(e, |v.random|).(inTried := true));
  }

  lemma TidyDelete(v: Book, id: int)
    requires Tidy(v) && id in v.infos
    ensures CanDelete(v, id) && Tidy(Delete(v, id)) && Delete(v, id).next == v.next
  {
    hide Ordered;
    OrderedEnds(v.infos, v.random, id);
    var q := |v.random| - 1;
    SwapOrdered(v, v.infos[id].randomPos, q);
    var w := Swap(v, v.infos[id].randomPos, q);
    OrderedDropLast(w.infos, w.random, id);
  }

  lemma TidyEnterIndex(v: Book, b: int, index: int, usable: bool)
    requires Tidy(v)
    ensures Tidy(EnterIndex(v, b, index, usable)) && EnterIndex(v, b, index, usable).next == v.next
  {
    hide Ordered, Numbered;
    if index in v.infos { TidyRefer(v, index, (b, v.h.newPos(b, v.infos[index].service))); }
  }

  lemma {:induction false} TidyPrune(v: Book, n: nat)
    requires Tidy(v)
    ensures Tidy(Prune(v, n)) && Prune(v, n).next == v.next
    decreases n
  {
    hide Tidy, Delete;
    if n > 0 {
      TidyPrune(v, n - 1);
      var w := Prune(v, n - 1);
      if n - 1 in w.infos { TidyDelete(w, n - 1); }
    }
  }

  // ---------- facts the saving loops rely on ----------

  lemma {:induction false} IdsBelowPrefix(infos: Infos, tried: bool, m: nat, n: nat)
    requires m <= n
    ensures IdsBelow(infos, tried, m) <= IdsBelow(infos, tried, n)
    decreases n
  {
    if m < n { IdsBelowPrefix(infos, tried, m, n - 1); }
  }

  /** How many new entries a walk over the id map meets before `id`. */
  function Before(infos: Infos, id: nat): nat { |IdsBelow(infos, false, id)| }

  function NewsBelow(infos: Infos, id: nat): seq<Stored> { Stores(infos, IdsBelow(infos, false, id)) }

  lemma TriedsNext(infos: Infos, id: nat)
    ensures Stores(infos, IdsBelow(infos, true, 0)) == []
    ensures Stores(infos, IdsBelow(infos, true, id + 1)) == Stores(infos, IdsBelow(infos, true, id))
            + if id in infos && infos[id].inTried then [Save(infos[id])] else []
  {
    hide Save;
    var ids := IdsBelow(infos, true, id);
    assert (ids + [id])[..|ids|] == ids;
  }

  lemma NewsNext(infos: Infos, id: nat)
    ensures |NewsBelow(infos, id)| == Before(infos, id) && NewsBelow(infos, 0) == []
    ensures NewsBelow(infos, id + 1) == NewsBelow(infos, id)
            + (if id in infos && !infos[id].inTried then [Save(infos[id])] else [])
  {
  }

  /** The id map walk numbers a new entry by its rank. */
  lemma NumberedByRank(v: Book, id: int)
    requires Sound(v) && id in v.infos && !v.infos[id].inTried
    ensures 0 <= id < v.next && Rank(v, id) == Before(v.infos, id) < v.nNew
  {
    hide Consistent, IdsBelow, Rank;
    IdIsNat(v, {}, {}, id);
    NumberedIn(v);
    PlaceInList(v, id);
    OrderSizes(v);
    RankIff(v, id, Before(v.infos, id));
  }

  lemma NumberedIn(v: Book)
    requires Sound(v)
    ensures Numbered(v.infos, v.next) && Counted(v.infos, v.nTried, v.nNew, {})
  {
  }

  lemma PlaceInList(v: Book, id: int)
    requires 0 <= id < v.next && id in v.infos && !v.infos[id].inTried
    ensures Before(v.infos, id) < |NewList(v)| && At(Order(v), Before(v.infos, id)) == id
  {
    IdsBelowPrefix(v.infos, false, id + 1, Top(v));
    var k := Before(v.infos, id);
    assert IdsBelow(v.infos, false, id + 1)[k] == id;
    assert NewList(v)[k] == id;
  }
}
