/** What a file of peers loads into, read off the file: which of its entries are kept, and when
    the loaded manager is fully consistent. */
module PeersFile {
  import opened AddrBook
  import opened Options
  import opened Peers
  import opened PeersAny

  // ---------- which entries are kept ----------

  function Total(p: Peers): int { p.nNew + p.nTried }

  function ServiceAt(p: Peers, k: int): Service
    requires Natural(p) && 0 <= k < Total(p)
  {
    p.entries[k].address.service
  }

  function TriedAt(p: Peers, k: int): (int, int)
    requires Natural(p) && 0 <= k < Total(p)
  {
    TriedCell(p.key, ServiceAt(p, k))
  }

  function NewAt(p: Peers, k: int): (int, int)
    requires Natural(p) && 0 <= k < Total(p)
  {
    NewCell(p.key, ServiceAt(p, k), p.entries[k].source)
  }

  /** The first tried entry in its cell; a later one is not entered at all. */
  ghost predicate FirstTried(p: Peers, k: int)
    requires Natural(p)
  {
    p.nNew <= k < Total(p) && forall j :: p.nNew <= j < k ==> TriedAt(p, j) != TriedAt(p, k)
  }

  ghost predicate FirstNew(p: Peers, k: int)
    requires Natural(p)
  {
    0 <= k < p.nNew && forall j :: 0 <= j < k ==> NewAt(p, j) != NewAt(p, k)
  }

  function IndexAt(p: Peers, b: nat, i: nat): int
    requires b < |p.buckets| && i < |p.buckets[b]|
  {
    p.buckets[b][i]
  }

  predicate ValidAt(p: Peers, b: nat, i: nat)
    requires b < |p.buckets|
  {
    i < |p.buckets[b]| && 0 <= IndexAt(p, b, i) < p.nNew
  }

  function SlotAt(p: Peers, b: nat, i: nat): int
    requires Natural(p) && b < |p.buckets| && ValidAt(p, b, i)
  {
    p.key.newPos(b, ServiceAt(p, IndexAt(p, b, i)))
  }

  /** Place i of bucket list b gives its entry a cell: the index is usable, the entry has fewer
      than eight cells from earlier buckets, and no earlier place of the list took the cell. */
  ghost predicate Took(p: Peers, b: nat, i: nat)
    requires Natural(p) && b < |p.buckets|
    decreases b, 1, i
  {
    && ValidAt(p, b, i) && Refs(p, b, IndexAt(p, b, i)) < NEW_BUCKETS_PER_ADDRESS
    && forall j: nat :: j < i && ValidAt(p, b, j) && Took(p, b, j) ==> SlotAt(p, b, j) != SlotAt(p, b, i)
  }

  /** Whether one of the first n places of bucket list b gives entry k a cell. */
  ghost predicate Gets(p: Peers, b: nat, n: nat, k: int)
    requires Natural(p) && b < |p.buckets| && n <= |p.buckets[b]|
    decreases b, 2, 0
  {
    exists i: nat :: i < n && Took(p, b, i) && IndexAt(p, b, i) == k
  }

  /** How many cells entry k gets from the bucket lists before b. */
  ghost function Refs(p: Peers, b: nat, k: int): nat
    requires Natural(p) && b <= |p.buckets|
    decreases b, 0, 0
  {
    if b == 0 then 0 else Refs(p, b - 1, k) + if Gets(p, b - 1, |p.buckets[b - 1]|, k) then 1 else 0
  }

  /** New entries are kept for a cell from the bucket lists, or their own hashed cell if the
      lists cannot be used; tried entries if they are first in their cell. */
  ghost predicate Kept(p: Peers, k: int)
    requires Natural(p) && BucketCount(p) <= |p.buckets|
  {
    if k >= p.nNew then FirstTried(p, k)
    else if Usable(p) then k >= 0 && Refs(p, BucketCount(p), k) > 0
    else FirstNew(p, k)
  }

  /** Entries that are given an id while loading. */
  ghost predicate Registered(p: Peers, k: int)
    requires Natural(p)
  {
    0 <= k < p.nNew || FirstTried(p, k)
  }

  /** No kept entry has the address of another registered one. */
  ghost predicate OwnInFile(p: Peers)
    requires Natural(p) && BucketCount(p) <= |p.buckets|
  {
    forall k, j :: k != j && 0 <= k < Total(p) && 0 <= j < Total(p) && Kept(p, k) && Registered(p, j) ==>
      ServiceAt(p, k).net != ServiceAt(p, j).net
  }

  // ---------- ids ----------

  ghost function Firsts(p: Peers, m: int): nat
    requires Natural(p) && p.nNew <= m <= Total(p)
    decreases m
  {
    if m == p.nNew then 0 else Firsts(p, m - 1) + if FirstTried(p, m - 1) then 1 else 0
  }

  /** The id of a registered entry. */
  ghost function IdFor(p: Peers, k: int): int
    requires Natural(p) && 0 <= k < Total(p)
  {
    if k < p.nNew then k else p.nNew + Firsts(p, k)
  }

  lemma {:induction false} FirstsGrow(p: Peers, j: int, k: int)
    requires Natural(p) && p.nNew <= j < k <= Total(p) && FirstTried(p, j)
    ensures Firsts(p, j) < Firsts(p, k)
    decreases k
  {
    hide FirstTried;
    if k > j + 1 { FirstsGrow(p, j, k - 1); }
  }

  lemma IdsApart(p: Peers, j: int, k: int)
    requires Natural(p) && 0 <= j < k < Total(p) && Registered(p, j) && Registered(p, k)
    ensures IdFor(p, j) != IdFor(p, k)
  {
    if j >= p.nNew { FirstsGrow(p, j, k); }
  }

  ghost predicate Owner(p: Peers, id: int, m: int)
    requires Natural(p) && 0 <= m <= Total(p)
  {
    exists k :: 0 <= k < m && Registered(p, k) && IdFor(p, k) == id
  }

  /** Entry k of the file is in the manager, on its side. */
  ghost predicate Found(p: Peers, v: Book, k: int)
    requires Natural(p) && 0 <= k < Total(p)
  {
    && IdFor(p, k) in v.infos && v.infos[IdFor(p, k)].service == ServiceAt(p, k)
    && (v.infos[IdFor(p, k)].inTried <==> k >= p.nNew)
  }

  /** The entries are those registered among the first m of the file. */
  ghost predicate Entries(p: Peers, v: Book, m: int)
    requires Natural(p) && 0 <= m <= Total(p)
  {
    && v.h == p.key && v.nNew == p.nNew
    && (forall k :: 0 <= k < m && Registered(p, k) ==> Found(p, v, k))
    && (forall id :: id in v.infos ==> Owner(p, id, m))
  }

  lemma EntriesMore(p: Peers, v: Book, w: Book, m: int, info: Info)
    requires Natural(p) && 0 <= m < Total(p) && Entries(p, v, m) && Registered(p, m)
    requires w.h == v.h && w.nNew == v.nNew && IdFor(p, m) !in v.infos && w.infos == v.infos[IdFor(p, m) := info]
    requires info.service == ServiceAt(p, m) && (info.inTried <==> m >= p.nNew)
    ensures Entries(p, w, m + 1)
  {
    hide Registered, IdFor;
    forall id | id in w.infos ensures Owner(p, id, m + 1) {
      if id != IdFor(p, m) {
        assert Owner(p, id, m);
        var k :| 0 <= k < m && Registered(p, k) && IdFor(p, k) == id;
      }
    }
    forall k | 0 <= k < m + 1 && Registered(p, k) ensures Found(p, w, k) {
      if k < m { assert Found(p, v, k); }
    }
  }

  lemma EntriesSkip(p: Peers, v: Book, w: Book, m: int)
    requires Natural(p) && 0 <= m < Total(p) && Entries(p, v, m) && !Registered(p, m)
    requires w.h == v.h && w.nNew == v.nNew && w.infos == v.infos
    ensures Entries(p, w, m + 1)
  {
    hide Registered, IdFor;
    forall id | id in w.infos ensures Owner(p, id, m + 1) {
      assert Owner(p, id, m);
      var k :| 0 <= k < m && Registered(p, k) && IdFor(p, k) == id;
    }
    forall k | 0 <= k < m + 1 && Registered(p, k) ensures Found(p, w, k) {
      assert Found(p, v, k);
    }
  }

  // ---------- new entries ----------

  ghost predicate HashedTo(p: Peers, c: (int, int), m: int)
    requires Natural(p) && 0 <= m <= p.nNew
  {
    exists j :: 0 <= j < m && NewAt(p, j) == c
  }

  ghost predicate Cell(cells: Cells, c: (int, int)) { c in cells }

  /** Without usable lists: a new entry has a cell exactly if it is the first hashed there. */
  ghost predicate Hashed(p: Peers, v: Book, m: int)
    requires Natural(p) && 0 <= m <= p.nNew
  {
    && (forall c :: Cell(v.cells, c) <==> HashedTo(p, c, m))
    && forall k :: 0 <= k < m ==> k in v.infos && v.infos[k].refCount == if FirstNew(p, k) then 1 else 0
  }

  ghost predicate Unplanned(v: Book, m: int) {
    v.cells == map[] && forall k :: 0 <= k < m ==> k in v.infos && v.infos[k].refCount == 0
  }

  ghost predicate NewStage(p: Peers, v: Book, m: int)
    requires Natural(p) && 0 <= m <= p.nNew
  {
    if Usable(p) then Unplanned(v, m) else Hashed(p, v, m)
  }

  lemma {:induction false} NewsEntered(p: Peers, m: nat)
    requires Natural(p) && m <= p.nNew
    ensures Entries(p, LoadNews(p, m), m) && NewStage(p, LoadNews(p, m), m)
    decreases m
  {
    hide Entries, NewStage, EnterNew;
    if m == 0 {
      NoEntries(p);
    } else {
      NewsEntered(p, m - 1);
      NewsShaped(p, m - 1);
      var v := LoadNews(p, m - 1);
      StageNext(p, v, 0, m - 1);
      EnterNewEntry(p, v, m - 1);
      EnterNewCell(p, v, m - 1);
    }
  }

  lemma NoEntries(p: Peers)
    requires Natural(p)
    ensures Entries(p, LoadNews(p, 0), 0) && NewStage(p, LoadNews(p, 0), 0)
  {
  }

  lemma EnterNewEntry(p: Peers, v: Book, m: int)
    requires Natural(p) && 0 <= m < p.nNew && Entries(p, v, m) && v.next == m && m !in v.infos
    ensures Entries(p, EnterNew(v, p.entries[m], Usable(p)), m + 1)
  {
    hide Entries;
    var w := EnterNew(v, p.entries[m], Usable(p));
    EntriesMore(p, v.(h := p.key, nNew := p.nNew), w, m, w.infos[m]) by {
      EntriesHead(p, v, m);
      assert w.infos == v.infos[m := w.infos[m]];
    }
  }

  lemma EntriesHead(p: Peers, v: Book, m: int)
    requires Natural(p) && 0 <= m <= Total(p) && Entries(p, v, m)
    ensures v.h == p.key && v.nNew == p.nNew && v == v.(h := p.key, nNew := p.nNew)
  {
  }

  lemma EnterNewCell(p: Peers, v: Book, m: int)
    requires Natural(p) && 0 <= m < p.nNew && Entries(p, v, m) && v.next == m && m !in v.infos && NewStage(p, v, m)
    ensures NewStage(p, EnterNew(v, p.entries[m], Usable(p)), m + 1)
  {
    hide Usable;
    assert v.h == p.key;
    var w := EnterNew(v, p.entries[m], Usable(p));
    if !Usable(p) {
      assert FirstNew(p, m) <==> !Cell(v.cells, NewAt(p, m)) by {
        assert HashedTo(p, NewAt(p, m), m) <==> !FirstNew(p, m);
      }
      forall c ensures Cell(w.cells, c) <==> HashedTo(p, c, m + 1) {
        assert HashedTo(p, c, m + 1) <==> HashedTo(p, c, m) || c == NewAt(p, m);
      }
    }
  }

  // ---------- tried entries ----------

  ghost predicate TriedBy(p: Peers, c: (int, int), m: int)
    requires Natural(p) && p.nNew <= m <= Total(p)
  {
    exists j :: p.nNew <= j < m && TriedAt(p, j) == c
  }

  ghost predicate TriedStage(p: Peers, v: Book, m: int)
    requires Natural(p) && p.nNew <= m <= Total(p)
  {
    && v.next == p.nNew + Firsts(p, m)
    && forall c :: Cell(v.tried, c) <==> TriedBy(p, c, m)
  }

  /** The new entries and their cells are as in u. */
  ghost predicate SameNews(p: Peers, v: Book, u: Book) {
    && v.cells == u.cells
    && forall k :: 0 <= k < p.nNew && k in u.infos ==> k in v.infos && v.infos[k] == u.infos[k]
  }

  lemma {:induction false} TriedsEntered(p: Peers, k: nat)
    requires Natural(p) && k <= p.nTried
    ensures Entries(p, LoadTrieds(p, k), p.nNew + k) && TriedStage(p, LoadTrieds(p, k), p.nNew + k)
    ensures SameNews(p, LoadTrieds(p, k), LoadNews(p, p.nNew))
    decreases k
  {
    hide Entries, TriedStage, EnterTried, LoadNews, SameNews;
    if k == 0 {
      NewsEntered(p, p.nNew);
      NewsTried(p, p.nNew);
      TriedsStart(p, LoadNews(p, p.nNew));
    } else {
      TriedsEntered(p, k - 1);
      TriedsShaped(p, k - 1);
      var v, m := LoadTrieds(p, k - 1), p.nNew + k - 1;
      StageNext(p, v, v.nTried - (p.nTried - (k - 1)), p.nNew);
      EnterTriedEntry(p, v, m);
      EnterTriedSame(p, v, LoadNews(p, p.nNew), m);
    }
  }

  lemma {:induction false} NewsTried(p: Peers, m: nat)
    requires Natural(p) && m <= p.nNew
    ensures LoadNews(p, m).tried == map[]
    decreases m
  {
    if m > 0 { NewsTried(p, m - 1); }
  }

  lemma TriedsStart(p: Peers, u: Book)
    requires Natural(p) && Entries(p, u, p.nNew) && u.tried == map[]
    ensures var v := u.(next := p.nNew); Entries(p, v, p.nNew) && TriedStage(p, v, p.nNew) && SameNews(p, v, u)
  {
    hide Registered, IdFor;
    var v := u.(next := p.nNew);
    assert forall k :: 0 <= k < p.nNew && Registered(p, k) ==> Found(p, u, k) && Found(p, v, k);
  }

  lemma TriedFirst(p: Peers, v: Book, m: int)
    requires Natural(p) && p.nNew <= m < Total(p) && TriedStage(p, v, m)
    ensures FirstTried(p, m) <==> TriedAt(p, m) !in v.tried
  {
    assert Cell(v.tried, TriedAt(p, m)) <==> TriedBy(p, TriedAt(p, m), m);
  }

  lemma EnterTriedEntry(p: Peers, v: Book, m: int)
    requires Natural(p) && p.nNew <= m < Total(p) && Entries(p, v, m) && TriedStage(p, v, m) && v.next !in v.infos
    ensures var w := EnterTried(v, p.entries[m]); Entries(p, w, m + 1) && TriedStage(p, w, m + 1)
  {
    hide Entries, FirstTried;
    EntriesHead(p, v, m);
    TriedFirst(p, v, m);
    var w := EnterTried(v, p.entries[m]);
    if FirstTried(p, m) {
      EntriesMore(p, v, w, m, w.infos[v.next]);
    } else {
      EntriesSkip(p, v, w, m);
    }
    forall c ensures Cell(w.tried, c) <==> TriedBy(p, c, m + 1) {
      assert TriedBy(p, c, m + 1) <==> TriedBy(p, c, m) || c == TriedAt(p, m);
      assert Cell(v.tried, c) <==> TriedBy(p, c, m);
    }
  }

  lemma EnterTriedSame(p: Peers, v: Book, u: Book, m: int)
    requires Natural(p) && p.nNew <= m < Total(p) && TriedStage(p, v, m) && SameNews(p, v, u)
    ensures SameNews(p, EnterTried(v, p.entries[m]), u)
  {
  }

  // ---------- bucket lists ----------

  /** Whether one of the first n places of bucket list b takes slot s. */
  ghost predicate SlotTaken(p: Peers, b: nat, n: nat, s: int)
    requires Natural(p) && b < |p.buckets|
  {
    exists i: nat :: i < n && ValidAt(p, b, i) && Took(p, b, i) && SlotAt(p, b, i) == s
  }

  ghost predicate CountsAt(p: Peers, v: Book, b: nat)
    requires Natural(p) && b <= |p.buckets|
  {
    && (forall c :: Cell(v.cells, c) ==> c.0 < b)
    && forall k :: 0 <= k < p.nNew ==> k in v.infos && v.infos[k].refCount == Refs(p, b, k)
  }

  /** Once the first n places of bucket list b are read. */
  ghost predicate CountsIn(p: Peers, v: Book, b: nat, n: nat)
    requires Natural(p) && b < |p.buckets| && n <= |p.buckets[b]|
  {
    && (forall c :: Cell(v.cells, c) ==> c.0 <= b)
    && (forall s :: Cell(v.cells, (b, s)) <==> SlotTaken(p, b, n, s))
    && forall k :: 0 <= k < p.nNew ==>
         k in v.infos && v.infos[k].refCount == Refs(p, b, k) + if Gets(p, b, n, k) then 1 else 0
  }

  /** A place of the list is used exactly if it gives its entry a cell. */
  lemma IndexTook(p: Peers, v: Book, b: nat, n: nat)
    requires Natural(p) && b < |p.buckets| && n < |p.buckets[b]| && CountsIn(p, v, b, n) && ValidAt(p, b, n)
    ensures Took(p, b, n) <==>
            (b, SlotAt(p, b, n)) !in v.cells && v.infos[IndexAt(p, b, n)].refCount < NEW_BUCKETS_PER_ADDRESS
  {
    var k, s := IndexAt(p, b, n), SlotAt(p, b, n);
    assert Cell(v.cells, (b, s)) <==> SlotTaken(p, b, n, s);
    if Gets(p, b, n, k) {
      var i: nat :| i < n && Took(p, b, i) && IndexAt(p, b, i) == k;
      assert SlotAt(p, b, i) == s;
      assert SlotTaken(p, b, n, s);
    }
  }

  lemma GetsMore(p: Peers, b: nat, n: nat, k: int)
    requires Natural(p) && b < |p.buckets| && n < |p.buckets[b]|
    ensures Gets(p, b, n + 1, k) <==> Gets(p, b, n, k) || (Took(p, b, n) && IndexAt(p, b, n) == k)
  {
    hide Took;
  }

  lemma SlotMore(p: Peers, b: nat, n: nat, s: int)
    requires Natural(p) && b < |p.buckets| && n < |p.buckets[b]|
    ensures SlotTaken(p, b, n + 1, s) <==>
            SlotTaken(p, b, n, s) || (ValidAt(p, b, n) && Took(p, b, n) && SlotAt(p, b, n) == s)
  {
    hide Took;
  }

  lemma IndexSame(p: Peers, v: Book, b: nat, n: nat)
    requires Natural(p) && b < |p.buckets| && n < |p.buckets[b]| && CountsIn(p, v, b, n) && !Took(p, b, n)
    ensures CountsIn(p, v, b, n + 1)
  {
    hide Took, Gets, SlotTaken;
    forall k | 0 <= k < p.nNew ensures k in v.infos
        && v.infos[k].refCount == Refs(p, b, k) + if Gets(p, b, n + 1, k) then 1 else 0 {
      GetsMore(p, b, n, k);
    }
    forall s ensures Cell(v.cells, (b, s)) <==> SlotTaken(p, b, n + 1, s) { SlotMore(p, b, n, s); }
  }

  lemma IndexMore(p: Peers, v: Book, b: nat, n: nat)
    requires Natural(p) && b < |p.buckets| && n < |p.buckets[b]| && CountsIn(p, v, b, n) && Took(p, b, n)
    requires ValidAt(p, b, n) && !SlotTaken(p, b, n, SlotAt(p, b, n))
    ensures CountsIn(p, Refer(v, IndexAt(p, b, n), (b, SlotAt(p, b, n))), b, n + 1)
  {
    var id := IndexAt(p, b, n);
    var w := Refer(v, id, (b, SlotAt(p, b, n)));
    NotYet(p, b, n, id);
    hide Took, Gets, SlotTaken, ValidAt, IndexAt, SlotAt;
    forall k | 0 <= k < p.nNew ensures k in w.infos
        && w.infos[k].refCount == Refs(p, b, k) + if Gets(p, b, n + 1, k) then 1 else 0 {
      GetsMore(p, b, n, k);
    }
    forall s ensures Cell(w.cells, (b, s)) <==> SlotTaken(p, b, n + 1, s) {
      SlotMore(p, b, n, s);
      assert Cell(v.cells, (b, s)) <==> SlotTaken(p, b, n, s);
    }
    assert forall c :: Cell(w.cells, c) ==> Cell(v.cells, c) || c.0 == b;
  }

  /** A second place with the same entry would take the same slot. */
  lemma NotYet(p: Peers, b: nat, n: nat, k: int)
    requires Natural(p) && b < |p.buckets| && n < |p.buckets[b]| && ValidAt(p, b, n) && IndexAt(p, b, n) == k
    requires !SlotTaken(p, b, n, SlotAt(p, b, n))
    ensures !Gets(p, b, n, k)
  {
    forall i: nat | i < n && Took(p, b, i) ensures IndexAt(p, b, i) != k {
      assert ValidAt(p, b, i) && SlotAt(p, b, i) != SlotAt(p, b, n);
    }
  }

  /** The service an index of a bucket list leads to. */
  lemma IndexService(p: Peers, v: Book, k: int)
    requires Natural(p) && Entries(p, v, Total(p)) && 0 <= k < p.nNew
    ensures k in v.infos && v.infos[k].service == ServiceAt(p, k)
  {
    assert Registered(p, k) && Found(p, v, k);
  }

  lemma IndexEntered(p: Peers, v: Book, b: nat, n: nat)
    requires Natural(p) && b < |p.buckets| && n < |p.buckets[b]| && CountsIn(p, v, b, n) && Entries(p, v, Total(p))
    ensures CountsIn(p, EnterIndex(v, b, p.buckets[b][n], true), b, n + 1)
  {
    var index := IndexAt(p, b, n);
    EntriesHead(p, v, Total(p));
    if ValidAt(p, b, n) {
      IndexService(p, v, index);
      IndexTook(p, v, b, n);
      assert Cell(v.cells, (b, SlotAt(p, b, n))) <==> SlotTaken(p, b, n, SlotAt(p, b, n));
      hide CountsIn, Entries, Took, SlotTaken;
      if Took(p, b, n) { IndexMore(p, v, b, n); } else { IndexSame(p, v, b, n); }
    } else {
      assert !Took(p, b, n);
      hide CountsIn, Entries, Took;
      IndexSame(p, v, b, n);
    }
  }

  lemma EntriesKept(p: Peers, v: Book, w: Book)
    requires Natural(p) && Entries(p, v, Total(p)) && w.h == v.h && w.nNew == v.nNew && Recounted(w, v)
    requires forall id :: id in v.infos ==> w.infos[id].inTried == v.infos[id].inTried
    ensures Entries(p, w, Total(p))
  {
    hide Registered, IdFor, Owner;
    forall k | 0 <= k < Total(p) && Registered(p, k) ensures Found(p, w, k) { assert Found(p, v, k); }
    assert forall id :: id in w.infos.Keys ==> id in v.infos.Keys;
  }

  lemma EnterIndexSides(v: Book, b: int, index: int, usable: bool)
    ensures var w := EnterIndex(v, b, index, usable);
            && w.h == v.h && w.nNew == v.nNew && Recounted(w, v)
            && forall id :: id in v.infos ==> w.infos[id].inTried == v.infos[id].inTried
  {
    EnterIndexIs(v, b, index, usable);
  }

  lemma {:induction false} BucketEntered(p: Peers, v: Book, b: nat, n: nat)
    requires Natural(p) && b < |p.buckets| && n <= |p.buckets[b]| && CountsAt(p, v, b) && Entries(p, v, Total(p))
    ensures CountsIn(p, LoadBucket(v, b, p.buckets[b][..n], true), b, n)
    ensures Entries(p, LoadBucket(v, b, p.buckets[b][..n], true), Total(p))
    decreases n
  {
    hide CountsIn, CountsAt, Entries, EnterIndex, Recounted;
    var list := p.buckets[b];
    if n == 0 {
      BucketStart(p, v, b);
    } else {
      BucketEntered(p, v, b, n - 1);
      assert list[..n][..n - 1] == list[..n - 1];
      var u := LoadBucket(v, b, list[..n - 1], true);
      IndexEntered(p, u, b, n - 1);
      EnterIndexSides(u, b, list[n - 1], true);
      EntriesKept(p, u, EnterIndex(u, b, list[n - 1], true));
    }
  }

  lemma BucketStart(p: Peers, v: Book, b: nat)
    requires Natural(p) && b < |p.buckets| && CountsAt(p, v, b)
    ensures CountsIn(p, v, b, 0)
  {
    hide Took;
    forall s ensures Cell(v.cells, (b, s)) <==> SlotTaken(p, b, 0, s) {
      assert Cell(v.cells, (b, s)) ==> (b, s).0 < b;
    }
  }

  lemma BucketEnd(p: Peers, v: Book, b: nat)
    requires Natural(p) && b < |p.buckets| && CountsIn(p, v, b, |p.buckets[b]|)
    ensures CountsAt(p, v, b + 1)
  {
    hide Gets, SlotTaken;
  }

  lemma {:induction false} BucketsEntered(p: Peers, b: nat)
    requires Natural(p) && b <= |p.buckets| && Usable(p)
    ensures CountsAt(p, LoadBuckets(p, b), b) && Entries(p, LoadBuckets(p, b), Total(p))
    decreases b
  {
    hide CountsIn, CountsAt, Entries, LoadBucket, LoadTrieds;
    if b == 0 {
      TriedsEntered(p, p.nTried);
      NewsEntered(p, p.nNew);
      BucketsStart(p, LoadNews(p, p.nNew), LoadTrieds(p, p.nTried));
    } else {
      var v, list := LoadBuckets(p, b - 1), p.buckets[b - 1];
      BucketsEntered(p, b - 1);
      BucketEntered(p, v, b - 1, |list|);
      assert list[..|list|] == list;
      BucketEnd(p, LoadBucket(v, b - 1, list, true), b - 1);
    }
  }

  lemma BucketsStart(p: Peers, u: Book, v: Book)
    requires Natural(p) && Usable(p) && NewStage(p, u, p.nNew) && SameNews(p, v, u)
    ensures CountsAt(p, v, 0)
  {
  }

  // ---------- lists that cannot be used ----------

  lemma {:induction false} BucketUnused(v: Book, b: int, indexes: seq<int>)
    ensures LoadBucket(v, b, indexes, false) == v
    decreases |indexes|
  {
    if indexes != [] { BucketUnused(v, b, indexes[..|indexes| - 1]); }
  }

  lemma {:induction false} BucketsUnused(p: Peers, b: nat)
    requires Natural(p) && b <= |p.buckets| && !Usable(p)
    ensures LoadBuckets(p, b) == LoadTrieds(p, p.nTried)
    decreases b
  {
    hide LoadTrieds, LoadBucket;
    if b > 0 {
      BucketsUnused(p, b - 1);
      BucketUnused(LoadBuckets(p, b - 1), b - 1, p.buckets[b - 1]);
    }
  }

  // ---------- what is left ----------

  /** Before pruning: every registered entry is there, and a new one has a cell exactly if it is kept. */
  lemma RawIs(p: Peers)
    requires Natural(p) && BucketCount(p) <= |p.buckets|
    ensures Entries(p, Raw(p), Total(p))
    ensures forall k :: 0 <= k < p.nNew ==> k in Raw(p).infos && (Raw(p).infos[k].refCount != 0 <==> Kept(p, k))
  {
    hide LoadTrieds, LoadNews, LoadBuckets, Entries, Refs, FirstNew;
    if Usable(p) {
      BucketsEntered(p, BucketCount(p));
    } else {
      BucketsUnused(p, BucketCount(p));
      TriedsEntered(p, p.nTried);
      NewsEntered(p, p.nNew);
    }
  }

  /** Which entries of the file the loaded manager has, and that it has no others. */
  ghost predicate KeptExactly(p: Peers, w: Book)
    requires Natural(p) && BucketCount(p) <= |p.buckets|
  {
    && (forall k :: 0 <= k < Total(p) && Registered(p, k) ==> (IdFor(p, k) in w.infos <==> Kept(p, k)))
    && (forall k :: 0 <= k < Total(p) && Kept(p, k) ==>
          Registered(p, k) && IdFor(p, k) in w.infos && w.infos[IdFor(p, k)].service == ServiceAt(p, k))
    && (forall id :: id in w.infos ==> Owner(p, id, Total(p)))
  }

  lemma RawNumbered(p: Peers)
    requires Natural(p) && BucketCount(p) <= |p.buckets|
    ensures Numbered(Raw(p).infos, Raw(p).next)
  {
    hide LoadBuckets;
    BucketsShaped(p, BucketCount(p));
  }

  /** The entries left are the kept ones of the file. */
  lemma WhichKept(p: Peers)
    requires Unserialized(p).Some? && Natural(p)
    ensures KeptExactly(p, Unserialized(p).value)
  {
    hide Prune, LoadBuckets, Shaped, KeptExactly, Entries, Pruned, Kept, Numbered;
    NaturalFile(p);
    RawIs(p);
    RawNumbered(p);
    KeptLeft(p, Raw(p), Unserialized(p).value);
  }

  lemma KeptOne(p: Peers, v: Book, w: Book, k: int)
    requires Natural(p) && BucketCount(p) <= |p.buckets| && Numbered(v.infos, v.next) && Pruned(v, w, v.next)
    requires 0 <= k < Total(p) && Registered(p, k) && Found(p, v, k)
    requires k < p.nNew ==> (v.infos[k].refCount != 0 <==> Kept(p, k))
    ensures IdFor(p, k) in w.infos <==> Kept(p, k)
    ensures IdFor(p, k) in w.infos ==> w.infos[IdFor(p, k)].service == ServiceAt(p, k)
  {
    hide FirstTried, Refs, FirstNew;
    var id := IdFor(p, k);
    assert id in Unplaced(v.infos, v.next) <==> !v.infos[id].inTried && v.infos[id].refCount == 0;
    assert id in v.infos - Unplaced(v.infos, v.next) <==> id !in Unplaced(v.infos, v.next);
  }

  lemma KeptLeft(p: Peers, v: Book, w: Book)
    requires Natural(p) && BucketCount(p) <= |p.buckets| && Entries(p, v, Total(p))
    requires forall k :: 0 <= k < p.nNew ==> k in v.infos && (v.infos[k].refCount != 0 <==> Kept(p, k))
    requires Numbered(v.infos, v.next) && Pruned(v, w, v.next)
    ensures KeptExactly(p, w)
  {
    forall id | id in w.infos ensures Owner(p, id, Total(p)) { assert id in v.infos - Unplaced(v.infos, v.next); }
    assert forall k :: Kept(p, k) ==> Registered(p, k) by { hide Refs; }
    hide Registered, IdFor, Kept, Found, Owner, Pruned, Numbered;
    forall k | 0 <= k < Total(p) && Registered(p, k) ensures (IdFor(p, k) in w.infos <==> Kept(p, k))
        && (IdFor(p, k) in w.infos ==> w.infos[IdFor(p, k)].service == ServiceAt(p, k)) {
      KeptOne(p, v, w, k);
    }
  }

  // ---------- consistency ----------

  lemma OwnFromFile(p: Peers, v: Book, w: Book)
    requires Natural(p) && BucketCount(p) <= |p.buckets| && Entries(p, v, Total(p)) && KeptExactly(p, w)
    ensures OwnInFile(p) ==> OwnAddress(v, w)
  {
    hide Registered, Kept, IdFor;
    if OwnInFile(p) {
      forall id, other | id in w.infos && other in v.infos && id != other
          ensures w.infos[id].service.net != v.infos[other].service.net {
        assert Owner(p, id, Total(p)) && Owner(p, other, Total(p));
        var k :| 0 <= k < Total(p) && Registered(p, k) && IdFor(p, k) == id;
        var j :| 0 <= j < Total(p) && Registered(p, j) && IdFor(p, j) == other;
        assert Kept(p, k) && Found(p, v, j);
      }
    }
  }

  lemma OwnToFile(p: Peers, v: Book, w: Book)
    requires Natural(p) && BucketCount(p) <= |p.buckets| && Entries(p, v, Total(p)) && KeptExactly(p, w)
    ensures OwnAddress(v, w) ==> OwnInFile(p)
  {
    hide Registered, Kept, IdFor;
    if OwnAddress(v, w) {
      forall k, j | k != j && 0 <= k < Total(p) && 0 <= j < Total(p) && Kept(p, k) && Registered(p, j)
          ensures ServiceAt(p, k).net != ServiceAt(p, j).net {
        assert Registered(p, k) && Found(p, v, j);
        if k < j { IdsApart(p, k, j); } else { IdsApart(p, j, k); }
      }
    }
  }

  /** Every address occurs once. */
  ghost predicate Once(p: Peers)
    requires Natural(p)
  {
    forall j, k :: 0 <= j < k < Total(p) ==> ServiceAt(p, j).net != ServiceAt(p, k).net
  }

  /** A loaded manager is fully consistent exactly if neither count in the file is negative and
      no kept entry of the file has the address of another registered one; so a file in which
      every address occurs once loads consistently. */
  lemma LoadedSound(p: Peers)
    requires Unserialized(p).Some?
    ensures Sound(Unserialized(p).value) <==> Natural(p) && OwnInFile(p)
    ensures Natural(p) && Once(p) ==> Sound(Unserialized(p).value)
  {
    hide Prune, LoadBuckets, KeptExactly, Entries, Kept, OwnInFile, OwnAddress, Shaped, Addressed, Once;
    if Natural(p) {
      WhichKept(p);
      RawIs(p);
      OwnFromFile(p, Raw(p), Unserialized(p).value);
      OwnToFile(p, Raw(p), Unserialized(p).value);
      LoadedOwn(p);
      OnceOwn(p);
    } else {
      NegativeUnsound(p);
    }
  }

  lemma OnceOwn(p: Peers)
    requires Natural(p) && BucketCount(p) <= |p.buckets|
    ensures Once(p) ==> OwnInFile(p)
  {
    hide Kept, Registered;
  }

  lemma NegativeUnsound(p: Peers)
    requires Unserialized(p).Some? && !Natural(p)
    ensures !Sound(Unserialized(p).value)
  {
    hide Prune, LoadBuckets, Addressed, Ordered, Numbered, TriedPlaced, NewPlaced, RefsCounted, NewIds, TriedIds;
    var w := Unserialized(p).value;
    if Sound(w) {
      SoundShaped(w);
      AnyFile(p);
      assert false;
    }
  }

  lemma SoundShaped(w: Book)
    requires Sound(w)
    ensures Shaped(w, {}, w.nTried, w.nNew)
  {
    hide Ordered, TriedPlaced, NewPlaced, RefsCounted, Counted, Addressed;
  }
}
