/** The cuckoo cache: a fixed table where every element has eight possible places, erasing
    only marks a place as discardable, and old elements age out by epochs. */
module Cuckoo {
  import opened ByteBits

  /** 0 is the default-constructed element that fills an unused table. */
  type Element = nat

  /** The eight hash functions; the mask is a remainder by the (power of two) table size. */
  type Hasher = (nat, Element) -> nat

  datatype Cache = Cache(table: seq<Element>, garbage: seq<bool>, epoch: seq<bool>, counter: nat, epochSize: nat,
      depthLimit: nat)

  ghost predicate Sized(c: Cache) {
    |c.table| == |c.garbage| == |c.epoch| > 0
  }

  function Place(h: Hasher, size: nat, e: Element, i: nat): (p: nat)
    requires size > 0
    ensures p < size
  {
    h(i, e) % size
  }

  function Locs(h: Hasher, size: nat, e: Element): (locs: seq<nat>)
    requires size > 0
    ensures |locs| == 8 && forall i :: 0 <= i < 8 ==> locs[i] < size
  {
    seq(8, i requires 0 <= i < 8 => Place(h, size, e, i))
  }

  predicate AtHome(h: Hasher, size: nat, e: Element, p: nat)
    requires size > 0
  {
    p in Locs(h, size, e)
  }

  // ---------- the operations ----------

  function First(hits: seq<bool>): (r: nat)
    ensures r <= |hits| && (r < |hits| ==> hits[r]) && forall j :: 0 <= j < r ==> !hits[j]
  {
    if hits == [] || hits[0] then 0 else 1 + First(hits[1..])
  }

  /** The first of the places that holds e. */
  function Match(table: seq<Element>, locs: seq<nat>, e: Element): (k: nat)
    requires forall i :: 0 <= i < |locs| ==> locs[i] < |table|
    ensures k <= |locs| && (k < |locs| ==> table[locs[k]] == e) && forall j :: 0 <= j < k ==> table[locs[j]] != e
  {
    var hits := seq(|locs|, i requires 0 <= i < |locs| => table[locs[i]] == e);
    assert forall j :: 0 <= j < |locs| ==> hits[j] == (table[locs[j]] == e);
    First(hits)
  }

  /** The first of the places that may be overwritten. */
  function Free(garbage: seq<bool>, locs: seq<nat>): (k: nat)
    requires forall i :: 0 <= i < |locs| ==> locs[i] < |garbage|
    ensures k <= |locs| && (k < |locs| ==> garbage[locs[k]]) && forall j :: 0 <= j < k ==> !garbage[locs[j]]
  {
    var hits := seq(|locs|, i requires 0 <= i < |locs| => garbage[locs[i]]);
    assert forall j :: 0 <= j < |locs| ==> hits[j] == garbage[locs[j]];
    First(hits)
  }

  /** The place after the last one looked at; -1 stands for the invalid place. */
  function Next(locs: seq<nat>, last: int): (p: nat)
    requires |locs| == 8
    ensures p in locs
  {
    locs[(1 + Index(locs, last)) % 8]
  }

  /** The first index of a place, or the length of the list. */
  function Index(locs: seq<nat>, last: int): (k: nat)
    ensures k <= |locs| && (k < |locs| ==> locs[k] == last) && forall j :: 0 <= j < k ==> locs[j] != last
  {
    var hits := seq(|locs|, i requires 0 <= i < |locs| => locs[i] == last);
    assert forall j :: 0 <= j < |locs| ==> hits[j] == (locs[j] == last);
    First(hits)
  }

  datatype Pushed = Pushed(cache: Cache, dropped: multiset<Element>)

  /** Puts e in a free place, or swaps it with another element and goes on with that one. */
  function Push(h: Hasher, c: Cache, e: Element, young: bool, last: int, depth: nat): (r: Pushed)
    requires Sized(c)
    ensures Sized(r.cache) && |r.cache.table| == |c.table|
    decreases depth
  {
    if depth == 0 then Pushed(c, multiset{e}) else
    var locs := Locs(h, |c.table|, e);
    var k := Free(c.garbage, locs);
    if k < 8 then Pushed(Put(c, locs[k], e, young), multiset{}) else
    var p := Next(locs, last);
    Push(h, Swapped(c, p, e, young), c.table[p], c.epoch[p], p, depth - 1)
  }

  /** The first place of `locs` that is p is followed by p again. */
  ghost predicate Repeats(locs: seq<nat>, p: nat)
    requires |locs| == 8
  {
    exists i :: 0 <= i < 8 && locs[i] == p && p !in locs[..i] && locs[(i + 1) % 8] == p
  }

  lemma NextRepeats(locs: seq<nat>, p: nat)
    requires |locs| == 8
    ensures Next(locs, -1) == locs[1] && (Next(locs, p) == p <==> Repeats(locs, p))
  {
    var k := Index(locs, p);
    assert Index(locs, -1) == 8;
    if Next(locs, p) == p && k < 8 {
      assert locs[k] == p && p !in locs[..k] && locs[(k + 1) % 8] == p;
    }
    forall i | 0 <= i < 8 && locs[i] == p && p !in locs[..i] ensures i == k { }
  }

  /** A new element without a free place goes first to its second place. */
  lemma FirstSwap(h: Hasher, c: Cache, e: Element, depth: nat)
    requires Sized(c) && depth > 0 && Free(c.garbage, Locs(h, |c.table|, e)) == 8
    ensures var p := Place(h, |c.table|, e, 1);
            Push(h, c, e, true, -1, depth) == Push(h, Swapped(c, p, e, true), c.table[p], c.epoch[p], p, depth - 1)
  {
    NextRepeats(Locs(h, |c.table|, e), 0);
  }

  /** Once e is swapped into p and the element it took out has no free place either, the next
      swap takes e out again exactly if p is repeated among that element's places; the cache is
      then as before and two of the allowed swaps are gone. */
  lemma MovesBack(h: Hasher, c: Cache, e: Element, young: bool, last: int, depth: nat)
    requires Sized(c) && depth > 1 && Free(c.garbage, Locs(h, |c.table|, e)) == 8
    requires Free(c.garbage, Locs(h, |c.table|, c.table[Next(Locs(h, |c.table|, e), last)])) == 8
    ensures var p := Next(Locs(h, |c.table|, e), last);
            var places := Locs(h, |c.table|, c.table[p]);
            var q, d := Next(places, p), Swapped(c, p, e, young);
            && Push(h, c, e, young, last, depth) ==
               Push(h, Swapped(d, q, c.table[p], c.epoch[p]), d.table[q], d.epoch[q], q, depth - 2)
            && (q == p <==> Repeats(places, p))
            && (q == p ==> d.table[q] == e && Push(h, c, e, young, last, depth) == Push(h, c, e, young, p, depth - 2))
  {
    hide Repeats, Locs, Next;
    var p := Next(Locs(h, |c.table|, e), last);
    var places := Locs(h, |c.table|, c.table[p]);
    NextRepeats(places, p);
    var q, d := Next(places, p), Swapped(c, p, e, young);
    assert Push(h, c, e, young, last, depth) == Push(h, d, c.table[p], c.epoch[p], p, depth - 1);
    if q == p {
      var b := Swapped(d, q, c.table[p], c.epoch[p]);
      assert b.table == c.table && b.epoch == c.epoch;
      assert b == c;
    }
  }

  lemma RepeatsAtOnce(locs: seq<nat>, p: nat)
    requires |locs| == 8 && locs[0] == p && locs[1] == p
    ensures Repeats(locs, p)
  {
    assert p !in locs[..0] && locs[(0 + 1) % 8] == p;
  }

  lemma Stops(h: Hasher, c: Cache, e: Element, young: bool, last: int)
    requires Sized(c)
    ensures Push(h, c, e, young, last, 0) == Pushed(c, multiset{e})
  {
  }

  /** Only the element and its epoch change places: the entry was one to keep. */
  function Swapped(c: Cache, p: nat, e: Element, young: bool): (d: Cache)
    requires Sized(c) && p < |c.table|
    ensures Sized(d) && |d.table| == |c.table|
  {
    c.(table := c.table[p := e], epoch := c.epoch[p := young])
  }

  function Put(c: Cache, p: nat, e: Element, young: bool): Cache
    requires Sized(c) && p < |c.table|
  {
    c.(table := c.table[p := e], garbage := c.garbage[p := false], epoch := c.epoch[p := young])
  }

  /** How many of the first n places are of the current epoch and not discardable. */
  function Young(c: Cache, n: nat): (r: nat)
    requires Sized(c) && n <= |c.table|
    ensures r <= n
  {
    if n == 0 then 0 else Young(c, n - 1) + (if c.epoch[n - 1] && !c.garbage[n - 1] then 1 else 0)
  }

  function Max(a: int, b: int): int { if a < b then b else a }

  /** The epochs move on: old elements become discardable. */
  function Aged(c: Cache): (r: Cache)
    requires Sized(c)
    ensures Sized(r) && r.table == c.table
  {
    c.(garbage := seq(|c.table|, i requires 0 <= i < |c.table| => c.garbage[i] || !c.epoch[i]),
       epoch := seq(|c.table|, _ => false), counter := c.epochSize)
  }

  function Checked(c: Cache): (r: Cache)
    requires Sized(c)
    ensures Sized(r) && r.table == c.table
  {
    if c.counter != 0 then c.(counter := c.counter - 1)
    else if Young(c, |c.table|) >= c.epochSize then Aged(c)
    else c.(counter := Max(1, Max(c.epochSize / 16, c.epochSize - Young(c, |c.table|))))
  }

  /** The insertion proper, after the epoch check. */
  function Enter(h: Hasher, c: Cache, e: Element): (r: Pushed)
    requires Sized(c)
    ensures Sized(r.cache) && |r.cache.table| == |c.table|
  {
    var locs := Locs(h, |c.table|, e);
    var k := Match(c.table, locs, e);
    if k < 8 then
      Pushed(c.(garbage := c.garbage[locs[k] := false], epoch := c.epoch[locs[k] := true]),
             if c.garbage[locs[k]] then multiset{} else multiset{e})
    else Push(h, c, e, true, -1, c.depthLimit)
  }

  function Stored(h: Hasher, c: Cache, e: Element): (r: Cache)
    requires Sized(c)
    ensures Sized(r) && |r.table| == |c.table|
  {
    Enter(h, Checked(c), e).cache
  }

  function Holds(h: Hasher, c: Cache, e: Element): bool
    requires Sized(c)
  {
    Match(c.table, Locs(h, |c.table|, e), e) < 8
  }

  function Erase(h: Hasher, c: Cache, e: Element): (r: Cache)
    requires Sized(c)
    ensures Sized(r) && |r.table| == |c.table|
  {
    var locs := Locs(h, |c.table|, e);
    var k := Match(c.table, locs, e);
    if k < 8 then c.(garbage := c.garbage[locs[k] := true]) else c
  }

  /** A cache as set up: everything is discardable. */
  function Empty(size: nat, epochSize: nat, depthLimit: nat): Cache {
    Cache(seq(size, _ => 0), seq(size, _ => true), seq(size, _ => false), epochSize, epochSize, depthLimit)
  }

  // ---------- what is kept ----------

  ghost function One(table: seq<Element>, garbage: seq<bool>, p: nat): multiset<Element>
    requires p < |table| == |garbage|
  {
    if garbage[p] then multiset{} else multiset{table[p]}
  }

  /** The elements of the first n places that are not discardable. */
  ghost function Kept(table: seq<Element>, garbage: seq<bool>, n: nat): multiset<Element>
    requires n <= |table| == |garbage|
  {
    if n == 0 then multiset{} else Kept(table, garbage, n - 1) + One(table, garbage, n - 1)
  }

  ghost function KeptIn(c: Cache): multiset<Element>
    requires Sized(c)
  {
    Kept(c.table, c.garbage, |c.table|)
  }

  lemma {:induction false} KeptElsewhere(table: seq<Element>, garbage: seq<bool>, p: nat, e: Element, g: bool, n: nat)
    requires n <= p < |table| == |garbage|
    ensures Kept(table[p := e], garbage[p := g], n) == Kept(table, garbage, n)
  {
    if n > 0 { KeptElsewhere(table, garbage, p, e, g, n - 1); }
  }

  lemma KeptStep(table: seq<Element>, garbage: seq<bool>, n: nat)
    requires n < |table| == |garbage|
    ensures Kept(table, garbage, n + 1) == Kept(table, garbage, n) + One(table, garbage, n)
  {
  }

  lemma OneElsewhere(table: seq<Element>, garbage: seq<bool>, p: nat, e: Element, g: bool, q: nat)
    requires p < |table| == |garbage| && q < |table| && q != p
    ensures One(table[p := e], garbage[p := g], q) == One(table, garbage, q)
  {
  }

  lemma OneIs(table: seq<Element>, garbage: seq<bool>, p: nat, e: Element, g: bool)
    requires p < |table| == |garbage|
    ensures One(table[p := e], garbage[p := g], p) == if g then multiset{} else multiset{e}
  {
  }

  lemma AddBoth(a: multiset<Element>, b: multiset<Element>, c: multiset<Element>, d: multiset<Element>,
                x: multiset<Element>)
    requires a + b == c + d
    ensures a + x + b == c + x + d
  {
    assert a + x + b == (a + b) + x;
    assert c + x + d == (c + d) + x;
  }

  /** Changing one place changes what is kept by what that place kept. */
  lemma {:induction false} KeptUpdate(table: seq<Element>, garbage: seq<bool>, p: nat, e: Element, g: bool, n: nat)
    requires p < n <= |table| == |garbage|
    ensures Kept(table[p := e], garbage[p := g], n) + One(table, garbage, p)
            == Kept(table, garbage, n) + (if g then multiset{} else multiset{e})
  {
    hide Kept, One;
    KeptStep(table, garbage, n - 1);
    KeptStep(table[p := e], garbage[p := g], n - 1);
    if p == n - 1 {
      KeptElsewhere(table, garbage, p, e, g, n - 1);
      OneIs(table, garbage, p, e, g);
      AddBoth(Kept(table, garbage, n - 1), One(table, garbage, p), Kept(table, garbage, n), multiset{}, if g
          then multiset{} else multiset{e});
    } else {
      KeptUpdate(table, garbage, p, e, g, n - 1);
      var same := One(table, garbage, n - 1);
      OneElsewhere(table, garbage, p, e, g, n - 1);
      AddBoth(Kept(table[p := e], garbage[p := g], n - 1), One(table, garbage, p),
              Kept(table, garbage, n - 1), if g then multiset{} else multiset{e}, same);
    }
  }

  lemma PutConserves(c: Cache, p: nat, e: Element, young: bool)
    requires Sized(c) && p < |c.table| && c.garbage[p]
    ensures KeptIn(Put(c, p, e, young)) == KeptIn(c) + multiset{e}
  {
    hide Kept;
    KeptUpdate(c.table, c.garbage, p, e, false, |c.table|);
  }

  lemma SwapConserves(c: Cache, p: nat, e: Element, young: bool)
    requires Sized(c) && p < |c.table| && !c.garbage[p]
    ensures KeptIn(Swapped(c, p, e, young)) + multiset{c.table[p]} == KeptIn(c) + multiset{e}
  {
    hide Kept;
    KeptUpdate(c.table, c.garbage, p, e, false, |c.table|);
    assert c.garbage[p := false] == c.garbage;
  }

  lemma {:induction false} PushConserves(h: Hasher, c: Cache, e: Element, young: bool, last: int, depth: nat)
    requires Sized(c)
    ensures var r := Push(h, c, e, young, last, depth);
            KeptIn(r.cache) + r.dropped == KeptIn(c) + multiset{e} && |r.dropped| <= 1
    decreases depth
  {
    hide KeptIn, Put, Swapped, Locs;
    if depth > 0 {
      var locs := Locs(h, |c.table|, e);
      var k := Free(c.garbage, locs);
      if k < 8 {
        PutConserves(c, locs[k], e, young);
      } else {
        var p := Next(locs, last);
        SwapConserves(c, p, e, young);
        PushConserves(h, Swapped(c, p, e, young), c.table[p], c.epoch[p], p, depth - 1);
      }
    }
  }

  /** Insertion keeps all elements and the new one, but for at most one. */
  lemma EnterConserves(h: Hasher, c: Cache, e: Element)
    requires Sized(c)
    ensures var r := Enter(h, c, e);
            KeptIn(r.cache) + r.dropped == KeptIn(c) + multiset{e} && |r.dropped| <= 1
  {
    hide Kept, Push;
    var n := |c.table|;
    var locs := Locs(h, n, e);
    var k := Match(c.table, locs, e);
    if k < 8 {
      KeptUpdate(c.table, c.garbage, locs[k], e, false, n);
      assert c.table[locs[k] := e] == c.table;
    } else {
      PushConserves(h, c, e, true, -1, c.depthLimit);
    }
  }

  // ---------- where elements are ----------

  function At(table: seq<Element>, p: nat): Element
    requires p < |table|
  {
    table[p]
  }

  function Bad(garbage: seq<bool>, p: nat): bool
    requires p < |garbage|
  {
    garbage[p]
  }

  /** Every element is at one of its eight places, but for default elements nobody put there. */
  ghost predicate Homes(h: Hasher, c: Cache)
    requires Sized(c)
  {
    forall p :: 0 <= p < |c.table| ==>
          (At(c.table, p) == 0 && Bad(c.garbage, p)) || AtHome(h, |c.table|, At(c.table, p), p)
  }

  ghost predicate NoDoubles(table: seq<Element>) {
    forall p, q :: 0 <= p < q < |table| && At(table, p) == At(table, q) ==> At(table, p) == 0
  }

  ghost predicate Missing(table: seq<Element>, e: Element) {
    e == 0 || forall p :: 0 <= p < |table| ==> At(table, p) != e
  }

  ghost predicate Inv(h: Hasher, c: Cache) {
    Sized(c) && Homes(h, c) && NoDoubles(c.table)
  }

  lemma ReplaceKeeps(table: seq<Element>, p: nat, e: Element)
    requires p < |table| && NoDoubles(table) && Missing(table, e)
    ensures NoDoubles(table[p := e]) && Missing(table[p := e], table[p])
  {
    var t := table[p := e];
    assert forall q :: 0 <= q < |t| ==> At(t, q) == if q == p then e else At(table, q);
    forall a, b | 0 <= a < b < |t| && At(t, a) == At(t, b) ensures At(t, a) == 0 {
      if a != p && b != p { assert At(table, a) == At(table, b); }
    }
    if table[p] != 0 {
      forall q | 0 <= q < |t| ensures At(t, q) != table[p] {
        if q != p { assert At(table, q) != At(table, p); } else { assert At(table, p) != e || e == 0; }
      }
    }
  }

  lemma PutKeeps(h: Hasher, c: Cache, p: nat, e: Element, g: bool, young: bool)
    requires Inv(h, c) && p < |c.table| && AtHome(h, |c.table|, e, p) && Missing(c.table, e)
    ensures Inv(h, c.(table := c.table[p := e], garbage := c.garbage[p := g], epoch := c.epoch[p := young]))
  {
    hide AtHome, NoDoubles, Missing;
    ReplaceKeeps(c.table, p, e);
    var t, f := c.table[p := e], c.garbage[p := g];
    assert forall q :: 0 <= q < |t| ==> At(t, q) == if q == p then e else At(c.table, q);
    assert forall q :: 0 <= q < |f| ==> Bad(f, q) == if q == p then g else Bad(c.garbage, q);
  }

  lemma {:induction false} PushKeeps(h: Hasher, c: Cache, e: Element, young: bool, last: int, depth: nat)
    requires Inv(h, c) && Missing(c.table, e)
    ensures Inv(h, Push(h, c, e, young, last, depth).cache)
    decreases depth
  {
    hide Homes, NoDoubles, Missing;
    if depth > 0 {
      var locs := Locs(h, |c.table|, e);
      var k := Free(c.garbage, locs);
      if k < 8 {
        PutKeeps(h, c, locs[k], e, false, young);
      } else {
        var p := Next(locs, last);
        PutKeeps(h, c, p, e, c.garbage[p], young);
        ReplaceKeeps(c.table, p, e);
        assert c.garbage[p := c.garbage[p]] == c.garbage;
        PushKeeps(h, Swapped(c, p, e, young), c.table[p], c.epoch[p], p, depth - 1);
      }
    }
  }

  lemma HomeIsFound(h: Hasher, c: Cache, p: nat)
    requires Sized(c) && p < |c.table| && AtHome(h, |c.table|, At(c.table, p), p)
    ensures Holds(h, c, At(c.table, p))
  {
    var locs := Locs(h, |c.table|, At(c.table, p));
    var i :| 0 <= i < 8 && locs[i] == p;
    assert c.table[locs[i]] == At(c.table, p);
  }

  /** An element that is at none of its places is not in the table. */
  lemma NotThere(h: Hasher, c: Cache, e: Element)
    requires Inv(h, c) && !Holds(h, c, e)
    ensures Missing(c.table, e)
  {
    hide Holds, AtHome;
    forall p | 0 <= p < |c.table| ensures At(c.table, p) != e || e == 0 {
      if AtHome(h, |c.table|, At(c.table, p), p) { HomeIsFound(h, c, p); }
    }
  }

  /** Marking places as discardable never breaks the table. */
  lemma MoreGarbageKeeps(h: Hasher, c: Cache, d: Cache)
    requires Inv(h, c) && Sized(d) && d.table == c.table
    requires forall p :: 0 <= p < |c.table| && Bad(c.garbage, p) ==> Bad(d.garbage, p)
    ensures Inv(h, d)
  {
    hide AtHome, NoDoubles;
  }

  lemma CheckKeeps(h: Hasher, c: Cache)
    requires Inv(h, c)
    ensures Inv(h, Checked(c))
  {
    hide Inv, Young, AtHome;
    assert Sized(c) by { SizedIs(h, c); }
    MoreGarbageKeeps(h, c, Checked(c));
  }

  lemma SizedIs(h: Hasher, c: Cache)
    requires Inv(h, c)
    ensures Sized(c)
  {
  }

  lemma InsertKeeps(h: Hasher, c: Cache, e: Element)
    requires Inv(h, c)
    ensures Inv(h, Stored(h, c, e))
  {
    CheckKeeps(h, c);
    EnterKeeps(h, Checked(c), e);
  }

  lemma EnterKeeps(h: Hasher, c: Cache, e: Element)
    requires Inv(h, c)
    ensures Inv(h, Enter(h, c, e).cache)
  {
    hide Homes, NoDoubles, Missing, AtHome, Push;
    var locs := Locs(h, |c.table|, e);
    var k := Match(c.table, locs, e);
    if k < 8 {
      UnmarkKeeps(h, c, e, locs[k]);
    } else {
      NotThere(h, c, e);
      PushKeeps(h, c, e, true, -1, c.depthLimit);
    }
  }

  lemma UnmarkKeeps(h: Hasher, c: Cache, e: Element, p: nat)
    requires Inv(h, c) && p < |c.table| && c.table[p] == e && p in Locs(h, |c.table|, e)
    ensures Inv(h, c.(garbage := c.garbage[p := false], epoch := c.epoch[p := true]))
  {
    hide NoDoubles, Locs;
    var f := c.garbage[p := false];
    assert forall q :: 0 <= q < |f| && q != p ==> Bad(f, q) == Bad(c.garbage, q);
    assert At(c.table, p) == e && AtHome(h, |c.table|, e, p);
  }

  lemma EraseKeeps(h: Hasher, c: Cache, e: Element)
    requires Inv(h, c)
    ensures Inv(h, Erase(h, c, e))
  {
    MoreGarbageKeeps(h, c, Erase(h, c, e));
  }

  /** What is not discardable is found. */
  lemma KeptIsFound(h: Hasher, c: Cache, p: nat)
    requires Inv(h, c) && p < |c.table| && !c.garbage[p]
    ensures Holds(h, c, c.table[p])
  {
    assert !Bad(c.garbage, p);
    HomeIsFound(h, c, p);
  }

  // ---------- epochs ----------

  lemma {:induction false} YoungUpdate(c: Cache, d: Cache, p: nat, n: nat)
    requires Sized(c) && Sized(d) && p < |c.table| == |d.table| && n <= |c.table|
    requires forall q :: 0 <= q < |c.table| && q != p ==>
               Bad(d.garbage, q) == Bad(c.garbage, q) && Bad(d.epoch, q) == Bad(c.epoch, q)
    ensures Young(d, n) + (if p < n && c.epoch[p] && !c.garbage[p] then 1 else 0)
            == Young(c, n) + (if p < n && d.epoch[p] && !d.garbage[p] then 1 else 0)
  {
    if n > 0 {
      YoungUpdate(c, d, p, n - 1);
      assert n - 1 != p ==>
            Bad(d.garbage, n - 1) == Bad(c.garbage, n - 1) && Bad(d.epoch, n - 1) == Bad(c.epoch, n - 1);
    }
  }

  ghost function YoungIn(c: Cache): nat
    requires Sized(c)
  {
    Young(c, |c.table|)
  }

  lemma PutYoung(c: Cache, p: nat, e: Element, young: bool)
    requires Sized(c) && p < |c.table| && c.garbage[p]
    ensures Sized(Put(c, p, e, young)) && YoungIn(Put(c, p, e, young)) == YoungIn(c) + (if young then 1 else 0)
  {
    hide Young;
    YoungUpdate(c, Put(c, p, e, young), p, |c.table|);
  }

  lemma SwapYoung(c: Cache, p: nat, e: Element, young: bool)
    requires Sized(c) && p < |c.table| && !c.garbage[p]
    ensures YoungIn(Swapped(c, p, e, young)) + (if c.epoch[p] then 1 else 0) == YoungIn(c) + (if young then 1 else 0)
  {
    hide Young;
    YoungUpdate(c, Swapped(c, p, e, young), p, |c.table|);
  }

  lemma {:induction false} PushYoung(h: Hasher, c: Cache, e: Element, young: bool, last: int, depth: nat)
    requires Sized(c)
    ensures YoungIn(Push(h, c, e, young, last, depth).cache) <= YoungIn(c) + (if young then 1 else 0)
    decreases depth
  {
    hide YoungIn, Put, Swapped, Locs;
    if depth > 0 {
      var locs := Locs(h, |c.table|, e);
      var k := Free(c.garbage, locs);
      if k < 8 {
        PutYoung(c, locs[k], e, young);
      } else {
        var p := Next(locs, last);
        SwapYoung(c, p, e, young);
        PushYoung(h, Swapped(c, p, e, young), c.table[p], c.epoch[p], p, depth - 1);
      }
    }
  }

  lemma EnterYoung(h: Hasher, c: Cache, e: Element)
    requires Sized(c)
    ensures YoungIn(Enter(h, c, e).cache) <= YoungIn(c) + 1
  {
    hide Young, Push;
    var locs := Locs(h, |c.table|, e);
    var k := Match(c.table, locs, e);
    if k < 8 {
      YoungUpdate(c, Enter(h, c, e).cache, locs[k], |c.table|);
    } else {
      PushYoung(h, c, e, true, -1, c.depthLimit);
    }
  }

  lemma {:induction false} PushCounter(h: Hasher, c: Cache, e: Element, young: bool, last: int, depth: nat)
    requires Sized(c)
    ensures var d := Push(h, c, e, young, last, depth).cache;
            d.counter == c.counter && d.epochSize == c.epochSize && d.depthLimit == c.depthLimit
    decreases depth
  {
    if depth > 0 {
      var locs := Locs(h, |c.table|, e);
      if Free(c.garbage, locs) == 8 {
        var p := Next(locs, last);
        PushCounter(h, Swapped(c, p, e, young), c.table[p], c.epoch[p], p, depth - 1);
      }
    }
  }

  lemma {:induction false} NoneYoung(c: Cache, n: nat)
    requires Sized(c) && n <= |c.table| && forall p :: 0 <= p < n ==> !Bad(c.epoch, p)
    ensures Young(c, n) == 0
  {
    if n > 0 {
      NoneYoung(c, n - 1);
      assert !Bad(c.epoch, n - 1);
    }
  }

  /** The current epoch never outgrows its size by more than one part in sixteen. */
  ghost predicate EpochBound(c: Cache)
    requires Sized(c)
  {
    YoungIn(c) + c.counter <= c.epochSize + Max(1, c.epochSize / 16)
  }

  lemma InsertBound(h: Hasher, c: Cache, e: Element)
    requires Sized(c) && EpochBound(c)
    ensures EpochBound(Stored(h, c, e))
  {
    hide Push, Match, Locs, Young, Enter;
    var d := Checked(c);
    EnterYoung(h, d, e);
    EnterCounter(h, d, e);
    SameYoung(c, d, |c.table|);
    if c.counter == 0 && Young(c, |c.table|) >= c.epochSize { NoneYoung(d, |c.table|); }
  }

  lemma EnterCounter(h: Hasher, c: Cache, e: Element)
    requires Sized(c)
    ensures var d := Enter(h, c, e).cache; d.counter == c.counter && d.epochSize == c.epochSize
  {
    PushCounter(h, c, e, true, -1, c.depthLimit);
  }

  lemma {:induction false} SameYoung(c: Cache, d: Cache, n: nat)
    requires Sized(c) && Sized(d) && n <= |c.table| == |d.table|
    ensures c.garbage == d.garbage && c.epoch == d.epoch ==> Young(d, n) == Young(c, n)
  {
    if n > 0 { SameYoung(c, d, n - 1); }
  }

  lemma EraseBound(h: Hasher, c: Cache, e: Element)
    requires Sized(c) && EpochBound(c)
    ensures EpochBound(Erase(h, c, e))
  {
    hide Young, Max;
    var locs := Locs(h, |c.table|, e);
    var k := Match(c.table, locs, e);
    if k < 8 { YoungUpdate(c, Erase(h, c, e), locs[k], |c.table|); }
  }

  /** The epoch check never makes an element of the current epoch discardable. */
  lemma CheckSpares(c: Cache)
    requires Sized(c)
    ensures forall p :: 0 <= p < |c.table| && c.epoch[p] && !c.garbage[p] ==> !Checked(c).garbage[p]
    ensures YoungIn(c) <= |KeptIn(Checked(c))|
  {
    hide Young, Kept;
    SparesTo(c, Checked(c), |c.table|);
  }

  lemma {:induction false} SparesTo(c: Cache, d: Cache, n: nat)
    requires Sized(c) && Sized(d) && n <= |c.table| == |d.table|
    requires forall p :: 0 <= p < |c.table| ==> Bad(d.garbage, p) ==> Bad(c.garbage, p) || !Bad(c.epoch, p)
    ensures Young(c, n) <= |Kept(d.table, d.garbage, n)|
  {
    if n > 0 {
      SparesTo(c, d, n - 1);
      assert Bad(d.garbage, n - 1) ==> Bad(c.garbage, n - 1) || !Bad(c.epoch, n - 1);
    }
  }

  // ---------- runs ----------

  /** Lookups may ask for the element to be erased; other threads' lookups interleave freely. */
  datatype Op = Add(e: Element) | Look(e: Element, erase: bool)

  function Step(h: Hasher, c: Cache, op: Op): (r: Cache)
    requires Sized(c)
    ensures Sized(r) && |r.table| == |c.table|
  {
    match op
    case Add(e) => Stored(h, c, e)
    case Look(e, erase) => if erase then Erase(h, c, e) else c
  }

  function Run(h: Hasher, c: Cache, ops: seq<Op>): (r: Cache)
    requires Sized(c)
    ensures Sized(r) && |r.table| == |c.table|
    decreases |ops|
  {
    if ops == [] then c else Step(h, Run(h, c, ops[..|ops| - 1]), ops[|ops| - 1])
  }

  // ---------- an insertion that moves itself out ----------

  /** Element 7 has two places, every other one only one. */
  function OnePlace(): Hasher { (i, e) => if e == 7 then i % 2 else e }

  lemma OnePlaceIs()
    ensures var h := OnePlace();
            && (forall i :: 0 <= i < 8 ==> Locs(h, 4, 4)[i] == 0)
            && (forall i :: 0 <= i < 8 ==> Locs(h, 4, 5)[i] == 1)
            && (forall i :: 0 <= i < 8 ==> Locs(h, 4, 7)[i] == i % 2)
  {
    forall i | 0 <= i < 8 ensures Place(OnePlace(), 4, 7, i) == i % 2 { }
  }

  /** An element whose only place is free is put there. */
  lemma PutAt(h: Hasher, c: Cache, e: Element, p: nat)
    requires Sized(c) && p < |c.table| && c.garbage[p] && c.table[p] != e && c.depthLimit > 0
    requires forall i :: 0 <= i < 8 ==> Locs(h, |c.table|, e)[i] == p
    ensures Enter(h, c, e).cache == Put(c, p, e, true)
  {
    hide Locs, Next, Swapped;
    var locs := Locs(h, |c.table|, e);
    assert locs[0] == p;
    assert Free(c.garbage, locs) == 0;
    assert Match(c.table, locs, e) == 8;
  }

  /** A cache of four places as it is set up, with elements 4 and 5 inserted. */
  lemma AfterTwo()
    ensures var h, c0 := OnePlace(), Empty(4, 1, 2);
            && Sized(c0)
            && Run(h, c0, [Add(4), Add(5)]) ==
               Cache([4, 5, 0, 0], [false, false, true, true], [false, true, false, false], 1, 1, 2)
  {
    hide Locs, Enter;
    var h, c0 := OnePlace(), Empty(4, 1, 2);
    OnePlaceIs();
    PutAt(h, Checked(c0), 4, 0);
    var c1 := Cache([4, 0, 0, 0], [false, true, true, true], [true, false, false, false], 0, 1, 2);
    assert Stored(h, c0, 4) == c1;
    YoungOfOne();
    var c2 := Cache([4, 0, 0, 0], [false, true, true, true], [false, false, false, false], 1, 1, 2);
    assert Checked(c1) == c2;
    PutAt(h, c2, 5, 1);
    var ops := [Add(4), Add(5)];
    assert ops[..1] == [Add(4)] && ops[..1][..0] == [];
    assert Run(h, c0, ops[..1]) == Stored(h, Run(h, c0, ops[..1][..0]), 4);
  }

  lemma YoungOfOne()
    ensures Young(Cache([4, 0, 0, 0], [false, true, true, true], [true, false, false, false], 0, 1, 2), 4) == 1
  {
    var c := Cache([4, 0, 0, 0], [false, true, true, true], [true, false, false, false], 0, 1, 2);
    assert Young(c, 1) == 1 && Young(c, 2) == 1 && Young(c, 3) == 1;
  }

  /** Inserting 7 next moves it in and out again and drops it. */
  lemma MovedBack()
    ensures var h, c0 := OnePlace(), Empty(4, 1, 2);
            && Sized(c0)
            && var c := Checked(Run(h, c0, [Add(4), Add(5)]));
            && Enter(h, c, 7) == Pushed(c, multiset{7}) && Repeats(Locs(h, 4, 5), 1)
  {
    hide Push, Next, Repeats, Locs;
    AfterTwo();
    OnePlaceIs();
    var h, c := OnePlace(), Cache([4, 5, 0, 0], [false, false, true, true], [false, true, false, false], 0, 1, 2);
    var mine, places := Locs(h, 4, 7), Locs(h, 4, 5);
    assert mine[0] == 0 && mine[1] == 1;
    RepeatsAtOnce(places, 1);
    NextRepeats(mine, 0);
    NextRepeats(places, 1);
    MovesBack(h, c, 7, true, -1, 2);
    Stops(h, c, 7, true, 1);
  }

  /** Only elements that were inserted are in the table. */
  ghost predicate Only(table: seq<Element>, known: set<Element>) {
    forall p :: 0 <= p < |table| ==> At(table, p) == 0 || At(table, p) in known
  }

  function Inserted(ops: seq<Op>): set<Element>
    decreases |ops|
  {
    if ops == [] then {} else
    var op := ops[|ops| - 1];
    Inserted(ops[..|ops| - 1]) + (if op.Add? then {op.e} else {})
  }

  lemma ReplaceOnly(table: seq<Element>, p: nat, e: Element, known: set<Element>)
    requires p < |table| && Only(table, known) && (e == 0 || e in known)
    ensures Only(table[p := e], known) && (table[p] == 0 || table[p] in known)
  {
    assert At(table, p) == 0 || At(table, p) in known;
    var t := table[p := e];
    forall q | 0 <= q < |t| ensures At(t, q) == 0 || At(t, q) in known {
      assert At(table, q) == 0 || At(table, q) in known;
    }
  }

  lemma {:induction false} PushOnly(h: Hasher, c: Cache, e: Element, young: bool, last: int, depth: nat,
                                    known: set<Element>)
    requires Sized(c) && Only(c.table, known) && (e == 0 || e in known)
    ensures Only(Push(h, c, e, young, last, depth).cache.table, known)
    decreases depth
  {
    hide Only, Locs;
    if depth > 0 {
      var locs := Locs(h, |c.table|, e);
      var k := Free(c.garbage, locs);
      if k < 8 {
        ReplaceOnly(c.table, locs[k], e, known);
      } else {
        var p := Next(locs, last);
        ReplaceOnly(c.table, p, e, known);
        PushOnly(h, Swapped(c, p, e, young), c.table[p], c.epoch[p], p, depth - 1, known);
      }
    }
  }

  lemma StepOnly(h: Hasher, c: Cache, op: Op, known: set<Element>)
    requires Sized(c) && Only(c.table, known)
    ensures Only(Step(h, c, op).table, known + (if op.Add? then {op.e} else {}))
  {
    hide Push, Locs, Match, Checked;
    if op.Add? {
      var d := Checked(c);
      assert Only(d.table, known + {op.e});
      PushOnly(h, d, op.e, true, -1, d.depthLimit, known + {op.e});
    }
  }

  /** Every run from set-up keeps all elements at home, none twice, only inserted ones, and
      the current epoch within its bound. */
  lemma {:induction false} EveryRun(h: Hasher, size: nat, epochSize: nat, depthLimit: nat, ops: seq<Op>)
    requires size > 0
    ensures var c := Run(h, Empty(size, epochSize, depthLimit), ops);
            Inv(h, c) && EpochBound(c) && Only(c.table, Inserted(ops))
    decreases |ops|
  {
    hide Inv, EpochBound, Only, Stored, Erase;
    var c := Empty(size, epochSize, depthLimit);
    if ops == [] {
      EmptyIsFine(h, size, epochSize, depthLimit);
    } else {
      EveryRun(h, size, epochSize, depthLimit, ops[..|ops| - 1]);
      var d, op := Run(h, c, ops[..|ops| - 1]), ops[|ops| - 1];
      StepOnly(h, d, op, Inserted(ops[..|ops| - 1]));
      match op
      case Add(e) => InsertKeeps(h, d, e); InsertBound(h, d, e);
      case Look(e, erase) => EraseKeeps(h, d, e); EraseBound(h, d, e);
    }
  }

  lemma EmptyIsFine(h: Hasher, size: nat, epochSize: nat, depthLimit: nat)
    requires size > 0
    ensures var c := Empty(size, epochSize, depthLimit); Inv(h, c) && EpochBound(c) && Only(c.table, {})
  {
    NoneYoung(Empty(size, epochSize, depthLimit), size);
  }

  /** A lookup never finds what was not inserted. */
  lemma NoFalsePositives(h: Hasher, size: nat, epochSize: nat, depthLimit: nat, ops: seq<Op>, e: Element)
    requires size > 0 && Holds(h, Run(h, Empty(size, epochSize, depthLimit), ops), e)
    ensures e == 0 || e in Inserted(ops)
  {
    hide Run, Inserted, Push, Locs;
    EveryRun(h, size, epochSize, depthLimit, ops);
    var c := Run(h, Empty(size, epochSize, depthLimit), ops);
    var locs := Locs(h, |c.table|, e);
    assert At(c.table, locs[Match(c.table, locs, e)]) == e;
  }

  // ---------- the garbage flags, eight to a byte ----------

  class BitPackedFlags {
    const mem: array<bv8>

    /** The flags of the first n entries. */
    ghost function Bits(n: nat): (r: seq<bool>)
      requires n <= 8 * mem.Length
      reads this, mem
      ensures |r| == n
    {
      seq(n, i requires 0 <= i < n reads this, mem => i < 8 * mem.Length && BitAt(mem[..], i))
    }

    constructor (size: nat)
      ensures fresh(mem) && size <= 8 * mem.Length
      ensures Bits(size) == seq(size, _ => true)
    {
      mem := new bv8[(size + 7) / 8](_ => 0xFF);
      new;
      forall i | 0 <= i < size ensures BitAt(mem[..], i) { AllOnes(mem[..], i); }
    }

    method BitSet(s: nat, ghost n: nat)
      requires s < n <= 8 * mem.Length
      modifies mem
      ensures Bits(n) == old(Bits(n))[s := true]
    {
      ghost var before := mem[..];
      mem[s / 8] := mem[s / 8] | Mask(s % 8);
      assert mem[..] == before[s / 8 := before[s / 8] | Mask(s % 8)];
      forall q | 0 <= q < n ensures BitAt(mem[..], q) == (q == s || BitAt(before, q)) { SetOne(before, s, q); }
    }

    method BitUnset(s: nat, ghost n: nat)
      requires s < n <= 8 * mem.Length
      modifies mem
      ensures Bits(n) == old(Bits(n))[s := false]
    {
      ghost var before := mem[..];
      mem[s / 8] := mem[s / 8] & !Mask(s % 8);
      assert mem[..] == before[s / 8 := before[s / 8] & !Mask(s % 8)];
      forall q | 0 <= q < n ensures BitAt(mem[..], q) == (q != s && BitAt(before, q)) { ClearOne(before, s, q); }
    }

    method BitIsSet(s: nat, ghost n: nat) returns (b: bool)
      requires s < n <= 8 * mem.Length
      ensures b == Bits(n)[s]
    {
      b := Mask(s % 8) & mem[s / 8] != 0;
    }
  }

  /** Ageing, done up to place i. */
  ghost function AgedTo(c: Cache, i: nat): Cache
    requires Sized(c) && i <= |c.table|
  {
    c.(garbage := seq(|c.table|, p requires 0 <= p < |c.table| => c.garbage[p] || (p < i && !c.epoch[p])),
       epoch := seq(|c.table|, p requires 0 <= p < |c.table| => p >= i && c.epoch[p]))
  }

  lemma AgedStep(c: Cache, i: nat)
    requires Sized(c) && i < |c.table|
    ensures var d := AgedTo(c, i);
            && d.epoch[i] == c.epoch[i]
            && AgedTo(c, i + 1) == if c.epoch[i] then d.(epoch := d.epoch[i := false])
                else d.(garbage := d.garbage[i := true])
  {
    var d, f := AgedTo(c, i), AgedTo(c, i + 1);
    if c.epoch[i] {
      assert f.garbage == d.garbage;
      assert f.epoch == d.epoch[i := false];
    } else {
      assert f.garbage == d.garbage[i := true];
      assert f.epoch == d.epoch;
    }
  }

  lemma AgedAll(c: Cache)
    requires Sized(c)
    ensures AgedTo(c, 0) == c && AgedTo(c, |c.table|).(counter := c.epochSize) == Aged(c)
  {
    assert AgedTo(c, 0).garbage == c.garbage && AgedTo(c, 0).epoch == c.epoch;
    assert AgedTo(c, |c.table|).garbage == Aged(c).garbage && AgedTo(c, |c.table|).epoch == Aged(c).epoch;
  }

  class CuckooCache {
    const hash: Hasher
    const table: array<Element>
    const flags: BitPackedFlags
    const epochFlags: array<bool>
    var counter: nat
    var epochSize: nat
    var depthLimit: nat

    ghost predicate Valid() {
      var t: object, m: object, f: object := table, flags.mem, epochFlags;
      t != m && m != f && t != f && 0 < table.Length == epochFlags.Length <= 8 * flags.mem.Length
    }

    ghost function View(): (c: Cache)
      requires Valid()
      reads this, table, flags, flags.mem, epochFlags
      ensures Sized(c) && |c.table| == table.Length
    {
      Cache(table[..], flags.Bits(table.Length), epochFlags[..], counter, epochSize, depthLimit)
    }

    /** The sizes that setup derives from the wanted capacity are parameters here. */
    constructor (hash: Hasher, size: nat, epochSize: nat, depthLimit: nat)
      requires size > 0
      ensures Valid() && View() == Empty(size, epochSize, depthLimit) && this.hash == hash
      ensures fresh(table) && fresh(flags) && fresh(flags.mem) && fresh(epochFlags)
    {
      this.hash := hash;
      table := new Element[size](_ => 0);
      flags := new BitPackedFlags(size);
      epochFlags := new bool[size](_ => false);
      counter, this.epochSize, this.depthLimit := epochSize, epochSize, depthLimit;
      new;
      assert table[..] == seq(size, _ => 0);
      assert epochFlags[..] == seq(size, _ => false);
    }

    method ComputeHashes(e: Element) returns (locs: seq<nat>)
      requires table.Length > 0
      ensures locs == Locs(hash, table.Length, e)
    {
      locs := Locs(hash, table.Length, e);
    }

    method FindMatch(locs: seq<nat>, e: Element) returns (k: nat)
      requires Valid() && forall i :: 0 <= i < |locs| ==> locs[i] < table.Length
      ensures k == Match(View().table, locs, e)
    {
      k := 0;
      while k < |locs|
        invariant 0 <= k <= |locs| && forall j :: 0 <= j < k ==> table[locs[j]] != e
      {
        if table[locs[k]] == e { return; }
        k := k + 1;
      }
    }

    method FindFree(locs: seq<nat>) returns (k: nat)
      requires Valid() && forall i :: 0 <= i < |locs| ==> locs[i] < table.Length
      ensures k == Free(View().garbage, locs)
    {
      k := 0;
      while k < |locs|
        invariant 0 <= k <= |locs| && forall j :: 0 <= j < k ==> !flags.Bits(table.Length)[locs[j]]
      {
        var b := flags.BitIsSet(locs[k], table.Length);
        if b { return; }
        k := k + 1;
      }
    }

    method CountYoung() returns (count: nat)
      requires Valid()
      ensures count == Young(View(), table.Length)
    {
      count := 0;
      for i := 0 to table.Length
        invariant count == Young(View(), i)
      {
        var b := flags.BitIsSet(i, table.Length);
        if epochFlags[i] && !b { count := count + 1; }
      }
    }

    method EpochCheck()
      requires Valid()
      modifies this`counter, flags.mem, epochFlags
      ensures Valid() && View() == Checked(old(View()))
    {
      hide Young;
      if counter != 0 {
        counter := counter - 1;
        return;
      }
      var count := CountYoung();
      if count >= epochSize {
        Age();
        counter := epochSize;
      } else {
        counter := Max(1, Max(epochSize / 16, epochSize - count));
      }
    }

    /** Marks an entry as discardable, or as one to keep. */
    method Mark(p: nat, g: bool)
      requires Valid() && p < table.Length
      modifies flags.mem
      ensures View() == old(View()).(garbage := old(View()).garbage[p := g])
    {
      if g { flags.BitSet(p, table.Length); } else { flags.BitUnset(p, table.Length); }
      assert table[..] == old(table[..]) && epochFlags[..] == old(epochFlags[..]);
      assert flags.Bits(table.Length) == old(flags.Bits(table.Length))[p := g];
    }

    method Write(p: nat, e: Element)
      requires Valid() && p < table.Length
      modifies table
      ensures View() == old(View()).(table := old(View()).table[p := e])
    {
      table[p] := e;
      assert table[..] == old(table[..])[p := e];
      assert epochFlags[..] == old(epochFlags[..]) && flags.Bits(table.Length) == old(flags.Bits(table.Length));
    }

    method SetEpoch(p: nat, young: bool)
      requires Valid() && p < table.Length
      modifies epochFlags
      ensures View() == old(View()).(epoch := old(View()).epoch[p := young])
    {
      epochFlags[p] := young;
      assert epochFlags[..] == old(epochFlags[..])[p := young];
      assert table[..] == old(table[..]) && flags.Bits(table.Length) == old(flags.Bits(table.Length));
    }

    method Age()
      requires Valid()
      modifies flags.mem, epochFlags
      ensures View() == Aged(old(View())).(counter := counter)
    {
      hide View;
      ghost var c := View();
      var n := table.Length;
      ViewIs();
      AgedAll(c);
      for i := 0 to n
        invariant View() == AgedTo(c, i) && |c.table| == n
      {
        ViewIs();
        if epochFlags[i] {
          SetEpoch(i, false);
        } else {
          Mark(i, true);
        }
        AgedStep(c, i);
      }
      ViewIs();
    }

    lemma ViewIs()
      requires Valid()
      ensures var c := View();
              && Sized(c) && c.table == table[..] && c.epoch == epochFlags[..] && |c.table| == table.Length
              && c.counter == counter && c.epochSize == epochSize && c.depthLimit == depthLimit
    {
    }

    method Insert(element: Element)
      requires Valid()
      modifies this`counter, flags.mem, epochFlags, table
      ensures View() == Stored(hash, old(View()), element)
    {
      hide Young, Checked, Push, View, Locs;
      EpochCheck();
      ViewIs();
      var locs := ComputeHashes(element);
      var k := FindMatch(locs, element);
      if k < 8 {
        Mark(locs[k], false);
        SetEpoch(locs[k], true);
        return;
      }
      PushIn(element, locs);
    }

    method PushIn(element: Element, start: seq<nat>)
      requires Valid() && start == Locs(hash, table.Length, element)
      modifies flags.mem, epochFlags, table
      ensures View() == Push(hash, old(View()), element, true, -1, depthLimit).cache
    {
      hide View, Next, Free, Locs;
      var e, young, last, locs := element, true, -1, start;
      ghost var c := View();
      ViewIs();
      for depth := 0 to depthLimit
        invariant locs == Locs(hash, table.Length, e)
        invariant Push(hash, View(), e, young, last, depthLimit - depth).cache
                  == Push(hash, c, element, true, -1, depthLimit).cache
      {
        ghost var v := View();
        ViewIs();
        var k := FindFree(locs);
        if k < 8 {
          Write(locs[k], e);
          Mark(locs[k], false);
          SetEpoch(locs[k], young);
          return;
        }
        last := Next(locs, last);
        var evicted, epoch := table[last], epochFlags[last];
        Write(last, e);
        SetEpoch(last, young);
        e, young := evicted, epoch;
        locs := ComputeHashes(e);
      }
    }

    method Contains(e: Element, erase: bool) returns (found: bool)
      requires Valid()
      modifies flags.mem
      ensures found == Holds(hash, old(View()), e)
      ensures View() == if erase then Erase(hash, old(View()), e) else old(View())
    {
      hide View, Locs;
      ViewIs();
      var locs := ComputeHashes(e);
      var k := FindMatch(locs, e);
      if k == 8 { return false; }
      if erase { Mark(locs[k], true); }
      found := true;
    }
  }
}
