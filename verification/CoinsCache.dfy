/** The layered cache of unspent transaction outputs.  Each layer keeps entries with
    DIRTY and FRESH flags over a parent view; a stack of layers over the database is
    proved to behave like a stack of plain maps from txid to coins. */
module CoinsCache {
  import opened Options

  type Txid = nat

  datatype TxOut = TxOut(value: int, script: seq<nat>) {
    predicate IsNull() { value == -1 }
  }

  datatype Coins = Coins(coinBase: bool, vout: seq<TxOut>, height: int, version: int, coinStake: bool, time: nat) {
    predicate IsPruned() { forall k :: 0 <= k < |vout| ==> vout[k].IsNull() }

    /** The coinstake flag and the time survive. */
    function Clear(): Coins { this.(coinBase := false, vout := [], height := 0, version := 0) }

    function Cleanup(): Coins { this.(vout := TrimNull(vout)) }
  }

  /** Without the spent outputs at the end. */
  function TrimNull(vout: seq<TxOut>): seq<TxOut> {
    if |vout| > 0 && vout[|vout| - 1].IsNull() then TrimNull(vout[..|vout| - 1]) else vout
  }

  lemma {:induction false} TrimKeepsPruned(c: Coins)
    ensures c.Cleanup().IsPruned() <==> c.IsPruned()
    decreases |c.vout|
  {
    if |c.vout| > 0 && c.vout[|c.vout| - 1].IsNull() {
      var d := c.(vout := c.vout[..|c.vout| - 1]);
      TrimKeepsPruned(d);
      assert d.IsPruned() ==> c.IsPruned();
    }
  }

  const NO_COINS := Coins(false, [], 0, 0, false, 0)

  const RANDPAY: Txid := 0xECECECECECECECECECECECECECECECECECECECECECECECECECECECECECECECEC

  /** The output any layer offers for spending nothing, over and over. */
  const RANDPAY_COINS := Coins(false, [TxOut(0, [])], 0, 1, false, 0)

  /** DIRTY: may differ from the parent view.  FRESH: the parent view has nothing unspent. */
  datatype Entry = Entry(coins: Coins, isDirty: bool, isFresh: bool)

  type Cache = map<Txid, Entry>

  /** What a view means: the coins that still have an unspent output. */
  type Utxo = map<Txid, Coins>

  function Norm(c: Coins): Option<Coins> {
    if c.IsPruned() then None else Some(c)
  }

  function Get(m: Utxo, t: Txid): Option<Coins> {
    if t in m then Some(m[t]) else None
  }

  /** The plain map with `t` set to `c`, or removed when nothing in `c` is unspent. */
  function Put(m: Utxo, t: Txid, c: Coins): (r: Utxo)
    ensures forall x :: Get(r, x) == if x == t then Norm(c) else Get(m, x)
  {
    if c.IsPruned() then m - {t} else m[t := c]
  }

  ghost predicate EntryOk(e: Entry, mine: Option<Coins>, below: Option<Coins>) {
    && Norm(e.coins) == mine
    && (e.isFresh ==> below == None)
    && (!e.isDirty ==> mine == below)
  }

  /** A cache over a view meaning `below` means `mine`. */
  ghost predicate LayerOk(cache: Cache, mine: Utxo, below: Utxo) {
    && (forall t :: t in cache ==> EntryOk(cache[t], Get(mine, t), Get(below, t)))
    && (forall t :: t !in cache ==> Get(mine, t) == Get(below, t))
  }

  // ---------- one layer ----------

  lemma FetchKeeps(cache: Cache, mine: Utxo, below: Utxo, t: Txid, c: Coins)
    requires LayerOk(cache, mine, below) && t !in cache && Norm(c) == Get(below, t)
    ensures LayerOk(cache[t := Entry(c, false, c.IsPruned())], mine, below)
  {
  }

  lemma UncacheKeeps(cache: Cache, mine: Utxo, below: Utxo, t: Txid)
    requires LayerOk(cache, mine, below) && t in cache && !cache[t].isDirty && !cache[t].isFresh
    ensures LayerOk(cache - {t}, mine, below)
  {
  }

  lemma LayerAt(cache: Cache, mine: Utxo, below: Utxo, t: Txid)
    requires LayerOk(cache, mine, below)
    ensures t in cache ==>
              && Norm(cache[t].coins) == Get(mine, t) && (cache[t].isFresh ==> Get(below, t) == None)
              && (!cache[t].isDirty ==> Get(mine, t) == Get(below, t))
    ensures t !in cache ==> Get(mine, t) == Get(below, t)
  {
  }

  /** Any dirty entry, fresh only over nothing, sets the layer's meaning. */
  lemma SetKeeps(cache: Cache, mine: Utxo, below: Utxo, t: Txid, e: Entry)
    requires LayerOk(cache, mine, below) && e.isDirty && (e.isFresh ==> Get(below, t) == None)
    ensures LayerOk(cache[t := e], Put(mine, t, e.coins), below)
  {
  }

  /** A fresh entry with nothing unspent can be dropped. */
  lemma DropKeeps(cache: Cache, mine: Utxo, below: Utxo, t: Txid)
    requires LayerOk(cache, mine, below) && t in cache && cache[t].isFresh && cache[t].coins.IsPruned()
    ensures LayerOk(cache - {t}, mine, below)
  {
  }

  /** One entry of a child written into its parent. */
  function WriteEntry(cache: Cache, t: Txid, child: Entry): Cache {
    if !child.isDirty then cache
    else if t !in cache then
      if child.isFresh && child.coins.IsPruned() then cache
      else cache[t := Entry(child.coins, true, child.isFresh)]
    else if cache[t].isFresh && child.coins.IsPruned() then cache - {t}
    else cache[t := cache[t].(coins := child.coins, isDirty := true)]
  }

  /** The condition behind the "FRESH flag misapplied" exception. */
  predicate Misapplied(cache: Cache, t: Txid, child: Entry) {
    child.isDirty && t in cache && child.isFresh && !cache[t].coins.IsPruned()
  }

  /** Writing an entry gives the parent the child's coins, whatever the flags let it skip. */
  lemma WriteKeeps(cache: Cache, mine: Utxo, below: Utxo, t: Txid, child: Entry)
    requires LayerOk(cache, mine, below) && (child.isFresh ==> Get(mine, t) == None)
    ensures !Misapplied(cache, t, child)
    ensures LayerOk(WriteEntry(cache, t, child), if child.isDirty then Put(mine, t, child.coins) else mine, below)
  {
    if child.isDirty {
      var after := Put(mine, t, child.coins);
      if t !in cache && child.isFresh && child.coins.IsPruned() {
        assert forall x :: Get(after, x) == Get(mine, x);
      } else if t !in cache {
        SetKeeps(cache, mine, below, t, Entry(child.coins, true, child.isFresh));
      } else if cache[t].isFresh && child.coins.IsPruned() {
        assert forall x :: Get(after, x) == if x == t then None else Get(mine, x);
      } else {
        SetKeeps(cache, mine, below, t, cache[t].(coins := child.coins, isDirty := true));
      }
    }
  }

  // ---------- coins that are cleaned up ----------

  /** Coins with nothing unspent have no outputs at all. */
  predicate Neat(c: Coins) { c.IsPruned() ==> c.vout == [] }

  /** All entries but the one being modified are cleaned up. */
  ghost predicate NeatCache(cache: Cache, open: set<Txid>) {
    forall t :: t in cache && t !in open ==> Neat(cache[t].coins)
  }

  ghost predicate NeatDisk(coins: map<Txid, Coins>) {
    forall t :: t in coins ==> Neat(coins[t])
  }

  lemma {:induction false} CleanupIsNeat(c: Coins)
    ensures Neat(c.Cleanup())
    decreases |c.vout|
  {
    if |c.vout| > 0 {
      if c.vout[|c.vout| - 1].IsNull() { CleanupIsNeat(c.(vout := c.vout[..|c.vout| - 1])); }
    }
  }

  lemma NeatOpen(cache: Cache, t: Txid, e: Entry)
    requires NeatCache(cache, {})
    ensures NeatCache(cache[t := e], {t})
  {
  }

  lemma NeatAt(cache: Cache, t: Txid)
    requires NeatCache(cache, {}) && t in cache
    ensures Neat(cache[t].coins)
  {
  }

  lemma SameMeaning(cache: Cache, mine: Utxo, after: Utxo, below: Utxo)
    requires LayerOk(cache, mine, below) && forall t :: Get(mine, t) == Get(after, t)
    ensures LayerOk(cache, after, below)
  {
  }

  lemma NeatWrite(cache: Cache, t: Txid, child: Entry)
    requires NeatCache(cache, {}) && Neat(child.coins)
    ensures NeatCache(WriteEntry(cache, t, child), {})
  {
  }

  lemma EntryMeans(cache: Cache, mine: Utxo, below: Utxo, t: Txid)
    requires LayerOk(cache, mine, below)
    ensures t in cache ==> Norm(cache[t].coins) == Get(mine, t) && (cache[t].isFresh ==> Get(below, t) == None)
    ensures t !in cache ==> Get(mine, t) == Get(below, t)
  {
  }

  /** For cleaned-up coins, having outputs is having an unspent one. */
  lemma NeatHas(c: Coins)
    requires Neat(c)
    ensures c.vout != [] <==> Norm(c).Some?
  {
  }

  // ---------- the database at the bottom ----------

  function Read(coins: map<Txid, Coins>, t: Txid): Option<Coins> {
    if t in coins then Norm(coins[t]) else None
  }

  ghost predicate DiskOk(coins: map<Txid, Coins>, model: Utxo) {
    forall t :: Read(coins, t) == Get(model, t)
  }

  /** What all dirty entries of a child make of its parent. */
  ghost predicate Written(after: Utxo, before: Utxo, child: Cache) {
    forall t :: Get(after, t) == if t in child && child[t].isDirty then Norm(child[t].coins) else Get(before, t)
  }

  /** A flushed child's meaning is exactly what its parent's becomes. */
  lemma FlushMeaning(cache: Cache, mine: Utxo, below: Utxo)
    requires LayerOk(cache, mine, below)
    ensures Written(mine, below, cache)
    ensures forall t :: t in cache && cache[t].isFresh ==> Get(below, t) == None
    ensures LayerOk(map[], mine, mine)
  {
  }

  class CoinsViewDB {
    var coins: map<Txid, Coins>

    constructor ()
      ensures coins == map[]
    {
      coins := map[];
    }

    method BatchWrite(mapCoins: Cache, ghost before: Utxo, ghost after: Utxo)
      requires DiskOk(coins, before) && Written(after, before, mapCoins)
      modifies this
      ensures DiskOk(coins, after)
      ensures old(NeatDisk(coins)) && NeatCache(mapCoins, {}) ==> NeatDisk(coins)
    {
      var todo := mapCoins.Keys;
      while todo != {}
        invariant todo <= mapCoins.Keys && (old(NeatDisk(coins)) && NeatCache(mapCoins, {}) ==> NeatDisk(coins))
        invariant forall t :: Read(coins, t) == if t in mapCoins && t !in todo
                  && mapCoins[t].isDirty then Norm(mapCoins[t].coins) else Get(before, t)
        decreases todo
      {
        if t :| t in todo {
          if mapCoins[t].isDirty {
            if mapCoins[t].coins.IsPruned() {
              coins := coins - {t};
            } else {
              coins := coins[t := mapCoins[t].coins];
            }
          }
          todo := todo - {t};
        } else {
          assert false;
        }
      }
    }
  }

  function Model(models: seq<Utxo>, k: nat): Utxo
    requires k < |models|
  {
    models[k]
  }

  class CoinsViewCache {
    const base: CoinsViewCache?
    const disk: CoinsViewDB
    ghost const depth: nat
    ghost const Layers: set<CoinsViewCache>
    var hasModifier: bool
    var modified: Txid
    var cacheCoins: Cache

    /** The chain of layers below this one, ending at the database. */
    ghost predicate Linked()
      decreases depth
    {
      && this in Layers && depth > 0
      && (base == null ==> Layers == {this} && depth == 1)
      && (base != null ==>
            && base.depth == depth - 1 && Layers == {this} + base.Layers && this !in base.Layers
            && base.disk == disk && base.Linked())
    }

    /** models[k] is what the k-th layer from here means; the last one is the database. */
    ghost predicate Valid(models: seq<Utxo>)
      reads Layers, disk
      decreases depth
    {
      && Linked() && |models| == depth + 1
      && LayerOk(cacheCoins, Model(models, 0), Model(models, 1))
      && (base == null ==> DiskOk(disk.coins, Model(models, 1)))
      && (base != null ==> base.Valid(models[1..]))
    }

    /** Every layer is cleaned up but for the entries being modified, and so is the database. */
    ghost predicate Clean()
      requires Linked()
      reads Layers, disk
      decreases depth
    {
      && NeatCache(cacheCoins, if hasModifier then {modified} else {})
      && (base == null ==> NeatDisk(disk.coins))
      && (base != null ==> base.Clean())
    }

    constructor (base: CoinsViewCache?, disk: CoinsViewDB, ghost models: seq<Utxo>)
      requires base != null ==> base.disk == disk && base.Valid(models)
      requires base == null ==> |models| == 1 && DiskOk(disk.coins, Model(models, 0))
      ensures this.base == base && this.disk == disk && !hasModifier
      ensures |models| > 0 && Valid([Put(models[0], RANDPAY, RANDPAY_COINS)] + models)
      ensures (base == null ==> NeatDisk(disk.coins)) && (base != null ==> base.Clean()) ==> Clean()
    {
      this.base, this.disk, hasModifier, modified := base, disk, false, 0;
      depth := if base == null then 1 else base.depth + 1;
      Layers := if base == null then {this} else {this} + base.Layers;
      cacheCoins := map[RANDPAY := Entry(RANDPAY_COINS, true, false)];
      new;
      ghost var all := [Put(models[0], RANDPAY, RANDPAY_COINS)] + models;
      assert all[1..] == models;
      assert Model(all, 1) == models[0];
      assert !RANDPAY_COINS.vout[0].IsNull();
    }

    method FetchCoins(t: Txid, ghost models: seq<Utxo>) returns (found: bool)
      requires Valid(models)
      modifies Layers`cacheCoins
      ensures Valid(models)
      ensures found ==> t in cacheCoins && Norm(cacheCoins[t].coins) == Get(Model(models, 0), t)
      ensures !found ==> Get(Model(models, 0), t) == None
      ensures old(Clean() && Idle()) ==> Clean() && (found ==> Neat(cacheCoins[t].coins))
      decreases depth, 1
    {
      if t in cacheCoins { return true; }
      var tmp := BaseGetCoins(t, models);
      if tmp == None { return false; }
      FetchKeeps(cacheCoins, Model(models, 0), Model(models, 1), t, tmp.value);
      cacheCoins := cacheCoins[t := Entry(tmp.value, false, tmp.value.IsPruned())];
      found := true;
    }

    /** The parent's answer, which may fill the parents' caches. */
    method BaseGetCoins(t: Txid, ghost models: seq<Utxo>) returns (r: Option<Coins>)
      requires Valid(models)
      modifies Layers`cacheCoins
      ensures Valid(models) && cacheCoins == old(cacheCoins)
      ensures r.Some? ==> Norm(r.value) == Get(Model(models, 1), t)
      ensures r.None? ==> Get(Model(models, 1), t) == None
      ensures old(Clean() && Idle()) ==> Clean() && (r.Some? ==> Neat(r.value))
      decreases depth, 0
    {
      if base == null {
        r := if t in disk.coins then Some(disk.coins[t]) else None;
        assert Read(disk.coins, t) == Get(Model(models, 1), t);
      } else {
        r := base.GetCoins(t, models[1..]);
        assert Model(models[1..], 0) == Model(models, 1);
      }
    }

    method GetCoins(t: Txid, ghost models: seq<Utxo>) returns (r: Option<Coins>)
      requires Valid(models)
      modifies Layers`cacheCoins
      ensures Valid(models)
      ensures r.Some? ==> Norm(r.value) == Get(Model(models, 0), t)
      ensures r.None? ==> Get(Model(models, 0), t) == None
      ensures old(Clean() && Idle()) ==> Clean() && (r.Some? ==> Neat(r.value))
      decreases depth, 2
    {
      var found := FetchCoins(t, models);
      r := if found then Some(cacheCoins[t].coins) else None;
    }

    /** Looks at the outputs only, not at whether they are spent; that is the same while nothing
        is being modified. */
    method HaveCoins(t: Txid, ghost models: seq<Utxo>) returns (b: bool)
      requires Valid(models)
      modifies Layers`cacheCoins
      ensures Valid(models)
      ensures old(Clean() && Idle()) ==> Clean() && (b <==> t in Model(models, 0))
    {
      hide LayerOk, DiskOk, NeatCache, NeatDisk, Neat;
      ghost var neat := Clean() && Idle();
      var found := FetchCoins(t, models);
      b := found && cacheCoins[t].coins.vout != [];
      if neat && found { NeatHas(cacheCoins[t].coins); }
    }

    /** Starts a modification: the entry is fetched and marked dirty. */
    method ModifyCoins(t: Txid, ghost models: seq<Utxo>)
      requires Valid(models) && !hasModifier
      modifies Layers`cacheCoins, this`hasModifier, this`modified
      ensures Valid(models)
      ensures hasModifier && modified == t && t in cacheCoins && cacheCoins[t].isDirty
      ensures old(Clean() && Idle()) ==> Clean()
    {
      hide Put, LayerOk, DiskOk, NeatCache, NeatDisk, Neat;
      ghost var mine, below := Model(models, 0), Model(models, 1);
      EntryMeans(cacheCoins, mine, below, t);
      var e: Entry;
      if t !in cacheCoins {
        var r := BaseGetCoins(t, models);
        e := if r == None then Entry(NO_COINS, true, true) else Entry(r.value, true, r.value.IsPruned());
      } else {
        e := cacheCoins[t].(isDirty := true);
      }
      SetKeeps(cacheCoins, mine, below, t, e);
      PutSame(mine, t, e.coins);
      if NeatCache(cacheCoins, {}) { NeatOpen(cacheCoins, t, e); }
      cacheCoins := cacheCoins[t := e];
      hasModifier, modified := true, t;
    }

    /** Starts the creation of coins that BIP 30 promises are not there unspent. */
    method ModifyNewCoins(t: Txid, coinbase: bool, ghost models: seq<Utxo>)
      requires Valid(models) && !hasModifier
      requires !coinbase ==> Get(Model(models, 0), t) == None
      modifies this
      ensures Valid([Put(models[0], t, NO_COINS)] + models[1..])
      ensures hasModifier && modified == t && t in cacheCoins && cacheCoins[t].isDirty && cacheCoins[t].coins.vout == []
      ensures old(Clean()) ==> Clean()
    {
      hide LayerOk, NeatCache, EntryOk;
      ghost var mine, below := Model(models, 0), Model(models, 1);
      LayerAt(cacheCoins, mine, below, t);
      var e := if t in cacheCoins then cacheCoins[t] else Entry(NO_COINS, false, false);
      if !coinbase {
        assert e.coins.IsPruned();  // otherwise: "should not find pre-existing coins"
        if !e.isDirty {
          e := e.(isFresh := true);
        }
      }
      e := e.(coins := e.coins.Clear(), isDirty := true);
      SetKeeps(cacheCoins, mine, below, t, e);
      assert Put(mine, t, e.coins) == Put(mine, t, NO_COINS);
      if Clean() { NeatOpen(cacheCoins, t, e); }
      cacheCoins := cacheCoins[t := e];
      hasModifier, modified := true, t;
      Restacked(models, Put(mine, t, NO_COINS));
    }

    /** The caller writes through the modifier. */
    method Assign(c: Coins, ghost models: seq<Utxo>)
      requires Valid(models) && hasModifier && modified in cacheCoins && cacheCoins[modified].isDirty
      modifies this`cacheCoins
      ensures Valid([Put(models[0], modified, c)] + models[1..])
      ensures modified in cacheCoins && cacheCoins[modified].isDirty && cacheCoins[modified].coins == c
      ensures old(Clean()) ==> Clean()
    {
      SetKeeps(cacheCoins, Model(models, 0), Model(models, 1), modified, cacheCoins[modified].(coins := c));
      cacheCoins := cacheCoins[modified := cacheCoins[modified].(coins := c)];
      Restacked(models, Put(models[0], modified, c));
    }

    /** The modifier goes out of scope: the coins are cleaned up, and dropped if fresh and spent. */
    method EndModify(ghost models: seq<Utxo>)
      requires Valid(models) && hasModifier && modified in cacheCoins && cacheCoins[modified].isDirty
      modifies this`cacheCoins, this`hasModifier
      ensures !hasModifier
      ensures Valid([Put(models[0], modified, old(cacheCoins[modified].coins.Cleanup()))] + models[1..])
      ensures old(Clean()) ==> Clean()
    {
      CleanupIsNeat(cacheCoins[modified].coins);
      hasModifier := false;
      ghost var mine, below := Model(models, 0), Model(models, 1);
      var e := cacheCoins[modified];
      e := e.(coins := e.coins.Cleanup());
      ghost var after := Put(mine, modified, e.coins);
      SetKeeps(cacheCoins, mine, below, modified, e);
      cacheCoins := cacheCoins[modified := e];
      if e.isFresh && e.coins.IsPruned() {
        DropKeeps(cacheCoins, after, below, modified);
        cacheCoins := cacheCoins - {modified};
      }
      Restacked(models, after);
    }

    method Uncache(t: Txid, ghost models: seq<Utxo>)
      requires Valid(models)
      modifies this`cacheCoins
      ensures Valid(models)
      ensures old(Clean()) ==> Clean()
    {
      if t in cacheCoins && !cacheCoins[t].isDirty && !cacheCoins[t].isFresh {
        UncacheKeeps(cacheCoins, Model(models, 0), Model(models, 1), t);
        cacheCoins := cacheCoins - {t};
      }
    }

    /** Takes over a child's dirty entries; the child's FRESH flags are right about this view. */
    method BatchWrite(mapCoins: Cache, ghost models: seq<Utxo>, ghost after: Utxo)
      requires Valid(models) && !hasModifier
      requires forall t :: t in mapCoins && mapCoins[t].isFresh ==> Get(Model(models, 0), t) == None
      requires Written(after, Model(models, 0), mapCoins)
      modifies this`cacheCoins
      ensures Valid([after] + models[1..])
      ensures old(Clean()) && NeatCache(mapCoins, {}) ==> Clean()
    {
      hide LayerOk, DiskOk, NeatCache, NeatDisk, Neat;
      ghost var before, below := Model(models, 0), Model(models, 1);
      ghost var mine := before;
      ghost var neat := NeatCache(cacheCoins, {}) && NeatCache(mapCoins, {});
      var todo := mapCoins.Keys;
      while todo != {}
        invariant todo <= mapCoins.Keys
        invariant LayerOk(cacheCoins, mine, below)
        invariant neat ==> NeatCache(cacheCoins, {})
        invariant forall t :: Get(mine, t) == if t in mapCoins && t !in todo
                  && mapCoins[t].isDirty then Norm(mapCoins[t].coins) else Get(before, t)
        decreases todo
      {
        if t :| t in todo {
          var child := mapCoins[t];
          WriteKeeps(cacheCoins, mine, below, t, child);
          if neat {
            NeatAt(mapCoins, t);
            NeatWrite(cacheCoins, t, child);
          }
          ghost var was := cacheCoins;
          if child.isDirty {
            mine := Put(mine, t, child.coins);
            if t !in cacheCoins {
              if !(child.isFresh && child.coins.IsPruned()) {
                cacheCoins := cacheCoins[t := Entry(child.coins, true, child.isFresh)];
              }
            } else {
              assert !(child.isFresh && !cacheCoins[t].coins.IsPruned());  // otherwise: "FRESH flag misapplied"
              if cacheCoins[t].isFresh && child.coins.IsPruned() {
                cacheCoins := cacheCoins - {t};
              } else {
                cacheCoins := cacheCoins[t := cacheCoins[t].(coins := child.coins, isDirty := true)];
              }
            }
          }
          assert cacheCoins == WriteEntry(was, t, child);
          todo := todo - {t};
        } else {
          assert false;
        }
      }
      SameMeaning(cacheCoins, mine, after, below);
      Restacked(models, after);
    }

    /** Writes this layer's changes to its parent and starts over empty: every lookup here
        answers as before, and the parent now means the same. */
    method Flush(ghost models: seq<Utxo>)
      requires Valid(models) && !hasModifier && (base != null ==> !base.hasModifier)
      modifies Layers`cacheCoins, disk
      ensures Valid(models[1 := models[0]])
      ensures old(Clean()) ==> Clean()
    {
      ghost var mine, below := Model(models, 0), Model(models, 1);
      FlushMeaning(cacheCoins, mine, below);
      ghost var after := models[1 := models[0]];
      if base == null {
        disk.BatchWrite(cacheCoins, below, mine);
      } else {
        assert Model(models[1..], 0) == below;
        base.BatchWrite(cacheCoins, models[1..], mine);
        assert [mine] + models[1..][1..] == after[1..];
      }
      cacheCoins := map[];
    }

    /** A whole modification that leaves `c`. */
    method Replace(t: Txid, c: Coins, ghost models: seq<Utxo>)
      requires Valid(models) && !hasModifier
      modifies Layers`cacheCoins, this`hasModifier, this`modified
      ensures Valid([Put(models[0], t, c.Cleanup())] + models[1..]) && !hasModifier
      ensures old(Clean() && Idle()) ==> Clean()
    {
      hide LayerOk, DiskOk, Put, NeatCache, NeatDisk;
      ModifyCoins(t, models);
      Assign(c, models);
      ghost var m := [Put(models[0], t, c)] + models[1..];
      EndModify(m);
      PutTwice(models[0], t, c, c.Cleanup());
      assert m[1..] == models[1..];
    }

    /** A whole creation of new coins `c`. */
    method CreateCoins(t: Txid, coinbase: bool, c: Coins, ghost models: seq<Utxo>)
      requires Valid(models) && !hasModifier && (!coinbase ==> Get(Model(models, 0), t) == None)
      modifies this
      ensures Valid([Put(models[0], t, c.Cleanup())] + models[1..]) && !hasModifier
      ensures old(Clean() && Idle()) ==> Clean()
    {
      hide LayerOk, DiskOk, Put, NeatCache, NeatDisk;
      ModifyNewCoins(t, coinbase, models);
      ghost var m0 := [Put(models[0], t, NO_COINS)] + models[1..];
      Assign(c, m0);
      ghost var m1 := [Put(m0[0], t, c)] + m0[1..];
      EndModify(m1);
      PutTwice(models[0], t, NO_COINS, c);
      PutTwice(models[0], t, c, c.Cleanup());
      assert m0[1..] == models[1..] && m1[1..] == models[1..];
    }

    /** No modification is under way in this layer or below. */
    ghost predicate Idle()
      reads Layers
    {
      forall l :: l in Layers ==> !l.hasModifier
    }

    /** A lookup in the layer `level` steps below. */
    method FetchAt(level: nat, t: Txid, ghost models: seq<Utxo>)
      requires Valid(models)
      modifies Layers`cacheCoins
      ensures Valid(models)
      ensures old(Clean() && Idle()) ==> Clean()
      decreases depth, 3
    {
      if level == 0 {
        var _ := FetchCoins(t, models);
      } else if base != null {
        base.FetchAt(level - 1, t, models[1..]);
      }
    }

    method UncacheAt(level: nat, t: Txid, ghost models: seq<Utxo>)
      requires Valid(models)
      modifies Layers`cacheCoins
      ensures Valid(models)
      ensures old(Clean()) ==> Clean()
      decreases depth
    {
      if level == 0 {
        Uncache(t, models);
      } else if base != null {
        base.UncacheAt(level - 1, t, models[1..]);
      }
    }

    /** Flushing a layer further down changes only what its parent means. */
    method FlushAt(level: nat, ghost models: seq<Utxo>)
      requires Valid(models) && level < depth && Idle()
      modifies Layers`cacheCoins, disk
      ensures Valid(models[level + 1 := models[level]])
      ensures old(Clean()) ==> Clean()
      decreases depth
    {
      if level == 0 {
        Flush(models);
      } else {
        ghost var after := models[level + 1 := models[level]];
        base.FlushAt(level - 1, models[1..]);
        assert models[1..][level := models[1..][level - 1]] == after[1..];
        assert Model(after, 0) == Model(models, 0) && Model(after, 1) == Model(models, 1);
      }
    }

    /** Replacing this layer's meaning leaves the layers below as they are. */
    lemma Restacked(models: seq<Utxo>, mine: Utxo)
      requires |models| > 1
      ensures ([mine] + models[1..])[1..] == models[1..]
      ensures Model([mine] + models[1..], 0) == mine && Model([mine] + models[1..], 1) == Model(models, 1)
    {
    }
  }

  lemma PutSame(m: Utxo, t: Txid, c: Coins)
    requires Norm(c) == Get(m, t)
    ensures Put(m, t, c) == m
  {
  }

  lemma PutTwice(m: Utxo, t: Txid, c: Coins, d: Coins)
    ensures Put(Put(m, t, c), t, d) == Put(m, t, d)
  {
  }

  // ---------- whole runs ----------

  datatype Op =
    | Fetch(level: nat, t: Txid)
    | Uncache(level: nat, t: Txid)
    | Flush(level: nat)
    | Modify(t: Txid, coins: Coins)
    | Create(t: Txid, coinbase: bool, coins: Coins)
    | Push
    | Pop

  /** What an operation does to a stack of plain maps. */
  function StepModel(models: seq<Utxo>, op: Op): seq<Utxo>
    requires Allowed(models, op)
  {
    match op
    case Fetch(_, _) => models
    case Uncache(_, _) => models
    case Flush(level) => models[level + 1 := models[level]]
    case Modify(t, c) => [Put(models[0], t, c.Cleanup())] + models[1..]
    case Create(t, _, c) => [Put(models[0], t, c.Cleanup())] + models[1..]
    case Push => [Put(models[0], RANDPAY, RANDPAY_COINS)] + models
    case Pop => models[1..]
  }

  /** Layers that are named exist, and BIP 30 holds where coins are created. */
  predicate Allowed(models: seq<Utxo>, op: Op) {
    && |models| > 1
    && (op.Flush? ==> op.level + 1 < |models|)
    && (op.Pop? ==> |models| > 2)
    && (op.Create? && !op.coinbase ==> op.t !in models[0])
  }

  predicate AllowedRun(models: seq<Utxo>, ops: seq<Op>)
    decreases |ops|
  {
    ops == [] || (Allowed(models, ops[0]) && AllowedRun(StepModel(models, ops[0]), ops[1..]))
  }

  function RunModel(models: seq<Utxo>, ops: seq<Op>): seq<Utxo>
    requires AllowedRun(models, ops)
    decreases |ops|
  {
    if ops == [] then models else RunModel(StepModel(models, ops[0]), ops[1..])
  }

  method Step(top: CoinsViewCache, op: Op, ghost models: seq<Utxo>) returns (r: CoinsViewCache)
    requires top.Valid(models) && top.Idle() && Allowed(models, op)
    modifies top.Layers, top.disk
    ensures r.Valid(StepModel(models, op)) && r.Idle() && r.disk == top.disk
    ensures old(top.Clean()) ==> r.Clean()
    ensures forall l :: l in r.Layers ==> l in top.Layers || fresh(l)
  {
    hide LayerOk, DiskOk, Put, NeatCache, NeatDisk;
    r := top;
    match op
    case Fetch(level, t) => top.FetchAt(level, t, models);
    case Uncache(level, t) => top.UncacheAt(level, t, models);
    case Flush(level) => top.FlushAt(level, models);
    case Modify(t, c) => top.Replace(t, c, models);
    case Create(t, coinbase, c) => top.CreateCoins(t, coinbase, c, models);
    case Push =>
      r := new CoinsViewCache(top, top.disk, models);
    case Pop =>
      r := top.base;
  }

  /** For stacks of any depth and any allowed run, every layer means what the same run makes
      of plain maps; no lookup, flag, skipped write or early erasure shows. */
  method Run(top: CoinsViewCache, ops: seq<Op>, ghost models: seq<Utxo>) returns (r: CoinsViewCache)
    requires top.Valid(models) && top.Idle() && AllowedRun(models, ops)
    modifies top.Layers, top.disk
    ensures r.Valid(RunModel(models, ops)) && r.Idle()
    ensures old(top.Clean()) ==> r.Clean()
    decreases |ops|
  {
    if ops == [] {
      r := top;
    } else {
      r := Step(top, ops[0], models);
      r := Run(r, ops[1..], StepModel(models, ops[0]));
    }
  }
}
