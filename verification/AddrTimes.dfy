/** The times the address manager's debugging check asks for: which operation spoils them,
    and that none does while the clock is past its epoch. */
module AddrTimes {
  import opened AddrBook

  predicate TimesFit(info: Info) {
    info.lastTry >= 0 && info.lastSuccess >= 0 && (info.inTried ==> info.lastSuccess != 0)
  }

  ghost predicate Timed(infos: Infos) {
    forall id :: id in infos ==> TimesFit(infos[id])
  }

  // ---------- operations that leave the times alone ----------

  /** No entry is added, none is newly tried and the times are as they were. */
  ghost predicate Kin(a: Infos, b: Infos) {
    forall id :: id in a ==>
      && id in b && a[id].lastTry == b[id].lastTry && a[id].lastSuccess == b[id].lastSuccess
      && (a[id].inTried ==> b[id].inTried)
  }

  lemma SwapTimes(v: Book, p: int, q: int)
    ensures Kin(Swap(v, p, q).infos, v.infos)
  {
  }

  lemma DeleteTimes(v: Book, id: int)
    ensures Kin(Delete(v, id).infos, v.infos)
  {
    if CanDelete(v, id) { SwapTimes(v, v.infos[id].randomPos, |v.random| - 1); }
  }

  lemma ReferTimes(v: Book, id: int, c: (int, int))
    ensures Kin(Refer(v, id, c).infos, v.infos)
  {
  }

  lemma ClearNewTimes(v: Book, c: (int, int))
    ensures Kin(ClearNew(v, c).infos, v.infos)
  {
    hide Delete;
    var w := Unrefer(v, c);
    assert Kin(w.infos, v.infos);
    DeleteTimes(w, IdAt(v.cells, c));
  }

  lemma MakeRoomTimes(v: Book, c: (int, int))
    ensures Kin(MakeRoom(v, c).infos, v.infos)
  {
    hide ClearNew, Refer;
    var id := IdAt(v.tried, c);
    if c in v.tried && id in v.infos {
      var n := NewCell(v.h, v.infos[id].service, v.infos[id].source);
      var w := Evict(v, c);
      assert Kin(w.infos, v.infos);
      ClearNewTimes(w, n);
      ReferTimes(ClearNew(w, n), id, n);
    }
  }

  lemma PlaceTimes(v: Book, id: int, source: NetAddr, now: int)
    ensures Kin(Place(v, id, source, now).infos, v.infos)
  {
    hide ClearNew, Refer, Delete;
    if id in v.infos {
      var c := NewCell(v.h, v.infos[id].service, source);
      ClearNewTimes(v, c);
      ReferTimes(ClearNew(v, c), id, c);
      DeleteTimes(v, id);
    }
  }

  lemma {:induction false} ShuffleTimes(v: Book, m: nat, draw: nat -> nat)
    ensures Kin(Shuffle(v, m, draw).infos, v.infos)
    decreases m
  {
    hide Swap, Later;
    if m > 0 {
      ShuffleTimes(v, m - 1, draw);
      var w := Shuffle(v, m - 1, draw);
      if m <= |w.random| { SwapTimes(w, m - 1, Later(draw, m - 1, |w.random|)); }
    }
  }

  lemma AddTimes(v: Book, routable: bool, addr: Address, source: NetAddr, penalty: int, now: int, coin: nat)
    requires Timed(v.infos)
    ensures Timed(Add(v, routable, addr, source, penalty, now, coin).0.infos)
  {
    hide Place;
    var pen := if addr.service.net == source then 0 else penalty;
    var id := IdOf(v.addrs, addr.service.net);
    if addr.service.net !in v.addrs {
      var w := Create(v, addr, source);
      var x := Touch(w, v.next, w.infos[v.next].(time := Max(0, addr.time - pen))).(nNew := v.nNew + 1);
      PlaceTimes(x, v.next, source, now);
    } else if id in v.infos {
      PlaceTimes(Touch(v, id, Refreshed(v.infos[id], addr, pen, now)), id, source, now);
    }
  }

  // ---------- operations that set them ----------

  predicate Known(v: Book, s: Service) {
    var id := IdOf(v.addrs, s.net);
    id in v.infos && v.infos[id].service == s
  }

  /** Promoting an entry keeps the times right exactly if its last success is set. */
  lemma MakeTriedTimes(v: Book, id: int)
    requires Sound(v) && id in v.infos && !v.infos[id].inTried && forall k :: k in v.infos && k != id ==>
               TimesFit(v.infos[k])
    ensures Timed(MakeTried(v, id).infos) <==> v.infos[id].lastTry >= 0 && v.infos[id].lastSuccess > 0
  {
    hide Sound, MakeRoom;
    MakeTriedKeeps(v, id);
    var a, c := Strip(v, id), TriedCell(v.h, v.infos[id].service);
    MakeRoomTimes(a, c);
    assert TimesFit(MakeTried(v, id).infos[id]) <==> v.infos[id].lastTry >= 0 && v.infos[id].lastSuccess > 0;
  }

  lemma GoodTimes(v: Book, s: Service, time: int)
    requires Sound(v) && Timed(v.infos)
    ensures Timed(Good(v, s, time).infos) <==> (Known(v, s) ==> time > 0)
  {
    hide Sound, MakeTried;
    if Known(v, s) {
      var id := IdOf(v.addrs, s.net);
      var u := v.(lastGood := time);
      var info := v.infos[id].(lastSuccess := time, lastTry := time, attempts := 0);
      LastGoodKeeps(v, time);
      TouchKeeps(u, id, info);
      var w := Touch(u, id, info);
      if info.inTried { assert TimesFit(w.infos[id]) <==> time > 0; }
      else { MakeTriedTimes(w, id); }
    }
  }

  lemma AttemptTimes(v: Book, s: Service, countFailure: bool, time: int)
    requires Timed(v.infos)
    ensures Timed(Attempt(v, s, countFailure, time).infos) <==> (Known(v, s) ==> time >= 0)
  {
    if Known(v, s) {
      var id := IdOf(v.addrs, s.net);
      assert TimesFit(Attempt(v, s, countFailure, time).infos[id]) <==> time >= 0;
    }
  }

  // ---------- whole runs ----------

  /** Whether an operation sets no time before the epoch, nor a last success at it. */
  predicate InTime(v: Book, op: Op) {
    match op
    case OpGood(s, t) => Known(v, s) ==> t > 0
    case OpAttempt(s, _, t) => Known(v, s) ==> t >= 0
    case _ => true
  }

  /** One operation keeps the times right exactly if it is in time. */
  lemma StepTimes(v: Book, op: Op)
    requires Sound(v) && Timed(v.infos)
    ensures Timed(Step(v, op).infos) <==> InTime(v, op)
  {
    hide Sound, Add, Good, Attempt, Shuffle;
    match op
    case OpAdd(r, a, s, p, n, c) => AddTimes(v, r, a, s, p, n, c);
    case OpGood(s, t) => GoodTimes(v, s, t);
    case OpAttempt(s, f, t) => AttemptTimes(v, s, f, t);
    case OpConnected(_, _) =>
    case OpSetServices(_, _) =>
    case OpGetAddr(m, draw) => ShuffleTimes(v, m, draw);
  }

  ghost predicate AllInTime(v: Book, ops: seq<Op>)
    decreases |ops|
  {
    ops == [] || (InTime(v, ops[0]) && AllInTime(Step(v, ops[0]), ops[1..]))
  }

  /** The times are right after every prefix of a run exactly if every operation is in time. */
  lemma {:induction false} RunTimes(v: Book, ops: seq<Op>)
    requires Sound(v) && Timed(v.infos)
    ensures AllInTime(v, ops) <==> forall n :: 0 <= n <= |ops| ==> Timed(Run(v, ops[..n]).infos)
    decreases |ops|
  {
    hide Sound, Timed, Step, InTime;
    if ops == [] {
    } else {
      var w, rest := Step(v, ops[0]), ops[1..];
      StepKeeps(v, ops[0]);
      StepTimes(v, ops[0]);
      forall n | 0 < n <= |ops| ensures Run(v, ops[..n]) == Run(w, rest[..n - 1]) {
        assert ops[..n][1..] == rest[..n - 1];
      }
      assert Run(w, rest[..0]) == w;
      if Timed(w.infos) {
        RunTimes(w, rest);
        assert ops[..0] == [];
        assert (forall n :: 0 < n <= |ops| ==> Timed(Run(v, ops[..n]).infos))
          <==> (forall m :: 0 <= m <= |rest| ==> Timed(Run(w, rest[..m]).infos)) by {
          forall m | 0 <= m <= |rest| ensures Run(w, rest[..m]) == Run(v, ops[..m + 1]) { }
        }
      } else {
        assert !Timed(Run(v, ops[..1]).infos);
      }
    }
  }
}
