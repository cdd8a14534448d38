/** The verification queue: a master adds batches of checks, any number of workers take
    them in slices, and the master joins in until all are done.  Each step below is one
    critical section under the mutex, or one check executed outside it; steps of
    different threads interleave in any order. */
module CheckQueue {
  import Numbers

  /** A check, and what running it returns. */
  datatype Check = Check(id: nat, valid: bool)

  /** Where a thread is in the loop.
      Out: not in it.  AtLock: about to take the mutex, with the size and result of the
      batch it just finished (0: first iteration).  Asleep and Notified: in the wait on
      its condition variable.  Running: executing a batch of `now` checks, `rest` to go. */
  datatype Pc =
    | Out
    | AtLock(now: nat, ok: bool)
    | Asleep
    | Notified
    | Running(rest: seq<Check>, ok: bool, now: nat)

  /** threads[0] is the master.  `added` records the checks added since the last Wait returned,
      `result` what that Wait returned. */
  datatype State = State(
    batchSize: nat, queue: seq<Check>, nIdle: int, nTotal: int, allOk: bool, nTodo: int,
    threads: seq<Pc>, added: seq<Check>, result: bool)

  datatype Step =
    | Add(checks: seq<Check>, woken: nat)   // the master adds; for a single check one sleeper is notified
    | Wait                                  // the master calls Wait
    | Start(k: nat)                         // a worker thread starts
    | Enter(k: nat)                         // a thread takes the mutex at the top of the loop
    | Wake(k: nat)                          // a notified thread gets the mutex back
    | Spurious(k: nat)                      // a sleeper wakes up without being notified
    | Execute(k: nat)                       // a thread runs one check, or finishes its batch

  function Init(batchSize: nat, workers: nat): State {
    State(batchSize, [], 0, 0, true, 0, seq(workers + 1, _ => Out), [], true)
  }

  predicate Enabled(s: State, step: Step) {
    match step
    case Add(checks, woken) =>
      && |s.threads| > 0 && s.threads[0].Out?
      && (|checks| == 1 && (exists j :: 0 < j < |s.threads| && s.threads[j].Asleep?) ==>
            0 < woken < |s.threads| && s.threads[woken].Asleep?)
    case Wait => |s.threads| > 0 && s.threads[0].Out?
    case Start(k) => 0 < k < |s.threads| && s.threads[k].Out?
    case Enter(k) => k < |s.threads| && s.threads[k].AtLock?
    case Wake(k) => k < |s.threads| && s.threads[k].Notified?
    case Spurious(k) => k < |s.threads| && s.threads[k].Asleep?
    case Execute(k) => k < |s.threads| && s.threads[k].Running?
  }

  function Min(a: int, b: int): int { if a < b then a else b }

  function Max(a: int, b: int): int { if a < b then b else a }

  /** The last n checks of the queue, last first. */
  function TakeBack(queue: seq<Check>, n: nat): seq<Check>
    requires n <= |queue|
  {
    if n == 0 then [] else [queue[|queue| - 1]] + TakeBack(queue[..|queue| - 1], n - 1)
  }

  /** How many checks a thread takes: fewer as the queue runs out, at least one. */
  function Share(s: State): nat
    requires s.nTotal + s.nIdle >= 0
  {
    Max(1, Min(s.batchSize, |s.queue| / (s.nTotal + s.nIdle + 1)))
  }

  /** From the queue test to the end of the critical section: return, sleep or take a batch. */
  function Proceed(s: State, k: nat): State
    requires k < |s.threads|
  {
    if s.queue == [] then
      if k == 0 && s.nTodo == 0 then
        s.(nTotal := s.nTotal - 1, allOk := true, threads := s.threads[0 := Out], added := [], result := s.allOk)
      else
        s.(nIdle := s.nIdle + 1, threads := s.threads[k := Asleep])
    else if s.nTotal + s.nIdle < 0 || Share(s) > |s.queue| then s
    else
      var n := Share(s);
      s.(queue := s.queue[..|s.queue| - n], threads := s.threads[k := Running(TakeBack(s.queue, n), s.allOk, n)])
  }

  /** Cleaning up after a batch; whoever finishes the last check tells the master. */
  function CleanUp(s: State, k: nat, now: nat, ok: bool): State
    requires |s.threads| > 0
  {
    if now == 0 then s.(nTotal := s.nTotal + 1) else
    var t := s.nTodo - now;
    s.(allOk := s.allOk && ok, nTodo := t,
       threads := if t == 0 && k != 0 && s.threads[0].Asleep? then s.threads[0 := Notified] else s.threads)
  }

  function NotifyAll(threads: seq<Pc>, n: nat): (r: seq<Pc>)
    requires n <= |threads|
    ensures |r| == |threads|
    ensures forall j :: 0 <= j < |r| ==> r[j] == if 0 < j < n && threads[j].Asleep? then Notified else threads[j]
  {
    if n == 0 then threads else
    var r := NotifyAll(threads, n - 1);
    if n - 1 > 0 && threads[n - 1].Asleep? then r[n - 1 := Notified] else r
  }

  function Apply(s: State, step: Step): State
    requires Enabled(s, step)
  {
    match step
    case Add(checks, woken) =>
      s.(queue := s.queue + checks, nTodo := s.nTodo + |checks|, added := s.added + checks,
         threads := if |checks| > 1 then NotifyAll(s.threads, |s.threads|)
                    else if |checks| == 1 && 0 < woken < |s.threads|
                        && s.threads[woken].Asleep? then s.threads[woken := Notified]
                    else s.threads)
    case Wait => s.(threads := s.threads[0 := AtLock(0, true)])
    case Start(k) => s.(threads := s.threads[k := AtLock(0, true)])
    case Enter(k) => Proceed(CleanUp(s, k, s.threads[k].now, s.threads[k].ok), k)
    case Wake(k) => Proceed(s.(nIdle := s.nIdle - 1), k)
    case Spurious(k) => Proceed(s.(nIdle := s.nIdle - 1), k)
    case Execute(k) =>
      var t := s.threads[k];
      if t.rest == [] then s.(threads := s.threads[k := AtLock(t.now, t.ok)])
      else s.(threads := s.threads[k := Running(t.rest[1..], t.ok && t.rest[0].valid, t.now)])
  }

  // ---------- the invariant ----------

  function Sum(ts: seq<Pc>, w: Pc -> int): int {
    if ts == [] then 0 else Sum(ts[..|ts| - 1], w) + w(ts[|ts| - 1])
  }

  /** Checks a thread has taken and not yet accounted for. */
  function Flight(pc: Pc): int { if pc.Running? || pc.AtLock? then pc.now else 0 }

  function Idle(pc: Pc): int { if pc.Asleep? || pc.Notified? then 1 else 0 }

  function Inside(pc: Pc): int { if pc.Out? || (pc.AtLock? && pc.now == 0) then 0 else 1 }

  predicate AllValid(checks: seq<Check>) {
    forall j :: 0 <= j < |checks| ==> checks[j].valid
  }

  /** Nothing this thread has seen or still holds is invalid. */
  predicate Clean(pc: Pc) {
    match pc
    case AtLock(now, ok) => now > 0 ==> ok
    case Running(rest, ok, _) => ok && AllValid(rest)
    case _ => true
  }

  ghost predicate Good(s: State) {
    s.allOk && AllValid(s.queue) && forall k :: 0 <= k < |s.threads| ==> Clean(s.threads[k])
  }

  predicate Sane(pc: Pc) { pc.Running? ==> 0 < pc.now && |pc.rest| <= pc.now }

  ghost predicate Counted(s: State) {
    && s.nTodo == |s.queue| + Sum(s.threads, Flight)
    && s.nIdle == Sum(s.threads, Idle)
    && s.nTotal == Sum(s.threads, Inside)
  }

  ghost predicate Inv(s: State) {
    && |s.threads| > 0 && (forall k :: 0 <= k < |s.threads| ==> Sane(s.threads[k]))
    && Counted(s)
    && s.nTodo <= |s.added|
    && (AllValid(s.added) <==> Good(s))
    && (s.threads[0].Asleep? ==> s.queue == [] && s.nTodo > 0)
    && (s.queue != [] ==> WorkersAwake(s.threads))
  }

  /** Some worker is neither asleep nor missing, unless no worker is in the loop at all. */
  ghost predicate WorkersAwake(threads: seq<Pc>) {
    || (forall k :: 0 < k < |threads| ==> threads[k].Out?)
    || (exists k :: 0 < k < |threads| && !threads[k].Out? && !threads[k].Asleep?)
  }

  lemma {:induction false} SumUpdate(ts: seq<Pc>, i: nat, x: Pc, w: Pc -> int)
    requires i < |ts|
    ensures Sum(ts[i := x], w) == Sum(ts, w) - w(ts[i]) + w(x)
  {
    var n := |ts| - 1;
    if i == n {
      assert ts[i := x][..n] == ts[..n];
    } else {
      SumUpdate(ts[..n], i, x, w);
      assert ts[i := x][..n] == ts[..n][i := x];
    }
  }

  lemma {:induction false} SumZero(ts: seq<Pc>, w: Pc -> int)
    requires forall k :: 0 <= k < |ts| ==> w(ts[k]) >= 0
    ensures Sum(ts, w) >= 0
    ensures Sum(ts, w) == 0 <==> forall k :: 0 <= k < |ts| ==> w(ts[k]) == 0
  {
    if ts != [] { SumZero(ts[..|ts| - 1], w); }
  }

  lemma {:induction false} SumSame(ts: seq<Pc>, us: seq<Pc>, w: Pc -> int)
    requires |ts| == |us| && forall k :: 0 <= k < |ts| ==> w(ts[k]) == w(us[k])
    ensures Sum(ts, w) == Sum(us, w)
  {
    if ts != [] { SumSame(ts[..|ts| - 1], us[..|us| - 1], w); }
  }

  lemma Initially(batchSize: nat, workers: nat)
    ensures Inv(Init(batchSize, workers))
  {
    var s := Init(batchSize, workers);
    SumZero(s.threads, Flight);
    SumZero(s.threads, Idle);
    SumZero(s.threads, Inside);
  }

  lemma {:induction false} TakeBackIs(queue: seq<Check>, n: nat)
    requires n <= |queue|
    ensures |TakeBack(queue, n)| == n
    ensures AllValid(queue) <==> AllValid(queue[..|queue| - n]) && AllValid(TakeBack(queue, n))
    decreases n
  {
    if n > 0 {
      var most := queue[..|queue| - 1];
      TakeBackIs(most, n - 1);
      assert most[..|most| - (n - 1)] == queue[..|queue| - n];
      var t := TakeBack(queue, n);
      assert t[1..] == TakeBack(most, n - 1);
      assert queue == most + [queue[|queue| - 1]];
      AllValidMore(most, queue[|queue| - 1]);
      AllValidFirst(t);
    }
  }

  lemma AllValidMore(checks: seq<Check>, c: Check)
    ensures AllValid(checks + [c]) <==> AllValid(checks) && c.valid
  {
    var all := checks + [c];
    assert all[|checks|] == c;
    assert forall j :: 0 <= j < |checks| ==> all[j] == checks[j];
  }

  lemma AllValidFirst(checks: seq<Check>)
    requires checks != []
    ensures AllValid(checks) <==> checks[0].valid && AllValid(checks[1..])
  {
    assert forall j :: 0 < j < |checks| ==> checks[j] == checks[1..][j - 1];
  }

  // ---------- every step keeps it ----------

  /** The invariant while thread k is inside its critical section, k itself counted only in nTotal. */
  ghost predicate Mid(s: State, k: nat) {
    && k < |s.threads| && (forall j :: 0 <= j < |s.threads| ==> Sane(s.threads[j]))
    && var ts := s.threads[k := Out];
    && s.nTodo == |s.queue| + Sum(ts, Flight)
    && s.nIdle == Sum(ts, Idle)
    && s.nTotal == Sum(ts, Inside) + 1
    && s.nTodo <= |s.added|
    && (AllValid(s.added) <==> Good(s.(threads := ts)))
    && (k != 0 && s.threads[0].Asleep? ==> s.queue == [] && s.nTodo > 0)
    && (k == 0 && s.queue != [] ==> WorkersAwake(s.threads))
  }

  lemma GoodUpdate(s: State, k: nat, pc: Pc)
    requires k < |s.threads|
    ensures Good(s.(threads := s.threads[k := pc])) <==> Good(s.(threads := s.threads[k := Out])) && Clean(pc)
  {
    var a, b := s.threads[k := pc], s.threads[k := Out];
    assert forall j :: 0 <= j < |a| && j != k ==> a[j] == b[j];
    assert a[k] == pc && b[k] == Out;
  }

  lemma ProceedKeeps(s: State, k: nat)
    requires Mid(s, k)
    ensures Inv(Proceed(s, k))
  {
    hide Good, WorkersAwake;
    var ts := s.threads[k := Out];
    SumsNonNegative(ts);
    if s.queue == [] {
      if k == 0 && s.nTodo == 0 {
        ReturnKeeps(s);
      } else {
        SumsAt(ts, k, Asleep);
        GoodUpdate(s, k, Asleep);
        assert ts[k := Asleep] == s.threads[k := Asleep];
        assert Good(s.(threads := s.threads[k := Asleep]))
            <==> Good(Proceed(s, k)) by { GoodSame(s.(threads := s.threads[k := Asleep]), Proceed(s, k)); }
      }
    } else {
      TakeKeeps(s, k);
    }
  }

  lemma GoodSame(s: State, t: State)
    requires s.allOk == t.allOk && s.queue == t.queue && s.threads == t.threads
    ensures Good(s) <==> Good(t)
  {
  }

  lemma SumsNonNegative(ts: seq<Pc>)
    ensures Sum(ts, Flight) >= 0 && Sum(ts, Idle) >= 0 && Sum(ts, Inside) >= 0
  {
    SumZero(ts, Flight);
    SumZero(ts, Idle);
    SumZero(ts, Inside);
  }

  lemma SumsAt(ts: seq<Pc>, k: nat, pc: Pc)
    requires k < |ts| && ts[k] == Out
    ensures Sum(ts[k := pc], Flight) == Sum(ts, Flight) + Flight(pc)
    ensures Sum(ts[k := pc], Idle) == Sum(ts, Idle) + Idle(pc)
    ensures Sum(ts[k := pc], Inside) == Sum(ts, Inside) + Inside(pc)
  {
    SumUpdate(ts, k, pc, Flight);
    SumUpdate(ts, k, pc, Idle);
    SumUpdate(ts, k, pc, Inside);
  }

  /** The master returns: nothing is in flight, so the verdict is in allOk. */
  lemma ReturnKeeps(s: State)
    requires Mid(s, 0) && s.queue == [] && s.nTodo == 0
    ensures Inv(Proceed(s, 0)) && (Proceed(s, 0).result <==> AllValid(s.added))
  {
    var ts := s.threads[0 := Out];
    SumZero(ts, Flight);
    assert forall j :: 0 <= j < |ts| ==> Flight(ts[j]) == 0;
    assert forall j :: 0 <= j < |ts| ==> Sane(ts[j]) && Clean(ts[j]);
  }

  lemma TakeKeeps(s: State, k: nat)
    requires Mid(s, k) && s.queue != [] && Sum(s.threads[k := Out], Inside) >= 0 && Sum(s.threads[k := Out], Idle) >= 0
    ensures Inv(Proceed(s, k))
  {
    hide Good;
    var ts := s.threads[k := Out];
    var n := Share(s);
    Numbers.DivAtMost(|s.queue|, s.nTotal + s.nIdle + 1);
    assert 1 <= n <= |s.queue|;
    TakeBackIs(s.queue, n);
    var pc := Running(TakeBack(s.queue, n), s.allOk, n);
    var r := Proceed(s, k);
    SumsAt(ts, k, pc);
    assert ts[k := pc] == r.threads;
    assert Good(r) <==> Good(s.(threads := ts)) by { GoodTake(s, k, n); }
    assert k > 0 ==> r.threads[k] == pc;
    if k == 0 && WorkersAwake(s.threads) {
      assert forall j :: 0 < j < |r.threads| ==> r.threads[j] == s.threads[j];
    }
  }

  lemma GoodTake(s: State, k: nat, n: nat)
    requires k < |s.threads| && n <= |s.queue|
    ensures Good(s.(queue := s.queue[..|s.queue| - n], threads :=
            s.threads[k := Running(TakeBack(s.queue, n), s.allOk, n)])) <==>
            Good(s.(threads := s.threads[k := Out]))
  {
    TakeBackIs(s.queue, n);
    var pc := Running(TakeBack(s.queue, n), s.allOk, n);
    var q := s.(queue := s.queue[..|s.queue| - n]);
    GoodUpdate(q, k, pc);
  }

  lemma WakeMid(s: State, k: nat)
    requires Inv(s) && k < |s.threads| && (s.threads[k].Asleep? || s.threads[k].Notified?)
    ensures Mid(s.(nIdle := s.nIdle - 1), k)
  {
    hide Good;
    SumUpdate(s.threads, k, Out, Flight);
    SumUpdate(s.threads, k, Out, Idle);
    SumUpdate(s.threads, k, Out, Inside);
    GoodUpdate(s, k, s.threads[k]);
    assert s.threads[k := s.threads[k]] == s.threads;
    var t := s.(nIdle := s.nIdle - 1);
    GoodSame(s.(threads := s.threads[k := Out]), t.(threads := t.threads[k := Out]));
    GoodSame(s, s.(threads := s.threads));
  }

  lemma EnterMid(s: State, k: nat)
    requires Inv(s) && k < |s.threads| && s.threads[k].AtLock?
    ensures Mid(CleanUp(s, k, s.threads[k].now, s.threads[k].ok), k)
  {
    hide Good, Sum, WorkersAwake;
    var now, ok := s.threads[k].now, s.threads[k].ok;
    var t := CleanUp(s, k, now, ok);
    SumUpdate(s.threads, k, Out, Flight);
    SumUpdate(s.threads, k, Out, Idle);
    SumUpdate(s.threads, k, Out, Inside);
    SumZero(s.threads[k := Out], Flight);
    var a, b := s.threads[k := Out], t.threads[k := Out];
    SumSame(a, b, Flight);
    SumSame(a, b, Idle);
    SumSame(a, b, Inside);
    GoodCleanUp(s, k);
  }

  lemma GoodCleanUp(s: State, k: nat)
    requires k < |s.threads| && s.threads[k].AtLock?
    ensures var t := CleanUp(s, k, s.threads[k].now, s.threads[k].ok);
            Good(s) <==> Good(t.(threads := t.threads[k := Out]))
  {
    var t := CleanUp(s, k, s.threads[k].now, s.threads[k].ok);
    var u := t.threads[k := Out];
    assert forall j :: 0 <= j < |u| && j != k ==> Clean(u[j]) == Clean(s.threads[j]);
    assert Clean(u[k]);
    assert Clean(s.threads[k]) <==> (s.threads[k].now > 0 ==> s.threads[k].ok);
  }

  lemma ExecuteKeeps(s: State, k: nat)
    requires Inv(s) && Enabled(s, Execute(k))
    ensures Inv(Apply(s, Execute(k)))
  {
    hide Good, Sum, WorkersAwake;
    var t := s.threads[k];
    var pc := if t.rest == [] then AtLock(t.now, t.ok) else Running(t.rest[1..], t.ok && t.rest[0].valid, t.now);
    var r := Apply(s, Execute(k));
    assert r == s.(threads := s.threads[k := pc]);
    SumUpdate(s.threads, k, pc, Flight);
    SumUpdate(s.threads, k, pc, Idle);
    SumUpdate(s.threads, k, pc, Inside);
    if t.rest != [] { AllValidFirst(t.rest); }
    assert Clean(pc) <==> Clean(t);
    GoodUpdate(s, k, pc);
    GoodUpdate(s, k, t);
    assert s.threads[k := t] == s.threads;
    GoodSame(s, s.(threads := s.threads));
    if s.queue != [] { KeepsAwake(s.threads, k, pc); }
  }

  /** Replacing a thread that is up by one that is up. */
  lemma KeepsAwake(threads: seq<Pc>, k: nat, pc: Pc)
    requires k < |threads| && WorkersAwake(threads) && !pc.Asleep? && !pc.Out?
    ensures WorkersAwake(threads[k := pc])
  {
    var ts := threads[k := pc];
    if k > 0 {
      assert ts[k] == pc;
    } else if exists j :: 0 < j < |threads| && !threads[j].Out? && !threads[j].Asleep? {
      var j :| 0 < j < |threads| && !threads[j].Out? && !threads[j].Asleep?;
      assert ts[j] == threads[j];
    } else {
      assert forall j :: 0 < j < |ts| ==> ts[j] == threads[j];
    }
  }

  /** A thread enters the loop. */
  lemma StartKeeps(s: State, k: nat)
    requires Inv(s) && k < |s.threads| && s.threads[k].Out?
    ensures Inv(s.(threads := s.threads[k := AtLock(0, true)]))
  {
    hide Good;
    var pc := AtLock(0, true);
    SumUpdate(s.threads, k, pc, Flight);
    SumUpdate(s.threads, k, pc, Idle);
    SumUpdate(s.threads, k, pc, Inside);
    GoodUpdate(s, k, pc);
    GoodUpdate(s, k, s.threads[k]);
    assert s.threads[k := s.threads[k]] == s.threads;
    GoodSame(s, s.(threads := s.threads));
    if s.queue != [] { KeepsAwake(s.threads, k, pc); }
  }

  lemma AddKeeps(s: State, checks: seq<Check>, woken: nat)
    requires Inv(s) && Enabled(s, Add(checks, woken))
    ensures Inv(Apply(s, Add(checks, woken)))
  {
    hide Sum, WorkersAwake;
    var r := Apply(s, Add(checks, woken));
    assert forall j :: 0 <= j < |s.threads| ==>
      r.threads[j] == s.threads[j] || (j > 0 && s.threads[j].Asleep? && r.threads[j] == Notified);
    SumSame(r.threads, s.threads, Flight);
    SumSame(r.threads, s.threads, Idle);
    SumSame(r.threads, s.threads, Inside);
    AllValidBoth(s.added, checks);
    AllValidBoth(s.queue, checks);
    assert Good(r) <==> Good(s) && AllValid(checks);
    if checks != [] { AddWakes(s, checks, woken); } else { assert s.queue + checks == s.queue; }
  }

  lemma AllValidBoth(a: seq<Check>, b: seq<Check>)
    ensures AllValid(a + b) <==> AllValid(a) && AllValid(b)
  {
    var all := a + b;
    assert forall j :: 0 <= j < |a| ==> all[j] == a[j];
    assert forall j :: 0 <= j < |b| ==> all[|a| + j] == b[j];
  }

  /** New checks find or make a worker awake, if there is any. */
  lemma AddWakes(s: State, checks: seq<Check>, woken: nat)
    requires Enabled(s, Add(checks, woken)) && checks != []
    ensures WorkersAwake(Apply(s, Add(checks, woken)).threads)
  {
    var r := Apply(s, Add(checks, woken));
    if exists j :: 0 < j < |s.threads| && s.threads[j].Asleep? {
      var j :| 0 < j < |s.threads| && s.threads[j].Asleep?;
      var w := if |checks| > 1 then j else woken;
      assert r.threads[w] == Notified;
    } else if exists j :: 0 < j < |s.threads| && !s.threads[j].Out? {
      var j :| 0 < j < |s.threads| && !s.threads[j].Out?;
      assert r.threads[j] == s.threads[j];
    } else {
      assert forall j :: 0 < j < |r.threads| ==> r.threads[j] == s.threads[j];
    }
  }

  /** Every step of every thread keeps the invariant: nTodo is queued plus in-flight checks,
      and the verdict on everything added is what is still to be seen. */
  lemma StepKeeps(s: State, step: Step)
    requires Inv(s) && Enabled(s, step)
    ensures Inv(Apply(s, step))
  {
    hide Inv, Mid, Proceed, CleanUp;
    match step
    case Add(checks, woken) => AddKeeps(s, checks, woken);
    case Wait => StartKeeps(s, 0);
    case Start(k) => StartKeeps(s, k);
    case Enter(k) =>
      EnterMid(s, k);
      ProceedKeeps(CleanUp(s, k, s.threads[k].now, s.threads[k].ok), k);
    case Wake(k) =>
      WakeMid(s, k);
      ProceedKeeps(s.(nIdle := s.nIdle - 1), k);
    case Spurious(k) =>
      WakeMid(s, k);
      ProceedKeeps(s.(nIdle := s.nIdle - 1), k);
    case Execute(k) => ExecuteKeeps(s, k);
  }

  // ---------- whole runs ----------

  predicate Possible(s: State, steps: seq<Step>)
    decreases |steps|
  {
    steps == [] || (Enabled(s, steps[0]) && Possible(Apply(s, steps[0]), steps[1..]))
  }

  function Run(s: State, steps: seq<Step>): State
    requires Possible(s, steps)
    decreases |steps|
  {
    if steps == [] then s else Run(Apply(s, steps[0]), steps[1..])
  }

  lemma {:induction false} RunKeeps(s: State, steps: seq<Step>)
    requires Inv(s) && Possible(s, steps)
    ensures Inv(Run(s, steps))
    decreases |steps|
  {
    hide Inv;
    if steps != [] {
      StepKeeps(s, steps[0]);
      RunKeeps(Apply(s, steps[0]), steps[1..]);
    }
  }

  /** In every reachable state, a step with which the master's Wait returns reports exactly
      whether every check added since the previous Wait is valid, and leaves the queue
      empty, nothing to do and the status reset. */
  lemma WaitVerdict(batchSize: nat, workers: nat, steps: seq<Step>, step: Step)
    requires Possible(Init(batchSize, workers), steps)
    requires var s := Run(Init(batchSize, workers), steps);
             |s.threads| > 0 && !s.threads[0].Out? && Enabled(s, step) && Apply(s, step).threads[0].Out?
    ensures var s := Run(Init(batchSize, workers), steps);
            var r := Apply(s, step);
            && (r.result <==> AllValid(s.added))
            && r.queue == [] && r.nTodo == 0 && r.allOk && r.added == []
  {
    hide Inv, Run, Init, Possible, Apply, Enabled;
    Initially(batchSize, workers);
    RunKeeps(Init(batchSize, workers), steps);
    ReturnVerdict(Run(Init(batchSize, workers), steps), step);
  }

  lemma ReturnVerdict(s: State, step: Step)
    requires Inv(s) && |s.threads| > 0 && !s.threads[0].Out? && Enabled(s, step) && Apply(s, step).threads[0].Out?
    ensures var r := Apply(s, step);
            && (r.result <==> AllValid(s.added))
            && r.queue == [] && r.nTodo == 0 && r.allOk && r.added == []
  {
    hide Inv, Mid, AllValid;
    match step
    case Enter(k) =>
      EnterMid(s, k);
      ReturnKeeps(CleanUp(s, 0, s.threads[0].now, s.threads[0].ok));
    case Wake(k) =>
      WakeMid(s, k);
      ReturnKeeps(s.(nIdle := s.nIdle - 1));
    case Spurious(k) =>
      WakeMid(s, k);
      ReturnKeeps(s.(nIdle := s.nIdle - 1));
    case Execute(k) =>
  }

  /** The master only sleeps while some worker holds a batch whose completion will notify it. */
  lemma SleepingMasterHasAWaker(s: State) returns (k: nat)
    requires Inv(s) && s.threads[0].Asleep?
    ensures 0 < k < |s.threads| && Flight(s.threads[k]) > 0
    ensures Enabled(s, Enter(k)) || Enabled(s, Execute(k))
  {
    SumZero(s.threads, Flight);
    k :| 0 <= k < |s.threads| && Flight(s.threads[k]) != 0;
  }

  /** A queue that is not in use passes the idle test that guards its next user. */
  lemma UnusedIsIdle(s: State)
    requires Inv(s) && s.threads[0].Out? && s.added == []
    ensures s.nTotal == s.nIdle && s.nTodo == 0 && s.allOk
  {
    SumZero(s.threads, Flight);
    assert forall k :: 0 <= k < |s.threads| ==> Flight(s.threads[k]) == 0;
    assert forall k :: 0 <= k < |s.threads| ==> Inside(s.threads[k]) == Idle(s.threads[k]);
    SumSame(s.threads, s.threads, Idle);
    InsideIdle(s.threads);
  }

  lemma {:induction false} InsideIdle(ts: seq<Pc>)
    requires forall k :: 0 <= k < |ts| ==> Inside(ts[k]) == Idle(ts[k])
    ensures Sum(ts, Inside) == Sum(ts, Idle)
  {
    if ts != [] { InsideIdle(ts[..|ts| - 1]); }
  }

  // ---------- Wait always comes back ----------

  /** Steps the threads take on their own while the master waits; spurious wake-ups aside. */
  predicate Internal(step: Step) { step.Start? || step.Enter? || step.Wake? || step.Execute? }

  function Effort(pc: Pc): int {
    match pc
    case Out => 3
    case AtLock(_, _) => 2
    case Asleep => 0
    case Notified => 1
    case Running(rest, _, _) => 3 + |rest|
  }

  /** What is left to do, counted in steps. */
  function Rank(s: State): int {
    4 * |s.queue| + Sum(s.threads, Effort) - (if |s.threads| > 0 && s.threads[0].Out? then 3 else 0)
  }

  lemma RankNonNegative(s: State)
    ensures Rank(s) >= 0
  {
    SumZero(s.threads, Effort);
    if |s.threads| > 0 && s.threads[0].Out? {
      SumUpdate(s.threads, 0, Asleep, Effort);
      SumZero(s.threads[0 := Asleep], Effort);
    }
  }

  lemma RankDrops(s: State, step: Step)
    requires Inv(s) && Enabled(s, step) && Internal(step) && !s.threads[0].Out?
    ensures Rank(Apply(s, step)) < Rank(s)
  {
    hide Inv, Mid, Good, WorkersAwake, Sum;
    match step
    case Start(k) => SumUpdate(s.threads, k, AtLock(0, true), Effort);
    case Execute(k) => SumUpdate(s.threads, k, Apply(s, step).threads[k], Effort);
    case Enter(k) =>
      EnterMid(s, k);
      var t := CleanUp(s, k, s.threads[k].now, s.threads[k].ok);
      SumUpdate(s.threads, 0, Notified, Effort);
      ProceedDrops(t, k);
      NoBothNotifyAndTake(s, k);
    case Wake(k) =>
      WakeMid(s, k);
      ProceedDrops(s.(nIdle := s.nIdle - 1), k);
  }

  lemma NoBothNotifyAndTake(s: State, k: nat)
    requires Inv(s) && k < |s.threads| && s.threads[k].AtLock?
    ensures s.threads[0].Asleep? ==> s.queue == []
  {
  }

  /** Inside the critical section a thread at the lock (2) or notified (1) goes down in rank. */
  lemma ProceedDrops(s: State, k: nat)
    requires Mid(s, k) && (s.threads[k].AtLock? || s.threads[k].Notified?)
    ensures k == 0 && s.queue == [] && s.nTodo == 0 ==> Rank(Proceed(s, k)) == Rank(s) - Effort(s.threads[k])
    ensures !(k == 0 && s.nTodo == 0) && s.queue == [] ==> Rank(Proceed(s, k)) == Rank(s) - Effort(s.threads[k])
    ensures s.queue != [] ==> Rank(Proceed(s, k)) < Rank(s)
  {
    hide Good, WorkersAwake, Sum, Inv;
    var r := Proceed(s, k);
    var ts := s.threads[k := Out];
    SumsNonNegative(ts);
    if s.queue != [] {
      var n := Share(s);
      Numbers.DivAtMost(|s.queue|, s.nTotal + s.nIdle + 1);
      TakeBackIs(s.queue, n);
    }
    SumUpdate(s.threads, k, r.threads[k], Effort);
  }

  /** While the master waits, some thread can make a step on its own. */
  lemma NeverStuck(s: State) returns (step: Step)
    requires Inv(s) && !s.threads[0].Out?
    ensures Internal(step) && Enabled(s, step)
  {
    match s.threads[0]
    case AtLock(_, _) => step := Enter(0);
    case Notified => step := Wake(0);
    case Running(_, _, _) => step := Execute(0);
    case Asleep =>
      var k := SleepingMasterHasAWaker(s);
      step := if s.threads[k].AtLock? then Enter(k) else Execute(k);
  }

  /** The master stays inside Wait along the whole run. */
  predicate Waiting(s: State, steps: seq<Step>)
    requires Possible(s, steps)
    decreases |steps|
  {
    && |s.threads| > 0
    && (steps != [] ==> Internal(steps[0]) && !s.threads[0].Out? && Waiting(Apply(s, steps[0]), steps[1..]))
  }

  /** Under any schedule the threads make at most Rank(s) steps of their own before the master's
      Wait returns, and they cannot stop earlier. */
  lemma {:induction false} WaitComesBack(s: State, steps: seq<Step>)
    requires Inv(s) && Possible(s, steps) && Waiting(s, steps)
    ensures |steps| <= Rank(s) - Rank(Run(s, steps)) <= Rank(s)
    ensures var r := Run(s, steps);
            (forall step :: Internal(step) ==> !Enabled(r, step)) ==> r.threads != [] && r.threads[0].Out?
    decreases |steps|
  {
    hide Inv, Rank;
    RankNonNegative(s);
    if steps == [] {
      StuckMeansOut(s);
    } else {
      StepKeeps(s, steps[0]);
      RankDrops(s, steps[0]);
      WaitComesBack(Apply(s, steps[0]), steps[1..]);
    }
  }

  lemma StuckMeansOut(s: State)
    requires Inv(s)
    ensures (forall step :: Internal(step) ==> !Enabled(s, step)) ==> s.threads != [] && s.threads[0].Out?
  {
    if !s.threads[0].Out? {
      var step := NeverStuck(s);
    }
  }
}
