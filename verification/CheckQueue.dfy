/**
 * The script check queue: one master and any number of workers that share a
 * stack of checks under a mutex and evaluate batches of it outside the mutex.
 * A step is one critical section or one evaluation, by any thread.
 */
module CheckQueue {
  import opened Common

  type Check = nat
  type Id = nat

  const MASTER: Id := 0

  /** Where a thread is in the loop. */
  datatype Place =
    /** The master between calls of `Wait`. */
    | Outside
    /** Called the loop, not yet in its first critical section. */
    | Entering
    /** Asleep on its condition variable. */
    | Waiting(notified: bool)
    /** Evaluating a batch of which `done` checks are behind it. */
    | Working(batch: seq<Check>, done: nat, ok: bool)

  /** A call of `Wait` that has returned, with the checks that had been added for it. */
  datatype Outcome = Outcome(result: bool, checks: seq<Check>)

  datatype State = State(
    queue: seq<Check>,
    nIdle: int,
    nTotal: int,
    allOk: bool,
    nTodo: int,
    batchSize: nat,
    threads: map<Id, Place>,
    // What was added since the last return of `Wait`, and the returns so far.
    added: seq<Check>,
    history: seq<Outcome>)

  function Init(batchSize: nat): State {
    State([], 0, 0, true, 0, batchSize, map[MASTER := Outside], [], [])
  }

  datatype Action =
    | Spawn(worker: Id)
    | Add(checks: seq<Check>, chosen: Id)
    | CallWait
    | Lock(id: Id)
    | Wake(id: Id)
    | Evaluate(id: Id)
    | Finish(id: Id)

  /**
   * The number of checks to take now. `BatchFits` shows that in reachable states
   * the divisor is positive and the number does not exceed the queue, so that
   * neither guard below matters.
   */
  function BatchOf(s: State): (n: int)
    ensures 0 <= n <= |s.queue|
  {
    if s.nTotal + s.nIdle + 1 <= 0 then 0
    else Max(0, Min(|s.queue|, Max(1, Min(s.batchSize, |s.queue| / (s.nTotal + s.nIdle + 1)))))
  }

  /** The last `n` checks, in the order in which they are popped. */
  function Popped(queue: seq<Check>, n: int): seq<Check>
    requires 0 <= n <= |queue|
  {
    seq(n, i requires 0 <= i < n => queue[|queue| - 1 - i])
  }

  /** The loop from `while (queue.empty())` on, inside the critical section of `id`. */
  function Proceed(s: State, id: Id): State {
    if s.queue == [] then
      if id == MASTER && s.nTodo == 0 then
        s.(nTotal := s.nTotal - 1, allOk := true, threads := s.threads[id := Outside],
           added := [], history := s.history + [Outcome(s.allOk, s.added)])
      else
        s.(nIdle := s.nIdle + 1, threads := s.threads[id := Waiting(false)])
    else
      var n := BatchOf(s);
      s.(queue := s.queue[..|s.queue| - n],
         threads := s.threads[id := Working(Popped(s.queue, n), 0, s.allOk)])
  }

  /** After a batch: the clean-up at the head of the critical section. */
  function CleanedUp(s: State, id: Id, batch: seq<Check>, ok: bool): State {
    var todo := s.nTodo - |batch|;
    s.(allOk := s.allOk && ok, nTodo := todo,
       threads := if todo == 0 && id != MASTER && MASTER in s.threads && s.threads[MASTER].Waiting?
                  then s.threads[MASTER := Waiting(true)] else s.threads)
  }

  /** A notification of the workers about `n` new checks. */
  function Notified(threads: map<Id, Place>, n: int, chosen: Id): map<Id, Place> {
    map id | id in threads ::
      if id != MASTER && threads[id].Waiting? && (n > 1 || (n == 1 && id == chosen)) then Waiting(true) else threads[id]
  }

  /** The workers that nobody has notified. */
  function Asleep(threads: map<Id, Place>): set<Id> {
    set id | id in threads && id != MASTER && threads[id] == Waiting(false)
  }

  /** A single new check is announced to one worker that is asleep, if there is any. */
  predicate Enabled(s: State, a: Action) {
    match a
    case Spawn(w) => w !in s.threads
    case Add(checks, chosen) =>
      && MASTER in s.threads && s.threads[MASTER] == Outside
      && (|checks| == 1 && Asleep(s.threads) != {} ==> chosen in Asleep(s.threads))
    case CallWait => MASTER in s.threads && s.threads[MASTER] == Outside
    case Lock(id) => id in s.threads && s.threads[id] == Entering
    case Wake(id) => id in s.threads && s.threads[id].Waiting?
    case Evaluate(id) => id in s.threads && s.threads[id].Working? && s.threads[id].done < |s.threads[id].batch|
    case Finish(id) => id in s.threads && s.threads[id].Working? && s.threads[id].done == |s.threads[id].batch|
  }

  // The invariant.

  function Load(threads: map<Id, Place>): Id -> nat {
    (id: Id) => if id in threads && threads[id].Working? then |threads[id].batch| else 0
  }

  function Sleeping(threads: map<Id, Place>): set<Id> {
    set id | id in threads && threads[id].Waiting?
  }

  function Inside(threads: map<Id, Place>): set<Id> {
    set id | id in threads && (threads[id].Waiting? || threads[id].Working?)
  }

  ghost predicate CountsOk(s: State) {
    && s.nTodo == |s.queue| + Sum(Load(s.threads), s.threads.Keys)
    && s.nIdle == |Sleeping(s.threads)|
    && s.nTotal == |Inside(s.threads)|
  }

  ghost predicate ThreadsOk(s: State) {
    && MASTER in s.threads
    && (forall id :: id in s.threads && id != MASTER ==> s.threads[id] != Outside)
    && (forall id :: id in s.threads && s.threads[id].Working? ==>
          0 < |s.threads[id].batch| && s.threads[id].done <= |s.threads[id].batch|)
    && (s.threads[MASTER] == Waiting(false) ==> s.nTodo > 0 && s.queue == [])
    && (s.threads[MASTER].Waiting? ==> s.queue == [])
  }

  /** A thread still answers for the failing check `c`. */
  predicate Carries(p: Place, c: Check) {
    p.Working? && p.done <= |p.batch| && (!p.ok || c in p.batch[p.done..])
  }

  /** No failing check gets lost, and nothing else makes the result false. */
  ghost predicate ResultOk(eval: Check -> bool, s: State) {
    && (forall c :: c in s.added && !eval(c) ==>
          !s.allOk || c in s.queue || exists id :: id in s.threads && Carries(s.threads[id], c))
    && (!s.allOk ==> Fails(eval, s.added))
    && (forall id :: id in s.threads && s.threads[id].Working? && !s.threads[id].ok ==> Fails(eval, s.added))
    && (forall c :: c in s.queue ==> c in s.added)
    && (forall id, c :: id in s.threads && s.threads[id].Working? && c in s.threads[id].batch ==> c in s.added)
  }

  ghost predicate Fails(eval: Check -> bool, checks: seq<Check>) {
    exists c :: c in checks && !eval(c)
  }

  /** Every `Wait` returned whether all its checks hold. */
  ghost predicate HistoryOk(eval: Check -> bool, s: State) {
    forall k :: 0 <= k < |s.history| ==> (s.history[k].result <==> !Fails(eval, s.history[k].checks))
  }

  ghost predicate Inv(eval: Check -> bool, s: State) {
    CountsOk(s) && ThreadsOk(s) && ResultOk(eval, s) && HistoryOk(eval, s)
  }

  /** `id` holds the mutex: it counts as inside the loop, and not as idle. */
  ghost predicate MidInv(eval: Check -> bool, s: State, id: Id) {
    && id in s.threads && s.threads[id] == Entering
    && s.nTodo == |s.queue| + Sum(Load(s.threads), s.threads.Keys)
    && s.nIdle == |Sleeping(s.threads)|
    && s.nTotal == |Inside(s.threads)| + 1
    && ThreadsOk(s) && ResultOk(eval, s) && HistoryOk(eval, s)
  }

  lemma BatchFits(s: State)
    requires s.queue != [] && s.nTotal >= 0 && s.nIdle >= 0
    ensures s.nTotal + s.nIdle + 1 > 0
    ensures 1 <= BatchOf(s) == Max(1, Min(s.batchSize, |s.queue| / (s.nTotal + s.nIdle + 1))) <= |s.queue|
  {
    assert |s.queue| / (s.nTotal + s.nIdle + 1) <= |s.queue|;
  }

  /** The state after a step; a step that is not enabled changes nothing. */
  function Do(eval: Check -> bool, s: State, a: Action): State {
    if !Enabled(s, a) then s
    else match a
      case Spawn(w) => s.(threads := s.threads[w := Entering])
      case Add(checks, chosen) =>
        s.(queue := s.queue + checks, nTodo := s.nTodo + |checks|,
           threads := Notified(s.threads, |checks|, chosen), added := s.added + checks)
      case CallWait => s.(threads := s.threads[MASTER := Entering])
      case Evaluate(id) => s.(threads := s.threads[id := Evaluated(eval, s.threads[id])])
      case Lock(id) => Proceed(Transit(s, a, id), id)
      case Wake(id) => Proceed(Transit(s, a, id), id)
      case Finish(id) => Proceed(Transit(s, a, id), id)
  }

  /** The state in which the critical section of `id` reaches the inner loop. */
  function Transit(s: State, a: Action, id: Id): State
    requires id in s.threads && (a.Lock? || a.Wake? || (a.Finish? && s.threads[id].Working?))
  {
    if a.Lock? then s.(nTotal := s.nTotal + 1)
    else if a.Wake? then s.(nIdle := s.nIdle - 1, threads := s.threads[id := Entering])
    else
      var p := s.threads[id];
      var c := CleanedUp(s, id, p.batch, p.ok);
      c.(threads := c.threads[id := Entering])
  }

  // Counting under a change of one thread.

  lemma LoadChange(threads: map<Id, Place>, id: Id, p: Place)
    requires id in threads
    ensures Sum(Load(threads[id := p]), threads[id := p].Keys) + Load(threads)(id) ==
      Sum(Load(threads), threads.Keys) + (if p.Working? then |p.batch| else 0)
  {
    var after := threads[id := p];
    var rest := threads.Keys - {id};
    assert after.Keys == threads.Keys;
    SumRemove(Load(threads), threads.Keys, id);
    SumRemove(Load(after), threads.Keys, id);
    SumCongruent(Load(threads), Load(after), rest);
  }

  lemma LoadNew(threads: map<Id, Place>, id: Id, p: Place)
    requires id !in threads && !p.Working?
    ensures Sum(Load(threads[id := p]), threads[id := p].Keys) == Sum(Load(threads), threads.Keys)
  {
    var after := threads[id := p];
    assert after.Keys == threads.Keys + {id};
    SumAdd(Load(after), threads.Keys, id);
    SumCongruent(Load(threads), Load(after), threads.Keys);
  }

  lemma SetsChange(threads: map<Id, Place>, id: Id, p: Place)
    requires id in threads && threads[id] == Entering
    ensures |Sleeping(threads[id := p])| == |Sleeping(threads)| + (if p.Waiting? then 1 else 0)
    ensures |Inside(threads[id := p])| == |Inside(threads)| + (if p.Waiting? || p.Working? then 1 else 0)
  {
    SleepingChange(threads, id, p);
    InsideChange(threads, id, p);
  }

  lemma SleepingChange(threads: map<Id, Place>, id: Id, p: Place)
    requires id in threads && threads[id] == Entering
    ensures |Sleeping(threads[id := p])| == |Sleeping(threads)| + (if p.Waiting? then 1 else 0)
  {
    var after := threads[id := p];
    if p.Waiting? {
      assert Sleeping(after) == Sleeping(threads) + {id};
    } else {
      assert Sleeping(after) == Sleeping(threads);
    }
  }

  lemma InsideChange(threads: map<Id, Place>, id: Id, p: Place)
    requires id in threads && threads[id] == Entering
    ensures |Inside(threads[id := p])| == |Inside(threads)| + (if p.Waiting? || p.Working? then 1 else 0)
  {
    var after := threads[id := p];
    if p.Waiting? || p.Working? {
      assert Inside(after) == Inside(threads) + {id};
    } else {
      assert Inside(after) == Inside(threads);
    }
  }

  lemma Reenter(threads: map<Id, Place>, id: Id)
    requires id in threads
    ensures |Sleeping(threads[id := Entering])| == |Sleeping(threads)| - (if threads[id].Waiting? then 1 else 0)
    ensures |Inside(threads[id := Entering])| ==
      |Inside(threads)| - (if threads[id].Waiting? || threads[id].Working? then 1 else 0)
  {
    SetsChange(threads[id := Entering], id, threads[id]);
    assert threads[id := Entering][id := threads[id]] == threads;
  }

  lemma LockedFirst(eval: Check -> bool, s: State, id: Id)
    requires Inv(eval, s) && Enabled(s, Lock(id))
    ensures MidInv(eval, Transit(s, Lock(id), id), id)
  {
  }

  lemma LockedWake(eval: Check -> bool, s: State, id: Id)
    requires Inv(eval, s) && Enabled(s, Wake(id))
    ensures MidInv(eval, Transit(s, Wake(id), id), id)
  {
    hide Sum, Sleeping, Inside, ResultOk;
    var t := Transit(s, Wake(id), id);
    LoadChange(s.threads, id, Entering);
    Reenter(s.threads, id);
    CarriersKept(eval, s, t, id);
  }

  /** The failing checks stay accounted for when `id`, which carried none of them, is replaced. */
  lemma CarriersKept(eval: Check -> bool, s: State, t: State, id: Id)
    requires ResultOk(eval, s) && id in s.threads && !s.threads[id].Working?
    requires t == s.(threads := t.threads, nIdle := t.nIdle, nTotal := t.nTotal) && t.threads.Keys == s.threads.Keys
    requires forall i :: i in s.threads && i != id ==> t.threads[i] == s.threads[i]
    requires !t.threads[id].Working?
    ensures ResultOk(eval, t)
  {
    forall c | c in t.added && !eval(c) && t.allOk && c !in t.queue
      ensures exists i :: i in t.threads && Carries(t.threads[i], c)
    {
      var i :| i in s.threads && Carries(s.threads[i], c);
      assert i in t.threads && Carries(t.threads[i], c);
    }
  }

  /** The head of every critical section establishes the mid-section invariant. */
  lemma Locked(eval: Check -> bool, s: State, a: Action, id: Id)
    requires Inv(eval, s) && Enabled(s, a) && (a == Lock(id) || a == Wake(id) || a == Finish(id))
    ensures MidInv(eval, Transit(s, a, id), id)
  {
    if a.Lock? {
      LockedFirst(eval, s, id);
    } else if a.Wake? {
      LockedWake(eval, s, id);
    } else {
      LockedFinish(eval, s, id);
    }
  }

  lemma NotifyMaster(threads: map<Id, Place>)
    requires MASTER in threads && threads[MASTER].Waiting?
    ensures var after := threads[MASTER := Waiting(true)];
      && Sum(Load(after), after.Keys) == Sum(Load(threads), threads.Keys)
      && Sleeping(after) == Sleeping(threads) && Inside(after) == Inside(threads)
  {
    LoadChange(threads, MASTER, Waiting(true));
  }

  lemma LockedFinish(eval: Check -> bool, s: State, id: Id)
    requires Inv(eval, s) && Enabled(s, Finish(id))
    ensures MidInv(eval, Transit(s, Finish(id), id), id)
  {
    hide Sum, Sleeping, Inside, ResultOk;
    var p := s.threads[id];
    var c := CleanedUp(s, id, p.batch, p.ok);
    var t := Transit(s, Finish(id), id);
    if s.threads[MASTER].Waiting? {
      NotifyMaster(s.threads);
    }
    LoadChange(c.threads, id, Entering);
    Reenter(c.threads, id);
    FinishedThreads(s, id);
    FinishedResult(eval, s, t, id);
  }

  lemma FinishedThreads(s: State, id: Id)
    requires CountsOk(s) && ThreadsOk(s) && Enabled(s, Finish(id))
    ensures ThreadsOk(Transit(s, Finish(id), id))
  {
    hide Sum, Sleeping, Inside;
    var p := s.threads[id];
    var c := CleanedUp(s, id, p.batch, p.ok);
    LoadChange(s.threads, id, Entering);
    assert c.nTodo >= |s.queue|;
  }

  lemma FinishedResult(eval: Check -> bool, s: State, t: State, id: Id)
    requires ResultOk(eval, s) && Enabled(s, Finish(id)) && t == Transit(s, Finish(id), id)
    requires MASTER in s.threads
    ensures ResultOk(eval, t)
  {
    assert t.threads.Keys == s.threads.Keys;
    forall c | c in t.added && !eval(c) && t.allOk && c !in t.queue
      ensures exists i :: i in t.threads && Carries(t.threads[i], c)
    {
      var i :| i in s.threads && Carries(s.threads[i], c);
      assert i != id && t.threads[i] == s.threads[i];
    }
  }

  lemma NoLoad(threads: map<Id, Place>, id: Id)
    requires Sum(Load(threads), threads.Keys) == 0 && id in threads
    ensures threads[id].Working? ==> threads[id].batch == []
  {
    SumRemove(Load(threads), threads.Keys, id);
  }

  /** `Wait` returns: nothing is queued or in flight, and the flag tells the truth. */
  lemma ReturnKeeps(eval: Check -> bool, s: State)
    requires MidInv(eval, s, MASTER) && s.queue == [] && s.nTodo == 0
    ensures Inv(eval, Proceed(s, MASTER))
    ensures s.allOk <==> !Fails(eval, s.added)
  {
    hide Sum, Sleeping, Inside, ResultOk, HistoryOk, Fails;
    var t := Proceed(s, MASTER);
    AllIdle(eval, s);
    LoadChange(s.threads, MASTER, Outside);
    SetsChange(s.threads, MASTER, Outside);
    ReturnResult(eval, s, t);
    HistoryGrows(eval, s, t);
  }

  lemma ReturnResult(eval: Check -> bool, s: State, t: State)
    requires ResultOk(eval, s) && s.queue == [] && MASTER in s.threads
    requires forall id :: id in s.threads ==> !s.threads[id].Working?
    requires t.queue == [] && t.added == [] && t.allOk && t.threads == s.threads[MASTER := Outside]
    ensures s.allOk <==> !Fails(eval, s.added)
    ensures ResultOk(eval, t)
  {
  }

  lemma HistoryGrows(eval: Check -> bool, s: State, t: State)
    requires HistoryOk(eval, s) && (s.allOk <==> !Fails(eval, s.added))
    requires t.history == s.history + [Outcome(s.allOk, s.added)]
    ensures HistoryOk(eval, t)
  {
  }

  lemma SleepKeeps(eval: Check -> bool, s: State, id: Id)
    requires MidInv(eval, s, id) && s.queue == [] && !(id == MASTER && s.nTodo == 0)
    ensures Inv(eval, Proceed(s, id))
  {
    hide Sum, Sleeping, Inside, ResultOk;
    var t := Proceed(s, id);
    LoadChange(s.threads, id, Waiting(false));
    SetsChange(s.threads, id, Waiting(false));
    CarriersKept(eval, s, t, id);
  }

  lemma PoppedElements(queue: seq<Check>, n: int, c: Check)
    requires 0 <= n <= |queue|
    ensures c in queue <==> c in queue[..|queue| - n] || c in Popped(queue, n)
  {
    if c in queue {
      var i :| 0 <= i < |queue| && queue[i] == c;
      if i < |queue| - n {
        assert queue[..|queue| - n][i] == c;
      } else {
        assert Popped(queue, n)[|queue| - 1 - i] == c;
      }
    }
  }

  lemma TakeKeeps(eval: Check -> bool, s: State, id: Id)
    requires MidInv(eval, s, id) && s.queue != []
    ensures Inv(eval, Proceed(s, id))
  {
    hide Sum, Sleeping, Inside, ResultOk;
    BatchFits(s);
    var n := BatchOf(s);
    var p := Working(Popped(s.queue, n), 0, s.allOk);
    LoadChange(s.threads, id, p);
    SetsChange(s.threads, id, p);
    TakeResult(eval, s, id, n);
  }

  lemma TakeResult(eval: Check -> bool, s: State, id: Id, n: int)
    requires ResultOk(eval, s) && id in s.threads && s.threads[id] == Entering && 0 <= n <= |s.queue|
    ensures ResultOk(eval, s.(queue := s.queue[..|s.queue| - n],
                              threads := s.threads[id := Working(Popped(s.queue, n), 0, s.allOk)]))
  {
    var p := Working(Popped(s.queue, n), 0, s.allOk);
    var t := s.(queue := s.queue[..|s.queue| - n], threads := s.threads[id := p]);
    forall c ensures c in s.queue <==> c in t.queue || c in p.batch {
      PoppedElements(s.queue, n, c);
    }
    assert p.batch[0..] == p.batch;
    forall c | c in t.added && !eval(c) && t.allOk && c !in t.queue
      ensures exists i :: i in t.threads && Carries(t.threads[i], c)
    {
      if c in p.batch {
        assert Carries(t.threads[id], c);
      } else {
        var i :| i in s.threads && Carries(s.threads[i], c);
        assert Carries(t.threads[i], c);
      }
    }
  }

  lemma ProceedKeeps(eval: Check -> bool, s: State, id: Id)
    requires MidInv(eval, s, id)
    ensures Inv(eval, Proceed(s, id))
  {
    hide MidInv, Inv, Proceed, BatchOf;
    if s.queue != [] {
      TakeKeeps(eval, s, id);
    } else if id == MASTER && s.nTodo == 0 {
      ReturnKeeps(eval, s);
    } else {
      SleepKeeps(eval, s, id);
    }
  }

  /** A thread after one more evaluation; once a check has failed, the rest is skipped. */
  function Evaluated(eval: Check -> bool, p: Place): Place
    requires p.Working? && p.done < |p.batch|
  {
    Working(p.batch, p.done + 1, p.ok && eval(p.batch[p.done]))
  }

  lemma EvaluatedCarries(eval: Check -> bool, p: Place, c: Check)
    requires p.Working? && p.done < |p.batch| && !eval(c) && Carries(p, c)
    ensures Carries(Evaluated(eval, p), c)
  {
    assert p.batch[p.done..] == [p.batch[p.done]] + p.batch[p.done + 1..];
  }

  lemma EvaluateResult(eval: Check -> bool, s: State, id: Id)
    requires ResultOk(eval, s) && Enabled(s, Evaluate(id))
    ensures ResultOk(eval, s.(threads := s.threads[id := Evaluated(eval, s.threads[id])]))
  {
    var p := s.threads[id];
    var t := s.(threads := s.threads[id := Evaluated(eval, p)]);
    assert p.batch[p.done] in p.batch;
    forall c | c in t.added && !eval(c) && t.allOk && c !in t.queue
      ensures exists i :: i in t.threads && Carries(t.threads[i], c)
    {
      var i :| i in s.threads && Carries(s.threads[i], c);
      if i == id {
        EvaluatedCarries(eval, p, c);
      }
      assert Carries(t.threads[i], c);
    }
  }

  lemma EvaluateCounts(eval: Check -> bool, s: State, id: Id)
    requires CountsOk(s) && Enabled(s, Evaluate(id))
    ensures CountsOk(s.(threads := s.threads[id := Evaluated(eval, s.threads[id])]))
  {
    hide Sum;
    var q := Evaluated(eval, s.threads[id]);
    LoadChange(s.threads, id, q);
    assert Sleeping(s.threads[id := q]) == Sleeping(s.threads);
    assert Inside(s.threads[id := q]) == Inside(s.threads);
  }

  lemma EvaluateKeeps(eval: Check -> bool, s: State, id: Id)
    requires Inv(eval, s) && Enabled(s, Evaluate(id))
    ensures Inv(eval, Do(eval, s, Evaluate(id)))
  {
    hide ResultOk, HistoryOk, CountsOk;
    EvaluateResult(eval, s, id);
    EvaluateCounts(eval, s, id);
    HistoryKept(eval, s, Do(eval, s, Evaluate(id)));
  }

  lemma HistoryKept(eval: Check -> bool, s: State, t: State)
    requires HistoryOk(eval, s) && t.history == s.history
    ensures HistoryOk(eval, t)
  {
  }

  lemma NotifiedSame(threads: map<Id, Place>, n: int, chosen: Id)
    ensures var after := Notified(threads, n, chosen);
      && after.Keys == threads.Keys
      && Sum(Load(after), after.Keys) == Sum(Load(threads), threads.Keys)
      && Sleeping(after) == Sleeping(threads) && Inside(after) == Inside(threads)
  {
    var after := Notified(threads, n, chosen);
    assert after.Keys == threads.Keys;
    SumCongruent(Load(after), Load(threads), threads.Keys);
  }

  lemma AddKeeps(eval: Check -> bool, s: State, checks: seq<Check>, chosen: Id)
    requires Inv(eval, s) && Enabled(s, Add(checks, chosen))
    ensures Inv(eval, Do(eval, s, Add(checks, chosen)))
  {
    hide Sum, Sleeping, Inside, HistoryOk, ResultOk;
    var t := Do(eval, s, Add(checks, chosen));
    NotifiedSame(s.threads, |checks|, chosen);
    HistoryKept(eval, s, t);
    AddResult(eval, s, checks, chosen, t);
  }

  lemma AddResult(eval: Check -> bool, s: State, checks: seq<Check>, chosen: Id, t: State)
    requires ResultOk(eval, s) && t.allOk == s.allOk && t.threads == Notified(s.threads, |checks|, chosen)
    requires t.queue == s.queue + checks && t.added == s.added + checks
    ensures ResultOk(eval, t)
  {
    forall c | c in t.added && !eval(c) && t.allOk && c !in t.queue
      ensures exists i :: i in t.threads && Carries(t.threads[i], c)
    {
      var i :| i in s.threads && Carries(s.threads[i], c);
      assert Carries(t.threads[i], c);
    }
    if Fails(eval, s.added) {
      var c :| c in s.added && !eval(c);
      assert c in t.added;
    }
  }

  lemma SpawnKeeps(eval: Check -> bool, s: State, id: Id)
    requires Inv(eval, s) && Enabled(s, Spawn(id))
    ensures Inv(eval, Do(eval, s, Spawn(id)))
  {
    hide ResultOk, HistoryOk, CountsOk, ThreadsOk;
    var t := Do(eval, s, Spawn(id));
    SpawnCounts(s, t, id);
    SpawnThreads(s, t, id);
    SpawnResult(eval, s, t, id);
    HistoryKept(eval, s, t);
  }

  lemma SpawnCounts(s: State, t: State, id: Id)
    requires CountsOk(s) && id !in s.threads && t == s.(threads := s.threads[id := Entering])
    ensures CountsOk(t)
  {
    hide Sum, Sleeping, Inside;
    LoadNew(s.threads, id, Entering);
    SpawnSets(s.threads, id);
  }

  lemma SpawnThreads(s: State, t: State, id: Id)
    requires ThreadsOk(s) && id !in s.threads && t == s.(threads := s.threads[id := Entering])
    ensures ThreadsOk(t)
  {
  }

  lemma SpawnSets(threads: map<Id, Place>, id: Id)
    requires id !in threads
    ensures Sleeping(threads[id := Entering]) == Sleeping(threads) && Inside(threads[id := Entering]) == Inside(threads)
  {
  }

  lemma SpawnResult(eval: Check -> bool, s: State, t: State, id: Id)
    requires ResultOk(eval, s) && id !in s.threads && t == s.(threads := s.threads[id := Entering])
    ensures ResultOk(eval, t)
  {
    forall c | c in t.added && !eval(c) && t.allOk && c !in t.queue
      ensures exists i :: i in t.threads && Carries(t.threads[i], c)
    {
      var i :| i in s.threads && Carries(s.threads[i], c);
      assert Carries(t.threads[i], c);
    }
  }

  lemma CallWaitKeeps(eval: Check -> bool, s: State)
    requires Inv(eval, s) && Enabled(s, CallWait)
    ensures Inv(eval, Do(eval, s, CallWait))
  {
    var t := s.(threads := s.threads[MASTER := Entering]);
    CarriersKept(eval, s, t, MASTER);
    hide ResultOk, HistoryOk, Sum, Sleeping, Inside;
    HistoryKept(eval, s, t);
    LoadChange(s.threads, MASTER, Entering);
    CallSets(s.threads);
  }

  lemma CallSets(threads: map<Id, Place>)
    requires MASTER in threads && threads[MASTER] == Outside
    ensures Sleeping(threads[MASTER := Entering]) == Sleeping(threads)
    ensures Inside(threads[MASTER := Entering]) == Inside(threads)
  {
  }

  /** Every step of every thread keeps the invariant. */
  lemma StepKeeps(eval: Check -> bool, s: State, a: Action)
    requires Inv(eval, s) && Enabled(s, a)
    ensures Inv(eval, Do(eval, s, a))
  {
    match a {
      case Spawn(w) => SpawnKeeps(eval, s, w);
      case Add(checks, chosen) => AddKeeps(eval, s, checks, chosen);
      case CallWait => CallWaitKeeps(eval, s);
      case Evaluate(id) => EvaluateKeeps(eval, s, id);
      case Lock(id) => CriticalKeeps(eval, s, a, id);
      case Wake(id) => CriticalKeeps(eval, s, a, id);
      case Finish(id) => CriticalKeeps(eval, s, a, id);
    }
  }

  lemma CriticalKeeps(eval: Check -> bool, s: State, a: Action, id: Id)
    requires Inv(eval, s) && Enabled(s, a) && (a == Lock(id) || a == Wake(id) || a == Finish(id))
    ensures Inv(eval, Do(eval, s, a))
  {
    hide Inv, MidInv, Proceed, BatchOf, Transit;
    Locked(eval, s, a, id);
    ProceedKeeps(eval, Transit(s, a, id), id);
  }

  // Runs.

  /** Every step of a run is enabled when it is taken. */
  predicate IsRun(eval: Check -> bool, s: State, run: seq<Action>)
    decreases |run|
  {
    run != [] ==> Enabled(s, run[0]) && IsRun(eval, Do(eval, s, run[0]), run[1..])
  }

  function After(eval: Check -> bool, s: State, run: seq<Action>): State
    decreases |run|
  {
    if run == [] then s else After(eval, Do(eval, s, run[0]), run[1..])
  }

  lemma InitInv(eval: Check -> bool, batchSize: nat)
    ensures Inv(eval, Init(batchSize))
  {
    var threads := Init(batchSize).threads;
    SumRemove(Load(threads), threads.Keys, MASTER);
    assert threads.Keys - {MASTER} == {};
    assert Sleeping(threads) == {} && Inside(threads) == {};
  }

  lemma {:induction false} RunKeeps(eval: Check -> bool, s: State, run: seq<Action>)
    requires Inv(eval, s) && IsRun(eval, s, run)
    ensures Inv(eval, After(eval, s, run))
    decreases |run|
  {
    if run != [] {
      StepKeeps(eval, s, run[0]);
      RunKeeps(eval, Do(eval, s, run[0]), run[1..]);
    }
  }

  /** The step needs no spurious wake-up. */
  predicate CanGoOn(s: State, a: Action) {
    Enabled(s, a) && (a.Lock? || a.Evaluate? || a.Finish? || (a.Wake? && s.threads[a.id] == Waiting(true)))
  }

  lemma {:induction false} SomeLoad(threads: map<Id, Place>, keys: set<Id>) returns (id: Id)
    requires keys <= threads.Keys && Sum(Load(threads), keys) > 0
    ensures id in threads && threads[id].Working?
    decreases keys
  {
    NonEmpty(keys);
    id :| id in keys;
    if !threads[id].Working? {
      SumRemove(Load(threads), keys, id);
      id := SomeLoad(threads, keys - {id});
    }
  }

  /** While the master is in `Wait`, some thread can go on. */
  lemma NeverStuck(s: State)
    requires CountsOk(s) && ThreadsOk(s) && s.threads[MASTER] != Outside
    ensures exists a :: CanGoOn(s, a)
  {
    var id := MASTER;
    if s.threads[MASTER] == Waiting(false) {
      id := SomeLoad(s.threads, s.threads.Keys);
    }
    match s.threads[id] {
      case Entering => assert CanGoOn(s, Lock(id));
      case Waiting(_) => assert CanGoOn(s, Wake(id));
      case Working(batch, done, _) =>
        assert CanGoOn(s, if done < |batch| then Evaluate(id) else Finish(id));
    }
  }

  // What each wait answers for.

  /**
   * The checks by the call of `Wait` that they were added for, as the actions of a run alone tell: those
   * before the first call, those between the first two calls, and so on, and those after the last one.
   */
  function Batches(before: seq<seq<Check>>, run: seq<Action>): (r: seq<seq<Check>>)
    requires before != []
    ensures r != []
    decreases |run|
  {
    if run == [] then before else Batches(NextBatches(before, run[0]), run[1..])
  }

  function NextBatches(before: seq<seq<Check>>, a: Action): (r: seq<seq<Check>>)
    requires before != []
    ensures r != []
  {
    var last := |before| - 1;
    match a
    case Add(checks, _) => before[last := before[last] + checks]
    case CallWait => before + [[]]
    case _ => before
  }

  /** The returns so far answer for the first batches, in order, and the next batch is what was added since. */
  ghost predicate Answers(s: State, batches: seq<seq<Check>>) {
    && MASTER in s.threads
    && |batches| == |s.history| + (if s.threads[MASTER] == Outside then 1 else 2)
    && (forall k :: 0 <= k < |s.history| ==> s.history[k].checks == batches[k])
    && s.added == batches[|s.history|]
    && (s.threads[MASTER] != Outside ==> batches[|batches| - 1] == [])
  }

  lemma StepAnswers(eval: Check -> bool, s: State, a: Action, batches: seq<seq<Check>>)
    requires batches != [] && Answers(s, batches) && Enabled(s, a)
    ensures Answers(Do(eval, s, a), NextBatches(batches, a))
  {
    hide BatchOf, Popped;
  }

  lemma {:induction false} RunAnswers(eval: Check -> bool, s: State, run: seq<Action>, batches: seq<seq<Check>>)
    requires batches != [] && Answers(s, batches) && IsRun(eval, s, run)
    ensures Answers(After(eval, s, run), Batches(batches, run))
    decreases |run|
  {
    hide Answers, Do, Enabled, NextBatches;
    if run != [] {
      StepAnswers(eval, s, run[0], batches);
      RunAnswers(eval, Do(eval, s, run[0]), run[1..], NextBatches(batches, run[0]));
    }
  }

  /** Between two waits the master can add any checks, and wait again. */
  lemma MasterIsFree(s: State, batches: seq<seq<Check>>, checks: seq<Check>)
    requires Answers(s, batches) && |batches| == |s.history| + 1
    ensures Enabled(s, CallWait) && exists chosen :: Enabled(s, Add(checks, chosen))
  {
    var chosen := MASTER;
    if Asleep(s.threads) != {} {
      chosen := AnyOf(Asleep(s.threads));
    }
    assert Enabled(s, Add(checks, chosen));
  }

  ghost predicate SomeAwake(threads: map<Id, Place>) {
    exists id :: id in threads && id != MASTER && threads[id] != Waiting(false)
  }

  /** While checks are queued, not all workers are asleep. */
  ghost predicate WorkersAwake(s: State) {
    s.queue != [] && Asleep(s.threads) != {} ==> SomeAwake(s.threads)
  }

  lemma StepAwake(eval: Check -> bool, s: State, a: Action)
    requires WorkersAwake(s) && Enabled(s, a) && MASTER in s.threads
    ensures WorkersAwake(Do(eval, s, a)) && MASTER in Do(eval, s, a).threads
  {
    match a {
      case Spawn(w) => assert Do(eval, s, a).threads[w] != Waiting(false);
      case Add(checks, chosen) => AddAwakes(eval, s, checks, chosen);
      case CallWait => OnlyMaster(s.threads, Do(eval, s, a).threads);
      case Evaluate(id) => WorkAwake(s.threads, Do(eval, s, a).threads, id);
      case Lock(id) => CriticalAwake(eval, s, a, id);
      case Wake(id) => CriticalAwake(eval, s, a, id);
      case Finish(id) => CriticalAwake(eval, s, a, id);
    }
  }

  lemma AddAwakes(eval: Check -> bool, s: State, checks: seq<Check>, chosen: Id)
    requires WorkersAwake(s) && Enabled(s, Add(checks, chosen))
    ensures WorkersAwake(Do(eval, s, Add(checks, chosen)))
  {
    var t := Do(eval, s, Add(checks, chosen));
    assert forall id :: id in Asleep(t.threads) ==> id in Asleep(s.threads);
    if |checks| == 0 {
      assert t.threads == s.threads;
    } else if |checks| == 1 && Asleep(t.threads) != {} {
      assert t.threads[chosen] == Waiting(true);
    }
  }

  lemma OnlyMaster(s: map<Id, Place>, t: map<Id, Place>)
    requires t.Keys == s.Keys && forall id :: id in s && id != MASTER ==> t[id] == s[id]
    ensures Asleep(t) == Asleep(s) && (SomeAwake(s) ==> SomeAwake(t))
  {
    if SomeAwake(s) {
      var id :| id in s && id != MASTER && s[id] != Waiting(false);
      assert t[id] != Waiting(false);
    }
  }

  lemma WorkAwake(s: map<Id, Place>, t: map<Id, Place>, id: Id)
    requires id in s && t.Keys == s.Keys && t[id].Working?
    requires forall i :: i in s && i != id && i != MASTER ==> t[i] == s[i]
    ensures id != MASTER ==> SomeAwake(t)
    ensures id == MASTER ==> Asleep(t) == Asleep(s) && (SomeAwake(s) ==> SomeAwake(t))
  {
    if id == MASTER {
      OnlyMaster(s, t);
    } else {
      assert t[id] != Waiting(false);
    }
  }

  lemma CriticalAwake(eval: Check -> bool, s: State, a: Action, id: Id)
    requires WorkersAwake(s) && Enabled(s, a) && MASTER in s.threads
    requires a == Lock(id) || a == Wake(id) || a == Finish(id)
    ensures WorkersAwake(Do(eval, s, a)) && MASTER in Do(eval, s, a).threads
  {
    hide BatchOf, Popped;
    var t := Do(eval, s, a);
    if t.queue != [] {
      WorkAwake(s.threads, t.threads, id);
    }
  }

  lemma {:induction false} RunAwake(eval: Check -> bool, s: State, run: seq<Action>)
    requires WorkersAwake(s) && MASTER in s.threads && IsRun(eval, s, run)
    ensures WorkersAwake(After(eval, s, run))
    decreases |run|
  {
    hide WorkersAwake, Do, Enabled;
    if run != [] {
      StepAwake(eval, s, run[0]);
      RunAwake(eval, Do(eval, s, run[0]), run[1..]);
    }
  }

  /**
   * The queue is correct in every interleaving. Whatever a run from the start has done, the calls of
   * `Wait` that returned answer, in order, for the checks added before the first call, between the
   * first two, and so on, and each answer is whether all these checks hold. The number to do is what
   * is queued or in flight; a sleeping master that nobody has notified still has work to wait for; as
   * long as the master is in `Wait`, some thread can go on without a spurious wake-up; and while
   * checks are queued, not all workers are asleep.
   */
  lemma EveryRun(eval: Check -> bool, batchSize: nat, run: seq<Action>)
    requires IsRun(eval, Init(batchSize), run)
    ensures var s, batches := After(eval, Init(batchSize), run), Batches([[]], run);
      && Answers(s, batches)
      && (forall k :: 0 <= k < |s.history| ==> (s.history[k].result <==> !Fails(eval, batches[k])))
      && CountsOk(s) && WorkersAwake(s)
      && (s.threads[MASTER] == Waiting(false) ==> s.nTodo > 0)
      && (s.threads[MASTER] != Outside ==> exists a :: CanGoOn(s, a))
  {
    assert Answers(Init(batchSize), [[]]) && WorkersAwake(Init(batchSize));
    RunAnswers(eval, Init(batchSize), run, [[]]);
    RunAwake(eval, Init(batchSize), run);
    hide After, IsRun, CountsOk, CanGoOn, ResultOk, Batches, WorkersAwake;
    InitInv(eval, batchSize);
    RunKeeps(eval, Init(batchSize), run);
    var s := After(eval, Init(batchSize), run);
    if s.threads[MASTER] != Outside {
      NeverStuck(s);
    }
  }

  lemma ReturnsAt(eval: Check -> bool, s: State, a: Action)
    requires Enabled(s, a) && |Do(eval, s, a).history| > |s.history|
    ensures a == Lock(MASTER) || a == Wake(MASTER) || a == Finish(MASTER)
    ensures var u := Transit(s, a, MASTER);
      && u.queue == [] && u.nTodo == 0 && u.added == s.added && u.history == s.history
      && Do(eval, s, a) == Proceed(u, MASTER)
  {
  }

  /** When `Wait` returns, nothing is queued or in flight any more, and the answer is about everything added. */
  lemma WaitIsFinal(eval: Check -> bool, s: State, a: Action)
    requires Inv(eval, s) && Enabled(s, a) && |Do(eval, s, a).history| > |s.history|
    ensures var t := Do(eval, s, a);
      && t.history == s.history + [Outcome(!Fails(eval, s.added), s.added)]
      && t.queue == [] && t.nTodo == 0 && MASTER in t.threads && t.threads[MASTER] == Outside
      && t.added == [] && t.allOk
      && (forall id :: id in t.threads ==> !t.threads[id].Working?)
  {
    ReturnsAt(eval, s, a);
    hide Inv, Transit, Enabled, Do, ThreadsOk, ResultOk, HistoryOk;
    var u := Transit(s, a, MASTER);
    Locked(eval, s, a, MASTER);
    ReturnKeeps(eval, u);
    AllIdle(eval, u);
  }

  lemma AllIdle(eval: Check -> bool, s: State)
    requires MidInv(eval, s, MASTER) && s.queue == [] && s.nTodo == 0
    ensures forall id :: id in s.threads ==> !s.threads[id].Working?
  {
    forall id | id in s.threads ensures !s.threads[id].Working? {
      NoLoad(s.threads, id);
    }
  }

  // How long a wait can take.

  /** What a thread still has to do: evaluations and passages through the critical section. */
  function Weight(p: Place): nat {
    match p
    case Outside => 0
    case Entering => 1
    case Waiting(notified) => if notified then 1 else 0
    case Working(batch, done, _) => (if done <= |batch| then |batch| - done else 0) + 2
  }

  function Cost(threads: map<Id, Place>): Id -> nat {
    (id: Id) => if id in threads then Weight(threads[id]) else 0
  }

  ghost function Measure(s: State): nat {
    4 * |s.queue| + Sum(Cost(s.threads), s.threads.Keys)
  }

  lemma CostChange(threads: map<Id, Place>, id: Id, p: Place)
    requires id in threads
    ensures Sum(Cost(threads[id := p]), threads[id := p].Keys) + Weight(threads[id]) ==
      Sum(Cost(threads), threads.Keys) + Weight(p)
  {
    hide Sum, Weight;
    var after := threads[id := p];
    var rest := threads.Keys - {id};
    assert after.Keys == threads.Keys;
    SumRemove(Cost(threads), threads.Keys, id);
    SumRemove(Cost(after), threads.Keys, id);
    SumCongruent(Cost(threads), Cost(after), rest);
  }

  /** The head of a critical section does not add to the work. */
  lemma TransitMeasure(s: State, a: Action, id: Id)
    requires CanGoOn(s, a) && (a == Lock(id) || a == Wake(id) || a == Finish(id))
    requires MASTER in s.threads
    ensures id in Transit(s, a, id).threads && Transit(s, a, id).threads[id] == Entering
    ensures Measure(Transit(s, a, id)) <= Measure(s)
  {
    hide Sum;
    if a.Wake? {
      CostChange(s.threads, id, Entering);
    } else if a.Finish? {
      var c := CleanedUp(s, id, s.threads[id].batch, s.threads[id].ok);
      CostChange(s.threads, MASTER, Waiting(true));
      CostChange(c.threads, id, Entering);
    }
  }

  /** Its end removes some. */
  lemma ProceedMeasure(s: State, id: Id)
    requires id in s.threads && s.threads[id] == Entering && s.nTotal >= 0 && s.nIdle >= 0
    ensures Measure(Proceed(s, id)) < Measure(s)
  {
    hide Sum;
    if s.queue == [] {
      CostChange(s.threads, id, if id == MASTER && s.nTodo == 0 then Outside else Waiting(false));
    } else {
      BatchFits(s);
      CostChange(s.threads, id, Working(Popped(s.queue, BatchOf(s)), 0, s.allOk));
    }
  }

  /** Every step that needs no spurious wake-up leaves less to do. */
  lemma StepDecreases(eval: Check -> bool, s: State, a: Action)
    requires Inv(eval, s) && CanGoOn(s, a)
    ensures Measure(Do(eval, s, a)) < Measure(s)
  {
    hide ResultOk, HistoryOk, Sum, Proceed, Transit, BatchOf;
    if a.Evaluate? {
      CostChange(s.threads, a.id, Evaluated(eval, s.threads[a.id]));
    } else {
      Locked(eval, s, a, a.id);
      TransitMeasure(s, a, a.id);
      ProceedMeasure(Transit(s, a, a.id), a.id);
    }
  }

  /** Every step of a run needs no spurious wake-up, and no thread is started and nothing added on the way. */
  predicate GoesOn(eval: Check -> bool, s: State, run: seq<Action>)
    decreases |run|
  {
    run != [] ==> CanGoOn(s, run[0]) && GoesOn(eval, Do(eval, s, run[0]), run[1..])
  }

  lemma {:induction false} RunEnds(eval: Check -> bool, s: State, run: seq<Action>)
    requires Inv(eval, s) && GoesOn(eval, s, run)
    ensures Inv(eval, After(eval, s, run)) && |run| + Measure(After(eval, s, run)) <= Measure(s)
    decreases |run|
  {
    hide Inv, Measure, Do, Enabled;
    if run != [] {
      CanGoOnIsEnabled(s, run[0]);
      StepKeeps(eval, s, run[0]);
      StepDecreases(eval, s, run[0]);
      RunEnds(eval, Do(eval, s, run[0]), run[1..]);
    }
  }

  lemma CanGoOnIsEnabled(s: State, a: Action)
    requires CanGoOn(s, a)
    ensures Enabled(s, a)
  {
  }

  /**
   * `Wait` returns, however the threads are scheduled: a run without spurious wake-ups has at most as many steps as
   * there is work, and one that cannot be continued has brought the master out.
   */
  lemma WaitReturns(eval: Check -> bool, s: State, run: seq<Action>)
    requires Inv(eval, s) && GoesOn(eval, s, run)
    ensures |run| <= Measure(s)
    ensures var t := After(eval, s, run);
      MASTER in t.threads && ((forall a :: !CanGoOn(t, a)) ==> t.threads[MASTER] == Outside)
  {
    hide After, GoesOn, Measure, CanGoOn, CountsOk, ResultOk, HistoryOk;
    RunEnds(eval, s, run);
    var t := After(eval, s, run);
    if t.threads[MASTER] != Outside {
      NeverStuck(t);
    }
  }
}
