/**
  The multi-level-queue scheduler as a function on values (src/sched.c:29-123,
  src/queue.c): 140 ready queues with slot budgets, and the list of running processes.
 */
module Mlq {
  import opened Collections

  const LEVELS: nat := 140
  const QUEUE_CAP: nat := 50

  /** A process control block: its identity and its priority. */
  datatype Proc = Proc(pid: nat, prio: nat)

  /** enqueue drops silently when the queue is full. */
  function Enqueued(q: seq<Proc>, p: Proc): seq<Proc> { if |q| < QUEUE_CAP then q + [p] else q }

  /** The budgets after a refill. */
  function FullSlots(): seq<nat> { seq(140, q requires 0 <= q < 140 => 140 - q) }

  datatype Sched = Sched(queues: seq<seq<Proc>>, slot: seq<nat>, running: seq<Proc>) {

    predicate Ok() {
      && |queues| == 140 && |slot| == 140
      && (forall q :: 0 <= q < 140 ==> slot[q] <= 140 - q)
    }

    predicate Eligible(q: nat)
      requires Ok() && q < 140
    {
      queues[q] != [] && slot[q] > 0
    }

    /** The smallest eligible priority from q on; 140 if there is none. */
    function FirstFrom(q: nat): (r: nat)
      requires Ok() && q <= 140
      ensures q <= r <= 140
      ensures r < 140 ==> Eligible(r)
      ensures forall i :: q <= i < r ==> !Eligible(i)
      decreases 140 - q
    {
      if q == 140 || Eligible(q) then q else FirstFrom(q + 1)
    }

    predicate AnyReady()
      requires Ok()
    {
      exists q :: 0 <= q < 140 && queues[q] != []
    }

    /** get_mlq_proc */
    function Get(): (Sched, Option<Proc>)
      requires Ok()
    {
      var q := FirstFrom(0);
      if q < 140 then
        var p := queues[q][0];
        (Sched(queues[q := queues[q][1..]], slot[q := slot[q] - 1], Enqueued(running, p)), Some(p))
      else if AnyReady() then (this.(slot := FullSlots()), None)
      else (this, None)
    }

    /** add_mlq_proc */
    function Add(p: Proc): Sched
      requires Ok() && p.prio < 140
    {
      this.(queues := queues[p.prio := Enqueued(queues[p.prio], p)])
    }

    /** put_mlq_proc */
    function Put(p: Proc): Sched
      requires Ok() && p.prio < 140
    {
      this.(running := Without(running, p), queues := queues[p.prio := Enqueued(queues[p.prio], p)])
    }
  }

  /** init_scheduler */
  function Init(): Sched { Sched(seq(140, _ => []), FullSlots(), []) }

  /** get_mlq_proc, case by case. */
  lemma GetCases(s: Sched)
    requires s.Ok()
    ensures var q := s.FirstFrom(0);
            && (q < 140 ==> s.Get().1 == Some(s.queues[q][0]))
            && (q < 140 ==> s.Get().0 == Sched(s.queues[q := s.queues[q][1..]], s.slot[q := s.slot[q] - 1],
                                               Enqueued(s.running, s.queues[q][0])))
            && (q == 140 ==> s.Get().1 == None && s.Get().0 == if s.AnyReady() then s.(slot := FullSlots()) else s)
  {
  }

  /** add_mlq_proc: the process becomes the last of the queue of its priority, unless 50 are
      there; nothing else changes. */
  lemma AddMeans(s: Sched, p: Proc)
    requires s.Ok() && p.prio < 140
    ensures var q := s.queues[p.prio];
            s.Add(p) == s.(queues := s.queues[p.prio := if |q| < 50 then q + [p] else q])
  {
  }

  /** put_mlq_proc: the same, and the first entry for the process leaves the list of running
      ones; the others stay there in their order. */
  lemma PutMeans(s: Sched, p: Proc) returns (i: nat)
    requires s.Ok() && p.prio < 140
    ensures s.Put(p).slot == s.slot && s.Put(p).queues == s.Add(p).queues
    ensures i <= |s.running| && p !in s.running[..i] && (i < |s.running| ==> s.running[i] == p)
    ensures s.Put(p).running == if i < |s.running| then s.running[..i] + s.running[i + 1..] else s.running
  {
    i := 0;
    while i < |s.running| && s.running[i] != p
      invariant i <= |s.running| && p !in s.running[..i]
    {
      i := i + 1;
    }
    WithoutAt(s.running, p, i);
  }

  // ---- Events -------------------------------------------------------------------------

  datatype Event = GetCall | PutCall(p: Proc) | AddCall(p: Proc)

  predicate Fit(e: Event) { e.GetCall? || e.p.prio < 140 }

  function After(s: Sched, e: Event): (s': Sched)
    requires s.Ok() && Fit(e)
    ensures s'.Ok()
  {
    match e
    case GetCall => s.Get().0
    case PutCall(p) => s.Put(p)
    case AddCall(p) => s.Add(p)
  }

  /** The processes dispatched by a run of calls, in order. */
  function Dispatched(s: Sched, es: seq<Event>): seq<Proc>
    requires s.Ok() && forall i :: 0 <= i < |es| ==> Fit(es[i])
    decreases |es|
  {
    if es == [] then []
    else
      var rest := Dispatched(After(s, es[0]), es[1..]);
      if es[0].GetCall? && s.Get().1.Some? then [s.Get().1.value] + rest else rest
  }

  function Gets(es: seq<Event>): nat {
    if es == [] then 0 else (if es[0].GetCall? then 1 else 0) + Gets(es[1..])
  }

  // ---- Sums of budgets ------------------------------------------------------------------

  function Sum(s: seq<nat>): nat { if s == [] then 0 else s[0] + Sum(s[1..]) }

  lemma {:induction false} SumUpdate(s: seq<nat>, i: nat, x: nat)
    requires i < |s|
    ensures Sum(s[i := x]) + s[i] == Sum(s) + x
  {
    if i == 0 {
      assert s[0 := x][1..] == s[1..];
    } else {
      SumUpdate(s[1..], i - 1, x);
      assert s[i := x][1..] == s[1..][i - 1 := x];
    }
  }

  lemma {:induction false} SumLe(s: seq<nat>, t: seq<nat>)
    requires |s| == |t| && forall i :: 0 <= i < |s| ==> s[i] <= t[i]
    ensures Sum(s) <= Sum(t)
  {
    if s != [] { SumLe(s[1..], t[1..]); }
  }

  // ---- Bounded waiting ---------------------------------------------------------------------

  /** How many calls of get can pass before queue p is served. */
  function Wait(s: Sched, p: nat): nat
    requires s.Ok() && p < 140
  {
    if s.slot[p] > 0 then Sum(s.slot[..p]) + 1
    else Sum(s.slot) + 1 + Sum(FullSlots()[..p]) + 1
  }

  /** The same for any state: the budgets of all other levels, a refill, the budgets of
      the levels above p again, and the call that serves p. */
  function MaxWait(p: nat): nat
    requires p < 140
  {
    Sum(FullSlots()[p := 0]) + 1 + Sum(FullSlots()[..p]) + 1
  }

  lemma WaitBounded(s: Sched, p: nat)
    requires s.Ok() && p < 140
    ensures 1 <= Wait(s, p) <= MaxWait(p)
  {
    SumLe(s.slot[..p], FullSlots()[..p]);
    if s.slot[p] == 0 {
      SumLe(s.slot, FullSlots()[p := 0]);
    }
  }

  /** Spending budget of another level than p shortens the wait of p. */
  lemma SpendShortens(s: Sched, s': Sched, p: nat, q: nat)
    requires s.Ok() && s'.Ok() && p < 140 && q < 140 && s.slot[q] > 0 && q != p
    requires s'.slot == s.slot[q := s.slot[q] - 1] && (s.slot[p] > 0 ==> q < p)
    ensures Wait(s', p) < Wait(s, p)
  {
    SumUpdate(s.slot, q, s.slot[q] - 1);
    if s.slot[p] > 0 {
      SumUpdate(s.slot[..p], q, s.slot[q] - 1);
      assert s'.slot[..p] == s.slot[..p][q := s.slot[q] - 1];
    }
  }

  /** A call of get serves queue p or brings its turn at least one call closer. */
  lemma GetCloser(s: Sched, p: nat)
    requires s.Ok() && p < 140 && s.queues[p] != []
    ensures var (s', r) := s.Get();
            && s'.Ok()
            && (|| (r == Some(s.queues[p][0]) && s'.queues[p] == s.queues[p][1..])
                || (s'.queues[p] == s.queues[p] && Wait(s', p) < Wait(s, p)))
  {
    var q := s.FirstFrom(0);
    assert s.slot[p] > 0 ==> s.Eligible(p);
    if q < 140 && q != p {
      SpendShortens(s, s.Get().0, p, q);
    } else if q == 140 {
      assert !s.Eligible(p);
    }
  }

  /** Other calls leave the front of a queue and all budgets alone. */
  lemma PutsKeepWait(s: Sched, e: Event, p: nat, k: nat)
    requires s.Ok() && Fit(e) && !e.GetCall? && p < 140 && k < |s.queues[p]|
    ensures After(s, e).slot == s.slot && k < |After(s, e).queues[p]| && After(s, e).queues[p][k] == s.queues[p][k]
  {
  }

  /**
    Bounded waiting.  Whatever calls of put and add come in between, the process at
    position k of ready queue p is dispatched within Wait(s, p) + k * MaxWait(p) calls of
    get; its head within Wait(s, p).
   */
  lemma {:induction false} BoundedWaiting(s: Sched, es: seq<Event>, p: nat, k: nat)
    requires s.Ok() && (forall i :: 0 <= i < |es| ==> Fit(es[i]))
    requires p < 140 && k < |s.queues[p]| && Gets(es) >= Wait(s, p) + k * MaxWait(p)
    ensures s.queues[p][k] in Dispatched(s, es)
    decreases |es|
  {
    WaitBounded(s, p);
    WaitTimes(k, MaxWait(p));
    if es != [] {
      var s' := After(s, es[0]);
      if es[0].GetCall? {
        GetCloser(s, p);
        if s'.queues[p] == s.queues[p] && Wait(s', p) < Wait(s, p) {
          BoundedWaiting(s', es[1..], p, k);
        } else if k > 0 {
          WaitBounded(s', p);
          BoundedWaiting(s', es[1..], p, k - 1);
        }
      } else {
        PutsKeepWait(s, es[0], p, k);
        BoundedWaiting(s', es[1..], p, k);
      }
    }
  }

  lemma WaitTimes(k: nat, w: nat)
    ensures k * w >= 0 && (k > 0 ==> k * w == (k - 1) * w + w)
  {
  }

  /** In numbers that do not depend on the state: position k waits at most k + 1 times
      MaxWait(p). */
  lemma BoundedWaitingAnyState(s: Sched, es: seq<Event>, p: nat, k: nat)
    requires s.Ok() && (forall i :: 0 <= i < |es| ==> Fit(es[i]))
    requires p < 140 && k < |s.queues[p]| && Gets(es) >= (k + 1) * MaxWait(p)
    ensures s.queues[p][k] in Dispatched(s, es)
  {
    WaitBounded(s, p);
    WaitTimes(k + 1, MaxWait(p));
    BoundedWaiting(s, es, p, k);
  }

  // ---- Budgets per epoch ----------------------------------------------------------------------

  /** The priority a call of get takes its process from. */
  predicate DispatchesFrom(s: Sched, q: nat)
    requires s.Ok() && q < 140
  {
    s.Eligible(q) && forall r :: 0 <= r < q ==> !s.Eligible(r)
  }

  /** What a call of get does: it serves the smallest eligible priority, oldest process
      first; it refills exactly when processes are ready but all their budgets are spent;
      and it returns nothing exactly when no priority is eligible. */
  lemma GetServes(s: Sched)
    requires s.Ok()
    ensures var (s', r) := s.Get();
            && (r.Some? <==> exists q :: 0 <= q < 140 && DispatchesFrom(s, q))
            && (forall q :: 0 <= q < 140 && DispatchesFrom(s, q) ==>
                  && r == Some(s.queues[q][0])
                  && s'.queues == s.queues[q := s.queues[q][1..]] && s'.slot == s.slot[q := s.slot[q] - 1]
                  && s'.running == if |s.running| < 50 then s.running + [s.queues[q][0]] else s.running)
            && (r.None? ==> s'.queues == s.queues && s'.running == s.running)
            && (r.None? && s.AnyReady() ==> s'.slot == FullSlots())
            && (r.None? ==> forall q :: 0 <= q < 140 && s.queues[q] != [] ==> s.slot[q] == 0)
            && (r.None? && !s.AnyReady() ==> s' == s)
  {
    var q := s.FirstFrom(0);
    if q < 140 {
      assert DispatchesFrom(s, q);
    } else {
      forall i | 0 <= i < 140 && s.queues[i] != [] ensures s.slot[i] == 0 {
        assert !s.Eligible(i);
      }
    }
  }

  /** The dispatches per priority since the last refill, after one more call. */
  function Count(s: Sched, counts: seq<nat>, e: Event): seq<nat>
    requires s.Ok() && |counts| == 140
  {
    if !e.GetCall? then counts
    else
      var q := s.FirstFrom(0);
      if q < 140 then counts[q := counts[q] + 1] else if s.AnyReady() then seq(140, _ => 0) else counts
  }

  function CountAll(s: Sched, counts: seq<nat>, es: seq<Event>): (Sched, seq<nat>)
    requires s.Ok() && |counts| == 140 && forall i :: 0 <= i < |es| ==> Fit(es[i])
    decreases |es|
  {
    if es == [] then (s, counts) else CountAll(After(s, es[0]), Count(s, counts, es[0]), es[1..])
  }

  /** Slot-epoch budget: in every run from start-up, what is left of a budget plus what was
      dispatched since the last refill is 140 minus the priority. */
  lemma {:induction false} EpochBudget(s: Sched, counts: seq<nat>, es: seq<Event>)
    requires s.Ok() && |counts| == 140 && (forall i :: 0 <= i < |es| ==> Fit(es[i]))
    requires forall q :: 0 <= q < 140 ==> s.slot[q] + counts[q] == 140 - q
    ensures var (s', counts') := CountAll(s, counts, es);
            s'.Ok() && |counts'| == 140 && forall q :: 0 <= q < 140 ==> s'.slot[q] + counts'[q] == 140 - q
    decreases |es|
  {
    if es != [] {
      EpochBudget(After(s, es[0]), Count(s, counts, es[0]), es[1..]);
    }
  }
}
