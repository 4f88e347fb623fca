/**
  The loader and the CPUs as clients of the scheduler (src/os.c:50-101, 140-182).  One
  step is one critical section of a CPU or of the loader.  How long a process runs and
  when it ends is left open: a CPU at its loop head may keep, put back or finish the
  process it holds.
 */
module Dispatch {
  import opened Collections
  import opened Mlq

  /** Idle: at the loop head without a process.  Holding: with a process.  Switching: has
      put back or finished its process and is about to ask for the next.  Stopped: left. */
  datatype Cpu = Idle | Holding(proc: Proc) | Switching | Stopped

  datatype Os = Os(sched: Sched, cpus: seq<Cpu>, loaded: seq<Proc>, finished: seq<Proc>, done: bool)

  datatype Step = Load(p: Proc) | LoaderDone | Ask(c: nat) | PutBack(c: nat) | Finish(c: nat)

  predicate Enabled(s: Os, step: Step)
    requires s.sched.Ok()
  {
    match step
    case Load(p) => p.prio < 140 && p !in s.loaded && |s.loaded| < 50 && !s.done
    case LoaderDone => !s.done
    case Ask(c) => c < |s.cpus| && (s.cpus[c] == Idle || s.cpus[c] == Switching)
    case PutBack(c) => c < |s.cpus| && s.cpus[c].Holding? && s.cpus[c].proc.prio < 140
    case Finish(c) => c < |s.cpus| && s.cpus[c].Holding?
  }

  function Next(s: Os, step: Step): Os
    requires s.sched.Ok() && Enabled(s, step)
  {
    match step
    case Load(p) => s.(sched := s.sched.Add(p), loaded := s.loaded + [p])
    case LoaderDone => s.(done := true)
    case Ask(c) =>
      var (sched', r) := s.sched.Get();
      // A CPU that was idle goes back to sleep without looking at done.
      var cpu := match r case Some(p) => Holding(p)
                         case None => if s.cpus[c] == Switching && s.done then Stopped else Idle;
      s.(sched := sched', cpus := s.cpus[c := cpu])
    case PutBack(c) => s.(sched := s.sched.Put(s.cpus[c].proc), cpus := s.cpus[c := Switching])
    case Finish(c) => s.(finished := s.finished + [s.cpus[c].proc], cpus := s.cpus[c := Switching])
  }

  // ---- Where the processes are ------------------------------------------------------------

  /** How often process x occurs in a list, is held by a CPU, is in a ready queue. */
  function In(s: seq<Proc>, x: Proc): nat { multiset(s)[x] }

  function HeldBy(cpu: Cpu, x: Proc): nat { if cpu == Holding(x) then 1 else 0 }

  function Held(cpus: seq<Cpu>, x: Proc): nat {
    if cpus == [] then 0 else HeldBy(cpus[0], x) + Held(cpus[1..], x)
  }

  function Queued(queues: seq<seq<Proc>>, x: Proc): nat {
    if queues == [] then 0 else In(queues[0], x) + Queued(queues[1..], x)
  }

  function Busy(cpus: seq<Cpu>): nat {
    if cpus == [] then 0 else (if cpus[0].Holding? then 1 else 0) + Busy(cpus[1..])
  }

  function Ready(queues: seq<seq<Proc>>): nat {
    if queues == [] then 0 else |queues[0]| + Ready(queues[1..])
  }

  lemma {:induction false} CpuUpdate(cpus: seq<Cpu>, c: nat, cpu: Cpu, x: Proc)
    requires c < |cpus|
    ensures Held(cpus[c := cpu], x) + HeldBy(cpus[c], x) == Held(cpus, x) + HeldBy(cpu, x)
    ensures Busy(cpus[c := cpu]) + (if cpus[c].Holding? then 1 else 0) == Busy(cpus) + if cpu.Holding? then 1 else 0
  {
    if c == 0 {
      assert cpus[0 := cpu][1..] == cpus[1..];
    } else {
      CpuUpdate(cpus[1..], c - 1, cpu, x);
      assert cpus[c := cpu][1..] == cpus[1..][c - 1 := cpu];
    }
  }

  lemma {:induction false} QueueUpdate(queues: seq<seq<Proc>>, i: nat, q: seq<Proc>, x: Proc)
    requires i < |queues|
    ensures Queued(queues[i := q], x) + In(queues[i], x) == Queued(queues, x) + In(q, x)
    ensures Ready(queues[i := q]) + |queues[i]| == Ready(queues) + |q|
  {
    if i == 0 {
      assert queues[0 := q][1..] == queues[1..];
    } else {
      QueueUpdate(queues[1..], i - 1, q, x);
      assert queues[i := q][1..] == queues[1..][i - 1 := q];
    }
  }

  lemma {:induction false} ReadyAtLeast(queues: seq<seq<Proc>>, i: nat)
    requires i < |queues|
    ensures |queues[i]| <= Ready(queues)
  {
    if i > 0 { ReadyAtLeast(queues[1..], i - 1); }
  }

  lemma InSnoc(s: seq<Proc>, p: Proc, x: Proc)
    ensures In(s + [p], x) == In(s, x) + if p == x then 1 else 0
  {
  }

  lemma InTail(s: seq<Proc>, x: Proc)
    requires s != []
    ensures In(s, x) == In(s[1..], x) + if s[0] == x then 1 else 0
  {
    assert s == [s[0]] + s[1..];
  }

  lemma {:induction false} InWithout(q: seq<Proc>, p: Proc, x: Proc)
    ensures In(Without(q, p), x) + (if p == x && In(q, p) > 0 then 1 else 0) == In(q, x)
    ensures In(q, p) > 0 ==> |Without(q, p)| == |q| - 1
  {
    if q != [] {
      InTail(q, x);
      InTail(q, p);
      InWithout(q[1..], p, x);
      if q[0] != p {
        var r := Without(q, p);
        assert r[1..] == Without(q[1..], p);
        InTail(r, x);
      }
    }
  }

  /** Every loaded process is exactly once in a ready queue, held by a CPU, or finished;
      and running_list lists the held and, because nobody removes them, the finished. */
  ghost predicate Counted(s: Os) { forall x :: Tally(s, x) }

  predicate Tally(s: Os, x: Proc) {
    && In(s.loaded, x) == Queued(s.sched.queues, x) + Held(s.cpus, x) + In(s.finished, x) <= 1
    && In(s.sched.running, x) == Held(s.cpus, x) + In(s.finished, x)
  }

  /** The same for the lengths, so that with 50 processes no list is ever full. */
  predicate Sized(s: Os) {
    && |s.loaded| == Ready(s.sched.queues) + Busy(s.cpus) + |s.finished| <= 50
    && |s.sched.running| == Busy(s.cpus) + |s.finished|
  }

  /** A ready queue holds only processes of its priority. */
  predicate Sorted(s: Os)
    requires s.sched.Ok()
  {
    && (forall q, i :: 0 <= q < 140 && 0 <= i < |s.sched.queues[q]| ==> s.sched.queues[q][i].prio == q)
    && (forall c :: 0 <= c < |s.cpus| && s.cpus[c].Holding? ==> s.cpus[c].proc.prio < 140)
  }

  ghost predicate Placed(s: Os) { s.sched.Ok() && Sorted(s) && Sized(s) && Counted(s) }

  function Start(cpus: nat): Os { Os(Init(), seq(cpus, _ => Idle), [], [], false) }

  lemma {:induction false} NoneHeld(cpus: seq<Cpu>, x: Proc)
    requires forall c :: 0 <= c < |cpus| ==> !cpus[c].Holding?
    ensures Held(cpus, x) == 0 && Busy(cpus) == 0
  {
    if cpus != [] { NoneHeld(cpus[1..], x); }
  }

  lemma {:induction false} NoneQueued(queues: seq<seq<Proc>>, x: Proc)
    requires forall q :: 0 <= q < |queues| ==> queues[q] == []
    ensures Queued(queues, x) == 0 && Ready(queues) == 0
  {
    if queues != [] { NoneQueued(queues[1..], x); }
  }

  lemma StartPlaced(cpus: nat)
    ensures Placed(Start(cpus))
  {
    forall x: Proc ensures Held(Start(cpus).cpus, x) == 0 && Busy(Start(cpus).cpus) == 0 {
      NoneHeld(Start(cpus).cpus, x);
    }
    forall x: Proc ensures Queued(Start(cpus).sched.queues, x) == 0 && Ready(Start(cpus).sched.queues) == 0 {
      NoneQueued(Start(cpus).sched.queues, x);
    }
    assert Held(Start(cpus).cpus, Proc(0, 0)) == 0 && Queued(Start(cpus).sched.queues, Proc(0, 0)) == 0;
  }

  lemma LoadSorted(s: Os, p: Proc)
    requires s.sched.Ok() && Sorted(s) && Enabled(s, Load(p))
    ensures Next(s, Load(p)).sched.Ok() && Sorted(Next(s, Load(p)))
  {
  }

  lemma LoadCounted(s: Os, p: Proc, s': Os)
    requires s.sched.Ok() && Sized(s) && Counted(s) && p.prio < 140 && p !in s.loaded && |s.loaded| < 50
    requires s'.sched.queues == s.sched.queues[p.prio := s.sched.queues[p.prio] + [p]]
    requires s'.sched.running == s.sched.running && s'.cpus == s.cpus && s'.finished == s.finished
    requires s'.loaded == s.loaded + [p]
    ensures Sized(s') && Counted(s')
  {
    var q := s.sched.queues[p.prio];
    QueueUpdate(s.sched.queues, p.prio, q + [p], p);
    forall x ensures Tally(s', x) {
      assert Tally(s, x);
      QueueUpdate(s.sched.queues, p.prio, q + [p], x);
      InSnoc(q, p, x);
      InSnoc(s.loaded, p, x);
    }
  }

  lemma LoadPlaced(s: Os, p: Proc)
    requires Placed(s) && Enabled(s, Load(p))
    ensures Placed(Next(s, Load(p)))
  {
    ReadyAtLeast(s.sched.queues, p.prio);
    LoadSorted(s, p);
    LoadCounted(s, p, Next(s, Load(p)));
  }

  /** Asking hands the head of queue i to CPU c. */
  lemma AskCounted(s: Os, c: nat, i: nat, s': Os)
    requires s.sched.Ok() && Sized(s) && Counted(s) && c < |s.cpus| && !s.cpus[c].Holding?
    requires i < 140 && s.sched.queues[i] != [] && |s.sched.running| < 50
    requires var q := s.sched.queues[i];
             && s'.sched.queues == s.sched.queues[i := q[1..]] && s'.sched.running == s.sched.running + [q[0]]
             && s'.cpus == s.cpus[c := Holding(q[0])] && s'.loaded == s.loaded && s'.finished == s.finished
    ensures Sized(s') && Counted(s')
  {
    var q := s.sched.queues[i];
    QueueUpdate(s.sched.queues, i, q[1..], q[0]);
    CpuUpdate(s.cpus, c, Holding(q[0]), q[0]);
    forall x ensures Tally(s', x) {
      assert Tally(s, x);
      CpuUpdate(s.cpus, c, Holding(q[0]), x);
      QueueUpdate(s.sched.queues, i, q[1..], x);
      InTail(q, x);
      InSnoc(s.sched.running, q[0], x);
    }
  }

  /** A CPU that gets nothing changes no count. */
  lemma NothingCounted(s: Os, c: nat, cpu: Cpu)
    requires Sized(s) && Counted(s) && c < |s.cpus| && !s.cpus[c].Holding? && !cpu.Holding?
    ensures Sized(s.(cpus := s.cpus[c := cpu])) && Counted(s.(cpus := s.cpus[c := cpu]))
  {
    CpuUpdate(s.cpus, c, cpu, Proc(0, 0));
    var s' := s.(cpus := s.cpus[c := cpu]);
    forall x ensures Tally(s', x) {
      assert Tally(s, x);
      CpuUpdate(s.cpus, c, cpu, x);
    }
  }

  lemma AskSorted(s: Os, c: nat)
    requires s.sched.Ok() && Sorted(s) && Enabled(s, Ask(c))
    ensures Next(s, Ask(c)).sched.Ok() && Sorted(Next(s, Ask(c)))
  {
  }

  lemma AskPlaced(s: Os, c: nat)
    requires Placed(s) && Enabled(s, Ask(c))
    ensures Placed(Next(s, Ask(c)))
  {
    var s' := Next(s, Ask(c));
    AskSorted(s, c);
    var i := s.sched.FirstFrom(0);
    if i < 140 {
      ReadyAtLeast(s.sched.queues, i);
      AskCounted(s, c, i, s');
    } else {
      NothingCounted(s, c, s'.cpus[c]);
      var t := s.(cpus := s.cpus[c := s'.cpus[c]]);
      SameCounts(t, s');
    }
  }

  lemma SameCounts(s: Os, s': Os)
    requires Sized(s) && Counted(s) && s'.cpus == s.cpus && s'.loaded == s.loaded && s'.finished == s.finished
    requires s'.sched.queues == s.sched.queues && s'.sched.running == s.sched.running
    ensures Sized(s') && Counted(s')
  {
    forall x ensures Tally(s', x) { assert Tally(s, x); }
  }

  lemma PutBackSorted(s: Os, c: nat)
    requires s.sched.Ok() && Sorted(s) && Enabled(s, PutBack(c))
    ensures Next(s, PutBack(c)).sched.Ok() && Sorted(Next(s, PutBack(c)))
  {
  }

  lemma PutBackCounted(s: Os, c: nat, p: Proc, s': Os)
    requires s.sched.Ok() && Sized(s) && Counted(s) && c < |s.cpus| && s.cpus[c] == Holding(p) && p.prio < 140
    requires s'.sched.queues == s.sched.queues[p.prio := s.sched.queues[p.prio] + [p]]
    requires s'.sched.running == Without(s.sched.running, p)
    requires s'.cpus == s.cpus[c := Switching] && s'.loaded == s.loaded && s'.finished == s.finished
    ensures Sized(s') && Counted(s')
  {
    var q := s.sched.queues[p.prio];
    assert Tally(s, p);
    HeldOnce(s.cpus, p, c);
    CpuUpdate(s.cpus, c, Switching, p);
    QueueUpdate(s.sched.queues, p.prio, q + [p], p);
    InWithout(s.sched.running, p, p);
    forall x ensures Tally(s', x) {
      assert Tally(s, x);
      CpuUpdate(s.cpus, c, Switching, x);
      QueueUpdate(s.sched.queues, p.prio, q + [p], x);
      InSnoc(q, p, x);
      InWithout(s.sched.running, p, x);
    }
  }

  lemma PutBackPlaced(s: Os, c: nat)
    requires Placed(s) && Enabled(s, PutBack(c))
    ensures Placed(Next(s, PutBack(c)))
  {
    var p := s.cpus[c].proc;
    PutBackSorted(s, c);
    ReadyAtLeast(s.sched.queues, p.prio);
    assert Busy(s.cpus) > 0 by { HeldOnce(s.cpus, p, c); }
    PutBackCounted(s, c, p, Next(s, PutBack(c)));
  }

  lemma FinishPlaced(s: Os, c: nat)
    requires Placed(s) && Enabled(s, Finish(c))
    ensures Placed(Next(s, Finish(c)))
  {
    var s' := Next(s, Finish(c));
    var p := s.cpus[c].proc;
    CpuUpdate(s.cpus, c, Switching, p);
    forall x ensures Tally(s', x) {
      assert Tally(s, x);
      CpuUpdate(s.cpus, c, Switching, x);
      InSnoc(s.finished, p, x);
    }
  }

  lemma StepPlaced(s: Os, step: Step)
    requires Placed(s) && Enabled(s, step)
    ensures Placed(Next(s, step))
  {
    match step
    case Load(p) => LoadPlaced(s, p);
    case LoaderDone => SameCounts(s, Next(s, LoaderDone));
    case Ask(c) => AskPlaced(s, c);
    case PutBack(c) => PutBackPlaced(s, c);
    case Finish(c) => FinishPlaced(s, c);
  }

  ghost predicate IsRun(s: Os, steps: seq<Step>)
    requires Placed(s)
    decreases |steps|
  {
    steps == [] || (Enabled(s, steps[0]) && (StepPlaced(s, steps[0]); IsRun(Next(s, steps[0]), steps[1..])))
  }

  ghost function Final(s: Os, steps: seq<Step>): (s': Os)
    requires Placed(s) && IsRun(s, steps)
    ensures Placed(s')
    decreases |steps|
  {
    if steps == [] then s else StepPlaced(s, steps[0]); Final(Next(s, steps[0]), steps[1..])
  }

  /**
    Process placement and exclusion, in every state of every run of up to 50 processes on
    any number of CPUs: a loaded process is in its own ready queue exactly once, or held by
    a CPU and listed in running_list, or finished, and only one of these; so none is lost,
    duplicated or run by two CPUs.
   */
  lemma PlacementAndExclusion(cpus: nat, steps: seq<Step>, p: Proc, c: nat, d: nat)
    requires Placed(Start(cpus)) && IsRun(Start(cpus), steps)
    ensures var s := Final(Start(cpus), steps);
            && (p in s.loaded ==> Queued(s.sched.queues, p) + Held(s.cpus, p) + In(s.finished, p) == 1)
            && (Queued(s.sched.queues, p) == 1 ==> p.prio < 140 && In(s.sched.queues[p.prio], p) == 1)
            && (Held(s.cpus, p) == 1 ==> In(s.sched.running, p) == 1)
            && (c < d < |s.cpus| && s.cpus[c] == Holding(p) ==> s.cpus[d] != Holding(p))
  {
    var s := Final(Start(cpus), steps);
    assert Tally(s, p);
    if Queued(s.sched.queues, p) == 1 { InOwnQueue(s.sched.queues, p, 0); }
    if c < d < |s.cpus| && s.cpus[c] == Holding(p) { HeldTwice(s.cpus, p, c, d); }
  }

  lemma {:induction false} InOwnQueue(queues: seq<seq<Proc>>, p: Proc, from: nat)
    requires forall q, i :: 0 <= q < |queues| && 0 <= i < |queues[q]| ==> queues[q][i].prio == q + from
    requires Queued(queues, p) == 1
    ensures from <= p.prio < from + |queues| && In(queues[p.prio - from], p) == 1
  {
    if In(queues[0], p) == 1 {
      assert p in queues[0];
    } else {
      InOwnQueue(queues[1..], p, from + 1);
    }
  }

  lemma {:induction false} HeldTwice(cpus: seq<Cpu>, p: Proc, c: nat, d: nat)
    requires c < d < |cpus| && Held(cpus, p) <= 1 && cpus[c] == Holding(p)
    ensures cpus[d] != Holding(p)
  {
    if c == 0 {
      if cpus[d] == Holding(p) { HeldOnce(cpus[1..], p, d - 1); }
    } else {
      HeldTwice(cpus[1..], p, c - 1, d - 1);
    }
  }

  lemma {:induction false} HeldOnce(cpus: seq<Cpu>, p: Proc, c: nat)
    requires c < |cpus| && cpus[c] == Holding(p)
    ensures Held(cpus, p) >= 1 && Busy(cpus) >= 1
  {
    if c > 0 { HeldOnce(cpus[1..], p, c - 1); }
  }

  // ---- When a CPU stops -----------------------------------------------------------------------

  /** Every process that is ready belongs to a level without budget. */
  predicate AllSpent(s: Sched)
    requires s.Ok()
  {
    forall q :: 0 <= q < 140 && s.queues[q] != [] ==> s.slot[q] == 0
  }

  /** A CPU stops on this call exactly when it has just given up a process, loading is over
      and no ready process has budget left; and it then leaves processes ready exactly if
      there are any. */
  lemma StopIff(s: Os, c: nat)
    requires Placed(s) && Enabled(s, Ask(c))
    ensures var s' := Next(s, Ask(c));
            && (s'.cpus[c] == Stopped <==> s.cpus[c] == Switching && s.done && AllSpent(s.sched))
            && (s'.cpus[c] == Stopped && s'.sched.AnyReady() <==>
                  s.cpus[c] == Switching && s.done && AllSpent(s.sched) && s.sched.AnyReady())
  {
    var i := s.sched.FirstFrom(0);
    if i < 140 {
      assert s.sched.Eligible(i);
    } else {
      forall q | 0 <= q < 140 && s.sched.queues[q] != [] ensures s.sched.slot[q] == 0 {
        assert !s.sched.Eligible(q);
      }
    }
  }

  /** The run of one CPU and one process of the lowest priority: it uses its one slot, is
      put back, and the call that follows refills the budgets instead of dispatching. */
  function Leaving(p: Proc): seq<Step> { [Load(p), LoaderDone, Ask(0), PutBack(0), Ask(0)] }

  /** The state after the first k steps of that run. */
  function LeavingAt(p: Proc, k: nat): Os {
    var queues := seq(140, _ => []);
    var ready := queues[139 := [p]];
    var spent := FullSlots()[139 := 0];
    if k == 0 then Start(1)
    else if k == 1 then Os(Sched(ready, FullSlots(), []), [Idle], [p], [], false)
    else if k == 2 then Os(Sched(ready, FullSlots(), []), [Idle], [p], [], true)
    else if k == 3 then Os(Sched(queues, spent, [p]), [Holding(p)], [p], [], true)
    else if k == 4 then Os(Sched(ready, spent, []), [Switching], [p], [], true)
    else Os(Sched(ready, FullSlots(), []), [Stopped], [p], [], true)
  }

  lemma LeavingAsk(p: Proc)
    requires p.prio == 139
    ensures LeavingAt(p, 2).sched.Ok() && Next(LeavingAt(p, 2), Ask(0)) == LeavingAt(p, 3)
  {
    var s := LeavingAt(p, 2);
    assert s.sched.Eligible(139) && s.sched.FirstFrom(0) == 139;
    assert s.sched.queues[139][1..] == [];
    assert s.sched.queues[139 := []] == LeavingAt(p, 3).sched.queues;
    assert s.sched.slot[139 := 0] == LeavingAt(p, 3).sched.slot;
  }

  lemma LeavingLoad(p: Proc)
    requires p.prio == 139
    ensures Enabled(LeavingAt(p, 0), Load(p)) && Next(LeavingAt(p, 0), Load(p)) == LeavingAt(p, 1)
  {
    var s := LeavingAt(p, 0);
    assert s.cpus == [Idle] && s.sched.queues[139] + [p] == [p];
  }

  lemma LeavingPutBack(p: Proc)
    requires p.prio == 139
    ensures var s := LeavingAt(p, 3);
            s.sched.Ok() && Enabled(s, PutBack(0)) && Next(s, PutBack(0)) == LeavingAt(p, 4)
  {
    var s := LeavingAt(p, 3);
    assert Without([p], p) == [];
    assert s.sched.queues[139] + [p] == [p];
  }

  lemma LeavingStop(p: Proc)
    requires p.prio == 139
    ensures var s := LeavingAt(p, 4);
            s.sched.Ok() && Enabled(s, Ask(0)) && Next(s, Ask(0)) == LeavingAt(p, 5)
  {
    var s := LeavingAt(p, 4);
    assert s.sched.queues[139] != [] && s.sched.FirstFrom(0) == 140;
  }

  lemma LeavingStep(p: Proc, k: nat)
    requires p.prio == 139 && k < 5
    ensures LeavingAt(p, k).sched.Ok() && Enabled(LeavingAt(p, k), Leaving(p)[k])
    ensures Next(LeavingAt(p, k), Leaving(p)[k]) == LeavingAt(p, k + 1)
  {
    if k == 0 {
      LeavingLoad(p);
    } else if k == 2 {
      LeavingAsk(p);
    } else if k == 3 {
      LeavingPutBack(p);
    } else if k == 4 {
      LeavingStop(p);
    }
  }

  lemma {:induction false} LeavingRun(p: Proc, k: nat)
    requires p.prio == 139 && k <= 5 && Placed(LeavingAt(p, k))
    ensures IsRun(LeavingAt(p, k), Leaving(p)[k..]) && Final(LeavingAt(p, k), Leaving(p)[k..]) == LeavingAt(p, 5)
    decreases 5 - k
  {
    if k < 5 {
      LeavingStep(p, k);
      StepPlaced(LeavingAt(p, k), Leaving(p)[k]);
      LeavingRun(p, k + 1);
      assert Leaving(p)[k..][0] == Leaving(p)[k] && Leaving(p)[k..][1..] == Leaving(p)[k + 1..];
    }
  }

  /** Stopping does leave a ready process behind on that run. */
  lemma StopLeavesReady(p: Proc)
    requires p.prio == 139
    ensures Placed(Start(1)) && IsRun(Start(1), Leaving(p))
    ensures Final(Start(1), Leaving(p)).cpus == [Stopped] && p in Final(Start(1), Leaving(p)).sched.queues[139]
  {
    StartPlaced(1);
    LeavingRun(p, 0);
    assert Leaving(p)[0..] == Leaving(p);
  }

  // ---- When an idle CPU stops ------------------------------------------------------------------

  /** Loading is over, nothing is ready and no CPU holds a process. */
  predicate Quiet(s: Os)
    requires s.sched.Ok()
  {
    s.done && !s.sched.AnyReady() && NoneHolding(s)
  }

  predicate NoneHolding(s: Os) { forall d :: 0 <= d < |s.cpus| ==> !s.cpus[d].Holding? }

  lemma QuietStep(s: Os, step: Step, c: nat)
    requires Placed(s) && Quiet(s) && Enabled(s, step) && c < |s.cpus| && s.cpus[c] == Idle
    ensures var s' := Next(s, step);
            s'.sched.Ok() && Quiet(s') && |s'.cpus| == |s.cpus| && s'.cpus[c] == Idle
  {
  }

  lemma {:induction false} QuietRun(s: Os, steps: seq<Step>, c: nat)
    requires Placed(s) && Quiet(s) && IsRun(s, steps) && c < |s.cpus| && s.cpus[c] == Idle
    ensures c < |Final(s, steps).cpus| && Final(s, steps).cpus[c] == Idle
    decreases |steps|
  {
    if steps != [] {
      QuietStep(s, steps[0], c);
      StepPlaced(s, steps[0]);
      QuietRun(Next(s, steps[0]), steps[1..], c);
    }
  }

  /** One step in front of a run. */
  lemma OneMore(s: Os, step: Step, rest: seq<Step>)
    requires Placed(s) && Enabled(s, step) && Placed(Next(s, step)) && IsRun(Next(s, step), rest)
    ensures IsRun(s, [step] + rest) && Final(s, [step] + rest) == Final(Next(s, step), rest)
  {
    assert ([step] + rest)[1..] == rest;
  }

  /** What a run can bring CPU c to. */
  ghost predicate CanStop(s: Os, c: nat)
    requires Placed(s)
  {
    exists steps :: IsRun(s, steps) && c < |Final(s, steps).cpus| && Final(s, steps).cpus[c] == Stopped
  }

  lemma CanStopEarlier(s: Os, step: Step, c: nat)
    requires Placed(s) && Enabled(s, step) && Placed(Next(s, step)) && CanStop(Next(s, step), c)
    ensures CanStop(s, c)
  {
    var s1 := Next(s, step);
    var rest :| IsRun(s1, rest) && c < |Final(s1, rest).cpus| && Final(s1, rest).cpus[c] == Stopped;
    OneMore(s, step, rest);
  }

  lemma StoppedNow(s: Os, c: nat)
    requires Placed(s) && c < |s.cpus| && s.cpus[c] == Stopped
    ensures CanStop(s, c)
  {
    assert IsRun(s, []) && Final(s, []) == s;
  }

  /** A call of get spends budget, or finds none to spend. */
  lemma AskSpends(s: Os, c: nat)
    requires Placed(s) && Enabled(s, Ask(c))
    ensures var s' := Next(s, Ask(c));
            && (s'.cpus[c].Holding? ==> Sum(s'.sched.slot) < Sum(s.sched.slot))
            && (s.done && s.cpus[c] == Switching && !s'.cpus[c].Holding? ==> s'.cpus[c] == Stopped)
  {
    var i := s.sched.FirstFrom(0);
    if i < 140 {
      SumUpdate(s.sched.slot, i, s.sched.slot[i] - 1);
    }
  }

  /** After loading, a CPU that has just given up a process can finish what it is given
      until the budgets are spent, and then it stops. */
  lemma {:induction false} SwitchingCanStop(s: Os, c: nat)
    requires Placed(s) && s.done && c < |s.cpus| && s.cpus[c] == Switching
    ensures CanStop(s, c)
    decreases Sum(s.sched.slot)
  {
    var s1 := Next(s, Ask(c));
    StepPlaced(s, Ask(c));
    AskSpends(s, c);
    if s1.cpus[c].Holding? {
      var s2 := Next(s1, Finish(c));
      StepPlaced(s1, Finish(c));
      SwitchingCanStop(s2, c);
      CanStopEarlier(s1, Finish(c), c);
    } else {
      StoppedNow(s1, c);
    }
    CanStopEarlier(s, Ask(c), c);
  }

  lemma HoldingCanStop(s: Os, c: nat)
    requires Placed(s) && s.done && c < |s.cpus| && s.cpus[c].Holding?
    ensures CanStop(s, c)
  {
    StepPlaced(s, Finish(c));
    SwitchingCanStop(Next(s, Finish(c)), c);
    CanStopEarlier(s, Finish(c), c);
  }

  /** An idle CPU that asks while a process is ready gets one at the first or second call. */
  lemma ReadyCanStop(s: Os, c: nat)
    requires Placed(s) && s.done && c < |s.cpus| && s.cpus[c] == Idle && s.sched.AnyReady()
    ensures CanStop(s, c)
  {
    var s1 := Next(s, Ask(c));
    StepPlaced(s, Ask(c));
    if s1.cpus[c].Holding? {
      HoldingCanStop(s1, c);
    } else {
      AskAgain(s, c);
      StepPlaced(s1, Ask(c));
      HoldingCanStop(Next(s1, Ask(c)), c);
      CanStopEarlier(s1, Ask(c), c);
    }
    CanStopEarlier(s, Ask(c), c);
  }

  lemma AskAgain(s: Os, c: nat)
    requires Placed(s) && c < |s.cpus| && s.cpus[c] == Idle && s.sched.AnyReady()
    requires !Next(s, Ask(c)).cpus[c].Holding?
    ensures var s1 := Next(s, Ask(c));
            s1.sched.Ok() && s1.cpus[c] == Idle && s1.done == s.done && Next(s1, Ask(c)).cpus[c].Holding?
  {
    var s1 := Next(s, Ask(c));
    assert s1.sched.slot == FullSlots();
    var q :| 0 <= q < 140 && s.sched.queues[q] != [];
    assert s1.sched.Eligible(q);
  }

  lemma BusyCanStop(s: Os, c: nat)
    requires Placed(s) && s.done && c < |s.cpus| && s.cpus[c] == Idle && (s.sched.AnyReady() || !NoneHolding(s))
    ensures CanStop(s, c)
  {
    if s.sched.AnyReady() {
      ReadyCanStop(s, c);
    } else {
      var d :| 0 <= d < |s.cpus| && s.cpus[d].Holding?;
      PutBackReady(s, d);
      StepPlaced(s, PutBack(d));
      ReadyCanStop(Next(s, PutBack(d)), c);
      CanStopEarlier(s, PutBack(d), c);
    }
  }

  /** CPU c is idle after every run. */
  ghost predicate AlwaysIdle(s: Os, c: nat)
    requires Placed(s)
  {
    forall steps :: IsRun(s, steps) ==> c < |Final(s, steps).cpus| && Final(s, steps).cpus[c] == Idle
  }

  lemma QuietMeansIdle(s: Os, c: nat)
    requires Placed(s) && Quiet(s) && c < |s.cpus| && s.cpus[c] == Idle
    ensures AlwaysIdle(s, c)
  {
    forall steps | IsRun(s, steps) ensures c < |Final(s, steps).cpus| && Final(s, steps).cpus[c] == Idle {
      QuietRun(s, steps, c);
    }
  }

  lemma StopsOrIdles(s: Os, c: nat)
    requires Placed(s) && CanStop(s, c)
    ensures !AlwaysIdle(s, c)
  {
    var steps :| IsRun(s, steps) && c < |Final(s, steps).cpus| && Final(s, steps).cpus[c] == Stopped;
    assert IsRun(s, steps) && Final(s, steps).cpus[c] != Idle;
  }

  /**
    A CPU that is idle at its loop head looks at done only after it has held a process once
    more.  So after loading it can stop in some run exactly if a process is ready or held
    by some CPU; otherwise it is idle after every run.
   */
  lemma IdleStopsIff(s: Os, c: nat)
    requires Placed(s) && s.done && c < |s.cpus| && s.cpus[c] == Idle
    ensures CanStop(s, c) <==> s.sched.AnyReady() || !NoneHolding(s)
    ensures AlwaysIdle(s, c) <==> !s.sched.AnyReady() && NoneHolding(s)
  {
    if s.sched.AnyReady() || !NoneHolding(s) {
      BusyCanStop(s, c);
      StopsOrIdles(s, c);
    } else {
      QuietMeansIdle(s, c);
      if CanStop(s, c) { StopsOrIdles(s, c); }
    }
  }

  lemma PutBackReady(s: Os, d: nat)
    requires Placed(s) && d < |s.cpus| && s.cpus[d].Holding?
    ensures Enabled(s, PutBack(d)) && Next(s, PutBack(d)).sched.Ok() && Next(s, PutBack(d)).sched.AnyReady()
    ensures Next(s, PutBack(d)).done == s.done
  {
    var p := s.cpus[d].proc;
    assert Next(s, PutBack(d)).sched.queues[p.prio] != [];
  }

  lemma StartQuiet(cpus: nat)
    ensures var s := Next(Start(cpus), LoaderDone);
            s.sched.Ok() && Quiet(s) && |s.cpus| == cpus && forall c :: 0 <= c < cpus ==> s.cpus[c] == Idle
  {
  }

  /** A run after which a CPU is idle for good: nothing to load, so it never holds a
      process and never stops. */
  lemma IdleForGood()
    ensures Placed(Start(1)) && IsRun(Start(1), [LoaderDone])
    ensures AlwaysIdle(Final(Start(1), [LoaderDone]), 0)
  {
    StartPlaced(1);
    StepPlaced(Start(1), LoaderDone);
    OneMore(Start(1), LoaderDone, []);
    assert [LoaderDone] + [] == [LoaderDone];
    StartQuiet(1);
    QuietMeansIdle(Next(Start(1), LoaderDone), 0);
  }
}
