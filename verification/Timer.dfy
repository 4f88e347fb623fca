/**
  The clock barrier of src/timer.c as a state machine.  One step is one critical
  section: the timer inspecting one device under its event_lock or releasing it under
  its timer_lock, a device announcing the end of its slot or testing whether it was
  released, and detaching.  A condition wait is a sleeping state that a signal on the
  same condition ends; sleepers may also wake without a signal, as POSIX allows.
 */
module Timer {

  /** Working: doing its slot of work.  Checking: about to test done under timer_lock.
      Sleeping: waiting on timer_cond.  Detached: finished for good. */
  datatype DevPc = Working | Checking | Sleeping | Detached

  /** worked counts the slots the device has announced as done, started the returns of
      next_slot, that is the slots entered after the first. */
  datatype Dev = Dev(pc: DevPc, done: bool, fsh: bool, worked: nat, started: nat) {
    predicate Live() { pc != Detached }
  }

  /** The timer at its loop head, looking at device k, waiting on event_cond of device k,
      releasing device k, or gone; seen counts the detached devices met in this round. */
  datatype TimerPc = Head | Scan(k: nat, seen: nat) | Asleep(k: nat, seen: nat) | Release(k: nat, seen: nat) | Exited

  datatype State = State(devs: seq<Dev>, timer: TimerPc, time: nat, stop: bool)

  datatype Step = TimerStep | Finish(d: nat) | Check(d: nat) | Detach(d: nat) | Stop | WakeTimer | WakeDev(d: nat) {
    /** Waking without a signal. */
    predicate Spurious() { WakeTimer? || WakeDev? }
  }

  /** All devices attached and at work before the timer starts. */
  function Init(n: nat): State { State(seq(n, _ => Dev(Working, false, false, 0, 0)), Head, 0, false) }

  predicate AllDetached(s: State) { forall d :: 0 <= d < |s.devs| ==> !s.devs[d].Live() }

  predicate Enabled(s: State, step: Step) {
    match step
    case TimerStep => !s.timer.Exited? && !s.timer.Asleep?
    case Finish(d) => d < |s.devs| && s.devs[d].pc == Working
    case Check(d) => d < |s.devs| && s.devs[d].pc == Checking
    case Detach(d) => d < |s.devs| && s.devs[d].pc == Working
    case Stop => AllDetached(s) && !s.stop              // main joins every thread first
    case WakeTimer => s.timer.Asleep?
    case WakeDev(d) => d < |s.devs| && s.devs[d].pc == Sleeping
  }

  /** A signal on event_cond of device d. */
  function Signalled(t: TimerPc, d: nat): TimerPc {
    if t.Asleep? && t.k == d then Scan(d, t.seen) else t
  }

  function TimerMove(s: State): State {
    var n := |s.devs|;
    match s.timer
    case Head => s.(timer := if s.stop then Exited else Scan(0, 0))
    case Scan(k, seen) =>
      if k >= n then s.(time := s.time + 1, timer := Release(0, seen))
      else if s.devs[k].done || s.devs[k].fsh then
        s.(timer := Scan(k + 1, if s.devs[k].fsh then seen + 1 else seen))
      else s.(timer := Asleep(k, seen))
    case Release(k, seen) =>
      if k >= n then s.(timer := if seen == n then Exited else Head)
      else
        var dev := s.devs[k];
        var dev' := dev.(done := false, pc := if dev.pc == Sleeping then Checking else dev.pc);
        s.(devs := s.devs[k := dev'], timer := Release(k + 1, seen))
    case Asleep(k, seen) => s
    case Exited => s
  }

  function Next(s: State, step: Step): State
    requires Enabled(s, step)
  {
    match step
    case TimerStep => TimerMove(s)
    case Finish(d) =>
      var dev := s.devs[d];
      s.(devs := s.devs[d := dev.(done := true, pc := Checking, worked := dev.worked + 1)],
         timer := Signalled(s.timer, d))
    case Check(d) =>
      var dev := s.devs[d];
      var dev' := if dev.done then dev.(pc := Sleeping) else dev.(pc := Working, started := dev.started + 1);
      s.(devs := s.devs[d := dev'])
    case Detach(d) =>
      s.(devs := s.devs[d := s.devs[d].(fsh := true, pc := Detached)], timer := Signalled(s.timer, d))
    case Stop => s.(stop := true)
    case WakeTimer => s.(timer := Scan(s.timer.k, s.timer.seen))
    case WakeDev(d) => s.(devs := s.devs[d := s.devs[d].(pc := Checking)])
  }

  /** The step that moves the clock. */
  predicate Ticks(s: State, step: Step) { step == TimerStep && s.timer.Scan? && s.timer.k >= |s.devs| }

  // ---- Invariant ------------------------------------------------------------------------

  /** A device between its release in the round that began slot t and the timer's next
      look at it. */
  predicate InSlot(dev: Dev, t: nat) {
    match dev.pc
    case Working => !dev.done && dev.started == t && dev.worked == t
    case Checking => if dev.done then dev.started == t && dev.worked == t + 1
                     else dev.started + 1 == t && dev.worked == t
    case Sleeping => dev.done && dev.started == t && dev.worked == t + 1
    case Detached => true
  }

  /** A device that has finished slot t - 1 and waits for the timer to release it into
      slot t. */
  predicate Waiting(dev: Dev, t: nat) {
    dev.Live() ==> dev.done && (dev.pc == Checking || dev.pc == Sleeping) && dev.worked == t && dev.started + 1 == t
  }

  predicate DevOk(s: State, d: nat)
    requires d < |s.devs|
  {
    var dev := s.devs[d];
    && (dev.fsh <==> dev.pc == Detached)
    && (if s.timer.Release? && d >= s.timer.k then Waiting(dev, s.time) else s.timer.Exited? || InSlot(dev, s.time))
    && (s.timer.Scan? && d < s.timer.k ==> dev.done || dev.fsh)
    && (s.timer.Asleep? && d < s.timer.k ==> dev.done || dev.fsh)
    && (s.timer.Asleep? && d == s.timer.k ==> !dev.done && !dev.fsh)
  }

  /** The timer saw only detached devices exactly if it counted all it passed. */
  predicate SeenOk(s: State) {
    match s.timer
    case Head => true
    case Scan(k, seen) => k <= |s.devs| && seen <= k && (seen == k ==> forall d :: 0 <= d < k ==> s.devs[d].fsh)
    case Asleep(k, seen) => k < |s.devs| && seen <= k && (seen == k ==> forall d :: 0 <= d < k ==> s.devs[d].fsh)
    case Release(k, seen) => k <= |s.devs| && seen <= |s.devs| && (seen == |s.devs| ==> AllDetached(s))
    case Exited => AllDetached(s)
  }

  predicate Inv(s: State) {
    && (forall d :: 0 <= d < |s.devs| ==> DevOk(s, d))
    && SeenOk(s)
    && (s.stop ==> AllDetached(s))
  }

  lemma InitInv(n: nat)
    ensures Inv(Init(n))
  {
  }

  lemma StepDevOk(s: State, step: Step, d: nat)
    requires Inv(s) && Enabled(s, step) && d < |s.devs|
    ensures DevOk(Next(s, step), d)
  {
    assert DevOk(s, d);
  }

  lemma StepSeenOk(s: State, step: Step)
    requires Inv(s) && Enabled(s, step)
    ensures SeenOk(Next(s, step)) && (Next(s, step).stop ==> AllDetached(Next(s, step)))
  {
    forall d | 0 <= d < |s.devs| ensures s.devs[d].fsh <==> !s.devs[d].Live() {
      assert DevOk(s, d);
    }
  }

  /** Every step of every thread keeps the invariant. */
  lemma StepInv(s: State, step: Step)
    requires Inv(s) && Enabled(s, step)
    ensures Inv(Next(s, step)) && |Next(s, step).devs| == |s.devs|
  {
    StepSeenOk(s, step);
    forall d | 0 <= d < |s.devs| ensures DevOk(Next(s, step), d) {
      StepDevOk(s, step, d);
    }
  }

  // ---- Runs -------------------------------------------------------------------------------

  predicate IsRun(s: State, steps: seq<Step>)
    decreases |steps|
  {
    steps == [] || (Enabled(s, steps[0]) && IsRun(Next(s, steps[0]), steps[1..]))
  }

  function Final(s: State, steps: seq<Step>): State
    requires IsRun(s, steps)
    decreases |steps|
  {
    if steps == [] then s else Final(Next(s, steps[0]), steps[1..])
  }

  /** The invariant holds in every state a run reaches. */
  lemma {:induction false} RunInv(s: State, steps: seq<Step>)
    requires Inv(s) && IsRun(s, steps)
    ensures Inv(Final(s, steps)) && |Final(s, steps).devs| == |s.devs| && s.time <= Final(s, steps).time
    decreases |steps|
  {
    if steps != [] {
      StepInv(s, steps[0]);
      RunInv(Next(s, steps[0]), steps[1..]);
    }
  }

  /** So it holds in every reachable state. */
  lemma Reachable(n: nat, steps: seq<Step>)
    requires IsRun(Init(n), steps)
    ensures Inv(Final(Init(n), steps)) && |Final(Init(n), steps).devs| == n
  {
    InitInv(n);
    RunInv(Init(n), steps);
  }

  // ---- Lockstep ---------------------------------------------------------------------------

  /**
    In every reachable state no live device is in slot t + 1 before every live device has
    finished slot t; the counts of finished slots of live devices differ by at most one;
    and a device at work in slot t reads t from the clock.
   */
  lemma Lockstep(n: nat, steps: seq<Step>, d: nat, e: nat)
    requires IsRun(Init(n), steps) && d < n && e < n
    ensures var devs := Final(Init(n), steps).devs;
            && |devs| == n
            && (devs[d].Live() && devs[e].Live() ==> devs[d].started <= devs[e].worked <= devs[e].started + 1)
            && (devs[d].Live() && devs[e].Live() ==> devs[d].worked <= devs[e].worked + 1)
            && (devs[d].pc == Working ==> devs[d].started == Final(Init(n), steps).time)
  {
    var s := Final(Init(n), steps);
    Reachable(n, steps);
    assert DevOk(s, d) && DevOk(s, e);
  }

  /** The clock moves only when no device is at work. */
  lemma TickOnlyBetweenSlots(n: nat, steps: seq<Step>, step: Step, d: nat)
    requires IsRun(Init(n), steps) && Enabled(Final(Init(n), steps), step) && d < n
    ensures var s := Final(Init(n), steps);
            && |s.devs| == n
            && Next(s, step).time == (if Ticks(s, step) then s.time + 1 else s.time)
            && (Ticks(s, step) ==> s.devs[d].pc != Working)
  {
    Reachable(n, steps);
    assert DevOk(Final(Init(n), steps), d);
  }

  /** done is set under event_lock and cleared under timer_lock, yet the two writes never
      meet: while the timer is about to clear it, the device cannot be about to set it. */
  lemma WritesOfDoneExclude(n: nat, steps: seq<Step>, d: nat)
    requires IsRun(Init(n), steps) && d < n
    ensures var s := Final(Init(n), steps);
            s.timer.Release? && s.timer.k == d ==> !Enabled(s, Finish(d)) && !Enabled(s, Detach(d))
  {
    Reachable(n, steps);
    assert DevOk(Final(Init(n), steps), d);
  }

  // ---- Progress -----------------------------------------------------------------------------

  /** A step that is not a spurious wakeup and can be taken. */
  function Choice(s: State): Step
    requires Inv(s) && !AllDetached(s)
    ensures Enabled(s, Choice(s)) && !Choice(s).Spurious()
  {
    if !s.timer.Asleep? then TimerStep
    else
      var d := s.timer.k;
      assert DevOk(s, d);
      if s.devs[d].pc == Working then Finish(d) else Check(d)
  }

  function DevRank(dev: Dev): nat {
    match dev.pc
    case Working => 5
    case Checking => if dev.done then 2 else 6
    case Sleeping => 1
    case Detached => 0
  }

  function SumRank(devs: seq<Dev>): nat {
    if devs == [] then 0 else DevRank(devs[0]) + SumRank(devs[1..])
  }

  lemma {:induction false} SumRankUpdate(devs: seq<Dev>, d: nat, dev: Dev)
    requires d < |devs|
    ensures SumRank(devs[d := dev]) + DevRank(devs[d]) == SumRank(devs) + DevRank(dev)
  {
    if d == 0 {
      assert devs[0 := dev][1..] == devs[1..];
    } else {
      SumRankUpdate(devs[1..], d - 1, dev);
      assert devs[d := dev][1..] == devs[1..][d - 1 := dev];
    }
  }

  lemma {:induction false} SumRankBound(devs: seq<Dev>)
    ensures SumRank(devs) <= 6 * |devs|
  {
    if devs != [] { SumRankBound(devs[1..]); }
  }

  function TimerRank(s: State): int {
    var n := |s.devs|;
    match s.timer
    case Head => 2 * n + 2
    case Scan(k, _) => 2 * (n - k) + 1
    case Asleep(k, _) => 2 * (n - k)
    case Release(k, _) => 2 * n + 3 + 6 * (n - k)
    case Exited => 0
  }

  /** How many more steps there can be before the clock moves. */
  function Rank(s: State): int { TimerRank(s) + SumRank(s.devs) + if s.stop then 0 else 1 }

  lemma TimerFalls(s: State)
    requires Inv(s) && Enabled(s, TimerStep) && !Ticks(s, TimerStep)
    ensures Rank(Next(s, TimerStep)) < Rank(s)
  {
    if s.timer.Release? && s.timer.k < |s.devs| {
      SumRankUpdate(s.devs, s.timer.k, Next(s, TimerStep).devs[s.timer.k]);
      assert DevOk(s, s.timer.k);
    }
  }

  /** A signal moves a timer that sleeps on device d up by one at most. */
  lemma SignalCosts(s: State, d: nat, s': State)
    requires |s'.devs| == |s.devs| && s'.timer == Signalled(s.timer, d)
    ensures TimerRank(s') <= TimerRank(s) + 1
  {
  }

  lemma FinishFalls(s: State, d: nat)
    requires Inv(s) && Enabled(s, Finish(d))
    ensures Rank(Next(s, Finish(d))) < Rank(s)
  {
    var s' := Next(s, Finish(d));
    SumRankUpdate(s.devs, d, s'.devs[d]);
    SignalCosts(s, d, s');
  }

  lemma CheckFalls(s: State, d: nat)
    requires Inv(s) && Enabled(s, Check(d))
    ensures Rank(Next(s, Check(d))) < Rank(s)
  {
    SumRankUpdate(s.devs, d, Next(s, Check(d)).devs[d]);
  }

  lemma DetachFalls(s: State, d: nat)
    requires Inv(s) && Enabled(s, Detach(d))
    ensures Rank(Next(s, Detach(d))) < Rank(s)
  {
    var s' := Next(s, Detach(d));
    SumRankUpdate(s.devs, d, s'.devs[d]);
    SignalCosts(s, d, s');
  }

  /** Every step that is neither a tick nor a spurious wakeup uses up rank. */
  lemma RankFalls(s: State, step: Step)
    requires Inv(s) && Enabled(s, step) && !step.Spurious() && !Ticks(s, step)
    ensures Rank(Next(s, step)) < Rank(s)
  {
    match step
    case TimerStep => TimerFalls(s);
    case Finish(d) => FinishFalls(s, d);
    case Check(d) => CheckFalls(s, d);
    case Detach(d) => DetachFalls(s, d);
    case Stop =>
  }

  /** A spurious wakeup gives back one. */
  lemma WakeupRises(s: State, step: Step)
    requires Inv(s) && Enabled(s, step) && step.Spurious()
    ensures Rank(Next(s, step)) == Rank(s) + 1
  {
    if step.WakeDev? {
      SumRankUpdate(s.devs, step.d, Next(s, step).devs[step.d]);
      assert DevOk(s, step.d);
    }
  }

  function Wakeups(steps: seq<Step>): nat {
    if steps == [] then 0 else (if steps[0].Spurious() then 1 else 0) + Wakeups(steps[1..])
  }

  lemma {:induction false} RunLength(s: State, steps: seq<Step>)
    requires Inv(s) && IsRun(s, steps) && Final(s, steps).time == s.time
    ensures |steps| <= Rank(s) + 2 * Wakeups(steps)
    decreases |steps|
  {
    if steps != [] {
      var s1 := Next(s, steps[0]);
      StepInv(s, steps[0]);
      RunInv(s1, steps[1..]);
      assert !Ticks(s, steps[0]);
      if steps[0].Spurious() { WakeupRises(s, steps[0]); } else { RankFalls(s, steps[0]); }
      RunLength(s1, steps[1..]);
    } else {
      RankNonNegative(s);
    }
  }

  lemma RankNonNegative(s: State)
    requires Inv(s)
    ensures 0 <= Rank(s) <= 14 * |s.devs| + 4
  {
    SumRankBound(s.devs);
  }

  /**
    Barrier progress, in every reachable state s.  While some device is not detached, some
    step other than a spurious wakeup is enabled, so no wakeup is ever lost; and any run
    from s of more than 14 n + 4 steps, not counting two for each spurious wakeup in it,
    moves the clock.  So the barrier always opens.
   */
  lemma BarrierProgress(n: nat, before: seq<Step>, steps: seq<Step>)
    requires IsRun(Init(n), before) && IsRun(Final(Init(n), before), steps)
    ensures var s := Final(Init(n), before);
            && (!AllDetached(s) ==> exists step :: Enabled(s, step) && !step.Spurious())
            && (|steps| > 14 * n + 4 + 2 * Wakeups(steps) ==> Final(s, steps).time > s.time)
  {
    var s := Final(Init(n), before);
    Reachable(n, before);
    if !AllDetached(s) {
      var step := Choice(s);
    }
    RunInv(s, steps);
    RankNonNegative(s);
    if Final(s, steps).time == s.time {
      RunLength(s, steps);
    }
  }

  // ---- When the timer leaves -----------------------------------------------------------------

  /** The round of the timer is not over yet after any of the steps. */
  predicate InRound(s: State, steps: seq<Step>)
    requires IsRun(s, steps)
    decreases |steps|
  {
    steps == [] ||
    var s1 := Next(s, steps[0]);
    !s1.timer.Exited? && (s.timer.Release? ==> s1.timer.Release?) && InRound(s1, steps[1..])
  }

  /** At some step of the run the timer looked at device d and found it detached. */
  predicate Saw(s: State, steps: seq<Step>, d: nat)
    requires IsRun(s, steps)
    decreases |steps|
  {
    steps != [] && (SeesNow(s, steps[0], d) || Saw(Next(s, steps[0]), steps[1..], d))
  }

  /** It found every device from k on detached. */
  predicate SawFrom(s: State, steps: seq<Step>, k: nat)
    requires IsRun(s, steps)
  {
    forall d :: k <= d < |s.devs| ==> Saw(s, steps, d)
  }

  predicate SeesNow(s: State, step: Step, d: nat) {
    step == TimerStep && s.timer.Scan? && s.timer.k == d < |s.devs| && s.devs[d].fsh
  }

  /** How far the scan of this round has come, and how many detached devices it met. */
  function Position(t: TimerPc): (nat, nat) {
    match t
    case Head => (0, 0)
    case Scan(k, seen) => (k, seen)
    case Asleep(k, seen) => (k, seen)
    case Release(_, _) => (0, 0)
    case Exited => (0, 0)
  }

  /** Within a round the timer does not go back to a device it has passed. */
  lemma {:induction false} PassedNotSeen(s: State, steps: seq<Step>, d: nat)
    requires IsRun(s, steps) && InRound(s, steps) && !s.timer.Exited?
    requires s.timer.Release? || (!s.timer.Head? && d < Position(s.timer).0)
    ensures !Saw(s, steps, d)
    decreases |steps|
  {
    if steps != [] { PassedNotSeen(Next(s, steps[0]), steps[1..], d); }
  }

  lemma {:induction false} ReleaseKeepsSeen(s: State, steps: seq<Step>)
    requires IsRun(s, steps) && InRound(s, steps) && s.timer.Release?
    ensures Final(s, steps).timer.Release? && Final(s, steps).timer.seen == s.timer.seen
    decreases |steps|
  {
    if steps != [] { ReleaseKeepsSeen(Next(s, steps[0]), steps[1..]); }
  }

  /** The count at the end of the scan is full exactly if it was full up to here and every
      device still to come is found detached. */
  lemma {:induction false} ScanCounts(s: State, steps: seq<Step>)
    requires Inv(s) && IsRun(s, steps) && InRound(s, steps)
    requires !s.timer.Exited? && !s.timer.Release? && Final(s, steps).timer.Release?
    ensures var (k, seen) := Position(s.timer);
            Final(s, steps).timer.seen == |s.devs| <==>
            seen == k && SawFrom(s, steps, k)
    decreases |steps|
  {
    var s1, rest := Next(s, steps[0]), steps[1..];
    StepInv(s, steps[0]);
    if s1.timer.Release? {
      ReleaseKeepsSeen(s1, rest);
    } else {
      ScanCounts(s1, rest);
      ScanStep(s, steps);
    }
  }

  lemma ScanStep(s: State, steps: seq<Step>)
    requires Inv(s) && IsRun(s, steps) && InRound(s, steps) && steps != []
    requires !s.timer.Exited? && !s.timer.Release? && !Next(s, steps[0]).timer.Release?
    ensures var s1 := Next(s, steps[0]);
            var (k, seen) := Position(s.timer);
            var (k1, seen1) := Position(s1.timer);
            seen1 == k1 && SawFrom(s1, steps[1..], k1) <==> seen == k && SawFrom(s, steps, k)
  {
    var s1, rest := Next(s, steps[0]), steps[1..];
    var (k, seen) := Position(s.timer);
    var (k1, seen1) := Position(s1.timer);
    StepInv(s, steps[0]);
    forall d | k1 <= d < |s.devs| ensures Saw(s, steps, d) <==> Saw(s1, rest, d) {
      assert !SeesNow(s, steps[0], d);
    }
    if k1 == k {
      assert seen1 == seen;
      assert SawFrom(s, steps, k) <==> SawFrom(s1, rest, k);
    } else {
      PassedNotSeen(s1, rest, k);
      assert seen <= k && k1 == k + 1 && seen1 == (if s.devs[k].fsh then seen + 1 else seen);
      assert Saw(s, steps, k) <==> s.devs[k].fsh;
      if SawFrom(s, steps, k) { assert Saw(s, steps, k); }
    }
  }

  /**
    A round of the timer ends with its exit exactly if in this round it saw every device
    detached: from any reachable state at the loop head, through any steps of all threads,
    to the end of the release loop.
   */
  lemma RoundExitsIff(n: nat, before: seq<Step>, steps: seq<Step>)
    requires IsRun(Init(n), before) && Final(Init(n), before).timer == Head
    requires var s := Final(Init(n), before);
             IsRun(s, steps) && InRound(s, steps) && Final(s, steps).timer.Release? && Final(s, steps).timer.k == n
    ensures var s := Final(Init(n), before);
            Next(Final(s, steps), TimerStep).timer == Exited <==> SawFrom(s, steps, 0)
  {
    var s := Final(Init(n), before);
    Reachable(n, before);
    RunInv(s, steps);
    ScanCounts(s, steps);
  }

  /** The timer counted every device it has passed in this round. */
  predicate CountedAll(s: State) {
    match s.timer
    case Scan(k, seen) => seen == k
    case Release(_, seen) => seen == |s.devs|
    case _ => true
  }

  /** With all devices detached: the steps left until the timer is gone, and the ticks. */
  function StepsLeft(s: State): int {
    var n := |s.devs|;
    var round := 2 * n + 3;
    var again := if CountedAll(s) then 0 else round;
    (if s.stop then 0 else 1) +
    match s.timer
    case Head => round
    case Scan(k, _) => (n - k) + 1 + (n + 1) + again
    case Release(k, _) => (n - k) + 1 + again
    case _ => 0
  }

  function TicksLeft(s: State): nat {
    match s.timer
    case Head => 1
    case Scan(_, _) => if CountedAll(s) then 1 else 2
    case Release(_, _) => if CountedAll(s) then 0 else 1
    case _ => 0
  }

  lemma DetachedAwake(s: State)
    requires Inv(s) && AllDetached(s)
    ensures !s.timer.Asleep? && forall d :: 0 <= d < |s.devs| ==> s.devs[d].fsh
  {
    forall d | 0 <= d < |s.devs| ensures s.devs[d].fsh {
      assert DevOk(s, d);
    }
    assert s.timer.Asleep? ==> DevOk(s, s.timer.k);
  }

  lemma LastSteps(s: State, step: Step)
    requires Inv(s) && AllDetached(s) && Enabled(s, step)
    ensures var s' := Next(s, step);
            && AllDetached(s') && !step.Spurious()
            && 0 <= StepsLeft(s') < StepsLeft(s) && s'.time + TicksLeft(s') <= s.time + TicksLeft(s)
  {
    DetachedAwake(s);
  }

  lemma {:induction false} LastRun(s: State, steps: seq<Step>)
    requires Inv(s) && AllDetached(s) && IsRun(s, steps)
    ensures var f := Final(s, steps);
            && Inv(f) && AllDetached(f)
            && |steps| + StepsLeft(f) <= StepsLeft(s) && f.time + TicksLeft(f) <= s.time + TicksLeft(s)
    decreases |steps|
  {
    if steps != [] {
      LastSteps(s, steps[0]);
      StepInv(s, steps[0]);
      LastRun(Next(s, steps[0]), steps[1..]);
    }
  }

  /**
    The timer leaves.  Once every device is detached, no run is longer than 4 n + 6 steps or
    two ticks, whatever the timer was doing; while the timer has not left it can take a
    step; so every run that cannot go on ends with the timer gone.  And in no reachable
    state has it left with a device that is not detached.
   */
  lemma TimerLeaves(n: nat, before: seq<Step>, steps: seq<Step>)
    requires IsRun(Init(n), before) && IsRun(Final(Init(n), before), steps)
    ensures var s := Final(Init(n), before);
            var f := Final(s, steps);
            && (AllDetached(s) ==> |steps| <= 4 * n + 6 && f.time <= s.time + 2)
            && (AllDetached(s) && !f.timer.Exited? ==> Enabled(f, TimerStep))
            && (s.timer.Exited? ==> AllDetached(s))
  {
    var s := Final(Init(n), before);
    Reachable(n, before);
    if AllDetached(s) {
      LastRun(s, steps);
      var f := Final(s, steps);
      StepsLeftBound(s);
      StepsLeftBound(f);
      DetachedAwake(f);
    }
  }

  lemma StepsLeftBound(s: State)
    requires Inv(s)
    ensures 0 <= StepsLeft(s) <= 4 * |s.devs| + 6 && TicksLeft(s) <= 2
  {
  }
}
