/**
  The array queue of src/queue.c and the scheduler of src/sched.c in place: 140 ready
  queues, the slot array and the running list, each operation proved against the
  scheduler value of module Mlq.
 */
module RunQueues {
  import opened Collections
  import opened Mlq

  class Queue {
    const proc: array<Proc>
    var size: nat

    ghost predicate Valid()
      reads this
    {
      proc.Length == QUEUE_CAP && size <= QUEUE_CAP
    }

    ghost function Contents(): (q: seq<Proc>)
      requires Valid()
      reads this, proc
      ensures |q| == size
    {
      proc[..size]
    }

    constructor ()
      ensures Valid() && Contents() == [] && fresh(proc)
    {
      proc := new Proc[QUEUE_CAP](_ => Proc(0, 0));
      size := 0;
    }

    method Enqueue(p: Proc)
      requires Valid()
      modifies this, proc
      ensures Valid() && Contents() == Enqueued(old(Contents()), p)
      ensures Contents() == if |old(Contents())| < 50 then old(Contents()) + [p] else old(Contents())
    {
      if size < QUEUE_CAP {
        proc[size] := p;
        size := size + 1;
      }
    }

    /** Move the entries behind index i one place forward. */
    method ShiftFrom(i: nat)
      requires Valid() && i < size
      modifies this, proc
      ensures Valid() && Contents() == old(Contents()[..i] + Contents()[i + 1..])
    {
      ghost var was := Contents();
      for j := i to size - 1
        invariant Valid() && size == |was|
        invariant forall k :: 0 <= k < i ==> proc[k] == was[k]
        invariant forall k :: i <= k < j ==> proc[k] == was[k + 1]
        invariant forall k :: j <= k < size ==> proc[k] == was[k]
      {
        assert proc[j + 1] == was[j + 1];
        proc[j] := proc[j + 1];
      }
      size := size - 1;
      forall k | 0 <= k < size ensures proc[..size][k] == (was[..i] + was[i + 1..])[k] {
        assert k < i ==> proc[k] == was[k];
        assert i <= k ==> proc[k] == was[k + 1];
      }
    }

    /** The MLQ branch of dequeue: the oldest entry. */
    method Dequeue() returns (p: Option<Proc>)
      requires Valid()
      modifies this, proc
      ensures Valid()
      ensures old(Contents()) == [] ==> p == None && Contents() == []
      ensures old(Contents()) != [] ==> p == Some(old(Contents())[0]) && Contents() == old(Contents())[1..]
    {
      if size == 0 {
        return None;
      }
      p := Some(proc[0]);
      ShiftFrom(0);
    }

    /** purgequeue: remove the first occurrence of p. */
    method Purge(p: Proc) returns (found: bool)
      requires Valid()
      modifies this, proc
      ensures Valid() && Contents() == Without(old(Contents()), p) && (found <==> p in old(Contents()))
    {
      var i := 0;
      while i < size && proc[i] != p
        invariant i <= size && p !in proc[..i]
      {
        i := i + 1;
      }
      WithoutAt(Contents(), p, i);
      if i == size {
        return false;
      }
      ShiftFrom(i);
      return true;
    }
  }

  class Scheduler {
    const ready: seq<Queue>
    const slot: array<nat>
    const running: Queue
    ghost var s: Sched

    /** The queues are different objects with different arrays. */
    ghost predicate Apart() {
      && |ready| == 140 && slot.Length == 140
      && (forall i, j :: 0 <= i < j < 140 ==> ready[i] != ready[j] && ready[i].proc != ready[j].proc)
      && (forall i :: 0 <= i < 140 ==> ready[i] != running && ready[i].proc != running.proc)
    }

    ghost function Footprint(): set<object> {
      {this, slot, running, running.proc} + (set q | q in ready) + (set q | q in ready :: q.proc)
    }

    ghost predicate Valid()
      reads Footprint()
    {
      && Apart() && s.Ok()
      && slot[..] == s.slot
      && running.Valid() && running.Contents() == s.running
      && (forall i :: 0 <= i < 140 ==> ready[i].Valid() && ready[i].Contents() == s.queues[i])
    }

    /** init_scheduler */
    constructor ()
      ensures Valid() && s == Init() && fresh(Footprint())
    {
      var qs: seq<Queue> := [];
      for i := 0 to 140
        invariant |qs| == i
        invariant forall j :: 0 <= j < i ==> fresh(qs[j]) && fresh(qs[j].proc)
        invariant forall j :: 0 <= j < i ==> qs[j].Valid() && qs[j].Contents() == []
        invariant forall j, k :: 0 <= j < k < i ==> qs[j] != qs[k] && qs[j].proc != qs[k].proc
      {
        var q := new Queue();
        qs := qs + [q];
      }
      ready := qs;
      slot := new nat[140](i requires 0 <= i < 140 => 140 - i);
      running := new Queue();
      s := Init();
    }

    /** queue_empty, over the ready queues of this configuration. */
    method QueueEmpty() returns (none: bool)
      requires Valid()
      ensures none <==> !s.AnyReady()
    {
      for prio := 0 to 140
        invariant forall i :: 0 <= i < prio ==> s.queues[i] == []
      {
        if ready[prio].size != 0 {
          assert s.queues[prio] != [];
          return false;
        }
      }
      return true;
    }

    /** The refill loop. */
    method Refill()
      requires Valid()
      modifies slot, this`s
      ensures Valid() && s == old(s).(slot := FullSlots())
    {
      for prio := 0 to 140
        invariant s == old(s) && forall i :: 0 <= i < prio ==> slot[i] == 140 - i
      {
        slot[prio] := 140 - prio;
      }
      assert slot[..] == FullSlots();
      s := s.(slot := FullSlots());
    }

    /** Take the head of queue prio and spend one unit of its budget. */
    method TakeHead(prio: nat) returns (p: Proc)
      requires Valid() && prio < 140 && s.Eligible(prio)
      modifies Footprint()
      ensures Valid() && p == old(s).queues[prio][0]
      ensures s == old(s).(queues := old(s).queues[prio := old(s).queues[prio][1..]],
                           slot := old(s).slot[prio := old(s).slot[prio] - 1])
    {
      var r := ready[prio].Dequeue();
      s := s.(queues := s.queues[prio := s.queues[prio][1..]]);
      p := r.value;
      Spend(prio);
    }

    method Spend(prio: nat)
      requires Valid() && prio < 140 && s.slot[prio] > 0
      modifies slot, this`s
      ensures Valid() && s == old(s).(slot := old(s).slot[prio := old(s).slot[prio] - 1])
    {
      slot[prio] := slot[prio] - 1;
      s := s.(slot := s.slot[prio := s.slot[prio] - 1]);
      assert slot[..] == s.slot;
    }

    /** The smallest priority that has a process and budget. */
    method Scan() returns (prio: nat)
      requires Valid()
      ensures prio == s.FirstFrom(0)
    {
      prio := 0;
      while prio < 140 && (ready[prio].size == 0 || slot[prio] == 0)
        invariant prio <= 140 && forall i :: 0 <= i < prio ==> !s.Eligible(i)
      {
        assert ready[prio].Contents() == s.queues[prio];
        prio := prio + 1;
      }
      assert prio < 140 ==> s.Eligible(prio) by {
        assert prio < 140 ==> ready[prio].Contents() == s.queues[prio];
      }
    }

    method ListRunning(p: Proc)
      requires Valid()
      modifies Footprint()
      ensures Valid() && s == old(s).(running := Enqueued(old(s).running, p))
    {
      running.Enqueue(p);
      s := s.(running := Enqueued(s.running, p));
    }

    /** get_mlq_proc */
    method Get() returns (r: Option<Proc>)
      requires Valid()
      modifies Footprint()
      ensures Valid() && s == old(s).Get().0 && r == old(s).Get().1
    {
      var prio := Scan();
      GetCases(s);
      if prio < 140 {
        var p := TakeHead(prio);
        ListRunning(p);
        return Some(p);
      }
      var none := QueueEmpty();
      if !none {
        Refill();
      }
      return None;
    }

    /** Append p to the ready queue of its priority. */
    method MakeReady(p: Proc)
      requires Valid() && p.prio < 140
      modifies Footprint()
      ensures Valid() && s == old(s).Add(p)
    {
      ready[p.prio].Enqueue(p);
      s := s.Add(p);
    }

    /** add_mlq_proc */
    method Add(p: Proc)
      requires Valid() && p.prio < 140
      modifies Footprint()
      ensures Valid() && s == old(s).Add(p)
    {
      MakeReady(p);
    }

    /** put_mlq_proc */
    method Put(p: Proc)
      requires Valid() && p.prio < 140
      modifies Footprint()
      ensures Valid() && s == old(s).Put(p)
    {
      var found := running.Purge(p);
      s := s.(running := Without(s.running, p));
      MakeReady(p);
    }
  }
}
