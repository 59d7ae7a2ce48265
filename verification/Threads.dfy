/** The scheduler's operations on the thread table, the ready queue and the current threads. Each method is one step of
    the step system; its assertions are those of the source. */
module Threads {
  import opened RingBuffer
  import opened Scheduler

  predicate MayRunOn(affinity: nat, cpu: nat) { affinity == ANY_CPU || affinity == cpu }

  /** The first of the queue that may run on `cpu` stands at `i`, and `rest` are the others in their order. */
  ghost predicate IsNextFor(ts: seq<Thread>, q: seq<nat>, cpu: nat, i: nat, rest: seq<nat>) {
    && i < |q| && (forall k :: 0 <= k < |q| ==> q[k] < |ts|) && rest == q[..i] + q[i + 1..]
    && MayRunOn(ts[q[i]].affinity, cpu)
    && forall k :: 0 <= k < i ==> !MayRunOn(ts[q[k]].affinity, cpu)
  }

  class Kernel {
    const threads: array<Thread>
    const ready: Queue<nat>
    const currentThreads: array<Option<nat>>

    ghost var creating: set<nat>
    ghost var phases: seq<Phase>
    ghost var finished: seq<nat>
    ghost var reclaimed: seq<nat>

    ghost predicate Valid()
      reads this, threads, ready, ready.data, currentThreads
    {
      ready.Valid() && ready.data.Length == THREAD_MAX_COUNT && Inv(View())
    }

    ghost function View(): System
      requires ready.Valid()
      reads this, threads, ready, ready.data, currentThreads
    {
      System(threads[..], ready.Contents(), creating, phases, currentThreads[..], finished, reclaimed)
    }

    /** `initialize`. */
    constructor (cpus: nat)
      ensures Valid() && View() == Initial(cpus)
      ensures fresh(threads) && fresh(ready) && fresh(ready.data) && fresh(currentThreads)
    {
      threads := new Thread[THREAD_MAX_COUNT](_ => BLANK);
      ready := new Queue<nat>(THREAD_MAX_COUNT, 0);
      currentThreads := new Option<nat>[cpus](_ => None);
      creating, phases := {}, seq(cpus, _ => Idle);
      finished, reclaimed := seq(THREAD_MAX_COUNT, _ => 0), seq(THREAD_MAX_COUNT, _ => 0);
      new;
      InitialOk(cpus);
    }

    /** The first lock region of `create_thread`; `ok` is false when the "Thread table full" assertion fires. */
    method CreateThread(affinity: nat) returns (ok: bool, handle: nat)
      requires Valid()
      modifies this, threads
      ensures Valid() && handle == FirstFree(old(threads[..]), 0)
      ensures ok <==> handle < 64
      ensures ok ==> View() == Next(old(View()), Create(affinity))
      ensures ok ==> old(threads[handle]).state == Free && forall k :: 0 <= k < handle ==> old(threads[k]).state != Free
      ensures ok ==> threads[..] == old(threads[..])[handle := Thread(Ready, affinity, false)]
      ensures !ok ==> View() == old(View()) && forall k :: 0 <= k < THREAD_MAX_COUNT ==> threads[k].state != Free
    {
      ghost var s, e := View(), Create(affinity);
      handle := 0;
      while handle < THREAD_MAX_COUNT && threads[handle].state != Free
        invariant handle <= THREAD_MAX_COUNT && FirstFree(threads[..], handle) == FirstFree(threads[..], 0)
      {
        handle := handle + 1;
      }
      ok := handle < THREAD_MAX_COUNT;
      if !ok { return; }
      AssertionsNeverFire(s, e);
      StepKeeps(s, e);
      assert !ready.Full();
      CreatedAs(s, affinity, handle);
      threads[handle] := threads[handle].(state := Ready, affinity := affinity);
      creating := creating + {handle};
      assert View() == Next(s, e);
    }

    /** `enqueue_thread`. */
    method EnqueueThread(handle: nat)
      requires Valid() && Enabled(View(), Enqueue(handle))
      modifies this, ready, ready.data
      ensures Valid() && View() == Next(old(View()), Enqueue(handle))
      ensures ready.Contents() == old(ready.Contents()) + [handle]
    {
      ghost var s, e := View(), Enqueue(handle);
      AssertionsNeverFire(s, e);
      StepKeeps(s, e);
      assert !ready.Full();
      ready.PushBack(handle);
      creating := creating - {handle};
    }

    /** `yield`, with the switch to the idle context. */
    method YieldThread(cpu: nat)
      requires Valid() && Enabled(View(), Yield(cpu))
      modifies this, threads, ready, ready.data, currentThreads
      ensures Valid() && View() == Next(old(View()), Yield(cpu))
      ensures var h := old(phases)[cpu].handle;
        && old(currentThreads[cpu]) == Some(h) && currentThreads[cpu] == None
        && threads[..] == old(threads[..])[h := old(threads[h]).(state := Ready)]
        && ready.Contents() == old(ready.Contents()) + [h]
    {
      ghost var s, e := View(), Yield(cpu);
      AssertionsNeverFire(s, e);
      StepKeeps(s, e);
      var current := currentThreads[cpu];
      assert current.Some? && threads[current.value].state == Running && !ready.Full();
      threads[current.value] := threads[current.value].(state := Ready);
      ready.PushBack(current.value);
      currentThreads[cpu] := None;
      phases := phases[cpu := Back(current.value)];
    }

    /** `finish_current`, with the switch to the idle context. */
    method FinishCurrent(cpu: nat)
      requires Valid() && Enabled(View(), Finish(cpu))
      modifies this, threads, currentThreads
      ensures Valid() && View() == Next(old(View()), Finish(cpu))
      ensures var h := old(phases)[cpu].handle;
        && old(currentThreads[cpu]) == Some(h) && currentThreads[cpu] == None
        && threads[..] == old(threads[..])[h := old(threads[h]).(state := Done)]
    {
      ghost var s, e := View(), Finish(cpu);
      AssertionsNeverFire(s, e);
      StepKeeps(s, e);
      var current := currentThreads[cpu];
      assert current.Some?;
      threads[current.value] := threads[current.value].(state := Done);
      currentThreads[cpu] := None;
      finished := finished[current.value := finished[current.value] + 1];
      phases := phases[cpu := Back(current.value)];
    }

    /** The lock region of `idle_poll`. */
    method PollQueue(cpu: nat) returns (handle: Option<nat>)
      requires Valid() && Enabled(View(), Poll(cpu))
      modifies this, ready, ready.data
      ensures Valid() && View() == Next(old(View()), Poll(cpu))
      ensures handle.Some? <==> FirstEligible(old(threads[..]), old(ready.Contents()), cpu) < old(ready.size)
      ensures handle.Some? ==> phases[cpu] == Popped(handle.value)
      ensures handle.Some? ==> exists i: nat :: IsNextFor(threads[..], old(ready.Contents()), cpu, i, ready.Contents())
                                                && old(ready.Contents())[i] == handle.value
      ensures handle.None? ==>
        ready.Contents() == old(ready.Contents()) && forall h <- ready.Contents() :: !MayRunOn(threads[h].affinity, cpu)
    {
      hide QueueOk;
      hide OneOwner;
      hide PhaseOk;
      hide ThreadOk;
      hide FirstEligible;
      ghost var s, e := View(), Poll(cpu);
      StepKeeps(s, e);
      assert Shaped(s) && Inv(Next(s, e));
      hide Inv;
      if ready.Empty() { return None; }
      ghost var i := FirstEligible(s.threads, s.queue, cpu);
      RotatedAll(s.queue, i);
      handle := Rotate(cpu);
      if handle.Some? { phases := phases[cpu := Popped(handle.value)]; }
      assert View() == Next(s, e);
      NextFor(s.threads, s.queue, cpu);
    }

    /** Pops every queued thread once and pushes all but the first eligible one back. */
    method Rotate(cpu: nat) returns (handle: Option<nat>)
      requires ready.Valid() && forall k :: 0 <= k < ready.size ==> ready.Contents()[k] < threads.Length
      modifies ready, ready.data
      ensures ready.Valid()
      ensures var q, i := old(ready.Contents()), FirstEligible(threads[..], old(ready.Contents()), cpu);
        && ready.Contents() == Rotated(q, i, |q|)
        && handle == if i < |q| then Some(q[i]) else None
    {
      hide FirstEligible;
      hide Rotated;
      hide Around;
      hide Wrap;
      ghost var q := ready.Contents();
      ghost var i := FirstEligible(threads[..], q, cpu);
      RotatedNone(q, i);
      handle := None;
      var queued := ready.size;
      for index := 0 to queued
        invariant ready.Valid() && ready.Contents() == Rotated(q, i, index)
        invariant handle == if i < index then Some(q[i]) else None
      {
        RotateStep(q, i, index);
        FirstEligibleAt(threads[..], q, cpu, index);
        var candidate := ready.PopFront();
        if handle == None && Eligible(threads[candidate], cpu) {
          handle := Some(candidate);
        } else {
          ready.PushBack(candidate);
        }
      }
    }

    /** `idle_poll` from the end of its lock region to the switch to the thread. */
    method DispatchThread(cpu: nat, handle: nat)
      requires Valid() && Enabled(View(), Dispatch(cpu)) && phases[cpu] == Popped(handle)
      modifies this, threads, currentThreads
      ensures Valid() && View() == Next(old(View()), Dispatch(cpu))
      ensures threads[..] == old(threads[..])[handle := old(threads[handle]).(state := Running)]
      ensures currentThreads[..] == old(currentThreads[..])[cpu := Some(handle)]
    {
      ghost var s, e := View(), Dispatch(cpu);
      AssertionsNeverFire(s, e);
      StepKeeps(s, e);
      assert threads[handle].state == Ready;
      threads[handle] := threads[handle].(state := Running);
      currentThreads[cpu] := Some(handle);
      phases := phases[cpu := Executing(handle)];
    }

    /** `idle_poll` after the switch back, up to its unlocked check. */
    method ReturnToIdle(cpu: nat, handle: nat) returns (lock: bool)
      requires Valid() && Enabled(View(), Return(cpu)) && phases[cpu] == Back(handle)
      modifies this, currentThreads
      ensures Valid() && View() == Next(old(View()), Return(cpu))
      ensures lock <==> phases[cpu] == Reclaiming(handle)
      ensures lock <==> threads[handle].state == Done && threads[handle].detached
      ensures currentThreads[..] == old(currentThreads[..])[cpu := None]
    {
      ghost var s, e := View(), Return(cpu);
      StepKeeps(s, e);
      currentThreads[cpu] := None;
      lock := threads[handle].state == Done && threads[handle].detached;
      phases := phases[cpu := if lock then Reclaiming(handle) else Idle];
    }

    /** `reclaim`. */
    method ReclaimThread(handle: nat)
      requires handle < threads.Length && handle < |reclaimed|
      modifies this`reclaimed, threads
      ensures threads[..] == old(threads[..])[handle := BLANK]
      ensures reclaimed == old(reclaimed)[handle := old(reclaimed)[handle] + 1]
    {
      threads[handle] := BLANK;
      reclaimed := reclaimed[handle := reclaimed[handle] + 1];
    }

    /** The last lock region of `idle_poll`, with its second check. */
    method RecheckThread(cpu: nat, handle: nat)
      requires Valid() && Enabled(View(), Recheck(cpu)) && phases[cpu] == Reclaiming(handle)
      modifies this, threads
      ensures Valid() && View() == Next(old(View()), Recheck(cpu))
      ensures var t := old(threads[handle]);
        if t.state == Done && t.detached then
          threads[handle].state == Free && reclaimed[handle] > old(reclaimed)[handle]
        else
          threads[..] == old(threads[..]) && reclaimed == old(reclaimed)
    {
      ghost var s, e := View(), Recheck(cpu);
      StepKeeps(s, e);
      if threads[handle].state == Done && threads[handle].detached { ReclaimThread(handle); }
      phases := phases[cpu := Idle];
    }

    /** `detach`; `ok` is false when one of its four assertions fires. */
    method DetachThread(handle: nat) returns (ok: bool)
      requires Valid()
      modifies threads
      ensures Valid() && ok == old(Enabled(View(), Detach(handle)))
      ensures View() == if ok then Next(old(View()), Detach(handle)) else old(View())
      ensures ok ==> threads[..] == old(threads[..])[handle := old(threads[handle]).(detached := true)]
      ensures ok ==> old(threads[handle]).state == Ready || old(threads[handle]).state == Running
    {
      if handle >= THREAD_MAX_COUNT { return false; }
      var thread := threads[handle];
      if thread.state == Free || thread.state == Done || thread.detached { return false; }
      StepKeeps(View(), Detach(handle));
      threads[handle] := threads[handle].(detached := true);
      ok := true;
    }

    /** `join` when it has waited: the lock region; `ok` is false when one of its assertions fires. */
    method JoinThread(handle: nat) returns (ok: bool)
      requires Valid()
      modifies this, threads
      ensures Valid() && ok == old(Enabled(View(), Join(handle)))
      ensures View() == if ok then Next(old(View()), Join(handle)) else old(View())
      ensures ok ==> old(threads[handle]).state == Done && !old(threads[handle]).detached
      ensures ok ==> threads[handle].state == Free && forall k :: 0 <= k < THREAD_MAX_COUNT && k != handle ==>
        threads[k] == old(threads[k])
    {
      if handle >= THREAD_MAX_COUNT { return false; }
      if threads[handle].state != Done || threads[handle].detached { return false; }
      StepKeeps(View(), Join(handle));
      ReclaimThread(handle);
      ok := true;
    }
  }

  /** The queue after its first `k` elements have been popped, and all of them but the one at `i` pushed back. */
  function Rotated(q: seq<nat>, i: nat, k: nat): seq<nat>
    requires k <= |q|
  {
    q[k..] + if i < k then q[..i] + q[i + 1..k] else q[..k]
  }

  lemma RotateStep(q: seq<nat>, i: nat, k: nat)
    requires k < |q|
    ensures Rotated(q, i, k) != [] && Rotated(q, i, k)[0] == q[k]
    ensures |Rotated(q, i, k)| <= |q|
    ensures Rotated(q, i, k + 1) == Rotated(q, i, k)[1..] + if i == k then [] else [q[k]]
    ensures i != k ==> |Rotated(q, i, k)[1..]| < |q|
  {
    assert q[k..] == [q[k]] + q[k + 1..];
    if i < k {
      assert q[i + 1..k + 1] == q[i + 1..k] + [q[k]];
    } else {
      assert q[..k + 1] == q[..k] + [q[k]];
    }
  }

  lemma RotatedNone(q: seq<nat>, i: nat)
    ensures Rotated(q, i, 0) == q
  {}

  lemma RotatedAll(q: seq<nat>, i: nat)
    ensures Rotated(q, i, |q|) == if i < |q| then Without(q, i) else q
  {}

  lemma NextFor(ts: seq<Thread>, q: seq<nat>, cpu: nat)
    requires forall k :: 0 <= k < |q| ==> q[k] < |ts|
    ensures var i := FirstEligible(ts, q, cpu);
      if i < |q| then IsNextFor(ts, q, cpu, i, Without(q, i))
      else forall h <- q :: !MayRunOn(ts[h].affinity, cpu)
  {}

  /** Whether the element at `index` is the first eligible one. */
  lemma FirstEligibleAt(ts: seq<Thread>, q: seq<nat>, cpu: nat, index: nat)
    requires index < |q| && forall k :: 0 <= k < |q| ==> q[k] < |ts|
    ensures FirstEligible(ts, q, cpu) >= index ==>
      (FirstEligible(ts, q, cpu) == index <==> Eligible(ts[q[index]], cpu))
  {}
}
