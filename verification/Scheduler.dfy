/** The kernel's thread scheduler as a step system. Each lock region of the source is one step, and so is each stretch
    between two of them; publishing a thread and switching to the idle context count as one step. */
module Scheduler {
  import opened Basics

  const THREAD_MAX_COUNT: nat := 64
  const ANY_CPU: nat := 0xFFFF_FFFF

  datatype State = Free | Ready | Running | Done

  datatype Thread = Thread(state: State, affinity: nat, detached: bool)

  datatype Option<T> = None | Some(value: T)

  /** Where a CPU is in `idle_poll`: before taking a thread; holding one it has popped but not yet dispatched; running
      it; back in the idle context; about to take the lock to reclaim it. */
  datatype Phase =
    | Idle
    | Popped(handle: nat)
    | Executing(handle: nat)
    | Back(handle: nat)
    | Reclaiming(handle: nat)

  datatype System = System(
    threads: seq<Thread>,
    queue: seq<nat>,
    /** Threads between `create_thread` and `enqueue_thread`. */
    creating: set<nat>,
    phases: seq<Phase>,
    /** `current_threads`. */
    current: seq<Option<nat>>,
    /** How often each slot's thread has finished and has been reclaimed. */
    finished: seq<nat>,
    reclaimed: seq<nat>)

  datatype Event =
    | Create(affinity: nat)
    | Enqueue(handle: nat)
    | Yield(cpu: nat)
    | Finish(cpu: nat)
    | Poll(cpu: nat)
    | Dispatch(cpu: nat)
    | Return(cpu: nat)
    | Recheck(cpu: nat)
    | Detach(handle: nat)
    | Join(handle: nat)

  // ---------------------------------------------------------------- steps

  predicate Eligible(t: Thread, cpu: nat) { t.affinity == ANY_CPU || t.affinity == cpu }

  /** The lowest free slot, or `THREAD_MAX_COUNT`. */
  function FirstFree(ts: seq<Thread>, from: nat): (h: nat)
    requires from <= |ts|
    ensures from <= h <= |ts| && (h < |ts| ==> ts[h].state == Free)
    ensures forall k :: from <= k < h ==> ts[k].state != Free
    decreases |ts| - from
  {
    if from == |ts| || ts[from].state == Free then from else FirstFree(ts, from + 1)
  }

  /** The position of the first queued thread that may run on `cpu`, or the length of the queue. */
  function FirstEligible(ts: seq<Thread>, queue: seq<nat>, cpu: nat): (i: nat)
    requires forall k :: 0 <= k < |queue| ==> queue[k] < |ts|
    ensures i <= |queue| && (i < |queue| ==> Eligible(ts[queue[i]], cpu))
    ensures forall k :: 0 <= k < i ==> !Eligible(ts[queue[k]], cpu)
  {
    if queue == [] then 0
    else if Eligible(ts[queue[0]], cpu) then 0 else 1 + FirstEligible(ts, queue[1..], cpu)
  }

  /** The queue without the element at `i`, the others in their order. */
  function Without(queue: seq<nat>, i: nat): seq<nat>
    requires i < |queue|
  {
    queue[..i] + queue[i + 1..]
  }

  predicate Finishable(t: Thread) { t.state == Done && t.detached }

  ghost predicate Shaped(s: System) {
    && |s.threads| == THREAD_MAX_COUNT && |s.current| == |s.phases|
    && |s.finished| == |s.reclaimed| == THREAD_MAX_COUNT
    && (forall k :: 0 <= k < |s.queue| ==> s.queue[k] < THREAD_MAX_COUNT)
    && (forall c :: 0 <= c < |s.phases| && !s.phases[c].Idle? ==> s.phases[c].handle < THREAD_MAX_COUNT)
  }

  /** The control flow of the CPUs and of well-behaved clients: a free slot for a new thread, and handles that are
      detached before they finish or joined once they have. */
  ghost predicate Enabled(s: System, e: Event)
    requires Shaped(s)
  {
    match e
    case Create(_) => FirstFree(s.threads, 0) < THREAD_MAX_COUNT
    case Enqueue(h) => h in s.creating && h < THREAD_MAX_COUNT
    case Yield(c) => c < |s.phases| && s.phases[c].Executing?
    case Finish(c) => c < |s.phases| && s.phases[c].Executing?
    case Poll(c) => c < |s.phases| && s.phases[c].Idle?
    case Dispatch(c) => c < |s.phases| && s.phases[c].Popped?
    case Return(c) => c < |s.phases| && s.phases[c].Back?
    case Recheck(c) => c < |s.phases| && s.phases[c].Reclaiming?
    case Detach(h) =>
      h < THREAD_MAX_COUNT && s.threads[h].state != Free && s.threads[h].state != Done && !s.threads[h].detached
    case Join(h) => h < THREAD_MAX_COUNT && s.threads[h].state == Done && !s.threads[h].detached
  }

  function SetState(ts: seq<Thread>, h: nat, state: State): seq<Thread>
    requires h < |ts|
  {
    ts[h := ts[h].(state := state)]
  }

  const BLANK := Thread(Free, ANY_CPU, false)

  /** `reclaim`. */
  function Reclaim(s: System, h: nat): System
    requires h < |s.threads| && h < |s.reclaimed|
  {
    s.(threads := s.threads[h := BLANK], reclaimed := s.reclaimed[h := s.reclaimed[h] + 1])
  }

  ghost function Next(s: System, e: Event): System
    requires Shaped(s) && Enabled(s, e)
  {
    match e
    case Create(affinity) =>
      var h := FirstFree(s.threads, 0);
      s.(threads := s.threads[h := s.threads[h].(state := Ready, affinity := affinity)], creating := s.creating + {h})
    case Enqueue(h) => s.(queue := s.queue + [h], creating := s.creating - {h})
    case Yield(c) =>
      var h := s.phases[c].handle;
      s.(threads := SetState(s.threads, h, Ready), queue := s.queue + [h],
         phases := s.phases[c := Back(h)], current := s.current[c := None])
    case Finish(c) =>
      var h := s.phases[c].handle;
      s.(threads := SetState(s.threads, h, Done), finished := s.finished[h := s.finished[h] + 1],
         phases := s.phases[c := Back(h)], current := s.current[c := None])
    case Poll(c) =>
      var i := FirstEligible(s.threads, s.queue, c);
      if i == |s.queue| then s else s.(queue := Without(s.queue, i), phases := s.phases[c := Popped(s.queue[i])])
    case Dispatch(c) =>
      var h := s.phases[c].handle;
      s.(threads := SetState(s.threads, h, Running), phases := s.phases[c := Executing(h)],
         current := s.current[c := Some(h)])
    case Return(c) =>
      var h := s.phases[c].handle;
      s.(phases := s.phases[c := if Finishable(s.threads[h]) then Reclaiming(h) else Idle],
         current := s.current[c := None])
    case Recheck(c) =>
      var h := s.phases[c].handle;
      (if Finishable(s.threads[h]) then Reclaim(s, h) else s).(phases := s.phases[c := Idle])
    case Detach(h) => s.(threads := s.threads[h := s.threads[h].(detached := true)])
    case Join(h) => Reclaim(s, h)
  }

  /** The assertions of the source on the way of each step. */
  ghost predicate AssertionsHold(s: System, e: Event)
    requires Shaped(s) && Enabled(s, e)
  {
    match e
    case Create(_) => |s.queue| < THREAD_MAX_COUNT
    case Enqueue(_) => |s.queue| < THREAD_MAX_COUNT
    case Yield(c) =>
      && s.current[c] == Some(s.phases[c].handle) && s.threads[s.phases[c].handle].state == Running
      && |s.queue| < THREAD_MAX_COUNT
    case Finish(c) => s.current[c] == Some(s.phases[c].handle)
    case Dispatch(c) => s.threads[s.phases[c].handle].state == Ready
    case _ => true
  }

  // ---------------------------------------------------------------- the invariant

  /** The thread that a CPU owns: the one it has popped or is running. */
  predicate Owns(p: Phase, h: nat) { p == Popped(h) || p == Executing(h) }

  ghost predicate PhaseOk(s: System, c: nat)
    requires Shaped(s) && c < |s.phases|
  {
    match s.phases[c]
    case Popped(h) =>
      && s.threads[h].state == Ready && h !in s.queue && h !in s.creating
      && Eligible(s.threads[h], c) && s.current[c] == None
    case Executing(h) => s.threads[h].state == Running && Eligible(s.threads[h], c) && s.current[c] == Some(h)
    case _ => s.current[c] == None
  }

  ghost predicate HeldBySome(s: System, p: Phase) {
    exists c :: 0 <= c < |s.phases| && s.phases[c] == p
  }

  /** A ready thread is queued, or being created, or popped; a running one is running somewhere; a finished detached one
      still has a CPU that will reclaim it; and every finish is reclaimed at most once. */
  ghost predicate ThreadOk(s: System, h: nat)
    requires Shaped(s) && h < THREAD_MAX_COUNT
  {
    && (s.threads[h].state == Ready ==> h in s.queue || h in s.creating || HeldBySome(s, Popped(h)))
    && (s.threads[h].state == Running ==> HeldBySome(s, Executing(h)))
    && (s.threads[h].state == Free ==> !s.threads[h].detached)
    && (Finishable(s.threads[h]) ==> HeldBySome(s, Back(h)) || HeldBySome(s, Reclaiming(h)))
    && s.finished[h] == s.reclaimed[h] + (if s.threads[h].state == Done then 1 else 0)
  }

  /** Queued and newly created threads are ready, and nothing is queued twice. */
  ghost predicate QueueOk(s: System)
    requires Shaped(s)
  {
    && Distinct(s.queue)
    && (forall h <- s.queue :: s.threads[h].state == Ready && h !in s.creating)
    && (forall h <- s.creating :: h < THREAD_MAX_COUNT && s.threads[h].state == Ready)
  }

  /** No thread is owned by two CPUs. */
  ghost predicate OneOwner(s: System) {
    forall c, d, h: nat :: 0 <= c < |s.phases| && 0 <= d < |s.phases| && Owns(s.phases[c], h) && Owns(s.phases[d], h)
      ==> c == d
  }

  ghost predicate Inv(s: System) {
    && Shaped(s) && QueueOk(s) && OneOwner(s)
    && (forall c :: 0 <= c < |s.phases| ==> PhaseOk(s, c))
    && (forall h :: 0 <= h < THREAD_MAX_COUNT ==> ThreadOk(s, h))
  }

  // ---------------------------------------------------------------- the queue is never full

  function Members(q: seq<nat>): set<nat> { set h | h in q }

  lemma {:induction false} DistinctSize(q: seq<nat>)
    requires Distinct(q)
    ensures |Members(q)| == |q|
    decreases |q|
  {
    if q != [] {
      var rest := q[1..];
      DistinctSize(rest);
      assert q[0] !in rest;
      assert Members(q) == Members(rest) + {q[0]};
    }
  }

  lemma {:induction false} BelowSize(s: set<nat>, n: nat)
    requires forall h <- s :: h < n
    ensures |s| <= n
    decreases n
  {
    if n == 0 {
      assert s == {};
    } else {
      BelowSize(s - {n - 1}, n - 1);
      assert |s| <= |s - {n - 1}| + 1;
    }
  }

  /** A thread that is not queued leaves room for itself. */
  lemma RoomFor(s: System, h: nat)
    requires Inv(s) && h < THREAD_MAX_COUNT && h !in s.queue
    ensures |s.queue| < THREAD_MAX_COUNT
  {
    DistinctSize(s.queue);
    var all := Members(s.queue) + {h};
    assert |all| == |s.queue| + 1;
    forall k | k in all ensures k < THREAD_MAX_COUNT {
      if k in s.queue {
        var i :| 0 <= i < |s.queue| && s.queue[i] == k;
      }
    }
    BelowSize(all, THREAD_MAX_COUNT);
  }

  /** None of the scheduler's assertions ever fires. */
  lemma AssertionsNeverFire(s: System, e: Event)
    requires Inv(s) && Enabled(s, e)
    ensures AssertionsHold(s, e)
  {
    match e
    case Create(_) => RoomFor(s, FirstFree(s.threads, 0));
    case Enqueue(h) => RoomFor(s, h);
    case Yield(c) =>
      assert PhaseOk(s, c);
      RoomFor(s, s.phases[c].handle);
    case Finish(c) => assert PhaseOk(s, c);
    case Dispatch(c) => assert PhaseOk(s, c);
    case _ =>
  }

  // ---------------------------------------------------------------- every step keeps the invariant

  lemma CreateKeeps(s: System, affinity: nat)
    requires Inv(s) && Enabled(s, Create(affinity))
    ensures Inv(Next(s, Create(affinity)))
  {
    var t, f := Next(s, Create(affinity)), FirstFree(s.threads, 0);
    assert ThreadOk(s, f);
    forall c | 0 <= c < |t.phases| ensures PhaseOk(t, c) { assert PhaseOk(s, c); }
    forall h | 0 <= h < THREAD_MAX_COUNT ensures ThreadOk(t, h) {
      assert ThreadOk(s, h);
      SameHolders(s, t, h);
    }
  }

  lemma SameHolders(s: System, t: System, h: nat)
    requires t.phases == s.phases
    ensures forall p: Phase :: HeldBySome(s, p) == HeldBySome(t, p)
  {}

  lemma EnqueueKeeps(s: System, f: nat)
    requires Inv(s) && Enabled(s, Enqueue(f))
    ensures Inv(Next(s, Enqueue(f)))
  {
    var t := Next(s, Enqueue(f));
    forall c | 0 <= c < |t.phases| ensures PhaseOk(t, c) { assert PhaseOk(s, c); }
    forall h | 0 <= h < THREAD_MAX_COUNT ensures ThreadOk(t, h) {
      assert ThreadOk(s, h);
      SameHolders(s, t, h);
      assert h in s.queue || h == f ==> h in t.queue;
    }
  }

  /** Only CPU `c` has changed its phase, from `p` to `q`. */
  lemma Moved(s: System, t: System, c: nat, q: Phase)
    requires c < |s.phases| && t.phases == s.phases[c := q]
    ensures HeldBySome(t, q)
    ensures forall p: Phase :: p != s.phases[c] && HeldBySome(s, p) ==> HeldBySome(t, p)
  {
    assert t.phases[c] == q;
    forall p: Phase | p != s.phases[c] && HeldBySome(s, p) ensures HeldBySome(t, p) {
      var d :| 0 <= d < |s.phases| && s.phases[d] == p;
      assert t.phases[d] == p;
    }
  }

  lemma YieldKeeps(s: System, c: nat)
    requires Inv(s) && Enabled(s, Yield(c))
    ensures Inv(Next(s, Yield(c)))
  {
    var t, f := Next(s, Yield(c)), s.phases[c].handle;
    assert PhaseOk(s, c);
    Moved(s, t, c, Back(f));
    forall d | 0 <= d < |t.phases| ensures PhaseOk(t, d) {
      assert PhaseOk(s, d);
      assert d != c && Owns(s.phases[d], f) ==> Owns(s.phases[c], f);
    }
    forall h | 0 <= h < THREAD_MAX_COUNT ensures ThreadOk(t, h) { assert ThreadOk(s, h); }
  }

  lemma FinishKeeps(s: System, c: nat)
    requires Inv(s) && Enabled(s, Finish(c))
    ensures Inv(Next(s, Finish(c)))
  {
    var t, f := Next(s, Finish(c)), s.phases[c].handle;
    assert PhaseOk(s, c);
    Moved(s, t, c, Back(f));
    forall d | 0 <= d < |t.phases| ensures PhaseOk(t, d) {
      assert PhaseOk(s, d);
      assert d != c && Owns(s.phases[d], f) ==> Owns(s.phases[c], f);
    }
    forall h | 0 <= h < THREAD_MAX_COUNT ensures ThreadOk(t, h) { assert ThreadOk(s, h); }
  }

  lemma PollKeeps(s: System, c: nat)
    requires Inv(s) && Enabled(s, Poll(c))
    ensures Inv(Next(s, Poll(c)))
  {
    var t, i := Next(s, Poll(c)), FirstEligible(s.threads, s.queue, c);
    assert PhaseOk(s, c);
    if i < |s.queue| {
      var f := s.queue[i];
      assert f in s.queue;
      WithoutMembers(s.queue, i);
      Moved(s, t, c, Popped(f));
      forall d | 0 <= d < |t.phases| ensures PhaseOk(t, d) { assert PhaseOk(s, d); }
      forall d | 0 <= d < |s.phases| ensures !Owns(s.phases[d], f) { assert PhaseOk(s, d); }
      forall h | 0 <= h < THREAD_MAX_COUNT ensures ThreadOk(t, h) { assert ThreadOk(s, h); }
    }
  }

  lemma WithoutMembers(q: seq<nat>, i: nat)
    requires Distinct(q) && i < |q|
    ensures Distinct(Without(q, i)) && forall h :: h in Without(q, i) <==> h in q && h != q[i]
  {
    var r := Without(q, i);
    forall h | h in q && h != q[i] ensures h in r {
      var k :| 0 <= k < |q| && q[k] == h;
      assert k < i ==> r[k] == h;
      assert k > i ==> r[k - 1] == h;
    }
  }

  lemma DispatchKeeps(s: System, c: nat)
    requires Inv(s) && Enabled(s, Dispatch(c))
    ensures Inv(Next(s, Dispatch(c)))
  {
    var t, f := Next(s, Dispatch(c)), s.phases[c].handle;
    assert PhaseOk(s, c);
    Moved(s, t, c, Executing(f));
    forall d | 0 <= d < |t.phases| ensures PhaseOk(t, d) {
      assert PhaseOk(s, d);
      assert d != c && Owns(s.phases[d], f) ==> Owns(s.phases[c], f);
    }
    forall h | 0 <= h < THREAD_MAX_COUNT ensures ThreadOk(t, h) { assert ThreadOk(s, h); }
  }

  lemma ReturnKeeps(s: System, c: nat)
    requires Inv(s) && Enabled(s, Return(c))
    ensures Inv(Next(s, Return(c)))
  {
    var t := Next(s, Return(c));
    assert PhaseOk(s, c);
    Moved(s, t, c, t.phases[c]);
    forall d | 0 <= d < |t.phases| ensures PhaseOk(t, d) { assert PhaseOk(s, d); }
    forall h | 0 <= h < THREAD_MAX_COUNT ensures ThreadOk(t, h) { assert ThreadOk(s, h); }
  }

  lemma RecheckKeeps(s: System, c: nat)
    requires Inv(s) && Enabled(s, Recheck(c))
    ensures Inv(Next(s, Recheck(c)))
  {
    var t, f := Next(s, Recheck(c)), s.phases[c].handle;
    assert PhaseOk(s, c);
    Moved(s, t, c, Idle);
    forall d | 0 <= d < |t.phases| ensures PhaseOk(t, d) { assert PhaseOk(s, d); }
    forall h | 0 <= h < THREAD_MAX_COUNT ensures ThreadOk(t, h) { assert ThreadOk(s, h); }
  }

  lemma ClientKeeps(s: System, e: Event)
    requires Inv(s) && Enabled(s, e) && (e.Detach? || e.Join?)
    ensures Inv(Next(s, e))
  {
    var t := Next(s, e);
    forall d | 0 <= d < |t.phases| ensures PhaseOk(t, d) { assert PhaseOk(s, d); }
    forall h | 0 <= h < THREAD_MAX_COUNT ensures ThreadOk(t, h) {
      assert ThreadOk(s, h);
      SameHolders(s, t, h);
    }
  }

  lemma StepKeeps(s: System, e: Event)
    requires Inv(s) && Enabled(s, e)
    ensures Inv(Next(s, e))
  {
    match e
    case Create(affinity) => CreateKeeps(s, affinity);
    case Enqueue(h) => EnqueueKeeps(s, h);
    case Yield(c) => YieldKeeps(s, c);
    case Finish(c) => FinishKeeps(s, c);
    case Poll(c) => PollKeeps(s, c);
    case Dispatch(c) => DispatchKeeps(s, c);
    case Return(c) => ReturnKeeps(s, c);
    case Recheck(c) => RecheckKeeps(s, c);
    case Detach(_) => ClientKeeps(s, e);
    case Join(_) => ClientKeeps(s, e);
  }

  /** `initialize`: every slot free, nothing queued, every CPU idle. */
  function Initial(cpus: nat): System {
    System(seq(THREAD_MAX_COUNT, _ => BLANK), [], {}, seq(cpus, _ => Idle), seq(cpus, _ => None),
           seq(THREAD_MAX_COUNT, _ => 0), seq(THREAD_MAX_COUNT, _ => 0))
  }

  lemma InitialOk(cpus: nat)
    ensures Inv(Initial(cpus))
  {}

  // ---------------------------------------------------------------- runs

  /** The events can happen one after the other, starting from `s`. */
  ghost predicate Runs(s: System, es: seq<Event>)
    requires Inv(s)
    decreases |es|
  {
    es == [] || (Enabled(s, es[0]) && (StepKeeps(s, es[0]); Runs(Next(s, es[0]), es[1..])))
  }

  ghost function After(s: System, es: seq<Event>): System
    requires Inv(s) && Runs(s, es)
    decreases |es|
  {
    if es == [] then s else StepKeeps(s, es[0]); After(Next(s, es[0]), es[1..])
  }

  /** No assertion fires at any point of the run. */
  ghost predicate AllAssertionsHold(s: System, es: seq<Event>)
    requires Inv(s) && Runs(s, es)
    decreases |es|
  {
    es == [] || (AssertionsHold(s, es[0]) && (StepKeeps(s, es[0]); AllAssertionsHold(Next(s, es[0]), es[1..])))
  }

  lemma {:induction false} RunSafe(s: System, es: seq<Event>)
    requires Inv(s) && Runs(s, es)
    ensures AllAssertionsHold(s, es) && Inv(After(s, es))
    decreases |es|
  {
    if es != [] {
      AssertionsNeverFire(s, es[0]);
      StepKeeps(s, es[0]);
      RunSafe(Next(s, es[0]), es[1..]);
    }
  }

  /** What a reachable state looks like, in every interleaving: a ready thread is in exactly one of the queue, the hands
      of its creator, and those of one CPU; a running thread runs on exactly one CPU, one it is bound to; and no slot
      has been reclaimed more often than its threads have finished. */
  lemma Reachable(cpus: nat, es: seq<Event>, h: nat)
    requires h < THREAD_MAX_COUNT && (InitialOk(cpus); Runs(Initial(cpus), es))
    ensures var s := After(Initial(cpus), es);
      && Inv(s) && AllAssertionsHold(Initial(cpus), es)
      && (s.threads[h].state == Ready <==> h in s.queue || h in s.creating || HeldBySome(s, Popped(h)))
      && (s.threads[h].state == Running <==> HeldBySome(s, Executing(h)))
      && !(h in s.queue && h in s.creating)
      && (HeldBySome(s, Popped(h)) ==> h !in s.queue && h !in s.creating)
      && (forall i, j :: 0 <= i < j < |s.queue| ==> s.queue[i] != s.queue[j])
      && (forall c, d :: 0 <= c < d < |s.phases| && Owns(s.phases[c], h) ==> !Owns(s.phases[d], h))
      && (forall c :: 0 <= c < |s.phases| && s.phases[c] == Executing(h) ==> Eligible(s.threads[h], c))
      && (Finishable(s.threads[h]) ==> HeldBySome(s, Back(h)) || HeldBySome(s, Reclaiming(h)))
      && s.reclaimed[h] <= s.finished[h] <= s.reclaimed[h] + 1
  {
    RunSafe(Initial(cpus), es);
    var s := After(Initial(cpus), es);
    assert ThreadOk(s, h);
    forall c | 0 <= c < |s.phases| && s.phases[c] == Popped(h)
      ensures s.threads[h].state == Ready && h !in s.queue && h !in s.creating
    {
      assert PhaseOk(s, c);
    }
    forall c | 0 <= c < |s.phases| && s.phases[c] == Executing(h)
      ensures s.threads[h].state == Running && Eligible(s.threads[h], c)
    {
      assert PhaseOk(s, c);
    }
  }

  // ---------------------------------------------------------------- what a thread is bound to

  /** Until its slot is reclaimed a thread keeps its slot and what it is bound to. */
  lemma BindingStays(s: System, e: Event, h: nat)
    requires Inv(s) && Enabled(s, e) && h < THREAD_MAX_COUNT && s.threads[h].state != Free
    ensures |Next(s, e).threads| == |Next(s, e).reclaimed| == THREAD_MAX_COUNT
    ensures Next(s, e).reclaimed[h] >= s.reclaimed[h]
    ensures Next(s, e).reclaimed[h] == s.reclaimed[h] ==>
      Next(s, e).threads[h].state != Free && Next(s, e).threads[h].affinity == s.threads[h].affinity
  {
    StepKeeps(s, e);
  }

  lemma ReclaimedGrows(s: System, e: Event, h: nat)
    requires Inv(s) && Enabled(s, e) && h < THREAD_MAX_COUNT
    ensures |Next(s, e).reclaimed| == THREAD_MAX_COUNT && Next(s, e).reclaimed[h] >= s.reclaimed[h]
  {
    StepKeeps(s, e);
  }

  lemma {:induction false} NeverUnreclaimed(s: System, es: seq<Event>, h: nat)
    requires Inv(s) && Runs(s, es) && h < THREAD_MAX_COUNT
    ensures Inv(After(s, es)) && After(s, es).reclaimed[h] >= s.reclaimed[h]
    decreases |es|
  {
    hide Next;
    if es != [] {
      StepKeeps(s, es[0]);
      ReclaimedGrows(s, es[0], h);
      NeverUnreclaimed(Next(s, es[0]), es[1..], h);
    }
  }

  lemma {:induction false} BindingRuns(s: System, es: seq<Event>, h: nat)
    requires Inv(s) && Runs(s, es) && h < THREAD_MAX_COUNT && s.threads[h].state != Free
    requires Inv(After(s, es)) && After(s, es).reclaimed[h] == s.reclaimed[h]
    ensures After(s, es).threads[h].state != Free && After(s, es).threads[h].affinity == s.threads[h].affinity
    decreases |es|
  {
    hide Next;
    if es != [] {
      StepKeeps(s, es[0]);
      BindingStays(s, es[0], h);
      NeverUnreclaimed(Next(s, es[0]), es[1..], h);
      BindingRuns(Next(s, es[0]), es[1..], h);
    }
  }

  /** `create_thread` takes the lowest free slot for a thread that is ready, not detached, and bound as asked. */
  lemma CreatedAs(s: System, a: nat, h: nat)
    requires Inv(s) && h < THREAD_MAX_COUNT && s.threads[h].state == Free
    requires forall k :: 0 <= k < h ==> s.threads[k].state != Free
    ensures Enabled(s, Create(a)) && Next(s, Create(a)).threads == s.threads[h := Thread(Ready, a, false)]
    ensures Next(s, Create(a)).queue == s.queue && Next(s, Create(a)).phases == s.phases
    ensures Next(s, Create(a)).reclaimed == s.reclaimed
  {
    assert FirstFree(s.threads, 0) == h;
    assert ThreadOk(s, h);
  }

  /** In every interleaving, from the creation of a thread that is to run on CPU `a` until its slot is reclaimed, no
      other CPU takes it or runs it. */
  lemma RunsWhereBound(s: System, a: nat, h: nat, es: seq<Event>, c: nat)
    requires Inv(s) && Enabled(s, Create(a)) && h < THREAD_MAX_COUNT && s.threads[h].state == Free
    requires forall k :: 0 <= k < h ==> s.threads[k].state != Free
    requires Inv(Next(s, Create(a))) && Runs(Next(s, Create(a)), es)
    requires var t := After(Next(s, Create(a)), es);
      |t.reclaimed| == THREAD_MAX_COUNT && t.reclaimed[h] == s.reclaimed[h]
      && c < |t.phases| && (t.phases[c] == Popped(h) || t.phases[c] == Executing(h))
    ensures a == ANY_CPU || c == a
  {
    hide Next;
    CreatedAs(s, a, h);
    var t := Next(s, Create(a));
    RunSafe(t, es);
    BindingRuns(t, es, h);
    assert PhaseOk(After(t, es), c);
  }

  // ---------------------------------------------------------------- waiting in the queue

  /** Where `h` is in the queue. */
  function Position(q: seq<nat>, h: nat): (i: nat)
    requires h in q
    ensures i < |q| && q[i] == h && forall k :: 0 <= k < i ==> q[k] != h
  {
    if q[0] == h then 0 else 1 + Position(q[1..], h)
  }

  lemma PositionIs(q: seq<nat>, h: nat, i: nat)
    requires Distinct(q) && i < |q| && q[i] == h
    ensures h in q && Position(q, h) == i
  {
    assert h in q;
    var p := Position(q, h);
    assert p <= i && q[p] == q[i];
  }

  lemma RestPosition(s: System, e: Event, h: nat)
    requires Inv(s) && Enabled(s, e) && h in s.queue && !e.Poll?
    ensures h in Next(s, e).queue && Position(Next(s, e).queue, h) == Position(s.queue, h)
  {
    var q, i := Next(s, e).queue, Position(s.queue, h);
    assert q[i] == h;
    StepKeeps(s, e);
    PositionIs(q, h, i);
  }

  lemma PollPosition(s: System, d: nat, h: nat)
    requires Inv(s) && Enabled(s, Poll(d)) && h in s.queue
    ensures var t := Next(s, Poll(d));
      if h in t.queue then
        Position(t.queue, h) <= Position(s.queue, h)
        && (Eligible(s.threads[h], d) ==> Position(t.queue, h) < Position(s.queue, h))
      else t.phases[d] == Popped(h)
  {
    var t, i, p := Next(s, Poll(d)), FirstEligible(s.threads, s.queue, d), Position(s.queue, h);
    assert s.queue[p] == h;
    if i < |s.queue| {
      WithoutMembers(s.queue, i);
      if i < p {
        PositionIs(t.queue, h, p - 1);
      } else if p < i {
        PositionIs(t.queue, h, p);
      }
    }
  }

  /** While a thread is queued nobody changes what it is bound to. */
  lemma AffinityStays(s: System, e: Event, h: nat)
    requires Inv(s) && Enabled(s, e) && h in s.queue
    ensures h < THREAD_MAX_COUNT && Next(s, e).threads[h].affinity == s.threads[h].affinity
  {
    var i :| 0 <= i < |s.queue| && s.queue[i] == h;
    assert s.threads[h].state == Ready;
    if e.Recheck? { assert PhaseOk(s, e.cpu); }
  }

  function Polls(es: seq<Event>, c: nat): nat {
    if es == [] then 0 else (if es[0] == Poll(c) then 1 else 0) + Polls(es[1..], c)
  }

  /** Some poll of the run takes `h` out of the queue. */
  ghost predicate PoppedIn(s: System, es: seq<Event>, h: nat)
    requires Inv(s) && Runs(s, es)
    decreases |es|
  {
    es != [] && (StepKeeps(s, es[0]);
      || (es[0].Poll? && Next(s, es[0]).phases[es[0].cpu] == Popped(h))
      || PoppedIn(Next(s, es[0]), es[1..], h))
  }

  /** A thread at position `p` that may run on `c` is taken, by `c` or by another CPU, before `c` has polled more than
      `p + 1` times, whatever else happens. */
  lemma {:induction false} DispatchedWithin(s: System, es: seq<Event>, h: nat, c: nat)
    requires Inv(s) && Runs(s, es) && h in s.queue && h < THREAD_MAX_COUNT && Eligible(s.threads[h], c)
    requires Polls(es, c) >= Position(s.queue, h) + 1
    ensures PoppedIn(s, es, h)
    decreases |es|
  {
    var e := es[0];
    var t := Next(s, e);
    StepKeeps(s, e);
    AffinityStays(s, e, h);
    if e.Poll? { PollPosition(s, e.cpu, h); } else { RestPosition(s, e, h); }
    if h in t.queue { DispatchedWithin(t, es[1..], h, c); }
  }
}
