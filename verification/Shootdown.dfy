/** The TLB shootdown protocol as a step system: the initiator's stores, its interrupts and its wait, interleaved in any
    way with the handlers of the other CPUs. The set of online CPUs is fixed, and memory is sequentially consistent. */
module Shootdown {
  const MAX_CPUS: nat := 64

  /** How far the holder of the lock has come in `shootdown`. */
  datatype Stage = Clearing | Counting | Publishing | Sending(next: nat) | Flushing | Waiting

  datatype Round = NoRound | Round(self: nat, page: nat, stage: Stage)

  /** A CPU's share in the round: not interrupted; interrupted; in the handler with the address it has read; past the
      flush; done. */
  datatype Handler = Quiet | Pending | Loaded(page: nat) | Flushed | Acked

  datatype System = System(
    online: set<nat>,
    /** The shootdown in progress, whose CPU holds the lock. */
    round: Round,
    acknowledgments: nat,
    required: nat,
    address: nat,
    handlers: seq<Handler>,
    /** The CPUs whose handlers are done. */
    acked: set<nat>,
    /** Which CPU has flushed which page since the round began. */
    flushed: set<(nat, nat)>)

  datatype Event =
    | Begin(cpu: nat, page: nat)
    | Advance
    | End
    | Take(cpu: nat)
    | Flush(cpu: nat)
    | Acknowledge(cpu: nat)

  function Others(s: System): set<nat>
    requires s.round.Round?
  {
    s.online - {s.round.self}
  }

  /** What each step waits for: the lock, the loop condition of the spin, a pending interrupt, the handler's previous
      step. */
  predicate Enabled(s: System, e: Event) {
    match e
    case Begin(cpu, _) => s.round.NoRound? && cpu in s.online && |s.online| > 1
    case Advance => s.round.Round? && !s.round.stage.Waiting?
    case End => s.round.Round? && s.round.stage.Waiting? && s.acknowledgments >= s.required
    case Take(cpu) => cpu < |s.handlers| && s.handlers[cpu].Pending?
    case Flush(cpu) => cpu < |s.handlers| && s.handlers[cpu].Loaded?
    case Acknowledge(cpu) => cpu < |s.handlers| && s.handlers[cpu].Flushed?
  }

  /** The next statement of the initiator. */
  function Advanced(s: System): System
    requires Enabled(s, Advance)
  {
    var r := s.round;
    match r.stage
    case Clearing => s.(acknowledgments := 0, round := r.(stage := Counting))
    case Counting => s.(required := |Others(s)|, round := r.(stage := Publishing))
    case Publishing => s.(address := r.page, round := r.(stage := Sending(0)))
    case Sending(i) =>
      if i >= MAX_CPUS then s.(round := r.(stage := Flushing))
      else
        s.(handlers := if i in Others(s) && i < |s.handlers| then s.handlers[i := Pending] else s.handlers,
           round := r.(stage := Sending(i + 1)))
    case Flushing => s.(flushed := s.flushed + {(r.self, r.page)}, round := r.(stage := Waiting))
    case Waiting => s
  }

  function Next(s: System, e: Event): System
    requires Enabled(s, e)
  {
    match e
    case Begin(cpu, page) =>
      s.(round := Round(cpu, page, Clearing), handlers := Settled(s.handlers), acked := {}, flushed := {})
    case Advance => Advanced(s)
    case End => s.(round := NoRound)
    case Take(cpu) => s.(handlers := s.handlers[cpu := Loaded(s.address)])
    case Flush(cpu) =>
      s.(handlers := s.handlers[cpu := Flushed], flushed := s.flushed + {(cpu, s.handlers[cpu].page)})
    case Acknowledge(cpu) =>
      s.(handlers := s.handlers[cpu := Acked], acked := s.acked + {cpu}, acknowledgments := s.acknowledgments + 1)
  }

  function AllQuiet(): seq<Handler> { seq(MAX_CPUS, _ => Quiet) }

  /** A new round starts: handlers that are done count as not yet interrupted, any others go on. */
  function Settled(hs: seq<Handler>): seq<Handler> {
    seq(|hs|, c requires 0 <= c < |hs| => if hs[c].Acked? then Quiet else hs[c])
  }

  // ---------------------------------------------------------------- the invariant

  ghost predicate NothingInFlight(s: System) {
    forall c :: 0 <= c < |s.handlers| ==> s.handlers[c].Quiet? || s.handlers[c].Acked?
  }

  ghost predicate NothingBegun(s: System) {
    s.acked == {} && forall c :: 0 <= c < |s.handlers| ==> s.handlers[c].Quiet?
  }

  /** CPU `c` has its place in the round once the loop that sends interrupts is at `n`. */
  ghost predicate HandlerOk(s: System, n: nat, c: nat)
    requires s.round.Round? && c < |s.handlers|
  {
    && (s.handlers[c].Quiet? <==> !(c in Others(s) && c < n))
    && (s.handlers[c].Loaded? ==> s.handlers[c].page == s.round.page)
    && (s.handlers[c].Flushed? || s.handlers[c].Acked? ==> (c, s.round.page) in s.flushed)
    && (s.handlers[c].Acked? <==> c in s.acked)
  }

  ghost predicate InFlight(s: System, n: nat)
    requires s.round.Round?
  {
    && (forall c :: 0 <= c < |s.handlers| ==> HandlerOk(s, n, c))
    && (forall c <- s.acked :: c < |s.handlers|)
    && s.acknowledgments == |s.acked| && s.required == |Others(s)| && s.address == s.round.page
  }

  ghost predicate Inv(s: System) {
    && |s.handlers| == MAX_CPUS && (forall c <- s.online :: c < MAX_CPUS)
    && match s.round
       case NoRound => NothingInFlight(s)
       case Round(self, page, stage) =>
         && self in s.online
         && match stage
            case Clearing => NothingBegun(s)
            case Counting => NothingBegun(s) && s.acknowledgments == 0
            case Publishing => NothingBegun(s) && s.acknowledgments == 0 && s.required == |Others(s)|
            case Sending(n) => n <= MAX_CPUS && InFlight(s, n)
            case Flushing => InFlight(s, MAX_CPUS)
            case Waiting => InFlight(s, MAX_CPUS) && (self, page) in s.flushed
  }

  lemma SubsetOfSize(s: set<nat>, t: set<nat>)
    requires s <= t && |s| >= |t|
    ensures s == t
  {
    assert t == s + (t - s);
    assert |t| == |s| + |t - s|;
  }

  lemma AdvanceKeeps(s: System)
    requires Inv(s) && Enabled(s, Advance)
    ensures Inv(Advanced(s)) && Advanced(s).online == s.online
  {
    var t := Advanced(s);
    if s.round.stage.Sending? && s.round.stage.next < MAX_CPUS {
      var n, next := s.round.stage.next, s.round.stage.next + 1;
      forall c | 0 <= c < MAX_CPUS ensures HandlerOk(t, next, c) { assert HandlerOk(s, n, c); }
    } else if s.round.stage.Flushing? {
      forall c | 0 <= c < MAX_CPUS ensures HandlerOk(t, MAX_CPUS, c) { assert HandlerOk(s, MAX_CPUS, c); }
    } else if s.round.stage.Sending? {
      forall c | 0 <= c < MAX_CPUS ensures HandlerOk(t, MAX_CPUS, c) { assert HandlerOk(s, MAX_CPUS, c); }
    } else if s.round.stage.Publishing? {
      forall c | 0 <= c < MAX_CPUS ensures HandlerOk(t, 0, c) {}
    }
  }

  /** The position of the sending loop, once it has begun. */
  function Sent(stage: Stage): nat { if stage.Sending? then stage.next else MAX_CPUS }

  lemma HandlerKeeps(s: System, e: Event)
    requires Inv(s) && Enabled(s, e) && (e.Take? || e.Flush? || e.Acknowledge?)
    ensures Inv(Next(s, e)) && Next(s, e).online == s.online
  {
    var t, n := Next(s, e), Sent(s.round.stage);
    assert InFlight(s, n);
    assert HandlerOk(s, n, e.cpu);
    forall c | 0 <= c < MAX_CPUS ensures HandlerOk(t, n, c) { assert HandlerOk(s, n, c); }
  }

  /** When the spin ends, every other CPU has acknowledged. */
  lemma EndMeansAll(s: System)
    requires Inv(s) && Enabled(s, End)
    ensures s.acked == Others(s) && NothingInFlight(s)
  {
    forall c | c in s.acked ensures c in Others(s) { assert HandlerOk(s, MAX_CPUS, c); }
    SubsetOfSize(s.acked, Others(s));
    forall c | 0 <= c < MAX_CPUS ensures s.handlers[c].Quiet? || s.handlers[c].Acked? {
      assert HandlerOk(s, MAX_CPUS, c);
    }
  }

  lemma StepKeeps(s: System, e: Event)
    requires Inv(s) && Enabled(s, e)
    ensures Inv(Next(s, e)) && Next(s, e).online == s.online
  {
    match e
    case Begin(_, _) =>
    case Advance => AdvanceKeeps(s);
    case End => EndMeansAll(s);
    case Take(_) => HandlerKeeps(s, e);
    case Flush(_) => HandlerKeeps(s, e);
    case Acknowledge(_) => HandlerKeeps(s, e);
  }

  // ---------------------------------------------------------------- runs

  ghost predicate Runs(s: System, es: seq<Event>)
    decreases |es|
  {
    es == [] || (Enabled(s, es[0]) && Runs(Next(s, es[0]), es[1..]))
  }

  ghost function After(s: System, es: seq<Event>): System
    requires Runs(s, es)
    decreases |es|
  {
    if es == [] then s else After(Next(s, es[0]), es[1..])
  }

  lemma {:induction false} RunKeeps(s: System, es: seq<Event>)
    requires Inv(s) && Runs(s, es)
    ensures Inv(After(s, es)) && After(s, es).online == s.online
    decreases |es|
  {
    if es != [] {
      StepKeeps(s, es[0]);
      RunKeeps(Next(s, es[0]), es[1..]);
    }
  }

  function Initial(online: set<nat>): System {
    System(online, NoRound, 0, 0, 0, AllQuiet(), {}, {})
  }

  /** In every interleaving of any number of rounds: when a shootdown is about to return, every online CPU has flushed
      its page since it began, and no interrupt or handler is left over for a later round. */
  lemma ReturnsAfterAllFlushed(online: set<nat>, es: seq<Event>)
    requires (forall c <- online :: c < MAX_CPUS) && Runs(Initial(online), es)
    requires Enabled(After(Initial(online), es), End)
    ensures var s := After(Initial(online), es);
      (forall c <- online :: (c, s.round.page) in s.flushed) && NothingInFlight(s)
  {
    RunKeeps(Initial(online), es);
    var s := After(Initial(online), es);
    EndMeansAll(s);
    forall c | c in online ensures (c, s.round.page) in s.flushed {
      assert HandlerOk(s, MAX_CPUS, c);
    }
  }

  /** At every moment after the counter was cleared it equals the number of CPUs that have acknowledged this round, each
      of which has flushed this round's page. */
  lemma CounterIsExact(online: set<nat>, es: seq<Event>)
    requires (forall c <- online :: c < MAX_CPUS) && Runs(Initial(online), es)
    ensures var s := After(Initial(online), es);
      s.round.Round? && !s.round.stage.Clearing? ==>
        s.acknowledgments == |s.acked| && s.acked <= Others(s) && forall c <- s.acked :: (c, s.round.page) in s.flushed
  {
    RunKeeps(Initial(online), es);
    var s := After(Initial(online), es);
    if s.round.Round? && !s.round.stage.Clearing? {
      forall c | c in s.acked ensures c in Others(s) && (c, s.round.page) in s.flushed {
        assert HandlerOk(s, Sent(s.round.stage), c);
      }
    }
  }
}
