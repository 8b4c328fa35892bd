/** The concurrent probe of a subnet: one task per target, a semaphore, and a shared result set. */
module ActiveSweep {
  import opened Addresses
  import opened Subnets

  const MAX_CONCURRENT: nat := 256

  /**
   * Where a target's task is. The task holds its own handle on the shared set from `Waiting` to `Settled`
   * and a permit from `Probing` to `Closed`.
   */
  datatype Phase =
    | Unspawned
    | Waiting      // spawned, no permit yet
    | Probing      // permit held, probe running
    | Answered     // the probe succeeded, the result is not yet stored
    | Settled      // nothing left to store
    | Closed       // the handle on the shared set is dropped
    | Finished     // the permit is returned
    | Joined       // the sweep has collected the task

  datatype State = State(phase: map<Ipv4, Phase>, found: set<Ipv4>, permits: nat, owners: nat)

  datatype Action =
    | Spawn(t: Ipv4) | Acquire(t: Ipv4) | Probe(t: Ipv4) | Store(t: Ipv4)
    | DropHandle(t: Ipv4) | Release(t: Ipv4) | Join(t: Ipv4)

  /** Before the first task: all permits free, and the sweep itself the only owner of the result set. */
  function Start(targets: set<Ipv4>): State
  {
    State(map t | t in targets :: Unspawned, {}, MAX_CONCURRENT, 1)
  }

  function Before(a: Action): Phase
  {
    match a
    case Spawn(_) => Unspawned
    case Acquire(_) => Waiting
    case Probe(_) => Probing
    case Store(_) => Answered
    case DropHandle(_) => Settled
    case Release(_) => Closed
    case Join(_) => Finished
  }

  predicate AllSpawned(s: State)
  {
    forall t :: t in s.phase ==> !s.phase[t].Unspawned?
  }

  /** An atomic step a task, or the sweep, can take. Acquiring can block; the sweep spawns all tasks before it joins. */
  predicate Enabled(s: State, a: Action)
  {
    && a.t in s.phase && s.phase[a.t] == Before(a)
    && (a.Acquire? ==> s.permits > 0) && (a.DropHandle? ==> s.owners > 0) && (a.Join? ==> AllSpawned(s))
  }

  /** The effect of a step; `responds` is the outcome of each target's probe. */
  function Do(s: State, a: Action, responds: set<Ipv4>): State
    requires Enabled(s, a)
  {
    match a
    case Spawn(t) => s.(phase := s.phase[t := Waiting], owners := s.owners + 1)
    case Acquire(t) => s.(phase := s.phase[t := Probing], permits := s.permits - 1)
    case Probe(t) => s.(phase := s.phase[t := if t in responds then Answered else Settled])
    case Store(t) => s.(phase := s.phase[t := Settled], found := s.found + {t})
    case DropHandle(t) => s.(phase := s.phase[t := Closed], owners := s.owners - 1)
    case Release(t) => s.(phase := s.phase[t := Finished], permits := s.permits + 1)
    case Join(t) => s.(phase := s.phase[t := Joined])
  }

  ghost predicate Reachable(targets: set<Ipv4>, responds: set<Ipv4>, s: State, steps: nat)
    decreases steps
  {
    if steps == 0 then s == Start(targets) else
      exists before, a :: Reachable(targets, responds, before, steps - 1) && Takes(before, a, responds, s)
  }

  predicate Takes(before: State, a: Action, responds: set<Ipv4>, after: State)
  {
    Enabled(before, a) && after == Do(before, a, responds)
  }

  // ----- Invariant -----

  function Holders(s: State): set<Ipv4>
  {
    set t | t in s.phase && (s.phase[t].Probing? || s.phase[t].Answered? || s.phase[t].Settled? || s.phase[t].Closed?)
  }

  function Sharers(s: State): set<Ipv4>
  {
    set t | t in s.phase && (s.phase[t].Waiting? || s.phase[t].Probing? || s.phase[t].Answered? || s.phase[t].Settled?)
  }

  function Stored(s: State, responds: set<Ipv4>): set<Ipv4>
  {
    set t | t in s.phase && t in responds
            && (s.phase[t].Settled? || s.phase[t].Closed? || s.phase[t].Finished? || s.phase[t].Joined?)
  }

  ghost predicate Invariant(targets: set<Ipv4>, responds: set<Ipv4>, s: State)
  {
    && s.phase.Keys == targets
    && s.permits + |Holders(s)| == MAX_CONCURRENT
    && s.owners == 1 + |Sharers(s)|
    && s.found == Stored(s, responds)
    && (forall t :: t in s.phase && s.phase[t].Answered? ==> t in responds)
  }

  lemma StartInvariant(targets: set<Ipv4>, responds: set<Ipv4>)
    ensures Invariant(targets, responds, Start(targets))
  {
    assert Holders(Start(targets)) == {} && Sharers(Start(targets)) == {};
  }

  /** Permits are taken and returned, and handles created and dropped, one task at a time. */
  lemma StepCounts(s: State, a: Action, responds: set<Ipv4>)
    requires Enabled(s, a)
    ensures var after := Do(s, a, responds);
            && |Holders(after)| == |Holders(s)| + (if a.Acquire? then 1 else if a.Release? then -1 else 0)
            && |Sharers(after)| == |Sharers(s)| + (if a.Spawn? then 1 else if a.DropHandle? then -1 else 0)
  {
    StepSets(s, a, responds);
  }

  lemma StepSets(s: State, a: Action, responds: set<Ipv4>)
    requires Enabled(s, a)
    ensures var after := Do(s, a, responds);
            && Holders(after) == (if a.Acquire? then Holders(s) + {a.t} else if a.Release? then Holders(s) - {a.t}
                                  else Holders(s))
            && Sharers(after) == (if a.Spawn? then Sharers(s) + {a.t} else if a.DropHandle? then Sharers(s) - {a.t}
                                  else Sharers(s))
    ensures a.Acquire? ==> a.t !in Holders(s)
    ensures a.Release? ==> a.t in Holders(s)
    ensures a.Spawn? ==> a.t !in Sharers(s)
    ensures a.DropHandle? ==> a.t in Sharers(s)
  {
  }

  lemma StepStored(s: State, a: Action, responds: set<Ipv4>)
    requires Enabled(s, a) && (a.Store? ==> a.t in responds)
    ensures Stored(Do(s, a, responds), responds) == Stored(s, responds) + if a.Store? then {a.t} else {}
  {
  }

  lemma StepInvariant(targets: set<Ipv4>, responds: set<Ipv4>, s: State, a: Action)
    requires Invariant(targets, responds, s) && Enabled(s, a)
    ensures Invariant(targets, responds, Do(s, a, responds))
  {
    hide Holders, Sharers, Stored;
    StepCounts(s, a, responds);
    StepStored(s, a, responds);
  }

  lemma {:induction false} ReachableInvariant(targets: set<Ipv4>, responds: set<Ipv4>, s: State, steps: nat)
    requires Reachable(targets, responds, s, steps)
    ensures Invariant(targets, responds, s)
    decreases steps
  {
    if steps == 0 {
      StartInvariant(targets, responds);
    } else {
      var before, a :| Reachable(targets, responds, before, steps - 1) && Takes(before, a, responds, s);
      ReachableInvariant(targets, responds, before, steps - 1);
      StepInvariant(targets, responds, before, a);
    }
  }

  // ----- Safety and exactness -----

  /** At most 256 probes run at once, and only responding targets are ever found, under every interleaving. */
  lemma SweepSafe(targets: set<Ipv4>, responds: set<Ipv4>, s: State, steps: nat)
    requires Reachable(targets, responds, s, steps)
    ensures |Holders(s)| <= 256
    ensures s.found <= targets * responds
  {
    ReachableInvariant(targets, responds, s, steps);
  }

  predicate AllJoined(s: State)
  {
    forall t :: t in s.phase ==> s.phase[t].Joined?
  }

  /** When every task is joined, the responding targets have been found exactly and the sweep is the sole owner. */
  lemma SweepExact(targets: set<Ipv4>, responds: set<Ipv4>, s: State, steps: nat)
    requires Reachable(targets, responds, s, steps) && AllJoined(s)
    ensures s.found == targets * responds
    ensures s.owners == 1 && s.permits == MAX_CONCURRENT
  {
    ReachableInvariant(targets, responds, s, steps);
    assert Holders(s) == {} && Sharers(s) == {};
  }

  // ----- Progress -----

  function StepAt(t: Ipv4, phase: Phase): Action
    requires !phase.Joined?
  {
    match phase
    case Unspawned => Spawn(t)
    case Waiting => Acquire(t)
    case Probing => Probe(t)
    case Answered => Store(t)
    case Settled => DropHandle(t)
    case Closed => Release(t)
    case Finished => Join(t)
  }

  /** The sweep never deadlocks: until every task is joined, some step is possible. */
  lemma SweepNeverStuck(targets: set<Ipv4>, responds: set<Ipv4>, s: State, steps: nat) returns (a: Action)
    requires Reachable(targets, responds, s, steps) && !AllJoined(s)
    ensures Enabled(s, a)
  {
    ReachableInvariant(targets, responds, s, steps);
    var t :| t in s.phase && !s.phase[t].Joined?;
    if !AllSpawned(s) {
      t :| t in s.phase && s.phase[t].Unspawned?;
    }
    if s.phase[t].Waiting? && s.permits == 0 {
      assert |Holders(s)| == MAX_CONCURRENT;
      var h :| h in Holders(s);
      t := h;
    }
    a := StepAt(t, s.phase[t]);
    if a.DropHandle? {
      assert t in Sharers(s);
    }
  }

  /** Tasks that still have the given number of steps, or more, before them. */
  function AtLeast(s: State, left: nat): set<Ipv4>
  {
    set t | t in s.phase && left <= Left(s.phase[t])
  }

  function Left(phase: Phase): nat
  {
    match phase
    case Unspawned => 7
    case Waiting => 6
    case Probing => 5
    case Answered => 4
    case Settled => 3
    case Closed => 2
    case Finished => 1
    case Joined => 0
  }

  /** All steps still before all tasks. */
  function Work(s: State): nat
  {
    |AtLeast(s, 1)| + |AtLeast(s, 2)| + |AtLeast(s, 3)| + |AtLeast(s, 4)| + |AtLeast(s, 5)| + |AtLeast(s, 6)|
    + |AtLeast(s, 7)|
  }

  lemma SubsetSize(a: set<Ipv4>, b: set<Ipv4>)
    requires a <= b
    ensures |a| <= |b|
    ensures a != b ==> |a| < |b|
  {
    assert |b| == |a| + |b - a| by {
      assert b == a + (b - a);
    }
  }

  lemma StepShrinks(s: State, a: Action, responds: set<Ipv4>, n: nat)
    requires Enabled(s, a)
    ensures |AtLeast(Do(s, a, responds), n)| <= |AtLeast(s, n)|
    ensures n == Left(s.phase[a.t]) ==> |AtLeast(Do(s, a, responds), n)| < |AtLeast(s, n)|
  {
    var after := Do(s, a, responds);
    assert Left(after.phase[a.t]) < Left(s.phase[a.t]);
    assert n == Left(s.phase[a.t]) ==> a.t in AtLeast(s, n) && a.t !in AtLeast(after, n);
    SubsetSize(AtLeast(after, n), AtLeast(s, n));
  }

  lemma StepWorks(s: State, a: Action, responds: set<Ipv4>)
    requires Enabled(s, a)
    ensures Work(Do(s, a, responds)) < Work(s)
  {
    forall n: nat | 1 <= n <= 7
      ensures |AtLeast(Do(s, a, responds), n)| <= |AtLeast(s, n)|
      ensures n == Left(s.phase[a.t]) ==> |AtLeast(Do(s, a, responds), n)| < |AtLeast(s, n)|
    {
      StepShrinks(s, a, responds, n);
    }
  }

  lemma {:induction false} StepsBounded(targets: set<Ipv4>, responds: set<Ipv4>, s: State, steps: nat)
    requires Reachable(targets, responds, s, steps)
    ensures steps + Work(s) <= 7 * |targets|
    decreases steps
  {
    if steps == 0 {
      assert forall n: nat :: n <= 7 ==> AtLeast(s, n) == targets;
    } else {
      var before, a :| Reachable(targets, responds, before, steps - 1) && Takes(before, a, responds, s);
      StepsBounded(targets, responds, before, steps - 1);
      StepWorks(before, a, responds);
    }
  }

  /**
   * Every run is finite: at most seven steps per target. With `SweepNeverStuck`, every run ends with all tasks
   * joined.
   */
  lemma SweepTerminates(targets: set<Ipv4>, responds: set<Ipv4>, s: State, steps: nat)
    requires Reachable(targets, responds, s, steps)
    ensures steps <= 7 * |targets|
  {
    StepsBounded(targets, responds, s, steps);
  }

  /** From a subnet to its sweep: what is found is exactly the responding hosts that were not known before. */
  lemma SweepOfSubnet(subnet: Ipv4, prefix: Prefix, known: set<Ipv4>, source: Ipv4, responds: set<Ipv4>,
                      s: State, steps: nat)
    requires Reachable((set t | t in SweepTargets(subnet, prefix, known, source)), responds, s, steps) && AllJoined(s)
    ensures forall a: Ipv4 :: a in s.found
              <==> InSubnet(a, subnet, prefix) && a % 0x100 != 0 && a % 0x100 != 255
                   && a !in known && a != source && a in responds
  {
    var targets := set t | t in SweepTargets(subnet, prefix, known, source);
    SweepExact(targets, responds, s, steps);
    SweepTargetsExact(subnet, prefix, known, source);
  }
}
