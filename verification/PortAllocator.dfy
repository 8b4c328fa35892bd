/** The lock-free source-port counters, under every interleaving of the threads that use them. */
module PortAllocator {
  import opened Arithmetic

  /** Ports cycle through `lo ..= hi`; the counter starts at `lo`. */
  datatype Range = Range(lo: nat, hi: nat)

  predicate Proper(r: Range)
  {
    r.lo <= r.hi < 0x1_0000
  }

  /** The active sweep's range and the fingerprinter's. */
  const PROBE := Range(51000, 60000)
  const FINGERPRINT := Range(43210, 50000)

  function Successor(r: Range, current: nat): nat
  {
    if current >= r.hi then r.lo else current + 1
  }

  /**
   * A thread is outside the loop, or in it holding the counter value it last saw. `readAt` is a history
   * variable: how many ports had been handed out when it saw that value.
   */
  datatype Thread = Outside | Retrying(current: nat, readAt: nat)

  /** A port handed out, and the thread that got it. */
  datatype Issue = Issue(port: nat, thread: nat)

  /** The shared counter, every thread, and a history variable with what was handed out so far. */
  datatype State = State(port: nat, threads: map<nat, Thread>, issued: seq<Issue>)

  /**
   * Atomic steps, in any order by any thread: the initial load, and one compare-and-exchange, which also reloads
   * when it fails.
   */
  datatype Action = Load(thread: nat) | Exchange(thread: nat)

  function ThreadOf(s: State, t: nat): Thread
  {
    if t in s.threads then s.threads[t] else Outside
  }

  predicate Enabled(s: State, a: Action)
  {
    match a
    case Load(t) => ThreadOf(s, t).Outside?
    case Exchange(t) => ThreadOf(s, t).Retrying?
  }

  predicate Succeeds(s: State, t: nat)
  {
    ThreadOf(s, t).Retrying? && s.port == ThreadOf(s, t).current
  }

  /** A thread takes its step; a step it is not ready for does nothing. */
  function Do(r: Range, s: State, a: Action): State
  {
    if !Enabled(s, a) then s else
    match a
    case Load(t) => s.(threads := s.threads[t := Retrying(s.port, |s.issued|)])
    case Exchange(t) =>
      if Succeeds(s, t) then
        var next := Successor(r, s.port);
        State(next, s.threads[t := Outside], s.issued + [Issue(next, t)])
      else s.(threads := s.threads[t := Retrying(s.port, |s.issued|)])
  }

  function Run(r: Range, actions: seq<Action>): State
  {
    if actions == [] then State(r.lo, map[], []) else
      Do(r, Run(r, actions[..|actions| - 1]), actions[|actions| - 1])
  }

  function Width(r: Range): nat
    requires Proper(r)
  {
    r.hi - r.lo + 1
  }

  /** The counter after `n` successful exchanges. */
  function PortAfter(r: Range, n: nat): nat
    requires Proper(r)
  {
    r.lo + n % Width(r)
  }

  lemma SuccessorOfNth(r: Range, n: nat)
    requires Proper(r)
    ensures Successor(r, PortAfter(r, n)) == PortAfter(r, n + 1)
  {
    var w, q, m := Width(r), n / Width(r), n % Width(r);
    assert n == q * w + m;
    if m == w - 1 {
      assert (q + 1) * w == q * w + w;
      RemainderIs(n + 1, w, q + 1, 0);
    } else {
      RemainderIs(n + 1, w, q, m + 1);
    }
  }

  /** Counter, history and every stale value a thread may hold agree with the arithmetic. */
  ghost predicate Consistent(r: Range, s: State)
    requires Proper(r)
  {
    && s.port == PortAfter(r, |s.issued|)
    && (forall i :: 0 <= i < |s.issued| ==> s.issued[i].port == PortAfter(r, i + 1))
    && (forall t :: t in s.threads && s.threads[t].Retrying? ==>
          && s.threads[t].readAt <= |s.issued| && s.threads[t].current == PortAfter(r, s.threads[t].readAt)
          && forall i :: s.threads[t].readAt <= i < |s.issued| ==> s.issued[i].thread != t)
  }

  lemma {:induction false} AlwaysConsistent(r: Range, actions: seq<Action>)
    requires Proper(r)
    ensures Consistent(r, Run(r, actions))
  {
    if actions != [] {
      var front := actions[..|actions| - 1];
      AlwaysConsistent(r, front);
      SuccessorOfNth(r, |Run(r, front).issued|);
    }
  }

  /** Under every interleaving the n-th port handed out is the start of the range plus n modulo its width. */
  lemma NthPort(r: Range, actions: seq<Action>, i: nat)
    requires Proper(r) && i < |Run(r, actions).issued|
    ensures Run(r, actions).issued[i].port == r.lo + (i + 1) % Width(r)
    ensures r.lo <= Run(r, actions).issued[i].port <= r.hi
  {
    AlwaysConsistent(r, actions);
  }

  /** The sweep hands out 51001 first, runs up to 60000 and goes on at 51000; the fingerprinter likewise. */
  lemma PortsInOrder(a: seq<Action>, b: seq<Action>, i: nat)
    ensures i < |Run(PROBE, a).issued| ==> Run(PROBE, a).issued[i].port == 51000 + (i + 1) % 9001
    ensures i < |Run(FINGERPRINT, b).issued| ==> Run(FINGERPRINT, b).issued[i].port == 43210 + (i + 1) % 6791
  {
    hide Run;
    if i < |Run(PROBE, a).issued| {
      NthPort(PROBE, a, i);
    }
    if i < |Run(FINGERPRINT, b).issued| {
      NthPort(FINGERPRINT, b, i);
    }
  }

  /** Two hand-outs coincide exactly when they are a multiple of the width apart. */
  lemma PortsRepeatExactly(r: Range, actions: seq<Action>, i: nat, j: nat)
    requires Proper(r) && i <= j < |Run(r, actions).issued|
    ensures Run(r, actions).issued[i].port == Run(r, actions).issued[j].port <==> (j - i) % Width(r) == 0
  {
    NthPort(r, actions, i);
    NthPort(r, actions, j);
    RemaindersEqual(i + 1, j + 1, Width(r));
  }

  lemma SmallRemainder(d: nat, w: nat)
    requires 0 < d < w
    ensures d % w == d
  {
  }

  /** Any `Width(r)` consecutive hand-outs are pairwise distinct. */
  lemma WindowDistinct(r: Range, actions: seq<Action>, i: nat, j: nat)
    requires Proper(r) && i < j < |Run(r, actions).issued| && j - i < Width(r)
    ensures Run(r, actions).issued[i].port != Run(r, actions).issued[j].port
  {
    hide Run, Width;
    SmallRemainder(j - i, Width(r));
    PortsRepeatExactly(r, actions, i, j);
  }

  /** The exchange tolerates stale values exactly when the counter has come full circle in the meantime. */
  lemma ExchangeSucceedsExactly(r: Range, actions: seq<Action>, t: nat)
    requires Proper(r) && ThreadOf(Run(r, actions), t).Retrying?
    ensures var s := Run(r, actions);
            && ThreadOf(s, t).readAt <= |s.issued|
            && (Succeeds(s, t) <==> (|s.issued| - ThreadOf(s, t).readAt) % Width(r) == 0)
  {
    AlwaysConsistent(r, actions);
    var s := Run(r, actions);
    RemaindersEqual(ThreadOf(s, t).readAt, |s.issued|, Width(r));
  }

  /** A failed exchange means that other threads, and only they, were handed ports since this one last looked. */
  lemma FailureMeansProgress(r: Range, actions: seq<Action>, t: nat)
    requires Proper(r)
    requires ThreadOf(Run(r, actions), t).Retrying? && !Succeeds(Run(r, actions), t)
    ensures var s := Run(r, actions);
            && ThreadOf(s, t).readAt < |s.issued|
            && forall i :: ThreadOf(s, t).readAt <= i < |s.issued| ==> s.issued[i].thread != t
  {
    AlwaysConsistent(r, actions);
  }

  /** Thread `t` is about to attempt an exchange that will fail. */
  predicate FailsNext(s: State, a: Action, t: nat)
  {
    a == Exchange(t) && ThreadOf(s, t).Retrying? && !Succeeds(s, t)
  }

  /** How often thread `t` failed in a run. */
  function Failures(r: Range, actions: seq<Action>, t: nat): nat
  {
    if actions == [] then 0 else
      var front, last := actions[..|actions| - 1], actions[|actions| - 1];
      Failures(r, front, t) + if FailsNext(Run(r, front), last, t) then 1 else 0
  }

  /** How many ports were handed out to threads other than `t`. */
  function ToOthers(issued: seq<Issue>, t: nat): nat
  {
    if issued == [] then 0 else
      ToOthers(issued[..|issued| - 1], t) + if issued[|issued| - 1].thread != t then 1 else 0
  }

  lemma {:induction false} OthersSince(issued: seq<Issue>, from: nat, t: nat)
    requires from <= |issued| && forall i :: from <= i < |issued| ==> issued[i].thread != t
    ensures ToOthers(issued, t) == ToOthers(issued[..from], t) + |issued| - from
    decreases |issued|
  {
    if from == |issued| {
      assert issued[..from] == issued;
    } else {
      var front := issued[..|issued| - 1];
      assert front[..from] == issued[..from];
      OthersSince(front, from, t);
    }
  }

  lemma OthersAppend(issued: seq<Issue>, next: Issue, t: nat)
    ensures ToOthers(issued + [next], t) == ToOthers(issued, t) + if next.thread != t then 1 else 0
  {
    assert (issued + [next])[..|issued|] == issued;
  }

  /** What the failures of `t` are charged to: the ports handed to others before it last looked. */
  function Charged(s: State, t: nat): nat
  {
    if ThreadOf(s, t).Retrying? && ThreadOf(s, t).readAt <= |s.issued|
    then ToOthers(s.issued[..ThreadOf(s, t).readAt], t) else ToOthers(s.issued, t)
  }

  lemma ChargedStep(r: Range, s: State, a: Action, t: nat)
    requires Proper(r) && Consistent(r, s)
    ensures Charged(s, t) + (if FailsNext(s, a, t) then 1 else 0) <= Charged(Do(r, s, a), t)
  {
    hide PortAfter, ToOthers;
    var after := Do(r, s, a);
    assert s.issued[..|s.issued|] == s.issued;
    if ThreadOf(s, t).Retrying? {
      OthersSince(s.issued, ThreadOf(s, t).readAt, t);
    }
    if |after.issued| > |s.issued| {
      OthersAppend(s.issued, after.issued[|s.issued|], t);
      assert forall n :: 0 <= n <= |s.issued| ==> after.issued[..n] == s.issued[..n];
    }
  }

  lemma {:induction false} FailuresCharged(r: Range, actions: seq<Action>, t: nat)
    requires Proper(r)
    ensures Failures(r, actions, t) <= Charged(Run(r, actions), t)
  {
    hide Charged, FailsNext, Do;
    if actions != [] {
      var front, last := actions[..|actions| - 1], actions[|actions| - 1];
      FailuresCharged(r, front, t);
      AlwaysConsistent(r, front);
      ChargedStep(r, Run(r, front), last, t);
    }
  }

  /** Lock freedom: no thread fails more often than ports are handed to other threads. */
  lemma FailuresBounded(r: Range, actions: seq<Action>, t: nat)
    requires Proper(r)
    ensures Failures(r, actions, t) <= ToOthers(Run(r, actions).issued, t)
  {
    FailuresCharged(r, actions, t);
    AlwaysConsistent(r, actions);
    if ThreadOf(Run(r, actions), t).Retrying? {
      OthersSince(Run(r, actions).issued, ThreadOf(Run(r, actions), t).readAt, t);
    }
  }

  /** The sweep and the fingerprinter can never hold the same source port. */
  lemma TwinRangesDisjoint(a: seq<Action>, b: seq<Action>, i: nat, j: nat)
    requires i < |Run(PROBE, a).issued| && j < |Run(FINGERPRINT, b).issued|
    ensures Width(PROBE) == 9001 && Run(PROBE, a).issued[i].port != Run(FINGERPRINT, b).issued[j].port
  {
    NthPort(PROBE, a, i);
    NthPort(FINGERPRINT, b, j);
  }
}
