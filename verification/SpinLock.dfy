/** The spin lock, with any number of threads that each lock it, add one and release it.
    Every atomic access is a step of its own; steps interleave in any order. */
module SpinLock {

  /** Where a thread stands: before the swap that succeeds, holding the guard, having read
      the value, having written it, and after the guard is dropped. */
  datatype Pc = Trying | Holding | HasRead(read: int) | Written | Done

  datatype State = State(locked: bool, value: int, pcs: seq<Pc>)

  function Init(n: nat): State { State(false, 0, seq(n, _ => Trying)) }

  /** The next step of thread `t`; a swap that finds the flag set leaves it set. */
  function Step(s: State, t: nat): State
    requires t < |s.pcs|
  {
    match s.pcs[t]
    case Trying => if s.locked then s else State(true, s.value, s.pcs[t := Holding])
    case Holding => s.(pcs := s.pcs[t := HasRead(s.value)])
    case HasRead(v) => State(s.locked, v + 1, s.pcs[t := Written])
    case Written => State(false, s.value, s.pcs[t := Done])
    case Done => s
  }

  predicate Schedule(n: nat, schedule: seq<nat>) {
    forall k :: 0 <= k < |schedule| ==> schedule[k] < n
  }

  function Run(s: State, schedule: seq<nat>): (r: State)
    requires Schedule(|s.pcs|, schedule)
    ensures |r.pcs| == |s.pcs|
    decreases schedule
  {
    if schedule == [] then s else Run(Step(s, schedule[0]), schedule[1..])
  }

  // ---- what every step keeps

  predicate Critical(pc: Pc) { pc.Holding? || pc.HasRead? || pc.Written? }

  predicate Holds(s: State, t: nat) { t < |s.pcs| && Critical(s.pcs[t]) }

  predicate HasAdded(pc: Pc) { pc.Written? || pc.Done? }

  function Added(pcs: seq<Pc>): nat {
    if pcs == [] then 0 else (if HasAdded(pcs[0]) then 1 else 0) + Added(pcs[1..])
  }

  ghost predicate MutualExclusion(s: State) {
    forall i, j :: Holds(s, i) && Holds(s, j) ==> i == j
  }

  ghost predicate FlagIsRight(s: State) {
    s.locked <==> exists t :: Holds(s, t)
  }

  ghost predicate ReadIsFresh(s: State) {
    forall t :: 0 <= t < |s.pcs| && s.pcs[t].HasRead? ==> s.pcs[t].read == s.value
  }

  ghost predicate Inv(s: State) {
    MutualExclusion(s) && FlagIsRight(s) && ReadIsFresh(s) && s.value == Added(s.pcs)
  }

  lemma {:induction false} AddedUpdate(pcs: seq<Pc>, t: nat, pc: Pc)
    requires t < |pcs|
    ensures Added(pcs[t := pc]) == Added(pcs) - (if HasAdded(pcs[t]) then 1 else 0) + (if HasAdded(pc) then 1 else 0)
    decreases pcs
  {
    if t == 0 {
      assert pcs[t := pc][1..] == pcs[1..];
    } else {
      assert pcs[t := pc][1..] == pcs[1..][t - 1 := pc];
      AddedUpdate(pcs[1..], t - 1, pc);
    }
  }

  /** A thread that does not take or drop the lock keeps its place in the others' eyes. */
  lemma HoldersAfter(s: State, t: nat, i: nat)
    requires t < |s.pcs| && i != t
    ensures Holds(Step(s, t), i) <==> Holds(s, i)
  {
  }

  lemma StepKeepsExclusion(s: State, t: nat)
    requires Inv(s) && t < |s.pcs|
    ensures MutualExclusion(Step(s, t))
    ensures FlagIsRight(Step(s, t))
  {
    hide Added;
    var r := Step(s, t);
    forall i | i != t ensures Holds(r, i) <==> Holds(s, i) { HoldersAfter(s, t, i); }
    if Holds(r, t) {
      assert s.pcs[t].Trying? ==> !s.locked || r == s;
      assert !s.pcs[t].Trying? ==> Holds(s, t);
    } else if Holds(s, t) {
      assert s.pcs[t].Written? && !r.locked;
    } else {
      assert r == s;
    }
  }

  lemma StepKeepsValue(s: State, t: nat)
    requires Inv(s) && t < |s.pcs|
    ensures ReadIsFresh(Step(s, t))
    ensures Step(s, t).value == Added(Step(s, t).pcs)
  {
    var r := Step(s, t);
    if r.pcs != s.pcs { AddedUpdate(s.pcs, t, r.pcs[t]); }
    if r.value != s.value {
      assert Holds(s, t);
      forall i | 0 <= i < |r.pcs| ensures !r.pcs[i].HasRead? {
        assert Holds(s, i) ==> i == t;
      }
    }
  }

  lemma StepKeeps(s: State, t: nat)
    requires Inv(s) && t < |s.pcs|
    ensures Inv(Step(s, t))
  {
    StepKeepsExclusion(s, t);
    StepKeepsValue(s, t);
  }

  lemma {:induction false} InitHolds(n: nat)
    ensures Inv(Init(n))
  {
    NoneAdded(Init(n).pcs);
  }

  lemma {:induction false} NoneAdded(pcs: seq<Pc>)
    requires forall t :: 0 <= t < |pcs| ==> pcs[t].Trying?
    ensures Added(pcs) == 0
    decreases pcs
  {
    if pcs != [] { NoneAdded(pcs[1..]); }
  }

  lemma {:induction false} RunKeeps(s: State, schedule: seq<nat>)
    requires Inv(s) && Schedule(|s.pcs|, schedule)
    ensures Inv(Run(s, schedule))
    decreases schedule
  {
    hide Inv;
    if schedule != [] {
      StepKeeps(s, schedule[0]);
      RunKeeps(Step(s, schedule[0]), schedule[1..]);
    }
  }

  ghost predicate AllDone(s: State) {
    forall t :: 0 <= t < |s.pcs| ==> s.pcs[t].Done?
  }

  lemma {:induction false} AllAdded(pcs: seq<Pc>)
    requires forall t :: 0 <= t < |pcs| ==> pcs[t].Done?
    ensures Added(pcs) == |pcs|
    decreases pcs
  {
    if pcs != [] { AllAdded(pcs[1..]); }
  }

  /** In every interleaving at most one thread holds the lock, and the flag says whether
      one does; once all `n` threads are done the lock is free and the value is `n`. */
  lemma EveryInterleaving(n: nat, schedule: seq<nat>)
    requires Schedule(n, schedule)
    ensures var s := Run(Init(n), schedule);
            MutualExclusion(s) && FlagIsRight(s) && (AllDone(s) ==> s.value == n && !s.locked)
  {
    InitHolds(n);
    RunKeeps(Init(n), schedule);
    var s := Run(Init(n), schedule);
    if AllDone(s) { AllAdded(s.pcs); }
  }

  // ---- progress

  function Left(pc: Pc): nat {
    match pc
    case Trying => 4
    case Holding => 3
    case HasRead(_) => 2
    case Written => 1
    case Done => 0
  }

  /** The steps still to be taken, failed swaps not counted. */
  function Work(pcs: seq<Pc>): nat {
    if pcs == [] then 0 else Left(pcs[0]) + Work(pcs[1..])
  }

  lemma {:induction false} WorkUpdate(pcs: seq<Pc>, t: nat, pc: Pc)
    requires t < |pcs|
    ensures Work(pcs[t := pc]) == Work(pcs) - Left(pcs[t]) + Left(pc)
    decreases pcs
  {
    if t == 0 {
      assert pcs[t := pc][1..] == pcs[1..];
    } else {
      assert pcs[t := pc][1..] == pcs[1..][t - 1 := pc];
      WorkUpdate(pcs[1..], t - 1, pc);
    }
  }

  /** A turn does work unless the thread is done or its swap fails. */
  lemma StepWorks(s: State, t: nat)
    requires t < |s.pcs|
    ensures Work(Step(s, t).pcs) == Work(s.pcs) - if s.pcs[t].Done? || (s.pcs[t].Trying? && s.locked) then 0 else 1
  {
    var r := Step(s, t);
    if r.pcs != s.pcs { WorkUpdate(s.pcs, t, r.pcs[t]); }
  }

  lemma {:induction false} RunWorks(s: State, schedule: seq<nat>)
    requires Schedule(|s.pcs|, schedule)
    ensures Work(Run(s, schedule).pcs) <= Work(s.pcs)
    ensures Work(Run(s, schedule).pcs) == Work(s.pcs) ==> Run(s, schedule) == s
    decreases schedule
  {
    if schedule != [] {
      StepWorks(s, schedule[0]);
      RunWorks(Step(s, schedule[0]), schedule[1..]);
    }
  }

  /** If thread `t` can do work and gets a turn, the schedule does work. */
  lemma {:induction false} TurnWorks(s: State, schedule: seq<nat>, t: nat)
    requires Schedule(|s.pcs|, schedule) && t in schedule
    requires !s.pcs[t].Done? && (s.pcs[t].Trying? ==> !s.locked)
    ensures Work(Run(s, schedule).pcs) < Work(s.pcs)
    decreases schedule
  {
    StepWorks(s, schedule[0]);
    RunWorks(Step(s, schedule[0]), schedule[1..]);
    if schedule[0] != t {
      if Step(s, schedule[0]) == s { TurnWorks(s, schedule[1..], t); }
    }
  }

  /** A round gives every thread a turn. */
  ghost predicate Round(n: nat, schedule: seq<nat>) {
    Schedule(n, schedule) && forall t :: 0 <= t < n ==> t in schedule
  }

  /** No deadlock: while a thread is not done, every round does work. */
  lemma RoundWorks(s: State, round: seq<nat>)
    requires Inv(s) && Round(|s.pcs|, round) && !AllDone(s)
    ensures Work(Run(s, round).pcs) < Work(s.pcs)
  {
    if s.locked {
      var t :| Holds(s, t);
      TurnWorks(s, round, t);
    } else {
      var t :| 0 <= t < |s.pcs| && !s.pcs[t].Done?;
      TurnWorks(s, round, t);
    }
  }

  ghost predicate Rounds(n: nat, rounds: seq<seq<nat>>) {
    forall k :: 0 <= k < |rounds| ==> Round(n, rounds[k])
  }

  ghost function RunRounds(s: State, rounds: seq<seq<nat>>): (r: State)
    requires Rounds(|s.pcs|, rounds)
    ensures |r.pcs| == |s.pcs|
    decreases rounds
  {
    if rounds == [] then s else RunRounds(Run(s, rounds[0]), rounds[1..])
  }

  lemma {:induction false} NoWorkLeft(pcs: seq<Pc>)
    ensures Work(pcs) == 0 <==> forall t :: 0 <= t < |pcs| ==> pcs[t].Done?
    decreases pcs
  {
    if pcs != [] {
      NoWorkLeft(pcs[1..]);
      assert forall t :: 0 <= t < |pcs[1..]| ==> pcs[1..][t] == pcs[t + 1];
      if Work(pcs) == 0 {
        forall t | 0 <= t < |pcs| ensures pcs[t].Done? {
          if t > 0 { assert pcs[t] == pcs[1..][t - 1]; }
        }
      }
    }
  }

  lemma {:induction false} RoundsWork(s: State, rounds: seq<seq<nat>>)
    requires Inv(s) && Rounds(|s.pcs|, rounds)
    ensures Inv(RunRounds(s, rounds))
    ensures Work(s.pcs) <= |rounds| ==> AllDone(RunRounds(s, rounds))
    decreases rounds
  {
    hide Inv, Run;
    NoWorkLeft(s.pcs);
    if rounds != [] {
      var r := Run(s, rounds[0]);
      RunKeeps(s, rounds[0]);
      RunWorks(s, rounds[0]);
      if !AllDone(s) { RoundWorks(s, rounds[0]); }
      RoundsWork(r, rounds[1..]);
    }
  }

  lemma {:induction false} InitialWork(pcs: seq<Pc>)
    requires forall t :: 0 <= t < |pcs| ==> pcs[t].Trying?
    ensures Work(pcs) == 4 * |pcs|
    decreases pcs
  {
    if pcs != [] { InitialWork(pcs[1..]); }
  }

  /** Every fair schedule finishes: after `4 * n` rounds all `n` threads have added one and
      released the lock. */
  lemma FairRunsFinish(n: nat, rounds: seq<seq<nat>>)
    requires |rounds| >= 4 * n && Rounds(n, rounds)
    ensures var s := RunRounds(Init(n), rounds); AllDone(s) && s.value == n && !s.locked
  {
    InitHolds(n);
    InitialWork(Init(n).pcs);
    RoundsWork(Init(n), rounds);
    AllAdded(RunRounds(Init(n), rounds).pcs);
  }
}
