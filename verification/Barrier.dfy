/**
  The condition-variable barrier of cpp/barrier_with_condition_variable.cpp as a
  transition system, for n threads instead of two.

  Every step is one action of main, of one worker, or a spurious wakeup.
  `cv.wait(l, pred)` is `while (!pred()) wait(l)`: the predicate is tested with
  shared_mtx held, and a false test releases it and falls asleep in one step.
*/
module Barrier {
  // What a worker does next.
  datatype Pc =
    | NotStarted
    | WantLog1 | InLog1                      // LOG(... sleeping ...)
    | Sleeping                               // sleep_for
    | WantShared                             // unique_lock l(shared_mtx)
    | Increment | Notify                     // c++; cv.notify_all(), shared_mtx held
    | WantLog2 | InLog2                      // LOG(... reached barrier ...), shared_mtx held
    | Check                                  // test of c == n, shared_mtx held
    | Waiting                                // asleep in cv
    | Reacquire                              // woken, wants shared_mtx back
    | Leaving                                // wait has returned, shared_mtx held
    | WantLog3 | InLog3                      // LOG(... passed the barrier ...)
    | Finished

  // What main does next; the numbers count threads started and joined.
  datatype MainPc =
    | WantLogStart | InLogStart
    | Spawning(started: nat)
    | Joining(joined: nat)
    | WantLogEnd | InLogEnd
    | Done

  datatype Owner = Free | Worker(t: nat) | Main

  datatype State = State(main: MainPc, pcs: seq<Pc>, c: nat, shared: Owner, cout: Owner)

  datatype Action = MainStep | WorkerStep(t: nat) | SpuriousWakeup(t: nat)

  // ---------------------------------------------------------------- steps

  predicate HoldsShared(pc: Pc) {
    pc.Increment? || pc.Notify? || pc.WantLog2? || pc.InLog2? || pc.Check? || pc.Leaving?
  }

  predicate HoldsCout(pc: Pc) {
    pc.InLog1? || pc.InLog2? || pc.InLog3?
  }

  predicate MainHoldsCout(m: MainPc) {
    m.InLogStart? || m.InLogEnd?
  }

  function Init(n: nat): State {
    State(WantLogStart, seq(n, i => NotStarted), 0, Free, Free)
  }

  predicate Enabled(s: State, a: Action) {
    match a
    case MainStep =>
      (match s.main
       case WantLogStart => s.cout == Free
       case WantLogEnd => s.cout == Free
       case Joining(k) => k >= |s.pcs| || s.pcs[k] == Finished
       case Done => false
       case _ => true)
    case WorkerStep(t) =>
      t < |s.pcs| &&
      (match s.pcs[t]
       case NotStarted => false
       case WantLog1 => s.cout == Free
       case WantLog2 => s.cout == Free
       case WantLog3 => s.cout == Free
       case WantShared => s.shared == Free
       case Reacquire => s.shared == Free
       case Waiting => false
       case Finished => false
       case _ => true)
    case SpuriousWakeup(t) => t < |s.pcs| && s.pcs[t] == Waiting
  }

  function Wake(pc: Pc): Pc {
    if pc == Waiting then Reacquire else pc
  }

  function WakeAll(pcs: seq<Pc>): (r: seq<Pc>)
    ensures |r| == |pcs|
  {
    seq(|pcs|, i requires 0 <= i < |pcs| => Wake(pcs[i]))
  }

  function Next(s: State, a: Action): State
    requires Enabled(s, a)
  {
    match a
    case MainStep =>
      (match s.main
       case WantLogStart => s.(main := InLogStart, cout := Main)
       case InLogStart => s.(main := Spawning(0), cout := Free)
       case Spawning(k) =>
         if k < |s.pcs| then s.(main := Spawning(k + 1), pcs := s.pcs[k := WantLog1]) else s.(main := Joining(0))
       case Joining(k) => if k < |s.pcs| then s.(main := Joining(k + 1)) else s.(main := WantLogEnd)
       case WantLogEnd => s.(main := InLogEnd, cout := Main)
       case InLogEnd => s.(main := Done, cout := Free)
       case Done => s)
    case WorkerStep(t) =>
      (match s.pcs[t]
       case WantLog1 => s.(pcs := s.pcs[t := InLog1], cout := Worker(t))
       case InLog1 => s.(pcs := s.pcs[t := Sleeping], cout := Free)
       case Sleeping => s.(pcs := s.pcs[t := WantShared])
       case WantShared => s.(pcs := s.pcs[t := Increment], shared := Worker(t))
       case Increment => s.(pcs := s.pcs[t := Notify], c := s.c + 1)
       case Notify => s.(pcs := WakeAll(s.pcs[t := WantLog2]))
       case WantLog2 => s.(pcs := s.pcs[t := InLog2], cout := Worker(t))
       case InLog2 => s.(pcs := s.pcs[t := Check], cout := Free)
       case Check =>
         if s.c == |s.pcs| then s.(pcs := s.pcs[t := Leaving])
         else s.(pcs := s.pcs[t := Waiting], shared := Free)
       case Reacquire => s.(pcs := s.pcs[t := Check], shared := Worker(t))
       case Leaving => s.(pcs := s.pcs[t := WantLog3], shared := Free)
       case WantLog3 => s.(pcs := s.pcs[t := InLog3], cout := Worker(t))
       case InLog3 => s.(pcs := s.pcs[t := Finished], cout := Free)
       case _ => s)
    case SpuriousWakeup(t) => s.(pcs := s.pcs[t := Reacquire])
  }

  // The runs of the program: sequences of enabled actions.
  ghost predicate IsRun(s: State, run: seq<Action>, s': State)
    decreases |run|
  {
    if run == [] then s == s'
    else Enabled(s, run[0]) && IsRun(Next(s, run[0]), run[1..], s')
  }

  ghost predicate Reachable(n: nat, s: State) {
    exists run :: IsRun(Init(n), run, s)
  }

  // ------------------------------------------------------------- invariant

  // c++ has been executed.
  predicate Arrived(pc: Pc) {
    !pc.NotStarted? && !pc.WantLog1? && !pc.InLog1? && !pc.Sleeping? && !pc.WantShared? && !pc.Increment?
  }

  // cv.wait has returned.
  predicate PastBarrier(pc: Pc) {
    pc.Leaving? || pc.WantLog3? || pc.InLog3? || pc.Finished?
  }

  function Total(pcs: seq<Pc>, f: Pc -> nat): nat {
    if pcs == [] then 0 else f(pcs[0]) + Total(pcs[1..], f)
  }

  const ARRIVED: Pc -> nat := pc => if Arrived(pc) then 1 else 0

  ghost predicate SharedMatches(s: State) {
    && s.shared != Main
    && (forall t :: 0 <= t < |s.pcs| ==> (HoldsShared(s.pcs[t]) <==> s.shared == Worker(t)))
    && (s.shared.Worker? ==> s.shared.t < |s.pcs|)
  }

  ghost predicate CoutMatches(s: State) {
    && (forall t :: 0 <= t < |s.pcs| ==> (HoldsCout(s.pcs[t]) <==> s.cout == Worker(t)))
    && (s.cout.Worker? ==> s.cout.t < |s.pcs|)
    && (MainHoldsCout(s.main) <==> s.cout == Main)
  }

  // Main has started exactly the first `started` threads, and joins in order.
  ghost predicate MainMatches(s: State) {
    && (match s.main
        case Spawning(k) => k <= |s.pcs|
        case Joining(k) => k <= |s.pcs|
        case _ => true)
    && (forall t :: 0 <= t < |s.pcs| ==> (s.pcs[t] == NotStarted <==> Started(s) <= t))
    && (forall t :: 0 <= t < |s.pcs| && t < Joined(s) ==> s.pcs[t] == Finished)
  }

  function Started(s: State): nat {
    match s.main
    case WantLogStart => 0
    case InLogStart => 0
    case Spawning(k) => k
    case _ => |s.pcs|
  }

  function Joined(s: State): nat {
    match s.main
    case WantLogStart => 0
    case InLogStart => 0
    case Spawning(_) => 0
    case Joining(k) => k
    case _ => |s.pcs|
  }

  // A sleeper has not been overlooked: either not all have arrived, or the
  // thread that made the count complete is about to notify.
  ghost predicate NoLostWakeup(s: State) {
    forall t :: 0 <= t < |s.pcs| && s.pcs[t] == Waiting ==>
      s.c < |s.pcs| || exists h :: 0 <= h < |s.pcs| && s.pcs[h] == Notify
  }

  ghost predicate NoneTooEarly(s: State) {
    forall t :: 0 <= t < |s.pcs| && PastBarrier(s.pcs[t]) ==> s.c == |s.pcs|
  }

  ghost predicate Inv(s: State) {
    && SharedMatches(s)
    && CoutMatches(s)
    && MainMatches(s)
    && s.c == Total(s.pcs, ARRIVED)
    && NoLostWakeup(s)
    && NoneTooEarly(s)
  }

  // ----------------------------------------------------- counting threads

  lemma {:induction false} TotalUpdate(pcs: seq<Pc>, t: nat, pc: Pc, f: Pc -> nat)
    requires t < |pcs|
    ensures Total(pcs[t := pc], f) == Total(pcs, f) - f(pcs[t]) + f(pc)
  {
    if t > 0 {
      TotalUpdate(pcs[1..], t - 1, pc, f);
      assert pcs[t := pc][1..] == pcs[1..][t - 1 := pc];
    } else {
      assert pcs[t := pc][1..] == pcs[1..];
    }
  }

  // Waking everybody adds at most d a thread, and nothing when waking costs nothing.
  lemma {:induction false} TotalWake(pcs: seq<Pc>, f: Pc -> nat, d: nat)
    requires f(Reacquire) == f(Waiting) + d
    ensures Total(pcs, f) <= Total(WakeAll(pcs), f) <= Total(pcs, f) + d * |pcs|
  {
    if pcs == [] {
    } else {
      TotalWake(pcs[1..], f, d);
      assert WakeAll(pcs)[1..] == WakeAll(pcs[1..]);
      assert d * |pcs| == d + d * |pcs[1..]|;
    }
  }

  // c reaches the number of threads exactly when all of them have arrived.
  lemma {:induction false} AllArrived(pcs: seq<Pc>)
    ensures Total(pcs, ARRIVED) <= |pcs|
    ensures Total(pcs, ARRIVED) == |pcs| <==> forall t :: 0 <= t < |pcs| ==> Arrived(pcs[t])
  {
    if pcs == [] {
    } else {
      AllArrived(pcs[1..]);
      if forall t :: 0 <= t < |pcs| ==> Arrived(pcs[t]) {
        forall t | 0 <= t < |pcs[1..]| ensures Arrived(pcs[1..][t]) {
          assert pcs[1..][t] == pcs[t + 1];
        }
      }
      if Total(pcs, ARRIVED) == |pcs| {
        forall t | 0 <= t < |pcs| ensures Arrived(pcs[t]) {
          assert t > 0 ==> pcs[t] == pcs[1..][t - 1];
        }
      }
    }
  }

  lemma {:induction false} NoneArrived(n: nat)
    ensures Total(Init(n).pcs, ARRIVED) == 0
  {
    if n == 0 {
    } else {
      NoneArrived(n - 1);
      assert Init(n).pcs[1..] == Init(n - 1).pcs;
    }
  }

  // --------------------------------------------------------- preservation

  lemma InitInv(n: nat)
    ensures Inv(Init(n))
  {
    NoneArrived(n);
  }

  lemma CountKept(s: State, a: Action)
    requires s.c == Total(s.pcs, ARRIVED) && MainMatches(s) && Enabled(s, a)
    ensures Next(s, a).c == Total(Next(s, a).pcs, ARRIVED) && |Next(s, a).pcs| == |s.pcs|
  {
    match a
    case MainStep =>
      if s.main.Spawning? && s.main.started < |s.pcs| {
        TotalUpdate(s.pcs, s.main.started, WantLog1, ARRIVED);
      }
    case SpuriousWakeup(t) => TotalUpdate(s.pcs, t, Reacquire, ARRIVED);
    case WorkerStep(t) =>
      WorkerKeepsCount(s, t);
  }

  lemma WorkerKeepsCount(s: State, t: nat)
    requires s.c == Total(s.pcs, ARRIVED) && Enabled(s, WorkerStep(t))
    ensures var s' := Next(s, WorkerStep(t)); s'.c == Total(s'.pcs, ARRIVED) && |s'.pcs| == |s.pcs|
  {
    var s' := Next(s, WorkerStep(t));
    if s.pcs[t] == Notify {
      TotalUpdate(s.pcs, t, WantLog2, ARRIVED);
      TotalWake(s.pcs[t := WantLog2], ARRIVED, 0);
    } else {
      TotalUpdate(s.pcs, t, s'.pcs[t], ARRIVED);
      assert s'.pcs == s.pcs[t := s'.pcs[t]];
    }
  }

  lemma SharedKept(s: State, a: Action)
    requires SharedMatches(s) && MainMatches(s) && Enabled(s, a)
    ensures SharedMatches(Next(s, a))
  {
  }

  lemma CoutKept(s: State, a: Action)
    requires CoutMatches(s) && MainMatches(s) && Enabled(s, a)
    ensures CoutMatches(Next(s, a))
  {
  }

  lemma MainKept(s: State, a: Action)
    requires MainMatches(s) && Enabled(s, a)
    ensures MainMatches(Next(s, a))
  {
  }

  lemma WakeupKept(s: State, a: Action)
    requires Inv(s) && Enabled(s, a)
    ensures NoLostWakeup(Next(s, a))
  {
    AllArrived(s.pcs);
    var s' := Next(s, a);
    forall w | 0 <= w < |s'.pcs| && s'.pcs[w] == Waiting && s'.c >= |s'.pcs|
      ensures exists h :: 0 <= h < |s'.pcs| && s'.pcs[h] == Notify
    {
      if a.WorkerStep? && s.pcs[a.t] == Increment {
        assert s'.pcs[a.t] == Notify;
      } else {
        assert s.pcs[w] == Waiting;
        var h :| 0 <= h < |s.pcs| && s.pcs[h] == Notify;
        assert s'.pcs[h] == Notify;
      }
    }
  }

  lemma PastKept(s: State, a: Action)
    requires s.c == Total(s.pcs, ARRIVED) && MainMatches(s) && NoneTooEarly(s) && Enabled(s, a)
    ensures NoneTooEarly(Next(s, a))
  {
    CountKept(s, a);
    AllArrived(Next(s, a).pcs);
    assert Next(s, a).c >= s.c;
  }

  lemma StepInv(s: State, a: Action)
    requires Inv(s) && Enabled(s, a)
    ensures Inv(Next(s, a)) && |Next(s, a).pcs| == |s.pcs|
  {
    CountKept(s, a);
    SharedKept(s, a);
    CoutKept(s, a);
    MainKept(s, a);
    WakeupKept(s, a);
    PastKept(s, a);
  }

  lemma {:induction false} RunInv(s: State, run: seq<Action>, s': State)
    requires Inv(s) && IsRun(s, run, s')
    ensures Inv(s') && |s'.pcs| == |s.pcs|
    decreases |run|
  {
    if run == [] {
    } else {
      StepInv(s, run[0]);
      RunInv(Next(s, run[0]), run[1..], s');
    }
  }

  lemma ReachableInv(n: nat, s: State)
    requires Reachable(n, s)
    ensures Inv(s) && |s.pcs| == n
  {
    var run :| IsRun(Init(n), run, s);
    InitInv(n);
    RunInv(Init(n), run, s);
  }

  // ---------------------------------------------------------------- safety

  // In every reachable state c counts the arrivals, shared_mtx excludes, and a
  // thread whose wait has returned implies that every thread has arrived.
  lemma Safety(n: nat, s: State)
    requires Reachable(n, s)
    ensures |s.pcs| == n && s.c == Total(s.pcs, ARRIVED) && s.c <= n
    ensures forall t, u :: 0 <= t < n && 0 <= u < n && HoldsShared(s.pcs[t]) && HoldsShared(s.pcs[u]) ==> t == u
    ensures forall t, u :: 0 <= t < n && 0 <= u < n && PastBarrier(s.pcs[t]) ==> Arrived(s.pcs[u])
  {
    ReachableInv(n, s);
    AllArrived(s.pcs);
  }

  // c never decreases, so the test c == n stays true once it is.
  lemma CountStable(n: nat, s: State, a: Action)
    requires Reachable(n, s) && Enabled(s, a)
    ensures s.c <= Next(s, a).c <= n
    ensures s.c == n ==> Next(s, a).c == n
  {
    ReachableInv(n, s);
    StepInv(s, a);
    AllArrived(Next(s, a).pcs);
  }

  // ------------------------------------------------- progress and termination

  lemma NoWakeupIsLost(n: nat, s: State, t: nat)
    requires Reachable(n, s) && t < n && |s.pcs| == n && s.pcs[t] == Waiting && s.c == n
    ensures exists h :: 0 <= h < n && s.pcs[h] == Notify && s.shared == Worker(h)
  {
    ReachableInv(n, s);
  }

  // Everybody is past the barrier, joined, and both locks are free.
  ghost predicate Terminated(s: State) {
    s.main == Done && s.c == |s.pcs| && s.shared == s.cout == Free &&
    forall t :: 0 <= t < |s.pcs| ==> s.pcs[t] == Finished
  }

  lemma DoneIsTerminated(s: State)
    requires Inv(s) && s.main == Done
    ensures Terminated(s)
  {
    AllArrived(s.pcs);
  }

  // Someone who can step without a spurious wakeup.
  lemma Progress(s: State) returns (a: Action)
    requires Inv(s) && s.main != Done
    ensures Enabled(s, a) && !a.SpuriousWakeup?
  {
    AllArrived(s.pcs);
    a := MainStep;
    if s.cout.Worker? {
      a := WorkerStep(s.cout.t);
    } else if s.cout == Free {
      if s.shared.Worker? {
        a := WorkerStep(s.shared.t);
      } else if t :| 0 <= t < |s.pcs| && Enabled(s, WorkerStep(t)) {
        a := WorkerStep(t);
      } else {
        OnlyMainCanStep(s);
      }
    }
  }

  lemma OnlyMainCanStep(s: State)
    requires Inv(s) && s.main != Done && s.cout == Free && s.shared == Free
    requires forall t :: 0 <= t < |s.pcs| ==> !Enabled(s, WorkerStep(t))
    ensures Enabled(s, MainStep)
  {
    AllArrived(s.pcs);
    forall t | 0 <= t < |s.pcs|
      ensures s.pcs[t] in {NotStarted, Waiting, Finished}
    {
      assert !Enabled(s, WorkerStep(t));
    }
  }

  // No reachable state of the program is stuck before the end.
  lemma DeadlockFree(n: nat, s: State)
    requires Reachable(n, s)
    ensures Terminated(s) <==> forall a :: Enabled(s, a) ==> a.SpuriousWakeup?
  {
    ReachableInv(n, s);
    if s.main != Done {
      var a := Progress(s);
      assert Enabled(s, a);
    } else {
      DoneIsTerminated(s);
    }
  }

  // The local steps a thread has left, a re-check after a wakeup included.
  const RANK: Pc -> nat := (pc: Pc) =>
    match pc
    case NotStarted => 17
    case WantLog1 => 16
    case InLog1 => 15
    case Sleeping => 14
    case WantShared => 13
    case Increment => 12
    case Notify => 11
    case WantLog2 => 10
    case InLog2 => 9
    case Reacquire => 8
    case Check => 7
    case Waiting => 6
    case Leaving => 5
    case WantLog3 => 4
    case InLog3 => 3
    case Finished => 2

  // Every notify_all to come may send each of n threads through one more re-check.
  const UNNOTIFIED: Pc -> nat := pc => if Arrived(pc) && pc != Notify then 0 else 1

  function MainRank(m: MainPc, n: nat): nat
    requires m.Spawning? ==> m.started <= n
    requires m.Joining? ==> m.joined <= n
  {
    match m
    case WantLogStart => 2 * n + 6
    case InLogStart => 2 * n + 5
    case Spawning(k) => 2 * n + 4 - k
    case Joining(k) => n + 3 - k
    case WantLogEnd => 2
    case InLogEnd => 1
    case Done => 0
  }

  function Weight(pcs: seq<Pc>): nat {
    Total(pcs, RANK) + 2 * |pcs| * Total(pcs, UNNOTIFIED)
  }

  ghost function Measure(s: State): nat
    requires MainMatches(s)
  {
    Weight(s.pcs) + MainRank(s.main, |s.pcs|)
  }

  // notify_all: everybody may be woken, but one more thread has notified.
  lemma NotifyDecreases(pcs: seq<Pc>, t: nat)
    requires t < |pcs| && pcs[t] == Notify
    ensures var woken := WakeAll(pcs[t := WantLog2]);
            Weight(woken) < Weight(pcs)
  {
    var n, moved := |pcs|, pcs[t := WantLog2];
    TotalUpdate(pcs, t, WantLog2, RANK);
    TotalUpdate(pcs, t, WantLog2, UNNOTIFIED);
    TotalWake(moved, RANK, 2);
    TotalWake(moved, UNNOTIFIED, 0);
    OneLess(2 * n, Total(pcs, UNNOTIFIED));
  }

  lemma OneLess(k: nat, u: nat)
    requires u > 0
    ensures k * (u - 1) == k * u - k
  {
  }

  // One thread moves to a later place; nobody else is woken.
  lemma MoveDecreases(pcs: seq<Pc>, t: nat, pc: Pc)
    requires t < |pcs| && RANK(pc) < RANK(pcs[t]) && UNNOTIFIED(pc) <= UNNOTIFIED(pcs[t])
    ensures Weight(pcs[t := pc]) < Weight(pcs)
  {
    TotalUpdate(pcs, t, pc, RANK);
    TotalUpdate(pcs, t, pc, UNNOTIFIED);
    var u, v := Total(pcs[t := pc], UNNOTIFIED), Total(pcs, UNNOTIFIED);
    assert u <= v;
    MulMonotone(2 * |pcs|, u, v);
  }

  lemma MulMonotone(k: nat, u: nat, v: nat)
    requires u <= v
    ensures k * u <= k * v
  {
  }

  lemma SpuriousAddsTwo(pcs: seq<Pc>, t: nat)
    requires t < |pcs| && pcs[t] == Waiting
    ensures Weight(pcs[t := Reacquire]) == Weight(pcs) + 2
  {
    TotalUpdate(pcs, t, Reacquire, RANK);
    TotalUpdate(pcs, t, Reacquire, UNNOTIFIED);
  }

  lemma WorkerDecreases(s: State, t: nat)
    requires Enabled(s, WorkerStep(t))
    ensures Weight(Next(s, WorkerStep(t)).pcs) < Weight(s.pcs)
  {
    if s.pcs[t] == Notify {
      NotifyDecreases(s.pcs, t);
    } else {
      var pc := Next(s, WorkerStep(t)).pcs[t];
      assert Next(s, WorkerStep(t)).pcs == s.pcs[t := pc];
      MoveDecreases(s.pcs, t, pc);
    }
  }

  lemma MainDecreases(s: State)
    requires MainMatches(s) && Enabled(s, MainStep)
    ensures MainMatches(Next(s, MainStep))
    ensures Weight(Next(s, MainStep).pcs) <= Weight(s.pcs)
    ensures MainRank(Next(s, MainStep).main, |s.pcs|) < MainRank(s.main, |s.pcs|)
  {
    MainKept(s, MainStep);
    if s.main.Spawning? && s.main.started < |s.pcs| {
      MoveDecreases(s.pcs, s.main.started, WantLog1);
    }
  }

  // Every step but a spurious wakeup decreases the measure; that one adds two.
  lemma StepDecreases(s: State, a: Action)
    requires Inv(s) && Enabled(s, a)
    ensures MainMatches(Next(s, a))
    ensures Measure(Next(s, a)) + 1 <= Measure(s) + (if a.SpuriousWakeup? then 3 else 0)
  {
    StepInv(s, a);
    match a
    case MainStep => MainDecreases(s);
    case SpuriousWakeup(t) => SpuriousAddsTwo(s.pcs, t);
    case WorkerStep(t) => WorkerDecreases(s, t);
  }

  function Spurious(run: seq<Action>): nat {
    if run == [] then 0 else (if run[0].SpuriousWakeup? then 1 else 0) + Spurious(run[1..])
  }

  lemma {:induction false} RunDecreases(s: State, run: seq<Action>, s': State)
    requires Inv(s) && IsRun(s, run, s')
    ensures Inv(s') && |run| + Measure(s') <= Measure(s) + 3 * Spurious(run)
    decreases |run|
  {
    if run == [] {
    } else {
      StepDecreases(s, run[0]);
      StepInv(s, run[0]);
      RunDecreases(Next(s, run[0]), run[1..], s');
    }
  }

  lemma {:induction false} InitMeasure(n: nat)
    ensures Total(Init(n).pcs, RANK) == 17 * n && Total(Init(n).pcs, UNNOTIFIED) == n
  {
    if n == 0 {
    } else {
      InitMeasure(n - 1);
      assert Init(n).pcs[1..] == Init(n - 1).pcs;
    }
  }

  // A run of n threads takes at most 2n^2 + 19n + 6 steps, and three more for each
  // spurious wakeup in it.
  lemma RunsAreBounded(n: nat, run: seq<Action>, s: State)
    requires IsRun(Init(n), run, s)
    ensures |run| <= 2 * n * n + 19 * n + 6 + 3 * Spurious(run)
  {
    InitInv(n);
    InitMeasure(n);
    RunDecreases(Init(n), run, s);
  }

  // The steps that Progress picks lead to the end.
  lemma {:induction false} CanTerminate(s: State) returns (run: seq<Action>, s': State)
    requires Inv(s)
    ensures IsRun(s, run, s') && Spurious(run) == 0 && Terminated(s')
    decreases Measure(s)
  {
    if s.main == Done {
      run, s' := [], s;
      DoneIsTerminated(s);
    } else {
      var a := Progress(s);
      StepInv(s, a);
      StepDecreases(s, a);
      run, s' := CanTerminate(Next(s, a));
      assert ([a] + run)[1..] == run;
      run := [a] + run;
    }
  }

  // However a run has gone, it can be brought to its end without a spurious wakeup.
  lemma EveryRunCanEnd(n: nat, run: seq<Action>, s: State) returns (more: seq<Action>, s': State)
    requires IsRun(Init(n), run, s)
    ensures IsRun(s, more, s') && Spurious(more) == 0 && Terminated(s') && s'.c == n
  {
    InitInv(n);
    RunInv(Init(n), run, s);
    more, s' := CanTerminate(s);
    RunInv(s, more, s');
  }
}
