/** The order of every thread of the barrier program: main and the workers, over any run. */
module BarrierOrder {
  import opened Barrier

  // ------------------------------------------------------------ one worker

  // The places a worker passes, from h on: a place is added when it changes.
  function History(h: seq<Pc>, s: State, run: seq<Action>, t: nat): seq<Pc>
    decreases |run|
  {
    if run == [] || !Enabled(s, run[0]) || t >= |s.pcs| || t >= |Next(s, run[0]).pcs| then h
    else
      var s' := Next(s, run[0]);
      History(if s'.pcs[t] == s.pcs[t] then h else h + [s'.pcs[t]], s', run[1..], t)
  }

  // Waiting, waking up and testing again, k times.
  function Retries(k: nat): seq<Pc> {
    if k == 0 then [] else Retries(k - 1) + [Waiting, Reacquire, Check]
  }

  // The program of a worker up to its first test of c == n.
  const UP_TO_TEST: seq<Pc> :=
    [NotStarted, WantLog1, InLog1, Sleeping, WantShared, Increment, Notify, WantLog2, InLog2, Check]

  // How a history that ends in pc looks, after k retries.
  function Path(k: nat, pc: Pc): seq<Pc> {
    match pc
    case NotStarted => UP_TO_TEST[..1]
    case WantLog1 => UP_TO_TEST[..2]
    case InLog1 => UP_TO_TEST[..3]
    case Sleeping => UP_TO_TEST[..4]
    case WantShared => UP_TO_TEST[..5]
    case Increment => UP_TO_TEST[..6]
    case Notify => UP_TO_TEST[..7]
    case WantLog2 => UP_TO_TEST[..8]
    case InLog2 => UP_TO_TEST[..9]
    case Check => UP_TO_TEST + Retries(k)
    case Waiting => UP_TO_TEST + Retries(k) + [Waiting]
    case Reacquire => UP_TO_TEST + Retries(k) + [Waiting, Reacquire]
    case Leaving => UP_TO_TEST + Retries(k) + [Leaving]
    case WantLog3 => UP_TO_TEST + Retries(k) + [Leaving, WantLog3]
    case InLog3 => UP_TO_TEST + Retries(k) + [Leaving, WantLog3, InLog3]
    case Finished => UP_TO_TEST + Retries(k) + [Leaving, WantLog3, InLog3, Finished]
  }

  lemma PathStep(k: nat, p: Pc, q: Pc) returns (k': nat)
    requires Edge(p, q)
    ensures Path(k', q) == Path(k, p) + [q]
  {
    k' := if p == Reacquire then k + 1 else if p == InLog2 then 0 else k;
    var h := UP_TO_TEST;
    assert Retries(0) == [] && h + [] == h;
    if p == Reacquire {
      assert Retries(k + 1) == Retries(k) + [Waiting, Reacquire, Check];
      assert h + Retries(k + 1) == (h + Retries(k) + [Waiting, Reacquire]) + [Check];
    }
  }

  predicate Edge(p: Pc, q: Pc) {
    match p
    case NotStarted => q == WantLog1
    case WantLog1 => q == InLog1
    case InLog1 => q == Sleeping
    case Sleeping => q == WantShared
    case WantShared => q == Increment
    case Increment => q == Notify
    case Notify => q == WantLog2
    case WantLog2 => q == InLog2
    case InLog2 => q == Check
    case Check => q == Waiting || q == Leaving
    case Waiting => q == Reacquire
    case Reacquire => q == Check
    case Leaving => q == WantLog3
    case WantLog3 => q == InLog3
    case InLog3 => q == Finished
    case Finished => false
  }

  // No step moves a worker in any other way; main starts it in its first place.
  lemma StepMoves(s: State, a: Action, t: nat)
    requires MainMatches(s) && Enabled(s, a) && t < |s.pcs|
    ensures |Next(s, a).pcs| == |s.pcs|
    ensures Next(s, a).pcs[t] == s.pcs[t] || Edge(s.pcs[t], Next(s, a).pcs[t])
  {
    if a.WorkerStep? && s.pcs[a.t] == Notify {
      assert Next(s, a).pcs[t] == Wake(s.pcs[a.t := WantLog2][t]);
    }
  }

  lemma {:induction false} HistoryIsPath(h: seq<Pc>, k: nat, s: State, run: seq<Action>, s': State, t: nat)
    returns (k': nat)
    requires Inv(s) && IsRun(s, run, s') && t < |s.pcs| && h == Path(k, s.pcs[t])
    ensures |s'.pcs| == |s.pcs| && History(h, s, run, t) == Path(k', s'.pcs[t])
    decreases |run|
  {
    if run == [] {
      k' := k;
    } else {
      var next := Next(s, run[0]);
      StepInv(s, run[0]);
      StepMoves(s, run[0], t);
      if next.pcs[t] == s.pcs[t] {
        k' := HistoryIsPath(h, k, next, run[1..], s', t);
      } else {
        var more := PathStep(k, s.pcs[t], next.pcs[t]);
        k' := HistoryIsPath(h + [next.pcs[t]], more, next, run[1..], s', t);
      }
    }
  }

  // Over any run, the places of a worker are the program in its order, with only the
  // waiting repeated.
  lemma ProgramOrder(n: nat, run: seq<Action>, s: State, t: nat) returns (k: nat)
    requires IsRun(Init(n), run, s) && t < n && s.main == Done
    ensures History([NotStarted], Init(n), run, t) ==
            [NotStarted, WantLog1, InLog1, Sleeping, WantShared, Increment, Notify, WantLog2, InLog2, Check]
            + Retries(k) + [Leaving, WantLog3, InLog3, Finished]
  {
    InitInv(n);
    RunInv(Init(n), run, s);
    DoneIsTerminated(s);
    k := HistoryIsPath([NotStarted], 0, Init(n), run, s, t);
  }

  lemma {:induction false} RetriesAre(k: nat)
    ensures |Retries(k)| == 3 * k
    ensures forall i :: 0 <= i < k ==>
              Retries(k)[3 * i] == Waiting && Retries(k)[3 * i + 1] == Reacquire && Retries(k)[3 * i + 2] == Check
  {
    if k == 0 {
    } else {
      RetriesAre(k - 1);
      forall i | 0 <= i < k
        ensures Retries(k)[3 * i] == Waiting && Retries(k)[3 * i + 1] == Reacquire && Retries(k)[3 * i + 2] == Check
      {
        assert Retries(k)[..3 * (k - 1)] == Retries(k - 1);
      }
    }
  }

  // ------------------------------------------------------ what a step does

  // Who may step: waiting for a lock, for a wakeup or for a thread to finish is all that
  // stops anybody.
  lemma WhenEnabled(s: State, t: nat)
    requires t < |s.pcs|
    ensures Enabled(s, WorkerStep(t)) <==>
            && s.pcs[t] !in {NotStarted, Waiting, Finished}
            && (s.pcs[t] in {WantLog1, WantLog2, WantLog3} ==> s.cout == Free)
            && (s.pcs[t] in {WantShared, Reacquire} ==> s.shared == Free)
    ensures Enabled(s, SpuriousWakeup(t)) <==> s.pcs[t] == Waiting
    ensures Enabled(s, MainStep) <==>
            && s.main != Done && (s.main in {WantLogStart, WantLogEnd} ==> s.cout == Free)
            && (s.main.Joining? && s.main.joined < |s.pcs| ==> s.pcs[s.main.joined] == Finished)
  {
  }

  // The count and the two locks at each step of a worker.
  lemma StepLaws(s: State, t: nat)
    requires Enabled(s, WorkerStep(t))
    ensures var s', p := Next(s, WorkerStep(t)), s.pcs[t];
            && s'.main == s.main
            && s'.c == (if p == Increment then s.c + 1 else s.c)
            && (p == WantShared || p == Reacquire ==> s.shared == Free && s'.shared == Worker(t))
            && (p == Check && s.c == |s.pcs| ==> s'.pcs[t] == Leaving && s'.shared == s.shared)
            && (p == Check && s.c != |s.pcs| ==> s'.pcs[t] == Waiting && s'.shared == Free)
            && (p == Leaving ==> s'.shared == Free)
            && (p !in {WantShared, Reacquire, Check, Leaving} ==> s'.shared == s.shared)
            && (p in {WantLog1, WantLog2, WantLog3} ==> s.cout == Free && s'.cout == Worker(t))
            && (p in {InLog1, InLog2, InLog3} ==> s'.cout == Free)
            && (p !in {WantLog1, WantLog2, WantLog3, InLog1, InLog2, InLog3} ==> s'.cout == s.cout)
  {
  }

  // notify_all wakes every sleeper, and no other step of a worker moves another one.
  lemma NotifyWakes(s: State, t: nat, u: nat)
    requires Enabled(s, WorkerStep(t)) && u < |s.pcs| && u != t
    ensures var s' := Next(s, WorkerStep(t));
            |s'.pcs| == |s.pcs| &&
            s'.pcs[u] == if s.pcs[t] == Notify && s.pcs[u] == Waiting then Reacquire else s.pcs[u]
  {
    if s.pcs[t] == Notify {
      assert Next(s, WorkerStep(t)).pcs[u] == Wake(s.pcs[t := WantLog2][u]);
    }
  }

  // Which lock a thread holds, by its place: the second log is written under both.
  lemma LocksHeld(n: nat, s: State, t: nat)
    requires Reachable(n, s) && t < n
    ensures |s.pcs| == n
    ensures s.pcs[t] in {Increment, Notify, WantLog2, InLog2, Check, Leaving} <==> s.shared == Worker(t)
    ensures s.pcs[t] in {InLog1, InLog2, InLog3} <==> s.cout == Worker(t)
    ensures s.main in {InLogStart, InLogEnd} <==> s.cout == Main
  {
    ReachableInv(n, s);
  }

  // ------------------------------------------------------------------ main

  function MainHistory(h: seq<MainPc>, s: State, run: seq<Action>): seq<MainPc>
    decreases |run|
  {
    if run == [] || !Enabled(s, run[0]) then h
    else
      var s' := Next(s, run[0]);
      MainHistory(if s'.main == s.main then h else h + [s'.main], s', run[1..])
  }

  function Spawns(k: nat): seq<MainPc> {
    seq(k + 1, i requires 0 <= i <= k => Spawning(i))
  }

  function Joins(k: nat): seq<MainPc> {
    seq(k + 1, i requires 0 <= i <= k => Joining(i))
  }

  function MainPath(n: nat, m: MainPc): seq<MainPc> {
    match m
    case WantLogStart => [WantLogStart]
    case InLogStart => [WantLogStart, InLogStart]
    case Spawning(k) => [WantLogStart, InLogStart] + Spawns(k)
    case Joining(k) => [WantLogStart, InLogStart] + Spawns(n) + Joins(k)
    case WantLogEnd => [WantLogStart, InLogStart] + Spawns(n) + Joins(n) + [WantLogEnd]
    case InLogEnd => [WantLogStart, InLogStart] + Spawns(n) + Joins(n) + [WantLogEnd, InLogEnd]
    case Done => [WantLogStart, InLogStart] + Spawns(n) + Joins(n) + [WantLogEnd, InLogEnd, Done]
  }

  lemma MainMoves(s: State, a: Action)
    requires MainMatches(s) && Enabled(s, a)
    ensures var n, m := |s.pcs|, Next(s, a).main;
            m == s.main || MainPath(n, m) == MainPath(n, s.main) + [m]
  {
    assert Spawns(0) == [Spawning(0)] && Joins(0) == [Joining(0)];
    if s.main.Spawning? {
      assert Spawns(s.main.started + 1) == Spawns(s.main.started) + [Spawning(s.main.started + 1)];
    } else if s.main.Joining? {
      assert Joins(s.main.joined + 1) == Joins(s.main.joined) + [Joining(s.main.joined + 1)];
    }
  }

  lemma {:induction false} MainHistoryIsPath(h: seq<MainPc>, s: State, run: seq<Action>, s': State)
    requires Inv(s) && IsRun(s, run, s') && h == MainPath(|s.pcs|, s.main)
    ensures MainHistory(h, s, run) == MainPath(|s.pcs|, s'.main)
    decreases |run|
  {
    if run == [] {
    } else {
      var next := Next(s, run[0]);
      StepInv(s, run[0]);
      MainMoves(s, run[0]);
      MainHistoryIsPath(if next.main == s.main then h else h + [next.main], next, run[1..], s');
    }
  }

  // main logs, starts the threads one after the other, joins them one after the other,
  // and logs; each thread is started before the next, and has finished when it is joined.
  lemma MainOrder(n: nat, run: seq<Action>, s: State)
    requires IsRun(Init(n), run, s) && s.main == Done
    ensures MainHistory([WantLogStart], Init(n), run) ==
            [WantLogStart, InLogStart] + seq(n + 1, i requires 0 <= i <= n => Spawning(i))
            + seq(n + 1, i requires 0 <= i <= n => Joining(i)) + [WantLogEnd, InLogEnd, Done]
  {
    InitInv(n);
    MainHistoryIsPath([WantLogStart], Init(n), run, s);
  }

  lemma StartedAndJoined(n: nat, s: State, t: nat)
    requires Reachable(n, s) && t < n
    ensures |s.pcs| == n
    ensures s.main.Spawning? ==> (s.pcs[t] == NotStarted <==> s.main.started <= t)
    ensures s.main in {WantLogStart, InLogStart} ==> s.pcs[t] == NotStarted
    ensures s.main.Joining? ==> s.pcs[t] != NotStarted && (t < s.main.joined ==> s.pcs[t] == Finished)
  {
    ReachableInv(n, s);
  }
}
