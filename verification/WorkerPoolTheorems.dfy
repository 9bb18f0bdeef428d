/** What the worker pool guarantees on every run, for any number of workers. */
module WorkerPoolTheorems {
  import opened WorkerPool
  import opened WorkerPoolInvariants

  /** `s` is reachable with `n` workers. */
  ghost predicate Reachable(n: nat, s: State) {
    n > 0 && exists run :: Feasible(Init(n), run) && Final(Init(n), run) == s
  }

  lemma ReachableInv(n: nat, s: State)
    requires Reachable(n, s)
    ensures Inv(s) && |s.workers| == n
  {
    var run :| Feasible(Init(n), run) && Final(Init(n), run) == s;
    InvInit(n);
    InvAlong(Init(n), run);
  }

  // ----- The shutdown handshake -----

  /** When `quit` has returned from its wait, every worker has finished: none holds a mutex,
      none will ask for one again, and `serviced` is complete. */
  lemma HandshakeSafe(n: nat, s: State)
    requires Reachable(n, s) && PastWait(s.main)
    ensures s.exited == |s.workers| == n
    ensures forall i | 0 <= i < |s.workers| :: s.workers[i].pc == Done
    ensures !s.stackOwner.W? && !s.exitOwner.W?
    ensures s.main == QDestroy ==> s.stackOwner == Free && s.exitOwner == Free
    ensures forall a | Enabled(s, a) :: a == MainStep
    ensures s.serviced == |s.pushed| - |s.stack|
  {
    ReachableInv(n, s);
    DoneSums(s.workers);
  }

  lemma {:induction false} DoneSums(ws: seq<Worker>)
    requires forall i | 0 <= i < |ws| :: ws[i].pc == Done
    ensures Sum(Reported, ws) == Sum(HandledBy, ws) && Sum(Uncounted, ws) == 0
  {
    if ws != [] {
      DoneSums(ws[1..]);
    }
  }

  /** No exit is counted before `quit` sleeps, and while it sleeps the signal is still to come. */
  lemma LastSignalNotLost(n: nat, s: State)
    requires Reachable(n, s)
    ensures s.exited > 0 ==> !BeforeWait(s.main)
    ensures s.main == QAsleep && s.exited == n ==>
              exists i | 0 <= i < |s.workers| :: s.workers[i].pc == SignalLast && s.exitOwner == W(i)
    ensures forall i | 0 <= i < |s.workers| && s.workers[i].pc == SignalLast :: s.main == QAsleep
  {
    ReachableInv(n, s);
    if BeforeWait(s.main) { NobodyExitedEarly(s); }
    forall i | 0 <= i < |s.workers| && s.workers[i].pc == SignalLast ensures s.main == QAsleep && s.exitOwner == W(i) {
      assert PointOk(s, s.workers[i].pc);
      assert HoldsExit(s.workers[i].pc);
      assert AnySignalling(s.workers);
    }
  }

  /** The guarantee rests on exitCond having no spurious wakeups: `quit` does not retest a
      condition after its wait, and one such wakeup lets it pass before anybody has exited. */
  lemma SpuriousExitWakeupBreaksHandshake(n: nat)
    requires n > 0
    ensures exists s :: Reachable(n, s) && s.main == QAsleep && s.exited == 0 && PassesEarly(s.(main := QWoken))
  {
    var run := QuitTakesLocks(n);
    run := QuitStartsWaiting(n, run);
    var s := Idle(n, false, Free, Free, QAsleep);
    assert Reachable(n, s);
    IdlePassesEarly(n);
  }

  lemma IdlePassesEarly(n: nat)
    requires n > 0
    ensures PassesEarly(Idle(n, false, Free, Free, QWoken))
  {
    var s := Idle(n, false, Free, Free, QWoken);
    assert s.workers[0] == Worker(Loop, 0);
  }

  lemma QuitTakesLocks(n: nat) returns (run: seq<Action>)
    ensures Feasible(Init(n), run) && Final(Init(n), run) == Idle(n, true, Main, Main, QSetRunning)
  {
    OneStep(Init(n), Interrupt, Idle(n, true, Free, Free, QWantExit), []);
    run := [Interrupt];
    run := GoOn(n, run, Idle(n, true, Free, Free, QWantExit), Idle(n, true, Free, Main, QWantStack));
    run := GoOn(n, run, Idle(n, true, Free, Main, QWantStack), Idle(n, true, Main, Main, QSetRunning));
  }

  lemma QuitStartsWaiting(n: nat, start: seq<Action>) returns (run: seq<Action>)
    requires Feasible(Init(n), start) && Final(Init(n), start) == Idle(n, true, Main, Main, QSetRunning)
    ensures Feasible(Init(n), run) && Final(Init(n), run) == Idle(n, false, Free, Free, QAsleep)
  {
    var b := Idle(n, false, Main, Main, QBroadcast);
    var u := Idle(n, false, Main, Main, QUnlockStack);
    var w := Idle(n, false, Free, Main, QWait);
    run := GoOn(n, start, Idle(n, true, Main, Main, QSetRunning), b);
    assert Apply(b, MainStep) == u by { assert WakeAll(b.workers) == b.workers; }
    run := GoOn(n, run, b, u);
    run := GoOn(n, run, u, w);
    run := GoOn(n, run, w, Idle(n, false, Free, Free, QAsleep));
  }

  ghost predicate PassesEarly(s: State) {
    Enabled(s, MainStep) && PastWait(Apply(s, MainStep).main) && Enabled(Apply(s, MainStep), Run(0))
  }

  /** No connection has arrived and every worker is still at its first test of `running`. */
  function Idle(n: nat, running: bool, stackOwner: Owner, exitOwner: Owner, main: MainPc): State {
    Init(n).(running := running, stackOwner := stackOwner, exitOwner := exitOwner, main := main)
  }

  lemma OneStep(s: State, a: Action, t: State, run: seq<Action>)
    requires Enabled(s, a) && Apply(s, a) == t
    ensures Feasible(s, [a]) && Final(s, [a]) == t
  {
    assert [a][1..] == [];
  }

  /** A run that reaches `s` goes on with a step of the main thread. */
  lemma GoOn(n: nat, run: seq<Action>, s: State, t: State) returns (longer: seq<Action>)
    requires Feasible(Init(n), run) && Final(Init(n), run) == s
    requires Enabled(s, MainStep) && Apply(s, MainStep) == t
    ensures Feasible(Init(n), longer) && Final(Init(n), longer) == t
  {
    longer := run + [MainStep];
    Append(Init(n), run, MainStep);
  }

  lemma {:induction false} Append(s: State, run: seq<Action>, a: Action)
    requires Feasible(s, run) && Enabled(Final(s, run), a)
    ensures Feasible(s, run + [a]) && Final(s, run + [a]) == Apply(Final(s, run), a)
    decreases |run|
  {
    if run == [] {
      OneStep(s, a, Apply(s, a), []);
      assert run + [a] == [a];
    } else {
      Append(Apply(s, run[0]), run[1..], a);
      assert (run + [a])[1..] == run[1..] + [a];
    }
  }

  // ----- Progress -----

  /** A thread that waits for a mutex holds none, except `quit`, so lock waits form no cycle. */
  lemma NoLockCycle(n: nat, s: State, i: nat)
    requires Reachable(n, s) && i < |s.workers|
    requires s.workers[i].pc == WantStack || s.workers[i].pc == Woken || s.workers[i].pc == WantExit
             || s.workers[i].pc == Asleep
    ensures s.stackOwner != W(i) && s.exitOwner != W(i)
    ensures s.stackOwner == Main && s.exitOwner == Main ==> Enabled(s, MainStep)
  {
    ReachableInv(n, s);
  }

  /** Some thread can always move until `quit` has finished. */
  lemma NoDeadlock(n: nat, s: State)
    requires Reachable(n, s) && s.main != QDone
    ensures exists a :: Enabled(s, a) && !a.Spurious?
  {
    ReachableInv(n, s);
    var a := SomeoneMoves(s);
  }

  lemma HolderMoves(s: State)
    requires Inv(s)
    ensures s.stackOwner.W? ==> Enabled(s, Run(s.stackOwner.i))
    ensures s.exitOwner.W? ==> Enabled(s, Run(s.exitOwner.i))
  {
    if s.stackOwner.W? { assert HoldsStack(s.workers[s.stackOwner.i].pc); }
    if s.exitOwner.W? { assert HoldsExit(s.workers[s.exitOwner.i].pc); }
  }

  /** A thread that waits for a mutex waits for one that can move. */
  lemma BlockedByMover(s: State)
    requires Inv(s) && s.main != QAsleep && s.main != QDone && s.main != MAccepting && s.main != MPushSignal
    ensures Enabled(s, MainStep) || exists i :: Enabled(s, Run(i))
  {
    HolderMoves(s);
    if s.main == QWantExit && s.exitOwner.W? { assert PointOk(s, s.workers[s.exitOwner.i].pc); }
  }

  lemma SignalPossible(s: State) returns (a: Action)
    requires s.main == MPushSignal
    ensures Enabled(s, a) && a.Signal?
  {
    var all := set i | 0 <= i < |s.workers| && IsAsleep(s.workers, i);
    if i :| 0 <= i < |s.workers| && s.workers[i].pc == Asleep {
      assert i in all;
    }
    a := Signal(all);
  }

  lemma WorkerOrMain(s: State) returns (a: Action)
    requires Enabled(s, MainStep) || exists i :: Enabled(s, Run(i))
    ensures Enabled(s, a) && !a.Spurious?
  {
    a := MainStep;
    if !Enabled(s, MainStep) {
      var i :| Enabled(s, Run(i));
      a := Run(i);
    }
  }

  lemma SomeoneMoves(s: State) returns (a: Action)
    requires Inv(s) && s.main != QDone
    ensures Enabled(s, a) && !a.Spurious?
  {
    if s.main == MAccepting {
      a := AcceptConn(1);
    } else if s.main == MPushSignal {
      a := SignalPossible(s);
    } else {
      if s.main == QAsleep { WorkerMoves(s); } else { BlockedByMover(s); }
      a := WorkerOrMain(s);
    }
  }

  /** While `quit` sleeps, some worker can move. */
  lemma WorkerMoves(s: State)
    requires Inv(s) && s.main == QAsleep
    ensures exists i :: Enabled(s, Run(i))
  {
    HolderMoves(s);
    if AnySignalling(s.workers) {
      var i :| 0 <= i < |s.workers| && s.workers[i].pc == SignalLast;
      assert Enabled(s, Run(i));
    } else {
      SumFull(ExitCount, s.workers);
      var i :| 0 <= i < |s.workers| && ExitCount(s.workers[i]) != 1;
      assert PointOk(s, s.workers[i].pc);
      if !s.stackOwner.W? && !s.exitOwner.W? {
        assert Enabled(s, Run(i));
      }
    }
  }

  /** How far a worker is from its end once `running` is cleared. */
  function Rank(w: Worker): nat {
    match w.pc
    case AboutToSleep => 16
    case Asleep => 15
    case Woken => 14
    case WantStack => 14
    case Test => 13
    case Decide => 12
    case Pop => 12
    case UnlockGot(_) => 11
    case Got(_) => 10
    case Serving(_) => 9
    case UnlockIdle => 9
    case Loop => 8
    case WantExit => 7
    case Increment => 6
    case SignalLast => 5
    case BroadcastRest => 5
    case AddServiced => 4
    case UnlockExit => 3
    case Done => 2
    case Crashed => 1
  }

  function MainRank(m: MainPc): nat {
    match m
    case QBroadcast => 9
    case QUnlockStack => 8
    case QWait => 7
    case QAsleep => 6
    case QWoken => 5
    case QTeardown => 4
    case QUnlockExit => 3
    case QDestroy => 2
    case _ => 1
  }

  function Remaining(s: State): nat {
    Sum(Rank, s.workers) + MainRank(s.main)
  }

  lemma WorkerFalls(s: State, i: nat)
    requires Enabled(s, Run(i)) && !s.running && PointOk(s, s.workers[i].pc)
    ensures Rank(WorkerNext(s, i).workers[i]) < Rank(s.workers[i])
  {
  }

  lemma WorkersFall(s: State, i: nat)
    requires Enabled(s, Run(i)) && !s.running && PointOk(s, s.workers[i].pc)
    ensures Sum(Rank, WorkerNext(s, i).workers) < Sum(Rank, s.workers)
  {
    var t := WorkerNext(s, i);
    WorkerFalls(s, i);
    WorkerFrame(s, i);
    var u := t.workers[i := s.workers[i]];
    SumBelow(Rank, u, s.workers);
    SumUpdate(Rank, u, i, t.workers[i]);
    assert u[i := t.workers[i]] == t.workers;
  }

  lemma OthersFall(s: State, a: Action)
    requires Enabled(s, a) && !a.Run? && !BeforeStop(s.main)
    ensures Remaining(Apply(s, a)) < Remaining(s)
  {
    var t := Apply(s, a);
    OthersFrame(s, a);
    SumBelow(Rank, t.workers, s.workers);
    if a.Spurious? {
      assert Rank(t.workers[a.i]) < Rank(s.workers[a.i]);
    }
  }

  /** After `running` is cleared, every step of any thread brings the end nearer. */
  lemma StepFalls(s: State, a: Action)
    requires Inv(s) && !s.running && Enabled(s, a)
    ensures Remaining(Apply(s, a)) < Remaining(s) && !Apply(s, a).running
  {
    if a.Run? {
      assert PointOk(s, s.workers[a.i].pc);
      WorkersFall(s, a.i);
      WorkerShared(s, a.i);
    } else {
      OthersFall(s, a);
    }
  }

  lemma {:induction false} RunBounded(s: State, run: seq<Action>)
    requires Inv(s) && !s.running && Feasible(s, run)
    ensures |run| + Remaining(Final(s, run)) <= Remaining(s)
    ensures !Final(s, run).running
    decreases |run|
  {
    if run != [] {
      InvKept(s, run[0]);
      StepFalls(s, run[0]);
      RunBounded(Apply(s, run[0]), run[1..]);
    }
  }

  /** Whatever the scheduler does after `running` is cleared, it can take only boundedly many
      steps, and where no step is left `quit` and all workers are done. Nobody sleeps on
      stackCond after the broadcast. */
  lemma ShutdownCompletes(n: nat, s: State, run: seq<Action>)
    requires Reachable(n, s) && !s.running && Feasible(s, run)
    ensures |run| <= Remaining(s)
    ensures var t := Final(s, run);
            && (s.main != QBroadcast ==> !AnyAsleep(t.workers))
            && ((forall a :: !Enabled(t, a)) ==>
                  t.main == QDone && forall i | 0 <= i < |t.workers| :: t.workers[i].pc == Done)
  {
    ReachableInv(n, s);
    RunBounded(s, run);
    InvAlong(s, run);
    var t := Final(s, run);
    if s.main != QBroadcast {
      PastBroadcast(s, run);
      forall i | 0 <= i < |t.workers| ensures t.workers[i].pc != Asleep { assert PointOk(t, t.workers[i].pc); }
    }
    if t.main != QDone {
      var a := SomeoneMoves(t);
    }
  }

  lemma {:induction false} PastBroadcast(s: State, run: seq<Action>)
    requires Feasible(s, run) && !BeforeStop(s.main) && s.main != QBroadcast
    ensures !BeforeStop(Final(s, run).main) && Final(s, run).main != QBroadcast
    decreases |run|
  {
    if run != [] {
      PastBroadcast(Apply(s, run[0]), run[1..]);
    }
  }

  // ----- Requests and connections -----

  /** With stackMutex free, sleepers never outnumber their excuse: every waiting request has a
      worker already woken for it. If all workers sleep, no request waits. */
  lemma NoStrandedRequest(n: nat, s: State)
    requires Reachable(n, s) && s.running && s.stackOwner == Free
    ensures AnyAsleep(s.workers) ==> |s.stack| <= Sum(PendingWake, s.workers)
    ensures (forall i | 0 <= i < |s.workers| :: s.workers[i].pc == Asleep) ==> s.stack == []
  {
    ReachableInv(n, s);
    NobodyInTransit(s);
    if forall i | 0 <= i < |s.workers| :: s.workers[i].pc == Asleep {
      assert s.workers[0].pc == Asleep;
      SumZero(PendingWake, s.workers);
    }
  }

  /** A connection is pushed at most once and then is in exactly one place: on the stack, with
      one worker, or closed; and `pop` never hands out NULL. */
  lemma ConnectionsConserved(n: nat, s: State)
    requires Reachable(n, s)
    ensures forall c | c in s.pushed :: multiset(s.stack)[c] + Held(s.workers)[c] + s.closed[c] == 1
    ensures forall c | c !in s.pushed :: c !in s.stack && Held(s.workers)[c] == 0 && s.closed[c] == 0
    ensures forall i | 0 <= i < |s.workers| :: s.workers[i].pc != Crashed
    ensures forall i | 0 <= i < |s.workers| && s.workers[i].pc == Pop :: !StackEmpty(s.stack)
  {
    ReachableInv(n, s);
    forall i | 0 <= i < |s.workers|
      ensures s.workers[i].pc != Crashed && (s.workers[i].pc == Pop ==> !StackEmpty(s.stack)) {
      assert PointOk(s, s.workers[i].pc);
    }
    forall c: Conn ensures multiset(s.pushed)[c] == if c in s.pushed then 1 else 0 {
      OnceEach(s.pushed, c);
    }
    forall c: Conn ensures multiset(s.stack)[c] + Held(s.workers)[c] + s.closed[c] == multiset(s.pushed)[c] {
      assert (multiset(s.stack) + Held(s.workers) + s.closed)[c] == multiset(s.pushed)[c];
    }
  }

  lemma {:induction false} OnceEach(p: seq<Conn>, c: Conn)
    requires forall i, j | 0 <= i < j < |p| :: p[i] != p[j]
    ensures multiset(p)[c] == if c in p then 1 else 0
  {
    if p != [] {
      OnceEach(p[1..], c);
      assert p == [p[0]] + p[1..];
    }
  }

  /** A worker that exits while others are left wakes every sleeper, and nobody else moves. */
  lemma LeavingWakesAll(s: State, i: nat)
    requires i < |s.workers| && s.workers[i].pc == BroadcastRest
    ensures var t := Apply(s, Run(i));
            && !AnyAsleep(t.workers) && t.main == s.main && |t.workers| == |s.workers|
            && forall j | 0 <= j < |s.workers| && j != i ::
                 t.workers[j].pc == if s.workers[j].pc == Asleep then Woken else s.workers[j].pc
  {
  }
}
