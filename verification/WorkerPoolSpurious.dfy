/** What a spurious wakeup of exitCond does: `quit` does not retest anything after its wait
    (threadPool.c). */
module WorkerPoolSpurious {
  import opened WorkerPool
  import opened WorkerPoolInvariants
  import opened WorkerPoolTheorems

  /** Some worker has not yet counted its exit and is not about to. */
  ghost predicate Late(s: State) {
    exists i | 0 <= i < |s.workers| :: !HasIncremented(s.workers[i].pc) && s.exitOwner != W(i)
  }

  ghost predicate Unfinished(s: State) {
    exists i | 0 <= i < |s.workers| :: s.workers[i].pc != Done
  }

  /** Some run from here lets `quit` get past its wait with a worker left. */
  ghost predicate Harmful(s: State) {
    exists run :: Feasible(s, run) && PastWait(Final(s, run).main) && Unfinished(Final(s, run))
  }

  // ----- A late worker is left behind -----

  function StepsLeft(pc: Pc): nat {
    match pc
    case Increment => 4
    case SignalLast => 3
    case BroadcastRest => 3
    case AddServiced => 2
    case _ => 1
  }

  ghost predicate Waiting(s: State, j: nat) {
    ExitLock(s) && s.main == QWoken && j < |s.workers| && s.workers[j].pc != Done && s.exitOwner != W(j)
  }

  lemma HolderStep(s: State, j: nat)
    requires Waiting(s, j) && s.exitOwner.W?
    ensures var k := s.exitOwner.i;
            && Enabled(s, Run(k)) && Waiting(WorkerNext(s, k), j)
            && var t := WorkerNext(s, k);
               t.exitOwner == Free || (t.exitOwner == W(k) && StepsLeft(t.workers[k].pc) < StepsLeft(s.workers[k].pc))
  {
    var k := s.exitOwner.i;
    assert HoldsExit(s.workers[k].pc);
    ExitLockKeptByWorker(s, k);
    WorkerFrame(s, k);
    var t := WorkerNext(s, k);
    assert t.workers[k := s.workers[k]][j] == t.workers[j];
  }

  lemma {:induction false} Passes(s: State, j: nat) returns (run: seq<Action>)
    requires Waiting(s, j)
    ensures Feasible(s, run) && PastWait(Final(s, run).main) && Unfinished(Final(s, run))
    decreases if s.exitOwner.W? && s.exitOwner.i < |s.workers| then StepsLeft(s.workers[s.exitOwner.i].pc) else 0
  {
    if s.exitOwner == Free {
      var t := Apply(s, MainStep);
      OneStep(s, MainStep, t, []);
      assert t.workers[j].pc != Done;
      run := [MainStep];
    } else {
      HolderStep(s, j);
      var a := Run(s.exitOwner.i);
      var rest := Passes(Apply(s, a), j);
      run := [a] + rest;
      assert run[1..] == rest;
    }
  }

  // ----- Without one, nobody is -----

  ghost predicate NobodyLate(s: State) {
    && ExitLock(s) && (s.main == QWoken || PastWait(s.main))
    && (forall i | 0 <= i < |s.workers| :: s.workers[i].pc == Done || s.exitOwner == W(i))
    && (PastWait(s.main) ==> !Unfinished(s))
  }

  lemma NobodyLateKept(s: State, a: Action)
    requires NobodyLate(s) && Enabled(s, a)
    ensures NobodyLate(Apply(s, a))
  {
    match a
    case Run(k) =>
      assert HoldsExit(s.workers[k].pc);
      ExitLockKeptByWorker(s, k);
      WorkerFrame(s, k);
      var t := WorkerNext(s, k);
      forall i | 0 <= i < |s.workers| ensures t.workers[i].pc == Done || t.exitOwner == W(i) {
        assert t.workers[k := s.workers[k]][i] == if i == k then s.workers[k] else t.workers[i];
      }
    case MainStep =>
    case _ =>
  }

  lemma {:induction false} NobodyLateAlong(s: State, run: seq<Action>)
    requires NobodyLate(s) && Feasible(s, run)
    ensures NobodyLate(Final(s, run))
    decreases |run|
  {
    if run != [] {
      NobodyLateKept(s, run[0]);
      NobodyLateAlong(Apply(s, run[0]), run[1..]);
    }
  }

  /** In every reachable state in which `quit` sleeps, a spurious wakeup can let it pass with a
      worker left exactly if some worker neither has counted its exit nor holds exitMutex. */
  lemma SpuriousWakeupHarmfulExactly(n: nat, s: State)
    requires Reachable(n, s) && s.main == QAsleep
    ensures Harmful(s.(main := QWoken)) <==> Late(s)
  {
    ReachableInv(n, s);
    var t := s.(main := QWoken);
    assert ExitLock(t);
    if Late(s) {
      var j :| 0 <= j < |s.workers| && !HasIncremented(s.workers[j].pc) && s.exitOwner != W(j);
      var run := Passes(t, j);
    } else {
      forall i | 0 <= i < |t.workers| ensures t.workers[i].pc == Done || t.exitOwner == W(i) {
        assert HasIncremented(s.workers[i].pc) || s.exitOwner == W(i);
      }
      forall run | Feasible(t, run) ensures !(PastWait(Final(t, run).main) && Unfinished(Final(t, run))) {
        NobodyLateAlong(t, run);
      }
    }
  }
}
