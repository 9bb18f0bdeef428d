/** What every step of the worker pool keeps. */
module WorkerPoolInvariants {
  import opened WorkerPool

  // ----- Sums over the workers -----

  function Sum(f: Worker -> nat, ws: seq<Worker>): nat {
    if ws == [] then 0 else f(ws[0]) + Sum(f, ws[1..])
  }

  lemma {:induction false} SumUpdate(f: Worker -> nat, ws: seq<Worker>, i: nat, w: Worker)
    requires i < |ws|
    ensures Sum(f, ws[i := w]) + f(ws[i]) == Sum(f, ws) + f(w)
  {
    if i == 0 {
      assert ws[i := w][1..] == ws[1..];
    } else {
      assert ws[i := w][1..] == ws[1..][i - 1 := w];
      SumUpdate(f, ws[1..], i - 1, w);
    }
  }

  ghost predicate Below(f: Worker -> nat, v: seq<Worker>, ws: seq<Worker>) {
    |v| == |ws| && forall i | 0 <= i < |v| :: f(v[i]) <= f(ws[i])
  }

  lemma {:induction false} SumBelow(f: Worker -> nat, v: seq<Worker>, ws: seq<Worker>)
    requires Below(f, v, ws)
    ensures Sum(f, v) <= Sum(f, ws)
    ensures forall i | 0 <= i < |v| && f(v[i]) < f(ws[i]) :: Sum(f, v) < Sum(f, ws)
  {
    if v != [] {
      SumBelow(f, v[1..], ws[1..]);
      forall i | 0 <= i < |v| && f(v[i]) < f(ws[i]) ensures Sum(f, v) < Sum(f, ws) {
        if i > 0 {
          assert f(v[1..][i - 1]) < f(ws[1..][i - 1]);
        }
      }
    }
  }

  lemma {:induction false} SumAtLeast(f: Worker -> nat, ws: seq<Worker>, i: nat)
    requires i < |ws|
    ensures f(ws[i]) <= Sum(f, ws)
  {
    if i > 0 {
      SumAtLeast(f, ws[1..], i - 1);
    }
  }

  /** A sum of zeros and ones is the number of workers exactly when every term is one. */
  lemma {:induction false} SumFull(f: Worker -> nat, ws: seq<Worker>)
    requires forall i | 0 <= i < |ws| :: f(ws[i]) <= 1
    ensures Sum(f, ws) <= |ws|
    ensures Sum(f, ws) == |ws| <==> forall i | 0 <= i < |ws| :: f(ws[i]) == 1
  {
    if ws != [] {
      SumFull(f, ws[1..]);
      assert forall i | 0 <= i < |ws| :: f(ws[i]) == if i == 0 then f(ws[0]) else f(ws[1..][i - 1]);
      if Sum(f, ws) == |ws| {
        forall i | 0 <= i < |ws| ensures f(ws[i]) == 1 { if i > 0 { assert ws[i] == ws[1..][i - 1]; } }
      }
      if forall i | 0 <= i < |ws| :: f(ws[i]) == 1 {
        forall i | 0 <= i < |ws| - 1 ensures f(ws[1..][i]) == 1 { assert ws[1..][i] == ws[i + 1]; }
      }
    }
  }

  /** The popped connection that a worker still holds, if any. */
  datatype Hand = Empty | Holding(conn: Conn)

  function InHand(pc: Pc): Hand {
    match pc
    case UnlockGot(c) => Holding(c)
    case Got(c) => Holding(c)
    case Serving(c) => Holding(c)
    case _ => Empty
  }

  function InMultiset(h: Hand): multiset<Conn> {
    if h == Empty then multiset{} else multiset{h.conn}
  }

  function HeldBy(pc: Pc): multiset<Conn> {
    InMultiset(InHand(pc))
  }

  function Held(ws: seq<Worker>): multiset<Conn> {
    if ws == [] then multiset{} else HeldBy(ws[0].pc) + Held(ws[1..])
  }

  lemma AddFront(a: multiset<Conn>, x: multiset<Conn>, h: multiset<Conn>, y: multiset<Conn>, k: multiset<Conn>)
    requires x + h == y + k
    ensures (a + x) + h == (a + y) + k
  {
    assert (a + x) + h == a + (x + h);
  }

  lemma {:induction false} HeldUpdate(ws: seq<Worker>, i: nat, w: Worker)
    requires i < |ws|
    ensures Held(ws[i := w]) + HeldBy(ws[i].pc) == Held(ws) + HeldBy(w.pc)
  {
    if i == 0 {
      assert ws[i := w][1..] == ws[1..];
    } else {
      assert ws[i := w][1..] == ws[1..][i - 1 := w];
      HeldUpdate(ws[1..], i - 1, w);
      AddFront(HeldBy(ws[0].pc), Held(ws[1..][i - 1 := w]), HeldBy(ws[i].pc), Held(ws[1..]), HeldBy(w.pc));
    }
  }

  lemma {:induction false} HeldAgree(v: seq<Worker>, ws: seq<Worker>)
    requires |v| == |ws| && forall i | 0 <= i < |v| :: HeldBy(v[i].pc) == HeldBy(ws[i].pc)
    ensures Held(v) == Held(ws)
  {
    if v != [] {
      HeldAgree(v[1..], ws[1..]);
    }
  }

  // ----- Program-point classes -----

  predicate HoldsStack(pc: Pc) {
    pc.Test? || pc.AboutToSleep? || pc.Decide? || pc.Pop? || pc.UnlockGot? || pc.UnlockIdle?
  }

  predicate HoldsExit(pc: Pc) {
    pc.Increment? || pc.SignalLast? || pc.BroadcastRest? || pc.AddServiced? || pc.UnlockExit?
  }

  predicate MainHoldsStack(m: MainPc) {
    m.MPushInsert? || m.MPushSignal? || m.MPushUnlock? || m.QSetRunning? || m.QBroadcast? || m.QUnlockStack?
  }

  predicate MainHoldsExit(m: MainPc) {
    m.QWantStack? || m.QSetRunning? || m.QBroadcast? || m.QUnlockStack? || m.QWait? || m.QTeardown? || m.QUnlockExit?
  }

  /** `running` has not been cleared yet. */
  predicate BeforeStop(m: MainPc) {
    m.MLoop? || m.MAccepting? || m.MAccepted? || m.MPushLock? || m.MPushInsert? || m.MPushSignal? || m.MPushUnlock?
    || m.QWantExit? || m.QWantStack? || m.QSetRunning?
  }

  predicate BeforeWait(m: MainPc) {
    BeforeStop(m) || m.QBroadcast? || m.QUnlockStack? || m.QWait?
  }

  predicate PastSignal(m: MainPc) {
    !BeforeWait(m) && !m.QAsleep?
  }

  /** `quit` has returned from its wait. */
  predicate PastWait(m: MainPc) {
    PastSignal(m) && !m.QWoken?
  }

  predicate HasIncremented(pc: Pc) {
    pc.SignalLast? || pc.BroadcastRest? || pc.AddServiced? || pc.UnlockExit? || pc.Done?
  }

  function ExitCount(w: Worker): nat { if HasIncremented(w.pc) then 1 else 0 }

  function Reported(w: Worker): nat { if w.pc.UnlockExit? || w.pc.Done? then w.handled else 0 }

  function HandledBy(w: Worker): nat { w.handled }

  /** Popped, but not yet counted in `requestsServiced`. */
  function Uncounted(w: Worker): nat { if w.pc.UnlockGot? || w.pc.Got? then 1 else 0 }

  /** Woken, but not yet back to test the stack. */
  function PendingWake(w: Worker): nat { if w.pc == Woken then 1 else 0 }

  // ----- The invariant -----

  /** Each mutex is owned by exactly the thread whose program point says so. */
  ghost predicate Locks(s: State) {
    StackLock(s) && ExitLock(s)
  }

  ghost predicate StackLock(s: State) {
    && (forall i | 0 <= i < |s.workers| :: HoldsStack(s.workers[i].pc) <==> s.stackOwner == W(i))
    && (MainHoldsStack(s.main) <==> s.stackOwner == Main)
    && (s.stackOwner.W? ==> s.stackOwner.i < |s.workers|)
  }

  ghost predicate ExitLock(s: State) {
    && (forall i | 0 <= i < |s.workers| :: HoldsExit(s.workers[i].pc) <==> s.exitOwner == W(i))
    && (MainHoldsExit(s.main) <==> s.exitOwner == Main)
    && (s.exitOwner.W? ==> s.exitOwner.i < |s.workers|)
  }

  ghost predicate Flags(s: State) {
    && (s.running <==> BeforeStop(s.main))
    && (forall c | c in s.stack :: c.fd != 0)
    && (s.main.MPushInsert? ==> s.main.conn.fd != 0)
    && (s.main.MPushLock? ==> s.main.conn.fd != 0)
    && (s.main.MAccepted? ==> s.main.conn.fd != 0)
  }

  /** What a worker's program point says about the shared variables. */
  ghost predicate PointOk(s: State, pc: Pc) {
    && (pc == AboutToSleep ==> s.running && s.stack == [])
    && (pc == Decide && s.running ==> s.stack != [])
    && (pc == Pop ==> s.running && s.stack != [])
    && (pc == UnlockIdle || pc == WantExit || HoldsExit(pc) || pc == Done ==> !s.running)
    && (HoldsExit(pc) || pc == Done ==> !BeforeWait(s.main))
    && (pc == Asleep ==> BeforeStop(s.main) || s.main == QBroadcast)
    && pc != Crashed
  }

  ghost predicate Points(s: State) {
    forall i | 0 <= i < |s.workers| :: PointOk(s, s.workers[i].pc)
  }

  ghost predicate AnySignalling(ws: seq<Worker>) {
    exists i | 0 <= i < |ws| :: ws[i].pc == SignalLast
  }

  /** The count of exits, and why the last signal is not lost. */
  ghost predicate Exits(s: State) {
    && s.exited == Sum(ExitCount, s.workers)
    && (AnySignalling(s.workers) ==> s.exited == |s.workers|)
    && (s.main == QAsleep ==> s.exited < |s.workers| || AnySignalling(s.workers))
    && (PastSignal(s.main) ==> s.exited == |s.workers| && !AnySignalling(s.workers))
  }

  /** Once `quit` is back from its wait, nobody else is left. */
  ghost predicate Finished(s: State) {
    PastWait(s.main) ==> forall i | 0 <= i < |s.workers| :: s.workers[i].pc == Done
  }

  /** One request may still be on its way to the thread that holds stackMutex. */
  function InTransit(s: State): nat {
    if s.main == MPushSignal then 1
    else if s.stackOwner.W? && s.stackOwner.i < |s.workers| &&
      (var pc := s.workers[s.stackOwner.i].pc; pc == Test || pc == Decide || pc == Pop) then 1 else 0
  }

  ghost predicate NoStranding(s: State) {
    s.running && AnyAsleep(s.workers) ==> |s.stack| <= Sum(PendingWake, s.workers) + InTransit(s)
  }

  /** Every pushed connection is on the stack, with one worker, or closed. */
  ghost predicate Conserved(s: State) {
    && multiset(s.stack) + Held(s.workers) + s.closed == multiset(s.pushed)
    && (forall c | c in s.pushed :: c.id < s.accepted)
    && (forall i, j | 0 <= i < j < |s.pushed| :: s.pushed[i] != s.pushed[j])
    && (s.main.MAccepted? || s.main.MPushLock? || s.main.MPushInsert? ==>
          s.main.conn.id < s.accepted && forall c | c in s.pushed :: c.id != s.main.conn.id)
  }

  ghost predicate Counted(s: State) {
    && |s.pushed| == |s.stack| + Sum(HandledBy, s.workers) + Sum(Uncounted, s.workers)
    && s.serviced == Sum(Reported, s.workers)
  }

  ghost predicate Inv(s: State) {
    |s.workers| > 0 && Locks(s) && Flags(s) && Points(s) && Exits(s) && Finished(s) && NoStranding(s)
      && Conserved(s) && Counted(s)
  }

  // ----- Preservation, one part at a time -----

  /** `v` is `ws` with some sleepers woken. */
  ghost predicate WokenFrom(v: seq<Worker>, ws: seq<Worker>) {
    |v| == |ws| && forall i | 0 <= i < |v| :: v[i] == ws[i] || v[i] == WakeOne(ws[i])
  }

  /** A worker's step moves that worker and wakes sleepers. */
  lemma WorkerFrame(s: State, i: nat)
    requires Enabled(s, Run(i))
    ensures var t := WorkerNext(s, i);
            |t.workers| == |s.workers| && WokenFrom(t.workers[i := s.workers[i]], s.workers)
    ensures var t := WorkerNext(s, i);
            s.workers[i].pc != BroadcastRest ==> t.workers[i := s.workers[i]] == s.workers
  {
  }

  /** A mutex goes from nobody to a worker or back, and no other way, in that worker's steps. */
  predicate Handed(before: Owner, after: Owner, i: nat) {
    after == before || (before == Free && after == W(i)) || (before == W(i) && after == Free)
  }

  lemma OwnStackLock(s: State, i: nat)
    requires Enabled(s, Run(i)) && (HoldsStack(s.workers[i].pc) <==> s.stackOwner == W(i))
    ensures var t := WorkerNext(s, i);
            (HoldsStack(t.workers[i].pc) <==> t.stackOwner == W(i)) && Handed(s.stackOwner, t.stackOwner, i)
  {
  }

  lemma OwnExitLock(s: State, i: nat)
    requires Enabled(s, Run(i)) && (HoldsExit(s.workers[i].pc) <==> s.exitOwner == W(i))
    ensures var t := WorkerNext(s, i);
            (HoldsExit(t.workers[i].pc) <==> t.exitOwner == W(i)) && Handed(s.exitOwner, t.exitOwner, i)
  {
  }

  lemma MainLocksStay(s: State, i: nat)
    requires Enabled(s, Run(i))
    ensures var t := WorkerNext(s, i);
            MainHoldsStack(t.main) == MainHoldsStack(s.main) && MainHoldsExit(t.main) == MainHoldsExit(s.main)
  {
  }

  /** Every other worker keeps its locks. */
  lemma OtherLocks(s: State, i: nat, j: nat)
    requires Enabled(s, Run(i)) && j < |s.workers| && j != i
    ensures var t := WorkerNext(s, i);
            && |t.workers| == |s.workers| && HoldsStack(t.workers[j].pc) == HoldsStack(s.workers[j].pc)
            && HoldsExit(t.workers[j].pc) == HoldsExit(s.workers[j].pc)
  {
    WorkerFrame(s, i);
    var t := WorkerNext(s, i);
    assert t.workers[i := s.workers[i]][j] == t.workers[j];
  }

  lemma StackLockKeptByWorker(s: State, i: nat)
    requires Enabled(s, Run(i)) && StackLock(s)
    ensures StackLock(WorkerNext(s, i))
  {
    OwnStackLock(s, i);
    MainLocksStay(s, i);
    WorkerFrame(s, i);
    forall j | 0 <= j < |s.workers| && j != i
      ensures HoldsStack(WorkerNext(s, i).workers[j].pc) == HoldsStack(s.workers[j].pc) {
      OtherLocks(s, i, j);
    }
  }

  lemma ExitLockKeptByWorker(s: State, i: nat)
    requires Enabled(s, Run(i)) && ExitLock(s)
    ensures ExitLock(WorkerNext(s, i))
  {
    OwnExitLock(s, i);
    MainLocksStay(s, i);
    WorkerFrame(s, i);
    forall j | 0 <= j < |s.workers| && j != i
      ensures HoldsExit(WorkerNext(s, i).workers[j].pc) == HoldsExit(s.workers[j].pc) {
      OtherLocks(s, i, j);
    }
  }

  lemma LocksKeptByMain(s: State)
    requires Enabled(s, MainStep) && Locks(s)
    ensures Locks(MainNext(s))
  {
    var t := MainNext(s);
    forall j | 0 <= j < |s.workers|
      ensures HoldsStack(t.workers[j].pc) == HoldsStack(s.workers[j].pc)
      ensures HoldsExit(t.workers[j].pc) == HoldsExit(s.workers[j].pc)
    {
      assert t.workers[j] == s.workers[j] || t.workers[j] == WakeOne(s.workers[j]);
    }
  }

  lemma LocksKeptByOthers(s: State, a: Action)
    requires Enabled(s, a) && !a.Run? && !a.MainStep? && Locks(s)
    ensures Locks(Apply(s, a))
  {
    var t := Apply(s, a);
    forall j | 0 <= j < |s.workers|
      ensures HoldsStack(t.workers[j].pc) == HoldsStack(s.workers[j].pc)
      ensures HoldsExit(t.workers[j].pc) == HoldsExit(s.workers[j].pc)
    {
      assert t.workers[j] == s.workers[j] || t.workers[j] == WakeOne(s.workers[j]);
    }
  }

  lemma LocksKept(s: State, a: Action)
    requires Enabled(s, a) && Locks(s)
    ensures Locks(Apply(s, a))
  {
    match a
    case Run(i) => StackLockKeptByWorker(s, i); ExitLockKeptByWorker(s, i);
    case MainStep => LocksKeptByMain(s);
    case _ => LocksKeptByOthers(s, a);
  }

  lemma FlagsKept(s: State, a: Action)
    requires Enabled(s, a) && Flags(s) && Locks(s)
    ensures Flags(Apply(s, a))
  {
  }

  /** A program point's facts survive a step of another worker. */
  lemma PointStays(s: State, t: State, pc: Pc)
    requires PointOk(s, pc) && t.running == s.running
    requires t.main == s.main || (s.main == QAsleep && t.main == QWoken)
    requires t.stack == s.stack || !HoldsStack(pc)
    ensures PointOk(t, pc) && PointOk(t, if pc == Asleep then Woken else pc)
  {
  }

  lemma OwnStackPoint(s: State, i: nat)
    requires Enabled(s, Run(i)) && Flags(s) && PointOk(s, s.workers[i].pc) && Locks(s)
    ensures var t := WorkerNext(s, i); var pc := t.workers[i].pc;
            && (pc == AboutToSleep ==> t.running && t.stack == [])
            && (pc == Decide && t.running ==> t.stack != [])
            && (pc == Pop ==> t.running && t.stack != [])
  {
  }

  lemma OwnExitPoint(s: State, i: nat)
    requires Enabled(s, Run(i)) && Flags(s) && PointOk(s, s.workers[i].pc) && Locks(s)
    ensures var t := WorkerNext(s, i); var pc := t.workers[i].pc;
            && (pc == UnlockIdle || pc == WantExit || HoldsExit(pc) || pc == Done ==> !t.running)
            && (HoldsExit(pc) || pc == Done ==> !BeforeWait(t.main))
  {
  }

  lemma OwnSleep(s: State, i: nat)
    requires Enabled(s, Run(i)) && Flags(s) && PointOk(s, s.workers[i].pc)
    ensures var t := WorkerNext(s, i); var pc := t.workers[i].pc;
            (pc == Asleep ==> BeforeStop(t.main) || t.main == QBroadcast) && pc != Crashed
  {
  }

  lemma OwnPoint(s: State, i: nat)
    requires Enabled(s, Run(i)) && Flags(s) && PointOk(s, s.workers[i].pc) && Locks(s)
    ensures PointOk(WorkerNext(s, i), WorkerNext(s, i).workers[i].pc)
  {
    OwnStackPoint(s, i);
    OwnExitPoint(s, i);
    OwnSleep(s, i);
  }

  lemma WorkerShared(s: State, i: nat)
    requires Enabled(s, Run(i))
    ensures var t := WorkerNext(s, i);
            && t.running == s.running
            && (t.main == s.main || (s.main == QAsleep && t.main == QWoken && s.workers[i].pc == SignalLast))
            && (t.stack == s.stack || s.workers[i].pc == Pop)
            && t.accepted == s.accepted && t.pushed == s.pushed
  {
  }

  lemma PointsKeptByWorker(s: State, i: nat)
    requires Enabled(s, Run(i)) && Flags(s) && Locks(s) && Points(s)
    ensures Points(WorkerNext(s, i))
  {
    var t := WorkerNext(s, i);
    var u := t.workers[i := s.workers[i]];
    assert WokenFrom(u, s.workers) && |t.workers| == |s.workers| by { WorkerFrame(s, i); }
    forall j | 0 <= j < |s.workers| ensures PointOk(t, t.workers[j].pc)
    {
      if j == i {
        assert PointOk(s, s.workers[i].pc);
        OwnPoint(s, i);
      } else {
        assert u[j] == t.workers[j];
        assert HoldsStack(s.workers[j].pc) ==> !HoldsStack(s.workers[i].pc);
        WorkerShared(s, i);
        PointStays(s, t, s.workers[j].pc);
      }
    }
  }

  lemma PointsKeptByMain(s: State)
    requires Enabled(s, MainStep) && Flags(s) && Locks(s) && Points(s)
    ensures Points(MainNext(s))
  {
    var t := MainNext(s);
    forall j | 0 <= j < |s.workers| ensures PointOk(t, t.workers[j].pc)
    {
      assert PointOk(s, s.workers[j].pc);
    }
  }

  lemma PointsKept(s: State, a: Action)
    requires Enabled(s, a) && Flags(s) && Locks(s) && Points(s)
    ensures Points(Apply(s, a))
  {
    match a
    case Run(i) => PointsKeptByWorker(s, i);
    case MainStep => PointsKeptByMain(s);
    case _ =>
      var t := Apply(s, a);
      forall j | 0 <= j < |s.workers| ensures PointOk(t, t.workers[j].pc)
      {
        assert PointOk(s, s.workers[j].pc);
      }
  }

  // ----- How a step changes the sums -----

  ghost predicate IgnoresWaking(f: Worker -> nat) {
    forall w: Worker :: f(WakeOne(w)) == f(w)
  }

  lemma SumWoken(f: Worker -> nat, v: seq<Worker>, ws: seq<Worker>)
    requires IgnoresWaking(f) && WokenFrom(v, ws)
    ensures Sum(f, v) == Sum(f, ws)
  {
    assert forall i | 0 <= i < |v| :: f(v[i]) == f(ws[i]) by {
      assert forall i | 0 <= i < |v| :: f(WakeOne(ws[i])) == f(ws[i]);
    }
    SumBelow(f, v, ws);
    SumBelow(f, ws, v);
  }

  lemma SumStep(f: Worker -> nat, s: State, i: nat)
    requires Enabled(s, Run(i)) && IgnoresWaking(f)
    ensures var t := WorkerNext(s, i);
            |t.workers| == |s.workers| && Sum(f, t.workers) + f(s.workers[i]) == Sum(f, s.workers) + f(t.workers[i])
  {
    WorkerFrame(s, i);
    var t := WorkerNext(s, i);
    var u := t.workers[i := s.workers[i]];
    SumWoken(f, u, s.workers);
    SumUpdate(f, u, i, t.workers[i]);
    assert u[i := t.workers[i]] == t.workers;
  }

  /** Steps of the main thread and spurious wakeups only wake sleepers. */
  lemma OthersFrame(s: State, a: Action)
    requires Enabled(s, a) && !a.Run?
    ensures WokenFrom(Apply(s, a).workers, s.workers)
  {
  }

  lemma SumOthers(f: Worker -> nat, s: State, a: Action)
    requires Enabled(s, a) && !a.Run? && IgnoresWaking(f)
    ensures Sum(f, Apply(s, a).workers) == Sum(f, s.workers)
  {
    OthersFrame(s, a);
    SumWoken(f, Apply(s, a).workers, s.workers);
  }

  // ----- The exit count and the last signal -----

  /** Nobody has incremented `exited` while `quit` has not started to wait. */
  lemma NobodyExitedEarly(s: State)
    requires |s.workers| > 0 && Points(s) && BeforeWait(s.main) && s.exited == Sum(ExitCount, s.workers)
    ensures s.exited == 0 && !AnySignalling(s.workers)
  {
    var zero := (w: Worker) => 0;
    assert forall i | 0 <= i < |s.workers| :: PointOk(s, s.workers[i].pc);
    assert forall i | 0 <= i < |s.workers| :: ExitCount(s.workers[i]) == 0;
    SumZero(ExitCount, s.workers);
  }

  lemma {:induction false} SumZero(f: Worker -> nat, ws: seq<Worker>)
    requires forall i | 0 <= i < |ws| :: f(ws[i]) == 0
    ensures Sum(f, ws) == 0
  {
    if ws != [] {
      SumZero(f, ws[1..]);
    }
  }

  lemma ExitsKeptByOthers(s: State, a: Action)
    requires Enabled(s, a) && !a.Run? && |s.workers| > 0 && Points(s) && Exits(s)
    ensures Exits(Apply(s, a))
  {
    SumOthers(ExitCount, s, a);
    OthersFrame(s, a);
    var t := Apply(s, a);
    assert AnySignalling(t.workers) <==> AnySignalling(s.workers) by {
      forall j | 0 <= j < |s.workers| ensures t.workers[j].pc == SignalLast <==> s.workers[j].pc == SignalLast {
        assert t.workers[j] == s.workers[j] || t.workers[j] == WakeOne(s.workers[j]);
      }
    }
    if BeforeWait(s.main) {
      NobodyExitedEarly(s);
    }
  }

  /** Only its holder works under exitMutex, so no other worker signals at the same time. */
  lemma SignallersAfter(s: State, i: nat)
    requires Enabled(s, Run(i)) && ExitLock(s)
    ensures var t := WorkerNext(s, i);
            |t.workers| == |s.workers| && (AnySignalling(t.workers) <==>
            if HoldsExit(s.workers[i].pc) then t.workers[i].pc == SignalLast else AnySignalling(s.workers))
  {
    WorkerFrame(s, i);
    var t := WorkerNext(s, i);
    var u := t.workers[i := s.workers[i]];
    forall j | 0 <= j < |s.workers| && j != i ensures t.workers[j].pc == SignalLast <==> s.workers[j].pc == SignalLast {
      assert u[j] == t.workers[j];
    }
    forall j | 0 <= j < |s.workers| && HoldsExit(s.workers[j].pc) && HoldsExit(s.workers[i].pc) ensures j == i {
    }
  }

  /** If all have incremented `exited`, so has worker `i`. */
  lemma NotAllExited(s: State, i: nat)
    requires i < |s.workers| && s.exited == Sum(ExitCount, s.workers) && !HasIncremented(s.workers[i].pc)
    ensures s.exited < |s.workers|
  {
    SumFull(ExitCount, s.workers);
    assert ExitCount(s.workers[i]) == 0;
  }

  /** What a worker's step does to the count of exits and to the sleep of `quit`. */
  lemma OwnExit(s: State, i: nat)
    requires Enabled(s, Run(i))
    ensures var t := WorkerNext(s, i); var pc := s.workers[i].pc;
            && |t.workers| == |s.workers| && t.exited == s.exited + (if pc == Increment then 1 else 0)
            && (t.workers[i].pc == SignalLast <==> pc == Increment && s.exited + 1 == |s.workers|)
            && t.main == if pc == SignalLast && s.main == QAsleep then QWoken else s.main
  {
  }

  lemma ExitsKeptByWorker(s: State, i: nat)
    requires Enabled(s, Run(i)) && |s.workers| > 0 && Locks(s) && Points(s) && Exits(s)
    ensures Exits(WorkerNext(s, i))
  {
    SumStep(ExitCount, s, i);
    SignallersAfter(s, i);
    OwnExit(s, i);
    OwnCounted(s, i);
    if HoldsExit(s.workers[i].pc) && AnySignalling(s.workers) { OnlySignaller(s, i); }
    assert PointOk(s, s.workers[i].pc);
    ExitsFrom(s, WorkerNext(s, i), i);
  }

  lemma OwnCounted(s: State, i: nat)
    requires Enabled(s, Run(i))
    ensures HasIncremented(WorkerNext(s, i).workers[i].pc) <==>
              HasIncremented(s.workers[i].pc) || s.workers[i].pc == Increment
  {
  }

  /** Two workers that hold exitMutex are one. */
  lemma OnlySignaller(s: State, i: nat)
    requires ExitLock(s) && i < |s.workers| && HoldsExit(s.workers[i].pc) && AnySignalling(s.workers)
    ensures s.workers[i].pc == SignalLast
  {
    var j :| 0 <= j < |s.workers| && s.workers[j].pc == SignalLast;
    assert HoldsExit(s.workers[j].pc);
  }

  /** The same, from what is known of the step. */
  lemma ExitsFrom(s: State, t: State, i: nat)
    requires i < |s.workers| == |t.workers| && Exits(s) && PointOk(s, s.workers[i].pc)
    requires Sum(ExitCount, t.workers) + ExitCount(s.workers[i]) == Sum(ExitCount, s.workers) + ExitCount(t.workers[i])
    requires HoldsExit(s.workers[i].pc) && AnySignalling(s.workers) ==> s.workers[i].pc == SignalLast
    requires AnySignalling(t.workers) <==>
             if HoldsExit(s.workers[i].pc) then t.workers[i].pc == SignalLast else AnySignalling(s.workers)
    requires var pc := s.workers[i].pc;
             && t.exited == s.exited + (if pc == Increment then 1 else 0)
             && (t.workers[i].pc == SignalLast <==> pc == Increment && s.exited + 1 == |s.workers|)
             && t.main == (if pc == SignalLast && s.main == QAsleep then QWoken else s.main)
             && (HasIncremented(t.workers[i].pc) <==> HasIncremented(pc) || pc == Increment)
    ensures Exits(t)
  {
    if s.workers[i].pc == Increment {
      NotAllExited(s, i);
    } else if s.workers[i].pc == SignalLast {
      assert AnySignalling(s.workers);
    }
  }

  lemma FinishedKept(s: State, a: Action)
    requires Enabled(s, a) && Locks(s) && Exits(s) && Finished(s)
    ensures Finished(Apply(s, a))
  {
    match a
    case Run(i) =>
      WorkerShared(s, i);
      assert s.main == QAsleep || !PastWait(s.main);
    case MainStep =>
      SumFull(ExitCount, s.workers);
      forall i | s.main == QWoken && 0 <= i < |s.workers| ensures s.workers[i].pc == Done {
        assert ExitCount(s.workers[i]) == 1;
        assert !HoldsExit(s.workers[i].pc);
      }
    case _ =>
      OthersFrame(s, a);
  }

  // ----- No stranded request -----

  /** Whether the thread that holds stackMutex is about to look at the stack. */
  function Looking(pc: Pc): nat { if pc == Test || pc == Decide || pc == Pop then 1 else 0 }

  lemma TransitOf(s: State, i: nat)
    requires StackLock(s) && i < |s.workers| && HoldsStack(s.workers[i].pc)
    ensures InTransit(s) == Looking(s.workers[i].pc)
  {
  }

  lemma NobodyInTransit(s: State)
    requires StackLock(s) && (s.stackOwner == Free || s.stackOwner == Main) && s.main != MPushSignal
    ensures InTransit(s) == 0
  {
  }

  lemma SomebodyStillAsleep(s: State, i: nat)
    requires Enabled(s, Run(i))
    ensures var t := WorkerNext(s, i);
            AnyAsleep(t.workers) ==> AnyAsleep(s.workers) || s.workers[i].pc == AboutToSleep
  {
    WorkerFrame(s, i);
    var t := WorkerNext(s, i);
    var u := t.workers[i := s.workers[i]];
    forall j | 0 <= j < |s.workers| && j != i && t.workers[j].pc == Asleep ensures s.workers[j].pc == Asleep {
      assert u[j] == t.workers[j];
    }
  }

  /** While `running`, nobody broadcasts: the pending wakeups change by the stepping worker alone. */
  lemma PendingAfter(s: State, i: nat)
    requires Enabled(s, Run(i)) && s.workers[i].pc != BroadcastRest
    ensures var t := WorkerNext(s, i);
            |t.workers| == |s.workers| &&
            Sum(PendingWake, t.workers) + PendingWake(s.workers[i])
            == Sum(PendingWake, s.workers) + PendingWake(t.workers[i])
  {
    WorkerFrame(s, i);
    var t := WorkerNext(s, i);
    SumUpdate(PendingWake, s.workers, i, t.workers[i]);
    var u := t.workers[i := s.workers[i]];
    assert u == s.workers;
    assert s.workers[i := t.workers[i]] == t.workers;
  }

  lemma StrandingKeptByWorker(s: State, i: nat)
    requires Enabled(s, Run(i)) && Locks(s) && Flags(s) && Points(s) && NoStranding(s)
    ensures NoStranding(WorkerNext(s, i))
  {
    var t := WorkerNext(s, i);
    WorkerShared(s, i);
    if t.running && AnyAsleep(t.workers) {
      SomebodyStillAsleep(s, i);
      assert PointOk(s, s.workers[i].pc);
      PendingAfter(s, i);
      StackLockKeptByWorker(s, i);
      if HoldsStack(s.workers[i].pc) { TransitOf(s, i); }
      if HoldsStack(t.workers[i].pc) { TransitOf(t, i); }
    }
  }

  /** A signal leaves as many requests as woken workers, and wakes one more if it can. */
  lemma SignalWakes(s: State, a: Action)
    requires Enabled(s, a) && a.Signal? && AnyAsleep(s.workers) && Locks(Apply(s, a))
    ensures Sum(PendingWake, Apply(s, a).workers) >= Sum(PendingWake, s.workers) + 1
    ensures InTransit(s) == 1 && InTransit(Apply(s, a)) == 0 && Apply(s, a).stack == s.stack
  {
    var t := Apply(s, a);
    var j :| j in a.which && IsAsleep(s.workers, j);
    OthersFrame(s, a);
    SumBelow(PendingWake, s.workers, t.workers);
    assert PendingWake(s.workers[j]) < PendingWake(t.workers[j]);
    NobodyInTransit(t);
  }

  lemma SpuriousWakes(s: State, a: Action)
    requires Enabled(s, a) && a.Spurious?
    ensures Sum(PendingWake, Apply(s, a).workers) >= Sum(PendingWake, s.workers)
    ensures InTransit(Apply(s, a)) == InTransit(s) && Apply(s, a).stack == s.stack
  {
    var t := Apply(s, a);
    SumUpdate(PendingWake, s.workers, a.i, t.workers[a.i]);
    assert t.workers == s.workers[a.i := t.workers[a.i]];
  }

  lemma StillAsleep(s: State, a: Action)
    requires Enabled(s, a) && !a.Run? && AnyAsleep(Apply(s, a).workers)
    ensures AnyAsleep(s.workers)
  {
    OthersFrame(s, a);
    var t := Apply(s, a);
    var j :| 0 <= j < |t.workers| && t.workers[j].pc == Asleep;
    assert s.workers[j].pc == Asleep;
  }

  /** Pushing puts a request in transit before it is signalled; a signal hands it to a sleeper. */
  lemma StrandingKeptByOthers(s: State, a: Action)
    requires Enabled(s, a) && !a.Run? && Locks(s) && Flags(s) && NoStranding(s)
    ensures NoStranding(Apply(s, a))
  {
    var t := Apply(s, a);
    if t.running && AnyAsleep(t.workers) {
      StillAsleep(s, a);
      if a.Signal? {
        LocksKept(s, a);
        SignalWakes(s, a);
      } else if a.Spurious? {
        SpuriousWakes(s, a);
      } else {
        OthersFrame(s, a);
        assert t.workers == s.workers;
        assert t.stack == s.stack || InTransit(t) == InTransit(s) + 1;
        assert InTransit(t) >= InTransit(s);
      }
    }
  }

  // ----- Conservation -----

  lemma {:induction false} HeldWoken(v: seq<Worker>, ws: seq<Worker>)
    requires WokenFrom(v, ws)
    ensures Held(v) == Held(ws)
  {
    HeldAgree(v, ws);
  }

  lemma HeldStep(s: State, i: nat)
    requires Enabled(s, Run(i))
    ensures var t := WorkerNext(s, i);
            |t.workers| == |s.workers| &&
            Held(t.workers) + HeldBy(s.workers[i].pc) == Held(s.workers) + HeldBy(t.workers[i].pc)
  {
    WorkerFrame(s, i);
    var t := WorkerNext(s, i);
    var u := t.workers[i := s.workers[i]];
    HeldWoken(u, s.workers);
    HeldUpdate(u, i, t.workers[i]);
    assert u[i := t.workers[i]] == t.workers;
  }

  lemma OwnNoMove(s: State, i: nat)
    requires Enabled(s, Run(i)) && !s.workers[i].pc.Pop? && !s.workers[i].pc.Serving?
    ensures var t := WorkerNext(s, i);
            |t.workers| == |s.workers| && InHand(t.workers[i].pc) == InHand(s.workers[i].pc)
            && t.closed == s.closed && t.stack == s.stack
  {
  }

  lemma OwnPop(s: State, i: nat)
    requires Enabled(s, Run(i)) && s.workers[i].pc.Pop? && !StackEmpty(s.stack)
    ensures var t := WorkerNext(s, i);
            |t.workers| == |s.workers| && InHand(s.workers[i].pc) == Empty && t.closed == s.closed
            && InHand(t.workers[i].pc) == Holding(s.stack[0]) && t.stack == s.stack[1..]
  {
  }

  lemma OwnClose(s: State, i: nat)
    requires Enabled(s, Run(i)) && s.workers[i].pc.Serving?
    ensures var t := WorkerNext(s, i);
            |t.workers| == |s.workers| && InHand(t.workers[i].pc) == Empty && t.stack == s.stack
            && InHand(s.workers[i].pc).Holding? && t.closed == s.closed + multiset{InHand(s.workers[i].pc).conn}
  {
  }

  ghost predicate Moved(stack: seq<Conn>, hand: Hand, closed: multiset<Conn>, stack': seq<Conn>, hand': Hand,
                        closed': multiset<Conn>) {
    || (stack' == stack && hand' == hand && closed' == closed)
    || (stack != [] && stack' == stack[1..] && hand == Empty && hand' == Holding(stack[0]) && closed' == closed)
    || (stack' == stack && hand.Holding? && hand' == Empty && closed' == closed + multiset{hand.conn})
  }

  /** A worker's own step moves a connection between the stack, its hands and the closed ones. */
  lemma OwnMove(s: State, i: nat)
    requires Enabled(s, Run(i))
    ensures var t := WorkerNext(s, i);
            && |t.workers| == |s.workers|
            && Moved(s.stack, InHand(s.workers[i].pc), s.closed, t.stack, InHand(t.workers[i].pc), t.closed)
  {
    if s.workers[i].pc.Pop? {
      if !StackEmpty(s.stack) {
        OwnPop(s, i);
      }
    } else if s.workers[i].pc.Serving? {
      OwnClose(s, i);
    } else {
      OwnNoMove(s, i);
    }
  }

  lemma MoveBalances(stack: seq<Conn>, hand: Hand, closed: multiset<Conn>, stack': seq<Conn>, hand': Hand,
                     closed': multiset<Conn>)
    requires Moved(stack, hand, closed, stack', hand', closed')
    ensures multiset(stack) + InMultiset(hand) + closed == multiset(stack') + InMultiset(hand') + closed'
  {
    if stack' != stack {
      assert stack == [stack[0]] + stack';
    }
  }

  lemma OwnCount(s: State, i: nat)
    requires Enabled(s, Run(i)) && PointOk(s, s.workers[i].pc)
    ensures var t := WorkerNext(s, i);
            && |t.workers| == |s.workers|
            && |s.stack| + HandledBy(s.workers[i]) + Uncounted(s.workers[i])
               == |t.stack| + HandledBy(t.workers[i]) + Uncounted(t.workers[i])
            && t.serviced + Reported(s.workers[i]) == s.serviced + Reported(t.workers[i])
  {
  }

  lemma Rebalance(a: multiset<Conn>, b: multiset<Conn>, h: multiset<Conn>, k: multiset<Conn>, x: multiset<Conn>,
                  y: multiset<Conn>, c: multiset<Conn>, d: multiset<Conn>)
    requires a + x + c == b + y + d && k + x == h + y
    ensures a + h + c == b + k + d
  {
    forall e: Conn ensures (a + h + c)[e] == (b + k + d)[e] {
      assert (a + x + c)[e] == (b + y + d)[e] && (k + x)[e] == (h + y)[e];
    }
    assert a + h + c == b + k + d by {
      assert forall e: Conn :: (a + h + c)[e] == (b + k + d)[e];
    }
  }

  lemma ConservedByWorker(s: State, i: nat)
    requires Enabled(s, Run(i)) && Conserved(s)
    ensures Conserved(WorkerNext(s, i))
  {
    var t := WorkerNext(s, i);
    WorkerShared(s, i);
    assert multiset(t.stack) + Held(t.workers) + t.closed == multiset(s.stack) + Held(s.workers) + s.closed by {
      OwnMove(s, i);
      MoveBalances(s.stack, InHand(s.workers[i].pc), s.closed, t.stack, InHand(t.workers[i].pc), t.closed);
      HeldStep(s, i);
      Rebalance(multiset(s.stack), multiset(t.stack), Held(s.workers), Held(t.workers),
                HeldBy(s.workers[i].pc), HeldBy(t.workers[i].pc), s.closed, t.closed);
    }
  }

  lemma OthersShared(s: State, a: Action)
    requires Enabled(s, a) && !a.Run?
    ensures var t := Apply(s, a);
            && t.closed == s.closed && t.serviced == s.serviced
            && ((t.stack == s.stack && t.pushed == s.pushed)
                || (s.main.MPushInsert? && a == MainStep && t.stack == [s.main.conn] + s.stack
                    && t.pushed == s.pushed + [s.main.conn]))
  {
  }

  lemma BalancedByOthers(s: State, a: Action)
    requires Enabled(s, a) && !a.Run? && multiset(s.stack) + Held(s.workers) + s.closed == multiset(s.pushed)
    ensures var t := Apply(s, a); multiset(t.stack) + Held(t.workers) + t.closed == multiset(t.pushed)
  {
    OthersFrame(s, a);
    HeldWoken(Apply(s, a).workers, s.workers);
    OthersShared(s, a);
  }

  /** A connection gets a new number when it is accepted, and is pushed once. */
  lemma NumberedByOthers(s: State, a: Action)
    requires Enabled(s, a) && !a.Run? && Conserved(s)
    ensures var t := Apply(s, a);
            && (forall c | c in t.pushed :: c.id < t.accepted)
            && (t.main.MAccepted? || t.main.MPushLock? || t.main.MPushInsert? ==>
                  t.main.conn.id < t.accepted && forall c | c in t.pushed :: c.id != t.main.conn.id)
  {
    OthersShared(s, a);
  }

  lemma DistinctByOthers(s: State, a: Action)
    requires Enabled(s, a) && !a.Run? && Conserved(s)
    ensures var t := Apply(s, a); forall i, j | 0 <= i < j < |t.pushed| :: t.pushed[i] != t.pushed[j]
  {
    OthersShared(s, a);
    if Apply(s, a).pushed != s.pushed {
      assert forall i | 0 <= i < |s.pushed| :: s.pushed[i] in s.pushed && s.pushed[i] != s.main.conn;
    }
  }

  lemma ConservedByOthers(s: State, a: Action)
    requires Enabled(s, a) && !a.Run? && Conserved(s)
    ensures Conserved(Apply(s, a))
  {
    BalancedByOthers(s, a);
    NumberedByOthers(s, a);
    DistinctByOthers(s, a);
  }

  lemma CountedByWorker(s: State, i: nat)
    requires Enabled(s, Run(i)) && Points(s) && Counted(s)
    ensures Counted(WorkerNext(s, i))
  {
    WorkerShared(s, i);
    SumStep(HandledBy, s, i);
    SumStep(Uncounted, s, i);
    SumStep(Reported, s, i);
    assert PointOk(s, s.workers[i].pc);
    OwnCount(s, i);
  }

  lemma CountedByOthers(s: State, a: Action)
    requires Enabled(s, a) && !a.Run? && Counted(s)
    ensures Counted(Apply(s, a))
  {
    SumOthers(HandledBy, s, a);
    SumOthers(Uncounted, s, a);
    SumOthers(Reported, s, a);
  }

  // ----- Every reachable state -----

  lemma InvInit(n: nat)
    requires n > 0
    ensures Inv(Init(n))
  {
    var s := Init(n);
    assert forall i | 0 <= i < n :: s.workers[i] == Worker(Loop, 0);
    SumZero(ExitCount, s.workers);
    SumZero(HandledBy, s.workers);
    SumZero(Uncounted, s.workers);
    SumZero(Reported, s.workers);
    HeldByNobody(s.workers);
  }

  lemma {:induction false} HeldByNobody(ws: seq<Worker>)
    requires forall i | 0 <= i < |ws| :: HeldBy(ws[i].pc) == multiset{}
    ensures Held(ws) == multiset{}
  {
    if ws != [] {
      HeldByNobody(ws[1..]);
    }
  }

  lemma InvKept(s: State, a: Action)
    requires Enabled(s, a) && Inv(s)
    ensures Inv(Apply(s, a)) && |Apply(s, a).workers| == |s.workers|
  {
    LocksKept(s, a);
    FlagsKept(s, a);
    PointsKept(s, a);
    match a
    case Run(i) =>
      WorkerFrame(s, i);
      ExitsKeptByWorker(s, i);
      FinishedKept(s, a);
      StrandingKeptByWorker(s, i);
      ConservedByWorker(s, i);
      CountedByWorker(s, i);
    case _ =>
      OthersFrame(s, a);
      ExitsKeptByOthers(s, a);
      FinishedKept(s, a);
      StrandingKeptByOthers(s, a);
      ConservedByOthers(s, a);
      CountedByOthers(s, a);
  }

  lemma {:induction false} InvAlong(s: State, run: seq<Action>)
    requires Inv(s) && Feasible(s, run)
    ensures Inv(Final(s, run)) && |Final(s, run).workers| == |s.workers|
    decreases |run|
  {
    if run != [] {
      InvKept(s, run[0]);
      InvAlong(Apply(s, run[0]), run[1..]);
    }
  }
}
