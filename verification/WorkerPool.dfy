/** The worker pool and its shutdown handshake (threadPool.c), as a state machine whose
    steps are the lock, wait, signal, broadcast and unlock operations of the N workers and
    of the main thread, which accepts connections until the interrupt handler `quit` runs on it. */
module WorkerPool {

  /** An accepted connection: its place in the order of acceptance and its descriptor. */
  datatype Conn = Conn(id: nat, fd: int)

  /** Where a worker is inside `serviceRequest` and `incrExit`. */
  datatype Pc =
    | Loop                     // about to read `running` without a lock
    | WantStack                // blocked in lock(stackMutex)
    | Test                     // holds stackMutex, about to test the inner loop condition
    | AboutToSleep             // holds stackMutex, about to call wait(stackCond)
    | Asleep                   // sleeping on stackCond
    | Woken                    // woken, blocked on getting stackMutex back
    | Decide                   // holds stackMutex, left the inner loop
    | Pop                      // holds stackMutex, about to pop
    | UnlockGot(conn: Conn)    // holds stackMutex and a popped connection
    | Got(conn: Conn)          // about to count the request
    | Serving(conn: Conn)      // inside the service of the request
    | UnlockIdle               // holds stackMutex, saw running == 0
    | WantExit                 // blocked in lock(exitMutex)
    | Increment                // holds exitMutex, about to do ++exited
    | SignalLast               // holds exitMutex, was the last to exit
    | BroadcastRest            // holds exitMutex, was not the last to exit
    | AddServiced              // holds exitMutex
    | UnlockExit               // holds exitMutex
    | Done
    | Crashed                  // unlocked and dereferenced the NULL that `pop` returned

  datatype Worker = Worker(pc: Pc, handled: nat)

  /** Where the main thread is: the accept loop and `push` (M...), then `quit` (Q...). */
  datatype MainPc =
    | MLoop
    | MAccepting
    | MAccepted(conn: Conn)
    | MPushLock(conn: Conn)
    | MPushInsert(conn: Conn)
    | MPushSignal
    | MPushUnlock
    | QWantExit
    | QWantStack
    | QSetRunning
    | QBroadcast
    | QUnlockStack
    | QWait
    | QAsleep
    | QWoken
    | QTeardown
    | QUnlockExit
    | QDestroy
    | QDone

  datatype Owner = Free | Main | W(i: nat)

  datatype State = State(
    running: bool,
    stack: seq<Conn>,
    exited: nat,
    serviced: nat,
    stackOwner: Owner,
    exitOwner: Owner,
    workers: seq<Worker>,
    main: MainPc,
    accepted: nat,
    pushed: seq<Conn>,
    closed: multiset<Conn>)

  /** One scheduling choice. A signal may wake any sleepers, but at least one if there is one.
      Sleepers on stackCond may also wake spuriously; the sleeper on exitCond may not. */
  datatype Action =
    | Run(i: nat)
    | Spurious(i: nat)
    | MainStep
    | AcceptConn(fd: int)
    | Signal(which: set<nat>)
    | Interrupt

  function Init(n: nat): State {
    State(true, [], 0, 0, Free, Free, seq(n, i => Worker(Loop, 0)), MLoop, 0, [], multiset{})
  }

  predicate StackEmpty(stack: seq<Conn>) {
    !(stack != [] && stack[0].fd != 0)
  }

  predicate IsAsleep(ws: seq<Worker>, i: nat) {
    i < |ws| && ws[i].pc == Asleep
  }

  predicate AnyAsleep(ws: seq<Worker>) {
    exists i | 0 <= i < |ws| :: ws[i].pc == Asleep
  }

  function WakeOne(w: Worker): Worker {
    if w.pc == Asleep then w.(pc := Woken) else w
  }

  function Wake(ws: seq<Worker>, which: set<nat>): (r: seq<Worker>)
    ensures |r| == |ws|
    ensures forall i | 0 <= i < |ws| :: r[i] == if i in which then WakeOne(ws[i]) else ws[i]
  {
    seq(|ws|, i requires 0 <= i < |ws| => if i in which then WakeOne(ws[i]) else ws[i])
  }

  function WakeAll(ws: seq<Worker>): (r: seq<Worker>)
    ensures |r| == |ws|
    ensures forall i | 0 <= i < |ws| :: r[i] == WakeOne(ws[i])
  {
    seq(|ws|, i requires 0 <= i < |ws| => WakeOne(ws[i]))
  }

  predicate Enabled(s: State, a: Action) {
    match a
    case Run(i) =>
      i < |s.workers| &&
      (match s.workers[i].pc
       case WantStack | Woken => s.stackOwner == Free
       case WantExit => s.exitOwner == Free
       case Asleep | Done | Crashed => false
       case _ => true)
    case Spurious(i) => IsAsleep(s.workers, i)
    case MainStep =>
      (match s.main
       case MAccepting | MPushSignal | QAsleep | QDone => false
       case MPushLock(_) | QWantStack => s.stackOwner == Free
       case QWantExit | QWoken => s.exitOwner == Free
       case _ => true)
    case AcceptConn(fd) => s.main == MAccepting && fd != 0
    case Signal(which) =>
      s.main == MPushSignal && (AnyAsleep(s.workers) ==> exists i | i in which :: IsAsleep(s.workers, i))
    case Interrupt => s.main == MLoop || s.main == MAccepting || s.main.MAccepted?
  }

  function Goto(s: State, i: nat, pc: Pc): State
    requires i < |s.workers|
  {
    s.(workers := s.workers[i := s.workers[i].(pc := pc)])
  }

  function WorkerNext(s: State, i: nat): State
    requires Enabled(s, Run(i))
  {
    var w := s.workers[i];
    match w.pc
    case Loop => Goto(s, i, if s.running then WantStack else WantExit)
    case WantStack => Goto(s.(stackOwner := W(i)), i, Test)
    case Test => Goto(s, i, if StackEmpty(s.stack) && s.running then AboutToSleep else Decide)
    case AboutToSleep => Goto(s.(stackOwner := Free), i, Asleep)
    case Woken => Goto(s.(stackOwner := W(i)), i, Test)
    case Decide => Goto(s, i, if s.running then Pop else UnlockIdle)
    case Pop =>
      if StackEmpty(s.stack) then Goto(s.(stackOwner := Free), i, Crashed)
      else Goto(s.(stack := s.stack[1..]), i, UnlockGot(s.stack[0]))
    case UnlockGot(c) => Goto(s.(stackOwner := Free), i, Got(c))
    case Got(c) => s.(workers := s.workers[i := Worker(Serving(c), w.handled + 1)])
    case Serving(c) => Goto(s.(closed := s.closed + multiset{c}), i, Loop)
    case UnlockIdle => Goto(s.(stackOwner := Free), i, Loop)
    case WantExit => Goto(s.(exitOwner := W(i)), i, Increment)
    case Increment =>
      Goto(s.(exited := s.exited + 1), i, if s.exited + 1 == |s.workers| then SignalLast else BroadcastRest)
    case SignalLast => Goto(s.(main := if s.main == QAsleep then QWoken else s.main), i, AddServiced)
    case BroadcastRest => Goto(s.(workers := WakeAll(s.workers)), i, AddServiced)
    case AddServiced => Goto(s.(serviced := s.serviced + w.handled), i, UnlockExit)
    case UnlockExit => Goto(s.(exitOwner := Free), i, Done)
    case _ => s
  }

  function MainNext(s: State): State
    requires Enabled(s, MainStep)
  {
    match s.main
    case MLoop => s.(main := MAccepting)
    case MAccepted(c) => s.(main := MPushLock(c))
    case MPushLock(c) => s.(stackOwner := Main, main := MPushInsert(c))
    case MPushInsert(c) => s.(stack := [c] + s.stack, pushed := s.pushed + [c], main := MPushSignal)
    case MPushUnlock => s.(stackOwner := Free, main := MLoop)
    case QWantExit => s.(exitOwner := Main, main := QWantStack)
    case QWantStack => s.(stackOwner := Main, main := QSetRunning)
    case QSetRunning => s.(running := false, main := QBroadcast)
    case QBroadcast => s.(workers := WakeAll(s.workers), main := QUnlockStack)
    case QUnlockStack => s.(stackOwner := Free, main := QWait)
    case QWait => s.(exitOwner := Free, main := QAsleep)
    case QWoken => s.(exitOwner := Main, main := QTeardown)
    case QTeardown => s.(main := QUnlockExit)
    case QUnlockExit => s.(exitOwner := Free, main := QDestroy)
    case QDestroy => s.(main := QDone)
    case _ => s
  }

  function Apply(s: State, a: Action): (r: State)
    requires Enabled(s, a)
  {
    match a
    case Run(i) => WorkerNext(s, i)
    case Spurious(i) => Goto(s, i, Woken)
    case MainStep => MainNext(s)
    case AcceptConn(fd) => s.(main := MAccepted(Conn(s.accepted, fd)), accepted := s.accepted + 1)
    case Signal(which) => s.(workers := Wake(s.workers, which), main := MPushUnlock)
    case Interrupt => s.(main := QWantExit)
  }

  /** `run` is a possible schedule from `s`, every action enabled when it is taken. */
  predicate Feasible(s: State, run: seq<Action>)
    decreases |run|
  {
    run == [] || (Enabled(s, run[0]) && Feasible(Apply(s, run[0]), run[1..]))
  }

  function Final(s: State, run: seq<Action>): State
    requires Feasible(s, run)
    decreases |run|
  {
    if run == [] then s else Final(Apply(s, run[0]), run[1..])
  }
}
