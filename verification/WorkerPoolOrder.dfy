/** In which order connections are served: a worker takes the one accepted last among those that
    wait (threadPool.c, `push` and `pop`). */
module WorkerPoolOrder {
  import opened WorkerPool
  import opened WorkerPoolTheorems

  /** The connection that the main thread is about to push. */
  function InHand(main: MainPc): seq<Conn> {
    match main
    case MAccepted(c) => [c]
    case MPushLock(c) => [c]
    case MPushInsert(c) => [c]
    case _ => []
  }

  /** Newer connections come first. */
  predicate NewestFirst(conns: seq<Conn>) {
    forall i, j | 0 <= i < j < |conns| :: conns[i].id > conns[j].id
  }

  predicate Ordered(s: State) {
    && NewestFirst(InHand(s.main) + s.stack)
    && forall i | 0 <= i < |InHand(s.main) + s.stack| :: (InHand(s.main) + s.stack)[i].id < s.accepted
  }

  lemma StackOrdered(s: State)
    requires Ordered(s)
    ensures NewestFirst(s.stack) && forall i | 0 <= i < |s.stack| :: s.stack[i].id < s.accepted
  {
    var all := InHand(s.main) + s.stack;
    assert forall i | 0 <= i < |s.stack| :: s.stack[i] == all[|InHand(s.main)| + i];
  }

  lemma OrderKept(s: State, a: Action)
    requires Enabled(s, a) && Ordered(s)
    ensures Ordered(Apply(s, a))
  {
    StackOrdered(s);
    var t := Apply(s, a);
    match a
    case Run(i) =>
      OrderKeptByWorker(s, i);
    case AcceptConn(fd) =>
      assert InHand(t.main) + t.stack == [Conn(s.accepted, fd)] + s.stack;
    case _ =>
      assert InHand(t.main) + t.stack == InHand(s.main) + s.stack || InHand(t.main) + t.stack == s.stack;
  }

  /** Taking one connection out leaves the others in order. */
  lemma OneTaken(h: seq<Conn>, stack: seq<Conn>, bound: nat)
    requires stack != [] && NewestFirst(h + stack) && forall i | 0 <= i < |h + stack| :: (h + stack)[i].id < bound
    ensures NewestFirst(h + stack[1..]) && forall i | 0 <= i < |h + stack[1..]| :: (h + stack[1..])[i].id < bound
  {
    var all, after := h + stack, h + stack[1..];
    assert forall k | 0 <= k < |h| :: after[k] == all[k];
    assert forall k | |h| <= k < |after| :: after[k] == all[k + 1];
  }

  lemma OrderKeptByWorker(s: State, i: nat)
    requires Enabled(s, Run(i)) && Ordered(s)
    ensures Ordered(WorkerNext(s, i))
  {
    var t := WorkerNext(s, i);
    assert InHand(t.main) == InHand(s.main) && t.accepted == s.accepted;
    if s.workers[i].pc == Pop && !StackEmpty(s.stack) {
      OneTaken(InHand(s.main), s.stack, s.accepted);
      assert t.stack == s.stack[1..];
    } else {
      assert t.stack == s.stack;
    }
  }

  lemma {:induction false} OrderedAlong(s: State, run: seq<Action>)
    requires Ordered(s) && Feasible(s, run)
    ensures Ordered(Final(s, run))
    decreases |run|
  {
    if run != [] {
      OrderKept(s, run[0]);
      OrderedAlong(Apply(s, run[0]), run[1..]);
    }
  }

  /** In every reachable state a worker that pops gets the connection accepted last of those on the
      stack, and leaves the others in their order. */
  lemma NewestServedFirst(n: nat, s: State, i: nat)
    requires Reachable(n, s) && i < |s.workers| && s.workers[i].pc == Pop && !StackEmpty(s.stack)
    ensures NewestFirst(s.stack)
    ensures var t := Apply(s, Run(i));
            && t.workers[i].pc.UnlockGot? && t.workers[i].pc.conn in s.stack
            && (forall d | d in s.stack && d != t.workers[i].pc.conn :: d.id < t.workers[i].pc.conn.id && d in t.stack)
            && NewestFirst(t.stack) && |t.stack| == |s.stack| - 1
  {
    var run :| Feasible(Init(n), run) && Final(Init(n), run) == s;
    OrderedAlong(Init(n), run);
    StackOrdered(s);
    OrderKeptByWorker(s, i);
    StackOrdered(WorkerNext(s, i));
  }
}
