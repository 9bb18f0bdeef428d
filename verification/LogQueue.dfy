/** The queue between the workers and the log writer (logging.c): a linked list that is pushed
    at its head and popped at its tail. */
module LogQueue {
  class Node {
    const message: string
    var next: Node?
    constructor (message: string)
      ensures this.message == message && next == null
    {
      this.message, next := message, null;
    }
  }

  /** The messages of the nodes, which are listed from the newest, in the order of their arrival. */
  ghost function Messages(nodes: seq<Node>): seq<string> {
    if nodes == [] then [] else Messages(nodes[1..]) + [nodes[0].message]
  }

  lemma {:induction false} LastIsOldest(nodes: seq<Node>)
    requires nodes != []
    ensures Messages(nodes) == [nodes[|nodes| - 1].message] + Messages(nodes[..|nodes| - 1])
    decreases |nodes|
  {
    var n := |nodes| - 1;
    if n == 0 {
      assert Messages(nodes[1..]) == [] && nodes[..n] == [];
    } else {
      LastIsOldest(nodes[1..]);
      assert nodes[1..][..n - 1] == nodes[..n][1..];
    }
  }

  /** The node behind the one at `i`. */
  ghost function Behind(nodes: seq<Node>, i: nat): Node? {
    if i + 1 < |nodes| then nodes[i + 1] else null
  }

  class Queue {
    var pendingLogs: Node?
    /** The nodes, from the head of the list on. */
    ghost var nodes: seq<Node>

    ghost predicate Valid()
      reads this, nodes
    {
      && pendingLogs == (if nodes == [] then null else nodes[0])
      && (forall i | 0 <= i < |nodes| :: nodes[i].next == Behind(nodes, i))
      && (forall i, j | 0 <= i < j < |nodes| :: nodes[i] != nodes[j])
    }

    /** The messages waiting, the oldest first. */
    ghost function Waiting(): seq<string>
      reads this
    {
      Messages(nodes)
    }

    constructor ()
      ensures Valid() && Waiting() == []
    {
      pendingLogs, nodes := null, [];
    }

    /** logpush, the part under the mutex included. */
    method LogPush(msg: string)
      requires Valid()
      modifies this
      ensures Valid() && Waiting() == old(Waiting()) + [msg]
      ensures nodes != [] && fresh(nodes[0]) && nodes[1..] == old(nodes)
    {
      ghost var rest := nodes;
      var node := new Node(msg);
      if pendingLogs == null {
        pendingLogs := node;
      } else {
        node.next := pendingLogs;
        pendingLogs := node;
      }
      nodes := [node] + rest;
      assert nodes[1..] == rest;
      assert forall i | 0 <= i < |rest| :: nodes[i + 1] == rest[i] != node && Behind(nodes, i + 1) == Behind(rest, i);
    }

    /** logpop, for a caller whose buffer is large enough: the message that waits longest. */
    method LogPop() returns (rc: int, msg: string)
      requires Valid()
      modifies this, nodes
      ensures Valid()
      ensures if old(Waiting()) == [] then rc == 1 && Waiting() == []
              else rc == 0 && old(Waiting()) == [msg] + Waiting()
      ensures nodes <= old(nodes)
    {
      if pendingLogs == null { return 1, ""; }
      var current, prev: Node? := pendingLogs, null;
      ghost var i := 0;
      while current.next != null
        invariant 0 <= i < |nodes| && current == nodes[i] && prev == if i == 0 then null else nodes[i - 1]
        decreases |nodes| - i
      {
        prev := current;
        current := current.next;
        i := i + 1;
      }
      assert nodes[i].next == null;
      rc, msg := 0, current.message;
      LastIsOldest(nodes);
      if prev != null {
        prev.next := null;
      } else {
        pendingLogs := null;
      }
      nodes := nodes[..i];
    }
  }

  // ----- Every interleaving of pushes and one writer -----

  datatype Event = Push(msg: string) | Pop | Write

  /** `flight` is the message that the writer has taken and not yet written. */
  datatype Log = Log(waiting: seq<string>, flight: seq<string>, written: seq<string>)

  predicate Enabled(s: Log, e: Event) {
    match e
    case Push(_) => true
    case Pop => s.flight == []
    case Write => s.flight != []
  }

  function Step(s: Log, e: Event): Log {
    match e
    case Push(m) => s.(waiting := s.waiting + [m])
    case Pop => if s.waiting == [] then s else s.(waiting := s.waiting[1..], flight := [s.waiting[0]])
    case Write => s.(flight := [], written := s.written + s.flight)
  }

  const NEW_LOG := Log([], [], [])

  predicate Run(s: Log, events: seq<Event>)
    decreases |events|
  {
    |events| == 0 || (Enabled(s, events[0]) && Run(Step(s, events[0]), events[1..]))
  }

  function End(s: Log, events: seq<Event>): Log
    decreases |events|
  {
    if |events| == 0 then s else End(Step(s, events[0]), events[1..])
  }

  function Pushed(events: seq<Event>): seq<string> {
    if events == [] then [] else (if events[0].Push? then [events[0].msg] else []) + Pushed(events[1..])
  }

  function All(s: Log): seq<string> { s.written + s.flight + s.waiting }

  /** What was written, is in flight and still waits is exactly what was pushed, in that order. */
  lemma {:induction false} FirstInFirstOut(s: Log, events: seq<Event>)
    requires Run(s, events)
    ensures All(End(s, events)) == All(s) + Pushed(events)
    decreases |events|
  {
    if events != [] {
      var t := Step(s, events[0]);
      FirstInFirstOut(t, events[1..]);
      if events[0].Pop? && s.waiting != [] {
        assert s.waiting == [s.waiting[0]] + s.waiting[1..];
      }
      assert All(t) == All(s) + if events[0].Push? then [events[0].msg] else [];
    }
  }

  /** The log file always holds a first part of what was pushed. */
  lemma WrittenIsPrefix(events: seq<Event>)
    requires Run(NEW_LOG, events)
    ensures End(NEW_LOG, events).written <= Pushed(events)
  {
    var s := NEW_LOG;
    FirstInFirstOut(s, events);
    assert All(s) + Pushed(events) == Pushed(events);
    assert All(End(s, events)) == End(s, events).written + (End(s, events).flight + End(s, events).waiting);
  }

  /** One event on the list itself: a worker's logpush, or the writer's logpop or write. */
  method Perform(q: Queue, e: Event, s: Log) returns (t: Log)
    requires q.Valid() && q.Waiting() == s.waiting && Enabled(s, e)
    modifies q, q.nodes
    ensures q.Valid() && q.Waiting() == t.waiting && t == Step(s, e)
    ensures fresh(set n | n in q.nodes && n !in old(q.nodes))
  {
    t := s;
    match e
    case Push(m) =>
      q.LogPush(m);
      t := s.(waiting := s.waiting + [m]);
    case Pop =>
      var rc, msg := q.LogPop();
      if rc == 0 {
        t := s.(waiting := s.waiting[1..], flight := [msg]);
      }
    case Write => t := s.(flight := [], written := s.written + s.flight);
  }

  /** Every interleaving of logpush by the workers and of logpop and writing by one writer, on a
      new list: the list and the log file hold what the run of events says. */
  method Schedule(events: seq<Event>) returns (q: Queue, s: Log)
    requires Run(NEW_LOG, events)
    ensures q.Valid() && q.Waiting() == s.waiting && s == End(NEW_LOG, events)
    ensures All(s) == Pushed(events)
  {
    q := new Queue();
    s := NEW_LOG;
    var i := 0;
    while i < |events|
      invariant 0 <= i <= |events| && q.Valid() && fresh(q) && fresh(set n | n in q.nodes)
      invariant q.Waiting() == s.waiting && Run(s, events[i..]) && End(s, events[i..]) == End(NEW_LOG, events)
    {
      assert events[i..][1..] == events[i + 1..];
      s := Perform(q, events[i], s);
      i := i + 1;
    }
    FirstInFirstOut(NEW_LOG, events);
    assert All(NEW_LOG) + Pushed(events) == Pushed(events);
  }
}
