/** Reading a request into a growing buffer, and the start of a response into a fixed one
    (threadPool.c, `serviceRequest`, `forwardRequest` and `getRevalidation`). */
module Receiving {
  import opened CStrings
  import opened Streams

  const BUFSIZE := 1024
  const RESPONSE_HEADER_SIZE := 8192

  /** read(fd, a + n, BUFSIZE), where `a` holds the `n` bytes received before and NULs. */
  method ReadInto(origin: Origin, a: array<char>, n: nat) returns (ok: bool, m: nat)
    requires n + BUFSIZE <= a.Length && a[..] == Pad(a[..n], a.Length) && Talks(origin.events)
    modifies origin, a
    ensures n <= m <= n + BUFSIZE && a[..] == Pad(a[..m], a.Length)
    ensures var e := old(origin.events);
            if e[0].Fails? then !ok && m == n && a[..m] == old(a[..n]) && origin.events == e
            else ok && a[..m] == old(a[..n]) + Taken(e[0].bytes, BUFSIZE)
                 && origin.events == Untaken(e[0].bytes, BUFSIZE, e[1..])
  {
    var r := origin.Read(BUFSIZE);
    ok, m := r.Got?, n;
    if ok {
      ghost var b := a[..];
      var bytes := r.bytes;
      m := n + |bytes|;
      forall i | n <= i < m {
        a[i] := bytes[i - n];
      }
      assert a[..n] == b[..n];
      assert a[..m] == a[..n] + bytes;
      assert forall i | m <= i < a.Length :: a[i] == b[i];
      assert a[..] == Pad(a[..m], a.Length);
    }
  }

  /** realloc to 2 * size + 1 bytes and zero what lies behind the `n` bytes received. */
  method Grow(a: array<char>, n: nat) returns (b: array<char>)
    requires 0 < n < a.Length && a[..] == Pad(a[..n], a.Length)
    ensures fresh(b) && b.Length == 2 * (a.Length - 1) + 1 && b[..n] == a[..n] && b[..] == Pad(a[..n], b.Length)
  {
    var s := a[..n];
    b := new char[2 * (a.Length - 1) + 1](i => if 0 <= i < |s| then s[i] else NUL);
    assert b[..n] == s;
  }

  /** The buffer holds the `n` bytes received, with room for one more read and a terminator. */
  ghost predicate Roomy(a: array<char>, n: nat)
    reads a
  {
    n + BUFSIZE < a.Length && a[..] == Pad(a[..n], a.Length)
  }

  /** The size of the buffer once these pieces have been read into it. */
  function Room(chunks: seq<string>): nat {
    if chunks == [] then RESPONSE_HEADER_SIZE + 1
    else
      var room := Room(chunks[..|chunks| - 1]);
      if |Flat(chunks)| + BUFSIZE > room - 1 then 2 * (room - 1) + 1 else room
  }

  lemma RoomAppend(chunks: seq<string>, c: string)
    ensures var room := Room(chunks);
            Room(chunks + [c]) == if |Flat(chunks)| + |c| + BUFSIZE > room - 1 then 2 * (room - 1) + 1 else room
  {
    FlatAppend(chunks, c);
    assert (chunks + [c])[..|chunks|] == chunks;
  }

  /** There is always room for one more read and a terminator, and doubling once makes it, so the
      buffer never gets more than twice what it needs. */
  lemma {:induction false} RoomIsEnough(chunks: seq<string>)
    requires Short(chunks, BUFSIZE)
    ensures |Flat(chunks)| + BUFSIZE < Room(chunks)
    ensures Room(chunks) == RESPONSE_HEADER_SIZE + 1
            || RESPONSE_HEADER_SIZE < Room(chunks) <= 2 * (|Flat(chunks)| + BUFSIZE)
    decreases |chunks|
  {
    if chunks != [] {
      RoomIsEnough(chunks[..|chunks| - 1]);
    }
  }

  /** One read of the request, and the buffer doubled when the next read might not fit. */
  method ReadMore(conn: Origin, a: array<char>, n: nat, ghost chunks: seq<string>)
    returns (ok: bool, b: array<char>, m: nat, ghost more: seq<string>)
    requires Roomy(a, n) && a[..n] == Flat(chunks) && a.Length == Room(chunks) && a.Length > RESPONSE_HEADER_SIZE
    requires Talks(conn.events)
    modifies conn, a
    ensures (fresh(b) || b == a) && m <= b.Length && b[..m] == Flat(more)
    ensures var e := old(conn.events);
            if e[0].Fails? then !ok && more == chunks
            else ok && more == chunks + [Taken(e[0].bytes, BUFSIZE)] && Roomy(b, m) && b.Length == Room(more)
                 && b.Length > RESPONSE_HEADER_SIZE && conn.events == Untaken(e[0].bytes, BUFSIZE, e[1..])
  {
    ghost var e := conn.events;
    ok, m := ReadInto(conn, a, n);
    b, more := a, chunks;
    if ok {
      RoomAppend(chunks, Taken(e[0].bytes, BUFSIZE));
      FlatAppend(chunks, Taken(e[0].bytes, BUFSIZE));
      more := chunks + [Taken(e[0].bytes, BUFSIZE)];
      if m + BUFSIZE > a.Length - 1 {
        b := Grow(a, m);
      }
    }
  }

  /** How often a client is asked in vain. */
  const GRACE := 10

  /** A buffer with the pieces of a request read so far. */
  ghost predicate Gathered(a: array<char>, n: nat, chunks: seq<string>)
    reads a
  {
    Roomy(a, n) && a[..n] == Flat(chunks) && a.Length == Room(chunks) > RESPONSE_HEADER_SIZE
  }

  /** One poll of a client, and one read if it has sent more. */
  method Poll(conn: Origin, a: array<char>, n: nat, grace: nat, ghost chunks: seq<string>, ghost all: seq<string>,
              ghost breaks: bool)
    returns (closed: bool, ok: bool, b: array<char>, m: nat, left: nat, ghost more: seq<string>)
    requires grace > 0 && Gathered(a, n, chunks) && Reading(chunks, conn.events, BUFSIZE, grace, all, breaks)
    modifies conn, a
    ensures (fresh(b) || b == a) && m <= b.Length && b[..m] == Flat(more) && left <= grace
    ensures if ok then Gathered(b, m, more) && Reading(more, conn.events, BUFSIZE, left, all, breaks)
            else more == all && breaks
    ensures closed ==> ok && more == all && !breaks
    ensures ok && !closed ==> |conn.Rest()| < |old(conn.Rest())| || (conn.Rest() == old(conn.Rest()) && left < grace)
  {
    ghost var e := conn.events;
    var testRead := conn.Peek();
    closed, ok, b, m, left, more := testRead == 0, true, a, n, grace, chunks;
    if testRead < 0 {
      left := grace - 1;
    } else if testRead > 0 {
      ok, b, m, more := ReadMore(conn, a, n, chunks);
    }
    if e != [] && e[0].Data? {
      ReadingMore(chunks, e, BUFSIZE, grace, all, breaks);
    } else if closed || !ok {
      ReadingEnds(chunks, e, BUFSIZE, grace, all, breaks);
    }
  }

  /** Reads the request until the client has closed the connection or has been found silent ten
      times. Every byte that arrives is kept, in order, with NULs behind. */
  method ReadRequest(conn: Origin) returns (ok: bool, a: array<char>, n: nat)
    modifies conn
    ensures fresh(a) && n <= a.Length && a[..n] == Heard(old(conn.events), GRACE)
    ensures ok <==> !Breaks(old(conn.events), GRACE)
    ensures ok ==> Roomy(a, n) && a.Length == Room(Reads(old(conn.events), BUFSIZE, GRACE))
  {
    ghost var all, breaks := Reads(conn.events, BUFSIZE, GRACE), Breaks(conn.events, GRACE);
    ReadsAreHeard(conn.events, BUFSIZE, GRACE);
    a := new char[RESPONSE_HEADER_SIZE + 1](i => NUL);
    n := 0;
    var grace: nat := GRACE;
    var closed := false;
    ghost var chunks: seq<string> := [];
    while grace > 0 && !closed
      invariant fresh(a) && Gathered(a, n, chunks) && Reading(chunks, conn.events, BUFSIZE, grace, all, breaks)
      invariant closed ==> chunks == all && !breaks
      decreases !closed, |conn.Rest()|, grace
    {
      closed, ok, a, n, grace, chunks := Poll(conn, a, n, grace, chunks, all, breaks);
      if !ok { return; }
    }
    if !closed { ReadingEnds(chunks, conn.events, BUFSIZE, grace, all, breaks); }
    ok := true;
  }

  /** How much of a response is read before it is looked at. */
  const ENOUGH := RESPONSE_HEADER_SIZE - BUFSIZE

  /** The start of a response, as far as it comes in time. */
  function StartOf(events: seq<Event>, patience: nat): Beginning {
    Begin("", events, BUFSIZE, ENOUGH, patience)
  }

  /** Reads the start of a response, at most 8191 bytes, into a buffer of NULs. */
  method ReadStart(origin: Origin, a: array<char>, patience: nat) returns (ok: bool, n: nat)
    requires a.Length >= RESPONSE_HEADER_SIZE && a[..] == Pad("", a.Length)
    modifies origin, a
    ensures n < RESPONSE_HEADER_SIZE && a[..] == Pad(a[..n], a.Length)
    ensures StartOf(old(origin.events), patience) == Beginning(a[..n], origin.events, ok)
  {
    n := 0;
    var grace := patience;
    assert a[..0] == "";
    while grace > 0 && n < RESPONSE_HEADER_SIZE - BUFSIZE
      invariant n < RESPONSE_HEADER_SIZE && a[..] == Pad(a[..n], a.Length) && 0 <= grace <= patience
      invariant Begin(a[..n], origin.events, BUFSIZE, ENOUGH, grace) == StartOf(old(origin.events), patience)
      decreases |origin.Rest()|, grace
    {
      var testRead := origin.Peek();
      if testRead == 0 { break; }
      if testRead < 0 {
        grace := grace - 1;
      } else {
        ok, n := ReadInto(origin, a, n);
        if !ok { return; }
      }
    }
    ok := true;
  }
}
