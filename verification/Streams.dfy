/** The two ends of a forwarded request, as far as the proxy sees them: bytes that arrive in
    pieces, and writes that take some of the bytes offered or fail. */
module Streams {

  type Bytes = s: string | s != "" witness "x"

  /** What happens next on a socket that is read: bytes arrive, a poll finds nothing yet, or a
      read fails. When nothing is left to happen the peer has closed the connection. */
  datatype Event = Data(bytes: Bytes) | NotReady | Fails

  datatype ReadResult = Got(bytes: Bytes) | Closed | ReadError

  /** The bytes that can still be read. */
  function Stream(events: seq<Event>): string {
    if events == [] || events[0].Fails? then ""
    else if events[0].NotReady? then Stream(events[1..])
    else events[0].bytes + Stream(events[1..])
  }

  /** What one read of at most `max` bytes takes of a piece of data, and what it leaves. */
  function Taken(b: Bytes, max: nat): (c: Bytes)
    requires max > 0
    ensures |c| <= max && c <= b
  {
    if |b| <= max then b else b[..max]
  }

  function Untaken(b: Bytes, max: nat, later: seq<Event>): (events: seq<Event>)
    requires max > 0
    ensures Taken(b, max) + Stream(events) == b + Stream(later)
  {
    if |b| <= max then later
    else
      assert b == b[..max] + b[max..];
      var events := [Data(b[max..])] + later;
      assert events[1..] == later;
      events
  }

  /** What is left when a blocking read has waited for something to happen. */
  function Ready(events: seq<Event>): (r: seq<Event>)
    ensures Stream(r) == Stream(events) && |r| <= |events| && (r != [] ==> !r[0].NotReady?)
    ensures events != [] && !events[0].NotReady? ==> r == events
  {
    if events != [] && events[0].NotReady? then Ready(events[1..]) else events
  }

  predicate Talks(events: seq<Event>) {
    events != [] && !events[0].NotReady?
  }

  // ----- Polling -----

  /** All that comes before the `patience`-th poll in vain, the close or a failing read. */
  function Heard(events: seq<Event>, patience: nat): string {
    if patience == 0 || events == [] || events[0].Fails? then ""
    else if events[0].NotReady? then Heard(events[1..], patience - 1)
    else events[0].bytes + Heard(events[1..], patience)
  }

  /** A read fails before `patience` polls were in vain. */
  predicate Breaks(events: seq<Event>, patience: nat) {
    && patience > 0 && events != []
    && (events[0].Fails? || Breaks(events[1..], if events[0].NotReady? then patience - 1 else patience))
  }

  /** The pieces in which reads of at most `max` bytes take a piece of data. */
  function Pieces(b: Bytes, max: nat): seq<string>
    requires max > 0
    decreases |b|
  {
    if |b| <= max then [b] else [b[..max]] + Pieces(b[max..], max)
  }

  /** The pieces in which a reader gets all that comes in time. */
  function Reads(events: seq<Event>, max: nat, patience: nat): seq<string>
    requires max > 0
  {
    if patience == 0 || events == [] || events[0].Fails? then []
    else if events[0].NotReady? then Reads(events[1..], max, patience - 1)
    else Pieces(events[0].bytes, max) + Reads(events[1..], max, patience)
  }

  /** The start of a stream: what was read, what is left behind it, and whether no read failed. */
  datatype Beginning = Beginning(text: string, later: seq<Event>, ok: bool)

  /** A reader with `t` already read that stops when it has at least `enough` bytes. */
  function Begin(t: string, events: seq<Event>, max: nat, enough: nat, patience: nat): Beginning
    requires max > 0
    decreases |Stream(events)|, |events|
  {
    if patience == 0 || |t| >= enough || events == [] then Beginning(t, events, true)
    else
      match events[0]
      case Fails => Beginning(t, events, false)
      case NotReady => Begin(t, events[1..], max, enough, patience - 1)
      case Data(b) => Begin(t + Taken(b, max), Untaken(b, max, events[1..]), max, enough, patience)
  }

  class Origin {
    var events: seq<Event>

    ghost function Rest(): string
      reads this
    {
      Stream(events)
    }

    /** recv(.., 1, MSG_PEEK | MSG_DONTWAIT): 1, 0 when closed, -1 when there is nothing yet. */
    method Peek() returns (n: int)
      modifies this
      ensures n == 0 <==> old(events) == []
      ensures n < 0 <==> old(events) != [] && old(events)[0].NotReady?
      ensures events == if n < 0 then old(events)[1..] else old(events)
    {
      if events == [] { return 0; }
      if events[0].NotReady? {
        events := events[1..];
        return -1;
      }
      n := 1;
    }

    /** read(fd, buf, max): blocks until something happens, and yields at most `max` bytes. */
    method Read(max: nat) returns (r: ReadResult)
      requires max > 0
      modifies this
      ensures var e := Ready(old(events));
              if e == [] then r == Closed && events == []
              else if e[0].Fails? then r == ReadError && events == e
              else r == Got(Taken(e[0].bytes, max)) && events == Untaken(e[0].bytes, max, e[1..])
    {
      while events != [] && events[0].NotReady?
        invariant Ready(events) == Ready(old(events))
        decreases |events|
      {
        events := events[1..];
      }
      if events == [] { return Closed; }
      if events[0].Fails? { return ReadError; }
      var b := events[0].bytes;
      r := Got(Taken(b, max));
      events := Untaken(b, max, events[1..]);
    }
  }

  /** How many of the first `n` writes fail. */
  function Refusals(plan: seq<nat>, n: nat): nat {
    if n == 0 then 0 else Refusals(plan, n - 1) + if n <= |plan| && plan[n - 1] == 0 then 1 else 0
  }

  class Client {
    /** Everything that has been written to the socket so far. */
    var sent: string
    /** How the writes turn out: 0 fails, `n` takes at most `n` bytes; then all is taken. */
    const plan: seq<nat>
    var writes: nat

    /** How many writes have failed. */
    function Failures(): nat
      reads this
    {
      Refusals(plan, writes)
    }

    /** write(fd, b, |b|) */
    method Write(b: string) returns (n: int)
      requires b != ""
      modifies this
      ensures n == -1 || 1 <= n <= |b|
      ensures sent == old(sent) + if n == -1 then "" else b[..n]
      ensures Failures() == old(Failures()) + if n == -1 then 1 else 0
    {
      n := |b|;
      if writes < |plan| {
        n := if plan[writes] == 0 then -1 else if plan[writes] < |b| then plan[writes] else |b|;
      }
      writes := writes + 1;
      if n > 0 {
        sent := sent + b[..n];
      }
    }
  }

  lemma {:induction false} NothingRefused(plan: seq<nat>, n: nat)
    requires 0 !in plan
    ensures Refusals(plan, n) == 0
  {
    if n > 0 {
      NothingRefused(plan, n - 1);
    }
  }

  /** A client whose writes are planned to succeed never has a failed write. */
  lemma NeverFails(client: Client)
    requires 0 !in client.plan
    ensures client.Failures() == 0
  {
    NothingRefused(client.plan, client.writes);
  }

  /** Writes `len` bytes of `buf`, or fails after some of them. `total` of them were taken. */
  method WriteAll(client: Client, buf: array<char>, len: nat) returns (ok: bool, ghost total: nat)
    requires len <= buf.Length
    modifies client
    ensures total <= len && client.sent == old(client.sent) + buf[..total]
    ensures ok <==> total == len
    ensures client.Failures() == old(client.Failures()) + if ok then 0 else 1
  {
    var done := 0;
    while done < len
      invariant done <= len
      invariant client.sent == old(client.sent) + buf[..done] && client.Failures() == old(client.Failures())
      decreases len - done
    {
      var n := client.Write(buf[done..len]);
      if n == -1 {
        return false, done;
      }
      assert buf[done..len][..n] == buf[done..done + n];
      assert buf[..done] + buf[done..done + n] == buf[..done + n];
      done := done + n;
    }
    return true, done;
  }

  /** What can be seen of a client, of the way to an origin and of what comes from there. */
  datatype World = World(sent: string, failures: nat, asked: string, refusals: nat, events: seq<Event>)

  ghost function See(client: Client, server: Client, origin: Origin): World
    reads client, server, origin
  {
    World(client.sent, client.Failures(), server.sent, server.Failures(), origin.events)
  }

  /** The chunks put together. */
  function Flat(chunks: seq<string>): string {
    if chunks == [] then "" else Flat(chunks[..|chunks| - 1]) + chunks[|chunks| - 1]
  }

  lemma FlatAppend(chunks: seq<string>, c: string)
    ensures Flat(chunks + [c]) == Flat(chunks) + c
  {
    assert (chunks + [c])[..|chunks|] == chunks;
  }

  lemma {:induction false} FlatConcat(front: seq<string>, chunks: seq<string>)
    ensures Flat(front + chunks) == Flat(front) + Flat(chunks)
    decreases |chunks|
  {
    if chunks == [] {
      assert front + chunks == front;
    } else {
      var most, last := chunks[..|chunks| - 1], chunks[|chunks| - 1];
      FlatConcat(front, most);
      FlatAppend(front + most, last);
      FlatAppend(most, last);
      assert front + chunks == front + most + [last] && most + [last] == chunks;
    }
  }

  // ----- What polling hears -----

  lemma HeardBehind(b: Bytes, max: nat, later: seq<Event>, patience: nat)
    requires max > 0 && patience > 0
    ensures Taken(b, max) + Heard(Untaken(b, max, later), patience) == b + Heard(later, patience)
    ensures Breaks(Untaken(b, max, later), patience) == Breaks(later, patience)
  {
    if |b| > max {
      assert ([Data(b[max..])] + later)[1..] == later;
      assert b[..max] + (b[max..] + Heard(later, patience)) == b + Heard(later, patience);
    }
  }

  /** The first piece. */
  lemma FirstPiece(events: seq<Event>, max: nat, patience: nat)
    requires max > 0 && patience > 0 && Talks(events) && events[0].Data?
    ensures var c, after := Taken(events[0].bytes, max), Untaken(events[0].bytes, max, events[1..]);
            && Reads(events, max, patience) == [c] + Reads(after, max, patience)
            && Heard(events, patience) == c + Heard(after, patience)
            && Breaks(events, patience) == Breaks(after, patience) && |Stream(after)| < |Stream(events)|
  {
    HeardBehind(events[0].bytes, max, events[1..], patience);
    ReadsBehind(events[0].bytes, max, events[1..], patience);
  }

  lemma ReadsBehind(b: Bytes, max: nat, later: seq<Event>, patience: nat)
    requires max > 0 && patience > 0
    ensures Pieces(b, max) + Reads(later, max, patience)
            == [Taken(b, max)] + Reads(Untaken(b, max, later), max, patience)
  {
    if |b| > max {
      ReadsOfMore(b[max..], max, later, patience);
      Regroup([b[..max]], Pieces(b[max..], max), Reads(later, max, patience));
    }
  }

  lemma ReadsOfMore(b: Bytes, max: nat, later: seq<Event>, patience: nat)
    requires max > 0 && patience > 0
    ensures Reads([Data(b)] + later, max, patience) == Pieces(b, max) + Reads(later, max, patience)
  {
    assert ([Data(b)] + later)[1..] == later;
  }

  lemma Regroup(a: seq<string>, b: seq<string>, c: seq<string>)
    ensures a + b + c == a + (b + c)
  {
  }

  lemma Shift(chunks: seq<string>, c: string, rest: seq<string>)
    ensures chunks + [c] + rest == chunks + ([c] + rest) && chunks + [c] <= chunks + ([c] + rest)
  {
  }

  /** A reader has `chunks`, and what is still to come in time makes `all` of it. */
  predicate Reading(chunks: seq<string>, events: seq<Event>, max: nat, patience: nat, all: seq<string>, breaks: bool)
    requires max > 0
  {
    chunks + Reads(events, max, patience) == all && Breaks(events, patience) == breaks
  }

  lemma ReadingMore(chunks: seq<string>, events: seq<Event>, max: nat, patience: nat, all: seq<string>, breaks: bool)
    requires max > 0 && patience > 0 && Talks(events) && events[0].Data?
    requires Reading(chunks, events, max, patience, all, breaks)
    ensures var c, after := Taken(events[0].bytes, max), Untaken(events[0].bytes, max, events[1..]);
            && Reading(chunks + [c], after, max, patience, all, breaks)
            && chunks + [c] <= all && |Stream(after)| < |Stream(events)|
  {
    FirstPiece(events, max, patience);
    Shift(chunks, Taken(events[0].bytes, max), Reads(Untaken(events[0].bytes, max, events[1..]), max, patience));
  }

  lemma ReadingEnds(chunks: seq<string>, events: seq<Event>, max: nat, patience: nat, all: seq<string>, breaks: bool)
    requires max > 0 && Reading(chunks, events, max, patience, all, breaks)
    requires patience == 0 || events == [] || events[0].Fails?
    ensures chunks == all && breaks == (patience > 0 && events != [])
  {
    assert chunks + [] == chunks;
  }

  predicate Short(chunks: seq<string>, max: nat) {
    forall c | c in chunks :: 0 < |c| <= max
  }

  lemma {:induction false} PiecesAreAll(b: Bytes, max: nat)
    requires max > 0
    ensures Flat(Pieces(b, max)) == b && Short(Pieces(b, max), max)
    decreases |b|
  {
    if |b| > max {
      PiecesAreAll(b[max..], max);
      Prepended(b[..max], Pieces(b[max..], max), max);
      assert b[..max] + b[max..] == b;
    } else {
      Prepended(b, [], max);
      var c: string := b;
      assert [c] + [] == [c];
    }
  }

  lemma Prepended(c: string, chunks: seq<string>, max: nat)
    requires 0 < |c| <= max && Short(chunks, max)
    ensures Short([c] + chunks, max) && Flat([c] + chunks) == c + Flat(chunks)
  {
    FlatAppend([], c);
    assert [] + [c] == [c];
    FlatConcat([c], chunks);
  }

  /** Whatever the size of a read, the pieces put together are all that comes in time. */
  lemma {:induction false} ReadsAreHeard(events: seq<Event>, max: nat, patience: nat)
    requires max > 0
    ensures Flat(Reads(events, max, patience)) == Heard(events, patience)
  {
    if patience > 0 && events != [] && !events[0].Fails? {
      if events[0].NotReady? {
        ReadsAreHeard(events[1..], max, patience - 1);
      } else {
        ReadsAreHeard(events[1..], max, patience);
        PiecesAreAll(events[0].bytes, max);
        FlatConcat(Pieces(events[0].bytes, max), Reads(events[1..], max, patience));
      }
    }
  }

  lemma {:induction false} ReadsAreShort(events: seq<Event>, max: nat, patience: nat)
    requires max > 0
    ensures Short(Reads(events, max, patience), max)
  {
    if patience > 0 && events != [] && !events[0].Fails? {
      if events[0].NotReady? {
        ReadsAreShort(events[1..], max, patience - 1);
      } else {
        ReadsAreShort(events[1..], max, patience);
        PiecesAreAll(events[0].bytes, max);
      }
    }
  }

  /** Nothing is heard that is not in the stream. */
  lemma {:induction false} HeardIsSent(events: seq<Event>, patience: nat)
    ensures Heard(events, patience) <= Stream(events)
    decreases events
  {
    if patience > 0 && events != [] && !events[0].Fails? {
      HeardIsSent(events[1..], if events[0].NotReady? then patience - 1 else patience);
    }
  }

  /** The start of a stream is what comes in time, cut off only when enough has come. */
  ghost predicate Starts(b: Beginning, t: string, heard: string, stream: string, breaks: bool, max: nat, enough: nat) {
    && t <= b.text <= t + heard && b.text + Stream(b.later) == t + stream
    && (|b.text| < enough ==> b.text == t + heard && (b.ok <==> !breaks))
    && (|b.text| >= enough ==> b.ok) && if |t| < enough then |b.text| < enough + max else b.text == t
  }

  lemma StartsBehind(b: Beginning, t: string, c: string, heard: string, stream: string, breaks: bool, max: nat,
                     enough: nat)
    requires Starts(b, t + c, heard, stream, breaks, max, enough) && |t| < enough && |c| <= max
    ensures Starts(b, t, c + heard, c + stream, breaks, max, enough)
  {
    assert t + c + heard == t + (c + heard) && t + c + stream == t + (c + stream);
    assert t <= t + c;
  }

  lemma {:induction false} BeginStarts(t: string, events: seq<Event>, max: nat, enough: nat, patience: nat)
    requires max > 0
    ensures var b := Begin(t, events, max, enough, patience);
            Starts(b, t, Heard(events, patience), Stream(events), Breaks(events, patience), max, enough)
    decreases |Stream(events)|, |events|
  {
    if patience > 0 && |t| < enough && events != [] && !events[0].Fails? {
      if events[0].NotReady? {
        BeginStarts(t, events[1..], max, enough, patience - 1);
      } else {
        var c, after := Taken(events[0].bytes, max), Untaken(events[0].bytes, max, events[1..]);
        BeginStarts(t + c, after, max, enough, patience);
        HeardBehind(events[0].bytes, max, events[1..], patience);
        var b := Begin(t + c, after, max, enough, patience);
        StartsBehind(b, t, c, Heard(after, patience), Stream(after), Breaks(after, patience), max, enough);
      }
    }
  }

  /** A pause of `n` empty polls. */
  function Silence(n: nat): seq<Event> {
    if n == 0 then [] else [NotReady] + Silence(n - 1)
  }

  lemma SilenceBehind(n: nat, later: seq<Event>)
    requires n > 0
    ensures (Silence(n) + later)[1..] == Silence(n - 1) + later && (Silence(n) + later)[0] == NotReady
  {
  }

  /** What comes behind a pause is heard exactly if the pause is shorter than the patience. */
  lemma {:induction false} HeardBehindPause(n: nat, b: Bytes, patience: nat)
    ensures Heard(Silence(n) + [Data(b)], patience) == if n < patience then b else ""
    ensures !Breaks(Silence(n) + [Data(b)], patience)
  {
    var events := Silence(n) + [Data(b)];
    if n == 0 {
      assert events == [Data(b)] && events[1..] == [];
      assert b + "" == b;
    } else if patience > 0 {
      SilenceBehind(n, [Data(b)]);
      HeardBehindPause(n - 1, b, patience - 1);
    }
  }
}
