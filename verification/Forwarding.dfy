/** Relaying the rest of a response while a copy of it grows for the cache: `bufferedForward`
    and `transferChunks` (threadPool.c). */
module Forwarding {
  import opened CStrings
  import opened Holes
  import opened Streams
  import opened Receiving

  /** What strcat copies of a chunk from a buffer that takes chunks of up to `max` bytes: up to
      the first NUL, and when the chunk fills its place, the string `tail` behind that too. */
  ghost function Piece(c: string, max: nat, tail: string): string {
    if |c| == max && NulFree(c) then c + tail else TextOf(c)
  }

  ghost function Stored(chunks: seq<string>, max: nat, tail: string): string {
    if chunks == [] then "" else Stored(chunks[..|chunks| - 1], max, tail) + Piece(chunks[|chunks| - 1], max, tail)
  }

  // ----- One chunk -----

  /** The first `max` places hold NULs and behind them stands the string `tail`. */
  ghost predicate Cleared(b: string, max: nat, tail: string) {
    max < |b| && (forall i | 0 <= i < max :: b[i] == NUL) && Begins(b[max..], tail)
  }

  /** The place is taken by the chunk `c`. */
  ghost predicate Filled(b: string, c: string, max: nat, tail: string) {
    && |c| <= max < |b| && b[..|c|] == c && (forall i | |c| <= i < max :: b[i] == NUL) && Begins(b[max..], tail)
  }

  lemma PieceBegins(b: string, c: string, max: nat, tail: string)
    requires Filled(b, c, max, tail)
    ensures Begins(b, Piece(c, max, tail))
  {
    assert forall i | 0 <= i < |c| :: b[i] == b[..|c|][i];
    var u := b[max..];
    BeginsAt(u, tail);
    assert forall i | max <= i <= max + |tail| :: b[i] == u[i - max];
    var s := Piece(c, max, tail);
    assert forall i | 0 <= i < |s| :: b[i] == s[i];
  }

  /** Reads one chunk and passes it on. `lost` is what a failing write got rid of. */
  method Relay(client: Client, origin: Origin, buf: array<char>, max: nat, ghost tail: string)
    returns (r: ReadResult, ok: bool, ghost n: nat, ghost c: string)
    requires 0 < max && Cleared(buf[..], max, tail)
    modifies client, origin, buf
    ensures r.Got? ==> c == r.bytes && old(origin.Rest()) == c + origin.Rest() && |origin.Rest()| < |old(origin.Rest())|
    ensures !r.Got? ==> c == "" && !ok
    ensures n <= |c| <= max && client.sent == old(client.sent) + c[..n] && (ok ==> n == |c| && n > 0)
    ensures Filled(buf[..], c, max, tail)
    ensures client.Failures() == old(client.Failures()) + if r.Got? && !ok then 1 else 0
    ensures !r.Got? ==> old(origin.Rest()) == ""
    ensures var e := old(origin.events);
            Talks(e) ==>
              if e[0].Fails? then !r.Got?
              else r == Got(Taken(e[0].bytes, max)) && origin.events == Untaken(e[0].bytes, max, e[1..])
  {
    ghost var b := buf[..];
    r := origin.Read(max);
    ok, n, c := false, 0, "";
    if r.Got? {
      var bytes := r.bytes;
      c := bytes;
      forall i | 0 <= i < |bytes| {
        buf[i] := bytes[i];
      }
      assert buf[..|c|] == c;
      assert buf[max..] == b[max..];
      ok, n := WriteAll(client, buf, |bytes|);
      assert buf[..n] == c[..n];
    }
  }

  /** memset(buf, '\0', max) */
  method Clear(buf: array<char>, max: nat, ghost c: string, ghost tail: string)
    requires Filled(buf[..], c, max, tail)
    modifies buf
    ensures Cleared(buf[..], max, tail)
  {
    ghost var b := buf[..];
    forall i | 0 <= i < max {
      buf[i] := NUL;
    }
    assert buf[max..] == b[max..];
  }

  /** strcat(dst, src) */
  method StrCat(dst: array<char>, src: array<char>, ghost t: string, ghost s: string)
    requires dst != src && Holds(dst[..], t) && Begins(src[..], s) && |t| + |s| < dst.Length
    modifies dst
    ensures Holds(dst[..], t + s)
  {
    HoldsAt(dst[..], t);
    BeginsAt(src[..], s);
    assert dst[|t|] == NUL;
    var n := StrLen(dst, 0);
    assert n == |t|;
    var i := 0;
    while src[i] != NUL
      invariant i <= |s| && Holds(dst[..], t + s[..i])
      decreases |s| - i
    {
      HoldsAppend(dst[..], t + s[..i], src[i]);
      assert t + s[..i] + [s[i]] == t + s[..i + 1];
      dst[n + i] := src[i];
      i := i + 1;
    }
    assert s[..i] == s;
  }

  // ----- bufferedForward -----

  /** The cache buffer: a text of at most `size` characters within the capacity. It starts with
      `RESPONSE_HEADER_SIZE` and never gets more than twice the size. */
  ghost predicate Accounted(cache: array<char>, text: string, size: nat)
    reads cache
  {
    && Holds(cache[..], text) && |text| <= size < cache.Length
    && (cache.Length == RESPONSE_HEADER_SIZE + 1 || RESPONSE_HEADER_SIZE < cache.Length <= 2 * size)
  }

  /** Adds a chunk of `w` characters, doubling the capacity once if it does not fit. */
  method AppendCache(cache: array<char>, size: nat, buf: array<char>, w: nat, ghost text: string, ghost s: string)
    returns (out: array<char>)
    requires cache != buf && Accounted(cache, text, size) && Begins(buf[..], s) && |s| <= w <= RESPONSE_HEADER_SIZE
    modifies cache
    ensures out == cache || fresh(out)
    ensures Accounted(out, text + s, size + w)
  {
    out := cache;
    var cap := cache.Length - 1;
    if w > cap - size {
      HoldsAt(cache[..], text);
      var was := cache[..];
      out := new char[2 * cap + 1](i => if 0 <= i < |was| then was[i] else NUL);
      assert out[..] == Pad(text, out.Length);
    }
    StrCat(out, buf, text, s);
  }

  /** How far the relay has come: the chunks in `chunks` were passed on whole, and then `lost`
      was written of a chunk whose write failed. */
  ghost predicate Relayed(chunks: seq<string>, lost: string, before: string, sent: string, start: string) {
    && sent == before + Flat(chunks) + lost && Flat(chunks) + lost <= start
    && forall c | c in chunks :: c != ""
  }

  ghost predicate Flowing(chunks: seq<string>, before: string, sent: string, start: string, rest: string) {
    sent == before + Flat(chunks) && Flat(chunks) + rest == start && forall c | c in chunks :: c != ""
  }

  lemma PassedOn(chunks: seq<string>, c: string, before: string, sent: string, start: string, rest: string)
    requires Flowing(chunks, before, sent, start, c + rest) && c != ""
    ensures Flowing(chunks + [c], before, sent + c, start, rest)
  {
    FlatAppend(chunks, c);
    assert before + Flat(chunks) + c == before + Flat(chunks + [c]);
    assert Flat(chunks) + (c + rest) == Flat(chunks + [c]) + rest;
  }

  lemma Lost(chunks: seq<string>, c: string, n: nat, before: string, sent: string, start: string, rest: string)
    requires Flowing(chunks, before, sent, start, c + rest) && n <= |c|
    ensures Relayed(chunks, c[..n], before, sent + c[..n], start)
  {
    assert Flat(chunks) + (c + rest) == Flat(chunks) + c[..n] + (c[n..] + rest);
  }

  /** One round: a chunk passed on whole and, if wanted, added to the copy, or the end. */
  method Round(client: Client, origin: Origin, buf: array<char>, cache0: array<char>, size: nat, canCache: bool,
               ghost text: string)
    returns (done: bool, w: nat, cache: array<char>, ghost n: nat, ghost c: string, ghost rest: string)
    requires cache0 != buf && Cleared(buf[..], RESPONSE_HEADER_SIZE, "") && (canCache ==> Accounted(cache0, text, size))
    modifies client, origin, buf, cache0
    ensures Cleared(buf[..], RESPONSE_HEADER_SIZE, "") && (cache == cache0 || fresh(cache))
    ensures old(origin.Rest()) == c + rest && n <= |c| && client.sent == old(client.sent) + c[..n]
    ensures !done ==>
              n == |c| == w && 0 < w <= RESPONSE_HEADER_SIZE && rest == origin.Rest() && |rest| < |old(origin.Rest())|
    ensures client.Failures() == old(client.Failures()) || (done && client.Failures() > old(client.Failures()))
    ensures done && client.Failures() == old(client.Failures()) ==> old(origin.Rest()) == ""
    ensures done || !canCache ==> cache == cache0 && cache[..] == old(cache0[..])
    ensures !done && canCache ==> Accounted(cache, text + Piece(c, RESPONSE_HEADER_SIZE, ""), size + w)
  {
    var r, ok;
    r, ok, n, c := Relay(client, origin, buf, RESPONSE_HEADER_SIZE, "");
    rest := if r.Got? then origin.Rest() else old(origin.Rest());
    done, w, cache := !ok, 0, cache0;
    if ok {
      w := |r.bytes|;
      PieceBegins(buf[..], c, RESPONSE_HEADER_SIZE, "");
      if canCache {
        cache := AppendCache(cache, size, buf, w, text, Piece(c, RESPONSE_HEADER_SIZE, ""));
      }
    }
    Clear(buf, RESPONSE_HEADER_SIZE, c, "");
  }

  ghost predicate Copied(canCache: bool, cache: array<char>, initial: string, chunks: seq<string>, size: nat,
                         first: array<char>, was: string)
    reads cache
  {
    if canCache then Accounted(cache, initial + Stored(chunks, RESPONSE_HEADER_SIZE, ""), size)
    else cache == first && cache[..] == was
  }

  /** Relays at least `bodySize` bytes unless the origin fails or closes early or the client
      cannot be written to. The copy for the cache gets every chunk that was passed on whole. */
  method BufferedForward(client: Client, origin: Origin, buf: array<char>, cacheBuff: array<char>, bodySize: int,
                         canCache: bool, ghost initial: string)
    returns (total: nat, cache: array<char>, ghost chunks: seq<string>, ghost lost: string)
    requires buf != cacheBuff && Cleared(buf[..], RESPONSE_HEADER_SIZE, "")
    requires cacheBuff.Length == RESPONSE_HEADER_SIZE + 1 && Holds(cacheBuff[..], initial)
    modifies client, origin, buf, cacheBuff
    ensures cache == cacheBuff || fresh(cache)
    ensures Relayed(chunks, lost, old(client.sent), client.sent, old(origin.Rest())) && total == |Flat(chunks)|
    ensures bodySize > 0 ==> total < bodySize + RESPONSE_HEADER_SIZE
    ensures total >= bodySize ==> lost == ""
    ensures client.Failures() >= old(client.Failures())
    ensures client.Failures() == old(client.Failures()) ==>
              lost == "" && (total >= bodySize || Flat(chunks) == old(origin.Rest()))
    ensures Copied(canCache, cache, initial, chunks, |initial| + total, cacheBuff, old(cacheBuff[..]))
  {
    total, cache, chunks, lost := 0, cacheBuff, [], "";
    var size := TextLength(cacheBuff, initial);
    var done := false;
    ghost var start, before, was := origin.Rest(), client.sent, cacheBuff[..];
    assert initial + Stored([], RESPONSE_HEADER_SIZE, "") == initial;
    while total < bodySize && !done
      invariant Cleared(buf[..], RESPONSE_HEADER_SIZE, "") && cache != buf && (cache == cacheBuff || fresh(cache))
      invariant total == |Flat(chunks)| && size == |initial| + total
      invariant !done ==> lost == "" && Flowing(chunks, before, client.sent, start, origin.Rest())
      invariant done ==> total < bodySize && Relayed(chunks, lost, before, client.sent, start)
      invariant client.Failures() == old(client.Failures()) || (done && client.Failures() > old(client.Failures()))
      invariant done && client.Failures() == old(client.Failures()) ==> lost == "" && Flat(chunks) == start
      invariant bodySize > 0 ==> total < bodySize + RESPONSE_HEADER_SIZE
      invariant Copied(canCache, cache, initial, chunks, size, cacheBuff, was)
      decreases if done then 0 else 1, |origin.Rest()|
    {
      ghost var n, c, rest, sent := 0, "", "", client.sent;
      var w;
      ghost var text := initial + Stored(chunks, RESPONSE_HEADER_SIZE, "");
      done, w, cache, n, c, rest := Round(client, origin, buf, cache, size, canCache, text);
      if done {
        Lost(chunks, c, n, before, sent, start, rest);
        lost := c[..n];
      } else {
        PassedOn(chunks, c, before, sent, start, rest);
        StoredAppend(chunks, c, RESPONSE_HEADER_SIZE, "", initial);
        FlatAppend(chunks, c);
        chunks := chunks + [c];
        total, size := total + w, size + w;
      }
    }
  }

  method TextLength(a: array<char>, ghost t: string) returns (n: nat)
    requires Holds(a[..], t)
    ensures n == |t|
  {
    HoldsAt(a[..], t);
    assert a[|t|] == NUL;
    n := StrLen(a, 0);
  }

  lemma StoredAppend(chunks: seq<string>, c: string, max: nat, tail: string, initial: string)
    ensures initial + Stored(chunks + [c], max, tail) == initial + Stored(chunks, max, tail) + Piece(c, max, tail)
  {
    assert (chunks + [c])[..|chunks|] == chunks;
  }

  // ----- transferChunks -----

  datatype Transfer =
    | Overrun               // strcat writes behind the end of the cache buffer
    | Aborted               // -1: the origin or the client failed, and nothing is cached
    | Done(total: nat)

  /** The copy does not fit the fixed capacity. */
  ghost predicate TooLong(initial: string, chunks: seq<string>, tail: string) {
    |initial| + |Stored(chunks, BUFSIZE, tail)| > RESPONSE_HEADER_SIZE
  }

  /** The copy in a buffer that never grows. */
  ghost predicate Fits(canCache: bool, cache: array<char>, initial: string, chunks: seq<string>, tail: string)
    reads cache
  {
    canCache ==> cache.Length == RESPONSE_HEADER_SIZE + 1 && Holds(cache[..], initial + Stored(chunks, BUFSIZE, tail))
  }

  /** One chunk passed on and added to the copy. The C code takes writeall's result, which is 0,
      for the number of bytes written, so the capacity test never asks for more room. */
  method RoundFixed(client: Client, origin: Origin, buf: array<char>, cache: array<char>, canCache: bool,
                    ghost text: string, ghost tail: string)
    returns (ok: bool, fits: bool, n: nat, ghost c: string, ghost total: nat)
    requires cache != buf && Cleared(buf[..], BUFSIZE, tail) && Talks(origin.events)
    requires canCache ==> cache.Length == RESPONSE_HEADER_SIZE + 1 && Holds(cache[..], text)
    modifies client, origin, buf, cache
    ensures fits ==> Cleared(buf[..], BUFSIZE, tail)
    ensures var e := old(origin.events);
            if e[0].Fails? then !ok && c == "" && client.Failures() == old(client.Failures())
            else c == Taken(e[0].bytes, BUFSIZE) && origin.events == Untaken(e[0].bytes, BUFSIZE, e[1..])
                 && client.Failures() == old(client.Failures()) + if ok then 0 else 1
    ensures total <= |c| && client.sent == old(client.sent) + c[..total]
    ensures ok ==> n == total == |c|
    ensures ok && canCache ==> fits == (|text| + |Piece(c, BUFSIZE, tail)| <= RESPONSE_HEADER_SIZE)
    ensures fits && ok && canCache ==> Holds(cache[..], text + Piece(c, BUFSIZE, tail))
    ensures !ok || !canCache ==> fits
  {
    var r;
    r, ok, total, c := Relay(client, origin, buf, BUFSIZE, tail);
    fits, n := true, if r.Got? then |r.bytes| else 0;
    if ok && canCache {
      PieceBegins(buf[..], c, BUFSIZE, tail);
      ghost var piece := Piece(c, BUFSIZE, tail);
      BeginsAt(buf[..], piece);
      assert buf[|piece|] == NUL;
      var more := StrLen(buf, 0);
      assert more == |piece|;
      var have := TextLength(cache, text);
      fits := have + more < cache.Length;
      if fits { StrCat(cache, buf, text, piece); }
    }
    if fits { Clear(buf, BUFSIZE, c, tail); }
  }

  /** The last chunk is the first that the copy has no room for. */
  ghost predicate Overflows(initial: string, chunks: seq<string>, tail: string) {
    chunks != [] && TooLong(initial, chunks, tail) && !TooLong(initial, chunks[..|chunks| - 1], tail)
  }

  /** What the relay of a chunked response comes to when `all` could be read in time, with a read
      failing behind that if `breaks`. A chunk is passed on before it is copied. */
  ghost predicate Transferred(r: Transfer, chunks: seq<string>, lost: string, canCache: bool, initial: string,
                              tail: string, failed: bool, all: seq<string>, breaks: bool)
  {
    && chunks <= all
    && (!r.Overrun? && canCache ==> !TooLong(initial, chunks, tail))
    && match r
       case Overrun => !failed && lost == "" && canCache && Overflows(initial, chunks, tail)
       case Aborted => failed || (lost == "" && chunks == all && breaks)
       case Done(total) => !failed && lost == "" && chunks == all && !breaks && total == |Flat(all)|
  }

  /** How often an origin is asked in vain for more of a chunked response. */
  const SILENCES := 100

  /** The relay has passed on `chunks`, with `events` still to come. */
  ghost predicate Underway(chunks: seq<string>, before: string, sent: string, start: string, events: seq<Event>,
                           patience: nat, all: seq<string>, breaks: bool)
  {
    && Flowing(chunks, before, sent, start, Stream(events)) && chunks <= all
    && Reading(chunks, events, BUFSIZE, patience, all, breaks)
  }

  lemma UnderwayMore(chunks: seq<string>, before: string, sent: string, start: string, events: seq<Event>,
                     patience: nat, all: seq<string>, breaks: bool)
    requires Underway(chunks, before, sent, start, events, patience, all, breaks)
    requires patience > 0 && Talks(events) && events[0].Data?
    ensures var c, after := Taken(events[0].bytes, BUFSIZE), Untaken(events[0].bytes, BUFSIZE, events[1..]);
            && Underway(chunks + [c], before, sent + c, start, after, patience, all, breaks)
            && |Stream(after)| < |Stream(events)| && |Flat(chunks + [c])| == |Flat(chunks)| + |c|
            && (chunks + [c])[..|chunks|] == chunks
            && forall n: nat | n <= |c| :: Relayed(chunks, c[..n], before, sent + c[..n], start)
  {
    var c, after := Taken(events[0].bytes, BUFSIZE), Untaken(events[0].bytes, BUFSIZE, events[1..]);
    ReadingMore(chunks, events, BUFSIZE, patience, all, breaks);
    PassedOn(chunks, c, before, sent, start, Stream(after));
    FlatAppend(chunks, c);
    forall n: nat | n <= |c| ensures Relayed(chunks, c[..n], before, sent + c[..n], start) {
      Lost(chunks, c, n, before, sent, start, Stream(after));
    }
  }

  /** The copy so far. */
  ghost predicate Copying(canCache: bool, cache: array<char>, initial: string, chunks: seq<string>, tail: string)
    reads cache
  {
    Fits(canCache, cache, initial, chunks, tail) && (canCache ==> !TooLong(initial, chunks, tail))
  }

  /** One poll of an origin and, if there is more, one chunk. `r` tells how the relay ends if it
      does not go on. */
  method PollChunk(client: Client, origin: Origin, buf: array<char>, cache: array<char>, canCache: bool,
                   total: nat, grace: nat, ghost initial: string, ghost tail: string, ghost chunks: seq<string>,
                   ghost before: string, ghost start: string, ghost all: seq<string>, ghost breaks: bool)
    returns (go: bool, r: Transfer, sum: nat, left: nat, ghost more: seq<string>, ghost lost: string)
    requires cache != buf && Cleared(buf[..], BUFSIZE, tail) && grace > 0 && total == |Flat(chunks)|
    requires Copying(canCache, cache, initial, chunks, tail)
    requires Underway(chunks, before, client.sent, start, origin.events, grace, all, breaks)
    modifies client, origin, buf, cache
    ensures if go
            then client.Failures() == old(client.Failures()) && sum == |Flat(more)| && Cleared(buf[..], BUFSIZE, tail)
            else Transferred(r, more, lost, canCache, initial, tail,
                             client.Failures() > old(client.Failures()), all, breaks)
    ensures go ==> Underway(more, before, client.sent, start, origin.events, left, all, breaks)
    ensures go || r.Done? ==> Copying(canCache, cache, initial, more, tail)
    ensures go ==> lost == ""
    ensures go ==> |origin.Rest()| < |old(origin.Rest())| || (origin.Rest() == old(origin.Rest()) && left < grace)
    ensures !go ==> Relayed(more, lost, before, client.sent, start) && client.Failures() >= old(client.Failures())
  {
    ghost var e, sent := origin.events, client.sent;
    go, r, sum, left, more, lost := true, Aborted, total, grace, chunks, "";
    var testRead := origin.Peek();
    if testRead == 0 {
      ReadingEnds(chunks, e, BUFSIZE, grace, all, breaks);
      go, r := false, Done(total);
    } else if testRead < 0 {
      left := grace - 1;
    } else {
      ghost var n, c := 0, "";
      var ok, fits, w;
      ok, fits, w, c, n := RoundFixed(client, origin, buf, cache, canCache,
                                      initial + Stored(chunks, BUFSIZE, tail), tail);
      if e[0].Fails? {
        ReadingEnds(chunks, e, BUFSIZE, grace, all, breaks);
        assert c[..n] == "";
      } else {
        UnderwayMore(chunks, before, sent, start, e, grace, all, breaks);
      }
      go := ok && fits;
      lost := if ok then "" else c[..n];
      if ok {
        StoredAppend(chunks, c, BUFSIZE, tail, initial);
        more := chunks + [c];
        r, sum := Overrun, total + w;
      }
    }
  }

  /** Relays what arrives until the origin has closed the connection or has been found silent a
      hundred times. `tail` is what the buffer holds behind its first `BUFSIZE` places. */
  method TransferChunks(client: Client, origin: Origin, buf: array<char>, cache: array<char>, canCache: bool,
                        ghost initial: string, ghost tail: string)
    returns (r: Transfer, ghost chunks: seq<string>, ghost lost: string)
    requires cache != buf && Cleared(buf[..], BUFSIZE, tail)
    requires cache.Length == RESPONSE_HEADER_SIZE + 1 && Holds(cache[..], initial)
    modifies client, origin, buf, cache
    ensures Relayed(chunks, lost, old(client.sent), client.sent, old(origin.Rest()))
    ensures r.Done? ==> Fits(canCache, cache, initial, chunks, tail)
    ensures client.Failures() >= old(client.Failures())
    ensures Transferred(r, chunks, lost, canCache, initial, tail, client.Failures() > old(client.Failures()),
                        Reads(old(origin.events), BUFSIZE, SILENCES), Breaks(old(origin.events), SILENCES))
  {
    ghost var start, before := origin.Rest(), client.sent;
    ghost var all, breaks := Reads(origin.events, BUFSIZE, SILENCES), Breaks(origin.events, SILENCES);
    chunks, lost := [], "";
    assert initial + Stored([], BUFSIZE, tail) == initial;
    var go, total: nat, grace: nat := true, 0, SILENCES;
    while grace > 0
      invariant Cleared(buf[..], BUFSIZE, tail) && client.Failures() == old(client.Failures())
                && total == |Flat(chunks)|
      invariant Copying(canCache, cache, initial, chunks, tail) && lost == ""
      invariant Underway(chunks, before, client.sent, start, origin.events, grace, all, breaks)
      decreases |origin.Rest()|, grace
    {
      go, r, total, grace, chunks, lost := PollChunk(client, origin, buf, cache, canCache, total, grace,
                                                     initial, tail, chunks, before, start, all, breaks);
      if !go { return; }
    }
    ReadingEnds(chunks, origin.events, BUFSIZE, grace, all, breaks);
    r := Done(total);
  }
}
