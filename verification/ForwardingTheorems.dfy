/** When the copy kept for the cache is what the client was sent. */
module ForwardingTheorems {
  import opened CStrings
  import opened Streams
  import opened Receiving
  import opened Forwarding

  lemma PieceIsText(c: string, max: nat, tail: string)
    requires NulFree(tail)
    ensures NulFree(Piece(c, max, tail))
    ensures NulFree(c) ==> Piece(c, max, tail) == if |c| == max then c + tail else c
  {
    if NulFree(c) {
      assert Find(c, 0, NUL) == |c|;
    }
  }

  /** Chunks without NULs, and no chunk that brings the buffer's tail along. */
  predicate Clean(chunks: seq<string>, max: nat, tail: string) {
    forall c | c in chunks :: NulFree(c) && (tail == "" || |c| != max)
  }

  predicate AllText(chunks: seq<string>) {
    forall c | c in chunks :: NulFree(c)
  }

  lemma {:induction false} FlatIsText(chunks: seq<string>)
    ensures NulFree(Flat(chunks)) <==> AllText(chunks)
    decreases |chunks|
  {
    if chunks != [] {
      var n := |chunks| - 1;
      FlatIsText(chunks[..n]);
      var f, c := Flat(chunks[..n]), chunks[n];
      assert NulFree(f + c) <==> NulFree(f) && NulFree(c) by {
        assert forall i | 0 <= i < |f| :: (f + c)[i] == f[i];
        assert forall i | 0 <= i < |c| :: (f + c)[|f| + i] == c[i];
      }
      assert forall d :: d in chunks <==> d in chunks[..n] || d == c;
    }
  }

  lemma {:induction false} StoredIsText(chunks: seq<string>, max: nat, tail: string)
    requires NulFree(tail)
    ensures NulFree(Stored(chunks, max, tail))
    decreases |chunks|
  {
    if chunks != [] {
      StoredIsText(chunks[..|chunks| - 1], max, tail);
      PieceIsText(chunks[|chunks| - 1], max, tail);
    }
  }

  lemma CleanFront(chunks: seq<string>, max: nat, tail: string)
    requires chunks != [] && AllText(chunks)
    ensures var n := |chunks| - 1;
            && AllText(chunks[..n]) && NulFree(chunks[n])
            && (Clean(chunks, max, tail) <==> Clean(chunks[..n], max, tail) && (tail == "" || |chunks[n]| != max))
  {
    assert forall d :: d in chunks <==> d in chunks[..|chunks| - 1] || d == chunks[|chunks| - 1];
  }

  /** Of chunks without NULs the copy keeps everything, and the tail comes on top. */
  lemma {:induction false} StoredOfText(chunks: seq<string>, max: nat, tail: string)
    requires NulFree(tail) && AllText(chunks)
    ensures if Clean(chunks, max, tail) then Stored(chunks, max, tail) == Flat(chunks)
            else |Stored(chunks, max, tail)| > |Flat(chunks)|
    decreases |chunks|
  {
    if chunks != [] {
      var n := |chunks| - 1;
      CleanFront(chunks, max, tail);
      StoredOfText(chunks[..n], max, tail);
      PieceIsText(chunks[n], max, tail);
    }
  }

  /** The copy is what was sent exactly when no chunk holds a NUL and either no chunk fills its
      buffer or the buffer holds nothing behind it. */
  lemma CopyIsExact(chunks: seq<string>, max: nat, tail: string)
    requires NulFree(tail)
    ensures Stored(chunks, max, tail) == Flat(chunks) <==> Clean(chunks, max, tail)
  {
    StoredIsText(chunks, max, tail);
    FlatIsText(chunks);
    if AllText(chunks) {
      StoredOfText(chunks, max, tail);
    }
  }

  /** Without NULs and without a tail, `transferChunks` overruns the copy exactly when the
      initial text and what it relays are longer than `RESPONSE_HEADER_SIZE`. */
  lemma ChunkedCopyFits(initial: string, chunks: seq<string>)
    requires AllText(chunks)
    ensures TooLong(initial, chunks, "") <==> |initial| + |Flat(chunks)| > RESPONSE_HEADER_SIZE
  {
    StoredOfText(chunks, BUFSIZE, "");
  }

  // ----- What can be told of a stream before it is relayed -----

  lemma {:induction false} StoredGrows(chunks: seq<string>, all: seq<string>, max: nat, tail: string)
    requires chunks <= all
    ensures |Stored(chunks, max, tail)| <= |Stored(all, max, tail)|
    decreases |all|
  {
    if |chunks| < |all| {
      StoredGrows(chunks, all[..|all| - 1], max, tail);
    } else {
      assert chunks == all;
    }
  }

  /** A relay that stops when the copy overflows does so exactly if all that comes in time is too
      long; where it stops is then certain. */
  lemma OverflowExactly(initial: string, chunks: seq<string>, all: seq<string>, tail: string)
    requires chunks <= all
    ensures TooLong(initial, chunks, tail) ==> TooLong(initial, all, tail)
    ensures forall other | other <= all && Overflows(initial, other, tail) && Overflows(initial, chunks, tail) ::
              other == chunks
  {
    StoredGrows(chunks, all, BUFSIZE, tail);
    forall other | other <= all && Overflows(initial, other, tail) && Overflows(initial, chunks, tail)
      ensures other == chunks
    {
      if |other| < |chunks| {
        StoredGrows(other, chunks[..|chunks| - 1], BUFSIZE, tail);
      } else if |chunks| < |other| {
        StoredGrows(chunks, other[..|other| - 1], BUFSIZE, tail);
      }
    }
  }

  lemma HeardIsText(events: seq<Event>, patience: nat)
    requires NulFree(Stream(events))
    ensures NulFree(Heard(events, patience)) && AllText(Reads(events, BUFSIZE, patience))
  {
    HeardIsSent(events, patience);
    assert forall i | 0 <= i < |Heard(events, patience)| :: Heard(events, patience)[i] == Stream(events)[i];
    ReadsAreHeard(events, BUFSIZE, patience);
    FlatIsText(Reads(events, BUFSIZE, patience));
  }

  /** With nothing behind the buffer, the copy overflows exactly if the start and what comes in
      time are longer than `RESPONSE_HEADER_SIZE` together. */
  lemma HeardTooLong(initial: string, events: seq<Event>, patience: nat)
    requires NulFree(Stream(events))
    ensures TooLong(initial, Reads(events, BUFSIZE, patience), "") <==>
              |initial| + |Heard(events, patience)| > RESPONSE_HEADER_SIZE
  {
    HeardIsText(events, patience);
    ReadsAreHeard(events, BUFSIZE, patience);
    ChunkedCopyFits(initial, Reads(events, BUFSIZE, patience));
  }
}
