/** Which stored responses may be reused, over every run of lookups, fills and refills
    (threadPool.c, `cacheable`, `forwardRequest` and `getRevalidation`). */
module Freshness {
  import opened CStrings
  import opened CacheControl
  import opened ResponseParser

  datatype Cached = Cached(value: string, host: string, info: CacheInfo)

  type Store = map<string, Cached>

  datatype Answer = Miss | Expired | Revalidate(data: string) | Hit(data: string)

  predicate Stale(info: CacheInfo, now: int) {
    info.expiry.Some? && now >= info.expiry.value
  }

  function Look(m: Store, uri: string, now: int): Answer {
    if uri !in m then Miss
    else if Stale(m[uri].info, now) then Expired
    else if m[uri].info.needsRevalidation then Revalidate(m[uri].value)
    else Hit(m[uri].value)
  }

  /** The last Cache-Control header is there and permits storing. */
  predicate MayStore(r: Reply) {
    r.control.Some? && r.control.value.Allowed?
  }

  function InfoOf(r: Reply): CacheInfo
    requires MayStore(r)
  {
    r.control.value.info.(eTag := r.eTag)
  }

  /** A fill stores a forwarded response; a refill replaces the text of an entry, and its entity
      tag if the new response has one, after an answer that starts with `answer`. Any of them may
      happen at any time. */
  datatype Change =
    | Fill(uri: string, value: string, host: string, reply: Reply)
    | Refill(uri: string, value: string, tag: Option<string>, answer: string)

  predicate Enabled(m: Store, e: Change) {
    match e
    case Fill(_, _, _, reply) => MayStore(reply)
    case Refill(uri, _, _, _) => uri in m
  }

  function AfterFill(m: Store, uri: string, value: string, host: string, info: CacheInfo): Store {
    m[uri := Cached(value, if uri in m then m[uri].host else host, info)]
  }

  function AfterRefill(m: Store, uri: string, value: string, tag: Option<string>): Store
    requires uri in m
  {
    var c := m[uri];
    m[uri := c.(value := value, info := if tag.Some? then c.info.(eTag := tag) else c.info)]
  }

  function Step(m: Store, e: Change): Store
    requires Enabled(m, e)
  {
    match e
    case Fill(uri, value, host, reply) => AfterFill(m, uri, value, host, InfoOf(reply))
    case Refill(uri, value, tag, _) => AfterRefill(m, uri, value, tag)
  }

  /** The store after a run; `None` if some event was not enabled. */
  function End(events: seq<Change>): Option<Store> {
    if |events| == 0 then Some(map[])
    else
      var m := End(events[..|events| - 1]);
      var e := events[|events| - 1];
      if m.Some? && Enabled(m.value, e) then Some(Step(m.value, e)) else None
  }

  // ----- What is in the store after a run -----

  predicate FillAt(events: seq<Change>, i: nat, uri: string) {
    i < |events| && events[i].Fill? && events[i].uri == uri && MayStore(events[i].reply)
  }

  predicate WriteAt(events: seq<Change>, i: nat, uri: string) {
    i < |events| && events[i].uri == uri
  }

  ghost predicate LastFill(events: seq<Change>, i: nat, uri: string) {
    FillAt(events, i, uri) && forall j: nat | i < j :: !FillAt(events, j, uri)
  }

  ghost predicate LastWrite(events: seq<Change>, i: nat, uri: string) {
    WriteAt(events, i, uri) && forall j: nat | i < j :: !WriteAt(events, j, uri)
  }

  predicate SameFreshness(a: CacheInfo, b: CacheInfo) {
    a.needsRevalidation == b.needsRevalidation && a.expiry == b.expiry
  }

  /** The entry of `uri` carries the freshness of its last fill and the text of its last write. */
  ghost predicate Describes(events: seq<Change>, uri: string, m: Store) {
    && (uri in m <==> exists i: nat :: FillAt(events, i, uri))
    && (forall i: nat | LastFill(events, i, uri) :: uri in m && SameFreshness(m[uri].info, InfoOf(events[i].reply)))
    && (forall i: nat | LastWrite(events, i, uri) :: uri in m && m[uri].value == events[i].value)
  }

  lemma Appended(front: seq<Change>, e: Change, i: nat, uri: string)
    ensures FillAt(front + [e], i, uri) <==> FillAt(front, i, uri) || (i == |front| && FillAt([e], 0, uri))
    ensures WriteAt(front + [e], i, uri) <==> WriteAt(front, i, uri) || (i == |front| && e.uri == uri)
    ensures i < |front| ==> (front + [e])[i] == front[i]
  {
  }

  lemma DescribesStep(front: seq<Change>, e: Change, uri: string, m: Store)
    requires Describes(front, uri, m) && Enabled(m, e)
    ensures Describes(front + [e], uri, Step(m, e))
  {
    var events, n := front + [e], |front|;
    forall i: nat
      ensures FillAt(events, i, uri) <==> FillAt(front, i, uri) || (i == n && FillAt([e], 0, uri))
      ensures WriteAt(events, i, uri) <==> WriteAt(front, i, uri) || (i == n && e.uri == uri)
    {
      Appended(front, e, i, uri);
    }
    forall i: nat | LastFill(events, i, uri)
      ensures if i < n then LastFill(front, i, uri) && events[i] == front[i] && !FillAt([e], 0, uri) else i == n
    {
      Appended(front, e, i, uri);
      assert !FillAt([e], 0, uri) || i >= n by { if i < n { assert !FillAt(events, n, uri); } }
    }
    forall i: nat | LastWrite(events, i, uri)
      ensures if i < n then LastWrite(front, i, uri) && events[i] == front[i] && e.uri != uri else i == n
    {
      Appended(front, e, i, uri);
      assert e.uri != uri || i >= n by { if i < n { assert !WriteAt(events, n, uri); } }
    }
    if FillAt([e], 0, uri) { assert FillAt(events, n, uri); }
  }

  /** Over every run, what is kept about an entry comes from the last response that was allowed
      to be stored, whatever refills came after, and its text from the last fill or refill. */
  lemma {:induction false} RunDescribed(events: seq<Change>, uri: string)
    requires End(events).Some?
    ensures Describes(events, uri, End(events).value)
    decreases |events|
  {
    if |events| > 0 {
      var n := |events| - 1;
      RunDescribed(events[..n], uri);
      DescribesStep(events[..n], events[n], uri, End(events[..n]).value);
      assert events == events[..n] + [events[n]];
    }
  }

  // ----- When an entry is reused -----

  lemma {:induction false} LastFillExists(events: seq<Change>, uri: string, i: nat)
    requires FillAt(events, i, uri)
    ensures exists j: nat :: LastFill(events, j, uri)
    decreases |events| - i
  {
    if j: nat :| i < j && FillAt(events, j, uri) {
      LastFillExists(events, uri, j);
    } else {
      assert LastFill(events, i, uri);
    }
  }

  ghost predicate FreshFill(events: seq<Change>, i: nat, uri: string, now: int) {
    LastFill(events, i, uri) && !InfoOf(events[i].reply).needsRevalidation && !Stale(InfoOf(events[i].reply), now)
  }

  /** After any run an entry is a hit exactly if the last response stored for it did not demand
      revalidation and has not expired. */
  lemma HitExactly(events: seq<Change>, uri: string, now: int)
    requires End(events).Some?
    ensures Look(End(events).value, uri, now).Hit? <==> exists i: nat :: FreshFill(events, i, uri, now)
  {
    var m := End(events).value;
    RunDescribed(events, uri);
    if uri in m {
      var k: nat :| FillAt(events, k, uri);
      LastFillExists(events, uri, k);
      var i: nat :| LastFill(events, i, uri);
      assert SameFreshness(m[uri].info, InfoOf(events[i].reply));
      assert FreshFill(events, i, uri, now) <==> Look(m, uri, now).Hit?;
      forall j: nat | FreshFill(events, j, uri, now) ensures j == i {
      }
    }
  }

  /** A hit or a revalidation yields the text written last. */
  lemma AnswersLastWrite(events: seq<Change>, uri: string, now: int, i: nat)
    requires End(events).Some? && LastWrite(events, i, uri)
    ensures var a := Look(End(events).value, uri, now);
            a == Miss || a == Expired || a == Revalidate(events[i].value) || a == Hit(events[i].value)
  {
    RunDescribed(events, uri);
  }

  /** What an answer is after any run, by the last response stored for the entry: nothing without
      one, expired if its age is over whatever else it demands, and otherwise to be revalidated
      exactly if it demands that. */
  lemma AnswerExactly(events: seq<Change>, uri: string, now: int)
    requires End(events).Some?
    ensures var a := Look(End(events).value, uri, now);
            && (a == Miss <==> forall i: nat :: !FillAt(events, i, uri))
            && forall i: nat | LastFill(events, i, uri) ::
                 var info := InfoOf(events[i].reply);
                 && (a == Expired <==> Stale(info, now))
                 && (a.Revalidate? <==> !Stale(info, now) && info.needsRevalidation)
                 && (a.Hit? <==> !Stale(info, now) && !info.needsRevalidation)
  {
    RunDescribed(events, uri);
  }

  // ----- The entity tag and the host of an entry -----

  /** A change that decides the entity tag of its entry: a fill, or a refill that brings one. */
  predicate SetsTag(events: seq<Change>, i: nat, uri: string) {
    WriteAt(events, i, uri) && (events[i].Fill? || events[i].tag.Some?)
  }

  ghost predicate LastTag(events: seq<Change>, i: nat, uri: string) {
    SetsTag(events, i, uri) && forall j: nat | i < j :: !SetsTag(events, j, uri)
  }

  function TagOf(e: Change): Option<string> {
    if e.Fill? then e.reply.eTag else e.tag
  }

  lemma LastTagBefore(events: seq<Change>, i: nat, uri: string)
    requires LastTag(events, i, uri)
    ensures var n := |events| - 1; if i < n then LastTag(events[..n], i, uri) && !SetsTag(events, n, uri) else i == n
  {
    var n := |events| - 1;
    if i < n {
      assert forall j: nat | i < j :: SetsTag(events[..n], j, uri) ==> SetsTag(events, j, uri);
    }
  }

  /** The tag of an entry is that of its last fill, or of the last refill since that brought one. */
  lemma {:induction false} TagDescribed(events: seq<Change>, uri: string, i: nat)
    requires End(events).Some? && LastTag(events, i, uri)
    ensures uri in End(events).value && End(events).value[uri].info.eTag == TagOf(events[i])
    decreases |events|
  {
    LastTagBefore(events, i, uri);
    var n := |events| - 1;
    if i < n {
      TagDescribed(events[..n], uri, i);
    }
  }

  ghost predicate FirstFill(events: seq<Change>, i: nat, uri: string) {
    FillAt(events, i, uri) && forall j: nat | j < i :: !FillAt(events, j, uri)
  }

  /** The host of an entry is the one its first fill came with. */
  lemma {:induction false} HostDescribed(events: seq<Change>, uri: string, i: nat)
    requires End(events).Some? && FirstFill(events, i, uri)
    ensures uri in End(events).value && End(events).value[uri].host == events[i].host
    decreases |events|
  {
    var n := |events| - 1;
    var front := events[..n];
    assert forall j: nat :: FillAt(front, j, uri) ==> FillAt(events, j, uri);
    if i < n {
      assert FillAt(front, i, uri);
      HostDescribed(front, uri, i);
    } else {
      RunDescribed(front, uri);
      assert forall j: nat :: !FillAt(front, j, uri);
    }
  }

  /** Every fill in a run was permitted. */
  lemma {:induction false} EnabledAlong(changes: seq<Change>, i: nat)
    requires End(changes).Some? && i < |changes|
    ensures changes[i].Fill? ==> MayStore(changes[i].reply)
    decreases |changes|
  {
    if i < |changes| - 1 {
      EnabledAlong(changes[..|changes| - 1], i);
    }
  }
}
