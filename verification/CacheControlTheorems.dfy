/** What `parseCacheHeaders` decides, in terms of the list of directives in the header value. */
module CacheControlTheorems {
  import opened CStrings
  import opened CacheControl

  /** A list of directives as header fields carry it: each behind one space, commas between
      them, and `tail` behind the last. */
  function Listed(ds: seq<string>, tail: string): (s: string)
    requires |ds| > 0
    ensures s != ""
  {
    if |ds| == 1 then [' '] + ds[0] + tail else [' '] + ds[0] + [','] + Listed(ds[1..], tail)
  }

  predicate IsDirective(d: string) {
    NulFree(d) && ',' !in d && !EndsCR(d)
  }

  predicate IsTail(tail: string) {
    tail == [] || tail == ['\r']
  }

  /** The decision as a fold over the list. */
  function Decision(ds: seq<string>, info: CacheInfo, now: int, kind: Classifier): Verdict {
    if ds == [] then Allowed(info)
    else
      match Apply(kind(ds[0]), info, now)
      case Fault => Fault
      case Forbidden => Forbidden
      case Allowed(i) => Decision(ds[1..], i, now, kind)
  }

  /** The token [p..q) is a space and the directive `d`, with at most a '\r' behind it. */
  lemma TokenOf(s: string, p: nat, q: nat, d: string, tail: string)
    requires p <= q <= |s| && s[p..q] == [' '] + d + tail && !EndsCR(d) && IsTail(tail)
    ensures var w := Chomp([Skipped(s, p, q)] + Rest(s, p, q)); Directive(w) == d && !EndsCR(w)
    ensures Shortened(s, p, q) == s
  {
    var v := [' '] + d;
    assert s[p..q] == v + tail;
    assert Skipped(s, p, q) == s[p..q][0] == ' ';
    assert [Skipped(s, p, q)] + Rest(s, p, q) == v + tail;
    assert !EndsCR(v);
    if tail == ['\r'] {
      assert (v + tail)[..|v|] == v;
    } else {
      assert v + tail == v;
    }
    assert v[1..] == d;
  }

  /** Where the first token of a listed value ends. */
  lemma ListedHead(ds: seq<string>, s: string, p: nat, tail: string)
    requires |ds| > 0 && IsDirective(ds[0]) && IsTail(tail)
    requires p <= |s| && s[p..] == Listed(ds, tail)
    ensures var q := Within(s, p, |s|, ',');
            && s[p..q] == [' '] + ds[0] + (if |ds| == 1 then tail else "")
            && (if |ds| == 1 then q == |s| else q < |s| && s[q + 1..] == Listed(ds[1..], tail))
  {
    var w := [' '] + ds[0] + (if |ds| == 1 then tail else "");
    if |ds| == 1 {
      JoinHead([w], s, p, ',');
    } else {
      var parts := [w, Listed(ds[1..], tail)];
      assert w == [' '] + ds[0];
      assert Join(parts[1..], ',') == parts[1];
      assert Join(parts, ',') == w + [','] + parts[1];
      JoinHead(parts, s, p, ',');
    }
  }

  ghost predicate ListedAt(ds: seq<string>, s: string, p: nat, tail: string) {
    |ds| > 0 && (forall d | d in ds :: IsDirective(d)) && IsTail(tail) && p <= |s| && s[p..] == Listed(ds, tail)
  }

  /** `k` is the first directive of the list, and what is left is the rest of the list. */
  ghost predicate TakesHead(k: Taken, ds: seq<string>, s: string, p: nat, tail: string) {
    && |ds| > 0 && k.directive == ds[0] && !k.again && k.left == s
    && (if |ds| == 1 then k.next == Null else k.next.At? && p < k.next.i && ListedAt(ds[1..], s, k.next.i, tail))
  }

  ghost predicate TakesHeads(cut: Cutter, s: string, tail: string) {
    forall ds, p: nat | ListedAt(ds, s, p, tail) :: TakesHead(cut(s, p), ds, s, p, tail)
  }

  lemma CommaTakesHeads(s: string, tail: string)
    ensures TakesHeads(Comma, s, tail)
  {
    forall ds, p: nat | ListedAt(ds, s, p, tail) ensures TakesHead(Comma(s, p), ds, s, p, tail) {
      ListedHead(ds, s, p, tail);
      TokenOf(s, p, Within(s, p, |s|, ','), ds[0], if |ds| == 1 then tail else "");
    }
  }

  /** The parser decides a listed value by its directives alone. */
  lemma {:induction false} DecideListed(ds: seq<string>, s: string, p: nat, info: CacheInfo, now: int, room: nat,
                                        kind: Classifier, tail: string, cut: Cutter)
    requires ListedAt(ds, s, p, tail) && |s| < room && TakesHeads(cut, s, tail)
    ensures Decide(s, p, info, now, room, kind, cut) == Decision(ds, info, now, kind)
    decreases |ds|
  {
    var k := cut(s, p);
    assert TakesHead(k, ds, s, p, tail);
    var r := Apply(kind(ds[0]), info, now);
    if r.Allowed? && |ds| > 1 {
      DecideListed(ds[1..], s, k.next.i, r.info, now, room, kind, tail, cut);
    }
  }

  ghost predicate Exists(ds: seq<string>, kind: Classifier, k: Kind) {
    exists d :: d in ds && kind(d) == k
  }

  function IsAge(kind: Classifier): string -> bool {
    (d: string) => kind(d).MaxAge?
  }

  /** The expiry that the last age of the list gives, or `default` without one. */
  function Expiry(ds: seq<string>, kind: Classifier, now: int, default: Option<int>): Option<int> {
    var k := LastIndex(ds, IsAge(kind));
    if k == 0 then default else Some(now + kind(ds[k - 1]).age)
  }

  /** Some age has no date, and no directive before it forbids storing. */
  predicate UndatableFirst(ds: seq<string>, now: int, kind: Classifier) {
    exists i | 0 <= i < |ds| :: Undatable(kind(ds[i]), now) && forall j | 0 <= j < i :: kind(ds[j]) != Forbids
  }

  lemma UndatableTail(ds: seq<string>, now: int, kind: Classifier)
    requires ds != []
    ensures UndatableFirst(ds, now, kind) <==>
            Undatable(kind(ds[0]), now) || (kind(ds[0]) != Forbids && UndatableFirst(ds[1..], now, kind))
  {
    var rest := ds[1..];
    assert forall i | 0 <= i < |rest| :: rest[i] == ds[i + 1];
    if i :| 0 <= i < |rest| && Undatable(kind(rest[i]), now) && forall j | 0 <= j < i :: kind(rest[j]) != Forbids {
      assert forall j | 0 < j < i + 1 :: ds[j] == rest[j - 1];
      assert Undatable(kind(ds[i + 1]), now);
    }
    if i :| 0 < i < |ds| && Undatable(kind(ds[i]), now) && forall j | 0 <= j < i :: kind(ds[j]) != Forbids {
      assert Undatable(kind(rest[i - 1]), now);
    }
  }

  /** The fold breaks exactly if it meets an age without a date first. Otherwise it forbids storing
      exactly if some directive does, and demands revalidation exactly if some directive does. */
  lemma {:induction false} DecisionKinds(ds: seq<string>, info: CacheInfo, now: int, kind: Classifier, v: Verdict)
    requires v == Decision(ds, info, now, kind)
    ensures v.Fault? <==> UndatableFirst(ds, now, kind)
    ensures !v.Fault? ==> (v.Forbidden? <==> Exists(ds, kind, Forbids))
    ensures v.Allowed? ==>
              v.info.eTag == info.eTag
              && (v.info.needsRevalidation <==> info.needsRevalidation || Exists(ds, kind, Revalidates))
    decreases |ds|
  {
    if ds != [] {
      var rest := ds[1..];
      assert forall d :: d in ds <==> d == ds[0] || d in rest;
      UndatableTail(ds, now, kind);
      var r := Apply(kind(ds[0]), info, now);
      if r.Allowed? {
        DecisionKinds(rest, r.info, now, kind, v);
      }
    }
  }

  /** The last age decides the expiry. */
  lemma {:induction false} DecisionAge(ds: seq<string>, info: CacheInfo, now: int, kind: Classifier, v: Verdict)
    requires v == Decision(ds, info, now, kind) && v.Allowed?
    ensures v.info.expiry == Expiry(ds, kind, now, info.expiry)
    decreases |ds|
  {
    if ds != [] {
      LastIndexTail(ds, IsAge(kind));
      DecisionAge(ds[1..], Apply(kind(ds[0]), info, now).info, now, kind, v);
    }
  }

  /** What a verdict says about the directives it comes from. */
  ghost predicate Means(v: Verdict, ds: seq<string>, info: CacheInfo, now: int, kind: Classifier) {
    && (v.Fault? <==> UndatableFirst(ds, now, kind))
    && (!v.Fault? ==> (v.Forbidden? <==> Exists(ds, kind, Forbids)))
    && (v.Allowed? ==>
          && v.info.eTag == info.eTag
          && (v.info.needsRevalidation <==> info.needsRevalidation || Exists(ds, kind, Revalidates))
          && v.info.expiry == Expiry(ds, kind, now, info.expiry))
  }

  lemma DecisionMeans(ds: seq<string>, info: CacheInfo, now: int, kind: Classifier, v: Verdict)
    requires v == Decision(ds, info, now, kind)
    ensures Means(v, ds, info, now, kind)
  {
    DecisionKinds(ds, info, now, kind, v);
    if v.Allowed? {
      DecisionAge(ds, info, now, kind, v);
    }
  }

  /** What the parser makes of a listed value, whatever the clock shows. */
  lemma ListedDecision(ds: seq<string>, s: string, now: int, kind: Classifier, tail: string, v: Verdict)
    requires |ds| > 0 && (forall d | d in ds :: IsDirective(d)) && IsTail(tail)
    requires s == Listed(ds, tail) && v == Decide(s, 0, NO_INFO, now, |s| + 1, kind, Comma)
    ensures v == Decision(ds, NO_INFO, now, kind) && Means(v, ds, NO_INFO, now, kind)
  {
    assert s[0..] == s;
    CommaTakesHeads(s, tail);
    DecideListed(ds, s, 0, NO_INFO, now, |s| + 1, kind, tail, Comma);
    DecisionMeans(ds, NO_INFO, now, kind, v);
  }

  // ----- When the order of the directives matters -----

  predicate OneAge(ds: seq<string>, kind: Classifier) {
    forall c, d | c in ds && d in ds && kind(c).MaxAge? && kind(d).MaxAge? :: kind(c) == kind(d)
  }

  ghost predicate SameSet(ds: seq<string>, es: seq<string>) {
    forall d :: d in ds <==> d in es
  }

  lemma SameExists(ds: seq<string>, es: seq<string>, kind: Classifier, k: Kind)
    requires SameSet(ds, es)
    ensures Exists(ds, kind, k) == Exists(es, kind, k)
  {
  }

  predicate AllDatable(ds: seq<string>, now: int, kind: Classifier) {
    forall d | d in ds :: !Undatable(kind(d), now)
  }

  /** What makes the order of the directives irrelevant. */
  ghost predicate Orderless(ds: seq<string>, now: int, kind: Classifier) {
    if AllDatable(ds, now, kind) then OneAge(ds, kind) || Exists(ds, kind, Forbids) else !Exists(ds, kind, Forbids)
  }

  lemma SameDatable(ds: seq<string>, es: seq<string>, now: int, kind: Classifier)
    requires SameSet(ds, es)
    ensures AllDatable(ds, now, kind) == AllDatable(es, now, kind)
  {
  }

  lemma BreaksWithout(ds: seq<string>, now: int, kind: Classifier)
    ensures AllDatable(ds, now, kind) ==> !UndatableFirst(ds, now, kind)
    ensures !AllDatable(ds, now, kind) && !Exists(ds, kind, Forbids) ==> UndatableFirst(ds, now, kind)
  {
    if !AllDatable(ds, now, kind) && !Exists(ds, kind, Forbids) {
      var d :| d in ds && Undatable(kind(d), now);
      var i :| 0 <= i < |ds| && ds[i] == d;
      assert forall j | 0 <= j < i :: ds[j] in ds;
    }
  }

  /** Then only the set of directives matters. */
  lemma SameDirectives(ds: seq<string>, es: seq<string>, info: CacheInfo, now: int, kind: Classifier)
    requires SameSet(ds, es) && Orderless(ds, now, kind)
    ensures Decision(ds, info, now, kind) == Decision(es, info, now, kind)
  {
    var v, w := Decision(ds, info, now, kind), Decision(es, info, now, kind);
    DecisionMeans(ds, info, now, kind, v);
    DecisionMeans(es, info, now, kind, w);
    SameExists(ds, es, kind, Forbids);
    SameExists(ds, es, kind, Revalidates);
    SameDatable(ds, es, now, kind);
    BreaksWithout(ds, now, kind);
    BreaksWithout(es, now, kind);
    if v.Allowed? {
      SameExpiry(ds, es, kind, now, info.expiry);
    }
  }

  lemma SameExpiry(ds: seq<string>, es: seq<string>, kind: Classifier, now: int, default: Option<int>)
    requires SameSet(ds, es) && OneAge(ds, kind)
    ensures Expiry(ds, kind, now, default) == Expiry(es, kind, now, default)
  {
    var p := IsAge(kind);
    var k, l := LastIndex(ds, p), LastIndex(es, p);
    if k > 0 {
      AgeThere(ds, es, p, k - 1);
    }
    if l > 0 {
      AgeThere(es, ds, p, l - 1);
    }
    if k > 0 {
      assert ds[k - 1] in ds && es[l - 1] in ds;
    }
  }

  lemma AgeThere(ds: seq<string>, es: seq<string>, p: string -> bool, i: nat)
    requires SameSet(ds, es) && i < |ds| && p(ds[i])
    ensures LastIndex(es, p) > 0
  {
    assert ds[i] in es;
    var j :| 0 <= j < |es| && es[j] == ds[i];
  }

  /** `ds` with the directive at `i` moved to the end. */
  function ToEnd(ds: seq<string>, i: nat): (es: seq<string>)
    requires i < |ds|
    ensures multiset(es) == multiset(ds) && |es| > 0 && es[|es| - 1] == ds[i]
  {
    assert ds == ds[..i] + [ds[i]] + ds[i + 1..];
    ds[..i] + ds[i + 1..] + [ds[i]]
  }

  lemma AgeAtEnd(es: seq<string>, info: CacheInfo, now: int, kind: Classifier)
    requires |es| > 0 && kind(es[|es| - 1]).MaxAge? && !Exists(es, kind, Forbids) && AllDatable(es, now, kind)
    ensures Decision(es, info, now, kind).Allowed?
    ensures Decision(es, info, now, kind).info.expiry == Some(now + kind(es[|es| - 1]).age)
  {
    var v := Decision(es, info, now, kind);
    DecisionMeans(es, info, now, kind, v);
    BreaksWithout(es, now, kind);
    LastIndexIs(es, IsAge(kind), |es|);
  }

  /** `ds` with the directive at `i` moved to the front. */
  function ToFront(ds: seq<string>, i: nat): (es: seq<string>)
    requires i < |ds|
    ensures multiset(es) == multiset(ds) && |es| > 0 && es[0] == ds[i]
  {
    assert ds == ds[..i] + [ds[i]] + ds[i + 1..];
    [ds[i]] + ds[..i] + ds[i + 1..]
  }

  ghost predicate Permuted(ds: seq<string>, es: seq<string>) {
    multiset(ds) == multiset(es)
  }

  lemma SameMembers(ds: seq<string>, es: seq<string>)
    requires Permuted(ds, es)
    ensures SameSet(ds, es)
  {
    assert forall d :: d in ds <==> d in multiset(ds);
    assert forall d :: d in es <==> d in multiset(es);
  }

  /** Every order of the directives gives the same verdict exactly if either all ages have dates and
      agree or one directive forbids storing, or some age has no date and nothing forbids storing. */
  lemma OrderFreeExactly(ds: seq<string>, info: CacheInfo, now: int, kind: Classifier)
    ensures (forall es | Permuted(ds, es) :: Decision(es, info, now, kind) == Decision(ds, info, now, kind))
            <==> Orderless(ds, now, kind)
  {
    if Orderless(ds, now, kind) {
      forall es | Permuted(ds, es) ensures Decision(es, info, now, kind) == Decision(ds, info, now, kind) {
        SameMembers(ds, es);
        SameDirectives(ds, es, info, now, kind);
      }
    } else if AllDatable(ds, now, kind) {
      AgesDiffer(ds, info, now, kind);
    } else {
      FaultDiffers(ds, info, now, kind);
    }
  }

  lemma FaultDiffers(ds: seq<string>, info: CacheInfo, now: int, kind: Classifier)
    requires !AllDatable(ds, now, kind) && Exists(ds, kind, Forbids)
    ensures exists es, fs ::
              Permuted(ds, es) && Permuted(ds, fs) && Decision(es, info, now, kind) != Decision(fs, info, now, kind)
  {
    var c, d :| c in ds && d in ds && Undatable(kind(c), now) && kind(d) == Forbids;
    var i, j :| 0 <= i < |ds| && 0 <= j < |ds| && ds[i] == c && ds[j] == d;
    var es, fs := ToFront(ds, i), ToFront(ds, j);
    assert Permuted(ds, es) && Permuted(ds, fs);
    assert Decision(es, info, now, kind) == Fault && Decision(fs, info, now, kind) == Forbidden;
  }

  lemma AgesDiffer(ds: seq<string>, info: CacheInfo, now: int, kind: Classifier)
    requires AllDatable(ds, now, kind) && !OneAge(ds, kind) && !Exists(ds, kind, Forbids)
    ensures exists es, fs ::
              Permuted(ds, es) && Permuted(ds, fs) && Decision(es, info, now, kind) != Decision(fs, info, now, kind)
  {
    var c, d :| c in ds && d in ds && kind(c).MaxAge? && kind(d).MaxAge? && kind(c) != kind(d);
    var i, j :| 0 <= i < |ds| && 0 <= j < |ds| && ds[i] == c && ds[j] == d;
    var es, fs := ToEnd(ds, i), ToEnd(ds, j);
    assert Permuted(ds, es) && Permuted(ds, fs);
    LastOfPermuted(ds, es, info, now, kind);
    LastOfPermuted(ds, fs, info, now, kind);
  }

  lemma LastOfPermuted(ds: seq<string>, es: seq<string>, info: CacheInfo, now: int, kind: Classifier)
    requires AllDatable(ds, now, kind) && !Exists(ds, kind, Forbids) && Permuted(ds, es) && |es| > 0
             && kind(es[|es| - 1]).MaxAge?
    ensures Decision(es, info, now, kind).Allowed?
    ensures Decision(es, info, now, kind).info.expiry == Some(now + kind(es[|es| - 1]).age)
  {
    SameMembers(ds, es);
    SameExists(ds, es, kind, Forbids);
    SameDatable(ds, es, now, kind);
    AgeAtEnd(es, info, now, kind);
  }
}
