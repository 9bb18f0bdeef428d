/** What Cache-Control directives do, by their texts: whether a response is stored, and what later
    requests for it are answered (threadPool.c, `parseCacheHeaders` and `cacheable`). */
module Directives {
  import opened CStrings
  import opened CacheControl
  import opened CacheControlTheorems
  import opened Freshness

  predicate ForbidsStoring(d: string) {
    SameIgnoringCase(d, "no-store") || d == "private"
  }

  predicate DemandsRevalidation(d: string) {
    StartsIgnoringCase(d, "must-revalidate") || d == "proxy-revalidate" || d == "no-cache"
  }

  predicate GivesAge(d: string) {
    StartsIgnoringCase(d, "max-age=")
  }

  /** The number behind "max-age=". */
  function AgeOf(d: string): int {
    if |d| < 8 then 0 else StrToL(d[8..])
  }

  lemma FirstLetters(d: string)
    ensures GivesAge(d) ==> Lower(d[0]) == 'm' && Lower(d[1]) == 'a'
    ensures ForbidsStoring(d) ==> Lower(d[0]) in "np"
    ensures DemandsRevalidation(d) ==> Lower(d[0]) in "np" || Lower(d[1]) == 'u'
    ensures !(ForbidsStoring(d) && DemandsRevalidation(d))
  {
    var n, m, a := "no-store", "must-revalidate", "max-age=";
    assert |n| == 8 && |m| == 15 && |a| == 8;
    assert n[0] == 'n' && n[3] == 's' && m[0] == 'm' && m[1] == 'u' && a[0] == 'm' && a[1] == 'a';
    if StartsIgnoringCase(d, m) {
      assert d[..15][1] == d[1] && d[..15][0] == d[0];
    }
    if StartsIgnoringCase(d, a) {
      assert d[..8][1] == d[1] && d[..8][0] == d[0];
    }
  }

  /** The kind of a directive is that of its text. */
  lemma KindOfText(d: string)
    ensures Classify(d) == Forbids <==> ForbidsStoring(d)
    ensures Classify(d) == Revalidates <==> DemandsRevalidation(d)
    ensures Classify(d).MaxAge? <==> GivesAge(d)
    ensures GivesAge(d) ==> Classify(d) == MaxAge(AgeOf(d))
  {
    FirstLetters(d);
    assert |"max-age="| == 8;
  }

  /** The age is the number behind the equals sign. */
  lemma AgeIsNumber(d: string, n: nat, rest: string)
    requires n <= LONG_MAX && (rest == "" || !IsDigit(rest[0]))
    requires d == "max-age=" + (Decimal(n) + rest)
    ensures GivesAge(d) && AgeOf(d) == n
  {
    assert d[..8] == "max-age=" && d[8..] == Decimal(n) + rest;
    NumberReadBack(n, rest);
  }


  // ----- A list of directives -----

  type Test = string -> bool
  type Number = string -> int

  /** An age without a date, with nothing before it that forbids storing. */
  ghost predicate BreaksCalendar(ds: seq<string>, now: int, forbids: Test, gives: Test, age: Number) {
    exists i | 0 <= i < |ds| ::
      gives(ds[i]) && !Datable(now + age(ds[i])) && forall j | 0 <= j < i :: !forbids(ds[j])
  }

  ghost predicate Any(ds: seq<string>, p: Test) {
    exists i | 0 <= i < |ds| :: p(ds[i])
  }

  /** What a list amounts to if these tests tell the directives apart. */
  ghost predicate AmountsBy(v: Verdict, ds: seq<string>, now: int, forbids: Test, demands: Test, gives: Test,
                            age: Number) {
    && (v.Fault? <==> BreaksCalendar(ds, now, forbids, gives, age))
    && (v.Forbidden? <==> !v.Fault? && Any(ds, forbids))
    && (v.Allowed? ==>
          && v.info.eTag == None
          && (v.info.needsRevalidation <==> Any(ds, demands))
          && (var k := LastIndex(ds, gives); v.info.expiry == if k == 0 then None else Some(now + age(ds[k - 1]))))
  }

  ghost predicate TellsApart(kind: Classifier, forbids: Test, demands: Test, gives: Test, age: Number) {
    forall d ::
      && (kind(d) == Forbids <==> forbids(d))
      && (kind(d) == Revalidates <==> demands(d))
      && (kind(d).MaxAge? <==> gives(d))
      && (gives(d) ==> kind(d).age == age(d))
  }

  lemma AnyAgrees(ds: seq<string>, kind: Classifier, k: Kind, p: Test)
    requires forall i | 0 <= i < |ds| :: kind(ds[i]) == k <==> p(ds[i])
    ensures Exists(ds, kind, k) <==> Any(ds, p)
  {
    if d :| d in ds && kind(d) == k {
      var i :| 0 <= i < |ds| && ds[i] == d;
      assert p(ds[i]);
    }
  }

  lemma BreaksAgrees(ds: seq<string>, now: int, kind: Classifier, forbids: Test, gives: Test, age: Number)
    requires forall i | 0 <= i < |ds| ::
               (kind(ds[i]) == Forbids <==> forbids(ds[i]))
               && (Undatable(kind(ds[i]), now) <==> gives(ds[i]) && !Datable(now + age(ds[i])))
    ensures UndatableFirst(ds, now, kind) <==> BreaksCalendar(ds, now, forbids, gives, age)
  {
    if i :| 0 <= i < |ds| && gives(ds[i]) && !Datable(now + age(ds[i])) && forall j | 0 <= j < i :: !forbids(ds[j]) {
      assert Undatable(kind(ds[i]), now);
    }
  }

  lemma MeansDecides(v: Verdict, ds: seq<string>, now: int, kind: Classifier, forbids: Test, demands: Test,
                     gives: Test, age: Number)
    requires Means(v, ds, NO_INFO, now, kind) && TellsApart(kind, forbids, demands, gives, age)
    ensures AmountsBy(v, ds, now, forbids, demands, gives, age)
  {
    AnyAgrees(ds, kind, Forbids, forbids);
    AnyAgrees(ds, kind, Revalidates, demands);
    BreaksAgrees(ds, now, kind, forbids, gives, age);
    SameLastIndex(ds, IsAge(kind), gives);
  }

  /** What a list amounts to, by the texts of its directives. */
  ghost predicate AmountsTo(v: Verdict, ds: seq<string>, now: int) {
    AmountsBy(v, ds, now, ForbidsStoring, DemandsRevalidation, GivesAge, AgeOf)
  }

  lemma TextsTellApart()
    ensures TellsApart(Classify, ForbidsStoring, DemandsRevalidation, GivesAge, AgeOf)
  {
    forall d
      ensures
        && (Classify(d) == Forbids <==> ForbidsStoring(d))
        && (Classify(d) == Revalidates <==> DemandsRevalidation(d))
        && (Classify(d).MaxAge? <==> GivesAge(d))
        && (GivesAge(d) ==> Classify(d).age == AgeOf(d))
    {
      KindOfText(d);
    }
  }

  /** The value of a Cache-Control header that lists these directives. */
  ghost predicate Lists(s: string, ds: seq<string>) {
    |ds| > 0 && (forall d | d in ds :: IsDirective(d)) && (s == Listed(ds, "") || s == Listed(ds, "\r"))
  }

  /** The parser's verdict on such a value, by the texts of the directives. */
  lemma VerdictByText(s: string, ds: seq<string>, now: int)
    requires Lists(s, ds)
    ensures AmountsTo(Decide(s, 0, NO_INFO, now, |s| + 1, Classify, Comma), ds, now)
  {
    VerdictListed(s, ds, now, Classify);
    TextsTellApart();
    MeansDecides(Decide(s, 0, NO_INFO, now, |s| + 1, Classify, Comma), ds, now, Classify, ForbidsStoring,
                 DemandsRevalidation, GivesAge, AgeOf);
  }

  lemma VerdictListed(s: string, ds: seq<string>, now: int, kind: Classifier)
    requires Lists(s, ds)
    ensures Means(Decide(s, 0, NO_INFO, now, |s| + 1, kind, Comma), ds, NO_INFO, now, kind)
  {
    var v := Decide(s, 0, NO_INFO, now, |s| + 1, kind, Comma);
    if s == Listed(ds, "") {
      ListedDecision(ds, s, now, kind, "", v);
    } else {
      ListedDecision(ds, s, now, kind, "\r", v);
    }
  }

  // ----- What a stored response is good for -----

  /** The last age of the list is over. */
  predicate Over(ds: seq<string>, stored: int, now: int, gives: Test, age: Number) {
    var k := LastIndex(ds, gives);
    k > 0 && now >= stored + age(ds[k - 1])
  }

  lemma StaleBy(v: Verdict, ds: seq<string>, stored: int, now: int, forbids: Test, demands: Test, gives: Test,
                age: Number)
    requires AmountsBy(v, ds, stored, forbids, demands, gives, age) && v.Allowed?
    ensures Stale(v.info, now) <==> Over(ds, stored, now, gives, age)
  {
  }

  /** After any run, what a request for an entry is answered, by the directives that the last
      response stored for it came with. */
  lemma AnswerByText(events: seq<Change>, uri: string, now: int, i: nat, s: string, ds: seq<string>)
    requires End(events).Some? && LastFill(events, i, uri) && Lists(s, ds)
    requires var r := events[i].reply; r.control == Some(Decide(s, 0, NO_INFO, r.now, |s| + 1, Classify, Comma))
    ensures !Any(ds, ForbidsStoring)
    ensures var a := Look(End(events).value, uri, now);
            var over := Over(ds, events[i].reply.now, now, GivesAge, AgeOf);
            && (a == Expired <==> over)
            && (a.Revalidate? <==> !over && Any(ds, DemandsRevalidation))
            && (a.Hit? <==> !over && !Any(ds, DemandsRevalidation))
  {
    var r := events[i].reply;
    VerdictByText(s, ds, r.now);
    StaleBy(r.control.value, ds, r.now, now, ForbidsStoring, DemandsRevalidation, GivesAge, AgeOf);
    AnswerExactly(events, uri, now);
  }
}
