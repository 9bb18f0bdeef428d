/** The Host line of a request by its text (threadPool.c, `parseRequest`). */
module RequestFields {
  import opened CStrings
  import opened LineLoop
  import opened RequestParser
  import opened RequestTheorems

  /** The line at `p` is named Host, in any case. */
  predicate HostNamed(t: string, p: nat) {
    p + 4 < |t| && SameIgnoringCase(t[p..p + 4], "Host") && t[p + 4] == ':'
  }

  ghost function HostLines(t: string): nat -> bool {
    (p: nat) => HostNamed(t, p)
  }

  /** Characters that are stripped from the end of a host: signed ones below 32. */
  predicate Unprintable(c: char) {
    c as int < 32 || c as int >= 128
  }

  function Printable(h: string): string {
    if h != "" && Unprintable(h[|h| - 1]) then h[..|h| - 1] else h
  }

  /** The line [p..e) is "Host:", one more character, the host, and possibly a port. */
  ghost predicate HostLine(t: string, p: nat, e: nat, host: string) {
    && HostNamed(t, p) && p + 6 + |host| <= e <= |t| && host != "" && ':' !in host
    && t[p + 5] != ':' && t[p + 6..p + 6 + |host|] == host
    && (p + 6 + |host| < e ==> t[p + 6 + |host|] == ':')
  }

  lemma NameIsHost(t: string, p: nat, e: nat)
    requires p <= e <= |t| && HostNamed(t, p) && p + 4 < e
    ensures Within(t, p, e, ':') == p + 4
  {
    var n := "Host";
    assert n[0] == 'H' && n[1] == 'o' && n[2] == 's' && n[3] == 't' && |n| == 4;
    var s := t[p..p + 4];
    assert s[0] == t[p] && s[1] == t[p + 1] && s[2] == t[p + 2] && s[3] == t[p + 3];
  }

  lemma HostEnds(t: string, p: nat, e: nat, host: string)
    requires HostLine(t, p, e, host)
    ensures Within(t, p + 5, e, ':') == p + 6 + |host|
  {
    forall i | p + 6 <= i < p + 6 + |host| ensures t[i] != ':' {
      assert t[i] == t[p + 6..p + 6 + |host|][i - p - 6];
    }
  }

  /** Such a line gives this host, less one unprintable character at its end. */
  lemma HostByText(t: string, p: nat, e: nat, host: string, before: Option<string>)
    requires HostLine(t, p, e, host)
    ensures HostAfter(t, p, e, before) == Some(Some(Printable(host)))
  {
    NameIsHost(t, p, e);
    HostEnds(t, p, e, host);
  }

  /** A line with another name gives none. */
  lemma OtherLine(t: string, p: nat, e: nat, before: Option<string>)
    requires p <= e <= |t| && Within(t, p, e, ':') < e && !HostNamed(t, p)
    ensures HostAfter(t, p, e, before) == Some(before)
  {
    var c := Within(t, p, e, ':');
    assert t[c] == ':';
    assert |"Host"| == 4;
  }

  // ----- The last Host line -----

  /** The host that the line at `p` gives, if it is a Host line. */
  ghost function HostAt(t: string): nat -> Option<string> {
    (p: nat) => if p > |t| then None else Given(HostAfter(t, p, Find(t, p, '\n'), None))
  }

  function Given(h: Option<Option<string>>): Option<string> {
    if h == None then None else h.value
  }

  ghost predicate AnyFields(f: Fields) { true }

  lemma HostDecides(t: string, end: nat)
    requires NulFree(t)
    ensures Decides(t, end, RequestRule, HasColon, AnyFields, HostLines(t), (f: Fields) => f.host, HostAt(t))
  {
    forall p: nat, f: Fields | LineOf(t, p, end) && HasColon(t, p, Find(t, p, '\n'), false)
      ensures var step := RequestRule(t, p, Find(t, p, '\n'), false, f);
              step.Next? ==> step.fields.host == if HostNamed(t, p) then HostAt(t)(p) else f.host
    {
      LineGivesHost(t, p, f);
    }
  }

  lemma LineGivesHost(t: string, p: nat, f: Fields)
    requires NulFree(t) && p <= |t| && HasColon(t, p, Find(t, p, '\n'), false)
    ensures var step := RequestRule(t, p, Find(t, p, '\n'), false, f);
            step.Next? ==> step.fields.host == if HostNamed(t, p) then HostAt(t)(p) else f.host
  {
    var e := Find(t, p, '\n');
    if HostNamed(t, p) {
      LineGoesOn(t, p);
      NameIsHost(t, p, e);
    } else {
      OtherLine(t, p, e, f.host);
    }
  }

  lemma LineGoesOn(t: string, p: nat)
    requires NulFree(t) && HostNamed(t, p)
    ensures p + 4 < Find(t, p, '\n')
  {
    var n := "Host";
    assert n[0] == 'H' && n[1] == 'o' && n[2] == 's' && n[3] == 't' && |n| == 4;
    var s := t[p..p + 4];
    assert s[0] == t[p] && s[1] == t[p + 1] && s[2] == t[p + 2] && s[3] == t[p + 3];
  }

  /** The last Host line decides the host. */
  lemma LastHostDecides(t: string, end: nat)
    requires NulFree(t) && HeadersOf(t) == Some(end) && ReadRequest(t).Some?
    ensures forall p: nat | LastOf(t, end, HostLines(t), p) :: ReadRequest(t).value.host == HostAt(t)(p)
    ensures NoneFrom(t, 1, end, HostLines(t)) ==> ReadRequest(t).value.host == None
  {
    GathersRequest(t);
    GathersFirst(t);
    FirstHasNoHost(t);
    RuleIsLawful();
    HostDecides(t, end);
    FromFirstLine(t, end, FirstFields(t), ReadRequest(t).value, RequestRule, EndsHeaders, HasColon, AnyFields,
                  HostLines(t), (f: Fields) => f.host, HostAt(t));
  }

  /** What decides a field from the first line on decides it in the whole section. */
  lemma FromFirstLine(t: string, end: nat, f: Fields, g: Fields, rule: Rule<Fields>, stop: Test, good: Test,
                      inv: Fields -> bool, touches: nat -> bool, proj: Fields -> Option<string>,
                      val: nat -> Option<string>)
    requires NulFree(t) && Find(t, 0, '\n') < |t| && inv(f)
    requires SectionEnd(t, Find(t, 0, '\n') + 1, false, stop, good) == Some(end)
    requires Lawful(rule, stop, good) && Decides(t, end, rule, good, inv, touches, proj, val)
    requires Gather(t, Find(t, 0, '\n') + 1, false, f, rule) == Some(g)
    ensures forall p: nat | LastOf(t, end, touches, p) :: proj(g) == val(p)
    ensures NoneFrom(t, 1, end, touches) ==> proj(g) == proj(f)
  {
    var e := Find(t, 0, '\n');
    LastDecides(t, e + 1, end, f, g, rule, stop, good, inv, touches, proj, val);
    assert forall p: nat | LineOf(t, p, end) :: e < p;
  }

  /** The host of a request with closed headers is the one in its last Host line. */
  lemma HostRead(t: string, end: nat, p: nat, host: string)
    requires NulFree(t) && HeadersOf(t) == Some(end) && ReadRequest(t).Some?
    requires LastOf(t, end, HostLines(t), p) && HostLine(t, p, Find(t, p, '\n'), host)
    ensures ReadRequest(t).value.host == Some(Printable(host))
  {
    LastHostDecides(t, end);
    HostByText(t, p, Find(t, p, '\n'), host, None);
  }

  /** Without a Host line there is none. */
  lemma NoHostRead(t: string, end: nat)
    requires NulFree(t) && HeadersOf(t) == Some(end) && ReadRequest(t).Some?
    requires forall p: nat | LineOf(t, p, end) :: !HostNamed(t, p)
    ensures ReadRequest(t).value.host == None
  {
    LastHostDecides(t, end);
  }
}
