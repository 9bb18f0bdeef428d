/** `parseRequest` (threadPool.c): reads the request line and the Host header out of a buffer
    by punching NULs over separators and writing the separators back. */
module RequestParser {
  import opened CStrings
  import opened LineLoop
  import opened Holes

  /** The fields the parser fills in. `None` is a pointer the C code leaves unset. */
  datatype Fields = Fields(reqType: nat, isHttps: bool, host: Option<string>, uri: Option<string>, reqLine: string)

  datatype Outcome =
    | Rejected                // text too short
    | Fault                   // undefined behaviour: NULL dereference or an access outside a buffer
    | Parsed(fields: Fields)

  const GET := "GET"
  const CONNECT := "CONNECT"
  const POST := "POST"
  const HTTP_1_0 := "HTTP/1.0\r"
  const HTTP_1_1 := "HTTP/1.1\r"
  const HOST := "Host"

  const NO_FIELDS := Fields(0, false, None, None, "")

  // ----- What is read from the pieces of the text -----

  function Word(word: string, f: Fields): Fields {
    if SameIgnoringCase(word, GET) then f.(reqType := 0)
    else if SameIgnoringCase(word, CONNECT) then f.(reqType := 1, isHttps := true)
    else if SameIgnoringCase(word, POST) then f.(reqType := 2)
    else if SameIgnoringCase(word, HTTP_1_0) || SameIgnoringCase(word, HTTP_1_1) then f
    else f.(uri := Some(word))
  }

  /** The words of a line from `p` on, separated by single spaces, taken in order. */
  ghost function Words<F>(line: string, p: nat, f: F, word: (string, F) -> F): F
    requires p <= |line|
    decreases |line| - p
  {
    var q := Find(line, p, ' ');
    var g := word(line[p..q], f);
    if q < |line| then Words(line, q + 1, g, word) else g
  }

  /** Signed characters below 32, which include those above 127, are stripped from the end. */
  function Strip(h: string): string
    requires h != ""
  {
    var c := h[|h| - 1];
    if c < ' ' || c as int >= 128 then h[..|h| - 1] else h
  }

  /** The host read from a Host line [p..e) of `t` whose value starts at `v`: the text after
      the value's first character, up to a port colon. A value that is empty, or starts with
      a colon, makes the parser read past the hole it has just punched. */
  ghost function HostText(t: string, v: nat, e: nat): string
    requires v <= e <= |t|
  {
    var q := Within(t, v, e, ':');
    if q > v then t[v + 1..q]
    else if q < e then t[v + 1..e]
    else if e < |t| then t[e + 1..]
    else ""
  }

  /** The text once the separators of the line that ends at `e` are written back. A header line
      without a colon gets its newline overwritten by one, and the newline goes to the end. */
  function Restored(t: string, e: nat, colonLost: bool): string {
    if colonLost then (if e < |t| then t[e := ':'] else t + ":") + "\n"
    else if e < |t| then t
    else t + "\n"
  }

  /** The host once the header line [p..e) is read; `None` if reading it is undefined. */
  ghost function HostAfter(t: string, p: nat, e: nat, host: Option<string>): Option<Option<string>>
    requires p <= e <= |t|
  {
    var c := Within(t, p, e, ':');
    if !SameIgnoringCase(t[p..c], HOST) then Some(host)
    else if c == e then None
    else
      var h := HostText(t, c + 1, e);
      if h == "" then None else Some(Some(Strip(h)))
  }

  ghost function RequestRule(t: string, p: nat, e: nat, first: bool, f: Fields): Step<Fields> {
    if !(p <= e <= |t|) then Failed
    else if first then Next(Restored(t, e, false), Words(t[p..e], 0, f, Word).(reqLine := t[p..e]))
    else if p < e && t[p] == '\r' then Stop
    else
      var h := HostAfter(t, p, e, f.host);
      if h == None then Failed else Next(Restored(t, e, Within(t, p, e, ':') == e), f.(host := h.value))
  }

  /** The body step and the two final newlines: the buffer text that the parser leaves. */
  ghost function Finish(t: string, rest: Ptr): string
    requires rest.At? ==> rest.i <= |t|
  {
    if rest.Null? then t + "\n"
    else
      var k := Find(t, rest.i, '\n');
      if k == rest.i then t[..k]
      else if k < |t| then t
      else t + "\n"
  }

  /** The fields and the text left in a buffer of `room` characters that held `t`. */
  ghost function Parse(t: string, room: nat): (Outcome, string)
    requires |t| < room
  {
    if |t| <= 4 then (Rejected, t)
    else
      match Loop(t, At(0), true, NO_FIELDS, room, RequestRule)
      case Broken => (Fault, t)
      case Stopped(u, rest, _, f) =>
        if |Finish(u, rest)| >= room then (Fault, t) else (Parsed(f), Finish(u, rest))
  }

  /** All of a buffer of `room` characters after that: where the body's first line ends there is
      a newline or, behind an empty one, still the NUL punched over it. */
  ghost function Leaves(t: string, rest: Ptr, room: nat): string
    requires |t| < room && (rest.At? ==> rest.i <= |t|)
  {
    var k := if rest.Null? then |t| else Find(t, rest.i, '\n');
    Pad(t, room)[k := if rest.At? && k == rest.i then NUL else '\n']
  }

  /** What a buffer of `room` characters that held `t` holds once the request is parsed. */
  ghost function Residue(t: string, room: nat): string
    requires |t| < room
  {
    match Loop(t, At(0), true, NO_FIELDS, room, RequestRule)
    case Broken => t
    case Stopped(u, rest, _, _) => if |u| < room then Leaves(u, rest, room) else u
  }

  // ----- The parser on the buffer -----

  /** Cuts one word off the line at the start of the buffer and puts the space back. */
  method CutWord(a: array<char>, word: nat, ghost s: string) returns (line: Ptr, n: nat)
    requires Begins(a[..], s) && word <= |s|
    modifies a
    ensures a[..] == old(a[..])
    ensures var q := Find(s, word, ' '); word + n == q && line == if q < |s| then At(q + 1) else Null
  {
    ghost var b := a[..];
    ghost var q := Find(s, word, ' ');
    BeginsAt(b, s);
    FindUpTo(b, s, word, ' ');
    line := StrSep(a, word, ' ');
    assert a[q] == NUL;
    n := StrLen(a, word);
    assert forall i | 0 <= i < q :: a[i] == b[i];
    assert word + n == q;
    if line.At? {
      var h := PutAtEnd(a, 0, ' ');
      assert h == q;
      assert a[..] == b;
    }
  }

  /** strsep on spaces over the line at the start of the buffer, every word put back. */
  method EachWord<F>(a: array<char>, f: F, word: (string, F) -> F, ghost s: string) returns (g: F)
    requires Begins(a[..], s)
    modifies a
    ensures a[..] == old(a[..])
    ensures g == Words(s, 0, f, word)
  {
    BeginsAt(a[..], s);
    var line := At(0);
    g := f;
    while line.At?
      invariant a[..] == old(a[..])
      invariant line.At? ==> line.i <= |s| && Words(s, 0, f, word) == Words(s, line.i, g, word)
      invariant line.Null? ==> Words(s, 0, f, word) == g
      decreases if line.At? then 1 + |s| - line.i else 0
    {
      var p := line.i;
      var len: nat;
      line, len := CutWord(a, p, s);
      assert a[p..p + len] == s[p..p + len];
      g := word(a[p..p + len], g);
    }
  }

  method ParseFirstLine(a: array<char>, f: Fields, ghost s: string) returns (g: Fields)
    requires Begins(a[..], s)
    modifies a
    ensures a[..] == old(a[..])
    ensures g == Words(s, 0, f, Word).(reqLine := s)
  {
    BeginsAt(a[..], s);
    var n := StrLen(a, 0);
    assert n == |s|;
    var reqLine := a[..n];
    g := EachWord(a, f, Word, s);
    g := g.(reqLine := reqLine);
  }

  /** With holes before the value, at its colon and at the line's end, the host stands behind the
      value's first character. */
  lemma HostAt(b: string, t: string, v: nat, e: nat, c: string)
    requires Punched(b, t, e) && 0 < v <= e && v + 1 < |b| && c == b[v - 1 := NUL][Within(t, v, e, ':') := NUL]
    ensures var h := HostText(t, v, e);
            && NulFree(h) && v + 1 + |h| < |c| && c[v + 1 + |h|] == NUL
            && forall k | 0 <= k < |h| :: c[v + 1 + k] == h[k]
  {
    PunchedAt(b, t, e);
    var h, q := HostText(t, v, e), Within(t, v, e, ':');
    assert forall k | 0 <= k < |h| :: h[k] == t[if q == e == v then e + 1 + k else v + 1 + k];
  }

  /** The C string that `hostName + 1` points to, the value's hole being at `v - 1`. */
  method CopyHost(a: array<char>, v: nat, ghost e: nat, ghost b: string, ghost t: string) returns (h: string)
    requires Punched(b, t, e) && 0 < v <= e
    requires ghost var q := Within(t, v, e, ':'); a[..] == b[v - 1 := NUL][q := NUL]
    ensures h == HostText(t, v, e)
  {
    if v + 1 == a.Length { return ""; }
    HostAt(b, t, v, e, a[..]);
    h := Copy(a, v + 1, HostText(t, v, e));
  }

  method ParseHost(a: array<char>, v: nat, ghost e: nat, ghost b: string, ghost t: string)
    returns (host: Option<string>)
    requires Punched(b, t, e) && 0 < v <= e && a[..] == b[v - 1 := NUL]
    modifies a
    ensures var h := HostText(t, v, e);
            if h == "" then host == None else host == Some(Strip(h)) && a[..] == old(a[..])
  {
    PunchedAt(b, t, e);
    ghost var q := Within(t, v, e, ':');
    FindWithin(a[..], t, v, e, ':');
    assert a[e] == NUL;
    var line := StrSep(a, v, ':');
    assert a[..] == b[v - 1 := NUL][q := NUL];
    var h := CopyHost(a, v, e, b, t);
    if h == "" { return None; }
    host := Some(Strip(h));
    if line.At? {
      assert a[q] == NUL;
      var z := PutAtEnd(a, v, ':');
      assert z == q;
      assert a[..] == b[v - 1 := NUL];
    }
  }

  method ParseHeader(a: array<char>, p: nat, ghost e: nat, f: Fields, ghost t: string) returns (ok: bool, g: Fields)
    requires Punched(a[..], t, e) && p <= e
    modifies a
    ensures var h := HostAfter(t, p, e, f.host);
            ok == h.Some? && (ok ==> g == f.(host := h.value))
    ensures ok ==> a[..] == old(a[..])[Within(t, p, e, ':') := ':']
  {
    ghost var b := a[..];
    var line, n := CutName(a, p, e, t);
    ok, g := true, f;
    if SameIgnoringCase(a[p..p + n], HOST) {
      if line.Null? { return false, f; }
      var host := ParseHost(a, line.i, e, b, t);
      if host == None { return false, f; }
      g := f.(host := host);
    }
    assert Begins(b, t[..e]) by { PunchedAt(b, t, e); }
    RestoreColon(a, p, p + n, b, t[..e]);
  }

  /** Writes the newline back at the first NUL of the buffer; without a terminator left in the
      buffer the C code runs past its end. */
  method RestoreNewline(a: array<char>, ghost e: nat, ghost t: string, ghost colonLost: bool) returns (ok: bool)
    requires NulFree(t) && e <= |t| < a.Length && (e < |t| ==> t[e] == '\n')
    requires a[..] == Pad(t, a.Length)[e := if colonLost then ':' else NUL]
    modifies a
    ensures ok <==> |Restored(t, e, colonLost)| < a.Length
    ensures ok ==> Holds(a[..], Restored(t, e, colonLost))
  {
    ghost var len := a.Length;
    HoldsAt(Pad(t, len), t);
    if a[a.Length - 1] != NUL { return false; }
    ghost var b := a[..];
    var z := PutAtEnd(a, 0, '\n');
    ok := a[a.Length - 1] == NUL;
    if !colonLost {
      assert b[e] == NUL && forall i | 0 <= i < e :: b[i] == t[i];
      assert z == e;
      if e < |t| {
        assert a[..] == Pad(t, len)[e := '\n'] == Pad(t, len);
      } else if ok {
        HoldsAppend(Pad(t, len), t, '\n');
        assert a[..] == Pad(t, len)[|t| := '\n'];
      }
    } else {
      ghost var w := if e < |t| then t[e := ':'] else t + ":";
      assert Holds(b, w) by {
        if e < |t| { HoldsReplace(Pad(t, len), t, e, ':'); } else { HoldsAppend(Pad(t, len), t, ':'); }
      }
      HoldsAt(b, w);
      assert b[|w|] == NUL;
      assert z == |w|;
      if ok { HoldsAppend(b, w, '\n'); }
    }
  }

  /** One line of the loop, cut off at `e`: its fields, and the buffer with separators back. */
  method ParseLine(a: array<char>, p: nat, ghost e: nat, first: bool, f: Fields, ghost t: string)
    returns (ok: bool, g: Fields)
    requires Punched(a[..], t, e) && p <= e && (first ==> p == 0) && (e < |t| ==> t[e] == '\n')
    requires !first ==> p == e || t[p] != '\r'
    modifies a
    ensures var step := RequestRule(t, p, e, first, f);
            && ok == (step.Next? && |step.t| < a.Length)
            && (ok ==> g == step.fields && Holds(a[..], step.t))
  {
    ghost var b := a[..];
    PunchedAt(b, t, e);
    if first {
      assert t[0..e] == t[..e];
      g := ParseFirstLine(a, f, t[..e]);
      ok := RestoreNewline(a, e, t, false);
    } else {
      ok, g := ParseHeader(a, p, e, f, t);
      if !ok { return; }
      ghost var c := Within(t, p, e, ':');
      assert c < e ==> a[..] == b;
      ok := RestoreNewline(a, e, t, c == e);
    }
  }

  /** Cuts off the first line of the body. */
  method CutBody(a: array<char>, j: nat, ghost t: string) returns (empty: bool)
    requires NulFree(t) && j <= |t| < a.Length
    requires forall i | j <= i < a.Length :: a[i] == if i < |t| then t[i] else NUL
    modifies a
    ensures var k := Find(t, j, '\n'); a[..] == old(a[..])[k := NUL] && empty == (k == j)
  {
    ghost var b := a[..];
    ghost var k := Find(t, j, '\n');
    FindUpTo(b, t, j, '\n');
    assert b[|t|] == NUL;
    var next := StrSep(a, j, '\n');
    assert a[..] == b[k := NUL];
    assert a[k] == NUL;
    var n := StrLen(a, j);
    assert j + n == k;
    empty := n == 0;
  }

  /** What the restored buffer holds: `t` again, `t` and a newline, or `t` cut off at `k`. */
  lemma BodyText(t: string, b: string, rest: Ptr, k: nat)
    requires NulFree(t) && |t| < |b| && k <= |t|
    requires if rest.Null? then k == |t| else rest.i <= |t| && k == Find(t, rest.i, '\n')
    requires b == Pad(t, |b|)[k := if rest.At? && k == rest.i then NUL else '\n']
    requires b[|b| - 1] == NUL
    ensures var u := Finish(t, rest); |u| < |b| && TextOf(b) == u
  {
    HoldsAt(Pad(t, |b|), t);
    var u := Finish(t, rest);
    assert forall i | 0 <= i < |u| :: b[i] == u[i];
    assert Begins(b, u);
    TextOfIs(b, u);
  }

  /** Cuts off the first line of the body, if there is one, behind the hole that is left. */
  method CutFirst(a: array<char>, ghost t: string, hole: nat, rest: Ptr) returns (empty: bool, ghost k: nat)
    requires NulFree(t) && |t| < a.Length && hole <= |t| && a[..] == Pad(t, a.Length)[hole := NUL]
    requires if rest.Null? then hole == |t| else rest.i == hole + 1 <= |t| && t[hole] == '\n'
    modifies a
    ensures k == (if rest.Null? then |t| else Find(t, rest.i, '\n')) && empty == (rest.Null? || k == rest.i)
    ensures a[..] == Pad(t, a.Length)[hole := NUL][k := NUL]
  {
    ghost var pad := Pad(t, a.Length);
    HoldsAt(pad, t);
    k, empty := |t|, true;
    if rest.At? {
      k := Find(t, rest.i, '\n');
      empty := CutBody(a, rest.i, t);
    }
    assert a[..] == pad[hole := NUL][k := NUL];
  }

  /** Fills the hole behind the headers, and the one in the body unless that is empty. */
  method FillHoles(a: array<char>, ghost t: string, ghost hole: nat, ghost k: nat, empty: bool)
    requires NulFree(t) && |t| < a.Length && hole <= k <= |t| && a[..] == Pad(t, a.Length)[hole := NUL][k := NUL]
    requires (hole < |t| ==> t[hole] == '\n') && (hole == k ==> k == |t| && empty)
    modifies a
    ensures a[..] == Pad(t, a.Length)[k := if empty && hole < k then NUL else '\n']
  {
    ghost var pad := Pad(t, a.Length);
    HoldsAt(pad, t);
    assert a[hole] == NUL;
    var z := PutAtEnd(a, 0, '\n');
    assert z == hole;
    assert a[..] == if hole < k then pad[k := NUL] else pad[k := '\n'];
    if !empty {
      assert a[k] == NUL && forall i | 0 <= i < k :: a[i] == t[i];
      z := PutAtEnd(a, 0, '\n');
      assert z == k;
    }
  }

  /** The body: cuts off its first line and writes newlines back, or appends one. */
  method ParseBody(a: array<char>, ghost t: string, hole: nat, rest: Ptr) returns (ok: bool)
    requires NulFree(t) && |t| < a.Length && hole <= |t| && a[..] == Pad(t, a.Length)[hole := NUL]
    requires if rest.Null? then hole == |t| else rest.i == hole + 1 <= |t| && t[hole] == '\n'
    modifies a
    ensures var u := Finish(t, rest);
            ok == (|u| < a.Length)
            && (ok ==> TextOf(a[..]) == u && a[..] == Leaves(t, rest, a.Length) && a[a.Length - 1] == NUL)
  {
    var empty;
    ghost var k;
    empty, k := CutFirst(a, t, hole, rest);
    FillHoles(a, t, hole, k, empty);
    ok := a[a.Length - 1] == NUL;
    if ok { BodyText(t, a[..], rest, k); }
  }

  /** After the loop: the hole left at the end of the terminator line or of the text. */
  ghost predicate HoleAt(b: string, t: string, rest: Ptr, hole: nat) {
    && NulFree(t) && |t| < |b| && hole <= |t| && b == Pad(t, |b|)[hole := NUL]
    && if rest.Null? then hole == |t| else rest.i == hole + 1 <= |t| && t[hole] == '\n'
  }

  /** One pass of the line loop: `v` is the text the buffer holds afterwards. */
  method LoopPass(a: array<char>, p: nat, first: bool, f: Fields, ghost t: string)
    returns (status: Status, rest: Ptr, g: Fields, hole: nat, ghost v: string)
    requires Holds(a[..], t) && p <= |t| && (first ==> p == 0)
    modifies a
    ensures rest == After(t, Find(t, p, '\n'))
    ensures match RequestRule(t, p, Find(t, p, '\n'), first, f)
            case Failed => status == Bad
            case Stop => status == Stopping && g == f && v == t && HoleAt(a[..], t, rest, hole)
            case Next(u, h) => if |u| >= a.Length then status == Bad
                               else status == GoOn && v == u && g == h && Holds(a[..], v)
  {
    ghost var e := Find(t, p, '\n');
    rest := CutLine(a, p, t);
    PunchedAt(a[..], t, e);
    v, g, hole := t, f, p;
    if !first && a[p] == '\r' {
      var n := StrLen(a, p);
      status, hole := Stopping, p + n;
      assert hole == e;
    } else {
      ghost var step := RequestRule(t, p, e, first, f);
      var ok: bool;
      ok, g := ParseLine(a, p, e, first, f, t);
      status := if ok then GoOn else Bad;
      if ok { v := step.t; }
    }
  }

  /** Every line of the rule leaves at least what it has passed. */
  lemma RuleGrows(t: string, p: nat, e: nat, first: bool, f: Fields)
    requires p <= e <= |t|
    ensures var step := RequestRule(t, p, e, first, f); step.Next? ==> |t| <= |step.t| && e < |step.t|
  {
  }

  /** The line loop. */
  method ParseLines(a: array<char>, ghost t: string)
    returns (ok: bool, rest: Ptr, g: Fields, hole: nat, ghost v: string)
    requires Holds(a[..], t)
    modifies a
    ensures match Loop(t, At(0), true, NO_FIELDS, a.Length, RequestRule)
            case Broken => !ok
            case Stopped(u, r, _, f) => ok && u == v && r == rest && f == g && HoleAt(a[..], v, rest, hole)
  {
    ghost var all := Loop(t, At(0), true, NO_FIELDS, a.Length, RequestRule);
    var status, first := GoOn, true;
    rest, g, hole, v := At(0), NO_FIELDS, 0, t;
    while rest.At? && status == GoOn
      invariant status == GoOn ==> Holds(a[..], v)
      invariant status == GoOn && rest.At? ==> rest.i <= |v| && (first ==> rest.i == 0)
      invariant status == GoOn ==> Loop(v, rest, first, g, a.Length, RequestRule) == all
      invariant status == Bad ==> all == Broken
      invariant status == Stopping ==> all == Stopped(v, rest, true, g) && HoleAt(a[..], v, rest, hole)
      decreases if status != GoOn then 0 else if rest.Null? then 1 else 2 + a.Length - rest.i
    {
      RuleGrows(v, rest.i, Find(v, rest.i, '\n'), first, g);
      status, rest, g, hole, v := LoopPass(a, rest.i, first, g, v);
      first := false;
    }
    ok := status != Bad;
    if status == GoOn { hole := EndHole(a, v); }
  }

  /** With the text used up, the hole is behind it. */
  method EndHole(a: array<char>, ghost t: string) returns (hole: nat)
    requires Holds(a[..], t)
    ensures HoleAt(a[..], t, Null, hole)
  {
    HoldsAt(a[..], t);
    assert a[|t|] == NUL;
    hole := StrLen(a, 0);
    assert a[..] == Pad(t, a.Length)[|t| := NUL];
  }

  /** The parser, on a buffer that holds the text `t` with NULs behind it. */
  method ParseRequest(a: array<char>, ghost t: string) returns (r: Outcome)
    requires Holds(a[..], t)
    modifies a
    ensures r == Parse(t, a.Length).0
    ensures r.Parsed? ==>
              a[..] == Residue(t, a.Length) && TextOf(a[..]) == Parse(t, a.Length).1 && a[a.Length - 1] == NUL
  {
    HoldsAt(a[..], t);
    assert a[|t|] == NUL;
    var n := StrLen(a, 0);
    assert n == |t|;
    if n <= 4 { return Rejected; }
    ghost var u;
    var ok, rest, f, hole;
    ok, rest, f, hole, u := ParseLines(a, t);
    if !ok { return Fault; }
    ok := ParseBody(a, u, hole, rest);
    r := if ok then Parsed(f) else Fault;
  }
}
