/** `parseResponse` (threadPool.c): reads the headers of a response that decide how its body is
    forwarded and whether it is cached, and restores the buffer it reads them from. */
module ResponseParser {
  import opened CStrings
  import opened LineLoop
  import opened Holes
  import opened CacheControl

  /** What the headers say. `control` is the verdict on the last Cache-Control header and `now`
      the time at which it is read; `chunked` is None when no header has set the flag. */
  datatype Reply = Reply(now: int, length: int, chunked: Option<bool>, control: Option<Verdict>, eTag: Option<string>)

  datatype Response =
    | Short                               // text too short: the C code returns -1
    | Fault                               // undefined behaviour
    | Parsed(left: nat, reply: Reply)     // `left`: how many bytes of the body are still to come

  datatype Header = ContentLength | CacheControlHeader | TransferEncoding | ETagHeader | Unknown

  const CONTENT_LENGTH := "Content-Length"
  const CACHE_CONTROL := "Cache-Control"
  const TRANSFER_ENCODING := "Transfer-Encoding"
  const ETAG := "ETag"

  function HeaderOf(name: string): Header {
    if SameIgnoringCase(name, CONTENT_LENGTH) then ContentLength
    else if SameIgnoringCase(name, CACHE_CONTROL) then CacheControlHeader
    else if SameIgnoringCase(name, TRANSFER_ENCODING) then TransferEncoding
    else if StartsIgnoringCase(name, ETAG) then ETagHeader
    else Unknown
  }

  function Start(now: int): Reply { Reply(now, 0, None, None, None) }

  /** The text of a value between its first character and its last. */
  function Inner(value: string): string {
    if |value| < 2 then "" else value[1..|value| - 1]
  }

  /** Reading the `value` behind a header's colon; `None` if that is undefined. */
  ghost function ReadValue(h: Header, value: string, r: Reply): Option<Reply> {
    match h
    case ContentLength => Some(r.(length := Atoi(Inner(value)), chunked := Some(false)))
    case CacheControlHeader =>
      var v := Decide(value, 0, NO_INFO, r.now, |value| + 1, Classify, Comma);
      if v == Verdict.Fault then None else Some(r.(control := Some(v), eTag := None))
    case TransferEncoding => Some(r.(chunked := Some(true)))
    case ETagHeader => if |value| < 2 then None else Some(r.(eTag := Some(Inner(value))))
    case Unknown => Some(r)
  }

  predicate Terminator(t: string, p: nat, e: nat) {
    e == p + 1 && e <= |t| && t[p] == '\r'
  }

  /** What is read as the number of a Content-Length line with its value at [v..e). */
  function NumberText(t: string, v: nat, e: nat): string
    requires v <= e < |t|
  {
    if v == e then t[e + 1..] else Inner(t[v..e])
  }

  /** A Content-Length line [..e) with its value from `v` on. The value's last character becomes
      '\r'. With nothing to replace it is the newline that becomes '\r', and what is read
      as a number is the text behind it. */
  function LengthLine(t: string, v: nat, e: nat, r: Reply): Step<Reply>
    requires 0 < v <= e < |t|
  {
    Next(if v == e then t[e := '\r'] + "\n" else t[e - 1 := '\r'],
         r.(length := Atoi(NumberText(t, v, e)), chunked := Some(false)))
  }

  /** A header line with the name [p..c). One without a colon gets its newline overwritten by a
      colon, and breaks the parser if its name is one whose value is read. */
  ghost function HeaderLine(t: string, p: nat, c: nat, e: nat, r: Reply): Step<Reply>
    requires p <= c <= e < |t|
  {
    var h := HeaderOf(t[p..c]);
    if c == e then if h == Unknown then Next(t[e := ':'] + "\n", r) else Failed
    else if h == ContentLength then LengthLine(t, c + 1, e, r)
    else
      match ReadValue(h, t[c + 1..e], r)
      case None => Failed
      case Some(g) => Next(t, g)
  }

  /** A last line that is no terminator leaves `line` NULL, which is then written behind. */
  ghost function ResponseRule(t: string, p: nat, e: nat, first: bool, r: Reply): Step<Reply> {
    if !(p <= e <= |t|) then Failed
    else if Terminator(t, p, e) then Stop
    else if e == |t| then Failed
    else if first then Next(t, r)
    else HeaderLine(t, p, Within(t, p, e, ':'), e, r)
  }

  // ----- After the loop -----

  function Base(t: string, rest: Ptr): string {
    if rest.At? then t else t + "\n"
  }

  /** How much of the body is missing, as an int; nothing when no byte of it has arrived. */
  function Missing(t: string, rest: Ptr, length: int): int {
    if rest.At? && rest.i < |t| then ToInt(length - (|t| - rest.i)) else 0
  }

  function Closed(t: string, rest: Ptr, length: int): string {
    Base(t, rest) + "\n" + if Missing(t, rest, length) != 0 then "\n" else ""
  }

  /** What comes after the loop. */
  function Ended(t: string, room: nat, rest: Ptr, r: Reply): (Response, string) {
    var m := Missing(t, rest, r.length);
    if |Base(t, rest)| + 1 >= room then (Response.Fault, t)
    else (Parsed(if m > 0 then m else 0, r), Closed(t, rest, r.length))
  }

  /** The result, and what the buffer of `room` characters that held `t` holds at the end. */
  ghost function Parse(t: string, room: nat, now: int): (Response, string)
    requires |t| < room
  {
    if |t| <= 4 then (Short, t)
    else
      match Loop(t, At(0), true, Start(now), room, ResponseRule)
      case Broken => (Response.Fault, t)
      case Stopped(u, rest, found, r) => if found then Ended(u, room, rest, r) else (Response.Fault, u)
  }

  // ----- The parser on the buffer -----

  /** With holes before the value and at its last character, the number stands behind its first. */
  lemma NumberAt(b: string, t: string, v: nat, e: nat, c: string)
    requires Punched(b, t, e) && 0 < v <= e < |t| && c == b[v - 1 := NUL][e - 1 := NUL]
    ensures var text := NumberText(t, v, e);
            && NulFree(text) && v + 1 + |text| < |c| && c[v + 1 + |text|] == NUL
            && forall k | 0 <= k < |text| :: c[v + 1 + k] == text[k]
  {
    PunchedAt(b, t, e);
    var text := NumberText(t, v, e);
    assert forall k | 0 <= k < |text| :: text[k] == t[if v == e then e + 1 + k else v + 1 + k];
  }

  /** Cuts off the last character of the value at `v`; of an empty one it meets the hole before. */
  method CutLast(a: array<char>, v: nat, ghost e: nat, ghost b: string, ghost t: string)
    requires Punched(b, t, e) && 0 < v <= e < |t| && a[..] == b[v - 1 := NUL]
    modifies a
    ensures a[..] == old(a[..])[e - 1 := NUL]
  {
    PunchedAt(b, t, e);
    assert a[e] == NUL;
    var n := StrLen(a, v);
    assert v + n == e;
    a[v + n - 1] := NUL;
  }

  /** The same, and copies the text behind the value's first character. */
  method CutNumber(a: array<char>, v: nat, ghost e: nat, ghost b: string, ghost t: string) returns (number: string)
    requires Punched(b, t, e) && 0 < v <= e < |t| && a[..] == b[v - 1 := NUL]
    modifies a
    ensures number == NumberText(t, v, e)
    ensures a[..] == old(a[..])[e - 1 := NUL]
  {
    CutLast(a, v, e, b, t);
    NumberAt(b, t, v, e, a[..]);
    number := Copy(a, v + 1, NumberText(t, v, e));
  }

  /** Reads a number from the value at `v`, putting '\r' in the place of its last character. The
      holes at `v - 1` and `e` stay. */
  method ParseLength(a: array<char>, v: nat, ghost e: nat, ghost b: string, ghost t: string, r: Reply)
    returns (g: Reply)
    requires Punched(b, t, e) && 0 < v <= e < |t| && a[..] == b[v - 1 := NUL]
    modifies a
    ensures g == LengthLine(t, v, e, r).fields
    ensures a[..] == old(a[..])[if v == e then e else e - 1 := '\r']
  {
    ghost var was := a[..];
    var number := CutNumber(a, v, e, b, t);
    PunchedAt(b, t, e);
    assert a[e] == NUL && (v < e ==> a[e - 1] == NUL);
    var m := StrLen(a, v);
    assert v + m == if v == e then e else e - 1;
    a[v + m] := '\r';
    g := r.(length := Atoi(number), chunked := Some(false));
    assert a[..] == was[v + m := '\r'];
  }

  /** Copies the value at `v` and decides on it. */
  method ParseControl(a: array<char>, v: nat, r: Reply, ghost value: string) returns (verdict: Verdict)
    requires v + |value| < a.Length && NulFree(value) && a[v + |value|] == NUL
    requires forall k | 0 <= k < |value| :: a[v + k] == value[k]
    ensures verdict == Decide(value, 0, NO_INFO, r.now, |value| + 1, Classify, Comma)
  {
    var s := Copy(a, v, value);
    var copy := new char[|s| + 1](i => if 0 <= i < |s| then s[i] else NUL);
    assert copy[..] == Pad(value, |value| + 1);
    verdict := ParseCacheHeaders(copy, r.now, value);
  }

  /** Reads a value that the buffer holds at `v`. */
  method ParseValue(a: array<char>, v: nat, h: Header, r: Reply, ghost value: string) returns (ok: bool, g: Reply)
    requires h != ContentLength && v + |value| < a.Length && NulFree(value) && a[v + |value|] == NUL
    requires forall k | 0 <= k < |value| :: a[v + k] == value[k]
    ensures ReadValue(h, value, r) == if ok then Some(g) else None
  {
    ok, g := true, r;
    match h
    case CacheControlHeader =>
      var verdict := ParseControl(a, v, r, value);
      ok, g := verdict != Verdict.Fault, r.(control := Some(verdict), eTag := None);
    case TransferEncoding =>
      g := r.(chunked := Some(true));
    case ETagHeader =>
      var s := Copy(a, v, value);
      ok, g := |s| >= 2, r.(eTag := Some(Inner(s)));
    case _ =>
  }

  /** `b` is the buffer before the newline of a line ending at `e` is written back, that is
      before the first NUL is replaced to give `u`. */
  ghost predicate Unfinished(b: string, u: string, e: nat) {
    && NulFree(u) && |u| > 0
    && ((Punched(b, u, e) && e < |u| && u[e] == '\n') || (Holds(b, u[..|u| - 1]) && u[|u| - 1] == '\n'))
  }

  method RestoreNewline(a: array<char>, ghost u: string, ghost e: nat) returns (ok: bool)
    requires Unfinished(a[..], u, e)
    modifies a
    ensures ok <==> |u| < a.Length
    ensures ok ==> Holds(a[..], u)
  {
    ghost var b := a[..];
    ghost var whole := Punched(b, u, e) && e < |u| && u[e] == '\n';
    ghost var h := if whole then e else |u| - 1;
    if whole {
      PunchedAt(b, u, e);
    } else {
      HoldsAt(b, u[..|u| - 1]);
    }
    assert a[h] == NUL;
    var z := PutAtEnd(a, 0, '\n');
    assert z == h;
    if whole {
      assert a[..] == Pad(u, a.Length);
      HoldsAt(a[..], u);
    } else if |u| < a.Length {
      HoldsAppend(b, u[..|u| - 1], '\n');
      HoldsAt(a[..], u);
    }
    ok := a[a.Length - 1] == NUL;
  }

  /** The text that a line whose separator was lost leaves before its newline is put back. */
  lemma UnfinishedLost(b: string, t: string, e: nat, c: char)
    requires Punched(b, t, e) && e < |t| && c != NUL
    ensures Unfinished(b[e := c], t[e := c] + "\n", e)
  {
    var w := t[e := c];
    PunchedAt(b, t, e);
    assert (w + "\n")[..|w|] == w;
    assert b[e := c] == Pad(w, |b|);
  }

  lemma UnfinishedWhole(b: string, t: string, e: nat, i: nat, c: char)
    requires Punched(b, t, e) && i < e < |t| && c != NUL && t[e] == '\n'
    ensures Unfinished(b[i := c], t[i := c], e) && (t[i] == c ==> Unfinished(b, t, e))
  {
    PunchedAt(b, t, e);
    assert b[i := c] == Pad(t[i := c], |b|)[e := NUL];
  }

  /** A line without a colon gets one in place of its newline. */
  method ColonLost(a: array<char>, p: nat, ghost e: nat, ghost b: string, ghost t: string)
    requires Punched(b, t, e) && p <= e < |t| && t[e] == '\n' && a[..] == b[e := NUL]
    modifies a
    ensures Unfinished(a[..], t[e := ':'] + "\n", e)
  {
    UnfinishedLost(b, t, e, ':');
    PunchedAt(b, t, e);
    RestoreColon(a, p, e, b, t[..e]);
  }

  /** A Content-Length line with its value at `v`: the number is read and the colon put back. */
  method LengthHeader(a: array<char>, p: nat, v: nat, ghost e: nat, r: Reply, ghost b: string, ghost t: string)
    returns (g: Reply)
    requires Punched(b, t, e) && p < v <= e < |t| && t[v - 1] == ':' && t[e] == '\n' && a[..] == b[v - 1 := NUL]
    modifies a
    ensures var step := LengthLine(t, v, e, r); g == step.fields && Unfinished(a[..], step.t, e)
  {
    g := ParseLength(a, v, e, b, t, r);
    ghost var i := if v == e then e else e - 1;
    RestoreLengthColon(a, p, v - 1, i, b, t, e);
    if i == e {
      UnfinishedLost(b, t, e, '\r');
    } else {
      UnfinishedWhole(b, t, e, i, '\r');
    }
  }

  /** Any other line with a colon: the value at `v` is read and the colon put back. */
  method ValueHeader(a: array<char>, p: nat, v: nat, ghost e: nat, h: Header, r: Reply, ghost b: string,
                     ghost t: string)
    returns (ok: bool, g: Reply)
    requires Punched(b, t, e) && p < v <= e < |t| && t[v - 1] == ':' && t[e] == '\n' && a[..] == b[v - 1 := NUL]
             && h != ContentLength
    modifies a
    ensures ReadValue(h, t[v..e], r) == if ok then Some(g) else None
    ensures ok ==> Unfinished(a[..], t, e)
  {
    PunchedAt(b, t, e);
    ghost var value := t[v..e];
    assert a[e] == NUL && forall k | 0 <= k < |value| :: a[v + k] == value[k];
    ok, g := ParseValue(a, v, h, r, value);
    if ok {
      UnfinishedWhole(b, t, e, v - 1, ':');
      RestoreColon(a, p, v - 1, b, t[..e]);
      assert a[..] == b;
    }
  }

  /** A header line whose name is cut off at `c`. */
  method NamedHeader(a: array<char>, p: nat, line: Ptr, ghost c: nat, ghost e: nat, h: Header, r: Reply,
                     ghost b: string, ghost t: string)
    returns (ok: bool, g: Reply)
    requires Punched(b, t, e) && p <= c <= e < |t| && t[e] == '\n' && h == HeaderOf(t[p..c])
    requires a[..] == b[c := NUL] && line == (if c < e then At(c + 1) else Null) && (c < e ==> t[c] == ':')
    modifies a
    ensures var step := HeaderLine(t, p, c, e, r);
            ok == step.Next? && (ok ==> g == step.fields && Unfinished(a[..], step.t, e))
  {
    ok, g := true, r;
    if line.Null? {
      ok := h == Unknown;
      if ok { ColonLost(a, p, e, b, t); }
    } else if h == ContentLength {
      g := LengthHeader(a, p, line.i, e, r, b, t);
    } else {
      ok, g := ValueHeader(a, p, line.i, e, h, r, b, t);
    }
  }

  /** One header line with its newline cut off at `e`: its name and value are read and every
      separator but the newline is put back. */
  method ParseHeader(a: array<char>, p: nat, ghost e: nat, r: Reply, ghost t: string) returns (ok: bool, g: Reply)
    requires Punched(a[..], t, e) && p <= e < |t| && t[e] == '\n'
    modifies a
    ensures var step := HeaderLine(t, p, Within(t, p, e, ':'), e, r);
            ok == step.Next? && (ok ==> g == step.fields && Unfinished(a[..], step.t, e))
  {
    ghost var b := a[..];
    var line, n := CutName(a, p, e, t);
    ok, g := NamedHeader(a, p, line, p + n, e, HeaderOf(a[p..p + n]), r, b, t);
  }

  method RestoreLengthColon(a: array<char>, p: nat, ghost c: nat, ghost i: nat, ghost b: string, ghost t: string,
                            ghost e: nat)
    requires Punched(b, t, e) && p <= c < i <= e < |t| && t[c] == ':' && a[..] == b[c := NUL][i := '\r']
    modifies a
    ensures a[..] == b[i := '\r']
  {
    PunchedAt(b, t, e);
    assert a[c] == NUL;
    var z := PutAtEnd(a, p, ':');
    assert z == c;
    assert a[..] == b[i := '\r'];
  }

  /** One pass of the line loop: `v` is the text the buffer holds afterwards. */
  method LoopPass(a: array<char>, p: nat, first: bool, r: Reply, ghost t: string)
    returns (status: Status, rest: Ptr, g: Reply, ghost v: string)
    requires Holds(a[..], t) && p <= |t|
    modifies a
    ensures rest == After(t, Find(t, p, '\n'))
    ensures match ResponseRule(t, p, Find(t, p, '\n'), first, r)
            case Failed => status == Bad
            case Stop => status == Stopping && g == r && v == t && Punched(a[..], t, p + 1) && Find(t, p, '\n') == p + 1
            case Next(u, h) => if |u| >= a.Length then status == Bad
                               else status == GoOn && v == u && g == h && Holds(a[..], v)
  {
    ghost var e := Find(t, p, '\n');
    rest := CutLine(a, p, t);
    PunchedAt(a[..], t, e);
    assert a[e] == NUL;
    v, g, status := t, r, Bad;
    var n := StrLen(a, p);
    assert p + n == e;
    if n == 1 && a[p] == '\r' {
      status := Stopping;
    } else if rest.At? {
      ghost var step := ResponseRule(t, p, e, first, r);
      var ok := true;
      if first {
        UnfinishedKept(a[..], t, e);
      } else {
        ok, g := ParseHeader(a, p, e, r, t);
      }
      if ok {
        ok := RestoreNewline(a, step.t, e);
        v := step.t;
      }
      status := if ok then GoOn else Bad;
    }
  }

  lemma UnfinishedKept(b: string, t: string, e: nat)
    requires Punched(b, t, e) && e < |t| && t[e] == '\n'
    ensures Unfinished(b, t, e)
  {
  }

  /** Every line of the rule leaves at least what it has passed. */
  lemma RuleGrows(t: string, p: nat, e: nat, first: bool, r: Reply)
    requires p <= e <= |t|
    ensures var step := ResponseRule(t, p, e, first, r); step.Next? ==> |t| <= |step.t| && e < |step.t|
  {
  }

  /** The buffer once the loop has stopped, with the hole at the end of the terminator. */
  ghost predicate AtTerminator(b: string, t: string, rest: Ptr, hole: nat) {
    Punched(b, t, hole) && rest == After(t, hole) && (rest.At? ==> t[hole] == '\n')
  }

  /** The line loop, up to the terminator line, whose end it leaves at `hole`. */
  method ParseLines(a: array<char>, now: int, ghost t: string)
    returns (ok: bool, rest: Ptr, g: Reply, hole: nat, ghost v: string)
    requires Holds(a[..], t)
    modifies a
    ensures match Loop(t, At(0), true, Start(now), a.Length, ResponseRule)
            case Broken => !ok
            case Stopped(u, r, found, f) =>
              ok == found && (ok ==> u == v && r == rest && f == g && AtTerminator(a[..], v, rest, hole))
  {
    ghost var all := Loop(t, At(0), true, Start(now), a.Length, ResponseRule);
    var status, first := GoOn, true;
    rest, g, hole, v := At(0), Start(now), 0, t;
    while rest.At? && status == GoOn
      invariant status == GoOn ==> Holds(a[..], v)
      invariant status == GoOn && rest.At? ==> rest.i <= |v|
      invariant status == GoOn ==> Loop(v, rest, first, g, a.Length, ResponseRule) == all
      invariant status == Bad ==> all == Broken
      invariant status == Stopping ==> all == Stopped(v, rest, true, g) && AtTerminator(a[..], v, rest, hole)
      decreases if status != GoOn then 0 else if rest.Null? then 1 else 2 + a.Length - rest.i
    {
      RuleGrows(v, rest.i, Find(v, rest.i, '\n'), first, g);
      hole := rest.i + 1;
      status, rest, g, v := LoopPass(a, rest.i, first, g, v);
      first := false;
    }
    ok := status == Stopping;
  }

  /** The parser, on a buffer that holds the text `t` with NULs behind it. */
  method ParseResponse(a: array<char>, now: int, ghost t: string) returns (r: Response)
    requires Holds(a[..], t)
    modifies a
    ensures r == Parse(t, a.Length, now).0
    ensures r.Parsed? ==> var u := Parse(t, a.Length, now).1; a[..] == Pad(u, a.Length) && NulFree(u)
  {
    HoldsAt(a[..], t);
    assert a[|t|] == NUL;
    var n := StrLen(a, 0);
    assert n == |t|;
    if n <= 4 { return Short; }
    ghost var u;
    var ok, rest, g, hole;
    ok, rest, g, hole, u := ParseLines(a, now, t);
    if !ok { return Response.Fault; }
    r := Finish(a, rest, g, hole, u);
  }

  /** Behind the terminator line: its newline, and one or two newlines behind the body. */
  method Finish(a: array<char>, rest: Ptr, g: Reply, hole: nat, ghost t: string) returns (r: Response)
    requires AtTerminator(a[..], t, rest, hole)
    modifies a
    ensures var m := Missing(t, rest, g.length);
            if |Base(t, rest)| + 1 >= a.Length then r == Response.Fault
            else r == Parsed(if m > 0 then m else 0, g) && a[..] == Pad(Closed(t, rest, g.length), a.Length)
                 && NulFree(Closed(t, rest, g.length))
  {
    ghost var base := Base(t, rest);
    var ok := CloseHead(a, rest, hole, t);
    if !ok { return Response.Fault; }
    var bodyLen := BodyLength(a, rest, t);
    var left := if bodyLen > 0 then ToInt(g.length - bodyLen) else 0;
    ok := AppendEnds(a, left != 0, base);
    r := if ok then Parsed(if left > 0 then left else 0, g) else Response.Fault;
  }

  /** The newline behind the terminator; without room for it in front of a NUL the text has no end. */
  method CloseHead(a: array<char>, rest: Ptr, hole: nat, ghost t: string) returns (ok: bool)
    requires AtTerminator(a[..], t, rest, hole)
    modifies a
    ensures var base := Base(t, rest); ok == (|base| < a.Length) && NulFree(base) && (ok ==> Holds(a[..], base))
  {
    PunchedAt(a[..], t, hole);
    a[hole] := '\n';
    assert a[..] == Pad(Base(t, rest), a.Length);
    ok := a[a.Length - 1] == NUL;
  }

  method BodyLength(a: array<char>, rest: Ptr, ghost t: string) returns (n: nat)
    requires Holds(a[..], Base(t, rest)) && (rest.At? ==> rest.i <= |t|)
    ensures n == if rest.At? then |t| - rest.i else 0
  {
    n := 0;
    if rest.At? {
      HoldsAt(a[..], t);
      assert a[|t|] == NUL;
      n := StrLen(a, rest.i);
    }
  }

  /** One newline behind the text or two; without room for a NUL behind the first, printing the
      text runs past the buffer. */
  method AppendEnds(a: array<char>, twice: bool, ghost t: string) returns (ok: bool)
    requires Holds(a[..], t)
    modifies a
    ensures ok == (|t| + 1 < a.Length)
    ensures var u := t + "\n" + if twice then "\n" else ""; ok ==> a[..] == Pad(u, a.Length) && NulFree(u)
  {
    var z := Append(a, t);
    ok := a[a.Length - 1] == NUL;
    if ok && twice {
      z := Append(a, t + "\n");
    }
  }

  /** Writes a newline behind the text. */
  method Append(a: array<char>, ghost t: string) returns (z: nat)
    requires Holds(a[..], t)
    modifies a
    ensures a[..] == Pad(t + "\n", a.Length)
    ensures |t| + 1 < a.Length <==> a[a.Length - 1] == NUL
    ensures |t| + 1 < a.Length ==> Holds(a[..], t + "\n")
  {
    HoldsAt(a[..], t);
    assert a[|t|] == NUL;
    z := PutAtEnd(a, 0, '\n');
    assert z == |t|;
    assert a[..] == Pad(t + "\n", a.Length);
  }
}
