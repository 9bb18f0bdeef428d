/** C strings in a buffer: the library calls that the in-place parsers are built from
    (strlen, strsep, writing at a string's end) and the comparisons and decimal
    conversions they apply to the pieces. */
module CStrings {
  const NUL: char := '\0'

  datatype Option<+T> = None | Some(value: T)

  /** A `char *` into one buffer. */
  datatype Ptr = Null | At(i: nat)

  predicate NulFree(t: string) {
    forall i | 0 <= i < |t| :: t[i] != NUL
  }

  /** `e` is the first place from `p` on that holds `c` or NUL, or the end of `b`. */
  ghost predicate IsFirst(b: string, p: nat, c: char, e: nat) {
    && p <= e <= |b|
    && (forall i | p <= i < e :: b[i] != c && b[i] != NUL)
    && (e < |b| ==> b[e] == c || b[e] == NUL)
  }

  lemma {:induction false} FirstExists(b: string, p: nat, c: char)
    requires p <= |b|
    ensures exists e: nat :: IsFirst(b, p, c, e)
    decreases |b| - p
  {
    if p < |b| && b[p] != c && b[p] != NUL {
      FirstExists(b, p + 1, c);
      var e: nat :| IsFirst(b, p + 1, c, e);
      assert IsFirst(b, p, c, e);
    } else {
      assert IsFirst(b, p, c, p);
    }
  }

  ghost function Find(b: string, p: nat, c: char): (e: nat)
    requires p <= |b|
    ensures IsFirst(b, p, c, e)
  {
    FirstExists(b, p, c);
    var e: nat :| IsFirst(b, p, c, e);
    e
  }

  /** `q` is the first place in [p..e) that holds `c`, or `e`. */
  ghost predicate IsFirstWithin(t: string, p: nat, e: nat, c: char, q: nat)
    requires e <= |t|
  {
    p <= q <= e && (forall i | p <= i < q :: t[i] != c) && (q < e ==> t[q] == c)
  }

  lemma {:induction false} WithinExists(t: string, p: nat, e: nat, c: char)
    requires p <= e <= |t|
    ensures exists q: nat :: IsFirstWithin(t, p, e, c, q)
    decreases e - p
  {
    if p < e && t[p] != c {
      WithinExists(t, p + 1, e, c);
      var q: nat :| IsFirstWithin(t, p + 1, e, c, q);
      assert IsFirstWithin(t, p, e, c, q);
    } else {
      assert IsFirstWithin(t, p, e, c, p);
    }
  }

  ghost function Within(t: string, p: nat, e: nat, c: char): (q: nat)
    requires p <= e <= |t|
    ensures IsFirstWithin(t, p, e, c, q)
  {
    WithinExists(t, p, e, c);
    var q: nat :| IsFirstWithin(t, p, e, c, q);
    q
  }

  /** The pieces of `s` from `p` on, separated by `c`. */
  ghost function Split(s: string, p: nat, c: char): (r: seq<string>)
    requires p <= |s|
    ensures |r| > 0
    decreases |s| - p
  {
    var q := Within(s, p, |s|, c);
    if q < |s| then [s[p..q]] + Split(s, q + 1, c) else [s[p..]]
  }

  function Join(parts: seq<string>, c: char): string
    requires |parts| > 0
  {
    if |parts| == 1 then parts[0] else parts[0] + [c] + Join(parts[1..], c)
  }

  lemma JoinCons(w: string, rest: seq<string>, c: char)
    requires |rest| > 0
    ensures Join([w] + rest, c) == w + [c] + Join(rest, c)
  {
    assert ([w] + rest)[1..] == rest;
  }

  lemma {:induction false} SplitPieces(s: string, p: nat, c: char)
    requires p <= |s|
    ensures forall w | w in Split(s, p, c) :: c !in w
    decreases |s| - p
  {
    var q := Within(s, p, |s|, c);
    if q < |s| {
      SplitPieces(s, q + 1, c);
    }
  }

  lemma Cut(s: string, p: nat, q: nat, c: char)
    requires p <= q < |s| && s[q] == c
    ensures s[p..] == s[p..q] + [c] + s[q + 1..]
  {
  }

  /** Splitting loses nothing, and no piece holds the separator. */
  lemma {:induction false} SplitJoins(s: string, p: nat, c: char)
    requires p <= |s|
    ensures Join(Split(s, p, c), c) == s[p..]
    ensures forall w | w in Split(s, p, c) :: c !in w
    decreases |s| - p
  {
    SplitPieces(s, p, c);
    var q := Within(s, p, |s|, c);
    if q < |s| {
      var rest := Split(s, q + 1, c);
      SplitJoins(s, q + 1, c);
      JoinCons(s[p..q], rest, c);
      Cut(s, p, q, c);
    }
  }

  lemma JoinHead(parts: seq<string>, s: string, p: nat, c: char)
    requires |parts| > 0 && c !in parts[0] && p <= |s| && s[p..] == Join(parts, c)
    ensures var q := p + |parts[0]|;
            && Within(s, p, |s|, c) == q && s[p..q] == parts[0]
            && (if |parts| == 1 then q == |s| else q < |s| && s[q + 1..] == Join(parts[1..], c))
  {
    var q := p + |parts[0]|;
    assert s[p..][..|parts[0]|] == parts[0];
    forall i | p <= i < q ensures s[i] != c {
      assert s[i] == s[p..q][i - p];
    }
    if |parts| > 1 {
      assert s[p..][|parts[0]|] == c;
      assert s[q + 1..] == s[p..][|parts[0]| + 1..];
    }
  }

  /** Only one list of pieces without `c` joins to a given text. */
  lemma {:induction false} SplitOfJoin(parts: seq<string>, s: string, p: nat, c: char, pieces: seq<string>)
    requires |parts| > 0 && (forall w | w in parts :: c !in w)
    requires p <= |s| && s[p..] == Join(parts, c) && pieces == Split(s, p, c)
    ensures pieces == parts
    decreases |parts|
  {
    JoinHead(parts, s, p, c);
    if |parts| > 1 {
      SplitOfJoin(parts[1..], s, p + |parts[0]| + 1, c, pieces[1..]);
      assert parts == [parts[0]] + parts[1..];
    } else {
      assert parts == [parts[0]];
    }
  }

  /** A buffer of `n` characters that holds the text `t` and NULs after it. */
  function Pad(t: string, n: nat): (b: string)
    requires |t| <= n
    ensures |b| == n && b[..|t|] == t && forall i | |t| <= i < n :: b[i] == NUL
  {
    t + seq(n - |t|, i => NUL)
  }

  /** The buffer `b` holds exactly the text `t`, with room for its terminator. */
  ghost predicate Holds(b: string, t: string) {
    NulFree(t) && |t| < |b| && b == Pad(t, |b|)
  }

  lemma HoldsAt(b: string, t: string)
    requires Holds(b, t)
    ensures forall i | 0 <= i < |t| :: b[i] == t[i] && b[i] != NUL
    ensures forall i | |t| <= i < |b| :: b[i] == NUL
  {
    forall i | 0 <= i < |t| ensures b[i] == t[i] {
      assert b[..|t|][i] == t[i];
    }
  }

  /** Characters written over or right behind a text extend it. */
  lemma HoldsAppend(b: string, t: string, c: char)
    requires Holds(b, t) && c != NUL && |t| + 1 < |b|
    ensures Holds(b[|t| := c], t + [c])
  {
    HoldsAt(b, t);
    assert b[|t| := c] == Pad(t + [c], |b|);
  }

  lemma HoldsReplace(b: string, t: string, i: nat, c: char)
    requires Holds(b, t) && c != NUL && i < |t|
    ensures Holds(b[i := c], t[i := c])
  {
    HoldsAt(b, t);
    assert b[i := c] == Pad(t[i := c], |b|);
  }

  /** The C string at the start of `b` is `s`. */
  ghost predicate Begins(b: string, s: string) {
    NulFree(s) && |s| < |b| && b[..|s|] == s && b[|s|] == NUL
  }

  lemma BeginsAt(b: string, s: string)
    requires Begins(b, s)
    ensures forall i | 0 <= i < |s| :: b[i] == s[i] && b[i] != NUL
  {
    assert forall i | 0 <= i < |s| :: b[..|s|][i] == b[i];
  }

  /** Searching a buffer that holds `s` from `p` on, and then a NUL, is searching `s`. */
  lemma FindUpTo(b: string, s: string, p: nat, c: char)
    requires p <= |s| < |b| && (forall i | p <= i < |s| :: b[i] == s[i]) && b[|s|] == NUL && NulFree(s)
    ensures Find(b, p, c) == Find(s, p, c)
    ensures c != NUL ==> (b[Find(b, p, c)] == c <==> Find(s, p, c) < |s|)
  {
    var e, g := Find(b, p, c), Find(s, p, c);
    assert e < |s| ==> b[e] == s[e];
    assert g < |s| ==> b[g] == s[g];
  }

  /** Searching a buffer that holds `t` up to a NUL at `e` is searching [p..e) of `t`. */
  lemma FindWithin(b: string, t: string, p: nat, e: nat, c: char)
    requires p <= e <= |t| && e < |b| && (forall i | p <= i < e :: b[i] == t[i] && t[i] != NUL) && b[e] == NUL
    ensures Find(b, p, c) == Within(t, p, e, c)
    ensures c != NUL ==> (b[Find(b, p, c)] == c <==> Within(t, p, e, c) < e)
  {
    var x, y := Find(b, p, c), Within(t, p, e, c);
    assert x < e ==> b[x] == t[x];
    assert y < e ==> b[y] == t[y];
  }

  // ----- Library calls on a buffer -----

  /** strlen(a + p) */
  method StrLen(a: array<char>, p: nat) returns (n: nat)
    requires exists z | p <= z < a.Length :: a[z] == NUL
    ensures p + n < a.Length && a[p + n] == NUL
    ensures forall i | p <= i < p + n :: a[i] != NUL
  {
    n := 0;
    while a[p + n] != NUL
      invariant p + n < a.Length
      invariant forall i | p <= i < p + n :: a[i] != NUL
      decreases a.Length - n
    {
      n := n + 1;
    }
  }

  /** strsep(&p, c): overwrites the first `c` of the string at `p` with NUL and moves `p`
      behind it, or to NULL when there is none. The token is the string now at `p`. */
  method StrSep(a: array<char>, p: nat, c: char) returns (next: Ptr)
    requires c != NUL
    requires exists z | p <= z < a.Length :: a[z] == NUL
    modifies a
    ensures var b := old(a[..]); var e := Find(b, p, c);
            e < a.Length &&
            if b[e] == c then a[..] == b[e := NUL] && next == At(e + 1) else a[..] == b && next == Null
  {
    var e := p;
    ghost var z :| p <= z < a.Length && a[z] == NUL;
    while a[e] != c && a[e] != NUL
      invariant p <= e <= z < a.Length && a[z] == NUL
      invariant Find(a[..], p, c) == Find(a[..], e, c)
      decreases a.Length - e
    {
      e := e + 1;
    }
    if a[e] == c {
      a[e] := NUL;
      next := At(e + 1);
    } else {
      next := Null;
    }
  }

  /** `*(p + strlen(p)) = c` */
  method PutAtEnd(a: array<char>, p: nat, c: char) returns (e: nat)
    requires exists z | p <= z < a.Length :: a[z] == NUL
    modifies a
    ensures p <= e < a.Length && old(a[e]) == NUL && forall i | p <= i < e :: old(a[i]) != NUL
    ensures a[..] == old(a[..])[e := c]
  {
    var n := StrLen(a, p);
    e := p + n;
    a[e] := c;
  }

  // ----- Comparisons -----

  function Lower(c: char): char {
    if 'A' <= c <= 'Z' then c - 'A' + 'a' else c
  }

  /** strcasecmp(s, t) == 0 */
  predicate SameIgnoringCase(s: string, t: string) {
    |s| == |t| && forall i | 0 <= i < |s| :: Lower(s[i]) == Lower(t[i])
  }

  /** strncasecmp(s, prefix, |prefix|) == 0 */
  predicate StartsIgnoringCase(s: string, prefix: string) {
    |prefix| <= |s| && SameIgnoringCase(s[..|prefix|], prefix)
  }

  /** Two characters compare equal exactly if they are the same or the two cases of an ASCII letter. */
  lemma CasesOfLetters(c: char, d: char)
    ensures SameIgnoringCase([c], [d]) <==>
              || c == d
              || ('A' <= c <= 'Z' && d as int == c as int + 32)
              || ('A' <= d <= 'Z' && c as int == d as int + 32)
  {
    assert SameIgnoringCase([c], [d]) <==> Lower([c][0]) == Lower([d][0]);
  }

  // ----- Lists of strings -----

  /** The index behind the last element of `words` that satisfies `p`, or 0. */
  function LastIndex(words: seq<string>, p: string -> bool): (k: nat)
    ensures k <= |words| && (k > 0 ==> p(words[k - 1])) && forall i | k <= i < |words| :: !p(words[i])
  {
    if words == [] then 0 else if p(words[|words| - 1]) then |words| else LastIndex(words[..|words| - 1], p)
  }

  lemma LastIndexIs(words: seq<string>, p: string -> bool, k: nat)
    requires k <= |words| && (k > 0 ==> p(words[k - 1])) && forall i | k <= i < |words| :: !p(words[i])
    ensures LastIndex(words, p) == k
  {
  }

  lemma LastIndexAppend(words: seq<string>, w: string, p: string -> bool)
    ensures LastIndex(words + [w], p) == if p(w) then |words| + 1 else LastIndex(words, p)
  {
    assert (words + [w])[..|words|] == words && (words + [w])[|words|] == w;
  }

  lemma LastIndexTail(words: seq<string>, p: string -> bool)
    requires words != []
    ensures var k := LastIndex(words[1..], p);
            LastIndex(words, p) == if k > 0 then k + 1 else if p(words[0]) then 1 else 0
  {
    var rest := words[1..];
    var k := LastIndex(rest, p);
    assert forall i | 0 < i < |words| :: words[i] == rest[i - 1];
    LastIndexIs(words, p, if k > 0 then k + 1 else if p(words[0]) then 1 else 0);
  }

  /** Tests that agree find the same element. */
  lemma {:induction false} SameLastIndex(words: seq<string>, p: string -> bool, q: string -> bool)
    requires forall i | 0 <= i < |words| :: p(words[i]) == q(words[i])
    ensures LastIndex(words, p) == LastIndex(words, q)
  {
    LastIndexIs(words, p, LastIndex(words, q));
  }

  // ----- Decimal numbers -----

  predicate IsSpace(c: char) {
    c == ' ' || '\t' <= c <= '\r'
  }

  predicate IsDigit(c: char) {
    '0' <= c <= '9'
  }

  /** The value of the digits that `s` starts with, read behind `acc`. */
  function Digits(s: string, acc: nat): nat {
    if s == "" || !IsDigit(s[0]) then acc else Digits(s[1..], 10 * acc + (s[0] as int - '0' as int))
  }

  function SkipSpace(s: string): string {
    if s != "" && IsSpace(s[0]) then SkipSpace(s[1..]) else s
  }

  const LONG_MAX := 0x7FFF_FFFF_FFFF_FFFF

  /** strtol(s, NULL, 10): white space, a sign, digits; clamped to the range of long. */
  function StrToL(s: string): (r: int)
    ensures -LONG_MAX - 1 <= r <= LONG_MAX
  {
    var u := SkipSpace(s);
    var negative := u != "" && u[0] == '-';
    var digits := if u != "" && (u[0] == '-' || u[0] == '+') then u[1..] else u;
    var v: int := if negative then 0 - Digits(digits, 0) else Digits(digits, 0);
    if v > LONG_MAX then LONG_MAX else if v < -LONG_MAX - 1 then -LONG_MAX - 1 else v
  }

  /** A number truncated to a signed int. */
  function ToInt(x: int): (r: int)
    ensures -0x8000_0000 <= r < 0x8000_0000
    ensures -0x8000_0000 <= x < 0x8000_0000 ==> r == x
  {
    var low := x % 0x1_0000_0000;
    if low < 0x8000_0000 then low else low - 0x1_0000_0000
  }

  /** atoi: strtol, truncated. */
  function Atoi(s: string): int {
    ToInt(StrToL(s))
  }

  /** The decimal digits of `n`. */
  function Decimal(n: nat): (s: string)
    ensures s != "" && forall c | c in s :: IsDigit(c)
  {
    var last := [(n % 10 + '0' as int) as char];
    if n < 10 then last else Decimal(n / 10) + last
  }

  lemma {:induction false} DigitsOfDecimal(n: nat, rest: string)
    requires rest == "" || !IsDigit(rest[0])
    ensures Digits(Decimal(n) + rest, 0) == n
  {
    DigitsAppend(n, rest);
    assert Digits(rest, n) == n;
  }

  lemma {:induction false} DigitsAppend(n: nat, rest: string)
    ensures Digits(Decimal(n) + rest, 0) == Digits(rest, n)
    decreases n
  {
    var d := [(n % 10 + '0' as int) as char];
    if n < 10 {
      assert (d + rest)[1..] == rest;
    } else {
      DigitsAppend(n / 10, d + rest);
      assert Decimal(n) + rest == Decimal(n / 10) + (d + rest);
      assert (d + rest)[1..] == rest;
    }
  }

  /** Reading back a printed number that fits. */
  lemma NumberReadBack(n: nat, rest: string)
    requires rest == "" || !IsDigit(rest[0])
    ensures n <= LONG_MAX ==> StrToL(Decimal(n) + rest) == n
    ensures n < 0x8000_0000 ==> Atoi(Decimal(n) + rest) == n
  {
    var s := Decimal(n) + rest;
    assert s[0] == Decimal(n)[0] && Decimal(n)[0] in Decimal(n);
    DigitsOfDecimal(n, rest);
  }

  function Clamped(x: int): int {
    if x > LONG_MAX then LONG_MAX else if x < -LONG_MAX - 1 then -LONG_MAX - 1 else x
  }

  /** The start of a printed number is a digit. */
  lemma StartsWithDigit(n: nat, rest: string)
    ensures var s := Decimal(n) + rest; s != "" && IsDigit(s[0]) && SkipSpace(s) == s
  {
    var s := Decimal(n) + rest;
    assert s[0] == Decimal(n)[0] && Decimal(n)[0] in Decimal(n);
  }

  lemma SignBefore(sign: char, s: string)
    requires sign in "+-"
    ensures StrToL([sign] + s) == Clamped(if sign == '-' then 0 - Digits(s, 0) else Digits(s, 0))
  {
    assert ([sign] + s)[1..] == s;
  }

  lemma SpaceBefore(space: char, s: string)
    requires space in " \t\n\r"
    ensures StrToL([space] + s) == StrToL(s)
  {
    assert ([space] + s)[1..] == s;
  }

  /** White space before a number is skipped, a minus sign makes it negative, and what does not fit
      is clamped, or truncated by atoi. */
  lemma SignedReadBack(n: nat, rest: string, space: char)
    requires (rest == "" || !IsDigit(rest[0])) && space in " \t\n\r"
    ensures var s := Decimal(n) + rest;
            && StrToL([space] + s) == StrToL(s) == StrToL(['+'] + s) == (if n <= LONG_MAX then n else LONG_MAX)
            && StrToL(['-'] + s) == (if n <= LONG_MAX + 1 then 0 - n else -LONG_MAX - 1)
            && (0x8000_0000 <= n < 0x1_0000_0000 ==> Atoi(s) == n - 0x1_0000_0000)
  {
    var s := Decimal(n) + rest;
    StartsWithDigit(n, rest);
    DigitsOfDecimal(n, rest);
    SignBefore('-', s);
    SignBefore('+', s);
    SpaceBefore(space, s);
  }

  /** Without a digit in front the number is 0. */
  lemma NoNumber(s: string)
    requires s == "" || !(IsSpace(s[0]) || IsDigit(s[0]) || s[0] in "+-")
    ensures StrToL(s) == 0 && Atoi(s) == 0
  {
  }
}
