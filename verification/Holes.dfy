/** A text in a buffer with NULs punched over its separators, and the steps that both in-place
    parsers punch and fill those holes with. */
module Holes {
  import opened CStrings

  /** `b` holds `t` with a hole at the end `e` of the current line. */
  ghost predicate Punched(b: string, t: string, e: nat) {
    NulFree(t) && e <= |t| < |b| && b == Pad(t, |b|)[e := NUL]
  }

  lemma PunchedAt(b: string, t: string, e: nat)
    requires Punched(b, t, e)
    ensures Begins(b, t[..e]) && b[|t|] == NUL
    ensures forall i | 0 <= i < e :: b[i] == t[i] && b[i] != NUL
    ensures forall i | e < i < |t| :: b[i] == t[i] && b[i] != NUL
    ensures forall i | |t| < i < |b| :: b[i] == NUL
  {
    HoldsAt(Pad(t, |b|), t);
  }

  /** The C string at the start of the buffer. */
  ghost function TextOf(b: string): string {
    b[..Find(b, 0, NUL)]
  }

  lemma TextOfIs(b: string, u: string)
    requires Begins(b, u)
    ensures TextOf(b) == u
  {
    BeginsAt(b, u);
    assert Find(b, 0, NUL) == |u|;
  }

  /** strsep on newlines: cuts the line at `p` off the rest of the text. */
  method CutLine(a: array<char>, p: nat, ghost t: string) returns (rest: Ptr)
    requires Holds(a[..], t) && p <= |t|
    modifies a
    ensures var e := Find(t, p, '\n'); Punched(a[..], t, e) && rest == if e < |t| then At(e + 1) else Null
  {
    HoldsAt(a[..], t);
    FindUpTo(a[..], t, p, '\n');
    assert a[|t|] == NUL;
    rest := StrSep(a, p, '\n');
    assert a[..] == Pad(t, a.Length)[Find(t, p, '\n') := NUL];
  }

  /** Cuts the header name off the line at `p`. */
  method CutName(a: array<char>, p: nat, ghost e: nat, ghost t: string) returns (line: Ptr, n: nat)
    requires Punched(a[..], t, e) && p <= e
    modifies a
    ensures var c := Within(t, p, e, ':');
            && p + n == c && a[..] == old(a[..])[c := NUL] && a[p..c] == t[p..c]
            && line == if c < e then At(c + 1) else Null
  {
    ghost var b := a[..];
    ghost var c := Within(t, p, e, ':');
    PunchedAt(b, t, e);
    FindWithin(b, t, p, e, ':');
    line := StrSep(a, p, ':');
    assert b[e] == NUL;
    assert a[..] == b[c := NUL];
    assert a[c] == NUL;
    n := StrLen(a, p);
  }

  /** Writes the colon back behind the header name, or over the end of a line without one. */
  method RestoreColon(a: array<char>, p: nat, ghost c: nat, ghost b: string, ghost s: string)
    requires Begins(b, s) && p <= c <= |s| && a[..] == b[c := NUL]
    modifies a
    ensures a[..] == b[c := ':']
  {
    BeginsAt(b, s);
    assert a[c] == NUL;
    var z := PutAtEnd(a, p, ':');
    assert z == c;
  }

  /** The C string at `i`. */
  method Copy(a: array<char>, i: nat, ghost s: string) returns (c: string)
    requires i + |s| < a.Length && NulFree(s) && a[i + |s|] == NUL && forall k | 0 <= k < |s| :: a[i + k] == s[k]
    ensures c == s
  {
    assert forall k | i <= k < i + |s| :: a[k] == s[k - i];
    var n := StrLen(a, i);
    c := a[i..i + n];
  }

  datatype Status = GoOn | Stopping | Bad
}
