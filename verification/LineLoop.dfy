/** The line-by-line loop that both in-place parsers run over their buffer, for whatever a
    parser does with one line, and when such a loop gives the text back as it was. */
module LineLoop {
  import opened CStrings

  /** What one line [p..e) of the text does: it breaks the parser (undefined behaviour), ends
      the header section, or leaves a text and new fields once its separators are restored. */
  datatype Step<F> = Failed | Stop | Next(t: string, fields: F)

  /** Arguments: text, start and end of the line, whether it is the first, fields so far. */
  type Rule<!F> = (string, nat, nat, bool, F) -> Step<F>

  type Test = (string, nat, nat, bool) -> bool

  /** How the loop ends: broken, or with a text and where the rest of it starts (`Null` when
      the text is used up). `found` tells whether a line has ended the header section. */
  datatype Lines<F> = Broken | Stopped(t: string, rest: Ptr, found: bool, fields: F)

  function After(t: string, e: nat): Ptr {
    if e < |t| then At(e + 1) else Null
  }

  /** The loop from `p` on, in a buffer of `room` characters. */
  ghost function Loop<F>(t: string, p: Ptr, first: bool, f: F, room: nat, rule: Rule<F>): (l: Lines<F>)
    requires |t| < room && (p.At? ==> p.i <= |t|)
    ensures l.Stopped? ==> l.rest.At? ==> l.rest.i <= |l.t|
    decreases if p.Null? then 0 else 1 + room - p.i
  {
    if p.Null? then Stopped(t, Null, false, f)
    else
      var e := Find(t, p.i, '\n');
      match rule(t, p.i, e, first, f)
      case Failed => Broken
      case Stop => Stopped(t, After(t, e), true, f)
      case Next(u, g) =>
        if |u| >= room || e >= |u| then Broken else Loop(u, After(t, e), false, g, room, rule)
  }

  /** The end of the line that ends the header section, if every line before it is good and
      ends in a newline. */
  ghost function SectionEnd(t: string, p: nat, first: bool, stop: Test, good: Test): (r: Option<nat>)
    requires p <= |t|
    ensures r.Some? ==> p <= r.value <= |t|
    decreases |t| - p
  {
    var e := Find(t, p, '\n');
    if stop(t, p, e, first) then Some(e)
    else if good(t, p, e, first) && e < |t| then SectionEnd(t, e + 1, false, stop, good)
    else None
  }

  /** What the rule has to do with the two tests: it stops where `stop` says, restores a good
      line that has a newline, and spoils any other. */
  ghost predicate Follows<F>(step: Step<F>, t: string, p: nat, e: nat, stop: bool, good: bool)
    requires p <= e <= |t|
  {
    match step
    case Failed => !stop
    case Stop => stop
    case Next(u, _) =>
      && !stop && |t| <= |u| && e < |u| && u[..p] == t[..p]
      && (if e == |t| then |u| > |t| else if good then u == t else u[..e + 1] != t[..e + 1])
  }

  ghost predicate Lawful<F(!new)>(rule: Rule<F>, stop: Test, good: Test) {
    forall t, p: nat, e: nat, first, f | p <= e <= |t| && e == Find(t, p, '\n') ::
      Follows(rule(t, p, e, first, f), t, p, e, stop(t, p, e, first), good(t, p, e, first))
  }

  /** The loop never touches again what lies before its current line. */
  lemma {:induction false} PrefixKept<F(!new)>(t: string, p: Ptr, first: bool, f: F, room: nat, rule: Rule<F>,
                                               stop: Test, good: Test, l: Lines<F>)
    requires Lawful(rule, stop, good)
    requires |t| < room && (p.At? ==> p.i <= |t|) && Loop(t, p, first, f, room, rule) == l && l.Stopped?
    ensures |t| <= |l.t|
    ensures p.At? ==> l.t[..p.i] == t[..p.i] && (l.rest.At? ==> p.i <= l.rest.i)
    ensures p.Null? ==> l.t == t && l.rest == Null
    decreases if p.Null? then 0 else 1 + room - p.i
  {
    if p.At? {
      var e := Find(t, p.i, '\n');
      var step := rule(t, p.i, e, first, f);
      assert Follows(step, t, p.i, e, stop(t, p.i, e, first), good(t, p.i, e, first));
      if step.Next? {
        PrefixKept(step.t, After(t, e), false, step.fields, room, rule, stop, good, l);
        if e < |t| {
          assert l.t[..e + 1][..p.i] == step.t[..e + 1][..p.i];
        }
      }
    }
  }

  /** `v` up to `rest` is not what `t` holds there. */
  ghost predicate Spoiled(t: string, v: string, rest: Ptr) {
    if rest.Null? then |v| >= |t| && v != t else !(rest.i <= |t| && rest.i <= |v| && v[..rest.i] == t[..rest.i])
  }

  /** `v` does not even start with `t`. */
  predicate Overwritten(t: string, v: string) {
    |v| >= |t| && v[..|t|] != t
  }

  /** A rule that breaks on a last line without a newline. */
  ghost predicate Whole<F(!new)>(rule: Rule<F>) {
    forall t, p: nat, first, f | p <= |t| :: !rule(t, p, |t|, first, f).Next?
  }

  lemma LostCharacter(t: string, u: string, v: string, e: nat, rest: Ptr)
    requires e < |t| <= |u| <= |v| && u[..e + 1] != t[..e + 1] && v[..e + 1] == u[..e + 1]
    requires rest.At? ==> e + 1 <= rest.i
    ensures Spoiled(t, v, rest) && Overwritten(t, v)
  {
    var i :| 0 <= i <= e && u[i] != t[i];
    assert v[..e + 1][i] == u[..e + 1][i];
    if rest.At? && rest.i <= |t| && rest.i <= |v| {
      assert v[..rest.i][i] == v[i] && t[..rest.i][i] == t[i];
    }
    assert v[..|t|][i] == v[i];
  }

  /** A line that is not good, or has no newline, is never made good again. */
  lemma SpoiledForGood<F(!new)>(t: string, p: nat, e: nat, u: string, g: F, room: nat, rule: Rule<F>, stop: Test,
                                good: Test, l: Lines<F>)
    requires Lawful(rule, stop, good) && p <= e <= |t|
    requires Follows(Next(u, g), t, p, e, false, false) && |u| < room
    requires Loop(u, After(t, e), false, g, room, rule) == l && l.Stopped?
    ensures Spoiled(t, l.t, l.rest) && (e < |t| ==> Overwritten(t, l.t))
  {
    PrefixKept(u, After(t, e), false, g, room, rule, stop, good, l);
    if e < |t| {
      LostCharacter(t, u, l.t, e, l.rest);
    }
  }

  /** A good line with a newline leaves the text as it is. */
  lemma GoodLinePassed<F(!new)>(t: string, p: nat, first: bool, f: F, room: nat, rule: Rule<F>, stop: Test,
                                good: Test, l: Lines<F>)
    requires Lawful(rule, stop, good) && p <= |t| < room
    requires Loop(t, At(p), first, f, room, rule) == l && l.Stopped?
    requires var e := Find(t, p, '\n'); !stop(t, p, e, first) && good(t, p, e, first) && e < |t|
    ensures var e := Find(t, p, '\n');
            var step := rule(t, p, e, first, f);
            && step.Next? && Loop(t, At(e + 1), false, step.fields, room, rule) == l
            && SectionEnd(t, p, first, stop, good) == SectionEnd(t, e + 1, false, stop, good)
  {
    var e := Find(t, p, '\n');
    assert Follows(rule(t, p, e, first, f), t, p, e, stop(t, p, e, first), good(t, p, e, first));
  }

  /** What a loop leaves of a text whose section ends at `end`: all of it, or with none a text that
      is never made good again. */
  ghost predicate LoopLeaves<F(!new)>(l: Lines<F>, t: string, end: Option<nat>, whole: bool) {
    && l.Stopped?
    && match end
       case Some(e) => l.t == t && l.rest == After(t, e) && l.found
       case None => Spoiled(t, l.t, l.rest) && (whole ==> Overwritten(t, l.t))
  }

  /** A line that is not good, or has no newline, spoils the text. */
  lemma BadLinePassed<F(!new)>(t: string, p: nat, first: bool, f: F, room: nat, rule: Rule<F>, stop: Test, good: Test,
                               l: Lines<F>)
    requires Lawful(rule, stop, good) && p <= |t| < room
    requires Loop(t, At(p), first, f, room, rule) == l && l.Stopped?
    requires var e := Find(t, p, '\n'); !stop(t, p, e, first) && !(good(t, p, e, first) && e < |t|)
    ensures LoopLeaves(l, t, SectionEnd(t, p, first, stop, good), Whole(rule))
  {
    var e := Find(t, p, '\n');
    var step := rule(t, p, e, first, f);
    assert Follows(step, t, p, e, stop(t, p, e, first), good(t, p, e, first));
    SpoiledForGood(t, p, e, step.t, step.fields, room, rule, stop, good, l);
  }

  /** The line that stops the loop. */
  lemma StopPassed<F(!new)>(t: string, p: nat, first: bool, f: F, room: nat, rule: Rule<F>, stop: Test, good: Test)
    requires Lawful(rule, stop, good) && p <= |t| < room && stop(t, p, Find(t, p, '\n'), first)
    ensures LoopLeaves(Loop(t, At(p), first, f, room, rule), t, SectionEnd(t, p, first, stop, good), Whole(rule))
  {
    var e := Find(t, p, '\n');
    assert Follows(rule(t, p, e, first, f), t, p, e, stop(t, p, e, first), good(t, p, e, first));
  }

  /** The loop gives the text back exactly when its lines are good up to the one that stops it. */
  lemma {:induction false} LoopText<F(!new)>(t: string, p: nat, first: bool, f: F, room: nat, rule: Rule<F>,
                                             stop: Test, good: Test, l: Lines<F>)
    requires Lawful(rule, stop, good)
    requires p <= |t| < room && Loop(t, At(p), first, f, room, rule) == l && l.Stopped?
    ensures LoopLeaves(l, t, SectionEnd(t, p, first, stop, good), Whole(rule))
    decreases |t| - p
  {
    var e := Find(t, p, '\n');
    if stop(t, p, e, first) {
      StopPassed(t, p, first, f, room, rule, stop, good);
    } else if good(t, p, e, first) && e < |t| {
      GoodLinePassed(t, p, first, f, room, rule, stop, good, l);
      LoopText(t, e + 1, false, rule(t, p, e, first, f).fields, room, rule, stop, good, l);
    } else {
      BadLinePassed(t, p, first, f, room, rule, stop, good, l);
    }
  }

  // ----- The fields -----

  /** The fields gathered up to the line that stops the loop, on a text that stays as it is.
      `None` if some line breaks the parser. */
  ghost function Gather<F>(t: string, p: nat, first: bool, f: F, rule: Rule<F>): Option<F>
    requires p <= |t|
    decreases |t| - p
  {
    var e := Find(t, p, '\n');
    match rule(t, p, e, first, f)
    case Failed => None
    case Stop => Some(f)
    case Next(_, g) => if e < |t| then Gather(t, e + 1, false, g, rule) else None
  }

  /** What every step keeps holds of the fields gathered. */
  lemma {:induction false} GatherKeeps<F(!new)>(t: string, p: nat, first: bool, f: F, g: F, rule: Rule<F>,
                                                inv: F -> bool)
    requires p <= |t| && inv(f) && Gather(t, p, first, f, rule) == Some(g)
    requires forall q: nat, e: nat, b, h | inv(h) :: rule(t, q, e, b, h).Next? ==> inv(rule(t, q, e, b, h).fields)
    ensures inv(g)
    decreases |t| - p
  {
    var e := Find(t, p, '\n');
    var step := rule(t, p, e, first, f);
    if step.Next? && e < |t| {
      GatherKeeps(t, e + 1, false, step.fields, g, rule, inv);
    }
  }

  /** On a section whose lines are good the loop only gathers fields. */
  lemma {:induction false} LoopGathers<F(!new)>(t: string, p: nat, first: bool, f: F, room: nat, rule: Rule<F>,
                                                stop: Test, good: Test, l: Lines<F>, end: nat)
    requires Lawful(rule, stop, good) && p <= |t| < room
    requires Loop(t, At(p), first, f, room, rule) == l && SectionEnd(t, p, first, stop, good) == Some(end)
    ensures l == match Gather(t, p, first, f, rule)
                 case None => Broken
                 case Some(g) => Stopped(t, After(t, end), true, g)
    decreases |t| - p
  {
    var e := Find(t, p, '\n');
    var step := rule(t, p, e, first, f);
    assert Follows(step, t, p, e, stop(t, p, e, first), good(t, p, e, first));
    if step.Next? {
      LoopGathers(t, e + 1, false, step.fields, room, rule, stop, good, l, end);
    }
  }

  /** One good line of a section. */
  lemma SectionPass(t: string, p: nat, e: nat, first: bool, stop: Test, good: Test)
    requires p <= |t| && Find(t, p, '\n') == e < |t| && !stop(t, p, e, first) && good(t, p, e, first)
    ensures SectionEnd(t, p, first, stop, good) == SectionEnd(t, e + 1, false, stop, good)
  {
  }

  /** Two rules that do the same, up to `embed`, from any fields of the second on. */
  ghost predicate Simulates<F(!new), H(!new)>(rule: Rule<F>, small: Rule<H>, embed: H -> F) {
    forall t, p: nat, e: nat, h | p <= e <= |t| ::
      match small(t, p, e, false, h)
      case Failed => rule(t, p, e, false, embed(h)) == Failed
      case Stop => rule(t, p, e, false, embed(h)) == Stop
      case Next(_, k) => rule(t, p, e, false, embed(h)).Next? && rule(t, p, e, false, embed(h)).fields == embed(k)
  }

  lemma {:induction false} GathersSame<F(!new), H(!new)>(t: string, p: nat, h: H, rule: Rule<F>, small: Rule<H>,
                                                         embed: H -> F)
    requires Simulates(rule, small, embed) && p <= |t|
    ensures Gather(t, p, false, embed(h), rule) ==
            match Gather(t, p, false, h, small) case None => None case Some(k) => Some(embed(k))
    decreases |t| - p
  {
    var e := Find(t, p, '\n');
    var step := small(t, p, e, false, h);
    if step.Next? && e < |t| {
      GathersSame(t, e + 1, step.fields, rule, small, embed);
    }
  }

  // ----- Which line decides a field -----

  /** A line of a section that ends at `end`, behind the first line and before the last. */
  ghost predicate LineOf(t: string, q: nat, end: nat) {
    0 < q <= |t| && t[q - 1] == '\n' && Find(t, q, '\n') < end
  }

  /** The last line of the section that `touches` a field. */
  ghost predicate LastOf(t: string, end: nat, touches: nat -> bool, p: nat) {
    LineOf(t, p, end) && touches(p) && forall q: nat | LineOf(t, q, end) && touches(q) :: q <= p
  }

  ghost predicate NoneFrom(t: string, q: nat, end: nat, touches: nat -> bool) {
    forall p: nat | LineOf(t, p, end) && touches(p) :: p < q
  }

  /** The field `proj` becomes `val` in the good lines that touch it and stays in all others,
      as long as `inv` holds, which no line changes. */
  ghost predicate Decides<F(!new), T(!new)>(t: string, end: nat, rule: Rule<F>, good: Test, inv: F -> bool,
                                            touches: nat -> bool, proj: F -> T, val: nat -> T) {
    forall p: nat, f | LineOf(t, p, end) && good(t, p, Find(t, p, '\n'), false) && inv(f) ::
      var step := rule(t, p, Find(t, p, '\n'), false, f);
      step.Next? ==> inv(step.fields) && proj(step.fields) == if touches(p) then val(p) else proj(f)
  }

  /** Two neighbouring lines of a section. */
  lemma NextLine(t: string, q: nat, e: nat, end: nat, stop: Test, good: Test)
    requires NulFree(t) && 0 < q <= |t| && t[q - 1] == '\n' && e == Find(t, q, '\n')
    requires SectionEnd(t, q, false, stop, good) == Some(end)
    ensures if stop(t, q, e, false) then end == e
            else
              e < end && e < |t| && t[e] == '\n' && LineOf(t, q, end) && good(t, q, e, false)
              && SectionEnd(t, e + 1, false, stop, good) == Some(end)
    ensures forall p: nat | LineOf(t, p, end) && q <= p :: p == q || e < p
  {
    assert forall i | q <= i < e :: t[i] != '\n';
  }

  /** A first line that does not end the section is passed. */
  lemma FirstLinePassed<F(!new)>(t: string, f: F, g: F, u: string, rule: Rule<F>, stop: Test, good: Test)
    requires SectionEnd(t, 0, true, stop, good).Some? && !stop(t, 0, Find(t, 0, '\n'), true)
    requires rule(t, 0, Find(t, 0, '\n'), true, f) == Next(u, g)
    ensures var e := Find(t, 0, '\n');
            && e < |t| && SectionEnd(t, e + 1, false, stop, good) == SectionEnd(t, 0, true, stop, good)
            && Gather(t, 0, true, f, rule) == Gather(t, e + 1, false, g, rule)
  {
  }

  /** All lines of a section are good. */
  lemma {:induction false} LinesAreGood(t: string, q: nat, end: nat, p: nat, stop: Test, good: Test)
    requires NulFree(t) && 0 < q <= p && q <= |t| && t[q - 1] == '\n'
    requires SectionEnd(t, q, false, stop, good) == Some(end) && LineOf(t, p, end)
    ensures good(t, p, Find(t, p, '\n'), false)
    decreases |t| - q
  {
    var e := Find(t, q, '\n');
    NextLine(t, q, e, end, stop, good);
    if p != q {
      LinesAreGood(t, e + 1, end, p, stop, good);
    }
  }

  lemma SectionIsGood(t: string, end: nat, p: nat, stop: Test, good: Test)
    requires NulFree(t) && SectionEnd(t, 0, true, stop, good) == Some(end) && LineOf(t, p, end)
    ensures good(t, p, Find(t, p, '\n'), false)
  {
    var e := Find(t, 0, '\n');
    assert e < p;
    LinesAreGood(t, e + 1, end, p, stop, good);
  }

  /** The last line that touches a field decides it. */
  lemma {:induction false} LastDecides<F(!new), T(!new)>(t: string, q: nat, end: nat, f: F, g: F, rule: Rule<F>,
                                                         stop: Test, good: Test, inv: F -> bool,
                                                         touches: nat -> bool, proj: F -> T, val: nat -> T)
    requires Lawful(rule, stop, good) && Decides(t, end, rule, good, inv, touches, proj, val) && inv(f)
    requires NulFree(t) && 0 < q <= |t| && t[q - 1] == '\n' && SectionEnd(t, q, false, stop, good) == Some(end)
    requires Gather(t, q, false, f, rule) == Some(g)
    ensures forall p: nat | q <= p && LastOf(t, end, touches, p) :: proj(g) == val(p)
    ensures NoneFrom(t, q, end, touches) ==> proj(g) == proj(f)
    decreases |t| - q
  {
    var e := Find(t, q, '\n');
    var step := rule(t, q, e, false, f);
    assert Follows(step, t, q, e, stop(t, q, e, false), good(t, q, e, false));
    NextLine(t, q, e, end, stop, good);
    if stop(t, q, e, false) {
      assert forall p: nat | q <= p :: !LineOf(t, p, end);
    } else {
      LastDecides(t, e + 1, end, step.fields, g, rule, stop, good, inv, touches, proj, val);
      forall p: nat | q <= p && LastOf(t, end, touches, p) ensures proj(g) == val(p) {
        if p == q {
          assert NoneFrom(t, e + 1, end, touches);
        }
      }
      if NoneFrom(t, q, end, touches) {
        assert NoneFrom(t, e + 1, end, touches);
        assert !touches(q);
      }
    }
  }
}
