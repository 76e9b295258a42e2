/**
 * `NAME_RE` and `parse_from_name`. The pattern, read with IGNORECASE and
 * VERBOSE, is
 *
 *   ^ (p\d+) - .*? (?:_(\d{3,6}))? \( (microglia|ribeyes) - ([^)]+) \) _ (Detailed|Statistics)? (?:\.csv)? $
 *
 * `Match` follows the order in which a backtracking engine tries it: the
 * filler grows from empty one character at a time, and at each length the
 * view token is tried before its absence. `WellFormed` and `Assemble` say
 * declaratively which names fit; `MatchSpec` ties the two together.
 */
module NameGrammar {
  import opened Options
  import opened Strings
  import opened Position

  // ---------------------------------------------------------------------------
  // The grammar, declaratively

  /** What the pattern reads after the filler: view, kind, position and the tail after `)_`. */
  datatype Capture = Capture(view: Option<string>, kind: string, pos: string, tail: string)

  /** A name split along the pattern: `lead` is the `p`, `digits` the rest of the mouse group. */
  datatype Parts = Parts(lead: char, digits: string, filler: string, rest: Capture)

  /** The text after the kind: `-`, the position, `)_` and the tail. */
  function KindText(c: Capture): string
  {
    "-" + (c.pos + (")_" + c.tail))
  }

  /** The text from `(` on. */
  function Inner(c: Capture): string
  {
    "(" + (c.kind + KindText(c))
  }

  /** The text a capture spans: the view token, if any, then the rest from `(` on. */
  function Bracket(c: Capture): string
  {
    if c.view.Some? then "_" + (c.view.value + Inner(c)) else Inner(c)
  }

  /** The mouse group and the `-` after it. */
  function Head(p: Parts): string
  {
    [p.lead] + (p.digits + "-")
  }

  function Assemble(p: Parts): string
  {
    Head(p) + (p.filler + Bracket(p.rest))
  }

  /** `a` is the lower-case literal `lit` up to ASCII case, as IGNORECASE compares it. */
  predicate SameLetters(a: string, lit: string)
    decreases |a|
  {
    |a| == |lit| && (|a| == 0 || (LowerChar(a[0]) == lit[0] && SameLetters(a[1..], lit[1..])))
  }

  predicate IsKind(k: string)
  {
    SameLetters(k, "microglia") || SameLetters(k, "ribeyes")
  }

  /** `(Detailed|Statistics)?` */
  predicate TagOk(w: string)
  {
    w == "" || SameLetters(w, "detailed") || SameLetters(w, "statistics")
  }

  /** `(Detailed|Statistics)?(\.csv)?` */
  predicate TagExtOk(u: string)
  {
    TagOk(u) || (|u| >= 4 && SameLetters(u[|u| - 4..], ".csv") && TagOk(u[..|u| - 4]))
  }

  /** What may follow `)_`: `(Detailed|Statistics)?(\.csv)?$`, where `$` also matches before a final newline. */
  predicate TailOk(t: string)
  {
    TagExtOk(t) || (|t| > 0 && t[|t| - 1] == '\n' && TagExtOk(t[..|t| - 1]))
  }

  predicate CaptureOk(c: Capture)
  {
    && (c.view.Some? ==> 3 <= |c.view.value| <= 6 && AllDigits(c.view.value))
    && IsKind(c.kind)
    && |c.pos| >= 1 && ')' !in c.pos
    && TailOk(c.tail)
  }

  /** The filler is `.*?`, and `.` does not match a newline. */
  predicate WellFormed(p: Parts)
  {
    && (p.lead == 'p' || p.lead == 'P')
    && |p.digits| >= 1 && AllDigits(p.digits)
    && '\n' !in p.filler
    && CaptureOk(p.rest)
  }

  // ---------------------------------------------------------------------------
  // The matcher

  /** Length of the longest run of digits at the front of `t`. */
  function DigitRun(t: string): (n: nat)
    ensures n <= |t| && AllDigits(t[..n]) && (n == |t| || !IsDigit(t[n]))
  {
    if |t| > 0 && IsDigit(t[0]) then
      var n := 1 + DigitRun(t[1..]);
      assert t[..n] == [t[0]] + t[1..][..n - 1];
      n
    else 0
  }

  /** Length of the longest run at the front of `t` free of `)`. */
  function NonParenRun(t: string): (n: nat)
    ensures n <= |t| && ')' !in t[..n] && (n == |t| || t[n] == ')')
  {
    if |t| > 0 && t[0] != ')' then
      var n := 1 + NonParenRun(t[1..]);
      assert t[..n] == [t[0]] + t[1..][..n - 1];
      n
    else 0
  }

  /** `(microglia|ribeyes)`, case-insensitively, at the front of `w`. */
  function KindAt(w: string): Option<string>
  {
    if |w| >= 9 && SameLetters(w[..9], "microglia") then Some(w[..9])
    else if |w| >= 7 && SameLetters(w[..7], "ribeyes") then Some(w[..7])
    else None
  }

  /** `\( (microglia|ribeyes)` and what follows. */
  function AfterView(u: string, view: Option<string>): Option<Capture>
  {
    if |u| == 0 || u[0] != '(' then None
    else
      match KindAt(u[1..])
      case None => None
      case Some(kind) => AfterKind(u[1 + |kind|..], view, kind)
  }

  /** `- [^)]+ \) _ tail $`; `[^)]+` is greedy, so only its longest run can be followed by `)`. */
  function AfterKind(v: string, view: Option<string>, kind: string): Option<Capture>
  {
    if |v| == 0 || v[0] != '-' then None
    else
      var x := v[1..];
      var n := NonParenRun(x);
      if n >= 1 && n + 1 < |x| && x[n + 1] == '_' && TailOk(x[n + 2..]) then
        Some(Capture(view, kind, x[..n], x[n + 2..]))
      else None
  }

  /**
   * Everything after the filler. `\d{3,6}` is greedy and must be followed by
   * `(`, so only a digit run of 3 to 6 can serve as the view; when the view
   * fails, its absence needs a `(` where the `_` is, which fails too.
   */
  function Rest(t: string): Option<Capture>
  {
    if |t| > 0 && t[0] == '_' then AfterUnderscore(t[1..]) else AfterView(t, None)
  }

  /** `(\d{3,6}) \(` and what follows, after the `_` that opens a view. */
  function AfterUnderscore(w: string): Option<Capture>
  {
    var r := DigitRun(w);
    if 3 <= r <= 6 then AfterView(w[r..], Some(w[..r])) else None
  }

  /**
   * The lazy filler `.*?`: the first `j >= i` at which `attempt` succeeds on
   * what follows, never stepping over a newline.
   */
  function LazyScan<T>(body: string, i: nat, attempt: string -> Option<T>): (r: Option<(nat, T)>)
    requires i <= |body|
    ensures r.Some? ==>
      && i <= r.value.0 <= |body|
      && attempt(body[r.value.0..]) == Some(r.value.1)
      && '\n' !in body[i..r.value.0]
      && forall k :: i <= k < r.value.0 ==> attempt(body[k..]).None?
    ensures r.None? ==> forall k :: i <= k <= |body| && '\n' !in body[i..k] ==> attempt(body[k..]).None?
    decreases |body| - i
  {
    match attempt(body[i..])
    case Some(c) => Some((i, c))
    case None =>
      if i < |body| && body[i] != '\n' then
        var r := LazyScan(body, i + 1, attempt);
        ScanStep(body, i);
        r
      else None
  }

  lemma ScanStep(body: string, i: nat)
    requires i < |body| && body[i] != '\n'
    ensures forall k :: i + 1 <= k <= |body| ==> ('\n' in body[i..k] <==> '\n' in body[i + 1..k])
  {
    forall k | i + 1 <= k <= |body|
      ensures '\n' in body[i..k] <==> '\n' in body[i + 1..k]
    {
      assert body[i..k] == [body[i]] + body[i + 1..k];
    }
  }

  /** `NAME_RE.match(name)`, with the groups it captures. */
  function Match(s: string): Option<Parts>
  {
    if |s| == 0 || (s[0] != 'p' && s[0] != 'P') then None
    else
      var d := DigitRun(s[1..]);
      if d == 0 || 1 + d >= |s| || s[1 + d] != '-' then None
      else
        var body := s[2 + d..];
        match LazyScan(body, 0, Rest)
        case None => None
        case Some((j, c)) => Some(Parts(s[0], s[1..1 + d], body[..j], c))
  }

  /** The tuple `parse_from_name` returns. */
  datatype Parsed = Parsed(mouse: string, view: string, pos: string, kind: string)

  function Extract(p: Parts): Parsed
  {
    Parsed(Lower([p.lead] + p.digits), p.rest.view.GetOr("/"), NormalizePosition(Some(p.rest.pos)), Lower(p.rest.kind))
  }

  /** `parse_from_name(name)`: `None` when the pattern does not match. */
  function ParseFromName(name: string): Option<Parsed>
  {
    match Match(name)
    case None => None
    case Some(p) => Some(Extract(p))
  }

  // ---------------------------------------------------------------------------
  // The pieces of the matcher against the grammar

  lemma {:induction false} DigitRunAt(a: string, b: string)
    requires AllDigits(a) && (|b| == 0 || !IsDigit(b[0]))
    ensures DigitRun(a + b) == |a|
  {
    if |a| > 0 {
      assert (a + b)[1..] == a[1..] + b;
      DigitRunAt(a[1..], b);
    } else {
      assert a + b == b;
    }
  }

  lemma {:induction false} NonParenRunAt(a: string, t: string)
    requires ')' !in a
    ensures NonParenRun(a + (")_" + t)) == |a|
  {
    if |a| > 0 {
      assert (a + (")_" + t))[1..] == a[1..] + (")_" + t);
      NonParenRunAt(a[1..], t);
    } else {
      assert a + (")_" + t) == ")_" + t;
    }
  }

  lemma KindAtKind(kind: string, w: string)
    requires IsKind(kind)
    ensures KindAt(kind + w) == Some(kind)
  {
    var s := kind + w;
    if SameLetters(kind, "microglia") {
      assert |kind| == 9 && s[..9] == kind;
    } else {
      assert |kind| == 7 && s[..7] == kind;
      if |s| >= 9 {
        assert LowerChar(s[0]) == 'r';
      }
    }
  }

  lemma KindAtSound(w: string)
    requires KindAt(w).Some?
    ensures var k := KindAt(w).value; IsKind(k) && |k| <= |w| && w[..|k|] == k
  {
  }

  lemma AfterKindSound(v: string, view: Option<string>, kind: string)
    requires AfterKind(v, view, kind).Some?
    ensures var c := AfterKind(v, view, kind).value;
      && c.view == view && c.kind == kind && |c.pos| >= 1 && ')' !in c.pos && TailOk(c.tail)
      && v == KindText(c)
  {
    var x := v[1..];
    var n := NonParenRun(x);
    var c := Capture(view, kind, x[..n], x[n + 2..]);
    assert AfterKind(v, view, kind) == Some(c);
    assert x[n..] == ")_" + c.tail;
    assert x == c.pos + x[n..];
    assert v == "-" + x;
  }

  lemma AfterViewSound(u: string, view: Option<string>)
    requires AfterView(u, view).Some?
    ensures var c := AfterView(u, view).value;
      && c.view == view && IsKind(c.kind) && |c.pos| >= 1 && ')' !in c.pos && TailOk(c.tail)
      && u == Inner(c)
  {
    var w := u[1..];
    KindAtSound(w);
    var kind := KindAt(w).value;
    var v := w[|kind|..];
    assert u[1 + |kind|..] == v;
    AfterKindSound(v, view, kind);
    assert w == kind + v;
    assert u == "(" + w;
  }

  lemma AfterKindComplete(c: Capture)
    requires |c.pos| >= 1 && ')' !in c.pos && TailOk(c.tail)
    ensures AfterKind(KindText(c), c.view, c.kind) == Some(c)
  {
    var v := KindText(c);
    var x := v[1..];
    assert x == c.pos + (")_" + c.tail);
    NonParenRunAt(c.pos, c.tail);
    var n := |c.pos|;
    assert x[..n] == c.pos;
    assert x[n..] == ")_" + c.tail;
    assert x[n + 1] == '_';
    assert x[n + 2..] == c.tail;
  }

  lemma AfterViewComplete(c: Capture)
    requires IsKind(c.kind) && |c.pos| >= 1 && ')' !in c.pos && TailOk(c.tail)
    ensures AfterView(Inner(c), c.view) == Some(c)
  {
    var v := KindText(c);
    var u := Inner(c);
    assert u[1..] == c.kind + v;
    KindAtKind(c.kind, v);
    assert u[1 + |c.kind|..] == v;
    AfterKindComplete(c);
  }

  /** What `Rest` accepts fits the grammar and spells out the capture. */
  lemma RestSound(t: string)
    requires Rest(t).Some?
    ensures CaptureOk(Rest(t).value) && t == Bracket(Rest(t).value)
  {
    if |t| > 0 && t[0] == '_' {
      assert Rest(t) == AfterUnderscore(t[1..]);
      AfterUnderscoreSound(t[1..]);
      assert t == "_" + t[1..];
    } else {
      AfterViewSound(t, None);
    }
  }

  lemma AfterUnderscoreSound(w: string)
    requires AfterUnderscore(w).Some?
    ensures var c := AfterUnderscore(w).value;
      CaptureOk(c) && "_" + w == Bracket(c)
  {
    var r := DigitRun(w);
    var v := w[..r];
    var u := w[r..];
    assert 3 <= r <= 6 && AfterUnderscore(w) == AfterView(u, Some(v));
    AfterViewSound(u, Some(v));
    ViewSplit(w, r);
  }

  lemma ViewSplit(w: string, r: nat)
    requires r <= |w|
    ensures "_" + w == "_" + (w[..r] + w[r..])
  {
    assert w == w[..r] + w[r..];
  }

  /** `Rest` accepts every text that fits the grammar, with the capture it was built from. */
  lemma RestComplete(c: Capture)
    requires CaptureOk(c)
    ensures Rest(Bracket(c)) == Some(c)
  {
    AfterViewComplete(c);
    if c.view.Some? {
      RestCompleteView(c);
    } else {
      assert Inner(c)[0] == '(';
    }
  }

  lemma RestCompleteView(c: Capture)
    requires CaptureOk(c) && c.view.Some?
    requires AfterView(Inner(c), c.view) == Some(c)
    ensures Rest(Bracket(c)) == Some(c)
  {
    var w := c.view.value + Inner(c);
    assert Bracket(c)[1..] == w;
    AfterUnderscoreComplete(c);
  }

  lemma AfterUnderscoreComplete(c: Capture)
    requires CaptureOk(c) && c.view.Some?
    requires AfterView(Inner(c), c.view) == Some(c)
    ensures AfterUnderscore(c.view.value + Inner(c)) == Some(c)
  {
    var u := Inner(c);
    var v := c.view.value;
    var w := v + u;
    assert u[0] == '(';
    DigitRunAt(v, u);
    assert w[..|v|] == v && w[|v|..] == u;
  }

  lemma BracketStart(c: Capture)
    ensures |Bracket(c)| > 0
    ensures c.view.Some? <==> Bracket(c)[0] == '_'
    ensures c.view.None? <==> Bracket(c)[0] == '('
  {
  }

  /** Where the mouse group and the `-` end in an assembled name. */
  lemma AssembleHead(p: Parts)
    requires AllDigits(p.digits)
    ensures var s := Assemble(p);
      && |s| > 1 + |p.digits| && s[0] == p.lead
      && DigitRun(s[1..]) == |p.digits| && s[1..1 + |p.digits|] == p.digits
      && s[1 + |p.digits|] == '-'
      && s[2 + |p.digits|..] == p.filler + Bracket(p.rest)
  {
    var s := Assemble(p);
    var body := p.filler + Bracket(p.rest);
    var h := Head(p);
    assert |h| == 2 + |p.digits|;
    assert s[..|h|] == h && s[|h|..] == body;
    assert s[1..] == p.digits + ("-" + body) by {
      assert h[1..] == p.digits + "-";
    }
    DigitRunAt(p.digits, "-" + body);
  }

  // ---------------------------------------------------------------------------
  // The matcher against the grammar

  /** A match fits the grammar and spells out the name. */
  lemma MatchSound(s: string)
    requires Match(s).Some?
    ensures WellFormed(Match(s).value) && Assemble(Match(s).value) == s
  {
    var d := DigitRun(s[1..]);
    var body := s[2 + d..];
    var (j, c) := LazyScan(body, 0, Rest).value;
    MatchPieces(s, d, j, c);
    var p := Match(s).value;
    RestSound(body[j..]);
    FillerSplit(body, j, c);
    HeadSplit(s, p, d);
  }

  /** The pieces `Match` cuts a name into. */
  lemma MatchPieces(s: string, d: nat, j: nat, c: Capture)
    requires Match(s).Some? && d == DigitRun(s[1..])
    requires 2 + d <= |s| && LazyScan(s[2 + d..], 0, Rest) == Some((j, c))
    ensures j <= |s[2 + d..]| && Rest(s[2 + d..][j..]) == Some(c) && '\n' !in s[2 + d..][..j]
    ensures d >= 1 && s[1 + d] == '-' && AllDigits(s[1..1 + d])
    ensures Match(s) == Some(Parts(s[0], s[1..1 + d], s[2 + d..][..j], c))
  {
    ScanPieces(s[2 + d..], j, c);
    DigitPrefix(s, d);
  }

  lemma ScanPieces(body: string, j: nat, c: Capture)
    requires LazyScan(body, 0, Rest) == Some((j, c))
    ensures j <= |body| && Rest(body[j..]) == Some(c) && '\n' !in body[..j]
  {
    assert body[0..j] == body[..j];
  }

  lemma DigitPrefix(s: string, d: nat)
    requires 1 <= |s| && d == DigitRun(s[1..])
    ensures AllDigits(s[1..1 + d])
  {
    assert s[1..1 + d] == s[1..][..d];
  }

  lemma FillerSplit(body: string, j: nat, c: Capture)
    requires j <= |body| && body[j..] == Bracket(c)
    ensures body == body[..j] + Bracket(c)
  {
  }

  lemma HeadSplit(s: string, p: Parts, d: nat)
    requires 2 + d <= |s| && s[1 + d] == '-'
    requires p.lead == s[0] && p.digits == s[1..1 + d] && p.filler + Bracket(p.rest) == s[2 + d..]
    ensures Assemble(p) == s
  {
    SplitAfterHead(s, d);
    Reassociate2([p.lead], p.digits, "-", p.filler + Bracket(p.rest));
  }

  lemma SplitAfterHead(s: string, d: nat)
    requires 2 + d <= |s| && s[1 + d] == '-'
    ensures s == [s[0]] + (s[1..1 + d] + ("-" + s[2 + d..]))
  {
    var w := s[1..];
    assert w[d..] == "-" + s[2 + d..] by {
      assert w[d..][1..] == s[2 + d..];
    }
    assert w[..d] == s[1..1 + d];
    assert w == w[..d] + w[d..];
    assert s == [s[0]] + w;
  }

  /**
   * Every name that fits the grammar matches, and the match's filler is no
   * longer than the one the name was built with.
   */
  lemma MatchComplete(p: Parts)
    requires WellFormed(p)
    ensures Match(Assemble(p)).Some?
    ensures |Match(Assemble(p)).value.filler| <= |p.filler|
  {
    var s := Assemble(p);
    AssembleHead(p);
    var body := p.filler + Bracket(p.rest);
    RestComplete(p.rest);
    assert body[|p.filler|..] == Bracket(p.rest);
    assert body[0..|p.filler|] == p.filler;
    var r := LazyScan(body, 0, Rest);
    assert r.Some?;
    assert r.value.0 <= |p.filler|;
  }

  /** Two decompositions of one name with fillers of one length are the same. */
  lemma Determined(p: Parts, q: Parts)
    requires WellFormed(p) && WellFormed(q)
    requires Assemble(p) == Assemble(q) && |p.filler| == |q.filler|
    ensures p == q
  {
    var s := Assemble(p);
    AssembleHead(p);
    AssembleHead(q);
    var body := s[2 + |p.digits|..];
    assert p.filler == body[..|p.filler|] == q.filler;
    assert Bracket(p.rest) == body[|p.filler|..] == Bracket(q.rest);
    RestComplete(p.rest);
    RestComplete(q.rest);
  }

  /**
   * `Match` succeeds exactly on the names that fit the grammar, and returns the
   * decomposition with the shortest filler, which is unique.
   */
  lemma MatchSpec(s: string)
    ensures Match(s).None? <==> forall p :: WellFormed(p) ==> Assemble(p) != s
    ensures Match(s).Some? ==>
      var q := Match(s).value;
      && WellFormed(q) && Assemble(q) == s
      && forall p :: WellFormed(p) && Assemble(p) == s ==>
           |q.filler| <= |p.filler| && (|q.filler| == |p.filler| ==> p == q)
  {
    if Match(s).Some? {
      var q := Match(s).value;
      MatchSound(s);
      forall p | WellFormed(p) && Assemble(p) == s
        ensures |q.filler| <= |p.filler| && (|q.filler| == |p.filler| ==> p == q)
      {
        MatchComplete(p);
        if |q.filler| == |p.filler| {
          Determined(p, q);
        }
      }
    } else {
      forall p | WellFormed(p) ensures Assemble(p) != s {
        MatchComplete(p);
      }
    }
  }

  /** `Rest` can only start at a `_` or a `(`. */
  lemma RestStart(t: string)
    requires Rest(t).Some?
    ensures |t| > 0 && (t[0] == '_' || t[0] == '(')
  {
  }

  /** A run of more than six digits after `_` is no view, and `(` is not there either. */
  lemma RestLongRun(t: string)
    requires |t| > 0 && t[0] == '_' && DigitRun(t[1..]) > 6
    ensures Rest(t).None?
  {
  }

  /**
   * A name built from `p` parses back to `p` when no shorter filler lets the
   * rest of the pattern match.
   */
  lemma FirstStop(p: Parts)
    requires WellFormed(p)
    requires forall k :: 0 <= k < |p.filler| ==> Rest((p.filler + Bracket(p.rest))[k..]).None?
    ensures Match(Assemble(p)) == Some(p)
  {
    var s := Assemble(p);
    MatchComplete(p);
    MatchSound(s);
    var q := Match(s).value;
    AssembleHead(p);
    AssembleHead(q);
    var body := p.filler + Bracket(p.rest);
    assert body == q.filler + Bracket(q.rest);
    assert body[|q.filler|..] == Bracket(q.rest);
    RestComplete(q.rest);
    assert |q.filler| == |p.filler|;
    Determined(p, q);
  }

  /** When the filler holds no `_` and no `(`, the name parses exactly as it was built. */
  lemma UnambiguousParse(p: Parts)
    requires WellFormed(p) && '_' !in p.filler && '(' !in p.filler
    ensures Match(Assemble(p)) == Some(p)
  {
    var body := p.filler + Bracket(p.rest);
    forall k | 0 <= k < |p.filler| ensures Rest(body[k..]).None? {
      assert body[k..][0] == p.filler[k];
      if Rest(body[k..]).Some? {
        RestStart(body[k..]);
      }
    }
    FirstStop(p);
  }

  /** Every match holds a `(` and a `)` directly followed by `_`. */
  lemma MatchShape(s: string)
    requires Match(s).Some?
    ensures '(' in s && Contains(s, ")_")
  {
    MatchSound(s);
    AssembledShape(Match(s).value);
  }

  lemma AssembledShape(p: Parts)
    ensures '(' in Assemble(p) && Contains(Assemble(p), ")_")
  {
    var c := p.rest;
    var k := 2 + |c.kind| + |c.pos|;
    InnerShape(c);
    var b := Bracket(c);
    var i := if c.view.Some? then 1 + |c.view.value| + k else k;
    if c.view.Some? {
      OccursShift(c.view.value, Inner(c), ")_", k);
      OccursShift("_", c.view.value + Inner(c), ")_", |c.view.value| + k);
    }
    assert OccursAt(b, ")_", i);
    assert '(' in b;
    OccursShift(p.filler, b, ")_", i);
    OccursShift(Head(p), p.filler + b, ")_", |p.filler| + i);
  }

  lemma InnerShape(c: Capture)
    ensures Inner(c)[0] == '('
    ensures OccursAt(Inner(c), ")_", 2 + |c.kind| + |c.pos|)
  {
    var t := ")_" + c.tail;
    assert OccursAt(t, ")_", 0);
    OccursShift(c.pos, t, ")_", 0);
    OccursShift("-", c.pos + t, ")_", |c.pos|);
    OccursShift(c.kind, KindText(c), ")_", 1 + |c.pos|);
    OccursShift("(", c.kind + KindText(c), ")_", 1 + |c.kind| + |c.pos|);
  }

  /** An occurrence in `b` is one in `a + b`, `|a|` further on. */
  lemma OccursShift(a: string, b: string, sub: string, k: int)
    requires OccursAt(b, sub, k)
    ensures OccursAt(a + b, sub, |a| + k) && Contains(a + b, sub)
  {
    assert (a + b)[|a| + k..|a| + k + |sub|] == b[k..k + |sub|];
    assert OccursAt(a + b, sub, |a| + k);
  }

  lemma {:induction false} SameLettersLower(a: string, lit: string)
    requires SameLetters(a, lit)
    ensures Lower(a) == lit
  {
    if |a| > 0 {
      SameLettersLower(a[1..], lit[1..]);
      assert Lower(a) == [LowerChar(a[0])] + Lower(a[1..]);
      assert lit == [lit[0]] + lit[1..];
    }
  }

  lemma LowerDigits(d: string)
    requires AllDigits(d)
    ensures Lower(d) == d
  {
  }

  /** The fields of a parse, as the grammar fixes them. */
  lemma ExtractFields(p: Parts)
    requires WellFormed(p)
    ensures var r := Extract(p);
      && r.mouse == "p" + p.digits
      && (r.view == "/" <==> p.rest.view.None?)
      && (r.view != "/" ==> 3 <= |r.view| <= 6 && AllDigits(r.view) && Contains(Assemble(p), "_" + r.view + "("))
      && (r.kind == "microglia" || r.kind == "ribeyes")
      && r.pos == NormalizePosition(Some(p.rest.pos))
  {
    var c := p.rest;
    assert Lower([p.lead] + p.digits) == [LowerChar(p.lead)] + Lower(p.digits);
    LowerDigits(p.digits);
    if SameLetters(c.kind, "microglia") {
      SameLettersLower(c.kind, "microglia");
    } else {
      SameLettersLower(c.kind, "ribeyes");
    }
    if c.view.Some? {
      var v := c.view.value;
      assert v != "/" by {
        assert IsDigit(v[0]);
      }
      ViewOccurs(p);
    }
  }

  lemma ViewOccurs(p: Parts)
    requires p.rest.view.Some?
    ensures Contains(Assemble(p), "_" + p.rest.view.value + "(")
  {
    var c := p.rest;
    var v := c.view.value;
    var b := Bracket(c);
    var sub := "_" + v + "(";
    assert b[..|v| + 2] == sub by {
      assert b == "_" + (v + Inner(c));
      assert Inner(c)[0] == '(';
    }
    assert OccursAt(b, sub, 0);
    OccursShift(p.filler, b, sub, 0);
    OccursShift(Head(p), p.filler + b, sub, |p.filler|);
  }

  /**
   * `parse_from_name` succeeds exactly on the names that fit the grammar; the
   * mouse is `p` and its digits, the view is `/` or the 3 to 6 digits written
   * as `_<view>(`, the kind is one of the two markers, and the position is the
   * normalised bracketed text of the shortest-filler decomposition.
   */
  lemma ParseFromNameSpec(name: string)
    ensures ParseFromName(name).None? <==> forall p :: WellFormed(p) ==> Assemble(p) != name
    ensures ParseFromName(name).Some? ==>
      var r := ParseFromName(name).value;
      && |r.mouse| >= 2 && r.mouse[0] == 'p' && AllDigits(r.mouse[1..])
      && (r.view == "/" || (3 <= |r.view| <= 6 && AllDigits(r.view) && Contains(name, "_" + r.view + "(")))
      && (r.kind == "microglia" || r.kind == "ribeyes")
      && r.pos == NormalizePosition(Some(Match(name).value.rest.pos))
      && NoUpper(r.pos) && ' ' !in r.pos
  {
    MatchSpec(name);
    if Match(name).Some? {
      var p := Match(name).value;
      ExtractFields(p);
      assert ("p" + p.digits)[1..] == p.digits;
      NormalizeShape(Some(p.rest.pos));
    }
  }

  // ---------------------------------------------------------------------------
  // Examples. Literal steps are small lemmas of their own.

  lemma ParseVia(s: string, p: Parts, r: Parsed)
    requires Match(s) == Some(p) && Extract(p) == r
    ensures ParseFromName(s) == Some(r)
  {
  }

  lemma ExtractVia(p: Parts, mouse: string, view: string, pos: string, kind: string)
    requires Lower([p.lead] + p.digits) == mouse && p.rest.view.GetOr("/") == view
    requires NormalizePosition(Some(p.rest.pos)) == pos && Lower(p.rest.kind) == kind
    ensures Extract(p) == Parsed(mouse, view, pos, kind)
  {
  }

  const DetailedParts := Parts('p', "3", "xyz", Capture(Some("000123"), "microglia", "opl+ipl", "Detailed.csv"))

  /** A literal matches itself case-insensitively. */
  lemma {:induction false} SameLettersSelf(s: string)
    requires NoUpper(s)
    ensures SameLetters(s, s)
  {
    if |s| > 0 {
      SameLettersSelf(s[1..]);
    }
  }

  /** Letters that lower-case to `lit` match it. */
  lemma {:induction false} LowerSameLetters(a: string, lit: string)
    requires Lower(a) == lit
    ensures SameLetters(a, lit)
  {
    if |a| > 0 {
      assert Lower(a[1..]) == lit[1..];
      LowerSameLetters(a[1..], lit[1..]);
    }
  }

  lemma TagExtVia(u: string, tag: string)
    requires |u| >= 4 && u[|u| - 4..] == ".csv" && u[..|u| - 4] == tag && TagOk(tag)
    ensures TailOk(u)
  {
    SameLettersSelf(".csv");
  }

  lemma DetailedTag() ensures TagOk("Detailed")
  {
    assert Lower("Detailed") == "detailed";
    LowerSameLetters("Detailed", "detailed");
  }

  lemma DetailedTail() ensures TailOk("Detailed.csv")
  {
    assert "Detailed.csv"[8..] == ".csv" && "Detailed.csv"[..8] == "Detailed";
    DetailedTag();
    TagExtVia("Detailed.csv", "Detailed");
  }

  /** The grammar's conditions, field by field. */
  predicate FieldsOk(p: Parts)
  {
    && p.lead == 'p' && |p.digits| >= 1 && AllDigits(p.digits) && '\n' !in p.filler
    && (p.rest.view.Some? ==> 3 <= |p.rest.view.value| <= 6 && AllDigits(p.rest.view.value))
    && NoUpper(p.rest.kind) && (p.rest.kind == "microglia" || p.rest.kind == "ribeyes")
    && |p.rest.pos| >= 1 && ')' !in p.rest.pos
  }

  lemma FieldsWellFormed(p: Parts)
    requires FieldsOk(p) && TailOk(p.rest.tail)
    ensures WellFormed(p)
  {
    SameLettersSelf(p.rest.kind);
  }

  /** A name built from parts whose filler holds no `_` and no `(` matches as built. */
  lemma MatchOfParts(p: Parts, s: string)
    requires FieldsOk(p) && TailOk(p.rest.tail) && '_' !in p.filler && '(' !in p.filler
    requires Assemble(p) == s
    ensures Match(s) == Some(p)
  {
    FieldsWellFormed(p);
    UnambiguousParse(p);
  }

  lemma DetailedFields() ensures FieldsOk(DetailedParts)
  {
    assert AllDigits("3") && AllDigits("000123") && NoUpper("microglia");
  }

  lemma Reassociate3(a: string, b: string, c: string, x: string)
    ensures a + (b + (c + x)) == (a + (b + c)) + x
  {
  }

  lemma Reassociate4(a: string, b: string, c: string, d: string, x: string)
    ensures a + (b + (c + (d + x))) == (a + (b + (c + d))) + x
  {
  }

  lemma DetailedKindFront() ensures "(" + ("microglia" + "-") == "(microglia-" { }

  lemma DetailedPosBack() ensures "opl+ipl" + (")_" + "Detailed.csv") == "opl+ipl)_Detailed.csv" { }

  lemma DetailedInnerJoin() ensures "(microglia-" + "opl+ipl)_Detailed.csv" == "(microglia-opl+ipl)_Detailed.csv" { }

  lemma DetailedFront() ensures "p3-" + ("xyz" + ("_" + "000123")) == "p3-xyz_000123" { }

  lemma DetailedJoin() ensures "p3-xyz_000123" + "(microglia-opl+ipl)_Detailed.csv" == "p3-xyz_000123(microglia-opl+ipl)_Detailed.csv" { }

  lemma DetailedInner() ensures Inner(DetailedParts.rest) == "(microglia-opl+ipl)_Detailed.csv"
  {
    Reassociate3("(", "microglia", "-", "opl+ipl" + (")_" + "Detailed.csv"));
    DetailedKindFront();
    DetailedPosBack();
    DetailedInnerJoin();
  }

  lemma DetailedAssembled() ensures Assemble(DetailedParts) == "p3-xyz_000123(microglia-opl+ipl)_Detailed.csv"
  {
    var inner := "(microglia-opl+ipl)_Detailed.csv";
    DetailedInner();
    assert Head(DetailedParts) == "p3-";
    assert Assemble(DetailedParts) == "p3-" + ("xyz" + ("_" + ("000123" + inner)));
    Reassociate4("p3-", "xyz", "_", "000123", inner);
    DetailedFront();
    DetailedJoin();
  }

  lemma DetailedMatch()
    ensures Match("p3-xyz_000123(microglia-opl+ipl)_Detailed.csv") == Some(DetailedParts)
  {
    DetailedFields();
    DetailedTail();
    DetailedAssembled();
    assert '_' !in "xyz" && '(' !in "xyz";
    MatchOfParts(DetailedParts, "p3-xyz_000123(microglia-opl+ipl)_Detailed.csv");
  }

  lemma DetailedExtract()
    ensures Extract(DetailedParts) == Parsed("p3", "000123", "ipl+opl", "microglia")
  {
    assert Lower("p3") == "p3" && Lower("microglia") == "microglia";
    assert [DetailedParts.lead] + DetailedParts.digits == "p3";
    SwappedExample();
    ExtractVia(DetailedParts, "p3", "000123", "ipl+opl", "microglia");
  }

  /** `p3-xyz_000123(microglia-opl+ipl)_Detailed.csv` gives `("p3", "000123", "ipl+opl", "microglia")`. */
  lemma DetailedExample()
    ensures ParseFromName("p3-xyz_000123(microglia-opl+ipl)_Detailed.csv") == Some(Parsed("p3", "000123", "ipl+opl", "microglia"))
  {
    DetailedMatch();
    DetailedExtract();
    ParseVia("p3-xyz_000123(microglia-opl+ipl)_Detailed.csv", DetailedParts, Parsed("p3", "000123", "ipl+opl", "microglia"));
  }

  const LongRunParts := Parts('p', "1", "a_0001234", Capture(None, "ribeyes", "gcl", ""))

  lemma LongRunFields() ensures FieldsOk(LongRunParts) && TailOk(LongRunParts.rest.tail)
  {
    assert AllDigits("1") && NoUpper("ribeyes") && TailOk("");
  }

  /**
   * Before a `_` followed by more than six digits, no filler length lets the
   * rest match: neither a character other than `_` and `(` nor a digit can
   * start it, and the `_` starts no view.
   */
  lemma NoStopInFiller(x: char, d: string, r: string)
    requires x != '_' && x != '(' && AllDigits(d) && |d| > 6 && (|r| == 0 || !IsDigit(r[0]))
    ensures forall k :: 0 <= k < 2 + |d| ==> Rest(([x] + ("_" + (d + r)))[k..]).None?
  {
    var b := [x] + ("_" + (d + r));
    forall k | 0 <= k < 2 + |d| ensures Rest(b[k..]).None? {
      if k == 1 {
        var t := b[1..];
        assert t == "_" + (d + r) && t[1..] == d + r;
        DigitRunAt(d, r);
        RestLongRun(t);
      } else {
        assert k == 0 || b[k] == d[k - 2];
        NoStopAt(b[k..]);
      }
    }
  }

  lemma LongRunFiller() ensures "a_0001234" == ['a'] + ("_" + "0001234") { }

  lemma Reassociate2(x: string, y: string, z: string, w: string)
    ensures (x + (y + z)) + w == x + (y + (z + w))
  {
  }

  /** No shorter filler works: the only `_` before `(` is followed by seven digits. */
  lemma LongRunNoEarlierStop()
    ensures var p := LongRunParts;
      forall k :: 0 <= k < |p.filler| ==> Rest((p.filler + Bracket(p.rest))[k..]).None?
  {
    var b := Bracket(LongRunParts.rest);
    LongRunInner();
    LongRunFiller();
    Reassociate2(['a'], "_", "0001234", b);
    assert AllDigits("0001234") && !IsDigit(b[0]);
    NoStopInFiller('a', "0001234", b);
  }

  lemma NoStopAt(t: string)
    requires |t| > 0 && t[0] != '_' && t[0] != '('
    ensures Rest(t).None?
  {
  }

  lemma StopsVia(p: Parts, body: string, s: string)
    requires FieldsOk(p) && TailOk(p.rest.tail) && body == p.filler + Bracket(p.rest) && Assemble(p) == s
    requires forall k :: 0 <= k < |p.filler| ==> Rest(body[k..]).None?
    ensures Match(s) == Some(p)
  {
    FieldsWellFormed(p);
    FirstStop(p);
  }

  lemma LongRunMatch()
    ensures Match("p1-a_0001234(ribeyes-gcl)_") == Some(LongRunParts)
  {
    LongRunFields();
    LongRunNoEarlierStop();
    LongRunAssembled();
    StopsVia(LongRunParts, LongRunParts.filler + Bracket(LongRunParts.rest), "p1-a_0001234(ribeyes-gcl)_");
  }

  lemma LongRunInner() ensures Inner(LongRunParts.rest) == "(ribeyes-gcl)_" { }

  lemma LongRunJoin() ensures "p1-" + ("a_0001234" + "(ribeyes-gcl)_") == "p1-a_0001234(ribeyes-gcl)_" { }

  lemma LongRunAssembled() ensures Assemble(LongRunParts) == "p1-a_0001234(ribeyes-gcl)_"
  {
    LongRunInner();
    assert Head(LongRunParts) == "p1-";
    assert Assemble(LongRunParts) == "p1-" + ("a_0001234" + "(ribeyes-gcl)_");
    LongRunJoin();
  }

  lemma LongRunExtract()
    ensures Extract(LongRunParts) == Parsed("p1", "/", "gcl", "ribeyes")
  {
    assert Lower("p1") == "p1" && Lower("ribeyes") == "ribeyes";
    assert [LongRunParts.lead] + LongRunParts.digits == "p1";
    PlainExample();
    SpacedGclPlain();
    FixedPoint(" GCL ", "gcl");
    ExtractVia(LongRunParts, "p1", "/", "gcl", "ribeyes");
  }

  /** Seven digits are too many for a view: `p1-a_0001234(ribeyes-gcl)_` has view `/`. */
  lemma LongRunExample()
    ensures ParseFromName("p1-a_0001234(ribeyes-gcl)_") == Some(Parsed("p1", "/", "gcl", "ribeyes"))
  {
    LongRunMatch();
    LongRunExtract();
    ParseVia("p1-a_0001234(ribeyes-gcl)_", LongRunParts, Parsed("p1", "/", "gcl", "ribeyes"));
  }

  lemma NoMatchVia(s: string)
    requires '(' !in s || !Contains(s, ")_")
    ensures ParseFromName(s).None?
  {
    if Match(s).Some? {
      MatchShape(s);
    }
  }

  /** Without the bracketed kind and position, `p3-xyz_Detailed.csv` does not parse. */
  lemma NoBracketExample()
    ensures ParseFromName("p3-xyz_Detailed.csv").None?
  {
    assert '(' !in "p3-xyz_Detailed.csv";
    NoMatchVia("p3-xyz_Detailed.csv");
  }

  /** A `)` only at the very end is never followed by `_`. */
  lemma NoUnderscoreAfter(a: string)
    requires ')' !in a
    ensures !Contains(a + ")", ")_")
  {
    var s := a + ")";
    forall i | 0 <= i <= |s| - 2 ensures !OccursAt(s, ")_", i) {
      assert s[i] == a[i];
    }
  }

  lemma NoUnderscoreAfterParen() ensures !Contains("p5-foo(ribeyes-gcl)", ")_")
  {
    assert "p5-foo(ribeyes-gcl)" == "p5-foo(ribeyes-gcl" + ")";
    assert ')' !in "p5-foo(ribeyes-gcl";
    NoUnderscoreAfter("p5-foo(ribeyes-gcl");
  }

  /** The `_` after `)` is mandatory: `p5-foo(ribeyes-gcl)` does not parse. */
  lemma NoUnderscoreExample()
    ensures ParseFromName("p5-foo(ribeyes-gcl)").None?
  {
    NoUnderscoreAfterParen();
    NoMatchVia("p5-foo(ribeyes-gcl)");
  }

  const FolderParts := Parts('p', "5", "foo", Capture(None, "ribeyes", "gcl", ""))

  lemma FolderFields() ensures FieldsOk(FolderParts) && TailOk(FolderParts.rest.tail)
  {
    assert AllDigits("5") && NoUpper("ribeyes") && TailOk("");
  }

  lemma FolderInner() ensures Inner(FolderParts.rest) == "(ribeyes-gcl)_" { }

  lemma FolderJoin() ensures "p5-" + ("foo" + "(ribeyes-gcl)_") == "p5-foo(ribeyes-gcl)_" { }

  lemma FolderAssembled() ensures Assemble(FolderParts) == "p5-foo(ribeyes-gcl)_"
  {
    FolderInner();
    assert Head(FolderParts) == "p5-";
    assert Assemble(FolderParts) == "p5-" + ("foo" + "(ribeyes-gcl)_");
    FolderJoin();
  }

  lemma FolderMatch() ensures Match("p5-foo(ribeyes-gcl)_") == Some(FolderParts)
  {
    FolderFields();
    FolderAssembled();
    MatchOfParts(FolderParts, "p5-foo(ribeyes-gcl)_");
  }

  lemma FolderExtract() ensures Extract(FolderParts) == Parsed("p5", "/", "gcl", "ribeyes")
  {
    assert Lower("p5") == "p5" && Lower("ribeyes") == "ribeyes";
    assert [FolderParts.lead] + FolderParts.digits == "p5";
    PlainExample();
    SpacedGclPlain();
    FixedPoint(" GCL ", "gcl");
    ExtractVia(FolderParts, "p5", "/", "gcl", "ribeyes");
  }

  /** With the `_` after `)` present the same folder name parses, with view `/`. */
  lemma FolderWithUnderscoreExample()
    ensures ParseFromName("p5-foo(ribeyes-gcl)_") == Some(Parsed("p5", "/", "gcl", "ribeyes"))
  {
    FolderMatch();
    FolderExtract();
    ParseVia("p5-foo(ribeyes-gcl)_", FolderParts, Parsed("p5", "/", "gcl", "ribeyes"));
  }
}
