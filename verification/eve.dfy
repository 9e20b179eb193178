/**
  `Eve::replace` and its `Replacer` implementation: every match of the
  placeholder pattern is replaced by the value of the captured name in the
  environment, and by nothing when the name is not set.

  The environment is an explicit immutable map instead of the process
  environment. A text is first cut into pieces, literal text and holes,
  exactly where `replace_all` finds its matches; the replacement then fills
  every hole with its value.
*/
module Eve {
  import opened Common
  import opened Pattern

  /** The process environment as `env::var` sees it. */
  type Env = map<string, string>

  /** A piece of a text: copied literally, or a placeholder with the text its
      pattern captured. */
  datatype Piece = Text(text: string) | Hole(name: string)

  /** Cuts `s[from..]` into the literal text before each match and the
      match's capture, ending with the text after the last match. Literals
      and holes alternate, starting and ending with a literal. */
  function TokenizeFrom(s: string, from: nat): (ps: seq<Piece>)
    requires from <= |s|
    decreases |s| - from
  {
    match FindMatch(s, from)
    case None => [Text(s[from..])]
    case Some(m) => [Text(s[from..m.open]), Hole(s[m.open + 2..m.close])] + TokenizeFrom(s, m.End())
  }

  function Tokenize(s: string): seq<Piece> {
    TokenizeFrom(s, 0)
  }

  /** The text a piece came from: a hole is written back as `{{name}}`. */
  function Show(p: Piece): string {
    match p
    case Text(t) => t
    case Hole(n) => "{{" + n + "}}"
  }

  function Render(ps: seq<Piece>): string {
    if |ps| == 0 then "" else Show(ps[0]) + Render(ps[1..])
  }

  /** `env::var(name)`: the value when the name is set, and nothing
      otherwise, since `dst.extend` appends only an `Ok` value. */
  function Lookup(env: Env, name: string): string {
    if name in env then env[name] else ""
  }

  /** The text a piece is replaced by. */
  function Fill(p: Piece, env: Env): string {
    match p
    case Text(t) => t
    case Hole(n) => Lookup(env, n)
  }

  function Substitute(ps: seq<Piece>, env: Env): string {
    if |ps| == 0 then "" else Fill(ps[0], env) + Substitute(ps[1..], env)
  }

  /** `replace_all` with the environment as its replacer, searching from
      `from`: the text up to the next match is copied, the match is replaced
      by the value of its capture, and the search resumes after the match. */
  function ReplaceFrom(s: string, env: Env, from: nat): string
    requires from <= |s|
    decreases |s| - from
  {
    match FindMatch(s, from)
    case None => s[from..]
    case Some(m) => s[from..m.open] + Lookup(env, s[m.open + 2..m.close]) + ReplaceFrom(s, env, m.End())
  }

  /** `Eve::replace`. Its only error path is compiling the constant pattern,
      which cannot fail, so the result is a plain string. */
  function Replace(s: string, env: Env): string {
    ReplaceFrom(s, env, 0)
  }

  lemma RenderPair(x: Piece, y: Piece, rest: seq<Piece>)
    ensures Render([x, y] + rest) == Show(x) + Show(y) + Render(rest)
  {
    assert ([x, y] + rest)[1..] == [y] + rest;
    assert ([y] + rest)[1..] == rest;
  }

  lemma SubstitutePair(x: Piece, y: Piece, rest: seq<Piece>, env: Env)
    ensures Substitute([x, y] + rest, env) == Fill(x, env) + Fill(y, env) + Substitute(rest, env)
  {
    assert ([x, y] + rest)[1..] == [y] + rest;
    assert ([y] + rest)[1..] == rest;
  }

  lemma SubstituteSingle(x: Piece, env: Env)
    ensures Substitute([x], env) == Fill(x, env)
  {
    assert [x][1..] == [];
  }

  /** The scanner fills the holes of the pieces: replacing is cutting the
      text into pieces and substituting every hole. */
  lemma {:induction false} ReplaceIsSubstitute(s: string, env: Env, from: nat)
    requires from <= |s|
    ensures ReplaceFrom(s, env, from) == Substitute(TokenizeFrom(s, from), env)
    decreases |s| - from
  {
    match FindMatch(s, from)
    case None =>
      SubstituteSingle(Text(s[from..]), env);
    case Some(m) =>
      assert TokenizeFrom(s, from) == [Text(s[from..m.open]), Hole(s[m.open + 2..m.close])] + TokenizeFrom(s, m.End());
      SubstitutePair(Text(s[from..m.open]), Hole(s[m.open + 2..m.close]), TokenizeFrom(s, m.End()), env);
      ReplaceIsSubstitute(s, env, m.End());
  }

  /** Round trip: the pieces spell the original text, so every character
      outside a match is kept, in order, and a match is exactly `{{`, its
      capture and `}}`. */
  lemma {:induction false} RenderTokenize(s: string, from: nat)
    requires from <= |s|
    ensures Render(TokenizeFrom(s, from)) == s[from..]
    decreases |s| - from, 1
  {
    if FindMatch(s, from).None? {
      assert TokenizeFrom(s, from) == [Text(s[from..])];
      assert [Text(s[from..])][1..] == [];
    } else {
      RenderTokenizeAtMatch(s, from, FindMatch(s, from).value);
    }
  }

  lemma {:induction false} RenderTokenizeAtMatch(s: string, from: nat, m: Span)
    requires from <= |s| && FindMatch(s, from) == Some(m)
    ensures Render(TokenizeFrom(s, from)) == s[from..]
    decreases |s| - from, 0
  {
    var o, c, e := m.open, m.close, m.End();
    var lit, name, rest := s[from..o], s[o + 2..c], TokenizeFrom(s, e);
    assert TokenizeFrom(s, from) == [Text(lit), Hole(name)] + rest by {
      TokenizeAtMatch(s, from, m);
    }
    assert Render(rest) == s[e..] by {
      RenderTokenize(s, e);
    }
    assert s[from..] == lit + ("{{" + name + "}}") + s[e..] by {
      FindMatchDelimits(s, from);
      SpliceMatch(s, from, o, c);
    }
    RenderStep(TokenizeFrom(s, from), lit, name, rest, s[e..], s[from..]);
  }

  /** Rendering a literal and a hole in front of pieces that render as
      `tail`. */
  lemma RenderStep(ps: seq<Piece>, lit: string, name: string, rest: seq<Piece>, tail: string, whole: string)
    requires ps == [Text(lit), Hole(name)] + rest && Render(rest) == tail
    requires whole == lit + ("{{" + name + "}}") + tail
    ensures Render(ps) == whole
  {
    RenderPair(Text(lit), Hole(name), rest);
  }

  /** One step of the tokenizer at a known match. */
  lemma TokenizeAtMatch(s: string, from: nat, m: Span)
    requires from <= |s| && FindMatch(s, from) == Some(m)
    ensures TokenizeFrom(s, from) == [Text(s[from..m.open]), Hole(s[m.open + 2..m.close])] + TokenizeFrom(s, m.End())
  {
  }

  /** A text cut around a match: what precedes it, the two delimiters and
      the capture between them, and what follows it. */
  lemma SpliceMatch(s: string, from: nat, o: nat, c: nat)
    requires from <= o && o + 2 <= c && c + 2 <= |s|
    requires OpensAt(s, o) && ClosesAt(s, c)
    ensures s[from..] == s[from..o] + ("{{" + s[o + 2..c] + "}}") + s[c + 2..]
  {
    assert s[o..o + 2] == "{{";
    assert s[c..c + 2] == "}}";
    assert s[from..] == s[from..o] + s[o..o + 2] + s[o + 2..c] + s[c..c + 2] + s[c + 2..];
  }

  lemma RenderTokenizeAll(s: string)
    ensures Render(Tokenize(s)) == s
  {
    RenderTokenize(s, 0);
  }

  /** A text without any `{{ … }}` pair on one line is one literal piece,
      and only such a text is; replacing leaves it unchanged. */
  lemma NoMatchIdentity(s: string, env: Env)
    ensures NoMatchFrom(s, 0) <==> Tokenize(s) == [Text(s)]
    ensures NoMatchFrom(s, 0) ==> Replace(s, env) == s
  {
    FindMatchSpec(s, 0);
  }

  /** Replacing reads the environment only at the names the text captures. */
  lemma {:induction false} SubstituteFrame(ps: seq<Piece>, e1: Env, e2: Env)
    requires forall k :: 0 <= k < |ps| && ps[k].Hole? ==> Lookup(e1, ps[k].name) == Lookup(e2, ps[k].name)
    ensures Substitute(ps, e1) == Substitute(ps, e2)
  {
    if |ps| > 0 {
      assert Fill(ps[0], e1) == Fill(ps[0], e2);
      SubstituteFrame(ps[1..], e1, e2);
    }
  }

  /** A name that is not set behaves exactly as if it were set to the empty
      string: the placeholder disappears and the replacement still succeeds. */
  lemma MissingIsEmpty(s: string, env: Env, name: string)
    requires name !in env
    ensures Replace(s, env) == Replace(s, env[name := ""])
  {
    var ps := Tokenize(s);
    forall k | 0 <= k < |ps| && ps[k].Hole?
      ensures Lookup(env, ps[k].name) == Lookup(env[name := ""], ps[k].name)
    {
    }
    SubstituteFrame(ps, env, env[name := ""]);
    ReplaceIsSubstitute(s, env, 0);
    ReplaceIsSubstitute(s, env[name := ""], 0);
  }

  /** Filling every hole with its own placeholder gives back the text it
      came from: replacement changes nothing but the holes. */
  lemma {:induction false} SubstituteQuoting(ps: seq<Piece>, env: Env)
    requires forall k :: 0 <= k < |ps| && ps[k].Hole? ==> Lookup(env, ps[k].name) == "{{" + ps[k].name + "}}"
    ensures Substitute(ps, env) == Render(ps)
  {
    if |ps| > 0 {
      SubstituteQuoting(ps[1..], env);
    }
  }

  lemma ReplaceQuoting(s: string, env: Env)
    requires forall k :: 0 <= k < |Tokenize(s)| && Tokenize(s)[k].Hole? ==>
      Lookup(env, Tokenize(s)[k].name) == "{{" + Tokenize(s)[k].name + "}}"
    ensures Replace(s, env) == s
  {
    SubstituteQuoting(Tokenize(s), env);
    RenderTokenizeAll(s);
    ReplaceIsSubstitute(s, env, 0);
  }

  lemma SubstituteTriple(x: Piece, y: Piece, z: Piece, env: Env)
    ensures Substitute([x, y, z], env) == Fill(x, env) + Fill(y, env) + Fill(z, env)
  {
    SubstitutePair(x, y, [z], env);
    SubstituteSingle(z, env);
    assert [x, y] + [z] == [x, y, z];
  }

  /** Literal text and holes alternate, starting and ending with literal
      text. */
  predicate Alternates(ps: seq<Piece>) {
    |ps| % 2 == 1 && forall k :: 0 <= k < |ps| ==> (ps[k].Hole? <==> k % 2 == 1)
  }

  lemma AlternatesCons(text: string, name: string, rest: seq<Piece>)
    requires Alternates(rest)
    ensures Alternates([Text(text), Hole(name)] + rest)
  {
    var ps := [Text(text), Hole(name)] + rest;
    forall k | 2 <= k < |ps|
      ensures ps[k] == rest[k - 2]
    {
    }
  }

  /** The pieces alternate between literal text and holes, starting and
      ending with literal text. */
  lemma {:induction false} TokenizeAlternates(s: string, from: nat)
    requires from <= |s|
    ensures Alternates(TokenizeFrom(s, from))
    decreases |s| - from
  {
    if FindMatch(s, from).Some? {
      var m := FindMatch(s, from).value;
      TokenizeAtMatch(s, from, m);
      TokenizeAlternates(s, m.End());
      AlternatesCons(s[from..m.open], s[m.open + 2..m.close], TokenizeFrom(s, m.End()));
    }
  }

  /** No capture holds a line feed. */
  predicate HolesOnOneLine(ps: seq<Piece>) {
    forall k :: 0 <= k < |ps| && ps[k].Hole? ==> '\n' !in ps[k].name
  }

  lemma {:induction false} HoleNamesOnOneLine(s: string, from: nat)
    requires from <= |s|
    ensures HolesOnOneLine(TokenizeFrom(s, from))
    decreases |s| - from
  {
    if FindMatch(s, from).Some? {
      var m := FindMatch(s, from).value;
      var name := s[m.open + 2..m.close];
      TokenizeAtMatch(s, from, m);
      HoleNamesOnOneLine(s, m.End());
      assert '\n' !in name by {
        FindMatchSpec(s, from);
        assert OnOneLine(s, m.open + 2, m.close);
      }
      HolesOnOneLineCons(s[from..m.open], name, TokenizeFrom(s, m.End()));
    }
  }

  lemma HolesOnOneLineCons(text: string, name: string, rest: seq<Piece>)
    requires '\n' !in name && HolesOnOneLine(rest)
    ensures HolesOnOneLine([Text(text), Hole(name)] + rest)
  {
    var ps := [Text(text), Hole(name)] + rest;
    forall k | 2 <= k < |ps|
      ensures ps[k] == rest[k - 2]
    {
    }
  }

  /** Every literal text strictly between two holes holds a line feed. */
  predicate TextsBreakLines(ps: seq<Piece>) {
    forall k :: 0 < k < |ps| - 1 && ps[k].Text? ==> '\n' in ps[k].text
  }

  lemma TextsBreakLinesCons(text: string, name: string, rest: seq<Piece>)
    requires TextsBreakLines(rest)
    requires |rest| > 1 ==> rest[0].Text? && '\n' in rest[0].text
    ensures TextsBreakLines([Text(text), Hole(name)] + rest)
  {
    var ps := [Text(text), Hole(name)] + rest;
    forall k | 2 <= k < |ps|
      ensures ps[k] == rest[k - 2]
    {
    }
  }

  /** The literal text between two holes always holds a line feed: each line
      of the text yields at most one hole. */
  lemma {:induction false} HolesOnSeparateLines(s: string, from: nat)
    requires from <= |s|
    ensures TextsBreakLines(TokenizeFrom(s, from))
    decreases |s| - from
  {
    if FindMatch(s, from).Some? {
      var m := FindMatch(s, from).value;
      var rest := TokenizeFrom(s, m.End());
      TokenizeAtMatch(s, from, m);
      HolesOnSeparateLines(s, m.End());
      if |rest| > 1 {
        FirstTextBreaksLine(s, from, m);
      }
      TextsBreakLinesCons(s[from..m.open], s[m.open + 2..m.close], rest);
    }
  }

  /** After a match, the literal text up to the next match holds a line
      feed. */
  lemma FirstTextBreaksLine(s: string, from: nat, m: Span)
    requires from <= |s| && FindMatch(s, from) == Some(m)
    requires |TokenizeFrom(s, m.End())| > 1
    ensures TokenizeFrom(s, m.End())[0].Text? && '\n' in TokenizeFrom(s, m.End())[0].text
  {
    var e := m.End();
    assert FindMatch(s, e).Some?;
    var m2 := FindMatch(s, e).value;
    assert IsFirstMatch(s, from, m) by {
      FindMatchSpec(s, from);
    }
    assert IsMatchAt(s, m2.open, m2.close) by {
      FindMatchSpec(s, e);
    }
    NextMatchOnLaterLine(s, from, m, m2);
    var x :| e <= x < m2.open && s[x] == '\n';
    TokenizeAtMatch(s, e, m2);
    assert s[e..m2.open][x - e] == '\n';
  }

  /** Placeholders on one line: a text without line feeds is replaced at most
      once, however many `{{`s and `}}`s it holds. */
  lemma OneHolePerLine(s: string)
    requires '\n' !in s
    ensures |Tokenize(s)| <= 3
  {
    FindMatchSpec(s, 0);
    if FindMatch(s, 0).Some? {
      var m := FindMatch(s, 0).value;
      FindMatchSpec(s, m.End());
      if FindMatch(s, m.End()).Some? {
        var m2 := FindMatch(s, m.End()).value;
        NextMatchOnLaterLine(s, 0, m, m2);
        assert false;
      }
      assert TokenizeFrom(s, m.End()) == [Text(s[m.End()..])];
      assert Tokenize(s) == [Text(s[..m.open]), Hole(s[m.open + 2..m.close])] + [Text(s[m.End()..])];
    }
  }

  /** A line that starts with `{{` and ends with `}}` is one match, whatever
      it holds in between: the capture runs from the first `{{` to the last
      `}}`. */
  lemma WholeLine(s: string)
    requires |s| >= 4 && OpensAt(s, 0) && ClosesAt(s, |s| - 2) && '\n' !in s
    ensures Tokenize(s) == [Text(""), Hole(s[2..|s| - 2]), Text("")]
  {
    var m := Span(0, |s| - 2);
    assert IsMatchAt(s, 0, |s| - 2);
    assert IsFirstMatch(s, 0, m);
    FindMatchSpec(s, 0);
    FirstMatchUnique(s, 0, FindMatch(s, 0).value, m);
    assert FindMatch(s, |s|) == None;
    assert TokenizeFrom(s, |s|) == [Text(s[|s|..])];
    assert s[|s|..] == "";
  }

  /** A line that is one match is replaced by the value of its capture. */
  lemma ReplaceWholeLine(s: string, env: Env)
    requires |s| >= 4 && OpensAt(s, 0) && ClosesAt(s, |s| - 2) && '\n' !in s
    ensures Replace(s, env) == Lookup(env, s[2..|s| - 2])
  {
    WholeLine(s);
    ReplaceIsSubstitute(s, env, 0);
    SubstituteTriple(Text(""), Hole(s[2..|s| - 2]), Text(""), env);
  }

  /** The greedy quirk: two placeholders on one line are one match, whose
      capture is everything between the first `{{` and the last `}}`. */
  lemma GreedyCapture(env: Env)
    ensures Tokenize("{{A}} x {{B}}") == [Text(""), Hole("A}} x {{B"), Text("")]
    ensures Replace("{{A}} x {{B}}", env) == Lookup(env, "A}} x {{B")
  {
    var s := "{{A}} x {{B}}";
    assert s[2..|s| - 2] == "A}} x {{B";
    WholeLine(s);
    ReplaceWholeLine(s, env);
  }

  /** The capture is looked up as it is, blanks included. */
  lemma NoTrimming(env: Env)
    ensures Replace("{{ A }}", env) == Lookup(env, " A ")
  {
    var s := "{{ A }}";
    assert s[2..|s| - 2] == " A ";
    ReplaceWholeLine(s, env);
  }

  /** A value is inserted as it is: the placeholders it holds are not
      replaced in turn. */
  lemma NoRescan()
    ensures Replace("{{A}}", map["A" := "{{B}}", "B" := "x"]) == "{{B}}"
  {
    var s := "{{A}}";
    assert s[2..|s| - 2] == "A";
    ReplaceWholeLine(s, map["A" := "{{B}}", "B" := "x"]);
  }

  /** The characters of `a + "{{" + k + "}}" + b`, position by position. */
  lemma PlaceholderChars(a: string, k: string, b: string)
    ensures var s := a + "{{" + k + "}}" + b;
      var o, c := |a|, |a| + 2 + |k|;
      && |s| == c + 2 + |b|
      && (forall x :: 0 <= x < o ==> s[x] == a[x])
      && s[o] == '{' && s[o + 1] == '{'
      && (forall x :: o + 2 <= x < c ==> s[x] == k[x - o - 2])
      && s[c] == '}' && s[c + 1] == '}'
      && (forall x :: c + 2 <= x < |s| ==> s[x] == b[x - c - 2])
      && s[..o] == a && s[o + 2..c] == k && s[c + 2..] == b
  {
  }

  /** A text with exactly one match splits into the text before it, its
      capture and the text after it, and only the match is replaced. */
  lemma OnlyMatch(s: string, o: nat, c: nat, env: Env)
    requires IsMatchAt(s, o, c)
    requires forall i, j :: IsMatchAt(s, i, j) ==> i == o && j == c
    ensures Tokenize(s) == [Text(s[..o]), Hole(s[o + 2..c]), Text(s[c + 2..])]
    ensures Replace(s, env) == s[..o] + Lookup(env, s[o + 2..c]) + s[c + 2..]
  {
    OnlyMatchFound(s, o, c);
    assert TokenizeFrom(s, c + 2) == [Text(s[c + 2..])];
    assert TokenizeFrom(s, 0) == [Text(s[..o]), Hole(s[o + 2..c])] + [Text(s[c + 2..])] by {
      TokenizeAtMatch(s, 0, Span(o, c));
    }
    ReplaceIsSubstitute(s, env, 0);
    SubstituteTriple(Text(s[..o]), Hole(s[o + 2..c]), Text(s[c + 2..]), env);
  }

  /** The scanner finds the one match and nothing after it. */
  lemma OnlyMatchFound(s: string, o: nat, c: nat)
    requires IsMatchAt(s, o, c)
    requires forall i, j :: IsMatchAt(s, i, j) ==> i == o && j == c
    ensures FindMatch(s, 0) == Some(Span(o, c)) && FindMatch(s, c + 2).None?
  {
    assert FindMatch(s, 0) == Some(Span(o, c)) by {
      FindMatchSpec(s, 0);
    }
    assert FindMatch(s, c + 2).None? by {
      FindMatchSpec(s, c + 2);
    }
  }

  /** One placeholder: when `{{k}}` is the only match in the text, the text
      is copied with that span replaced by the value of `k`, and nothing
      else changes. */
  lemma SinglePlaceholder(a: string, k: string, b: string, env: Env)
    requires '\n' !in k
    requires forall i, j :: IsMatchAt(a + "{{" + k + "}}" + b, i, j) ==> i == |a| && j == |a| + 2 + |k|
    ensures Tokenize(a + "{{" + k + "}}" + b) == [Text(a), Hole(k), Text(b)]
    ensures Replace(a + "{{" + k + "}}" + b, env) == a + Lookup(env, k) + b
  {
    var s := a + "{{" + k + "}}" + b;
    var o, c := |a|, |a| + 2 + |k|;
    assert IsMatchAt(s, o, c) && s[..o] == a && s[o + 2..c] == k && s[c + 2..] == b by {
      PlaceholderChars(a, k, b);
      forall x | o + 2 <= x < c
        ensures s[x] != '\n'
      {
        assert s[x] == k[x - o - 2];
      }
    }
    OnlyMatch(s, o, c, env);
  }

  /** No braces around the placeholder and none in the name: then `{{k}}` is
      the only match, so the one-placeholder case applies. */
  lemma SinglePlaceholderNoBraces(a: string, k: string, b: string, env: Env)
    requires '{' !in a && '}' !in a && '{' !in b && '}' !in b
    requires '{' !in k && '}' !in k && '\n' !in k
    ensures Replace(a + "{{" + k + "}}" + b, env) == a + Lookup(env, k) + b
  {
    var s := a + "{{" + k + "}}" + b;
    var o, c := |a|, |a| + 2 + |k|;
    PlaceholderChars(a, k, b);
    forall x | 0 <= x < |s|
      ensures s[x] == '{' ==> x == o || x == o + 1
      ensures s[x] == '}' ==> x == c || x == c + 1
    {
      if x < o {
        assert a[x] in a;
      } else if o + 2 <= x < c {
        assert k[x - o - 2] in k;
      } else if c + 2 <= x {
        assert b[x - c - 2] in b;
      }
    }
    SinglePlaceholder(a, k, b, env);
  }

  /** One step of the scanner at a known match. */
  lemma ReplaceAtMatch(s: string, env: Env, from: nat, m: Span)
    requires from <= |s| && FindMatch(s, from) == Some(m)
    ensures ReplaceFrom(s, env, from) ==
      s[from..m.open] + Lookup(env, s[m.open + 2..m.close]) + ReplaceFrom(s, env, m.End())
  {
  }

  /** One step of `replace_all`, at the match the declarative description
      picks: the text before it is copied, the match gives way to the value
      of its capture, and the search resumes after the match. */
  lemma ReplaceAtFirstMatch(s: string, env: Env, from: nat, m: Span)
    requires from <= |s| && IsFirstMatch(s, from, m)
    ensures ReplaceFrom(s, env, from) ==
      s[from..m.open] + Lookup(env, s[m.open + 2..m.close]) + ReplaceFrom(s, env, m.End())
  {
    FindMatchSpec(s, from);
    FirstMatchUnique(s, from, FindMatch(s, from).value, m);
    ReplaceAtMatch(s, env, from, m);
  }

  /** Replacing a suffix of a text is replacing the text from where the
      suffix starts. */
  lemma {:induction false} ReplaceShift(s: string, d: nat, t: string, env: Env, k: nat)
    requires d <= |s| && s[d..] == t && k <= |t|
    ensures ReplaceFrom(s, env, d + k) == ReplaceFrom(t, env, k)
    decreases |t| - k, 1
  {
    assert FindMatch(s, d + k) == ShiftSpan(FindMatch(t, k), d) by {
      SuffixAtSlice(s, d, t);
      FindMatchShift(s, d, t, k);
    }
    if FindMatch(t, k).None? {
      assert s[d + k..] == t[k..];
    } else {
      ReplaceShiftAtMatch(s, d, t, env, k, FindMatch(t, k).value);
    }
  }

  lemma {:induction false} ReplaceShiftAtMatch(s: string, d: nat, t: string, env: Env, k: nat, m: Span)
    requires d <= |s| && s[d..] == t && k <= |t| && FindMatch(t, k) == Some(m)
    requires FindMatch(s, d + k) == Some(Span(d + m.open, d + m.close))
    ensures ReplaceFrom(s, env, d + k) == ReplaceFrom(t, env, k)
    decreases |t| - k, 0
  {
    ReplaceShift(s, d, t, env, m.End());
    SliceOfSuffix(s, d, t, k, m.open);
    SliceOfSuffix(s, d, t, m.open + 2, m.close);
    ReplaceShiftStep(s, d, t, env, k, m);
  }

  /** One step of the scanner, read in a text and at an offset `d` into
      another text that agrees with it up to the match and on its capture. */
  lemma ReplaceShiftStep(s: string, d: nat, t: string, env: Env, k: nat, m: Span)
    requires d + k <= |s| && k <= |t| && FindMatch(t, k) == Some(m)
    requires FindMatch(s, d + k) == Some(Span(d + m.open, d + m.close))
    requires s[d + k..d + m.open] == t[k..m.open] && s[d + (m.open + 2)..d + m.close] == t[m.open + 2..m.close]
    requires ReplaceFrom(s, env, d + m.End()) == ReplaceFrom(t, env, m.End())
    ensures ReplaceFrom(s, env, d + k) == ReplaceFrom(t, env, k)
  {
    var m' := Span(d + m.open, d + m.close);
    assert m'.open + 2 == d + (m.open + 2);
    ReplaceStepsAgree(s, d + k, m', t, k, m, env, d + m.End());
  }

  /** The scanners on two texts, each at a match, agree when the texts agree
      up to the match and on its capture, and the scanners agree after it. */
  lemma ReplaceStepsAgree(s: string, i: nat, ms: Span, t: string, j: nat, mt: Span, env: Env, e: nat)
    requires i <= |s| && FindMatch(s, i) == Some(ms)
    requires j <= |t| && FindMatch(t, j) == Some(mt)
    requires s[i..ms.open] == t[j..mt.open] && s[ms.open + 2..ms.close] == t[mt.open + 2..mt.close]
    requires e == ms.End() && ReplaceFrom(s, env, e) == ReplaceFrom(t, env, mt.End())
    ensures ReplaceFrom(s, env, i) == ReplaceFrom(t, env, j)
  {
    ReplaceAtMatch(s, env, i, ms);
    ReplaceAtMatch(t, env, j, mt);
  }

  lemma SliceOfSuffix(s: string, d: nat, t: string, a: nat, b: nat)
    requires d <= |s| && s[d..] == t && a <= b <= |t|
    ensures s[d + a..d + b] == t[a..b]
  {
    forall x | 0 <= x < b - a
      ensures s[d + a..d + b][x] == t[a..b][x]
    {
      assert s[d..][a + x] == t[a + x];
    }
  }

  /** Where the search resumes after a stretch without a match start, the
      stretch is copied as it is. */
  lemma ReplaceSkip(s: string, env: Env, from: nat, n: nat)
    requires from <= n <= |s|
    requires FindMatch(s, from) == FindMatch(s, n)
    ensures ReplaceFrom(s, env, from) == s[from..n] + ReplaceFrom(s, env, n)
  {
    if FindMatch(s, n).None? {
      assert s[from..] == s[from..n] + s[n..];
    } else {
      ReplaceSkipToMatch(s, env, from, n, FindMatch(s, n).value);
    }
  }

  lemma ReplaceSkipToMatch(s: string, env: Env, from: nat, n: nat, m: Span)
    requires from <= n <= |s|
    requires FindMatch(s, from) == Some(m) && FindMatch(s, n) == Some(m)
    ensures ReplaceFrom(s, env, from) == s[from..n] + ReplaceFrom(s, env, n)
  {
    var v, rest := Lookup(env, s[m.open + 2..m.close]), ReplaceFrom(s, env, m.End());
    var a, b := s[from..n], s[n..m.open];
    assert ReplaceFrom(s, env, from) == s[from..m.open] + v + rest by {
      ReplaceAtMatch(s, env, from, m);
    }
    assert ReplaceFrom(s, env, n) == b + v + rest by {
      ReplaceAtMatch(s, env, n, m);
    }
    assert s[from..m.open] == a + b by {
      SliceSplit(s, from, n, m.open);
    }
    ConcatAssoc(a, b, v);
    ConcatAssoc(a, b + v, rest);
  }

  lemma SliceSplit(s: string, i: nat, j: nat, k: nat)
    requires i <= j <= k <= |s|
    ensures s[i..k] == s[i..j] + s[j..k]
  {
  }

  lemma {:induction false} ReplaceFirstLine(s: string, l1: string, l2: string, env: Env, from: nat)
    requires FirstLine(s, l1) && SuffixAt(s, |l1| + 1, l2) && from <= |l1|
    ensures ReplaceFrom(s, env, from) == ReplaceFrom(l1, env, from) + "\n" + ReplaceFrom(l2, env, 0)
    decreases |l1| - from, 1
  {
    FindMatchFirstLine(s, l1, from);
    if FindMatch(l1, from).Some? {
      ReplaceFirstLineAtMatch(s, l1, l2, env, from, FindMatch(l1, from).value);
    } else {
      ReplaceFirstLineNoMatch(s, l1, l2, env, from);
    }
  }

  lemma ReplaceFirstLineNoMatch(s: string, l1: string, l2: string, env: Env, from: nat)
    requires FirstLine(s, l1) && SuffixAt(s, |l1| + 1, l2) && from <= |l1|
    requires FindMatch(l1, from).None? && FindMatch(s, from) == FindMatch(s, |l1| + 1)
    ensures ReplaceFrom(s, env, from) == ReplaceFrom(l1, env, from) + "\n" + ReplaceFrom(l2, env, 0)
  {
    var n := |l1| + 1;
    assert ReplaceFrom(s, env, from) == s[from..n] + ReplaceFrom(s, env, n) by {
      ReplaceSkip(s, env, from, n);
    }
    assert ReplaceFrom(s, env, n) == ReplaceFrom(l2, env, 0) by {
      SuffixAtSlice(s, n, l2);
      ReplaceShift(s, n, l2, env, 0);
    }
    assert s[from..n] == ReplaceFrom(l1, env, from) + "\n" by {
      FirstLineBreak(s, l1, from);
    }
  }

  lemma {:induction false} ReplaceFirstLineAtMatch(s: string, l1: string, l2: string, env: Env, from: nat, m: Span)
    requires FirstLine(s, l1) && SuffixAt(s, |l1| + 1, l2) && from <= |l1|
    requires FindMatch(l1, from) == Some(m) && FindMatch(s, from) == Some(m)
    ensures ReplaceFrom(s, env, from) == ReplaceFrom(l1, env, from) + "\n" + ReplaceFrom(l2, env, 0)
    decreases |l1| - from, 0
  {
    ReplaceFirstLine(s, l1, l2, env, m.End());
    ReplaceAtMatch(s, env, from, m);
    ReplaceAtMatch(l1, env, from, m);
    FirstLineSlice(s, l1, from, m.open);
    FirstLineSlice(s, l1, m.open + 2, m.close);
    var a := l1[from..m.open] + Lookup(env, l1[m.open + 2..m.close]);
    var b := ReplaceFrom(l1, env, m.End());
    ConcatAssoc(a, b, "\n");
    ConcatAssoc(a, b + "\n", ReplaceFrom(l2, env, 0));
  }

  /** Lines are replaced independently: a line feed is copied, and the text
      on each side of it is replaced as if it stood alone. */
  lemma Locality(l1: string, l2: string, env: Env)
    ensures Replace(l1 + "\n" + l2, env) == Replace(l1, env) + "\n" + Replace(l2, env)
  {
    var s := l1 + "\n" + l2;
    assert FirstLine(s, l1);
    assert SuffixAt(s, |l1| + 1, l2);
    ReplaceFirstLine(s, l1, l2, env, 0);
  }
}
