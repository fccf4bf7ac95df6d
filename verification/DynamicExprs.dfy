/** Classification of configuration values as dynamic expressions, and the snapshot form they are written in. */
module DynamicExprs {
  import opened Wrappers
  import opened Text
  import opened ExprTokens
  import opened TokenRoundTrip

  /** YAML values as far as classification looks at them. */
  datatype Yaml = Str(text: string) | Tagged(tag: string, value: Yaml) | Other

  datatype DynamicExpr = Standalone(expr: string) | Interpolated(tokens: seq<Token>) | Lua(code: string)

  const LUA_TAG := "!lua"

  /** `as_str`: the text of a string, also under further tags. */
  function AsStr(value: Yaml): Option<string> {
    match value
    case Str(text) => Some(text)
    case Tagged(_, inner) => AsStr(inner)
    case Other => None
  }

  predicate Blank(t: Token) {
    t.Literal? && Trim(t.text) == []
  }

  /** One expression with at most white space around it. */
  ghost predicate OnlyExpression(tokens: seq<Token>, at: nat) {
    at < |tokens| && tokens[at].Expression? && forall i :: 0 <= i < |tokens| && i != at ==> Blank(tokens[i])
  }

  ghost predicate IsStandalone(tokens: seq<Token>) {
    exists at: nat :: OnlyExpression(tokens, at)
  }

  /** `is_standalone_tokens` together with `extract_expr_from_standalone`. */
  method FindStandalone(tokens: seq<Token>) returns (expr: Option<string>)
    ensures expr.Some? <==> IsStandalone(tokens)
    ensures forall at: nat :: OnlyExpression(tokens, at) ==> expr == Some(tokens[at].text)
  {
    expr := None;
    ghost var at := 0;
    for i := 0 to |tokens|
      invariant expr.None? ==> forall k :: 0 <= k < i ==> Blank(tokens[k])
      invariant expr.Some? ==> 0 <= at < i && tokens[at] == Expression(expr.value)
      invariant expr.Some? ==> forall k :: 0 <= k < i && k != at ==> Blank(tokens[k])
    {
      match tokens[i] {
        case Expression(text) =>
          if expr.Some? {
            return None;
          }
          expr := Some(text);
          at := i;
        case Literal(text) =>
          if Trim(text) != [] {
            return None;
          }
      }
    }
    if expr.Some? {
      assert OnlyExpression(tokens, at);
    }
  }

  ghost function StandaloneAt(tokens: seq<Token>): nat
    requires IsStandalone(tokens)
    ensures OnlyExpression(tokens, StandaloneAt(tokens))
  {
    var at: nat :| OnlyExpression(tokens, at); at
  }

  ghost function ClassifyText(s: string): DynamicExpr {
    var tokens := Tokens(s);
    if IsStandalone(tokens) then Standalone(tokens[StandaloneAt(tokens)].text) else Interpolated(tokens)
  }

  ghost function ClassifyValue(value: Yaml): Option<DynamicExpr> {
    match value
    case Tagged(tag, inner) => if tag == LUA_TAG && AsStr(inner).Some? then Some(Lua(AsStr(inner).value)) else None
    case Str(s) => if Contains(s, OPEN) then Some(ClassifyText(s)) else None
    case Other => None
  }

  /** `DynamicExpr::classify` */
  method Classify(value: Yaml) returns (r: Option<DynamicExpr>)
    ensures r == ClassifyValue(value)
  {
    match value {
      case Tagged(tag, inner) =>
        var code := AsStr(inner);
        if tag == LUA_TAG && code.Some? {
          return Some(Lua(code.value));
        }
        return None;
      case Str(s) =>
        if !Contains(s, OPEN) {
          return None;
        }
        var tokens := ParseExprTokens(s);
        var standalone := FindStandalone(tokens);
        if standalone.Some? {
          assert OnlyExpression(tokens, StandaloneAt(tokens));
          return Some(Standalone(standalone.value));
        }
        return Some(Interpolated(tokens));
      case Other =>
        return None;
    }
  }

  /** `to_yaml_value` */
  function ToYaml(d: DynamicExpr): Yaml {
    match d
    case Standalone(expr) => Str(PrintToken(Expression(expr)))
    case Interpolated(tokens) => Str(Print(tokens))
    case Lua(code) => Tagged(LUA_TAG, Str(code))
  }

  // ----- round trip

  lemma {:induction false} TokenOrigins(s: string, i: nat)
    requires i < |Tokens(s)|
    ensures Tokens(s)[i].Expression? ==> Clean(Tokens(s)[i])
    decreases |s|
  {
    TokensStep(s);
    ScanFacts(s);
    var r := Scan(s);
    if !r.Plain? {
      var n := |LiteralBefore(r.before)|;
      if i == n && r.Closed? {
        TrimmedBodyIsClean(r.body);
      } else if i > n {
        TokenOrigins(r.rest, i - n - 1);
      }
    }
  }

  /** A marker left unclosed ends up in a literal, which is not white space. */
  lemma {:induction false} StandaloneIsWellClosed(s: string)
    requires forall i :: 0 <= i < |Tokens(s)| ==> Tokens(s)[i].Expression? || Blank(Tokens(s)[i])
    ensures WellClosed(s)
    decreases |s|
  {
    TokensStep(s);
    var r := Scan(s);
    if !r.Plain? {
      AllTokens(LiteralBefore(r.before), ScannedToken(r), Tokens(r.rest));
      if r.Unclosed? {
        MarkerNotBlank(r.before);
      }
      StandaloneIsWellClosed(r.rest);
    }
  }

  lemma AllTokens(before: seq<Token>, t: Token, behind: seq<Token>)
    requires var all := before + [t] + behind; forall i :: 0 <= i < |all| ==> all[i].Expression? || Blank(all[i])
    ensures t.Expression? || Blank(t)
    ensures forall i :: 0 <= i < |behind| ==> behind[i].Expression? || Blank(behind[i])
  {
    var all := before + [t] + behind;
    assert all[|before|] == t;
    forall i | 0 <= i < |behind| ensures behind[i].Expression? || Blank(behind[i]) {
      assert all[|before| + 1 + i] == behind[i];
    }
  }

  lemma MarkerNotBlank(before: string)
    ensures Trim(before + OPEN) != []
  {
    var s := before + OPEN;
    assert s[|s| - 1] == '{';
    var i := TrimStartCut(s);
    assert i < |s| by { TrimStartStops(s); }
  }

  lemma {:induction false} TrimStartStops(s: string)
    requires s != [] && !IsWhitespace(s[|s| - 1])
    ensures TrimStart(s) != [] && TrimStart(s)[|TrimStart(s)| - 1] == s[|s| - 1]
  {
    if IsWhitespace(s[0]) {
      TrimStartStops(s[1..]);
    }
  }

  lemma StandaloneAgain(e: string)
    requires Clean(Expression(e))
    ensures Contains(PrintToken(Expression(e)), OPEN) && ClassifyText(PrintToken(Expression(e))) == Standalone(e)
  {
    var s := PrintToken(Expression(e));
    TokensOfPrinted(e);
    assert OnlyExpression(Tokens(s), 0);
    assert At(s, 0, OPEN);
  }

  lemma TokensOfPrinted(e: string)
    requires Clean(Expression(e))
    ensures Tokens(PrintToken(Expression(e))) == [Expression(e)]
  {
    var s := PrintToken(Expression(e));
    PrintedScans([], e, []);
    assert [] + (s + []) == s;
    TokensStep([]);
  }

  lemma ContainsInEither(x: string, y: string, pat: string)
    requires Contains(x, pat) || Contains(y, pat)
    ensures Contains(x + y, pat)
  {
    assert (x + y)[0..|x|] == x && (x + y)[|x|..|x + y|] == y;
    if !Contains(x + y, pat) {
      PieceContains(x + y, 0, |x|, pat);
      PieceContains(x + y, |x|, |x + y|, pat);
    }
  }

  lemma {:induction false} PrintKeepsMarker(tokens: seq<Token>, i: nat)
    requires i < |tokens| && (tokens[i].Expression? || Contains(tokens[i].text, OPEN))
    ensures Contains(Print(tokens), OPEN)
  {
    if i == 0 {
      if tokens[0].Expression? {
        assert At(PrintToken(tokens[0]), 0, OPEN);
      }
    } else {
      PrintKeepsMarker(tokens[1..], i - 1);
    }
    ContainsInEither(PrintToken(tokens[0]), Print(tokens[1..]), OPEN);
  }

  /** A string with a marker has a token that prints one. */
  lemma MarkerHasToken(s: string) returns (i: nat)
    requires Contains(s, OPEN)
    ensures i < |Tokens(s)| && (Tokens(s)[i].Expression? || Contains(Tokens(s)[i].text, OPEN))
  {
    TokensStep(s);
    var r := Scan(s);
    i := |LiteralBefore(r.before)|;
    if r.Unclosed? {
      var text := r.before + OPEN;
      assert text[|r.before|..|r.before| + 3] == OPEN;
      assert At(text, |r.before|, OPEN);
    }
  }

  /**
   Writing a classified value out and classifying it again gives the same value, exactly
   when the original string has no text before an unclosed marker.
   */
  lemma ClassifyRoundTrip(s: string)
    requires Contains(s, OPEN)
    ensures ClassifyValue(Str(s)).Some?
    ensures ClassifyValue(ToYaml(ClassifyValue(Str(s)).value)) == ClassifyValue(Str(s)) <==> NothingBeforeUnclosed(s)
  {
    var tokens := Tokens(s);
    if IsStandalone(tokens) {
      var at := StandaloneAt(tokens);
      TokenOrigins(s, at);
      StandaloneAgain(tokens[at].text);
      StandaloneIsWellClosed(s);
      WellClosedIsFine(s);
    } else {
      var i := MarkerHasToken(s);
      PrintKeepsMarker(tokens, i);
      RoundTripIffNothingBefore(s);
    }
  }

  /** The documented case: every marker closed. */
  lemma WellClosedRoundTrip(s: string)
    requires Contains(s, OPEN) && WellClosed(s)
    ensures ClassifyValue(ToYaml(ClassifyText(s))) == Some(ClassifyText(s))
  {
    WellClosedIsFine(s);
    ClassifyRoundTrip(s);
  }

  lemma LuaRoundTrip(code: string)
    ensures ClassifyValue(ToYaml(Lua(code))) == Some(Lua(code))
  {
  }

  /** The excluded case: the text before an unclosed marker comes out doubled. */
  lemma UnclosedExample()
    ensures Tokens("a${{") == [Literal("a"), Literal("a${{")]
    ensures ClassifyValue(ToYaml(ClassifyText("a${{"))) != Some(ClassifyText("a${{"))
  {
    var s := "a${{";
    assert s[0..3][0] == 'a' && s[1..4] == OPEN;
    assert At(s, 1, OPEN) && !At(s, 0, OPEN);
    FindIs(s, OPEN, 1);
    assert s[4..] == [] && s[..1] == "a";
    assert Find([], CLOSE) == None;
    assert Scan(s) == Unclosed("a", []);
    assert "a" + OPEN == s;
    TokensStep(s);
    TokensStep([]);
    assert Find([], OPEN) == None;
    assert !NothingBeforeUnclosed(s);
    ClassifyRoundTrip(s);
  }

  /**
   What is dynamic at all: a string with a marker, and a string under the `!lua` tag,
   which is its code. Any other string with a marker is kept as its tokens.
   */
  lemma DynamicExactly(value: Yaml)
    ensures ClassifyValue(value).Some? <==>
              || (value.Str? && Contains(value.text, OPEN))
              || (value.Tagged? && value.tag == "!lua" && AsStr(value.value).Some?)
    ensures forall code :: ClassifyValue(value) == Some(Lua(code)) <==>
              value.Tagged? && value.tag == "!lua" && AsStr(value.value) == Some(code)
    ensures forall tokens :: ClassifyValue(value) == Some(Interpolated(tokens)) ==> value.Str? && tokens == Tokens(value.text)
  {
  }

  // ----- what is standalone, told from the string

  /** Between blanks, the string is one marker, its closing marker, and `body` between them. */
  ghost predicate Wraps(s: string, body: string) {
    Trim(s) == OPEN + body + CLOSE && !Contains(body, CLOSE)
  }

  lemma BlankHasNoMarker(s: string)
    requires AllBlank(s)
    ensures !Contains(s, OPEN)
  {
    forall i: nat ensures !At(s, i, OPEN) {
      if i + 3 <= |s| {
        assert s[i..i + 3][0] == s[i] && OPEN[0] == '$';
      }
    }
  }

  lemma WrappedScans(v: string, body: string, w: string)
    requires AllBlank(v) && !Contains(body, CLOSE)
    ensures Scan(v + OPEN + (body + CLOSE + w)) == Closed(v, body, w)
  {
    var s, tail := v + OPEN + (body + CLOSE + w), body + CLOSE + w;
    BlankHasNoMarker(v);
    OpenFoundBehind(v, tail);
    CloseFoundBehind(body, w);
    assert s[..|v|] == v && s[|v| + 3..] == tail;
    assert tail[..|body|] == body && tail[|body| + 3..] == w;
  }

  lemma BlankTokens(s: string)
    requires AllBlank(s)
    ensures Tokens(s) == LiteralBefore(s) && forall i :: 0 <= i < |Tokens(s)| ==> Blank(Tokens(s)[i])
  {
    BlankHasNoMarker(s);
    BlankIffTrimsToNothing(s);
    TokensStep(s);
  }

  lemma UnwrapString(s: string, body: string) returns (v: string, w: string)
    requires Wraps(s, body)
    ensures s == v + OPEN + (body + CLOSE + w) && AllBlank(v) && AllBlank(w)
  {
    var i, j := TrimCut(s);
    v, w := s[..i], s[j..];
    assert s == v + s[i..j] + w;
  }

  lemma WrappedTokens(v: string, body: string, w: string)
    requires AllBlank(v) && AllBlank(w) && !Contains(body, CLOSE)
    ensures var tokens := Tokens(v + OPEN + (body + CLOSE + w));
            tokens == LiteralBefore(v) + [Expression(Trim(body))] + LiteralBefore(w) && OnlyExpression(tokens, |LiteralBefore(v)|)
  {
    WrappedScans(v, body, w);
    TokensStep(v + OPEN + (body + CLOSE + w));
    BlankTokens(w);
    BlankIffTrimsToNothing(v);
    BlankIffTrimsToNothing(w);
  }

  lemma WrappedIsStandalone(s: string, body: string)
    requires Wraps(s, body)
    ensures ClassifyValue(Str(s)) == Some(Standalone(Trim(body)))
  {
    var v, w := UnwrapString(s, body);
    WrappedTokens(v, body, w);
    assert At(s, |v|, OPEN) by { assert s[|v|..|v| + 3] == OPEN; }
    assert StandaloneAt(Tokens(s)) == |LiteralBefore(v)|;
  }

  lemma BlankTokensBlank(s: string)
    requires forall i :: 0 <= i < |Tokens(s)| ==> Blank(Tokens(s)[i])
    ensures AllBlank(s)
  {
    TokensStep(s);
    var r := Scan(s);
    BlankIffTrimsToNothing(s);
    if r.Plain? {
      assert s != [] ==> Tokens(s)[0] == Literal(s);
    } else {
      assert Tokens(s)[|LiteralBefore(r.before)|] == ScannedToken(r);
      MarkerNotBlank(r.before);
    }
  }

  lemma StandaloneShape(s: string, at: nat)
    requires OnlyExpression(Tokens(s), at)
    ensures var r := Scan(s); r.Closed? && AllBlank(r.before) && AllBlank(r.rest)
  {
    StandaloneIsWellClosed(s);
    TokensStep(s);
    var r := Scan(s);
    AroundExpression(LiteralBefore(r.before), ScannedToken(r), Tokens(r.rest), at);
    BlankTokensBlank(r.rest);
    BlankIffTrimsToNothing(r.before);
    assert r.before != [] ==> LiteralBefore(r.before)[0] == Literal(r.before);
  }

  lemma TrimToMarkers(v: string, body: string, w: string)
    requires AllBlank(v) && AllBlank(w)
    ensures Trim(v + OPEN + (body + CLOSE + w)) == OPEN + body + CLOSE
  {
    var core := OPEN + body + CLOSE;
    assert v + OPEN + (body + CLOSE + w) == v + core + w;
    assert core[0] == '$' && core[|core| - 1] == '$';
    TrimAround(v, core, w);
  }

  lemma StandaloneIsWrapped(s: string, at: nat)
    requires OnlyExpression(Tokens(s), at)
    ensures Scan(s).Closed? && Wraps(s, Scan(s).body)
  {
    StandaloneShape(s, at);
    ScanFacts(s);
    ScanRebuilds(s);
    var r := Scan(s);
    TrimToMarkers(r.before, r.body, r.rest);
  }

  lemma AroundExpression(before: seq<Token>, t: Token, behind: seq<Token>, at: nat)
    requires OnlyExpression(before + [t] + behind, at) && t.Expression?
    ensures at == |before| && forall i :: 0 <= i < |before| ==> Blank(before[i])
    ensures forall i :: 0 <= i < |behind| ==> Blank(behind[i])
  {
    var all := before + [t] + behind;
    assert all[|before|] == t;
    forall i | 0 <= i < |before| ensures Blank(before[i]) { assert all[i] == before[i]; }
    forall i | 0 <= i < |behind| ensures Blank(behind[i]) { assert all[|before| + 1 + i] == behind[i]; }
  }

  /** A string is a standalone expression exactly when, blanks aside, it is one marked body. */
  lemma StandaloneExactly(s: string, e: string)
    ensures ClassifyValue(Str(s)) == Some(Standalone(e)) <==> exists body :: Wraps(s, body) && e == Trim(body)
  {
    if ClassifyValue(Str(s)) == Some(Standalone(e)) {
      StandaloneIsWrapped(s, StandaloneAt(Tokens(s)));
      WrappedIsStandalone(s, Scan(s).body);
    }
    if body :| Wraps(s, body) && e == Trim(body) {
      WrappedIsStandalone(s, body);
    }
  }
}
