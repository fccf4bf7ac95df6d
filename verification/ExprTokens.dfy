/** The tokenizer for `${{ expr }}$` strings (`parse_expr_tokens`) and its printed form. */
module ExprTokens {
  import opened Wrappers
  import opened Text

  const OPEN := "${{"
  const CLOSE := "}}$"

  datatype Token = Literal(text: string) | Expression(text: string)

  // ----- one pass of the scan

  /** What the scan finds: no marker, a marker with its end, or a marker without one. */
  datatype Scanned =
    | Plain
    | Closed(before: string, body: string, rest: string)
    | Unclosed(before: string, rest: string)

  function Scan(s: string): (r: Scanned)
    ensures !r.Plain? ==> |r.rest| < |s|
  {
    match Find(s, OPEN)
    case None => Plain
    case Some(start) =>
      var afterOpen := s[start + 3..];
      match Find(afterOpen, CLOSE)
      case Some(end) => Closed(s[..start], afterOpen[..end], afterOpen[end + 3..])
      case None => Unclosed(s[..start], afterOpen)
  }

  /** Nothing is lost between the pieces the scan returns. */
  lemma ScanRebuilds(s: string)
    ensures match Scan(s)
            case Plain => true
            case Closed(before, body, rest) => s == before + OPEN + (body + CLOSE + rest)
            case Unclosed(before, rest) => s == before + OPEN + rest
  {
  }

  function LiteralBefore(text: string): seq<Token> {
    if text == [] then [] else [Literal(text)]
  }

  function ScannedToken(r: Scanned): Token
    requires !r.Plain?
  {
    if r.Closed? then Expression(Trim(r.body)) else Literal(r.before + OPEN)
  }

  /** The whole scan. In front of an unclosed marker the preceding text is taken a second time. */
  function Tokens(s: string): seq<Token>
    decreases |s|
  {
    var r := Scan(s);
    if r.Plain? then LiteralBefore(s)
    else LiteralBefore(r.before) + [ScannedToken(r)] + Tokens(r.rest)
  }

  /** The token one pass pushes behind the literal, and how far it moves on. */
  function MarkerToken(remaining: string, start: nat): (Token, nat)
    requires start + 3 <= |remaining|
  {
    match Find(remaining[start + 3..], CLOSE)
    case Some(end) => (Expression(Trim(remaining[start + 3..][..end])), start + 3 + end + 3)
    case None => (Literal(remaining[..start + 3]), start + 3)
  }

  lemma MarkerIsScanned(remaining: string, start: nat)
    requires Find(remaining, OPEN) == Some(start)
    ensures var (token, skip), r := MarkerToken(remaining, start), Scan(remaining);
            && skip <= |remaining|
            && !r.Plain? && r.before == remaining[..start] && r.rest == remaining[skip..]
            && token == ScannedToken(r)
  {
    var afterOpen := remaining[start + 3..];
    var closed := Find(afterOpen, CLOSE);
    if closed.Some? {
      assert remaining[start + 3 + closed.value + 3..] == afterOpen[closed.value + 3..];
    } else {
      assert remaining[..start + 3] == remaining[..start] + OPEN;
    }
  }

  lemma TokensFromMarker(remaining: string, start: nat)
    requires Find(remaining, OPEN) == Some(start)
    ensures var (token, skip) := MarkerToken(remaining, start);
            && skip <= |remaining|
            && Tokens(remaining) == LiteralBefore(remaining[..start]) + [token] + Tokens(remaining[skip..])
  {
    MarkerIsScanned(remaining, start);
    TokensStep(remaining);
  }

  lemma TokensStep(s: string)
    ensures var r := Scan(s);
            Tokens(s) == if r.Plain? then LiteralBefore(s)
                         else LiteralBefore(r.before) + [ScannedToken(r)] + Tokens(r.rest)
  {
  }

  /** The token and the step of one pass, as the loop computes them from the whole string. */
  method NextMarker(s: string, offset: nat, start: nat) returns (token: Token, skip: nat)
    requires offset <= |s| && Find(s[offset..], OPEN) == Some(start)
    ensures (token, skip) == MarkerToken(s[offset..], start)
  {
    var afterOpen := s[offset..][start + 3..];
    var closed := Find(afterOpen, CLOSE);
    if closed.Some? {
      var end := closed.value;
      token := Expression(Trim(afterOpen[..end]));
      skip := start + 3 + end + 3;
    } else {
      Slices(s, offset, start + 3);
      token := Literal(s[offset..offset + start + 3]);
      skip := start + 3;
    }
  }

  /** One pass of the scanning loop. */
  method ScanPass(s: string, tokens0: seq<Token>, offset0: nat, start: nat) returns (tokens: seq<Token>, offset: nat)
    requires offset0 <= |s| && Find(s[offset0..], OPEN) == Some(start)
    ensures offset0 < offset <= |s|
    ensures tokens + Tokens(s[offset..]) == tokens0 + Tokens(s[offset0..])
  {
    ghost var remaining := s[offset0..];
    TokensFromMarker(remaining, start);
    Slices(s, offset0, start);
    tokens := PushLiteral(tokens0, s[offset0..offset0 + start]);
    var token, skip := NextMarker(s, offset0, start);
    tokens := tokens + [token];
    Slices(s, offset0, skip);
    offset := offset0 + skip;
    Reassociate(tokens0, LiteralBefore(remaining[..start]), [token], Tokens(s[offset..]));
  }

  /** `parse_expr_tokens` */
  method ParseExprTokens(s: string) returns (tokens: seq<Token>)
    ensures tokens == Tokens(s)
  {
    tokens := [];
    var offset := 0;
    var found := Find(s, OPEN);
    assert s[0..] == s;
    while found.Some?
      invariant 0 <= offset <= |s| && found == Find(s[offset..], OPEN)
      invariant tokens + Tokens(s[offset..]) == Tokens(s)
      decreases |s| - offset
    {
      tokens, offset := ScanPass(s, tokens, offset, found.value);
      found := Find(s[offset..], OPEN);
    }
    tokens := PushLiteral(tokens, s[offset..]);
  }

  /** A literal is pushed only if there is text. */
  method PushLiteral(tokens0: seq<Token>, text: string) returns (tokens: seq<Token>)
    ensures tokens == tokens0 + LiteralBefore(text)
  {
    tokens := tokens0;
    if |text| > 0 {
      tokens := tokens + [Literal(text)];
    }
  }

  lemma Slices(s: string, offset: nat, n: nat)
    requires offset + n <= |s|
    ensures s[offset..offset + n] == s[offset..][..n] && s[offset + n..] == s[offset..][n..]
  {
  }

  lemma Reassociate<T>(a: seq<T>, b: seq<T>, c: seq<T>, d: seq<T>)
    ensures a + (b + c + d) == a + b + c + d
  {
  }

  // ----- printing

  function PrintToken(t: Token): string {
    match t
    case Literal(text) => text
    case Expression(text) => "${{ " + text + " }}$"
  }

  function Print(tokens: seq<Token>): string {
    if tokens == [] then [] else PrintToken(tokens[0]) + Print(tokens[1..])
  }

  method PushToken(s0: string, t: Token) returns (s: string)
    ensures s == s0 + PrintToken(t)
  {
    s := s0;
    match t {
      case Literal(text) =>
        s := s + text;
      case Expression(text) =>
        s := s + "${{ ";
        s := s + text;
        s := s + " }}$";
        Reassociate(s0, "${{ ", text, " }}$");
    }
  }

  lemma Associate<T>(a: seq<T>, b: seq<T>, c: seq<T>)
    ensures a + (b + c) == a + b + c
  {
  }

  /** `to_yaml_value` for an interpolated string. */
  method PrintTokens(tokens: seq<Token>) returns (s: string)
    ensures s == Print(tokens)
  {
    s := "";
    for i := 0 to |tokens|
      invariant s + Print(tokens[i..]) == Print(tokens)
    {
      assert tokens[i..][1..] == tokens[i + 1..];
      Associate(s, PrintToken(tokens[i]), Print(tokens[i + 1..]));
      s := PushToken(s, tokens[i]);
    }
    assert tokens[|tokens|..] == [];
  }

  // ----- the strings that are tokenized as documented

  /** Every marker the scan meets is closed. */
  predicate WellClosed(s: string)
    decreases |s|
  {
    match Scan(s)
    case Plain => true
    case Closed(_, _, rest) => WellClosed(rest)
    case Unclosed(_, _) => false
  }

  /** No unclosed marker the scan meets has text in front of it. */
  predicate NothingBeforeUnclosed(s: string)
    decreases |s|
  {
    match Scan(s)
    case Plain => true
    case Closed(_, _, rest) => NothingBeforeUnclosed(rest)
    case Unclosed(before, rest) => before == [] && NothingBeforeUnclosed(rest)
  }

  lemma {:induction false} WellClosedIsFine(s: string)
    requires WellClosed(s)
    ensures NothingBeforeUnclosed(s)
    decreases |s|
  {
    match Scan(s)
    case Plain =>
    case Closed(_, _, rest) => WellClosedIsFine(rest);
  }

  // ----- facts about the scan

  lemma ScanFacts(s: string)
    ensures var r := Scan(s);
            match r
            case Plain => !Contains(s, OPEN)
            case Closed(before, body, _) => !Contains(before, OPEN) && !Contains(body, CLOSE)
            case Unclosed(before, rest) => !Contains(before, OPEN) && !Contains(rest, CLOSE)
  {
    var start := Find(s, OPEN);
    if start.Some? {
      BeforeFirst(s, OPEN, start.value);
      var afterOpen := s[start.value + 3..];
      var end := Find(afterOpen, CLOSE);
      if end.Some? {
        BeforeFirst(afterOpen, CLOSE, end.value);
      }
    }
  }

  lemma BeforeFirst(s: string, pat: string, i: nat)
    requires Find(s, pat) == Some(i)
    ensures |pat| > 0 ==> !Contains(s[..i], pat)
  {
    if |pat| > 0 {
      forall k: nat ensures !At(s[..i], k, pat) {
        if k + |pat| <= i {
          SlicedSlice(s, 0, i, k, |pat|);
          assert s[0..i] == s[..i];
          assert !At(s, k, pat);
        }
      }
    }
  }

  /** An opening marker cannot begin inside a text without one and end inside the next marker. */
  lemma OpenFoundBehind(before: string, tail: string)
    requires !Contains(before, OPEN)
    ensures Find(before + OPEN + tail, OPEN) == Some(|before|)
  {
    var s := before + OPEN + tail;
    forall i: nat | i < |before| ensures !At(s, i, OPEN) {
      assert !At(before, i, OPEN);
      if i + 3 <= |before| {
        assert s[i..i + 3] == before[i..i + 3];
      } else {
        assert s[i..i + 3][|before| - i] == '$';
      }
    }
    FindIs(s, OPEN, |before|);
  }

  /** Nor a closing marker inside a text without one and end inside the next marker. */
  lemma CloseFoundBehind(body: string, tail: string)
    requires !Contains(body, CLOSE)
    ensures Find(body + CLOSE + tail, CLOSE) == Some(|body|)
  {
    var s := body + CLOSE + tail;
    forall i: nat | i < |body| ensures !At(s, i, CLOSE) {
      assert !At(body, i, CLOSE);
      if i + 3 <= |body| {
        assert s[i..i + 3] == body[i..i + 3];
      } else {
        assert s[i..i + 3][2] == s[i + 2] == '}';
      }
    }
    FindIs(s, CLOSE, |body|);
  }

  // ----- coverage

  function BodyLength(s: string): Option<nat> {
    if OPEN <= s then Find(s[3..], CLOSE) else None
  }

  /** The token stands at the start of the string. */
  ghost predicate Fits(t: Token, s: string) {
    if t.Literal? then t.text != [] && t.text <= s
    else BodyLength(s).Some? && t.text == Trim(s[3..][..BodyLength(s).value])
  }

  ghost function Behind(t: Token, s: string): string
    requires Fits(t, s)
  {
    if t.Literal? then s[|t.text|..] else s[3..][BodyLength(s).value + 3..]
  }

  /** The tokens tile the string: literals verbatim, expressions with their markers, in order, nothing left. */
  ghost predicate Covers(tokens: seq<Token>, s: string)
    decreases |tokens|
  {
    if tokens == [] then s == []
    else Fits(tokens[0], s) && Covers(tokens[1..], Behind(tokens[0], s))
  }

  lemma CoversLiteralFirst(text: string, tokens: seq<Token>, s: string)
    requires text <= s
    ensures Covers(LiteralBefore(text) + tokens, s) <==> Covers(tokens, s[|text|..])
  {
    if text == [] {
      assert LiteralBefore(text) + tokens == tokens;
      assert s[0..] == s;
    } else {
      assert (LiteralBefore(text) + tokens)[1..] == tokens;
    }
  }

  /** From the marker on, a scanned string is what the covering relation asks for. */
  lemma ScanAtMarker(s: string)
    requires !Scan(s).Plain?
    ensures var r := Scan(s);
            && r.before <= s && OPEN <= s[|r.before|..]
            && (r.before != [] ==> !(OPEN <= s))
            && (r.Closed? ==> var u := s[|r.before|..];
                              && BodyLength(u) == Some(|r.body|)
                              && u[3..][..|r.body|] == r.body && u[3..][|r.body| + 3..] == r.rest)
            && (r.Unclosed? ==> s[|r.before|..][3..] == r.rest)
  {
    var start := Find(s, OPEN).value;
    assert s[start..][3..] == s[start + 3..];
    assert s[start..][..3] == s[start..start + 3];
    if start > 0 {
      assert !At(s, 0, OPEN);
    }
  }

  lemma CoversFromMarker(s: string, tail: seq<Token>)
    requires !Scan(s).Plain?
    ensures var r := Scan(s);
            Covers(LiteralBefore(r.before) + [ScannedToken(r)] + tail, s) <==>
              (r.Closed? || r.before == []) && Covers(tail, r.rest)
  {
    var r := Scan(s);
    var token, u := ScannedToken(r), s[|r.before|..];
    ScanAtMarker(s);
    Associate(LiteralBefore(r.before), [token], tail);
    CoversLiteralFirst(r.before, [token] + tail, s);
    if r.Unclosed? {
      RepeatDoesNotFit(s);
      if r.before == [] {
        assert r.before + OPEN == OPEN;
      }
    }
  }

  /** The tokens tile the input exactly when no unclosed marker has text before it: that text would come twice. */
  lemma {:induction false} CoversIffNothingBefore(s: string)
    ensures Covers(Tokens(s), s) <==> NothingBeforeUnclosed(s)
    decreases |s|
  {
    TokensStep(s);
    var r := Scan(s);
    if r.Plain? {
      CoversLiteralFirst(s, [], s);
      assert LiteralBefore(s) + [] == LiteralBefore(s);
    } else {
      CoversIffNothingBefore(r.rest);
      CoversFromMarker(s, Tokens(r.rest));
    }
  }

  /** Text before an unclosed marker does not follow itself. */
  lemma RepeatDoesNotFit(s: string)
    requires Scan(s).Unclosed?
    ensures var r := Scan(s);
            r.before + OPEN <= s[|r.before|..] <==> r.before == []
  {
    var r := Scan(s);
    ScanAtMarker(s);
    ScanRebuilds(s);
    var u := s[|r.before|..];
    if r.before == [] {
      assert r.before + OPEN == OPEN;
    } else {
      assert (r.before + OPEN)[..3] == s[..3];
      assert u[..3] == OPEN;
    }
  }
}
