/** Printing tokens and scanning the result again. */
module TokenRoundTrip {
  import opened Wrappers
  import opened Text
  import opened ExprTokens

  // ----- the shape of tokens

  /** Literals carry no marker, expressions are trimmed and carry no closing marker. */
  predicate Clean(t: Token) {
    if t.Literal? then t.text != [] && !Contains(t.text, OPEN)
    else Trimmed(t.text) && !Contains(t.text, CLOSE)
  }

  /** Clean tokens, and no two literals in a row. */
  ghost predicate Neat(tokens: seq<Token>) {
    && (forall i :: 0 <= i < |tokens| ==> Clean(tokens[i]))
    && (forall i :: 0 <= i < |tokens| - 1 ==> tokens[i].Expression? || tokens[i + 1].Expression?)
  }

  lemma TrimmedBodyIsClean(body: string)
    requires !Contains(body, CLOSE)
    ensures Clean(Expression(Trim(body)))
  {
    var i, j := TrimCut(body);
    PieceContains(body, i, j, CLOSE);
  }

  lemma {:induction false} WellClosedIsNeat(s: string)
    requires WellClosed(s)
    ensures Neat(Tokens(s))
    decreases |s|
  {
    TokensStep(s);
    ScanFacts(s);
    var r := Scan(s);
    if r.Closed? {
      WellClosedIsNeat(r.rest);
      TrimmedBodyIsClean(r.body);
      NeatJoin(r.before, ScannedToken(r), Tokens(r.rest));
    }
  }

  lemma NeatJoin(before: string, t: Token, tail: seq<Token>)
    requires !Contains(before, OPEN) && t.Expression? && Clean(t) && Neat(tail)
    ensures Neat(LiteralBefore(before) + [t] + tail)
  {
    var all := LiteralBefore(before) + [t] + tail;
    var n := |LiteralBefore(before)|;
    assert all[n] == t;
    assert forall i :: n < i < |all| ==> all[i] == tail[i - n - 1];
  }

  /** For a well-closed string the tokens are the one neat tiling of it. */
  lemma WellClosedTokens(s: string, tokens: seq<Token>)
    requires WellClosed(s)
    ensures Neat(tokens) && Covers(tokens, s) <==> tokens == Tokens(s)
  {
    WellClosedIsNeat(s);
    WellClosedIsFine(s);
    CoversIffNothingBefore(s);
    if Neat(tokens) && Covers(tokens, s) {
      TilingUnique(tokens, Tokens(s), s);
    }
  }

  lemma NeatTail(tokens: seq<Token>)
    requires Neat(tokens) && tokens != []
    ensures Neat(tokens[1..])
  {
    assert forall i :: 0 <= i < |tokens| - 1 ==> tokens[1..][i] == tokens[i + 1];
  }

  lemma {:induction false} TilingUnique(a: seq<Token>, b: seq<Token>, s: string)
    requires Neat(a) && Neat(b) && Covers(a, s) && Covers(b, s)
    ensures a == b
  {
    if a != [] && b != [] {
      SameFirst(a, b, s);
      NeatTail(a);
      NeatTail(b);
      TilingUnique(a[1..], b[1..], Behind(a[0], s));
      assert a == [a[0]] + a[1..] && b == [b[0]] + b[1..];
    }
  }

  /** Behind a literal comes the end or a marker. */
  lemma BehindLiteral(a: seq<Token>, s: string)
    requires Neat(a) && Covers(a, s) && a != [] && a[0].Literal?
    ensures a[0].text <= s && (s == a[0].text || OPEN <= s[|a[0].text|..])
  {
    if |a| > 1 {
      assert a[1] == a[1..][0] && a[1].Expression?;
    }
  }

  lemma SameFirst(a: seq<Token>, b: seq<Token>, s: string)
    requires Neat(a) && Neat(b) && a != [] && b != [] && Covers(a, s) && Covers(b, s)
    ensures a[0] == b[0]
  {
    if a[0].Literal? {
      BehindLiteral(a, s);
      LiteralDecides(a[0].text, b, s);
    } else if b[0].Literal? {
      BehindLiteral(b, s);
      LiteralDecides(b[0].text, a, s);
    }
  }

  /** A literal that is followed by the end or by a marker is the only first token there can be. */
  lemma LiteralDecides(text: string, b: seq<Token>, s: string)
    requires text <= s && Clean(Literal(text)) && (s == text || OPEN <= s[|text|..])
    requires Neat(b) && b != [] && Covers(b, s)
    ensures b[0] == Literal(text)
  {
    if b[0].Expression? {
      MarkerOnlyBehind(text, s, 0);
    } else {
      BehindLiteral(b, s);
      var other := b[0].text;
      assert Clean(b[0]);
      if |other| < |text| {
        MarkerOnlyBehind(text, s, |other|);
      } else if |text| < |other| {
        MarkerOnlyBehind(other, s, |text|);
      }
    }
  }

  /** No marker stands inside such a literal, nor across its end. */
  lemma MarkerOnlyBehind(text: string, s: string, i: nat)
    requires text <= s && !Contains(text, OPEN) && (s == text || OPEN <= s[|text|..]) && i < |text|
    ensures !(OPEN <= s[i..])
  {
    assert !At(text, i, OPEN);
    if i + 3 <= |text| {
      assert s[i..][..3] == text[i..i + 3];
    } else if s != text {
      assert s[i..][|text| - i] == s[|text|..][0] == '$';
    }
  }

  // ----- printing and scanning again

  lemma {:induction false} PrintAppend(a: seq<Token>, b: seq<Token>)
    ensures Print(a + b) == Print(a) + Print(b)
  {
    if a == [] {
      assert a + b == b;
    } else {
      assert (a + b)[1..] == a[1..] + b;
      PrintAppend(a[1..], b);
    }
  }

  lemma PrintScanned(before: string, t: Token, tail: seq<Token>)
    ensures Print(LiteralBefore(before) + [t] + tail) == before + (PrintToken(t) + Print(tail))
  {
    PrintAppend(LiteralBefore(before) + [t], tail);
    PrintAppend(LiteralBefore(before), [t]);
    PrintOne(t);
    PrintOne(Literal(before));
    Associate(before, PrintToken(t), Print(tail));
  }

  lemma PrintOne(t: Token)
    ensures Print([t]) == PrintToken(t)
  {
    assert [t][1..] == [];
    assert PrintToken(t) + [] == PrintToken(t);
  }

  lemma CloseByCharacter(s: string, i: nat)
    ensures At(s, i, CLOSE) <==> i + 3 <= |s| && s[i] == '}' && s[i + 1] == '}' && s[i + 2] == '$'
  {
    if i + 3 <= |s| {
      assert s[i..i + 3] == [s[i], s[i + 1], s[i + 2]];
    }
  }

  lemma PaddedHasNoClose(e: string)
    requires !Contains(e, CLOSE)
    ensures !Contains(" " + e + " ", CLOSE)
  {
    var s := " " + e + " ";
    forall i: nat ensures !At(s, i, CLOSE) {
      CloseByCharacter(s, i);
      if 0 < i {
        CloseByCharacter(e, i - 1);
        assert !At(e, i - 1, CLOSE);
      }
      assert s[|s| - 1] == ' ' && forall k :: 1 <= k < |s| - 1 ==> s[k] == e[k - 1];
    }
  }

  lemma PrintedShape(before: string, e: string, tail: string)
    ensures before + (PrintToken(Expression(e)) + tail) == before + OPEN + (" " + e + " " + CLOSE + tail)
  {
    var body := " " + e + " ";
    assert PrintToken(Expression(e)) == OPEN + body + CLOSE;
    assert OPEN + body + CLOSE + tail == OPEN + (body + CLOSE + tail);
    Associate(before, OPEN, body + CLOSE + tail);
  }

  /** A printed expression is scanned back as itself, with what stands before and behind it. */
  lemma PrintedScans(before: string, e: string, tail: string)
    requires !Contains(before, OPEN) && Clean(Expression(e))
    ensures Tokens(before + (PrintToken(Expression(e)) + tail)) == LiteralBefore(before) + [Expression(e)] + Tokens(tail)
  {
    var body := " " + e + " ";
    var s, after := before + (PrintToken(Expression(e)) + tail), body + CLOSE + tail;
    PrintedShape(before, e, tail);
    OpenFoundBehind(before, after);
    PaddedHasNoClose(e);
    CloseFoundBehind(body, tail);
    assert s[|before| + 3..] == after && s[..|before|] == before;
    assert after[..|body|] == body && after[|body| + 3..] == tail;
    assert Scan(s) == Closed(before, body, tail);
    TrimPadded(e);
    TokensStep(s);
  }

  /** Without a closing marker anywhere and nothing before the opening ones, printing gives the string back. */
  lemma {:induction false} PrintIsIdentity(s: string)
    requires !Contains(s, CLOSE) && NothingBeforeUnclosed(s)
    ensures Print(Tokens(s)) == s
    decreases |s|
  {
    TokensStep(s);
    var r := Scan(s);
    if r.Plain? {
      PrintOne(Literal(s));
    } else {
      NotClosedWithoutClose(s);
      ScanRebuilds(s);
      PieceContains(s, 3, |s|, CLOSE);
      assert s[3..|s|] == r.rest;
      PrintIsIdentity(r.rest);
      PrintScanned(r.before, ScannedToken(r), Tokens(r.rest));
    }
  }

  lemma NotClosedWithoutClose(s: string)
    requires !Contains(s, CLOSE)
    ensures !Scan(s).Closed?
  {
    var start := Find(s, OPEN);
    if start.Some? {
      PieceContains(s, start.value + 3, |s|, CLOSE);
      assert s[start.value + 3..|s|] == s[start.value + 3..];
    }
  }

  lemma CancelPrefix(a: seq<Token>, x: seq<Token>, y: seq<Token>)
    ensures a + x == a + y <==> x == y
  {
    assert (a + x)[|a|..] == x && (a + y)[|a|..] == y;
  }

  /** A closed marker is printed and scanned back, so what follows it decides. */
  lemma ClosedAgain(s: string, tail: string)
    requires Scan(s).Closed?
    ensures var r := Scan(s);
            Tokens(r.before + (PrintToken(ScannedToken(r)) + tail)) == Tokens(s) <==> Tokens(tail) == Tokens(r.rest)
  {
    var r := Scan(s);
    ScanFacts(s);
    TokensStep(s);
    TrimmedBodyIsClean(r.body);
    PrintedScans(r.before, Trim(r.body), tail);
    CancelPrefix(LiteralBefore(r.before) + [ScannedToken(r)], Tokens(tail), Tokens(r.rest));
  }

  /** The tokens of a string that starts with a marker: an expression, or the marker as a literal. */
  lemma TokensFromOpen(tail: string)
    ensures if Contains(tail, CLOSE) then Tokens(OPEN + tail) != [] && Tokens(OPEN + tail)[0].Expression?
            else Tokens(OPEN + tail) == [Literal(OPEN)] + Tokens(tail)
  {
    var p := OPEN + tail;
    assert [] + OPEN + tail == p && !Contains([], OPEN);
    OpenFoundBehind([], tail);
    assert p[3..] == tail && p[..0] == [];
    TokensStep(p);
    assert [] + OPEN == OPEN;
  }

  /** An unclosed marker at the start: printing keeps it, and what follows decides. */
  lemma UnclosedAtStart(s: string, again: string)
    requires Scan(s).Unclosed? && Scan(s).before == []
    requires Tokens(again) != Tokens(Scan(s).rest)
    ensures Tokens(OPEN + again) != Tokens(s)
  {
    var r := Scan(s);
    ScanRebuilds(s);
    ScanFacts(s);
    assert s == OPEN + r.rest;
    TokensFromOpen(r.rest);
    TokensFromOpen(again);
    CancelPrefix([Literal(OPEN)], Tokens(again), Tokens(r.rest));
  }

  /** Text before an unclosed marker is printed twice, so the scan of the print starts differently. */
  lemma DoubledTextDiffers(s: string, tail: string)
    requires Scan(s).Unclosed? && Scan(s).before != []
    ensures Tokens(Scan(s).before + (Scan(s).before + OPEN + tail)) != Tokens(s)
  {
    var before := Scan(s).before;
    var p := before + (before + OPEN + tail);
    FirstToken(s);
    FirstToken(p);
    ScanFacts(s);
    assert !At(before, 0, OPEN);
    NotAgainBehind(s, tail);
  }

  lemma FirstToken(s: string)
    requires s != []
    ensures var r := Scan(s);
            && Tokens(s) != []
            && Tokens(s)[0] == if r.Plain? then Literal(s) else if r.before != [] then Literal(r.before) else ScannedToken(r)
  {
    TokensStep(s);
  }

  lemma NotAgainBehind(s: string, tail: string)
    requires Scan(s).Unclosed? && Scan(s).before != []
    ensures var before := Scan(s).before;
            var r := Scan(before + (before + OPEN + tail));
            r.Plain? || r.before != before
  {
    var before := Scan(s).before;
    var p := before + (before + OPEN + tail);
    ScanAtMarker(s);
    ScanRebuilds(s);
    assert p[|before|..] == before + OPEN + tail;
    assert (before + OPEN + tail)[..3] == (before + OPEN)[..3] == s[..3];
    if !Scan(p).Plain? {
      ScanAtMarker(p);
    }
  }

  /** Scanning the printed tokens gives the same tokens back exactly when no unclosed marker has text before it. */
  lemma {:induction false} RoundTripIffNothingBefore(s: string)
    ensures Tokens(Print(Tokens(s))) == Tokens(s) <==> NothingBeforeUnclosed(s)
    decreases |s|
  {
    TokensStep(s);
    var r := Scan(s);
    if r.Plain? {
      PrintOne(Literal(s));
    } else {
      var tail := Print(Tokens(r.rest));
      RoundTripIffNothingBefore(r.rest);
      PrintScanned(r.before, ScannedToken(r), Tokens(r.rest));
      if r.Closed? {
        ClosedAgain(s, tail);
      } else if r.before != [] {
        DoubledTextDiffers(s, tail);
      } else if NothingBeforeUnclosed(r.rest) {
        PrintIsIdentity(r.rest);
        ScanRebuilds(s);
        assert Print(Tokens(s)) == s;
      } else {
        assert Print(Tokens(s)) == OPEN + tail;
        UnclosedAtStart(s, tail);
      }
    }
  }
}
