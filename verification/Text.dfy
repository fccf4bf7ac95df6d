/** The string operations the configuration code uses: `find`, `trim`. */
module Text {
  import opened Wrappers

  predicate At(s: string, i: nat, pat: string) {
    i + |pat| <= |s| && s[i..i + |pat|] == pat
  }

  /** `str::find`: the first place where `pat` occurs. */
  function Find(s: string, pat: string): (r: Option<nat>)
    ensures r.Some? ==> At(s, r.value, pat) && forall i: nat :: i < r.value ==> !At(s, i, pat)
    ensures r.None? ==> forall i: nat :: !At(s, i, pat)
  {
    FindFrom(s, pat, 0)
  }

  function FindFrom(s: string, pat: string, start: nat): (r: Option<nat>)
    requires forall i: nat :: i < start ==> !At(s, i, pat)
    ensures r.Some? ==> At(s, r.value, pat) && forall i: nat :: i < r.value ==> !At(s, i, pat)
    ensures r.None? ==> forall i: nat :: !At(s, i, pat)
    decreases |s| - start
  {
    if At(s, start, pat) then Some(start)
    else if start >= |s| then None
    else FindFrom(s, pat, start + 1)
  }

  predicate Contains(s: string, pat: string) {
    Find(s, pat).Some?
  }

  lemma FindIs(s: string, pat: string, i: nat)
    requires At(s, i, pat) && forall j: nat :: j < i ==> !At(s, j, pat)
    ensures Find(s, pat) == Some(i)
  {
  }

  /** The characters Unicode gives the property White_Space, which `str::trim` removes. */
  predicate IsWhitespace(c: char) {
    || '\U{0009}' <= c <= '\U{000D}' || c == ' ' || c == '\U{0085}' || c == '\U{00A0}' || c == '\U{1680}'
    || '\U{2000}' <= c <= '\U{200A}' || c == '\U{2028}' || c == '\U{2029}' || c == '\U{202F}'
    || c == '\U{205F}' || c == '\U{3000}'
  }

  function TrimStart(s: string): string {
    if s != [] && IsWhitespace(s[0]) then TrimStart(s[1..]) else s
  }

  function TrimEnd(s: string): string {
    if s != [] && IsWhitespace(s[|s| - 1]) then TrimEnd(s[..|s| - 1]) else s
  }

  function Trim(s: string): string {
    TrimEnd(TrimStart(s))
  }

  /** No white space at either end. */
  predicate Trimmed(s: string) {
    s == [] || (!IsWhitespace(s[0]) && !IsWhitespace(s[|s| - 1]))
  }

  predicate AllBlank(s: string) {
    forall k :: 0 <= k < |s| ==> IsWhitespace(s[k])
  }

  lemma BlankMore(v: string, w: string)
    requires AllBlank(v) && AllBlank(w)
    ensures AllBlank(v + w)
  {
  }

  lemma {:induction false} TrimStartCut(s: string) returns (i: nat)
    ensures i <= |s| && TrimStart(s) == s[i..] && AllBlank(s[..i])
    ensures TrimStart(s) == [] || !IsWhitespace(TrimStart(s)[0])
  {
    if s != [] && IsWhitespace(s[0]) {
      var j := TrimStartCut(s[1..]);
      i := j + 1;
      BlankMore([s[0]], s[1..][..j]);
      assert s[..i] == [s[0]] + s[1..][..j] && s[1..][j..] == s[i..];
    } else {
      i := 0;
    }
  }

  lemma {:induction false} TrimEndCut(s: string) returns (j: nat)
    ensures j <= |s| && TrimEnd(s) == s[..j] && AllBlank(s[j..])
    ensures TrimEnd(s) == [] || !IsWhitespace(TrimEnd(s)[|TrimEnd(s)| - 1])
  {
    if s != [] && IsWhitespace(s[|s| - 1]) {
      j := TrimEndCut(s[..|s| - 1]);
      BlankMore(s[..|s| - 1][j..], [s[|s| - 1]]);
      assert s[j..] == s[..|s| - 1][j..] + [s[|s| - 1]];
    } else {
      j := |s|;
    }
  }

  /** Trimming cuts a piece out of the string; the piece is trimmed and the rest is blank. */
  lemma TrimCut(s: string) returns (i: nat, j: nat)
    ensures i <= j <= |s| && Trim(s) == s[i..j] && Trimmed(Trim(s)) && AllBlank(s[..i]) && AllBlank(s[j..])
  {
    i := TrimStartCut(s);
    var n := TrimEndCut(s[i..]);
    j := i + n;
    assert s[i..][n..] == s[j..];
  }

  lemma {:induction false} TrimStartBlank(w: string, s: string)
    requires AllBlank(w) && (s == [] || !IsWhitespace(s[0]))
    ensures TrimStart(w + s) == s
  {
    if w == [] {
      assert w + s == s;
    } else {
      assert (w + s)[1..] == w[1..] + s;
      TrimStartBlank(w[1..], s);
    }
  }

  lemma {:induction false} TrimEndBlank(s: string, w: string)
    requires AllBlank(w) && (s == [] || !IsWhitespace(s[|s| - 1]))
    ensures TrimEnd(s + w) == s
  {
    if w == [] {
      assert s + w == s;
    } else {
      assert (s + w)[..|s + w| - 1] == s + w[..|w| - 1];
      TrimEndBlank(s, w[..|w| - 1]);
    }
  }

  /** Trimming takes away exactly the blanks around a trimmed text. */
  lemma TrimAround(v: string, s: string, w: string)
    requires AllBlank(v) && AllBlank(w) && Trimmed(s) && s != []
    ensures Trim(v + s + w) == s
  {
    assert v + s + w == v + (s + w) && (s + w)[0] == s[0];
    TrimStartBlank(v, s + w);
    TrimEndBlank(s, w);
  }

  lemma BlankIffTrimsToNothing(s: string)
    ensures AllBlank(s) <==> Trim(s) == []
  {
    if AllBlank(s) {
      TrimStartBlank(s, []);
      assert s + [] == s;
    } else {
      var i, j := TrimCut(s);
      assert s == s[..i] + s[i..j] + s[j..];
    }
  }

  lemma TrimPadded(e: string)
    requires Trimmed(e)
    ensures Trim(" " + e + " ") == e
  {
    var s := " " + e + " ";
    assert s[1..] == e + " ";
    if e == [] {
      assert TrimStart(" ") == TrimStart(" "[1..]);
    } else {
      assert (e + " ")[0] == e[0];
      assert TrimStart(s) == e + " ";
      assert (e + " ")[..|e|] == e;
      assert TrimEnd(e + " ") == TrimEnd(e) == e;
    }
  }

  lemma SlicedSlice(s: string, i: nat, j: nat, k: nat, n: nat)
    requires i <= j <= |s| && k + n <= j - i
    ensures s[i..j][k..k + n] == s[i + k..i + k + n]
  {
    var a, b := s[i..j][k..k + n], s[i + k..i + k + n];
    assert |a| == |b|;
    assert forall x :: 0 <= x < n ==> a[x] == b[x];
  }

  /** A piece of a string contains no pattern the string does not contain. */
  lemma PieceContains(s: string, i: nat, j: nat, pat: string)
    requires i <= j <= |s| && !Contains(s, pat)
    ensures !Contains(s[i..j], pat)
  {
    forall k: nat ensures !At(s[i..j], k, pat) {
      if k + |pat| <= j - i {
        SlicedSlice(s, i, j, k, |pat|);
        assert !At(s, i + k, pat);
      }
    }
  }
}
