/** The order in which `Vec<String>::sort` puts names: by code point, shorter prefix first. */
module NameOrder {
  import opened Sequences

  predicate Before(a: string, b: string) {
    if a == [] then b != []
    else if b == [] then false
    else if a[0] != b[0] then a[0] < b[0]
    else Before(a[1..], b[1..])
  }

  lemma {:induction false} BeforeTotal(a: string, b: string)
    ensures a == b || Before(a, b) || Before(b, a)
  {
    if a != [] && b != [] && a[0] == b[0] {
      BeforeTotal(a[1..], b[1..]);
      assert a == [a[0]] + a[1..] && b == [b[0]] + b[1..];
    }
  }

  lemma {:induction false} BeforeAsymmetric(a: string, b: string)
    requires Before(a, b)
    ensures !Before(b, a) && a != b
  {
    if a != [] && a[0] == b[0] {
      BeforeAsymmetric(a[1..], b[1..]);
    }
  }

  lemma {:induction false} BeforeTransitive(a: string, b: string, c: string)
    requires Before(a, b) && Before(b, c)
    ensures Before(a, c)
  {
    if a != [] && a[0] == b[0] == c[0] {
      BeforeTransitive(a[1..], b[1..], c[1..]);
    }
  }

  ghost predicate Ascending(s: seq<string>) {
    forall i, j :: 0 <= i < j < |s| ==> Before(s[i], s[j])
  }

  /** Sorts names that do not repeat. */
  method SortNames(names: seq<string>) returns (sorted: seq<string>)
    requires Distinct(names)
    ensures Ascending(sorted)
    ensures Elements(sorted) == Elements(names)
  {
    sorted := [];
    for k := 0 to |names|
      invariant Ascending(sorted)
      invariant Elements(sorted) == Elements(names[..k])
    {
      var pos := 0;
      assert names[k] !in sorted by {
        assert forall i :: 0 <= i < k ==> names[..k][i] == names[i];
        assert names[k] !in Elements(names[..k]);
      }
      while pos < |sorted| && Before(sorted[pos], names[k])
        invariant 0 <= pos <= |sorted|
        invariant forall i :: 0 <= i < pos ==> Before(sorted[i], names[k])
      {
        pos := pos + 1;
      }
      InsertAscending(sorted, pos, names[k]);
      sorted := sorted[..pos] + [names[k]] + sorted[pos..];
      assert names[..k + 1] == names[..k] + [names[k]];
    }
    assert names[..|names|] == names;
  }

  lemma InsertAscending(s: seq<string>, pos: nat, x: string)
    requires pos <= |s| && Ascending(s) && x !in s
    requires forall i :: 0 <= i < pos ==> Before(s[i], x)
    requires pos < |s| ==> !Before(s[pos], x)
    ensures Ascending(s[..pos] + [x] + s[pos..])
    ensures Elements(s[..pos] + [x] + s[pos..]) == Elements(s) + {x}
  {
    var t := s[..pos] + [x] + s[pos..];
    forall i | pos <= i < |s|
      ensures Before(x, s[i])
    {
      BeforeTotal(s[pos], x);
      if pos < i {
        BeforeTransitive(x, s[pos], s[i]);
      }
    }
    forall i, j | 0 <= i < j < |t|
      ensures Before(t[i], t[j])
    {
      assert t[i] == if i < pos then s[i] else if i == pos then x else s[i - 1];
      assert t[j] == if j < pos then s[j] else if j == pos then x else s[j - 1];
      if i != pos && j != pos {
        assert Before(s[if i < pos then i else i - 1], s[if j < pos then j else j - 1]);
      }
    }
    assert s == s[..pos] + s[pos..];
  }

  /** There is only one way to list a set of names in order. */
  lemma {:induction false} AscendingUnique(a: seq<string>, b: seq<string>)
    requires Ascending(a) && Ascending(b) && Elements(a) == Elements(b)
    ensures a == b
  {
    if a == [] {
      NoElements(b);
    } else {
      assert a[0] in Elements(b);
      assert b != [];
      LeastFirst(a, b);
      LeastFirst(b, a);
      if a[0] != b[0] {
        BeforeAsymmetric(a[0], b[0]);
      }
      TailElements(a);
      TailElements(b);
      AscendingUnique(a[1..], b[1..]);
    }
  }

  lemma NoElements(s: seq<string>)
    ensures Elements(s) == {} <==> s == []
  {
    if s != [] {
      assert s[0] in Elements(s);
    }
  }

  lemma LeastFirst(a: seq<string>, b: seq<string>)
    requires a != [] && b != [] && Ascending(a) && Elements(b) <= Elements(a)
    ensures a[0] == b[0] || Before(a[0], b[0])
  {
    assert b[0] in Elements(a);
    var i :| 0 <= i < |a| && a[i] == b[0];
  }

  lemma TailElements(a: seq<string>)
    requires a != [] && Ascending(a)
    ensures Ascending(a[1..]) && Elements(a[1..]) == Elements(a) - {a[0]}
  {
    forall i | 1 <= i < |a| ensures a[i] != a[0] {
      BeforeAsymmetric(a[0], a[i]);
    }
    assert forall x :: x in a && x != a[0] ==> x in a[1..];
  }
}
