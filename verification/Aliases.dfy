/**
 Expanding an `allow` list of rights and aliases into the rights it grants. Everything
 here holds for any table of known rights.
 */
module Aliases {
  import opened Wrappers

  /** The one built-in alias; it stands for every right. */
  const ALL := "all"

  const MAX_DEPTH: nat := 2

  /** The known rights and the user's aliases. */
  datatype Book = Book(rights: set<string>, aliases: map<string, seq<string>>)

  datatype Kind = Right | Builtin | Alias | Unknown

  /** How an entry is looked up: rights first, then the built-in alias, then the user's. */
  function KindOf(book: Book, entry: string): Kind {
    if entry in book.rights then Right
    else if entry == ALL then Builtin
    else if entry in book.aliases then Alias
    else Unknown
  }

  datatype AliasError =
    | UnknownEntry(entry: string)
    | Recursive(chain: seq<string>, entry: string)
    | TooDeep(chain: seq<string>, entry: string)
    | Shadows(name: string)

  // ----- what an entry grants

  /** A chain of user aliases, each listing the next entry. */
  ghost predicate AliasPath(book: Book, p: seq<string>) {
    && p != []
    && forall i, j :: 0 <= i && j == i + 1 < |p| ==> Lists(book, p[i], p[j])
  }

  ghost predicate Lists(book: Book, alias: string, entry: string) {
    KindOf(book, alias) == Alias && entry in book.aliases[alias]
  }

  ghost predicate GrantsItself(book: Book, entry: string, right: string) {
    (KindOf(book, entry) == Right && right == entry) || (KindOf(book, entry) == Builtin && right in book.rights)
  }

  ghost predicate GrantedVia(book: Book, p: seq<string>, right: string) {
    AliasPath(book, p) && GrantsItself(book, p[|p| - 1], right)
  }

  /** `right` can be reached from `entry` through any number of aliases. */
  ghost predicate Grants(book: Book, entry: string, right: string) {
    exists p :: p != [] && p[0] == entry && GrantedVia(book, p, right)
  }

  ghost function GrantedBy(book: Book, allow: seq<string>): set<string> {
    set right | right in book.rights && exists e :: e in allow && Grants(book, e, right)
  }

  /** From `entry`, no chain runs through more than `n` aliases and none ends in an unknown name. */
  predicate Resolvable(book: Book, entry: string, n: nat)
    decreases n
  {
    match KindOf(book, entry)
    case Right => true
    case Builtin => true
    case Alias => n > 0 && forall e :: e in book.aliases[entry] ==> Resolvable(book, e, n - 1)
    case Unknown => false
  }

  ghost function RightsOf(book: Book, entry: string, n: nat): set<string>
    decreases n, 0, 0
  {
    match KindOf(book, entry)
    case Right => {entry}
    case Builtin => book.rights
    case Alias => if n == 0 then {} else RightsOfAll(book, book.aliases[entry], n - 1)
    case Unknown => {}
  }

  ghost function RightsOfAll(book: Book, entries: seq<string>, n: nat): set<string>
    decreases n, 1, |entries|
  {
    if entries == [] then {} else RightsOfAll(book, entries[..|entries| - 1], n) + RightsOf(book, entries[|entries| - 1], n)
  }

  // ----- the code

  /** `validate_rights` */
  method ValidateRights(rights: seq<string>, book: Book) returns (err: Option<AliasError>)
    ensures err.None? <==> forall e :: e in rights ==> KindOf(book, e) != Unknown
    ensures err.Some? ==> exists e :: e in rights && KindOf(book, e) == Unknown && err.value == UnknownEntry(e)
  {
    for i := 0 to |rights|
      invariant forall k :: 0 <= k < i ==> KindOf(book, rights[k]) != Unknown
    {
      if rights[i] in book.rights {
        continue;
      }
      if rights[i] == ALL {
        continue;
      }
      if rights[i] in book.aliases {
        continue;
      }
      assert rights[i] in rights;
      return Some(UnknownEntry(rights[i]));
    }
    return None;
  }

  /** `chain` is the path of aliases being expanded, and it leads to `entry`. */
  ghost predicate LeadsTo(book: Book, chain: seq<string>, entry: string) {
    AliasPath(book, chain + [entry])
  }

  /** The error names what is really wrong. */
  ghost predicate TrueError(book: Book, e: AliasError) {
    match e
    case UnknownEntry(entry) => KindOf(book, entry) == Unknown
    case Recursive(chain, entry) => LeadsTo(book, chain, entry) && entry in chain
    case TooDeep(chain, entry) =>
      LeadsTo(book, chain, entry) && |chain| == MAX_DEPTH && KindOf(book, entry) == Alias && entry !in chain
    case Shadows(name) => name in book.aliases && (name in book.rights || name == ALL)
  }

  /** `resolve_alias_entry` */
  method ResolveEntry(entry: string, book: Book, result0: set<string>, depth: nat, chain0: seq<string>)
    returns (err: Option<AliasError>, result: set<string>, chain: seq<string>)
    requires |chain0| == depth <= MAX_DEPTH && LeadsTo(book, chain0, entry)
    ensures err.None? <==> Resolvable(book, entry, MAX_DEPTH - depth)
    ensures err.None? ==> chain == chain0 && result == result0 + RightsOf(book, entry, MAX_DEPTH - depth)
    ensures err.Some? ==> TrueError(book, err.value)
    decreases MAX_DEPTH - depth, 0
  {
    result, chain := result0, chain0;
    if entry in book.rights {
      return None, result + {entry}, chain;
    }
    if entry == ALL {
      return None, result + book.rights, chain;
    }
    if entry !in book.aliases {
      return Some(UnknownEntry(entry)), result, chain;
    }
    if entry in chain {
      CycleNotResolvable(book, chain, entry);
      return Some(Recursive(chain, entry)), result, chain;
    }
    if depth >= MAX_DEPTH {
      return Some(TooDeep(chain, entry)), result, chain;
    }
    forall e | e in book.aliases[entry] ensures LeadsTo(book, chain + [entry], e) { }
    chain := chain + [entry];
    err, result, chain := ResolveAll(book.aliases[entry], book, result, depth + 1, chain);
    if err.None? {
      chain := chain[..|chain| - 1];
    }
  }

  /** The loop over the entries of one alias, or over a whole list. */
  method ResolveAll(entries: seq<string>, book: Book, result0: set<string>, depth: nat, chain0: seq<string>)
    returns (err: Option<AliasError>, result: set<string>, chain: seq<string>)
    requires |chain0| == depth <= MAX_DEPTH && forall e :: e in entries ==> LeadsTo(book, chain0, e)
    ensures err.None? <==> forall e :: e in entries ==> Resolvable(book, e, MAX_DEPTH - depth)
    ensures err.None? ==> chain == chain0 && result == result0 + RightsOfAll(book, entries, MAX_DEPTH - depth)
    ensures err.Some? ==> TrueError(book, err.value)
    decreases MAX_DEPTH - depth, 1
  {
    result, chain := result0, chain0;
    for i := 0 to |entries|
      invariant chain == chain0 && result == result0 + RightsOfAll(book, entries[..i], MAX_DEPTH - depth)
      invariant forall k :: 0 <= k < i ==> Resolvable(book, entries[k], MAX_DEPTH - depth)
    {
      err, result, chain := ResolveEntry(entries[i], book, result, depth, chain);
      if err.Some? {
        assert entries[i] in entries;
        return err, result, chain;
      }
      assert entries[..i + 1][..i] == entries[..i];
    }
    assert entries[..|entries|] == entries;
    return None, result, chain;
  }

  /** `resolve_aliases` */
  method ResolveAliases(allow: seq<string>, book: Book) returns (r: Result<set<string>, AliasError>)
    ensures r.Ok? <==> forall e :: e in allow ==> Resolvable(book, e, MAX_DEPTH)
    ensures r.Ok? ==> r.value == GrantedBy(book, allow)
    ensures r.Err? ==> TrueError(book, r.error)
  {
    forall e | e in allow ensures LeadsTo(book, [], e) { assert [] + [e] == [e]; }
    var err, result, _ := ResolveAll(allow, book, {}, 0, []);
    if err.Some? {
      return Err(err.value);
    }
    RightsAreGranted(book, allow, MAX_DEPTH);
    return Ok(result);
  }

  /** No alias takes the name of a right or of the built-in alias, and every alias resolves. */
  ghost predicate AliasesValid(book: Book) {
    forall name :: name in book.aliases ==> name !in book.rights && name != ALL && Resolvable(book, name, MAX_DEPTH)
  }

  /** The first loop of `validate_user_aliases`: a name that is taken already. */
  method FindShadow(book: Book) returns (err: Option<AliasError>)
    ensures err.None? <==> forall name :: name in book.aliases ==> name !in book.rights && name != ALL
    ensures err.Some? ==> TrueError(book, err.value)
  {
    var todo := book.aliases.Keys;
    while todo != {}
      invariant todo <= book.aliases.Keys
      invariant forall name :: name in book.aliases && name !in todo ==> name !in book.rights && name != ALL
      decreases |todo|
    {
      var name :| name in todo;
      if name in book.rights || name == ALL {
        return Some(Shadows(name));
      }
      todo := todo - {name};
    }
    return None;
  }

  /** The second loop for one alias: its entries, with the alias itself as the chain so far. */
  method CheckAlias(name: string, book: Book) returns (err: Option<AliasError>)
    requires KindOf(book, name) == Alias
    ensures err.None? <==> Resolvable(book, name, MAX_DEPTH)
    ensures err.Some? ==> TrueError(book, err.value)
  {
    forall e | e in book.aliases[name] ensures LeadsTo(book, [name], e) { assert [name] + [e] == [name, e]; }
    var result, chain;
    err, result, chain := ResolveAll(book.aliases[name], book, {}, 1, [name]);
  }

  /** `validate_user_aliases` */
  method ValidateUserAliases(book: Book) returns (err: Option<AliasError>)
    ensures err.None? <==> AliasesValid(book)
    ensures err.Some? ==> TrueError(book, err.value)
  {
    err := FindShadow(book);
    if err.Some? {
      return err;
    }
    var todo := book.aliases.Keys;
    while todo != {}
      invariant todo <= book.aliases.Keys
      invariant forall name :: name in book.aliases && name !in todo ==> Resolvable(book, name, MAX_DEPTH)
      decreases |todo|
    {
      var name :| name in todo;
      err := CheckAlias(name, book);
      if err.Some? {
        return err;
      }
      todo := todo - {name};
    }
    return None;
  }

  /** `expand_allow` */
  method ExpandAllow(allow: seq<string>, book: Book) returns (r: Result<set<string>, AliasError>)
    ensures r.Ok? <==> forall e :: e in allow ==> Resolvable(book, e, MAX_DEPTH)
    ensures r.Ok? ==> r.value == GrantedBy(book, allow)
    ensures r.Err? ==> TrueError(book, r.error)
    ensures AliasesValid(book) ==> (r.Ok? <==> forall e :: e in allow ==> KindOf(book, e) != Unknown)
  {
    var err := ValidateRights(allow, book);
    if err.Some? {
      return Err(err.value);
    }
    r := ResolveAliases(allow, book);
  }

  // ----- why it is right

  lemma {:induction false} WalkResolvable(book: Book, p: seq<string>, n: nat, k: nat)
    requires AliasPath(book, p) && k < |p| && Resolvable(book, p[0], n)
    ensures k <= n && Resolvable(book, p[k], n - k)
  {
    if k > 0 {
      WalkResolvable(book, p, n, k - 1);
      assert Lists(book, p[k - 1], p[k]);
    }
  }

  /** An alias on a cycle is not resolvable at any depth, so the depth limit alone stops every cycle. */
  lemma {:induction false} CycleNeverResolves(book: Book, p: seq<string>, n: nat)
    requires AliasPath(book, p) && |p| > 1 && p[0] == p[|p| - 1]
    ensures !Resolvable(book, p[0], n)
    decreases n
  {
    if Resolvable(book, p[0], n) {
      WalkResolvable(book, p, n, |p| - 1);
      CycleNeverResolves(book, p, n - (|p| - 1));
    }
  }

  lemma CycleNotResolvable(book: Book, chain: seq<string>, entry: string)
    requires LeadsTo(book, chain, entry) && entry in chain
    ensures forall n: nat :: !Resolvable(book, entry, n)
  {
    var i :| 0 <= i < |chain| && chain[i] == entry;
    var whole := chain + [entry];
    var p := whole[i..];
    forall n: nat ensures !Resolvable(book, entry, n) {
      CycleNeverResolves(book, p, n);
    }
  }

  /** Resolvable means what it says: all chains from the entry are short and end in something known. */
  lemma {:induction false} ResolvableMeans(book: Book, entry: string, n: nat)
    ensures Resolvable(book, entry, n) <==>
              forall p :: AliasPath(book, p) && p[0] == entry ==> ShortAndKnown(book, p, n)
    decreases n
  {
    if Resolvable(book, entry, n) {
      forall p | AliasPath(book, p) && p[0] == entry ensures ShortAndKnown(book, p, n) {
        WalkResolvable(book, p, n, |p| - 1);
      }
    } else if KindOf(book, entry) == Alias && n > 0 {
      var e :| e in book.aliases[entry] && !Resolvable(book, e, n - 1);
      ResolvableMeans(book, e, n - 1);
      var q :| AliasPath(book, q) && q[0] == e && !ShortAndKnown(book, q, n - 1);
      assert AliasPath(book, [entry] + q) && !ShortAndKnown(book, [entry] + q, n);
    } else {
      assert AliasPath(book, [entry]) && !ShortAndKnown(book, [entry], n);
    }
  }

  /** The chain ends in a known name and runs through at most `n` aliases. */
  ghost predicate ShortAndKnown(book: Book, p: seq<string>, n: nat)
    requires p != []
  {
    var last := KindOf(book, p[|p| - 1]);
    last != Unknown && (if last == Alias then |p| else |p| - 1) <= n
  }

  lemma {:induction false} RightsOfGranted(book: Book, entry: string, n: nat, right: string)
    requires Resolvable(book, entry, n)
    ensures right in RightsOf(book, entry, n) <==> Grants(book, entry, right)
    decreases n
  {
    if KindOf(book, entry) == Alias {
      RightsOfSome(book, book.aliases[entry], n - 1, right);
      forall e | e in book.aliases[entry]
        ensures right in RightsOf(book, e, n - 1) <==> Grants(book, e, right)
      {
        RightsOfGranted(book, e, n - 1, right);
      }
      GrantsThroughAlias(book, entry, right);
    } else if right in RightsOf(book, entry, n) {
      assert GrantedVia(book, [entry], right);
    } else {
      forall p | p != [] && p[0] == entry ensures !GrantedVia(book, p, right) {
        assert |p| > 1 ==> !Lists(book, p[0], p[1]);
      }
    }
  }

  lemma GrantsThroughAlias(book: Book, entry: string, right: string)
    requires KindOf(book, entry) == Alias
    ensures Grants(book, entry, right) <==> exists e :: e in book.aliases[entry] && Grants(book, e, right)
  {
    if Grants(book, entry, right) {
      var p :| p != [] && p[0] == entry && GrantedVia(book, p, right);
      assert |p| > 1;
      assert Lists(book, p[0], p[1]);
      assert GrantedVia(book, p[1..], right);
    }
    if e :| e in book.aliases[entry] && Grants(book, e, right) {
      var q :| q != [] && q[0] == e && GrantedVia(book, q, right);
      assert GrantedVia(book, [entry] + q, right);
    }
  }

  lemma {:induction false} RightsOfSome(book: Book, entries: seq<string>, n: nat, right: string)
    ensures right in RightsOfAll(book, entries, n) <==> exists e :: e in entries && right in RightsOf(book, e, n)
    decreases |entries|
  {
    if entries != [] {
      var last := |entries| - 1;
      RightsOfSome(book, entries[..last], n, right);
      if right in RightsOfAll(book, entries[..last], n) {
        var e :| e in entries[..last] && right in RightsOf(book, e, n);
        assert e in entries;
      }
      assert entries[last] in entries;
      assert entries == entries[..last] + [entries[last]];
    }
  }

  lemma RightsAreGranted(book: Book, allow: seq<string>, n: nat)
    requires forall e :: e in allow ==> Resolvable(book, e, n)
    ensures RightsOfAll(book, allow, n) == GrantedBy(book, allow)
  {
    forall right ensures right in RightsOfAll(book, allow, n) <==> right in GrantedBy(book, allow) {
      RightsOfSome(book, allow, n, right);
      forall e | e in allow ensures right in RightsOf(book, e, n) <==> Grants(book, e, right) {
        RightsOfGranted(book, e, n, right);
      }
    }
  }

  /** A longer list grants what its parts grant, no more and no less. */
  lemma GrantsDistribute(book: Book, a: seq<string>, b: seq<string>)
    ensures GrantedBy(book, a + b) == GrantedBy(book, a) + GrantedBy(book, b)
  {
  }
}
