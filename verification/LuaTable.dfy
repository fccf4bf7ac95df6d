/**
 Converting Lua values to YAML (`lua_to_yaml`). A table is the list of pairs that
 iterating over it yields; numbers that are not integers are kept as they are.
 */
module LuaTable {
  import opened Wrappers
  import opened Sequences

  datatype LuaValue =
    | Nil
    | Boolean(b: bool)
    | Integer(i: int)
    | Number(n: real)
    | Text(s: string)
    | BadText(bytes: seq<int>)                           // a string that is not UTF-8
    | Table(ref: nat, pairs: seq<(LuaValue, LuaValue)>)  // tables are compared by reference
    | Opaque(ref: nat)                                   // functions, userdata, threads

  datatype Yaml =
    | Null
    | Bool(b: bool)
    | Int(i: int)
    | Float(n: real)
    | Str(s: string)
    | Sequence(items: seq<Yaml>)
    | Mapping(entries: seq<(Yaml, Yaml)>)

  /** What Lua guarantees of a table: no key twice, no nil value; likewise in the tables it holds. */
  ghost predicate WellFormed(v: LuaValue) {
    v.Table? ==>
      && (forall a, b :: 0 <= a < b < |v.pairs| ==> v.pairs[a].0 != v.pairs[b].0)
      && (forall k :: 0 <= k < |v.pairs| ==> v.pairs[k].1 != Nil && WellFormed(v.pairs[k].1))
  }

  /** The keys are 1 to the number of pairs, in some order. */
  ghost predicate IsArray(pairs: seq<(LuaValue, LuaValue)>) {
    && (forall k :: 0 <= k < |pairs| ==> pairs[k].0.Integer? && 1 <= pairs[k].0.i <= |pairs|)
    && (forall i :: 1 <= i <= |pairs| ==> HasKey(pairs, Integer(i)))
  }

  ghost predicate HasKey(pairs: seq<(LuaValue, LuaValue)>, key: LuaValue) {
    exists k :: 0 <= k < |pairs| && pairs[k].0 == key
  }

  function KeyToYaml(key: LuaValue): Option<Yaml> {
    match key
    case Text(s) => Some(Str(s))
    case Integer(i) => Some(Int(i))
    case _ => None
  }

  /** The key of an entry is the table's key: the same text or the same number. */
  ghost predicate KeyMirrors(key: LuaValue, y: Yaml) {
    (key.Text? && y == Str(key.s)) || (key.Integer? && y == Int(key.i))
  }

  /** The YAML value says the same: every entry of every table is there, under its key or at its place. */
  ghost predicate Mirrors(v: LuaValue, y: Yaml) {
    match v
    case Nil => y == Null
    case Boolean(b) => y == Bool(b)
    case Integer(i) => y == Int(i)
    case Number(n) => y == Float(n)
    case Text(s) => y == Str(s)
    case Table(_, pairs) =>
      if IsArray(pairs) then
        && y.Sequence? && |y.items| == |pairs|
        && forall k :: 0 <= k < |pairs| ==> Mirrors(pairs[k].1, y.items[pairs[k].0.i - 1])
      else
        && y.Mapping? && |y.entries| == |pairs|
        && forall k :: 0 <= k < |pairs| ==>
             KeyMirrors(pairs[k].0, y.entries[k].0) && Mirrors(pairs[k].1, y.entries[k].1)
    case _ => false
  }

  /** The values that have a YAML form. */
  ghost predicate Convertible(v: LuaValue) {
    match v
    case BadText(_) => false
    case Opaque(_) => false
    case Table(_, pairs) =>
      && (forall k :: 0 <= k < |pairs| ==> Convertible(pairs[k].1))
      && (IsArray(pairs) || forall k :: 0 <= k < |pairs| ==> pairs[k].0.Text? || pairs[k].0.Integer?)
    case _ => true
  }

  // ----- telling arrays from maps

  /** The first loop over a table: array or map, and the highest index. */
  method Inspect(pairs: seq<(LuaValue, LuaValue)>) returns (isArray: bool, maxIndex: int, count: nat)
    ensures count == |pairs| && maxIndex >= 0
    ensures isArray <==> forall k :: 0 <= k < |pairs| ==> pairs[k].0.Integer? && pairs[k].0.i > 0
    ensures forall k :: 0 <= k < |pairs| && pairs[k].0.Integer? ==> pairs[k].0.i <= maxIndex
    ensures maxIndex > 0 ==> HasKey(pairs, Integer(maxIndex))
  {
    isArray, maxIndex, count := true, 0, 0;
    for k := 0 to |pairs|
      invariant count == k && maxIndex >= 0
      invariant isArray <==> forall j :: 0 <= j < k ==> pairs[j].0.Integer? && pairs[j].0.i > 0
      invariant forall j :: 0 <= j < k && pairs[j].0.Integer? ==> pairs[j].0.i <= maxIndex
      invariant maxIndex > 0 ==> HasKey(pairs, Integer(maxIndex))
    {
      var key := pairs[k].0;
      count := count + 1;
      if key.Integer? && key.i > 0 {
        maxIndex := if key.i > maxIndex then key.i else maxIndex;
      } else {
        isArray := false;
      }
    }
  }

  ghost function Indices(n: nat): (indices: set<int>)
    ensures forall i :: i in indices <==> 1 <= i <= n
  {
    if n == 0 then {} else Indices(n - 1) + {n}
  }

  lemma {:induction false} IndicesSize(n: nat)
    ensures |Indices(n)| == n
  {
    if n > 0 {
      IndicesSize(n - 1);
    }
  }

  /** Positive keys without repetition, as many as the highest of them: then none is missing. */
  lemma CountEqualsMaximum(pairs: seq<(LuaValue, LuaValue)>)
    requires forall a, b :: 0 <= a < b < |pairs| ==> pairs[a].0 != pairs[b].0
    requires forall k :: 0 <= k < |pairs| ==> pairs[k].0.Integer? && 1 <= pairs[k].0.i <= |pairs|
    ensures IsArray(pairs)
  {
    var keys := seq(|pairs|, k requires 0 <= k < |pairs| => pairs[k].0.i);
    IndicesSize(|pairs|);
    assert Distinct(keys) by {
      forall a, b | 0 <= a < b < |keys| ensures keys[a] != keys[b] {
        assert pairs[a].0 != pairs[b].0;
      }
    }
    DistinctCovers(keys, Indices(|pairs|));
    forall i | 1 <= i <= |pairs| ensures HasKey(pairs, Integer(i)) {
      assert i in Elements(keys);
      var k :| 0 <= k < |keys| && keys[k] == i;
      assert pairs[k].0 == Integer(i);
    }
  }

  /** The branch test of the code is exact. */
  lemma ArrayTest(pairs: seq<(LuaValue, LuaValue)>, isArray: bool, maxIndex: int)
    requires forall a, b :: 0 <= a < b < |pairs| ==> pairs[a].0 != pairs[b].0
    requires isArray <==> forall k :: 0 <= k < |pairs| ==> pairs[k].0.Integer? && pairs[k].0.i > 0
    requires maxIndex >= 0 && forall k :: 0 <= k < |pairs| && pairs[k].0.Integer? ==> pairs[k].0.i <= maxIndex
    requires maxIndex > 0 ==> HasKey(pairs, Integer(maxIndex))
    ensures (|pairs| == 0 || (isArray && maxIndex == |pairs|)) <==> IsArray(pairs)
    ensures IsArray(pairs) ==> maxIndex == |pairs|
  {
    if isArray && maxIndex == |pairs| {
      CountEqualsMaximum(pairs);
    }
    if IsArray(pairs) && |pairs| > 0 {
      assert HasKey(pairs, Integer(|pairs|));
    }
  }

  // ----- the conversion

  /** `table.get(i)`: nil where there is no such key. */
  method Get(pairs: seq<(LuaValue, LuaValue)>, key: LuaValue) returns (v: LuaValue)
    ensures if HasKey(pairs, key) then exists k :: 0 <= k < |pairs| && pairs[k].0 == key && pairs[k].1 == v else v == Nil
  {
    for k := 0 to |pairs|
      invariant forall j :: 0 <= j < k ==> pairs[j].0 != key
    {
      if pairs[k].0 == key {
        return pairs[k].1;
      }
    }
    return Nil;
  }

  /** `Mapping::insert`: a key that is there already gets the new value. */
  function Put(entries: seq<(Yaml, Yaml)>, key: Yaml, value: Yaml): seq<(Yaml, Yaml)> {
    if entries == [] then [(key, value)]
    else if entries[0].0 == key then [(key, value)] + entries[1..]
    else [entries[0]] + Put(entries[1..], key, value)
  }

  lemma {:induction false} PutNew(entries: seq<(Yaml, Yaml)>, key: Yaml, value: Yaml)
    requires forall k :: 0 <= k < |entries| ==> entries[k].0 != key
    ensures Put(entries, key, value) == entries + [(key, value)]
  {
    if entries == [] {
    } else {
      PutNew(entries[1..], key, value);
      assert entries == [entries[0]] + entries[1..];
    }
  }

  /** `lua_to_yaml`: succeeds exactly where there is a YAML form, and then loses nothing. */
  method LuaToYaml(v: LuaValue) returns (r: Option<Yaml>)
    requires WellFormed(v)
    ensures r.Some? <==> Convertible(v)
    ensures r.Some? ==> Mirrors(v, r.value)
    decreases v, 1
  {
    match v {
      case Nil => return Some(Null);
      case Boolean(b) => return Some(Bool(b));
      case Integer(i) => return Some(Int(i));
      case Number(n) => return Some(Float(n));
      case Text(s) => return Some(Str(s));
      case BadText(_) => return None;
      case Opaque(_) => return None;
      case Table(_, pairs) =>
        var isArray, maxIndex, count := Inspect(pairs);
        ArrayTest(pairs, isArray, maxIndex);
        if count == 0 || (isArray && maxIndex == count) {
          r := ConvertArray(v, maxIndex);
        } else {
          r := ConvertMap(v);
        }
    }
  }

  method ConvertArray(v: LuaValue, maxIndex: int) returns (r: Option<Yaml>)
    requires WellFormed(v) && v.Table? && IsArray(v.pairs) && maxIndex == |v.pairs|
    ensures r.Some? <==> Convertible(v)
    ensures r.Some? ==> Mirrors(v, r.value)
    decreases v, 0
  {
    var pairs := v.pairs;
    var items: seq<Yaml> := [];
    var i := 1;
    while i <= maxIndex
      invariant 1 <= i <= maxIndex + 1 && |items| == i - 1
      invariant forall k :: 0 <= k < |pairs| && pairs[k].0.i < i ==>
                  Convertible(pairs[k].1) && Mirrors(pairs[k].1, items[pairs[k].0.i - 1])
    {
      assert HasKey(pairs, Integer(i));
      var value := Get(pairs, Integer(i));
      ghost var at :| 0 <= at < |pairs| && pairs[at].0 == Integer(i) && pairs[at].1 == value;
      assert forall k :: 0 <= k < |pairs| && pairs[k].0.i == i ==> k == at;
      var item := LuaToYaml(value);
      if item.None? {
        return None;
      }
      items := items + [item.value];
      i := i + 1;
    }
    return Some(Sequence(items));
  }

  /** The pair was converted, key and value, to this entry. */
  ghost predicate PairMirrored(pair: (LuaValue, LuaValue), entry: (Yaml, Yaml)) {
    KeyToYaml(pair.0) == Some(entry.0) && Convertible(pair.1) && Mirrors(pair.1, entry.1)
  }

  lemma MapMirrored(v: LuaValue, entries: seq<(Yaml, Yaml)>)
    requires v.Table? && !IsArray(v.pairs) && |entries| == |v.pairs|
    requires forall k :: 0 <= k < |entries| ==> PairMirrored(v.pairs[k], entries[k])
    ensures Convertible(v) && Mirrors(v, Mapping(entries))
  {
    forall k | 0 <= k < |v.pairs|
      ensures KeyMirrors(v.pairs[k].0, entries[k].0) && Convertible(v.pairs[k].1) && Mirrors(v.pairs[k].1, entries[k].1)
    {
      assert PairMirrored(v.pairs[k], entries[k]);
    }
  }

  lemma PairNotConvertible(v: LuaValue, k: nat)
    requires v.Table? && !IsArray(v.pairs) && k < |v.pairs|
    requires KeyToYaml(v.pairs[k].0).None? || !Convertible(v.pairs[k].1)
    ensures !Convertible(v)
  {
  }

  /** The keys of a table stay apart as YAML keys. */
  lemma KeysStayApart(pairs: seq<(LuaValue, LuaValue)>, entries: seq<(Yaml, Yaml)>, k: nat, key: Yaml)
    requires |entries| == k < |pairs| && forall a, b :: 0 <= a < b < |pairs| ==> pairs[a].0 != pairs[b].0
    requires forall j :: 0 <= j < k ==> PairMirrored(pairs[j], entries[j])
    requires KeyToYaml(pairs[k].0) == Some(key)
    ensures forall j :: 0 <= j < k ==> entries[j].0 != key
  {
    forall j | 0 <= j < k ensures entries[j].0 != key {
      assert PairMirrored(pairs[j], entries[j]) && pairs[j].0 != pairs[k].0;
    }
  }

  lemma PairDone(pairs: seq<(LuaValue, LuaValue)>, entries: seq<(Yaml, Yaml)>, k: nat, key: Yaml, value: Yaml)
    requires |entries| == k < |pairs| && forall a, b :: 0 <= a < b < |pairs| ==> pairs[a].0 != pairs[b].0
    requires forall j :: 0 <= j < k ==> PairMirrored(pairs[j], entries[j])
    requires PairMirrored(pairs[k], (key, value))
    ensures Put(entries, key, value) == entries + [(key, value)]
    ensures forall j :: 0 <= j < k + 1 ==> PairMirrored(pairs[j], (entries + [(key, value)])[j])
  {
    KeysStayApart(pairs, entries, k, key);
    PutNew(entries, key, value);
  }

  method ConvertMap(v: LuaValue) returns (r: Option<Yaml>)
    requires WellFormed(v) && v.Table? && !IsArray(v.pairs)
    ensures r.Some? <==> Convertible(v)
    ensures r.Some? ==> Mirrors(v, r.value)
    decreases v, 0
  {
    var pairs := v.pairs;
    var entries: seq<(Yaml, Yaml)> := [];
    for k := 0 to |pairs|
      invariant |entries| == k
      invariant forall j :: 0 <= j < k ==> PairMirrored(pairs[j], entries[j])
    {
      var key := KeyToYaml(pairs[k].0);
      if key.None? {
        PairNotConvertible(v, k);
        return None;
      }
      var value := LuaToYaml(pairs[k].1);
      if value.None? {
        PairNotConvertible(v, k);
        return None;
      }
      PairDone(pairs, entries, k, key.value, value.value);
      entries := Put(entries, key.value, value.value);
    }
    MapMirrored(v, entries);
    return Some(Mapping(entries));
  }
}
