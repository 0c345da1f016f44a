/**
 The layered TOML merge of _bmad/scripts/resolve_config.py and resolve_customization.py: tables merge recursively,
 arrays of tables that share `code` or `id` merge by that key, all other arrays are appended, and otherwise the
 override wins.
 */
module TomlMerge {
  import opened Outcomes

  datatype Toml =
    | Table(entries: map<string, Toml>)
    | Array(items: seq<Toml>)
    | Str(text: string)
    | Int(whole: int)
    | Float(number: real)
    | Bool(truth: bool)
    | Moment(instant: string)

  datatype PythonError = TypeError | SystemExit | UnicodeDecodeError

  const CODE := "code"
  const ID := "id"

  /** What a Python dictionary distinguishes: 1, 1.0 and True are one key. */
  datatype Key = StrKey(string) | NumKey(real) | MomentKey(string)

  /** Tables and arrays cannot be dictionary keys. */
  function DictKey(v: Toml): Option<Key> {
    match v
    case Str(s) => Some(StrKey(s))
    case Int(n) => Some(NumKey(n as real))
    case Float(x) => Some(NumKey(x))
    case Bool(b) => Some(NumKey(if b then 1.0 else 0.0))
    case Moment(m) => Some(MomentKey(m))
    case _ => None
  }

  /** Two values are one key if they are equal or the same number; a truth value counts as 1 or 0. */
  lemma SameKeyExactly(v: Toml, w: Toml)
    requires DictKey(v).Some?
    ensures DictKey(v) == DictKey(w)
            <==> || v == w
                 || (v.Int? && w.Float? && w.number == v.whole as real)
                 || (v.Float? && w.Int? && v.number == w.whole as real)
                 || (v.Bool? && w.Int? && w.whole == if v.truth then 1 else 0)
                 || (v.Int? && w.Bool? && v.whole == if w.truth then 1 else 0)
                 || (v.Bool? && w.Float? && w.number == if v.truth then 1.0 else 0.0)
                 || (v.Float? && w.Bool? && v.number == if w.truth then 1.0 else 0.0)
    ensures DictKey(w).None? <==> w.Table? || w.Array?
  {
  }

  predicate Has(item: Toml, field: string) {
    item.Table? && field in item.entries
  }

  function KeyAt(item: Toml, field: string): Option<Key> {
    if Has(item, field) then DictKey(item.entries[field]) else None
  }

  predicate Unhashable(item: Toml, field: string) {
    Has(item, field) && DictKey(item.entries[field]).None?
  }

  /** Where the last item with this key stands; -1 if there is none. */
  function LastIndex(list: seq<Toml>, field: string, k: Key): (i: int)
    ensures -1 <= i < |list|
    ensures i >= 0 ==> KeyAt(list[i], field) == Some(k)
    ensures forall j :: i < j < |list| ==> KeyAt(list[j], field) != Some(k)
  {
    if list == [] then -1
    else if KeyAt(list[|list| - 1], field) == Some(k) then |list| - 1
    else LastIndex(list[..|list| - 1], field, k)
  }

  /** Replace the last item with the same key, or append. */
  function Upsert(list: seq<Toml>, field: string, item: Toml): seq<Toml> {
    var k := KeyAt(item, field);
    if k.Some? && LastIndex(list, field, k.value) >= 0 then list[LastIndex(list, field, k.value) := item]
    else list + [item]
  }

  function UpsertAll(list: seq<Toml>, field: string, over: seq<Toml>): seq<Toml> {
    if over == [] then list
    else Upsert(UpsertAll(list, field, over[..|over| - 1]), field, over[|over| - 1])
  }

  function Tables(items: seq<Toml>): seq<Toml> {
    if items == [] then []
    else Tables(items[..|items| - 1]) + if items[|items| - 1].Table? then [items[|items| - 1]] else []
  }

  lemma {:induction false} AllTables(items: seq<Toml>)
    requires forall item :: item in items ==> item.Table?
    ensures Tables(items) == items
  {
    if items != [] {
      AllTables(items[..|items| - 1]);
      assert items == items[..|items| - 1] + [items[|items| - 1]];
    }
  }

  /** The tables of a list are taken item by item, in their order. */
  lemma {:induction false} TablesOfParts(first: seq<Toml>, second: seq<Toml>)
    ensures Tables(first + second) == Tables(first) + Tables(second)
  {
    if second == [] {
      assert first + second == first;
    } else {
      var n := |second| - 1;
      TablesOfParts(first, second[..n]);
      assert (first + second)[..|first| + n] == first + second[..n];
      var last := if second[n].Table? then [second[n]] else [];
      assert Tables(first) + (Tables(second[..n]) + last) == Tables(first) + Tables(second[..n]) + last;
    }
  }

  lemma TablesOfOne(item: Toml)
    ensures Tables([item]) == if item.Table? then [item] else []
  {
    assert [item][..0] == [];
  }

  /** index_by_key: every key in use, at its last position. */
  ghost predicate Indexes(index: map<Key, nat>, list: seq<Toml>, field: string) {
    forall k :: if k in index then index[k] == LastIndex(list, field, k) else LastIndex(list, field, k) == -1
  }

  lemma LastIndexUnique(list: seq<Toml>, field: string, k: Key, i: int)
    requires -1 <= i < |list| && (i >= 0 ==> KeyAt(list[i], field) == Some(k))
    requires forall j :: i < j < |list| ==> KeyAt(list[j], field) != Some(k)
    ensures LastIndex(list, field, k) == i
  {
  }

  lemma Appended(index: map<Key, nat>, list: seq<Toml>, field: string, item: Toml)
    requires Indexes(index, list, field)
    ensures var k := KeyAt(item, field);
            Indexes(if k.Some? then index[k.value := |list|] else index, list + [item], field)
  {
    forall k ensures LastIndex(list + [item], field, k)
                     == if KeyAt(item, field) == Some(k) then |list| else LastIndex(list, field, k)
    {
      LastIndexUnique(list + [item], field, k,
                      if KeyAt(item, field) == Some(k) then |list| else LastIndex(list, field, k));
    }
  }

  /** What the index is good for: it finds the place of an upsert, and is easily kept. */
  lemma Upserted(index: map<Key, nat>, list: seq<Toml>, field: string, item: Toml)
    requires Indexes(index, list, field)
    ensures match KeyAt(item, field)
            case Some(k) =>
              if k in index then
                && index[k] < |list| && Upsert(list, field, item) == list[index[k] := item]
                && Indexes(index, list[index[k] := item], field)
              else
                Upsert(list, field, item) == list + [item] && Indexes(index[k := |list|], list + [item], field)
            case None => Upsert(list, field, item) == list + [item] && Indexes(index, list + [item], field)
  {
    Appended(index, list, field, item);
    var key := KeyAt(item, field);
    if key.Some? && key.value in index {
      var at := index[key.value];
      forall k ensures LastIndex(list[at := item], field, k) == LastIndex(list, field, k) {
        LastIndexUnique(list[at := item], field, k, LastIndex(list, field, k));
      }
    }
  }

  predicate AnyUnhashable(items: seq<Toml>, field: string) {
    exists item :: item in items && Unhashable(item, field)
  }

  lemma OneMoreHashable(items: seq<Toml>, i: nat, field: string)
    requires i < |items|
    ensures AnyUnhashable(items[..i + 1], field) <==> AnyUnhashable(items[..i], field) || Unhashable(items[i], field)
    ensures Unhashable(items[i], field) ==> AnyUnhashable(items, field)
    ensures items[..i + 1][..i] == items[..i]
  {
    hide Unhashable;
    assert items[..i + 1] == items[..i] + [items[i]];
  }

  lemma NothingYet(base: seq<Toml>, over: seq<Toml>, field: string)
    ensures !AnyUnhashable(base[..0], field) && !AnyUnhashable(over[..0], field)
    ensures Indexes(map[], [], field)
  {
  }

  method MergeByKey(base: seq<Toml>, over: seq<Toml>, field: string) returns (r: Result<seq<Toml>, PythonError>)
    ensures r == if AnyUnhashable(base, field) || AnyUnhashable(over, field) then Err(TypeError)
                 else Ok(UpsertAll(Tables(base), field, over))
  {
    hide DictKey, LastIndex, Upsert, Indexes, AnyUnhashable;
    var result: seq<Toml> := [];
    var indexByKey: map<Key, nat> := map[];
    NothingYet(base, over, field);
    for i := 0 to |base|
      invariant result == Tables(base[..i]) && Indexes(indexByKey, result, field)
      invariant !AnyUnhashable(base[..i], field)
    {
      var item := base[i];
      OneMoreHashable(base, i, field);
      if item.Table? {
        Appended(indexByKey, result, field, item);
        if Has(item, field) {
          var key := DictKey(item.entries[field]);
          if key.None? {
            return Err(TypeError);
          }
          indexByKey := indexByKey[key.value := |result|];
        }
        result := result + [item];
      }
    }
    assert base[..|base|] == base;
    for i := 0 to |over|
      invariant result == UpsertAll(Tables(base), field, over[..i]) && Indexes(indexByKey, result, field)
      invariant !AnyUnhashable(over[..i], field)
    {
      var item := over[i];
      OneMoreHashable(over, i, field);
      Upserted(indexByKey, result, field, item);
      if !item.Table? {
        result := result + [item];
      } else {
        if Has(item, field) {
          var key := DictKey(item.entries[field]);
          if key.None? {
            return Err(TypeError);
          }
          if key.value in indexByKey {
            result := result[indexByKey[key.value] := item];
          } else {
            indexByKey := indexByKey[key.value := |result|];
            result := result + [item];
          }
        } else {
          result := result + [item];
        }
      }
    }
    assert over[..|over|] == over;
    return Ok(result);
  }

  /** _detect_keyed_merge_field */
  function DetectField(items: seq<Toml>): Option<string> {
    if items == [] || exists item :: item in items && !item.Table? then None
    else if forall item :: item in items ==> Has(item, CODE) then Some(CODE)
    else if forall item :: item in items ==> Has(item, ID) then Some(ID)
    else None
  }

  function MergedArrays(base: seq<Toml>, over: seq<Toml>): seq<Toml> {
    match DetectField(base + over)
    case Some(field) => UpsertAll(base, field, over)
    case None => base + over
  }

  predicate ArraysRaise(base: seq<Toml>, over: seq<Toml>) {
    match DetectField(base + over)
    case Some(field) => AnyUnhashable(base, field) || AnyUnhashable(over, field)
    case None => false
  }

  method MergeArrays(base: seq<Toml>, over: seq<Toml>) returns (r: Result<seq<Toml>, PythonError>)
    ensures r == if ArraysRaise(base, over) then Err(TypeError) else Ok(MergedArrays(base, over))
    ensures var all := base + over;
            var coded := all != [] && forall item :: item in all ==> item.Table? && "code" in item.entries;
            var named := all != [] && forall item :: item in all ==> item.Table? && "id" in item.entries;
            if !coded && !named then r == Ok(base + over)
            else
              var field := if coded then "code" else "id";
              && (r.Ok? <==> forall item :: item in all ==>
                               !item.entries[field].Table? && !item.entries[field].Array?)
              && (r.Ok? ==> r.value == UpsertAll(base, field, over))
  {
    hide AnyUnhashable, UpsertAll;
    ArraysExactly(base, over);
    var field := DetectField(base + over);
    if field.Some? {
      forall item | item in base ensures item.Table? {
        assert item in base + over;
      }
      AllTables(base);
      r := MergeByKey(base, over, field.value);
    } else {
      r := Ok(base + over);
    }
  }

  /** The field by which two arrays merge, and what keeps them from merging. */
  lemma ArraysExactly(base: seq<Toml>, over: seq<Toml>)
    ensures var all := base + over;
            var coded := all != [] && forall item :: item in all ==> item.Table? && "code" in item.entries;
            var named := all != [] && forall item :: item in all ==> item.Table? && "id" in item.entries;
            if !coded && !named then !ArraysRaise(base, over) && MergedArrays(base, over) == base + over
            else
              var field := if coded then "code" else "id";
              && (!ArraysRaise(base, over) <==> forall item :: item in all ==>
                                                  !item.entries[field].Table? && !item.entries[field].Array?)
              && MergedArrays(base, over) == UpsertAll(base, field, over)
  {
    hide UpsertAll;
    var all := base + over;
    var field := DetectField(all);
    if field.Some? {
      assert forall item :: item in all <==> item in base || item in over;
      assert forall item :: item in all ==> Has(item, field.value);
    }
  }

  /** The merged configuration, where the merge does not raise. */
  function Merged(base: Toml, over: Toml): Toml
    decreases over
  {
    match (base, over)
    case (Table(a), Table(b)) =>
      Table(map k | k in a.Keys + b.Keys :: if k !in b then a[k] else if k in a then Merged(a[k], b[k]) else b[k])
    case (Array(a), Array(b)) => Array(MergedArrays(a, b))
    case _ => over
  }

  /** Somewhere two arrays merge by a field in which an item holds a table or an array. */
  predicate Raises(base: Toml, over: Toml)
    decreases over
  {
    match (base, over)
    case (Table(a), Table(b)) => exists k :: k in a && k in b && Raises(a[k], b[k])
    case (Array(a), Array(b)) => ArraysRaise(a, b)
    case _ => false
  }

  /** The tables a and b merged, except at the keys of b that are still left. */
  ghost predicate MergedSoFar(a: map<string, Toml>, b: map<string, Toml>, left: set<string>,
                              result: map<string, Toml>) {
    && left <= b.Keys && result.Keys == a.Keys + (b.Keys - left)
    && (forall k :: k in result ==> result[k] == if k in left || k !in b then a[k]
                                                 else if k in a then Merged(a[k], b[k]) else b[k])
    && (forall k :: k in a && k in b && k !in left ==> !Raises(a[k], b[k]))
  }

  lemma OneMoreMerged(a: map<string, Toml>, b: map<string, Toml>, left: set<string>, result: map<string, Toml>,
                      key: string)
    requires MergedSoFar(a, b, left, result) && key in left && (key in a ==> !Raises(a[key], b[key]))
    ensures MergedSoFar(a, b, left - {key}, result[key := if key in a then Merged(a[key], b[key]) else b[key]])
  {
    hide Merged, Raises;
  }

  lemma AllMerged(a: map<string, Toml>, b: map<string, Toml>, result: map<string, Toml>)
    requires MergedSoFar(a, b, {}, result)
    ensures !Raises(Table(a), Table(b)) && Merged(Table(a), Table(b)) == Table(result)
  {
  }

  /** deep_merge; the keys of the override are taken in any order. */
  method DeepMerge(base: Toml, over: Toml) returns (r: Result<Toml, PythonError>)
    ensures r == if Raises(base, over) then Err(TypeError) else Ok(Merged(base, over))
    ensures base.Table? && over.Table? && r.Ok? ==>
              var a, b := base.entries, over.entries;
              && r.value.Table?
              && (forall k :: k in r.value.entries <==> k in a || k in b)
              && (forall k :: k in a && k !in b ==> r.value.entries[k] == a[k])
              && (forall k :: k in b && k !in a ==> r.value.entries[k] == b[k])
              && (forall k :: k in a && k in b ==> r.value.entries[k] == Merged(a[k], b[k]) && !Raises(a[k], b[k]))
    ensures base.Table? && over.Table? ==>
              (r.Err? <==> exists k :: k in base.entries && k in over.entries
                                       && Raises(base.entries[k], over.entries[k]))
    ensures base.Array? && over.Array? && r.Ok? ==> r.value == Array(MergedArrays(base.items, over.items))
    ensures base.Array? && over.Array? ==> (r.Err? <==> ArraysRaise(base.items, over.items))
    ensures !(base.Table? && over.Table?) && !(base.Array? && over.Array?) ==> r == Ok(over)
    decreases over
  {
    if base.Table? && over.Table? {
      var result := base.entries;
      var left := over.entries.Keys;
      while left != {}
        invariant MergedSoFar(base.entries, over.entries, left, result)
        decreases |left|
      {
        var key :| key in left;
        if key in result {
          var value := DeepMerge(result[key], over.entries[key]);
          if value.Err? {
            return value;
          }
          OneMoreMerged(base.entries, over.entries, left, result, key);
          result := result[key := value.value];
        } else {
          OneMoreMerged(base.entries, over.entries, left, result, key);
          result := result[key := over.entries[key]];
        }
        left := left - {key};
      }
      AllMerged(base.entries, over.entries, result);
      return Ok(Table(result));
    }
    if base.Array? && over.Array? {
      var merged := MergeArrays(base.items, over.items);
      if merged.Err? {
        return Err(TypeError);
      }
      return Ok(Array(merged.value));
    }
    return Ok(over);
  }
}
