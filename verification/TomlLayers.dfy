/** Any grouping of agreeing layers gives one configuration. */
module TomlLayers {
  import opened Outcomes
  import opened TomlMerge
  import opened TomlArrays

  /** Every item is a table with a scalar under this field, and no item of an array keyed by `id` has a `code`. */
  ghost predicate KeyedBy(items: seq<Toml>, field: string) {
    forall item :: item in items ==> KeyAt(item, field).Some? && (field == ID ==> !Has(item, CODE))
  }

  /** An array that is not merged by key. */
  ghost predicate Plain(items: seq<Toml>) {
    items == [] || DetectField(items).None?
  }

  ghost predicate Uniform(a: seq<Toml>, b: seq<Toml>) {
    || (KeyedBy(a, CODE) && KeyedBy(b, CODE))
    || (KeyedBy(a, ID) && KeyedBy(b, ID))
    || (Plain(a) && Plain(b))
  }

  /** Two layers hold the same kind of value at every path they share, and their arrays are keyed alike. */
  ghost predicate Agree(a: Toml, b: Toml)
    decreases a
  {
    match (a, b)
    case (Table(x), Table(y)) => forall k :: k in x && k in y ==> Agree(x[k], y[k])
    case (Array(x), Array(y)) => Uniform(x, y)
    case _ => !a.Table? && !b.Table? && !a.Array? && !b.Array?
  }

  lemma {:induction false} AgreeSymmetric(a: Toml, b: Toml)
    requires Agree(a, b)
    ensures Agree(b, a)
    decreases a
  {
    if a.Table? {
      forall k | k in b.entries && k in a.entries ensures Agree(b.entries[k], a.entries[k]) {
        AgreeSymmetric(a.entries[k], b.entries[k]);
      }
    }
  }

  // ---- arrays ----

  lemma KeyedMerge(a: seq<Toml>, b: seq<Toml>, field: string)
    requires (field == CODE || field == ID) && KeyedBy(a, field) && KeyedBy(b, field)
    ensures MergedArrays(a, b) == UpsertAll(a, field, b) && !ArraysRaise(a, b)
  {
    var both := a + b;
    if both != [] {
      assert forall item :: item in both ==> item in a || item in b;
      assert both[0] in both;
      assert forall item :: item in both ==> Has(item, field);
      assert DetectField(both) == Some(field);
    }
  }

  lemma {:induction false} MergeKeyed(a: seq<Toml>, b: seq<Toml>, field: string)
    requires KeyedBy(a, field) && KeyedBy(b, field)
    ensures KeyedBy(UpsertAll(a, field, b), field)
  {
    if b != [] {
      var sooner := b[..|b| - 1];
      MergeKeyed(a, sooner, field);
      hide KeyAt, LastIndex;
      assert b[|b| - 1] in b;
    }
  }

  lemma PlainMerge(a: seq<Toml>, b: seq<Toml>)
    requires Plain(a) && Plain(b)
    ensures MergedArrays(a, b) == a + b && !ArraysRaise(a, b) && Plain(a + b)
  {
    var both := a + b;
    assert forall item :: item in a || item in b ==> item in both;
    if a == [] {
      assert both == b;
    }
  }

  /** An array without items can be taken for any class; one with items belongs to one. */
  lemma OneClass(a: seq<Toml>, b: seq<Toml>, c: seq<Toml>)
    requires Uniform(a, b) && Uniform(b, c) && Uniform(a, c)
    ensures || (KeyedBy(a, CODE) && KeyedBy(b, CODE) && KeyedBy(c, CODE))
            || (KeyedBy(a, ID) && KeyedBy(b, ID) && KeyedBy(c, ID))
            || (Plain(a) && Plain(b) && Plain(c))
  {
    ClassIsUnique(a);
    ClassIsUnique(b);
    ClassIsUnique(c);
    hide KeyedBy, Plain;
  }

  lemma ClassIsUnique(a: seq<Toml>)
    ensures a == [] ==> KeyedBy(a, CODE) && KeyedBy(a, ID) && Plain(a)
    ensures a != [] ==>
              !(KeyedBy(a, CODE) && KeyedBy(a, ID)) && !(KeyedBy(a, CODE) && Plain(a)) && !(KeyedBy(a, ID) && Plain(a))
  {
    if a != [] {
      assert a[0] in a;
    }
  }

  lemma KeyedAssociative(a: seq<Toml>, b: seq<Toml>, c: seq<Toml>, field: string)
    requires (field == CODE || field == ID) && KeyedBy(a, field) && KeyedBy(b, field) && KeyedBy(c, field)
    ensures MergedArrays(MergedArrays(a, b), c) == MergedArrays(a, MergedArrays(b, c))
    ensures KeyedBy(MergedArrays(a, b), field)
  {
    hide KeyedBy, MergedArrays, ArraysRaise, UpsertAll;
    MergeKeyed(a, b, field);
    MergeKeyed(b, c, field);
    KeyedMerge(a, b, field);
    KeyedMerge(b, c, field);
    KeyedMerge(UpsertAll(a, field, b), c, field);
    KeyedMerge(a, UpsertAll(b, field, c), field);
    UpsertAllAssociative(a, field, b, c);
  }

  lemma ArraysAssociative(a: seq<Toml>, b: seq<Toml>, c: seq<Toml>)
    requires Uniform(a, b) && Uniform(b, c) && Uniform(a, c)
    ensures MergedArrays(MergedArrays(a, b), c) == MergedArrays(a, MergedArrays(b, c))
    ensures Uniform(MergedArrays(a, b), c)
  {
    OneClass(a, b, c);
    hide KeyedBy, Plain, MergedArrays, ArraysRaise;
    if Plain(a) && Plain(b) && Plain(c) {
      PlainMerge(a, b);
      PlainMerge(b, c);
      PlainMerge(a + b, c);
      PlainMerge(a, b + c);
      assert a + b + c == a + (b + c);
    } else if KeyedBy(a, CODE) && KeyedBy(b, CODE) && KeyedBy(c, CODE) {
      KeyedAssociative(a, b, c, CODE);
    } else {
      KeyedAssociative(a, b, c, ID);
    }
  }

  // ---- layers ----

  lemma {:induction false} AgreeingNeverRaise(a: Toml, b: Toml)
    requires Agree(a, b)
    ensures !Raises(a, b)
    decreases b
  {
    hide Uniform, ArraysRaise;
    if a.Table? {
      forall k | k in a.entries && k in b.entries ensures !Raises(a.entries[k], b.entries[k]) {
        AgreeingNeverRaise(a.entries[k], b.entries[k]);
      }
    } else if a.Array? {
      assert !ArraysRaise(a.items, b.items) by { UniformNeverRaise(a.items, b.items); }
    }
  }

  lemma UniformNeverRaise(a: seq<Toml>, b: seq<Toml>)
    requires Uniform(a, b)
    ensures !ArraysRaise(a, b)
  {
    hide KeyedBy, Plain, ArraysRaise;
    if Plain(a) && Plain(b) {
      PlainMerge(a, b);
    } else {
      KeyedMerge(a, b, if KeyedBy(a, CODE) && KeyedBy(b, CODE) then CODE else ID);
    }
  }

  /** A layer that agrees with two agreeing layers agrees with their merge. */
  lemma {:induction false} MergedAgrees(a: Toml, b: Toml, c: Toml)
    requires Agree(a, b) && Agree(b, c) && Agree(a, c)
    ensures Agree(Merged(a, b), c) && Agree(c, Merged(a, b))
    decreases b
  {
    hide Uniform, MergedArrays;
    if a.Table? {
      var m := Merged(a, b);
      forall k | k in m.entries && k in c.entries ensures Agree(m.entries[k], c.entries[k]) {
        if k in a.entries && k in b.entries {
          MergedAgrees(a.entries[k], b.entries[k], c.entries[k]);
        }
      }
    } else if a.Array? {
      ArraysAssociative(a.items, b.items, c.items);
    }
    AgreeSymmetric(Merged(a, b), c);
  }

  /** Merging is associative on layers that agree. */
  lemma {:induction false} Associative(a: Toml, b: Toml, c: Toml)
    requires Agree(a, b) && Agree(b, c) && Agree(a, c)
    ensures Merged(Merged(a, b), c) == Merged(a, Merged(b, c))
    ensures !Raises(a, b) && !Raises(b, c) && !Raises(Merged(a, b), c) && !Raises(a, Merged(b, c))
  {
    AgreeSymmetric(a, b);
    AgreeSymmetric(a, c);
    MergedAgrees(a, b, c);
    MergedAgrees(b, c, a);
    AgreeingNeverRaise(a, b);
    AgreeingNeverRaise(b, c);
    AgreeingNeverRaise(Merged(a, b), c);
    AgreeingNeverRaise(a, Merged(b, c));
    SameMerge(a, b, c);
  }

  lemma {:induction false} SameMerge(a: Toml, b: Toml, c: Toml)
    requires Agree(a, b) && Agree(b, c) && Agree(a, c)
    ensures Merged(Merged(a, b), c) == Merged(a, Merged(b, c))
    decreases b
  {
    hide Uniform, MergedArrays;
    if a.Table? {
      var left, right := Merged(Merged(a, b), c), Merged(a, Merged(b, c));
      forall k | k in left.entries ensures left.entries[k] == right.entries[k] {
        if k in a.entries && k in b.entries && k in c.entries {
          SameMerge(a.entries[k], b.entries[k], c.entries[k]);
        }
      }
      assert left.entries.Keys == right.entries.Keys;
      assert left.entries == right.entries;
    } else if a.Array? {
      ArraysAssociative(a.items, b.items, c.items);
    }
  }

  ghost predicate AllAgree(layers: seq<Toml>) {
    forall i, j :: 0 <= i < j < |layers| ==> Agree(layers[i], layers[j])
  }

  /** The four layers give the same configuration in every grouping, and no grouping raises. */
  lemma AnyGrouping(a: Toml, b: Toml, c: Toml, d: Toml)
    requires AllAgree([a, b, c, d])
    ensures var merged := Merged(Merged(Merged(a, b), c), d);
            && merged == Merged(Merged(a, b), Merged(c, d))
            && merged == Merged(Merged(a, Merged(b, c)), d)
            && merged == Merged(a, Merged(Merged(b, c), d))
            && merged == Merged(a, Merged(b, Merged(c, d)))
    ensures !Raises(a, b) && !Raises(Merged(a, b), c) && !Raises(Merged(Merged(a, b), c), d)
    ensures !Raises(c, d) && !Raises(Merged(a, b), Merged(c, d))
    ensures !Raises(b, c) && !Raises(a, Merged(b, c)) && !Raises(Merged(a, Merged(b, c)), d)
    ensures !Raises(Merged(b, c), d) && !Raises(a, Merged(Merged(b, c), d))
    ensures !Raises(b, Merged(c, d)) && !Raises(a, Merged(b, Merged(c, d)))
  {
    hide Agree, Merged, Raises;
    var layers := [a, b, c, d];
    assert Agree(layers[0], layers[1]) && Agree(layers[0], layers[2]) && Agree(layers[0], layers[3]);
    assert Agree(layers[1], layers[2]) && Agree(layers[1], layers[3]) && Agree(layers[2], layers[3]);
    MergedAgrees(a, b, c);
    MergedAgrees(a, b, d);
    AgreeSymmetric(a, c);
    AgreeSymmetric(a, d);
    AgreeSymmetric(b, c);
    AgreeSymmetric(b, d);
    MergedAgrees(c, d, a);
    MergedAgrees(c, d, b);
    Associative(a, b, c);
    Associative(b, c, d);
    Associative(Merged(a, b), c, d);
    Associative(a, b, Merged(c, d));
  }

  /** Where the kinds differ the grouping matters: a scalar between two tables hides the first one or nothing at all. */
  lemma KindsMustAgree(k: string, v: Toml, scalar: Toml)
    requires !scalar.Table? && !scalar.Array?
    ensures var a, c := Table(map[k := v]), Table(map[]);
            Merged(Merged(a, scalar), c) == c && Merged(a, Merged(scalar, c)) == a != c
  {
    assert Merged(Table(map[k := v]), Table(map[])).entries == map[k := v];
    assert k in map[k := v];
  }

  /** One array keyed by `id` after two keyed by `code` is enough: a `code` clash drops an item in one grouping only. */
  lemma FieldsMustAgree(code: Toml, one: Toml, two: Toml)
    requires DictKey(code).Some? && DictKey(one).Some? && DictKey(two).Some? && DictKey(one) != DictKey(two)
    ensures var a, b, c := [Table(map[CODE := code, ID := one])], [Table(map[CODE := code, ID := two])],
            [Table(map[ID := one])];
            && MergedArrays(MergedArrays(a, b), c) == b + c
            && MergedArrays(a, MergedArrays(b, c)) == c + b
            && b + c != c + b
  {
    var x, y, z := Table(map[CODE := code, ID := one]), Table(map[CODE := code, ID := two]), Table(map[ID := one]);
    hide DictKey, UpsertAll;
    assert CODE != ID;
    assert [x] + [y] == [x, y] && [y] + [z] == [y, z] && [x] + [y, z] == [x, y, z];
    assert z in [y, z] && z in [x, y, z] && !Has(z, CODE);
    assert DetectField([x, y]) == Some(CODE) && DetectField([y, z]) == Some(ID) && DetectField([x, y, z]) == Some(ID);
    OneUpsert([x], CODE, y, 0);
    OneUpsert([y], ID, z, -1);
    OneUpsert([x], ID, y, -1);
    OneUpsert([x, y], ID, z, 0);
    assert UpsertAll([x], ID, [y, z]) == [z, y] by { Two(x, y, z); }
    assert [x][0 := y] == [y] && [x, y][0 := z] == [z, y] && [y, z][0] != [z, y][0];
  }

  lemma Two(x: Toml, y: Toml, z: Toml)
    requires UpsertAll([x], ID, [y]) == [x, y]
    ensures UpsertAll([x], ID, [y, z]) == Upsert([x, y], ID, z)
  {
    assert [y, z][..1] == [y];
  }

  lemma OneUpsert(list: seq<Toml>, field: string, item: Toml, at: int)
    requires KeyAt(item, field).Some? && -1 <= at < |list| && (at >= 0 ==> KeyAt(list[at], field) == KeyAt(item, field))
    requires forall j :: at < j < |list| ==> KeyAt(list[j], field) != KeyAt(item, field)
    ensures Upsert(list, field, item) == (if at >= 0 then list[at := item] else list + [item])
    ensures UpsertAll(list, field, [item]) == Upsert(list, field, item)
  {
    LastIndexUnique(list, field, KeyAt(item, field).value, at);
    assert [item][..0] == [];
  }
}
