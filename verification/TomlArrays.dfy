/** What the merge of keyed arrays means, and that it is associative. */
module TomlArrays {
  import opened Outcomes
  import opened TomlMerge

  predicate AllKeyed(items: seq<Toml>, field: string) {
    forall i :: 0 <= i < |items| ==> KeyAt(items[i], field).Some?
  }

  /** The keys of the override that the base lacks, each once, in the order of their first appearance. */
  function NewKeys(base: seq<Toml>, field: string, over: seq<Toml>): seq<Key>
    requires AllKeyed(over, field)
  {
    if over == [] then []
    else
      var sooner := NewKeys(base, field, over[..|over| - 1]);
      var k := KeyAt(over[|over| - 1], field).value;
      if LastIndex(base, field, k) >= 0 || k in sooner then sooner else sooner + [k]
  }

  /** Where the first item with this key stands. */
  ghost predicate FirstAt(items: seq<Toml>, field: string, k: Key, i: int) {
    && 0 <= i < |items| && KeyAt(items[i], field) == Some(k)
    && forall j :: 0 <= j < i ==> KeyAt(items[j], field) != Some(k)
  }

  /** NewKeys holds the override's keys that the base lacks. */
  lemma {:induction false} NewKeysAre(base: seq<Toml>, field: string, over: seq<Toml>)
    requires AllKeyed(over, field)
    ensures forall k :: k in NewKeys(base, field, over) <==>
              LastIndex(over, field, k) >= 0 && LastIndex(base, field, k) < 0
  {
    if over != [] {
      NewKeysAre(base, field, over[..|over| - 1]);
    }
  }

  /** They stand in the order in which they first appear. */
  lemma {:induction false} NewKeysInOrder(base: seq<Toml>, field: string, over: seq<Toml>, i: int, j: int, p: int,
                                          q: int)
    requires AllKeyed(over, field) && 0 <= i < j < |NewKeys(base, field, over)|
    requires FirstAt(over, field, NewKeys(base, field, over)[i], p)
             && FirstAt(over, field, NewKeys(base, field, over)[j], q)
    ensures p < q
  {
    var sooner, last := over[..|over| - 1], |over| - 1;
    var keys, earlier := NewKeys(base, field, over), NewKeys(base, field, sooner);
    NewKeysAre(base, field, sooner);
    assert keys[i] in earlier;
    hide KeyAt;
    assert KeyAt(over[LastIndex(sooner, field, keys[i])], field) == Some(keys[i]);
    if q < last {
      assert KeyAt(sooner[q], field) == Some(keys[j]);
      assert LastIndex(sooner, field, keys[j]) >= q;
      assert LastIndex(base, field, keys[j]) < 0;
      assert j < |earlier|;
      NewKeysInOrder(base, field, sooner, i, j, p, q);
    }
  }

  /** The item of `over` that comes last under the base item's key, if the base item is the last with this key. */
  function At(base: seq<Toml>, field: string, over: seq<Toml>, i: nat): Toml
    requires i < |base| && KeyAt(base[i], field).Some?
  {
    var k := KeyAt(base[i], field).value;
    var last := LastIndex(over, field, k);
    if LastIndex(base, field, k) == i && last >= 0 then over[last] else base[i]
  }

  ghost predicate MergedByKey(base: seq<Toml>, field: string, over: seq<Toml>, r: seq<Toml>)
    requires AllKeyed(base, field) && AllKeyed(over, field)
  {
    var added := NewKeys(base, field, over);
    && |r| == |base| + |added|
    && (forall i :: 0 <= i < |base| ==> r[i] == At(base, field, over, i))
    && (forall j :: 0 <= j < |added| ==>
                      LastIndex(over, field, added[j]) >= 0 && r[|base| + j] == over[LastIndex(over, field, added[j])])
  }

  /** The keys stand where the base had them, and the new ones after that. */
  lemma KeysOfMerged(base: seq<Toml>, field: string, over: seq<Toml>, r: seq<Toml>)
    requires AllKeyed(base, field) && AllKeyed(over, field) && MergedByKey(base, field, over, r)
    ensures forall i :: 0 <= i < |base| ==> KeyAt(r[i], field) == KeyAt(base[i], field)
    ensures forall j :: 0 <= j < |NewKeys(base, field, over)| ==>
                          KeyAt(r[|base| + j], field) == Some(NewKeys(base, field, over)[j])
  {
    hide NewKeys, LastIndex;
  }

  lemma {:induction false} NewKeysDistinct(base: seq<Toml>, field: string, over: seq<Toml>)
    requires AllKeyed(over, field)
    ensures forall j :: 0 <= j < |NewKeys(base, field, over)| ==>
              LastIndex(base, field, NewKeys(base, field, over)[j]) < 0
    ensures forall i, j :: 0 <= i < j < |NewKeys(base, field, over)| ==>
                             NewKeys(base, field, over)[i] != NewKeys(base, field, over)[j]
  {
    if over != [] {
      NewKeysDistinct(base, field, over[..|over| - 1]);
    }
  }

  /** Where an upsert of key k lands in the merged list. */
  lemma Landing(base: seq<Toml>, field: string, over: seq<Toml>, r: seq<Toml>, k: Key, j: int)
    requires AllKeyed(base, field) && AllKeyed(over, field) && MergedByKey(base, field, over, r)
    requires if LastIndex(base, field, k) >= 0 || k !in NewKeys(base, field, over) then j == LastIndex(base, field, k)
             else |base| <= j < |r| && NewKeys(base, field, over)[j - |base|] == k
    ensures LastIndex(r, field, k) == j
  {
    KeysOfMerged(base, field, over, r);
    NewKeysDistinct(base, field, over);
    hide NewKeys, MergedByKey;
    var added := NewKeys(base, field, over);
    forall i | j < i < |r| ensures KeyAt(r[i], field) != Some(k) {
      if i >= |base| {
        assert KeyAt(r[|base| + (i - |base|)], field) == Some(added[i - |base|]);
      }
    }
    if j >= |base| {
      assert KeyAt(r[|base| + (j - |base|)], field) == Some(added[j - |base|]);
    }
    LastIndexUnique(r, field, k, j);
  }

  lemma LastOfMore(over: seq<Toml>, field: string, item: Toml)
    requires KeyAt(item, field).Some?
    ensures forall k :: LastIndex(over + [item], field, k)
                        == if Some(k) == KeyAt(item, field) then |over| else LastIndex(over, field, k)
  {
    forall k ensures LastIndex(over + [item], field, k)
                     == if Some(k) == KeyAt(item, field) then |over| else LastIndex(over, field, k)
    {
      LastIndexUnique(over + [item], field, k,
                      if Some(k) == KeyAt(item, field) then |over| else LastIndex(over, field, k));
    }
  }

  lemma NewKeysOfMore(base: seq<Toml>, field: string, over: seq<Toml>, item: Toml)
    requires AllKeyed(over, field) && KeyAt(item, field).Some?
    ensures var k, added := KeyAt(item, field).value, NewKeys(base, field, over);
            NewKeys(base, field, over + [item])
              == if LastIndex(base, field, k) >= 0 || k in added then added else added + [k]
  {
    assert (over + [item])[..|over|] == over;
  }

  /** Where the next override item goes. */
  lemma NextLanding(base: seq<Toml>, field: string, over: seq<Toml>, r: seq<Toml>, k: Key) returns (j: int)
    requires AllKeyed(base, field) && AllKeyed(over, field) && MergedByKey(base, field, over, r)
    ensures LastIndex(r, field, k) == j
    ensures var added := NewKeys(base, field, over);
            if LastIndex(base, field, k) >= 0 || k !in added then j == LastIndex(base, field, k)
            else |base| <= j < |r| && |r| == |base| + |added| && added[j - |base|] == k
  {
    var added := NewKeys(base, field, over);
    j := LastIndex(base, field, k);
    if j < 0 && k in added {
      var i :| 0 <= i < |added| && added[i] == k;
      j := |base| + i;
    }
    Landing(base, field, over, r, k, j);
  }

  lemma OldPlace(base: seq<Toml>, field: string, over: seq<Toml>, r: seq<Toml>, item: Toml, j: int, i: nat)
    requires KeyAt(item, field).Some? && i < |base| <= |r| && -1 <= j < |r|
    requires KeyAt(base[i], field).Some? && r[i] == At(base, field, over, i)
    requires var k := KeyAt(item, field).value;
             if LastIndex(base, field, k) >= 0 then j == LastIndex(base, field, k) else j < 0 || |base| <= j
    ensures (if j >= 0 then r[j := item] else r + [item])[i] == At(base, field, over + [item], i)
  {
    hide LastIndex, KeyAt;
    LastOfMore(over, field, item);
  }

  lemma NewPlace(base: seq<Toml>, field: string, over: seq<Toml>, r: seq<Toml>, item: Toml, added: seq<Key>, j: int,
                 n: nat)
    requires KeyAt(item, field).Some? && |r| == |base| + |added| && n < |added| && -1 <= j < |r|
    requires LastIndex(over, field, added[n]) >= 0 && r[|base| + n] == over[LastIndex(over, field, added[n])]
    requires j == |base| + n <==> added[n] == KeyAt(item, field).value
    ensures var more := over + [item];
            && LastIndex(more, field, added[n]) >= 0
            && (if j >= 0 then r[j := item] else r + [item])[|base| + n] == more[LastIndex(more, field, added[n])]
  {
    hide LastIndex, KeyAt;
    LastOfMore(over, field, item);
  }

  lemma OneMoreItem(base: seq<Toml>, field: string, over: seq<Toml>, r: seq<Toml>, item: Toml)
    requires AllKeyed(base, field) && AllKeyed(over, field) && KeyAt(item, field).Some?
    requires MergedByKey(base, field, over, r)
    ensures MergedByKey(base, field, over + [item], Upsert(r, field, item))
  {
    hide NewKeys, LastIndex, KeyAt, Upsert, At;
    var k, added := KeyAt(item, field).value, NewKeys(base, field, over);
    var more, r' := over + [item], Upsert(r, field, item);
    NewKeysOfMore(base, field, over, item);
    NewKeysDistinct(base, field, over);
    var j := NextLanding(base, field, over, r, k);
    UpsertAt(r, field, item);
    forall i | 0 <= i < |base| ensures r'[i] == At(base, field, more, i) {
      OldPlace(base, field, over, r, item, j, i);
    }
    forall n | 0 <= n < |added|
      ensures LastIndex(more, field, added[n]) >= 0 && r'[|base| + n] == more[LastIndex(more, field, added[n])]
    {
      NewPlace(base, field, over, r, item, added, j, n);
    }
    LastOfMore(over, field, item);
  }

  lemma UpsertAt(list: seq<Toml>, field: string, item: Toml)
    requires KeyAt(item, field).Some?
    ensures var j := LastIndex(list, field, KeyAt(item, field).value);
            Upsert(list, field, item) == if j >= 0 then list[j := item] else list + [item]
  {
  }

  /**
   Merging keyed arrays: every base item keeps its place and gives way, if it is the last with its key, to the last
   override item with that key; behind them stands the last override item of each new key, in the order in which the
   new keys first appear.
   */
  lemma {:induction false} MergeByKeyMeaning(base: seq<Toml>, field: string, over: seq<Toml>)
    requires AllKeyed(base, field) && AllKeyed(over, field)
    ensures MergedByKey(base, field, over, UpsertAll(base, field, over))
  {
    if over != [] {
      var sooner := over[..|over| - 1];
      MergeByKeyMeaning(base, field, sooner);
      OneMoreItem(base, field, sooner, UpsertAll(base, field, sooner), over[|over| - 1]);
      assert over == sooner + [over[|over| - 1]];
    }
  }

  ghost predicate IsLast(items: seq<Toml>, field: string, i: int) {
    0 <= i < |items| && forall j :: i < j < |items| ==> KeyAt(items[j], field) != KeyAt(items[i], field)
  }

  /** The same item by item: what is overridden, what is kept and what is appended. */
  lemma MergedItems(base: seq<Toml>, field: string, over: seq<Toml>)
    requires AllKeyed(base, field) && AllKeyed(over, field)
    ensures var r := UpsertAll(base, field, over);
            && |r| >= |base|
            && (forall i, j | IsLast(base, field, i) && IsLast(over, field, j) ::
                  KeyAt(base[i], field) == KeyAt(over[j], field) ==> r[i] == over[j])
            && (forall i :: 0 <= i < |base| && !IsLast(base, field, i) ==> r[i] == base[i])
            && (forall i | 0 <= i < |base| ::
                  (forall j :: 0 <= j < |over| ==> KeyAt(over[j], field) != KeyAt(base[i], field)) ==> r[i] == base[i])
            && (forall m :: |base| <= m < |r| ==> IsAppended(base, field, over, r[m]))
            && (forall j | IsLast(over, field, j) ::
                  (forall i :: 0 <= i < |base| ==> KeyAt(base[i], field) != KeyAt(over[j], field)) ==>
                    over[j] in r[|base|..])
  {
    var r, added := UpsertAll(base, field, over), NewKeys(base, field, over);
    MergeByKeyMeaning(base, field, over);
    NewKeysAre(base, field, over);
    hide NewKeys, UpsertAll, LastIndex, KeyAt;
    forall m | |base| <= m < |r| ensures IsAppended(base, field, over, r[m]) {
      var k := added[m - |base|];
      assert r[|base| + (m - |base|)] == over[LastIndex(over, field, k)];
      assert k in added;
    }
    forall j | IsLast(over, field, j)
               && (forall i :: 0 <= i < |base| ==> KeyAt(base[i], field) != KeyAt(over[j], field))
      ensures over[j] in r[|base|..]
    {
      var k := KeyAt(over[j], field).value;
      assert LastIndex(over, field, k) == j && LastIndex(base, field, k) < 0;
      var n :| 0 <= n < |added| && added[n] == k;
      assert r[|base|..][n] == r[|base| + n];
    }
  }

  /** The last item of its key in the override, which the base lacks. */
  ghost predicate IsAppended(base: seq<Toml>, field: string, over: seq<Toml>, item: Toml) {
    && (exists j :: IsLast(over, field, j) && over[j] == item)
    && forall i :: 0 <= i < |base| ==> KeyAt(base[i], field) != KeyAt(item, field)
  }

  ghost predicate UniqueKeys(items: seq<Toml>, field: string) {
    forall i, j :: 0 <= i < j < |items| ==> KeyAt(items[i], field) != KeyAt(items[j], field)
  }

  /** The merged keys are unique exactly if the base's are, whatever the override repeats. */
  lemma KeysStayUnique(base: seq<Toml>, field: string, over: seq<Toml>)
    requires AllKeyed(base, field) && AllKeyed(over, field)
    ensures UniqueKeys(UpsertAll(base, field, over), field) <==> UniqueKeys(base, field)
  {
    var r, added := UpsertAll(base, field, over), NewKeys(base, field, over);
    MergeByKeyMeaning(base, field, over);
    KeysOfMerged(base, field, over, r);
    NewKeysDistinct(base, field, over);
    assert |r| == |base| + |added|;
    hide NewKeys, UpsertAll, LastIndex, MergedByKey;
    if UniqueKeys(base, field) {
      forall i, j | 0 <= i < j < |r| ensures KeyAt(r[i], field) != KeyAt(r[j], field) {
        if j >= |base| {
          assert KeyAt(r[|base| + (j - |base|)], field) == Some(added[j - |base|]);
          if i >= |base| {
            assert KeyAt(r[|base| + (i - |base|)], field) == Some(added[i - |base|]);
          }
        }
      }
    } else {
      var i, j :| 0 <= i < j < |base| && KeyAt(base[i], field) == KeyAt(base[j], field);
      assert KeyAt(r[i], field) == KeyAt(r[j], field);
    }
  }

  // ---- associativity ----

  lemma KeyAppears(list: seq<Toml>, field: string, k: Key, i: nat)
    requires i < |list| && KeyAt(list[i], field) == Some(k)
    ensures LastIndex(list, field, k) >= i
  {
  }

  lemma UpsertTwice(list: seq<Toml>, field: string, x: Toml, y: Toml)
    requires KeyAt(x, field).Some? && KeyAt(x, field) == KeyAt(y, field)
    ensures Upsert(Upsert(list, field, x), field, y) == Upsert(list, field, y)
  {
    var k := KeyAt(x, field).value;
    var at := LastIndex(list, field, k);
    LastIndexUnique(Upsert(list, field, x), field, k, if at >= 0 then at else |list|);
  }

  /** An upsert under another key leaves the last place of k alone. */
  lemma PlaceKept(list: seq<Toml>, field: string, item: Toml, k: Key)
    requires KeyAt(item, field) != Some(k) && LastIndex(list, field, k) >= 0
    ensures LastIndex(Upsert(list, field, item), field, k) == LastIndex(list, field, k)
  {
    hide KeyAt;
    LastIndexUnique(Upsert(list, field, item), field, k, LastIndex(list, field, k));
  }

  lemma OtherPlaceKept(list: seq<Toml>, field: string, at: nat, y: Toml, l: Key)
    requires at < |list| && KeyAt(list[at], field) == KeyAt(y, field) != Some(l)
    ensures LastIndex(list[at := y], field, l) == LastIndex(list, field, l)
  {
    hide KeyAt;
    LastIndexUnique(list[at := y], field, l, LastIndex(list, field, l));
  }

  lemma UpsertsCommute(list: seq<Toml>, field: string, y: Toml, z: Toml)
    requires KeyAt(y, field).Some? && KeyAt(z, field) != KeyAt(y, field)
    requires LastIndex(list, field, KeyAt(y, field).value) >= 0
    ensures Upsert(Upsert(list, field, y), field, z) == Upsert(Upsert(list, field, z), field, y)
  {
    hide LastIndex, KeyAt;
    var k := KeyAt(y, field).value;
    var at := LastIndex(list, field, k);
    PlaceKept(list, field, z, k);
    if KeyAt(z, field).None? {
      assert list[at := y] + [z] == (list + [z])[at := y];
    } else {
      var l := KeyAt(z, field).value;
      var p := LastIndex(list, field, l);
      OtherPlaceKept(list, field, at, y, l);
      assert if p >= 0 then list[at := y][p := z] == list[p := z][at := y]
             else list[at := y] + [z] == (list + [z])[at := y];
    }
  }

  lemma {:induction false} UpsertAllContains(list: seq<Toml>, field: string, over: seq<Toml>, k: Key)
    requires LastIndex(over, field, k) >= 0 || LastIndex(list, field, k) >= 0
    ensures LastIndex(UpsertAll(list, field, over), field, k) >= 0
  {
    if over != [] {
      var item, sooner := over[|over| - 1], over[..|over| - 1];
      var before := UpsertAll(list, field, sooner);
      var after := Upsert(before, field, item);
      if KeyAt(item, field) == Some(k) {
        var at := LastIndex(before, field, k);
        KeyAppears(after, field, k, if at >= 0 then at else |before|);
      } else {
        UpsertAllContains(list, field, sooner, k);
        var at := LastIndex(before, field, k);
        KeyAppears(after, field, k, at);
      }
    }
  }

  lemma {:induction false} UpsertIntoOverride(a: seq<Toml>, field: string, over: seq<Toml>, y: Toml)
    ensures UpsertAll(a, field, Upsert(over, field, y)) == Upsert(UpsertAll(a, field, over), field, y)
  {
    var key := KeyAt(y, field);
    var more := Upsert(over, field, y);
    if key.None? || LastIndex(over, field, key.value) < 0 {
      assert more[..|more| - 1] == over;
    } else {
      var n := |over| - 1;
      var sooner, z := over[..n], over[n];
      var before := UpsertAll(a, field, sooner);
      assert over == sooner + [z];
      if KeyAt(z, field) == key {
        assert more[..n] == sooner && more[n] == y;
        UpsertTwice(before, field, z, y);
      } else {
        assert more[..n] == Upsert(sooner, field, y) && more[n] == z;
        UpsertIntoOverride(a, field, sooner, y);
        UpsertAllContains(a, field, sooner, key.value);
        UpsertsCommute(before, field, y, z);
      }
    }
  }

  /** Merging by key is associative, whatever keys repeat. */
  lemma {:induction false} UpsertAllAssociative(a: seq<Toml>, field: string, b: seq<Toml>, c: seq<Toml>)
    ensures UpsertAll(UpsertAll(a, field, b), field, c) == UpsertAll(a, field, UpsertAll(b, field, c))
  {
    if c != [] {
      var sooner, y := c[..|c| - 1], c[|c| - 1];
      UpsertAllAssociative(a, field, b, sooner);
      UpsertIntoOverride(a, field, UpsertAll(b, field, sooner), y);
    }
  }
}
