/** Reading a dotted path out of a merged configuration, and the two scripts' main programs. */
module TomlLookup {
  import opened Outcomes
  import opened TomlMerge

  function Lookup(data: Toml, path: seq<string>): Option<Toml> {
    if path == [] then Some(data)
    else if Has(data, path[0]) then Lookup(data.entries[path[0]], path[1..])
    else None
  }

  /** From the whole configuration along the path, each step is an entry of the table before it. */
  ghost predicate LeadsTo(trail: seq<Toml>, path: seq<string>) {
    && |trail| == |path| + 1
    && forall i :: 0 <= i < |path| ==>
         trail[i].Table? && path[i] in trail[i].entries && trail[i].entries[path[i]] == trail[i + 1]
  }

  /** A path has a value exactly if there is a way through the tables to it. */
  lemma {:induction false} LookupFollows(data: Toml, path: seq<string>, v: Toml)
    ensures Lookup(data, path) == Some(v)
            <==> exists trail :: LeadsTo(trail, path) && trail[0] == data && trail[|path|] == v
    decreases path
  {
    if path == [] {
      assert LeadsTo([data], path);
    } else if Has(data, path[0]) {
      LookupFollows(data.entries[path[0]], path[1..], v);
      Prefixed(data, path, v);
    } else if trail: seq<Toml> :| LeadsTo(trail, path) && trail[0] == data && trail[|path|] == v {
      assert !trail[0].Table?;
    }
  }

  lemma Prefixed(data: Toml, path: seq<string>, v: Toml)
    requires path != [] && Has(data, path[0])
    ensures (exists trail :: LeadsTo(trail, path) && trail[0] == data && trail[|path|] == v)
            <==> exists trail ::
                   LeadsTo(trail, path[1..]) && trail[0] == data.entries[path[0]] && trail[|path| - 1] == v
  {
    if trail :| LeadsTo(trail, path[1..]) && trail[0] == data.entries[path[0]] && trail[|path| - 1] == v {
      var longer := [data] + trail;
      forall i | 0 <= i < |path|
        ensures longer[i].Table? && path[i] in longer[i].entries && longer[i].entries[path[i]] == longer[i + 1]
      {
        assert i > 0 ==> path[i] == path[1..][i - 1] && longer[i] == trail[i - 1];
      }
      assert LeadsTo(longer, path);
    }
    if trail :| LeadsTo(trail, path) && trail[0] == data && trail[|path|] == v {
      assert LeadsTo(trail[1..], path[1..]);
      assert trail[1..][0] == trail[1] && trail[1..][|path| - 1] == v;
    }
  }

  /** The layer holds something other than a table on the way to this path. */
  ghost predicate Blocks(layer: Toml, path: seq<string>) {
    exists n :: 0 <= n < |path| && NonTableAt(layer, path[..n])
  }

  ghost predicate NonTableAt(layer: Toml, path: seq<string>) {
    Lookup(layer, path).Some? && !Lookup(layer, path).value.Table?
  }

  lemma BlocksBelow(layer: Toml, path: seq<string>)
    requires path != [] && Has(layer, path[0])
    ensures Blocks(layer, path) <==> Blocks(layer.entries[path[0]], path[1..])
  {
    var below := layer.entries[path[0]];
    forall n | 0 < n <= |path| ensures Lookup(layer, path[..n]) == Lookup(below, path[1..][..n - 1]) {
      assert path[..n][1..] == path[1..][..n - 1];
    }
    if Blocks(layer, path) {
      var n :| 0 <= n < |path| && NonTableAt(layer, path[..n]);
      assert NonTableAt(below, path[1..][..n - 1]);
    }
    if Blocks(below, path[1..]) {
      var n :| 0 <= n < |path[1..]| && NonTableAt(below, path[1..][..n]);
      assert NonTableAt(layer, path[..n + 1]);
    }
  }

  lemma BlocksNowhere(layer: Toml, path: seq<string>)
    requires path != [] && layer.Table? && !Has(layer, path[0])
    ensures !Blocks(layer, path)
  {
    forall n | 0 <= n < |path| ensures !NonTableAt(layer, path[..n]) {
      if n > 0 {
        assert path[..n][0] == path[0];
      }
    }
  }

  /**
   What a path leads to in the merge: the override's value, merged onto the base's if both have one; the base's alone
   survives unless the override holds a non-table on the way.
   */
  lemma {:induction false} PathLookup(a: Toml, b: Toml, path: seq<string>)
    ensures Lookup(Merged(a, b), path)
            == match (Lookup(a, path), Lookup(b, path))
               case (Some(u), Some(v)) => Some(Merged(u, v))
               case (None, Some(v)) => Some(v)
               case (Some(u), None) => if Blocks(b, path) then None else Some(u)
               case (None, None) => None
    decreases path
  {
    if path != [] {
      var k := path[0];
      if Has(a, k) && Has(b, k) {
        BlocksBelow(b, path);
        PathLookup(a.entries[k], b.entries[k], path[1..]);
      } else if Has(a, k) {
        if b.Table? {
          BlocksNowhere(b, path);
        } else {
          assert path[..0] == [] && NonTableAt(b, path[..0]);
        }
      }
    }
  }

  ghost predicate ClashAt(a: Toml, b: Toml, path: seq<string>) {
    match (Lookup(a, path), Lookup(b, path))
    case (Some(Array(base)), Some(Array(over))) => ArraysRaise(base, over)
    case _ => false
  }

  /** A merge raises exactly if at some path both sides hold arrays that raise. */
  lemma {:induction false} RaisesExactly(a: Toml, b: Toml)
    ensures Raises(a, b) <==> exists path :: ClashAt(a, b, path)
    decreases b
  {
    if a.Table? && b.Table? {
      forall k | k in a.entries && k in b.entries
        ensures Raises(a.entries[k], b.entries[k]) <==> exists path :: ClashAt(a.entries[k], b.entries[k], path)
      {
        RaisesExactly(a.entries[k], b.entries[k]);
      }
      if k :| k in a.entries && k in b.entries && Raises(a.entries[k], b.entries[k]) {
        var path :| ClashAt(a.entries[k], b.entries[k], path);
        assert ([k] + path)[1..] == path;
        assert ClashAt(a, b, [k] + path);
      }
      if path :| ClashAt(a, b, path) {
        assert path != [] && Has(a, path[0]) && Has(b, path[0]);
        assert ClashAt(a.entries[path[0]], b.entries[path[0]], path[1..]);
      }
    } else {
      if Raises(a, b) {
        assert ClashAt(a, b, []);
      }
      if path :| ClashAt(a, b, path) {
        assert path == [];
      }
    }
  }

  // ---- extract_key ----

  /** str.split("."): never empty, and a string without dots is its own only part. */
  function Split(s: string): (parts: seq<string>)
    ensures parts != [] && forall part :: part in parts ==> '.' !in part
  {
    if s == [] then [[]]
    else
      var rest := Split(s[1..]);
      if s[0] == '.' then [[]] + rest else [[s[0]] + rest[0]] + rest[1..]
  }

  function Join(parts: seq<string>): string {
    if parts == [] then [] else if |parts| == 1 then parts[0] else parts[0] + "." + Join(parts[1..])
  }

  /** Every path of dotless keys can be asked for, and each question has one path. */
  lemma {:induction false} SplitJoin(parts: seq<string>)
    requires parts != [] && forall part :: part in parts ==> '.' !in part
    ensures Split(Join(parts)) == parts
    decreases |parts|, |parts[0]|
  {
    var s := Join(parts);
    if parts[0] != [] {
      var shorter := [parts[0][1..]] + parts[1..];
      assert s[1..] == Join(shorter);
      assert forall part :: part in parts[1..] ==> part in parts;
      assert parts[0] in parts && forall c :: c in parts[0][1..] ==> c in parts[0];
      assert forall part :: part in shorter ==> part == parts[0][1..] || part in parts[1..];
      SplitJoin(shorter);
      assert s[0] == parts[0][0] && s[0] in parts[0];
      assert parts[0] == [s[0]] + shorter[0] && shorter[1..] == parts[1..];
      assert parts == [parts[0]] + parts[1..];
    } else if |parts| > 1 {
      assert s[1..] == Join(parts[1..]);
      assert forall part :: part in parts[1..] ==> part in parts;
      SplitJoin(parts[1..]);
      assert parts == [[]] + parts[1..];
    } else {
      assert parts == [[]];
    }
  }

  method ExtractKey(data: Toml, dottedKey: string) returns (r: Option<Toml>)
    ensures r == Lookup(data, Split(dottedKey))
  {
    var parts := Split(dottedKey);
    var current := data;
    for i := 0 to |parts|
      invariant Lookup(current, parts[i..]) == Lookup(data, parts)
    {
      if !Has(current, parts[i]) {
        return None;
      }
      current := current.entries[parts[i]];
      assert parts[i..][1..] == parts[i + 1..];
    }
    return Some(current);
  }

  // ---- main ----

  /** The keys asked for that the configuration has; without any question, the whole of it. */
  function Answer(merged: Toml, keys: seq<string>): Toml {
    if keys == [] then merged
    else Table(map k | k in keys && Lookup(merged, Split(k)).Some? :: Lookup(merged, Split(k)).value)
  }

  method Output(merged: Toml, keys: seq<string>) returns (output: Toml)
    ensures output == Answer(merged, keys)
    ensures keys == [] ==> output == merged
    ensures keys != [] ==>
              && output.Table?
              && (forall k :: k in output.entries <==> k in keys && Lookup(merged, Split(k)).Some?)
              && forall k :: k in output.entries ==> Lookup(merged, Split(k)) == Some(output.entries[k])
  {
    if keys == [] {
      return merged;
    }
    var found: map<string, Toml> := map[];
    for i := 0 to |keys|
      invariant forall k :: if k in keys[..i] && Lookup(merged, Split(k)).Some?
                            then k in found && found[k] == Lookup(merged, Split(k)).value
                            else k !in found
    {
      var value := ExtractKey(merged, keys[i]);
      if value.Some? {
        found := found[keys[i] := value.value];
      }
    }
    assert found == Answer(merged, keys).entries;
    return Table(found);
  }

  /** A date or a time anywhere inside, which JSON cannot write. */
  predicate HasMoment(t: Toml) {
    match t
    case Moment(_) => true
    case Table(entries) => exists k :: k in entries && HasMoment(entries[k])
    case Array(items) => exists i :: 0 <= i < |items| && HasMoment(items[i])
    case _ => false
  }

  /** An entry of a table or an item of an array. */
  ghost predicate Inside(u: Toml, t: Toml) {
    match t
    case Table(entries) => exists k :: k in entries && entries[k] == u
    case Array(items) => exists i :: 0 <= i < |items| && items[i] == u
    case _ => false
  }

  ghost predicate Descends(trail: seq<Toml>) {
    trail != [] && forall i :: 0 < i < |trail| ==> Inside(trail[i], trail[i - 1])
  }

  /** A value holds a date or a time exactly if some way into it ends at one. */
  lemma {:induction false} HasMomentExactly(t: Toml)
    ensures HasMoment(t) <==> exists trail: seq<Toml> :: Descends(trail) && trail[0] == t && trail[|trail| - 1].Moment?
    decreases t
  {
    if HasMoment(t) {
      var trail := WayToMoment(t);
    }
    if trail: seq<Toml> :| Descends(trail) && trail[0] == t && trail[|trail| - 1].Moment? {
      MomentAtEnd(trail);
    }
  }

  lemma {:induction false} WayToMoment(t: Toml) returns (trail: seq<Toml>)
    requires HasMoment(t)
    ensures Descends(trail) && trail[0] == t && trail[|trail| - 1].Moment?
    decreases t
  {
    match t
    case Moment(_) => trail := [t];
    case Table(entries) =>
      var k :| k in entries && HasMoment(entries[k]);
      var rest := WayToMoment(entries[k]);
      trail := [t] + rest;
    case Array(items) =>
      var i :| 0 <= i < |items| && HasMoment(items[i]);
      var rest := WayToMoment(items[i]);
      trail := [t] + rest;
  }

  lemma {:induction false} MomentAtEnd(trail: seq<Toml>)
    requires Descends(trail) && trail[|trail| - 1].Moment?
    ensures HasMoment(trail[0])
    decreases |trail|
  {
    if |trail| > 1 {
      assert Inside(trail[1], trail[0]);
      assert forall i :: 0 < i < |trail[1..]| ==> trail[1..][i - 1] == trail[i];
      MomentAtEnd(trail[1..]);
    }
  }

  /** json.dumps of what was asked for. */
  function Dumped(output: Toml): Result<Toml, PythonError> {
    if HasMoment(output) then Err(TypeError) else Ok(output)
  }

  /** A left-to-right fold of the layers, lowest priority first. */
  function Layered(layers: seq<Toml>): Toml
    requires layers != []
  {
    if |layers| == 1 then layers[0] else Merged(Layered(layers[..|layers| - 1]), layers[|layers| - 1])
  }

  predicate LayeredRaises(layers: seq<Toml>)
    requires layers != []
  {
    |layers| > 1 && (LayeredRaises(layers[..|layers| - 1])
                     || Raises(Layered(layers[..|layers| - 1]), layers[|layers| - 1]))
  }

  /** The fold raises exactly if some layer clashes with what the layers below it have become. */
  lemma {:induction false} LayeredRaisesExactly(layers: seq<Toml>)
    requires layers != []
    ensures LayeredRaises(layers) <==> exists m :: ClashesBelow(layers, m)
    decreases |layers|
  {
    hide Layered, Raises;
    var n := |layers| - 1;
    if n > 0 {
      LayeredRaisesExactly(layers[..n]);
      forall m | 0 < m < n ensures ClashesBelow(layers[..n], m) <==> ClashesBelow(layers, m) {
        assert layers[..n][..m] == layers[..m];
      }
      assert ClashesBelow(layers, n) <==> Raises(Layered(layers[..n]), layers[n]);
      hide ClashesBelow;
    }
  }

  ghost predicate ClashesBelow(layers: seq<Toml>, m: int) {
    0 < m < |layers| && Raises(Layered(layers[..m]), layers[m])
  }

  /** What is found where a layer's file should be. */
  datatype LayerFile = Missing | Unreadable | Malformed | NotUtf8 | Parsed(entries: map<string, Toml>)

  /**
   load_toml: a layer that is missing, unreadable or malformed counts as empty, unless it is required, which ends the
   program; nobody catches the error of one that is not UTF-8.
   */
  function LoadToml(file: LayerFile, required: bool): Result<Toml, PythonError> {
    match file
    case Parsed(entries) => Ok(Table(entries))
    case NotUtf8 => Err(UnicodeDecodeError)
    case _ => if required then Err(SystemExit) else Ok(Table(map[]))
  }

  /** One file after the other, until one ends the program. */
  function LoadAll(files: seq<LayerFile>, firstRequired: bool): (r: Result<seq<Toml>, PythonError>)
    ensures r.Ok? ==> |r.value| == |files|
  {
    if files == [] then Ok([])
    else
      match LoadToml(files[0], firstRequired)
      case Err(e) => Err(e)
      case Ok(layer) =>
        match LoadAll(files[1..], false)
        case Err(e) => Err(e)
        case Ok(layers) => Ok([layer] + layers)
  }

  /** What becomes of these layers: the error of the merge or of writing, or the output for the keys asked for. */
  function Resolved(layers: seq<Toml>, keys: seq<string>): Result<Toml, PythonError>
    requires layers != []
  {
    if LayeredRaises(layers) then Err(TypeError) else Dumped(Answer(Layered(layers), keys))
  }

  /** The whole program: the files in order of priority, lowest first, of which the first is required. */
  function Program(files: seq<LayerFile>, keys: seq<string>): Result<Toml, PythonError>
    requires files != []
  {
    match LoadAll(files, true)
    case Err(e) => Err(e)
    case Ok(layers) => Resolved(layers, keys)
  }

  /** What the files contribute. */
  function Contents(files: seq<LayerFile>): (layers: seq<Toml>)
    ensures |layers| == |files|
    ensures forall i :: 0 <= i < |files| ==>
              layers[i] == Table(match files[i] case Parsed(entries) => entries case _ => map[])
  {
    seq(|files|, i requires 0 <= i < |files| => Table(if files[i].Parsed? then files[i].entries else map[]))
  }

  lemma {:induction false} LoadsContents(files: seq<LayerFile>, firstRequired: bool)
    ensures LoadAll(files, firstRequired).Ok?
            <==> (forall i :: 0 <= i < |files| ==> !files[i].NotUtf8?)
                 && (firstRequired && files != [] ==> files[0].Parsed?)
    ensures LoadAll(files, firstRequired).Ok? ==> LoadAll(files, firstRequired).value == Contents(files)
  {
    if files != [] {
      LoadsContents(files[1..], false);
      assert forall i :: 0 < i < |files| ==> files[i] == files[1..][i - 1];
      FirstContent(files);
      hide Contents;
    }
  }

  lemma FirstContent(files: seq<LayerFile>)
    requires files != []
    ensures Contents(files) == [Contents([files[0]])[0]] + Contents(files[1..])
    ensures Contents([files[0]])[0] == Table(if files[0].Parsed? then files[0].entries else map[])
  {
    forall i | 0 <= i < |files| ensures Contents(files)[i] == ([Contents([files[0]])[0]] + Contents(files[1..]))[i] {
      assert i > 0 ==> files[i] == files[1..][i - 1];
    }
  }

  /**
   The program writes its answer if and only if the first file is parsed, no file fails to be UTF-8, no merge raises and
   no date or time is to be written; the answer is that of the merged contents.
   */
  lemma ProgramExactly(files: seq<LayerFile>, keys: seq<string>)
    requires files != []
    ensures var merged := Layered(Contents(files));
            && (Program(files, keys).Ok?
                <==> files[0].Parsed? && (forall i :: 0 <= i < |files| ==> !files[i].NotUtf8?)
                     && !LayeredRaises(Contents(files)) && !HasMoment(Answer(merged, keys)))
            && (Program(files, keys).Ok? ==> Program(files, keys).value == Answer(merged, keys))
    ensures Program(files, keys).Ok? ==>
              var merged, output := Layered(Contents(files)), Program(files, keys).value;
              if keys == [] then output == merged
              else
                && output.Table?
                && (forall k :: k in output.entries <==> k in keys && Lookup(merged, Split(k)).Some?)
                && forall k :: k in output.entries ==> Lookup(merged, Split(k)) == Some(output.entries[k])
  {
    LoadsContents(files, true);
    AnswerIs(Layered(Contents(files)), keys);
    hide LoadAll, Contents, Layered, LayeredRaises, HasMoment, Answer;
  }

  /** The error of a program that fails: an unusable first file, then text that is not UTF-8, then everything later. */
  lemma FailsExactly(files: seq<LayerFile>, keys: seq<string>)
    requires files != []
    ensures var r, notUtf8 := Program(files, keys), exists i :: 0 <= i < |files| && files[i].NotUtf8?;
            && (r == Err(SystemExit) <==> files[0].Missing? || files[0].Unreadable? || files[0].Malformed?)
            && (r == Err(UnicodeDecodeError) <==> files[0].NotUtf8? || (files[0].Parsed? && notUtf8))
            && (r.Err? ==> r.error == TypeError || notUtf8 || !files[0].Parsed?)
  {
    LoadFails(files[1..]);
    LoadsContents(files, true);
    assert forall i :: 0 < i < |files| ==> files[i] == files[1..][i - 1];
    hide Layered, LayeredRaises, HasMoment, Answer;
  }

  lemma {:induction false} LoadFails(files: seq<LayerFile>)
    ensures LoadAll(files, false).Err? ==> LoadAll(files, false) == Err(UnicodeDecodeError)
  {
    if files != [] {
      LoadFails(files[1..]);
    }
  }

  lemma AnswerIs(merged: Toml, keys: seq<string>)
    ensures var output := Answer(merged, keys);
            if keys == [] then output == merged
            else
              && output.Table?
              && (forall k :: k in output.entries <==> k in keys && Lookup(merged, Split(k)).Some?)
              && forall k :: k in output.entries ==> Lookup(merged, Split(k)) == Some(output.entries[k])
  {
  }

  lemma LoadsFirst(file: LayerFile, files: seq<LayerFile>, required: bool)
    ensures LoadAll([file] + files, required)
            == match (LoadToml(file, required), LoadAll(files, false))
               case (Ok(layer), Ok(layers)) => Ok([layer] + layers)
               case (Err(e), _) => Err(e)
               case (_, Err(e)) => Err(e)
  {
    assert ([file] + files)[1..] == files;
  }

  lemma LoadsFour(a: LayerFile, b: LayerFile, c: LayerFile, d: LayerFile)
    ensures var w, x, y, z := LoadToml(a, true), LoadToml(b, false), LoadToml(c, false), LoadToml(d, false);
            LoadAll([a, b, c, d], true)
            == if w.Err? then Err(w.error) else if x.Err? then Err(x.error) else if y.Err? then Err(y.error)
               else if z.Err? then Err(z.error) else Ok([w.value, x.value, y.value, z.value])
  {
    LoadsThree(b, c, d, false);
    LoadsFirst(a, [b, c, d], true);
    assert [a] + [b, c, d] == [a, b, c, d];
    hide LoadToml, LoadAll;
    assert forall w: Toml, x: Toml, y: Toml, z: Toml :: [w] + [x, y, z] == [w, x, y, z];
  }

  lemma LoadsThree(a: LayerFile, b: LayerFile, c: LayerFile, required: bool)
    ensures var x, y, z := LoadToml(a, required), LoadToml(b, false), LoadToml(c, false);
            LoadAll([a, b, c], required)
            == if x.Err? then Err(x.error) else if y.Err? then Err(y.error)
               else if z.Err? then Err(z.error) else Ok([x.value, y.value, z.value])
  {
    LoadsFirst(a, [b, c], required);
    LoadsFirst(b, [c], false);
    LoadsFirst(c, [], false);
    assert [a] + [b, c] == [a, b, c] && [b] + [c] == [b, c] && [c] + [] == [c];
    assert LoadAll([], false) == Ok([]);
    hide LoadToml, LoadAll;
    assert forall x: Toml, y: Toml, z: Toml :: [x] + ([y] + ([z] + [])) == [x, y, z];
  }

  /** resolve_config.py: four layers. */
  method ResolveConfig(baseTeam: LayerFile, baseUser: LayerFile, customTeam: LayerFile, customUser: LayerFile,
                       keys: seq<string>)
    returns (r: Result<Toml, PythonError>)
    ensures r == Program([baseTeam, baseUser, customTeam, customUser], keys)
    ensures r.Ok? ==>
              var merged, output := Layered(Contents([baseTeam, baseUser, customTeam, customUser])), r.value;
              if keys == [] then output == merged
              else
                && output.Table?
                && (forall k :: k in output.entries <==> k in keys && Lookup(merged, Split(k)).Some?)
                && forall k :: k in output.entries ==> Lookup(merged, Split(k)) == Some(output.entries[k])
  {
    hide Merged, Raises, Answer, Layered, LayeredRaises, LoadToml, LoadAll, HasMoment, Contents;
    ProgramExactly([baseTeam, baseUser, customTeam, customUser], keys);
    LoadsFour(baseTeam, baseUser, customTeam, customUser);
    var first := LoadToml(baseTeam, true);
    if first.Err? {
      return Err(first.error);
    }
    var second := LoadToml(baseUser, false);
    if second.Err? {
      return Err(second.error);
    }
    var third := LoadToml(customTeam, false);
    if third.Err? {
      return Err(third.error);
    }
    var fourth := LoadToml(customUser, false);
    if fourth.Err? {
      return Err(fourth.error);
    }
    var a, b, c, d := first.value, second.value, third.value, fourth.value;
    Folded([a], b);
    assert [a] + [b] == [a, b];
    Folded([a, b], c);
    assert [a, b] + [c] == [a, b, c];
    Folded([a, b, c], d);
    assert [a, b, c] + [d] == [a, b, c, d];
    var merged := DeepMerge(a, b);
    if merged.Ok? {
      merged := DeepMerge(merged.value, c);
    }
    if merged.Ok? {
      merged := DeepMerge(merged.value, d);
    }
    if merged.Err? {
      return Err(TypeError);
    }
    var output := Output(merged.value, keys);
    return Dumped(output);
  }

  /** A directory by the names on the way from the root. */
  type Directory = seq<string>

  /** The nearest directory upwards, the start included, that holds _bmad or .git; or that there is none. */
  ghost predicate IsNearest(start: Directory, marked: Directory -> bool, r: Option<Directory>) {
    match r
    case Some(root) => root <= start && marked(root) && forall n :: |root| < n <= |start| ==> !marked(start[..n])
    case None => forall n :: 0 <= n <= |start| ==> !marked(start[..n])
  }

  method FindProjectRoot(start: Directory, marked: Directory -> bool) returns (r: Option<Directory>)
    ensures IsNearest(start, marked, r)
  {
    var current := start;
    assert start[..|start|] == start;
    while true
      invariant |current| <= |start| && current == start[..|current|]
      invariant forall n :: |current| < n <= |start| ==> !marked(start[..n])
      decreases |current|
    {
      if marked(current) {
        return Some(current);
      }
      var parent := if current == [] then [] else current[..|current| - 1];
      if parent == current {
        return None;
      }
      current := parent;
    }
  }

  /**
   resolve_customization.py: the skill's defaults are required; team and user layers are looked for in the project of
   the skill, or else of the working directory, or else nowhere. The project found is returned too.
   */
  method ResolveCustomization(defaults: LayerFile, skillDir: Directory, workingDir: Directory,
                              marked: Directory -> bool, team: Directory -> LayerFile, user: Directory -> LayerFile,
                              keys: seq<string>)
    returns (r: Result<Toml, PythonError>, root: Option<Directory>)
    ensures || IsNearest(skillDir, marked, root)
            || (IsNearest(skillDir, marked, None) && IsNearest(workingDir, marked, root))
    ensures r == Program([defaults, if root.Some? then team(root.value) else Missing,
                          if root.Some? then user(root.value) else Missing], keys)
    ensures r.Ok? ==>
              var merged, output := Layered(Contents([defaults, if root.Some? then team(root.value) else Missing,
                                                           if root.Some? then user(root.value) else Missing])), r.value;
              if keys == [] then output == merged
              else
                && output.Table?
                && (forall k :: k in output.entries <==> k in keys && Lookup(merged, Split(k)).Some?)
                && forall k :: k in output.entries ==> Lookup(merged, Split(k)) == Some(output.entries[k])
  {
    hide Merged, Raises, Answer, Layered, LayeredRaises, IsNearest, LoadToml, LoadAll, HasMoment, Contents;
    var found := FindProjectRoot(skillDir, marked);
    if found.None? {
      found := FindProjectRoot(workingDir, marked);
    }
    root := found;
    ghost var teamFile := if root.Some? then team(root.value) else Missing;
    ghost var userFile := if root.Some? then user(root.value) else Missing;
    ProgramExactly([defaults, teamFile, userFile], keys);
    LoadsThree(defaults, teamFile, userFile, true);
    MissingIsEmpty();
    var first := LoadToml(defaults, true);
    if first.Err? {
      return Err(first.error), root;
    }
    var a, b, c := first.value, Table(map[]), Table(map[]);
    if found.Some? {
      var second := LoadToml(team(found.value), false);
      if second.Err? {
        return Err(second.error), root;
      }
      var third := LoadToml(user(found.value), false);
      if third.Err? {
        return Err(third.error), root;
      }
      b, c := second.value, third.value;
    }
    Folded([a], b);
    assert [a] + [b] == [a, b];
    Folded([a, b], c);
    assert [a, b] + [c] == [a, b, c];
    var merged := DeepMerge(a, b);
    if merged.Ok? {
      merged := DeepMerge(merged.value, c);
    }
    if merged.Err? {
      return Err(TypeError), root;
    }
    var output := Output(merged.value, keys);
    return Dumped(output), root;
  }

  lemma MissingIsEmpty()
    ensures LoadToml(Missing, false) == Ok(Table(map[]))
  {
  }

  lemma Folded(layers: seq<Toml>, next: Toml)
    requires layers != []
    ensures Layered(layers + [next]) == Merged(Layered(layers), next)
    ensures LayeredRaises(layers + [next]) == (LayeredRaises(layers) || Raises(Layered(layers), next))
    ensures |layers| == 1 ==> Layered(layers) == layers[0] && !LayeredRaises(layers)
  {
    assert (layers + [next])[..|layers|] == layers;
  }

  ghost predicate ScalarAt(layer: Toml, path: seq<string>) {
    var v := Lookup(layer, path);
    v.Some? && !v.value.Table? && !v.value.Array?
  }

  /** The layer neither holds the path nor stands in its way. */
  ghost predicate SilentAt(layer: Toml, path: seq<string>) {
    Lookup(layer, path).None? && !Blocks(layer, path)
  }

  /** The highest layer that says anything about a path decides it if what it says is a scalar, whatever lies below. */
  lemma {:induction false} TopScalarWins(layers: seq<Toml>, path: seq<string>, m: nat)
    requires m < |layers| && ScalarAt(layers[m], path)
    requires forall j :: m < j < |layers| ==> SilentAt(layers[j], path)
    ensures Lookup(Layered(layers), path) == Lookup(layers[m], path)
    decreases |layers|
  {
    hide Merged, Blocks;
    if |layers| > 1 {
      var below, top := layers[..|layers| - 1], layers[|layers| - 1];
      PathLookup(Layered(below), top, path);
      if m < |layers| - 1 {
        TopScalarWins(below, path, m);
      } else {
        ScalarOver(Layered(below), top, path);
      }
    }
  }

  lemma ScalarOver(base: Toml, over: Toml, path: seq<string>)
    requires ScalarAt(over, path)
    ensures Lookup(Merged(base, over), path) == Lookup(over, path)
  {
    PathLookup(base, over, path);
  }

  /** What is in the result is held by some layer that no higher layer blocks. */
  lemma {:induction false} HeldSomewhere(layers: seq<Toml>, path: seq<string>)
    requires layers != [] && Lookup(Layered(layers), path).Some?
    ensures exists m :: HeldAndUnblocked(layers, path, m)
    decreases |layers|
  {
    var n := |layers| - 1;
    if n == 0 || Lookup(layers[n], path).Some? {
      assert HeldAndUnblocked(layers, path, n);
    } else {
      PathLookup(Layered(layers[..n]), layers[n], path);
      HeldSomewhere(layers[..n], path);
      var m :| HeldAndUnblocked(layers[..n], path, m);
      assert HeldAndUnblocked(layers, path, m);
    }
  }

  /** Layer m is the highest that holds the path, and no layer above it blocks the path. */
  ghost predicate HeldAndUnblocked(layers: seq<Toml>, path: seq<string>, m: int) {
    && 0 <= m < |layers| && Lookup(layers[m], path).Some?
    && forall j :: m < j < |layers| ==> SilentAt(layers[j], path)
  }

  /**
   A path is in the result if and only if some layer holds it and no layer above the highest such one has a non-table
   on the way.
   */
  lemma PresentExactly(layers: seq<Toml>, path: seq<string>)
    requires layers != []
    ensures Lookup(Layered(layers), path).Some? <==> exists m :: HeldAndUnblocked(layers, path, m)
  {
    if Lookup(Layered(layers), path).Some? {
      HeldSomewhere(layers, path);
    }
    if m :| HeldAndUnblocked(layers, path, m) {
      StaysPresent(layers, path, m);
    }
  }

  lemma {:induction false} StaysPresent(layers: seq<Toml>, path: seq<string>, m: nat)
    requires HeldAndUnblocked(layers, path, m)
    ensures Lookup(Layered(layers), path).Some?
    decreases |layers|
  {
    if |layers| > 1 {
      var n := |layers| - 1;
      PathLookup(Layered(layers[..n]), layers[n], path);
      if m < n {
        StaysPresent(layers[..n], path, m);
      }
    }
  }
}
