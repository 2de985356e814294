/** What programs on AnyVal variables read back of what they wrote. */
module AnyValReads {
  import opened AnyValStore
  import opened AnyVal
  import opened AnyValProgram

  /** Every table has one key for each element, at any depth. */
  predicate Fitting(v: Value)
    decreases v
  {
    KeysFit(v) && (v.Node? ==> forall c :: c in v.children ==> Fitting(c))
  }

  /** What `variable[keys...]` yields when it is read. */
  function ReadAt(v: Value, keys: seq<Key>): Result<Value> {
    match ReadPath(v, keys)
    case Ok(path) => Ok(Part(v, path))
    case r => Failure(r)
  }

  /** The value v with w written where the keys lead. */
  function Written(v: Value, keys: seq<Key>, w: Value): Value
    requires OpenedPath(v, keys).Ok?
  {
    Replace(Opened(v, keys), OpenedPath(v, keys).value, w)
  }

  /** What is read at `other` is neither inside nor around what is written at `keys`. */
  predicate NotAround(v: Value, keys: seq<Key>, other: seq<Key>) {
    var path, q := OpenedPath(v, keys), ReadPath(v, other);
    path.Ok? && q.Ok? && !(path.value <= q.value) && !(q.value <= path.value)
  }

  // ----- One key at a time -----

  lemma {:induction false} PartFromFirst(v: Value, i: nat, path: seq<nat>)
    ensures Part(v, [i] + path) == Part(Child(v, i), path)
    decreases |path|
  {
    if path == [] {
      assert [i] + path == [i] && Init([i]) == [] && Last([i]) == i;
    } else {
      assert Init([i] + path) == [i] + Init(path) && Last([i] + path) == Last(path);
      PartFromFirst(v, i, Init(path));
    }
  }

  lemma {:induction false} ReplaceFromFirst(v: Value, i: nat, path: seq<nat>, w: Value)
    ensures Replace(v, [i] + path, w) == SetChild(v, i, Replace(Child(v, i), path, w))
    decreases |path|
  {
    if path == [] {
      assert [i] + path == [i] && Init([i]) == [] && Last([i]) == i;
    } else {
      assert Init([i] + path) == [i] + Init(path) && Last([i] + path) == Last(path);
      PartFromFirst(v, i, Init(path));
      ReplaceFromFirst(v, i, Init(path), SetChild(Part(v, [i] + Init(path)), Last(path), w));
    }
  }

  lemma MadeFits(v: Value, key: Key)
    requires Fitting(v) && Fits(v, key)
    ensures var u, i := Made(v, key), Where(v, key);
      && u.Node? && i < |u.children| && Fitting(Child(u, i))
      && (u.shape.ArrayShape? <==> key.Index?)
      && (key.Named? ==> u.shape.TableShape? && key.key in u.shape.keys && Position(u.shape.keys, key.key) == i)
      && forall j :: 0 <= j < |v.children| ==> j < |u.children| && u.children[j] == v.children[j]
  {
    match key
    case Index(i) => PaddedKeepsElements(v, i + 1);
    case Named(k) =>
      WithKeyKeepsEntries(v, k);
      NamedFits(v, k);
  }

  lemma OpenedStep(v: Value, keys: seq<Key>)
    requires keys != [] && Fits(v, keys[0])
    ensures var u, i := Made(v, keys[0]), Where(v, keys[0]);
      && Opened(v, keys) == SetChild(u, i, Opened(Child(u, i), keys[1..]))
      && OpenedPath(v, keys) == Under(i, OpenedPath(Child(u, i), keys[1..]))
  {
    hide Padded, WithKey, SetChild, Child;
  }

  lemma WrittenStep(v: Value, keys: seq<Key>, w: Value)
    requires Fitting(v) && keys != [] && OpenedPath(v, keys).Ok?
    ensures Fits(v, keys[0])
    ensures var u, i := Made(v, keys[0]), Where(v, keys[0]);
      && OpenedPath(Child(u, i), keys[1..]).Ok?
      && OpenedPath(v, keys).value == [i] + OpenedPath(Child(u, i), keys[1..]).value
      && Written(v, keys, w) == SetChild(u, i, Written(Child(u, i), keys[1..], w))
  {
    assert Fits(v, keys[0]);
    OpenedStep(v, keys);
    MadeFits(v, keys[0]);
    hide Opened, OpenedPath, Replace, Made, Where, Fitting, Fits;
    var u, i := Made(v, keys[0]), Where(v, keys[0]);
    ReplaceFromFirst(Opened(v, keys), i, OpenedPath(Child(u, i), keys[1..]).value, w);
    SetTwice(u, i, Opened(Child(u, i), keys[1..]), Written(Child(u, i), keys[1..], w));
  }

  lemma SetTwice(u: Value, i: nat, a: Value, b: Value)
    requires u.Node? && i < |u.children|
    ensures Child(SetChild(u, i, a), i) == a && SetChild(SetChild(u, i, a), i, b) == SetChild(u, i, b)
  {
  }

  lemma ReadStep(v: Value, keys: seq<Key>)
    requires KeysFit(v) && keys != [] && ReadPath(v, keys).Ok?
    ensures ReadKey(v, keys[0]).Ok? && v.Node?
    ensures var j := ReadKey(v, keys[0]).value;
      && j < |v.children| && ReadPath(Child(v, j), keys[1..]).Ok?
      && ReadPath(v, keys).value == [j] + ReadPath(Child(v, j), keys[1..]).value
  {
    if keys[0].Named? {
      EntryIsChild(v, keys[0].key);
    }
  }

  lemma ReadStepBack(v: Value, keys: seq<Key>)
    requires keys != [] && ReadKey(v, keys[0]).Ok?
    ensures var j := ReadKey(v, keys[0]).value; ReadPath(v, keys) == Under(j, ReadPath(Child(v, j), keys[1..]))
  {
  }

  lemma PositionInLonger(keys: seq<string>, longer: seq<string>, key: string)
    requires keys <= longer && key in keys
    ensures key in longer && Position(longer, key) == Position(keys, key)
  {
    PositionFound(keys, key);
    var j := Position(keys, key);
    assert longer[j] == keys[j] == key;
    PositionFound(longer, key);
    assert forall k :: 0 <= k < j ==> longer[k] == keys[k];
  }

  /** Opening a key takes no element away. */
  lemma ReadsAfterOpening(v: Value, key: Key, c: Value, k: Key)
    requires Fitting(v) && Fits(v, key) && ReadKey(v, k).Ok?
    ensures ReadKey(SetChild(Made(v, key), Where(v, key), c), k) == ReadKey(v, k)
  {
    match key
    case Index(i) => PaddedKeepsElements(v, i + 1);
    case Named(n) =>
      WithKeyKeepsEntries(v, n);
      if k.Named? {
        PositionInLonger(v.shape.keys, WithKey(v, n).shape.keys, k.key);
      }
  }

  /** What was written is what is read at the same keys. */
  lemma {:induction false} ReadsWhatWasWritten(v: Value, keys: seq<Key>, w: Value)
    requires Fitting(v) && OpenedPath(v, keys).Ok?
    ensures ReadPath(Written(v, keys, w), keys) == OpenedPath(v, keys)
    ensures Part(Written(v, keys, w), OpenedPath(v, keys).value) == w
    decreases |keys|
  {
    if keys != [] {
      var u, i := Made(v, keys[0]), Where(v, keys[0]);
      WrittenStep(v, keys, w);
      MadeFits(v, keys[0]);
      ReadsWhatWasWritten(Child(u, i), keys[1..], w);
      PartFromFirst(Written(v, keys, w), i, OpenedPath(Child(u, i), keys[1..]).value);
    }
  }

  /** What could be read before and is neither inside nor around what was written reads as before. */
  lemma {:induction false} ReadsElsewhereAsBefore(v: Value, keys: seq<Key>, w: Value, other: seq<Key>)
    requires Fitting(v) && NotAround(v, keys, other)
    ensures ReadPath(Written(v, keys, w), other) == ReadPath(v, other)
    ensures Part(Written(v, keys, w), ReadPath(v, other).value) == Part(v, ReadPath(v, other).value)
    decreases |keys|
  {
    var path, q := OpenedPath(v, keys).value, ReadPath(v, other).value;
    assert keys != [] && other != [];
    var u, i := Made(v, keys[0]), Where(v, keys[0]);
    WrittenStep(v, keys, w);
    MadeFits(v, keys[0]);
    ReadStep(v, other);
    var j := ReadKey(v, other[0]).value;
    var c := Written(Child(u, i), keys[1..], w);
    var z := SetChild(u, i, c);
    ReadsAfterOpening(v, keys[0], c, other[0]);
    ReadStepBack(z, other);
    var rest := ReadPath(Child(v, j), other[1..]).value;
    PartFromFirst(v, j, rest);
    PartFromFirst(z, j, rest);
    if j == i {
      assert Child(u, i) == Child(v, i);
      SameFirst(i, OpenedPath(Child(u, i), keys[1..]).value, rest);
      ReadsElsewhereAsBefore(Child(v, i), keys[1..], w, other[1..]);
    } else {
      assert Child(z, j) == Child(v, j);
    }
  }

  lemma SameFirst(i: nat, p: seq<nat>, q: seq<nat>)
    requires !([i] + p <= [i] + q) && !([i] + q <= [i] + p)
    ensures !(p <= q) && !(q <= p)
  {
  }

  /** Opening alone changes nothing that could be read. */
  lemma OpeningKeepsReads(v: Value, keys: seq<Key>, other: seq<Key>)
    requires Fitting(v) && NotAround(v, keys, other)
    ensures ReadAt(Opened(v, keys), other) == ReadAt(v, other)
  {
    var u, path := Opened(v, keys), OpenedPath(v, keys).value;
    ReplaceWithSame(u, path);
    ReadsElsewhereAsBefore(v, keys, Part(u, path), other);
  }

  // ----- Tables stay in shape -----

  predicate AllFitting(env: map<string, Value>) {
    forall x :: x in env ==> Fitting(env[x])
  }

  lemma ChildFits(v: Value, i: nat, w: Value)
    requires Fitting(v) && Fitting(w)
    ensures Fitting(Child(v, i)) && Fitting(SetChild(v, i, w))
  {
  }

  lemma {:induction false} OpenedFits(v: Value, keys: seq<Key>)
    requires Fitting(v)
    ensures Fitting(Opened(v, keys))
    decreases |keys|
  {
    if keys != [] && Fits(v, keys[0]) {
      var u, i := Made(v, keys[0]), Where(v, keys[0]);
      OpenedStep(v, keys);
      MadeFits(v, keys[0]);
      MadeFitsDeeply(v, keys[0]);
      OpenedFits(Child(u, i), keys[1..]);
      ChildFits(u, i, Opened(Child(u, i), keys[1..]));
    }
  }

  lemma MadeFitsDeeply(v: Value, key: Key)
    requires Fitting(v) && Fits(v, key)
    ensures Fitting(Made(v, key))
  {
    match key
    case Index(i) => PaddedKeepsElements(v, i + 1);
    case Named(k) => WithKeyKeepsEntries(v, k);
  }

  lemma {:induction false} PartFits(v: Value, path: seq<nat>)
    requires Fitting(v)
    ensures Fitting(Part(v, path))
    decreases |path|
  {
    if path != [] {
      PartFits(v, Init(path));
    }
  }

  lemma {:induction false} ReplacedFits(v: Value, path: seq<nat>, w: Value)
    requires Fitting(v) && Fitting(w)
    ensures Fitting(Replace(v, path, w))
    decreases |path|
  {
    if path != [] {
      PartFits(v, Init(path));
      ChildFits(Part(v, Init(path)), Last(path), w);
      ReplacedFits(v, Init(path), SetChild(Part(v, Init(path)), Last(path), w));
    }
  }

  lemma ChangeFits(env: map<string, Value>, name: string, keys: seq<Key>, source: string, way: seq<Key>, push: bool)
    requires name in env && source in env && AllFitting(env)
    ensures AllFitting(Change(env, name, keys, source, way, push).0)
  {
    hide Fitting, Opened, OpenedPath, ReadPath, Part, Replace;
    OpenedFits(env[name], keys);
    var u := Opened(env[name], keys);
    var ready := env[name := u];
    if OpenedPath(env[name], keys).Ok? && ReadPath(ready[source], way).Ok? {
      var path, w := OpenedPath(env[name], keys).value, Part(ready[source], ReadPath(ready[source], way).value);
      PartFits(ready[source], ReadPath(ready[source], way).value);
      PartFits(u, path);
      ReplacedFits(u, path, w);
      if TypeOf(Part(u, path)) == ArrayType {
        LongerFits(Part(u, path), w);
        ReplacedFits(u, path, Node(ArrayShape, Part(u, path).children + [w]));
      }
    }
  }

  lemma LongerFits(v: Value, w: Value)
    requires Fitting(v) && Fitting(w) && v.Node?
    ensures Fitting(Node(ArrayShape, v.children + [w]))
  {
  }

  /** No run takes a table out of shape. */
  lemma {:induction false} RunsKeepFitting(env: map<string, Value>, program: seq<Command>)
    requires Runs(env, program) && AllFitting(env)
    ensures AllFitting(Final(env, program))
    decreases |program|
  {
    if program != [] {
      StepFits(env, program[0]);
      RunsKeepFitting(Step(env, program[0]).0, program[1..]);
    }
  }

  lemma StepFits(env: map<string, Value>, c: Command)
    requires Sensible(env, c) && AllFitting(env)
    ensures AllFitting(Step(env, c).0)
  {
    hide Change, Apart;
    match c
    case Store(name, keys, source, way) => ChangeFits(env, name, keys, source, way, false);
    case Push(name, keys, source, way) => ChangeFits(env, name, keys, source, way, true);
    case _ =>
  }

  // ----- Reading back -----

  /** What the source of a sensible command gave before, it gives when the destination is open. */
  lemma SourceAsBefore(env: map<string, Value>, name: string, keys: seq<Key>, source: string, way: seq<Key>)
    requires name in env && source in env && AllFitting(env) && OpenedPath(env[name], keys).Ok?
    requires ReadPath(env[source], way).Ok?
    requires name == source ==> NotAround(env[name], keys, way)
    ensures ReadAt(env[name := Opened(env[name], keys)][source], way) == ReadAt(env[source], way)
  {
    if name == source {
      OpeningKeepsReads(env[name], keys, way);
    }
  }

  /** After `name[keys...] = source[way...]` the destination reads as the source did before, and whatever else could
      be read and is neither inside nor around the destination reads as before. */
  lemma StoreThenRead(env: map<string, Value>, name: string, keys: seq<Key>, source: string, way: seq<Key>, other: seq<Key>)
    requires name in env && source in env && AllFitting(env)
    requires OpenedPath(env[name], keys).Ok? && ReadPath(env[source], way).Ok?
    requires name == source ==> NotAround(env[name], keys, way)
    ensures var (next, r) := Change(env, name, keys, source, way, false);
      && r == Ok(()) && ReadAt(next[name], keys) == ReadAt(env[source], way)
      && (NotAround(env[name], keys, other) ==> ReadAt(next[name], other) == ReadAt(env[name], other))
  {
    hide Opened, OpenedPath, ReadPath, Fitting;
    SourceAsBefore(env, name, keys, source, way);
    var w := ReadAt(env[source], way).value;
    ReadsWhatWasWritten(env[name], keys, w);
    var (next, r) := Change(env, name, keys, source, way, false);
    assert next[name] == Written(env[name], keys, w);
    if NotAround(env[name], keys, other) {
      ReadsElsewhereAsBefore(env[name], keys, w, other);
    }
  }

  /** Opening what could be read already changes nothing. */
  lemma {:induction false} OpeningReadable(v: Value, keys: seq<Key>)
    requires Fitting(v) && ReadPath(v, keys).Ok?
    ensures Opened(v, keys) == v && OpenedPath(v, keys) == ReadPath(v, keys)
    decreases |keys|
  {
    if keys != [] {
      ReadStep(v, keys);
      var j := ReadKey(v, keys[0]).value;
      assert Fits(v, keys[0]) && Made(v, keys[0]) == v && Where(v, keys[0]) == j;
      OpenedStep(v, keys);
      OpeningReadable(Child(v, j), keys[1..]);
      assert v.children[j := v.children[j]] == v.children;
    }
  }

  /** After `name[keys...].append(source[way...])` the array there has one more element, the source's value. */
  lemma PushThenRead(env: map<string, Value>, name: string, keys: seq<Key>, source: string, way: seq<Key>)
    requires name in env && source in env && AllFitting(env)
    requires ReadPath(env[name], keys).Ok? && ReadPath(env[source], way).Ok?
    requires TypeOf(ReadAt(env[name], keys).value) == ArrayType
    ensures var (next, r) := Change(env, name, keys, source, way, true);
      && r == Ok(())
      && ReadAt(next[name], keys)
        == Ok(Node(ArrayShape, ReadAt(env[name], keys).value.children + [ReadAt(env[source], way).value]))
  {
    hide Opened, OpenedPath, ReadPath, Fitting;
    OpeningReadable(env[name], keys);
    var a, w := ReadAt(env[name], keys).value, ReadAt(env[source], way).value;
    ReadsWhatWasWritten(env[name], keys, Node(ArrayShape, a.children + [w]));
  }
}
