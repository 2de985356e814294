/** Programs over AnyVal variables: shared containers behave as if every variable held a value of its own. */
module AnyValProgram {
  import opened AnyValStore
  import opened AnyValRelease
  import opened AnyValChange
  import opened AnyVal

  datatype Key = Index(i: int) | Named(key: string)

  datatype Command =
    | NewEmpty(name: string)
    | NewPlain(name: string, plain: Plain)
    | NewArray(name: string)
    | NewTable(name: string)
    | Drop(name: string)
    /** name[keys...] = source[way...] */
    | Store(name: string, keys: seq<Key>, source: string, way: seq<Key>)
    /** name[keys...].append(source[way...]) */
    | Push(name: string, keys: seq<Key>, source: string, way: seq<Key>)

  // ----- The plain reading: every variable holds a value of its own -----

  /** The value v after `v[keys[0]][keys[1]]...` was opened for writing: arrays grow and tables get
      entries on the way, up to the first key that does not fit. */
  function Opened(v: Value, keys: seq<Key>): Value
    decreases |keys|
  {
    if keys == [] then v
    else
      match keys[0]
      case Index(i) =>
        if TypeOf(v) != ArrayType || i < 0 then v
        else var u := Padded(v, i + 1); SetChild(u, i, Opened(Child(u, i), keys[1..]))
      case Named(key) =>
        if TypeOf(v) != TableType then v
        else
          var u := WithKey(v, key);
          var i := Position(u.shape.keys, key);
          SetChild(u, i, Opened(Child(u, i), keys[1..]))
  }

  /** The positions the keys stand for, or the error of the first key that does not fit. */
  function OpenedPath(v: Value, keys: seq<Key>): Result<seq<nat>>
    decreases |keys|
  {
    if keys == [] then Ok([])
    else
      match keys[0]
      case Index(i) =>
        if TypeOf(v) != ArrayType then WrongType(ArrayType, TypeOf(v))
        else if i < 0 then IndexOutOfBounds(i, |v.children|)
        else Under(i, OpenedPath(Child(Padded(v, i + 1), i), keys[1..]))
      case Named(key) =>
        if TypeOf(v) != TableType then WrongType(TableType, TypeOf(v))
        else
          var u := WithKey(v, key);
          var i := Position(u.shape.keys, key);
          Under(i, OpenedPath(Child(u, i), keys[1..]))
  }

  function Under(i: nat, r: Result<seq<nat>>): Result<seq<nat>> {
    if r.Ok? then Ok([i] + r.value) else r
  }

  /** The positions the keys of a source stand for; reading makes nothing. */
  function ReadPath(v: Value, keys: seq<Key>): Result<seq<nat>>
    decreases |keys|
  {
    if keys == [] then Ok([])
    else
      match keys[0]
      case Index(i) =>
        if TypeOf(v) != ArrayType then WrongType(ArrayType, TypeOf(v))
        else if i < 0 || i >= |v.children| then IndexOutOfBounds(i, |v.children|)
        else Under(i, ReadPath(Child(v, i), keys[1..]))
      case Named(key) =>
        if TypeOf(v) != TableType then WrongType(TableType, TypeOf(v))
        else if key !in v.shape.keys then KeyNotFound(key)
        else
          var i := Position(v.shape.keys, key);
          Under(i, ReadPath(Child(v, i), keys[1..]))
  }

  /** Within one variable, neither the assigned part nor its source is inside the other; an array may be
      appended something inside it, but not itself nor something it is inside of. */
  predicate Apart(v: Value, keys: seq<Key>, way: seq<Key>, push: bool) {
    match OpenedPath(v, keys)
    case Ok(path) =>
      (match ReadPath(Opened(v, keys), way)
       case Ok(from) => !(from <= path) && (push || !(path <= from))
       case _ => true)
    case _ => true
  }

  /** Whether a command speaks of variables that are there, and of a source apart from where it goes. */
  predicate Sensible(env: map<string, Value>, c: Command) {
    match c
    case NewEmpty(name) => name !in env
    case NewPlain(name, _) => name !in env
    case NewArray(name) => name !in env
    case NewTable(name) => name !in env
    case Drop(name) => name in env
    case Store(name, keys, source, way) =>
      name in env && source in env && (name == source ==> Apart(env[name], keys, way, false))
    case Push(name, keys, source, way) =>
      name in env && source in env && (name == source ==> Apart(env[name], keys, way, true))
  }

  /** The value u with w at the path or, for an append, at the end of the array there. */
  function Placed(u: Value, path: seq<nat>, w: Value, push: bool): (Value, Result<()>) {
    var x := Part(u, path);
    if !push then (Replace(u, path, w), Ok(()))
    else if TypeOf(x) != ArrayType then (u, WrongType(ArrayType, TypeOf(x)))
    else (Replace(u, path, Node(ArrayShape, x.children + [w])), Ok(()))
  }

  /** The destination is opened first, and its error is the outcome; then the source is read, and its
      error is; then the value is copied. */
  function Change(env: map<string, Value>, name: string, keys: seq<Key>, source: string, way: seq<Key>, push: bool)
    : (map<string, Value>, Result<()>)
    requires name in env && source in env
  {
    var u := Opened(env[name], keys);
    var ready := env[name := u];
    match OpenedPath(env[name], keys)
    case Ok(path) =>
      (match ReadPath(ready[source], way)
       case Ok(from) =>
         var (v, r) := Placed(u, path, Part(ready[source], from), push);
         (ready[name := v], r)
       case WrongType(expected, actual) => (ready, WrongType(expected, actual))
       case KeyNotFound(key) => (ready, KeyNotFound(key))
       case IndexOutOfBounds(index, size) => (ready, IndexOutOfBounds(index, size)))
    case WrongType(expected, actual) => (ready, WrongType(expected, actual))
    case KeyNotFound(key) => (ready, KeyNotFound(key))
    case IndexOutOfBounds(index, size) => (ready, IndexOutOfBounds(index, size))
  }

  function Step(env: map<string, Value>, c: Command): (map<string, Value>, Result<()>)
    requires Sensible(env, c)
  {
    match c
    case NewEmpty(name) => (env[name := NilValue], Ok(()))
    case NewPlain(name, p) => (env[name := PlainValue(p)], Ok(()))
    case NewArray(name) => (env[name := Node(ArrayShape, [])], Ok(()))
    case NewTable(name) => (env[name := Node(TableShape([]), [])], Ok(()))
    case Drop(name) => (env - {name}, Ok(()))
    case Store(name, keys, source, way) => Change(env, name, keys, source, way, false)
    case Push(name, keys, source, way) => Change(env, name, keys, source, way, true)
  }

  predicate Runs(env: map<string, Value>, program: seq<Command>)
    decreases |program|
  {
    program == [] || (Sensible(env, program[0]) && Runs(Step(env, program[0]).0, program[1..]))
  }

  function Final(env: map<string, Value>, program: seq<Command>): map<string, Value>
    requires Runs(env, program)
    decreases |program|
  {
    if program == [] then env else Final(Step(env, program[0]).0, program[1..])
  }

  /** How each command ended. */
  function Outcomes(env: map<string, Value>, program: seq<Command>): seq<Result<()>>
    requires Runs(env, program)
    decreases |program|
  {
    if program == [] then []
    else var (next, r) := Step(env, program[0]); [r] + Outcomes(next, program[1..])
  }

  /** A variable keeps its value through every program that does not name it as what it changes,
      however much it shared with the variables that were changed. */
  lemma {:induction false} OthersAreUntouched(env: map<string, Value>, program: seq<Command>, x: string)
    requires Runs(env, program) && x in env && forall c :: c in program ==> c.name != x
    ensures x in Final(env, program) && Final(env, program)[x] == env[x]
    decreases |program|
  {
    if program != [] {
      assert program[0] in program;
      var next := Step(env, program[0]).0;
      assert x in next && next[x] == env[x];
      OthersAreUntouched(next, program[1..], x);
    }
  }

  // ----- Opening a path -----

  /** One key opened: what remains to be opened leads to the same value. */
  lemma OpenStep(v: Value, path: seq<nat>, i: nat, u: Value, c: Value)
    requires HasPart(v, path) && u.Node? && i < |u.children|
    ensures Part(Replace(v, path, u), path + [i]) == u.children[i]
    ensures Replace(Replace(v, path, u), path + [i], c) == Replace(v, path, SetChild(u, i, c))
  {
    PartOfReplace(v, path, u);
    assert Init(path + [i]) == path && Last(path + [i]) == i;
    ReplaceTwice(v, path, u, SetChild(u, i, c));
  }

  function Prefixed(path: seq<nat>, r: Result<seq<nat>>): Result<seq<nat>> {
    if r.Ok? then Ok(path + r.value) else r
  }

  /** The first k keys are opened: they lead along `path`, and the rest leads to the intended value. */
  ghost predicate Opening(v0: Value, keys: seq<Key>, k: nat, v: Value, path: seq<nat>) {
    && k <= |keys| && HasPart(v, path)
    && Replace(v, path, Opened(Part(v, path), keys[k..])) == Opened(v0, keys)
    && Prefixed(path, OpenedPath(Part(v, path), keys[k..])) == OpenedPath(v0, keys)
  }

  lemma OpeningStarts(v0: Value, keys: seq<Key>)
    ensures Opening(v0, keys, 0, v0, [])
  {
    assert keys[0..] == keys;
    var r := OpenedPath(v0, keys);
    assert r.Ok? ==> [] + r.value == r.value;
  }

  /** No key left, or a key that does not fit: the value is as far opened as it gets. */
  lemma OpeningEnds(v0: Value, keys: seq<Key>, k: nat, v: Value, path: seq<nat>)
    requires Opening(v0, keys, k, v, path) && Opened(Part(v, path), keys[k..]) == Part(v, path)
    ensures v == Opened(v0, keys)
  {
    ReplaceWithSame(v, path);
  }

  lemma OpeningStep(v0: Value, keys: seq<Key>, k: nat, v: Value, path: seq<nat>, u: Value, i: nat)
    requires Opening(v0, keys, k, v, path) && k < |keys| && u.Node? && i < |u.children|
    requires Opened(Part(v, path), keys[k..]) == SetChild(u, i, Opened(Child(u, i), keys[k + 1..]))
    requires OpenedPath(Part(v, path), keys[k..]) == Under(i, OpenedPath(Child(u, i), keys[k + 1..]))
    ensures Opening(v0, keys, k + 1, Replace(v, path, u), path + [i])
  {
    hide Opened, OpenedPath, Replace;
    OpenStep(v, path, i, u, Opened(Child(u, i), keys[k + 1..]));
    LongerPath(v, path, u, i);
    PrefixedTwice(path, i, OpenedPath(Child(u, i), keys[k + 1..]));
  }

  /** No key left. */
  lemma OpeningDone(v0: Value, keys: seq<Key>, v: Value, path: seq<nat>)
    requires Opening(v0, keys, |keys|, v, path)
    ensures v == Opened(v0, keys) && OpenedPath(v0, keys) == Ok(path)
  {
    assert keys[|keys|..] == [];
    assert path + [] == path;
    OpeningEnds(v0, keys, |keys|, v, path);
  }

  lemma LongerPath(v: Value, path: seq<nat>, u: Value, i: nat)
    requires HasPart(v, path) && u.Node? && i < |u.children|
    ensures HasPart(Replace(v, path, u), path + [i])
  {
    PartOfReplace(v, path, u);
    assert Init(path + [i]) == path && Last(path + [i]) == i;
  }

  lemma PrefixedTwice(path: seq<nat>, i: nat, r: Result<seq<nat>>)
    ensures Prefixed(path, Under(i, r)) == Prefixed(path + [i], r)
  {
    if r.Ok? {
      assert path + ([i] + r.value) == (path + [i]) + r.value;
    }
  }

  /** Whether the first key fits, what it makes of the value, and where it leads. */
  predicate Fits(v: Value, key: Key) {
    match key
    case Index(i) => TypeOf(v) == ArrayType && i >= 0
    case Named(_) => TypeOf(v) == TableType
  }

  function Made(v: Value, key: Key): Value
    requires Fits(v, key)
  {
    match key
    case Index(i) => Padded(v, i + 1)
    case Named(k) => WithKey(v, k)
  }

  function Where(v: Value, key: Key): nat
    requires Fits(v, key)
  {
    match key
    case Index(i) => i
    case Named(k) => Position(WithKey(v, k).shape.keys, k)
  }

  function Misfit(v: Value, key: Key): Result<seq<nat>>
    requires !Fits(v, key)
  {
    match key
    case Index(i) =>
      if TypeOf(v) != ArrayType then WrongType(ArrayType, TypeOf(v)) else IndexOutOfBounds(i, |v.children|)
    case Named(_) => WrongType(TableType, TypeOf(v))
  }

  /** A key that fits. */
  lemma OneKeyOpened(v0: Value, keys: seq<Key>, k: nat, v: Value, path: seq<nat>)
    requires Opening(v0, keys, k, v, path) && k < |keys| && Fits(Part(v, path), keys[k])
    requires Where(Part(v, path), keys[k]) < |Made(Part(v, path), keys[k]).children|
    ensures Opening(v0, keys, k + 1, Replace(v, path, Made(Part(v, path), keys[k])), path + [Where(Part(v, path), keys[k])])
  {
    assert keys[k..][0] == keys[k] && keys[k..][1..] == keys[k + 1..];
    OpeningStep(v0, keys, k, v, path, Made(Part(v, path), keys[k]), Where(Part(v, path), keys[k]));
  }

  /** A key that does not fit. */
  lemma OneKeyFailed(v0: Value, keys: seq<Key>, k: nat, v: Value, path: seq<nat>)
    requires Opening(v0, keys, k, v, path) && k < |keys| && !Fits(Part(v, path), keys[k])
    ensures v == Opened(v0, keys) && OpenedPath(v0, keys) == Misfit(Part(v, path), keys[k])
  {
    assert keys[k..][0] == keys[k];
    OpeningEnds(v0, keys, k, v, path);
  }

  // ----- Running on shared containers -----

  /** What one element reference does: it makes the element and leads to it, or nothing changes. */
  ghost predicate KeyOpened(before: map<string, Value>, after: map<string, Value>, name: string, path: seq<nat>,
                            x: Value, key: Key, r: Result<Loc>) {
    if Fits(x, key) then
      && r.Ok? && name in before && after == before[name := Replace(before[name], path, Made(x, key))]
      && Made(x, key).Node? && Where(x, key) < |Made(x, key).children|
    else !r.Ok? && Failure(r) == Misfit(x, key) && after == before
  }

  /** One element reference. */
  method OpenKey(mem: Memory, l: Loc, key: Key, ghost name: string, ghost path: seq<nat>) returns (r: Result<Loc>)
    requires mem.Valid() && mem.Mine(l, name, path)
    modifies mem
    ensures mem.Valid()
    ensures KeyOpened(old(mem.Env()), mem.Env(), name, path, old(mem.ValueAt(l)), key, r)
    ensures r.Ok? ==> Fits(old(mem.ValueAt(l)), key) && mem.Mine(r.value, name, path + [Where(old(mem.ValueAt(l)), key)])
  {
    hide Whole, Owned, Follow, Replace;
    match key
    case Index(i) =>
      r := mem.Element(l, i, name, path);
    case Named(k) =>
      mem.WellShapedValue(l);
      NamedFits(mem.ValueAt(l), k);
      r := mem.Entry(l, k, name, path);
  }

  lemma NamedFits(v: Value, key: string)
    requires KeysFit(v)
    ensures TypeOf(v) == TableType ==>
      var u := WithKey(v, key); u.Node? && u.shape.TableShape? && Position(u.shape.keys, key) < |u.children|
  {
    if TypeOf(v) == TableType {
      PositionFound(WithKey(v, key).shape.keys, key);
    }
  }

  lemma PositionFound(keys: seq<string>, key: string)
    requires key in keys
    ensures Position(keys, key) < |keys|
  {
    var j :| 0 <= j < |keys| && keys[j] == key;
  }

  /** Opens `name[keys[0]][keys[1]]...` for writing, one reference after the other. */
  method Open(mem: Memory, name: string, keys: seq<Key>) returns (r: Result<Loc>, ghost path: seq<nat>)
    requires mem.Valid() && name in mem.Env()
    modifies mem
    ensures mem.Valid() && mem.Env() == old(mem.Env())[name := Opened(old(mem.Env())[name], keys)]
    ensures OpenedPath(old(mem.Env())[name], keys) == if r.Ok? then Ok(path) else Failure(r)
    ensures r.Ok? ==> mem.Mine(r.value, name, path)
  {
    hide Whole, Owned, Follow, Replace, Opened, OpenedPath, Part, Fits, Made, Where, Misfit;
    ghost var env0 := mem.Env();
    ghost var v0 := env0[name];
    var l := Root(name);
    mem.RootIsMine(name);
    path := [];
    var k := 0;
    OpeningStarts(v0, keys);
    while k < |keys|
      invariant 0 <= k <= |keys| && mem.Valid() && mem.Mine(l, name, path) && name in mem.Env()
      invariant mem.Env() == env0[name := mem.Env()[name]] && Opening(v0, keys, k, mem.Env()[name], path)
    {
      ghost var v := mem.Env()[name];
      mem.ValueIsPart(l, name, path);
      var next := OpenKey(mem, l, keys[k], name, path);
      if !next.Ok? {
        OneKeyFailed(v0, keys, k, v, path);
        return Failure(next), path;
      }
      OneKeyOpened(v0, keys, k, v, path);
      path := path + [Where(Part(v, path), keys[k])];
      l := next.value;
      k := k + 1;
    }
    OpeningDone(v0, keys, mem.Env()[name], path);
    r := Ok(l);
  }

  // ----- Reading the source -----

  /** The first k keys are read: they lead along `from`, and the rest leads on. */
  ghost predicate Reading(v0: Value, keys: seq<Key>, k: nat, v: Value, from: seq<nat>) {
    k <= |keys| && v == Part(v0, from) && Prefixed(from, ReadPath(v, keys[k..])) == ReadPath(v0, keys)
  }

  lemma ReadingStarts(v0: Value, keys: seq<Key>)
    ensures Reading(v0, keys, 0, v0, [])
  {
    assert keys[0..] == keys;
    var r := ReadPath(v0, keys);
    assert r.Ok? ==> [] + r.value == r.value;
  }

  lemma ReadingEnds(v0: Value, keys: seq<Key>, v: Value, from: seq<nat>)
    requires Reading(v0, keys, |keys|, v, from)
    ensures ReadPath(v0, keys) == Ok(from)
  {
    assert keys[|keys|..] == [];
    assert from + [] == from;
  }

  /** What one key of a source leads to. */
  function ReadKey(v: Value, key: Key): Result<nat> {
    match key
    case Index(i) =>
      if TypeOf(v) != ArrayType then WrongType(ArrayType, TypeOf(v))
      else if i < 0 || i >= |v.children| then IndexOutOfBounds(i, |v.children|)
      else Ok(i)
    case Named(key) =>
      if TypeOf(v) != TableType then WrongType(TableType, TypeOf(v))
      else if key !in v.shape.keys then KeyNotFound(key)
      else Ok(Position(v.shape.keys, key))
  }

  lemma ReadingStep(v0: Value, keys: seq<Key>, k: nat, v: Value, from: seq<nat>)
    requires Reading(v0, keys, k, v, from) && k < |keys|
    ensures match ReadKey(v, keys[k])
      case Ok(i) => Reading(v0, keys, k + 1, Child(v, i), from + [i])
      case r => ReadPath(v0, keys) == Failure(r)
  {
    assert keys[k..][0] == keys[k] && keys[k..][1..] == keys[k + 1..];
    var r := ReadKey(v, keys[k]);
    if r.Ok? {
      assert Init(from + [r.value]) == from && Last(from + [r.value]) == r.value;
      PrefixedTwice(from, r.value, ReadPath(Child(v, r.value), keys[k + 1..]));
    }
  }

  /** One constant element reference. */
  method TakeKey(mem: Memory, l: Loc, key: Key, ghost source: string, ghost from: seq<nat>) returns (r: Result<Loc>)
    requires mem.Valid() && Follow(mem.S(), source, from) == Some(l)
    ensures r.Ok? ==> r.value.Slot?
    ensures ReadKey(mem.ValueAt(l), key) == if r.Ok? then Ok(r.value.index) else Failure(r)
    ensures r.Ok? ==> Follow(mem.S(), source, from + [r.value.index]) == Some(r.value)
    ensures r.Ok? ==> mem.ValueAt(r.value) == Child(mem.ValueAt(l), r.value.index)
  {
    hide Whole, Follow, EnvOf;
    match key {
      case Index(i) =>
        r := mem.ConstElement(l, i);
      case Named(k) =>
        mem.WellShapedValue(l);
        EntryIsChild(mem.ValueAt(l), k);
        r := mem.ConstEntry(l, k);
    }
    if r.Ok? {
      ElementFollows(mem.S(), source, from, l, r.value.index);
    }
  }

  lemma ElementFollows(s: AnyValStore.Store, source: string, from: seq<nat>, l: Loc, i: nat)
    requires Follow(s, source, from) == Some(l) && At(s, l).Shared? && HasLoc(s, Slot(At(s, l).block, i))
    ensures Follow(s, source, from + [i]) == Some(Slot(At(s, l).block, i))
  {
    assert Init(from + [i]) == from && Last(from + [i]) == i;
  }

  lemma EntryIsChild(v: Value, key: string)
    requires KeysFit(v)
    ensures v.Node? && v.shape.TableShape? && key in v.shape.keys ==> Position(v.shape.keys, key) < |v.children|
  {
    if v.Node? && v.shape.TableShape? && key in v.shape.keys {
      PositionFound(v.shape.keys, key);
    }
  }

  /** Reads `source[keys[0]][keys[1]]...` through constant references. */
  method Take(mem: Memory, source: string, keys: seq<Key>) returns (r: Result<Loc>, ghost from: seq<nat>)
    requires mem.Valid() && source in mem.Env()
    ensures ReadPath(mem.Env()[source], keys) == if r.Ok? then Ok(from) else Failure(r)
    ensures r.Ok? ==> Follow(mem.S(), source, from) == Some(r.value)
    ensures r.Ok? ==> mem.ValueAt(r.value) == Part(mem.Env()[source], from)
  {
    hide Whole, ReadPath, ReadKey, Reading;
    ghost var v0 := mem.Env()[source];
    mem.RootIsMine(source);
    var l := Root(source);
    from := [];
    var k := 0;
    ReadingStarts(v0, keys);
    while k < |keys|
      invariant 0 <= k <= |keys| && Follow(mem.S(), source, from) == Some(l)
      invariant Reading(v0, keys, k, mem.ValueAt(l), from)
    {
      ReadingStep(v0, keys, k, mem.ValueAt(l), from);
      var next := TakeKey(mem, l, keys[k], source, from);
      if !next.Ok? {
        return Failure(next), from;
      }
      from := from + [next.value.index];
      l := next.value;
      k := k + 1;
    }
    ReadingEnds(v0, keys, mem.ValueAt(l), from);
    assert mem.ValueAt(l) == Part(v0, from) by { ReadingValue(v0, keys, k, mem.ValueAt(l), from); }
    r := Ok(l);
  }

  lemma ReadingValue(v0: Value, keys: seq<Key>, k: nat, v: Value, from: seq<nat>)
    requires Reading(v0, keys, k, v, from)
    ensures v == Part(v0, from)
  {
  }

  // ----- Different ways lead to different handles -----

  /** Where nobody shares the containers passed, there is only one way. */
  lemma {:induction false} OwnedPathIsOnly(s: AnyValStore.Store, name: string, path: seq<nat>, source: string, from: seq<nat>)
    requires Exact(s) && Owned(s, name, path) && Follow(s, source, from) == Follow(s, name, path)
    ensures source == name && from == path
    decreases |path|
  {
    if path != [] {
      var b := Follow(s, name, path).value.block;
      SoleReferrer(s, b, Follow(s, name, Init(path)).value);
      assert from != [] && Last(from) == Last(path);
      OwnedPathIsOnly(s, name, Init(path), source, Init(from));
      assert path == Init(path) + [Last(path)] && from == Init(from) + [Last(from)];
    }
  }

  lemma {:induction false} TrailHasPrefix(s: AnyValStore.Store, name: string, path: seq<nat>, l: Loc) returns (k: nat)
    requires Follow(s, name, path).Some? && l in Trail(s, name, path)
    ensures k <= |path| && Follow(s, name, path[..k]) == Some(l)
    decreases |path|
  {
    k := |path|;
    assert path[..k] == path;
    if l != Follow(s, name, path).value {
      k := TrailHasPrefix(s, name, Init(path), l);
      assert Init(path)[..k] == path[..k];
    }
  }

  /** Paths apart lead to handles of which neither is inside the other. */
  lemma PathsApart(s: AnyValStore.Store, name: string, path: seq<nat>, source: string, from: seq<nat>, l: Loc, src: Loc)
    requires Exact(s) && Owned(s, name, path) && Follow(s, name, path) == Some(l) && Follow(s, source, from) == Some(src)
    ensures source != name || !(from <= path) ==> src !in Trail(s, name, path)
    ensures source != name || !(path <= from) ==> l !in Trail(s, source, from)
  {
    if src in Trail(s, name, path) {
      TrailIsPrefixes(s, name, path, src);
      var k :| 0 <= k <= |path| && Owned(s, name, path[..k]) && Follow(s, name, path[..k]).value == src;
      OwnedPathIsOnly(s, name, path[..k], source, from);
    }
    if l in Trail(s, source, from) {
      var k := TrailHasPrefix(s, source, from, l);
      OwnedPathIsOnly(s, name, path, source, from[..k]);
    }
  }

  // ----- Commands and programs -----

  /** Opens the destination, reads the source, and copies the value there or to the end of the array there. */
  method CopyTo(mem: Memory, name: string, keys: seq<Key>, source: string, way: seq<Key>, push: bool)
    returns (r: Result<()>)
    requires mem.Valid() && name in mem.Env() && source in mem.Env()
    requires name == source ==> Apart(mem.Env()[name], keys, way, push)
    modifies mem
    ensures mem.Valid() && (mem.Env(), r) == Change(old(mem.Env()), name, keys, source, way, push)
  {
    hide Whole, Owned, Replace, Opened, OpenedPath, ReadPath, Part, Follow, Trail;
    ghost var env := mem.Env();
    var found, path := Open(mem, name, keys);
    if !found.Ok? {
      return Failure(found);
    }
    var taken, from := Take(mem, source, way);
    if !taken.Ok? {
      return Failure(taken);
    }
    var l, src := found.value, taken.value;
    PathsApart(mem.S(), name, path, source, from, l, src) by { WholeIsExact(mem.S(), mem.next, mem.meaning); }
    mem.ValueIsPart(l, name, path);
    ghost var ready := mem.Env();
    assert ready[name := ready[name]] == ready;
    if push {
      r := mem.Append(l, src, name, path);
    } else {
      mem.Assign(l, src, name, path, source, from);
      r := Ok(());
    }
  }

  lemma WholeIsExact(s: AnyValStore.Store, next: nat, m: Meaning)
    requires Whole(s, next, m)
    ensures Exact(s)
  {
  }

  /** One command on shared containers does to the variables what it does to plain values. */
  method Execute(mem: Memory, c: Command) returns (r: Result<()>)
    requires mem.Valid() && Sensible(mem.Env(), c)
    modifies mem
    ensures mem.Valid() && (mem.Env(), r) == Step(old(mem.Env()), c)
  {
    hide Whole, Owned, Replace, Opened, OpenedPath, Change, Apart;
    r := Ok(());
    match c
    case NewEmpty(name) => mem.Declare(name);
    case NewPlain(name, p) => mem.DeclarePlain(name, p);
    case NewArray(name) => mem.DeclareContainer(name, ArrayShape);
    case NewTable(name) => mem.DeclareContainer(name, TableShape([]));
    case Drop(name) => mem.Destroy(name);
    case Store(name, keys, source, way) => r := CopyTo(mem, name, keys, source, way, false);
    case Push(name, keys, source, way) => r := CopyTo(mem, name, keys, source, way, true);
  }

  /** Whole programs: counting and sharing cannot be told from every variable having its own value. */
  method Run(mem: Memory, program: seq<Command>) returns (outcomes: seq<Result<()>>)
    requires mem.Valid() && Runs(mem.Env(), program)
    modifies mem
    ensures mem.Valid() && mem.Env() == Final(old(mem.Env()), program)
    ensures outcomes == Outcomes(old(mem.Env()), program)
    ensures forall x :: x in old(mem.Env()) && (forall c :: c in program ==> c.name != x) ==>
      x in mem.Env() && mem.Env()[x] == old(mem.Env()[x])
  {
    hide Whole, Owned, Replace, Opened, OpenedPath, Change;
    var k := 0;
    outcomes := [];
    assert program[0..] == program;
    while k < |program|
      invariant 0 <= k <= |program| && mem.Valid()
      invariant Runs(mem.Env(), program[k..]) && Final(mem.Env(), program[k..]) == Final(old(mem.Env()), program)
      invariant outcomes + Outcomes(mem.Env(), program[k..]) == Outcomes(old(mem.Env()), program)
    {
      assert program[k..][0] == program[k] && program[k..][1..] == program[k + 1..];
      var r := Execute(mem, program[k]);
      outcomes := outcomes + [r];
      k := k + 1;
    }
    forall x | x in old(mem.Env()) && (forall c :: c in program ==> c.name != x)
      ensures x in mem.Env() && mem.Env()[x] == old(mem.Env()[x])
    {
      OthersAreUntouched(old(mem.Env()), program, x);
    }
  }
}
