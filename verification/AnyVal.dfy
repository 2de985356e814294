/** AnyVal: nested arrays and tables that are shared until they are changed. */
module AnyVal {
  import opened AnyValStore
  import opened AnyValRelease
  import opened AnyValChange

  /** What a handle can hold, as named in error messages. */
  datatype Type = NilType | NumberType | BooleanType | TextType | GeometryType(kind: nat) | ArrayType | TableType

  datatype Result<T> =
    | Ok(value: T)
    | WrongType(expected: Type, actual: Type)
    | KeyNotFound(key: string)
    | IndexOutOfBounds(index: int, size: int)

  function TypeOf(v: Value): Type {
    match v
    case NilValue => NilType
    case PlainValue(Number(_)) => NumberType
    case PlainValue(Boolean(_)) => BooleanType
    case PlainValue(Text(_)) => TextType
    case PlainValue(Geometry(kind, _)) => GeometryType(kind)
    case Node(ArrayShape, _) => ArrayType
    case Node(TableShape(_), _) => TableType
  }

  /** A table has one key for each element. */
  predicate KeysFit(v: Value) {
    v.Node? && v.shape.TableShape? ==> |v.shape.keys| == |v.children|
  }

  /** An array or table at least n elements long, filled up with empty values. */
  function Padded(v: Value, n: nat): Value
    requires v.Node?
  {
    if |v.children| < n then v.(children := v.children + NilValues(n - |v.children|)) else v
  }

  /** It is as long as asked or as it was, keeps its elements, and is empty beyond them. */
  lemma PaddedKeepsElements(v: Value, n: nat)
    requires v.Node?
    ensures var u := Padded(v, n);
      && u.Node? && u.shape == v.shape
      && |u.children| == (if n > |v.children| then n else |v.children|)
      && forall k :: 0 <= k < |u.children| ==> u.children[k] == if k < |v.children| then v.children[k] else NilValue
  {
  }

  function Position(keys: seq<string>, key: string): (i: nat)
    ensures i <= |keys|
    ensures forall j :: 0 <= j < i ==> keys[j] != key
    ensures i < |keys| ==> keys[i] == key
  {
    if keys == [] || keys[0] == key then 0 else 1 + Position(keys[1..], key)
  }

  /** A table with an entry for the key, empty if it had none. */
  function WithKey(v: Value, key: string): Value
    requires v.Node? && v.shape.TableShape?
  {
    if key in v.shape.keys then v else Node(TableShape(v.shape.keys + [key]), v.children + [NilValue])
  }

  /** A new key comes last, with an empty value; nothing else changes. */
  lemma WithKeyKeepsEntries(v: Value, key: string)
    requires v.Node? && v.shape.TableShape? && KeysFit(v)
    ensures var u := WithKey(v, key);
      && u.Node? && u.shape.TableShape? && KeysFit(u)
      && v.shape.keys <= u.shape.keys && v.children <= u.children
      && u.shape.keys[|v.shape.keys|..] == (if key in v.shape.keys then [] else [key])
      && u.children[|v.children|..] == if key in v.shape.keys then [] else [NilValue]
  {
  }

  /** What `array[i]` does to the variables, when the handle it is applied to is found at a path of a
      variable and has value v: a longer array if i is past its end, or an error and no change. */
  ghost predicate ElementFound(before: map<string, Value>, after: map<string, Value>, name: string, path: seq<nat>,
                               i: int, v: Value, r: Result<Loc>) {
    if TypeOf(v) != ArrayType then r == WrongType(ArrayType, TypeOf(v)) && after == before
    else if i < 0 then r == IndexOutOfBounds(i, |v.children|) && after == before
    else r.Ok? && name in before && after == before[name := Replace(before[name], path, Padded(v, i + 1))]
  }

  /** Where `table[key]` finds or makes its entry. */
  function EntryPosition(v: Value, key: string): nat {
    if v.Node? && v.shape.TableShape? then Position(WithKey(v, key).shape.keys, key) else 0
  }

  /** What reading a constant array or table yields, on values. */
  function ReadElement(v: Value, i: int): Result<Value> {
    if TypeOf(v) != ArrayType then WrongType(ArrayType, TypeOf(v))
    else if i < 0 || i >= |v.children| then IndexOutOfBounds(i, |v.children|)
    else Ok(v.children[i])
  }

  function ReadEntry(v: Value, key: string): Result<Value> {
    if TypeOf(v) != TableType then WrongType(TableType, TypeOf(v))
    else if key !in v.shape.keys then KeyNotFound(key)
    else Ok(Child(v, Position(v.shape.keys, key)))
  }

  /** The same error for another type of result. */
  function Failure<T, U>(r: Result<T>): Result<U>
    requires !r.Ok?
  {
    match r
    case WrongType(expected, actual) => WrongType(expected, actual)
    case KeyNotFound(key) => KeyNotFound(key)
    case IndexOutOfBounds(index, size) => IndexOutOfBounds(index, size)
  }

  lemma KeyIsNew(keys: seq<string>, key: string)
    requires Position(keys, key) == |keys| && DistinctKeys(keys)
    ensures key !in keys && DistinctKeys(keys + [key]) && Position(keys + [key], key) == |keys|
  {
    hide Position, DistinctKeys;
    NotFoundIsMissing(keys, key);
    MissingStaysDistinct(keys, key);
    PositionAtEnd(keys, key);
  }

  lemma NotFoundIsMissing(keys: seq<string>, key: string)
    requires Position(keys, key) == |keys|
    ensures key !in keys
  {
    hide Position;
  }

  lemma MissingStaysDistinct(keys: seq<string>, key: string)
    requires key !in keys && DistinctKeys(keys)
    ensures DistinctKeys(keys + [key])
  {
    forall i, j | 0 <= i < j < |keys| + 1 ensures (keys + [key])[i] != (keys + [key])[j] {
      assert keys[i] in keys;
    }
  }

  lemma PositionAtEnd(keys: seq<string>, key: string)
    requires key !in keys
    ensures Position(keys + [key], key) == |keys|
  {
    hide Position;
    forall j | 0 <= j < |keys| ensures (keys + [key])[j] != key {
      assert keys[j] in keys;
    }
    assert (keys + [key])[|keys|] == key;
  }

  /** What `table[key]` does to the variables: an empty entry for a new key, or an error. */
  ghost predicate EntryFound(before: map<string, Value>, after: map<string, Value>, name: string, path: seq<nat>,
                             key: string, v: Value, r: Result<Loc>) {
    if TypeOf(v) != TableType then r == WrongType(TableType, TypeOf(v)) && after == before
    else r.Ok? && name in before && after == before[name := Replace(before[name], path, WithKey(v, key))]
  }

  /** What appending w to an array of value v does to the variables. */
  ghost predicate Appended(before: map<string, Value>, after: map<string, Value>, name: string, path: seq<nat>,
                           v: Value, w: Value) {
    && v.Node? && name in before
    && after == before[name := Replace(before[name], path, Node(ArrayShape, v.children + [w]))]
  }

  /** All AnyVal variables of a program with the heap behind them. */
  class Memory {
    var roots: map<string, Handle>
    var blocks: map<nat, Block>
    var next: nat
    /** The deep value of each container. */
    ghost var meaning: Meaning

    function S(): Store
      reads this
    {
      Store(roots, blocks)
    }

    /** Exact counts, no dangling handle, no cycle; counts may be zero while a container is destroyed. */
    ghost predicate Sound(holes: set<nat>)
      reads this
    {
      Steady(S(), next, meaning, holes)
    }

    ghost predicate Valid()
      reads this
    {
      Whole(S(), next, meaning)
    }

    /** Every variable's deep value. */
    ghost function Env(): map<string, Value>
      reads this
    {
      EnvOf(S(), meaning)
    }

    ghost function ValueAt(l: Loc): Value
      requires HasLoc(S(), l)
      reads this
    {
      HandleValue(meaning, At(S(), l))
    }

    /** l is the handle at this path of the variable, and no container it is in is shared. */
    ghost predicate Mine(l: Loc, name: string, path: seq<nat>)
      reads this
    {
      Owned(S(), name, path) && Follow(S(), name, path) == Some(l)
    }

    function TypeAt(l: Loc): Type
      requires HasLoc(S(), l)
      requires At(S(), l).Shared? ==> At(S(), l).block in blocks
      reads this
    {
      match At(S(), l)
      case Nil => NilType
      case Single(p) => TypeOf(PlainValue(p))
      case Shared(b) => TypeOf(Node(blocks[b].shape, []))
    }

    constructor ()
      ensures Valid() && Env() == map[]
    {
      roots, blocks, next, meaning := map[], map[], 0, map[];
    }

    /** Overwrites the handle at l. */
    method SetHandle(l: Loc, h: Handle)
      requires HasLoc(S(), l)
      modifies this`roots, this`blocks
      ensures S() == Write(old(S()), l, h)
    {
      match l
      case Root(name) => roots := roots[name := h];
      case Slot(b, i) => blocks := blocks[b := blocks[b].(cells := blocks[b].cells[i := h])];
    }

    /** Gives up the handle at l, and with the last reference the container it shared. */
    method DeleteValue(l: Loc, ghost v: Value, ghost holes: set<nat>)
      requires Deletable(S(), next, meaning, holes, l, v)
      modifies this`roots, this`blocks
      ensures Deleted(old(S()), S(), next, meaning, holes, l, v)
      decreases Size(v), 1
    {
      ghost var s0 := S();
      var h := At(S(), l);
      if !h.Shared? {
        ClearingDeletes(s0, next, meaning, holes, l, v);
        SetHandle(l, Nil);
      } else {
        DetachingPrepares(s0, next, meaning, holes, l, v);
        Detach(l, h.block);
        if blocks[h.block].count <= 0 {
          Dismantle(h.block, v, holes + Holder(l));
          FreeingDeletes(s0, S(), next, meaning, holes, l, v);
        } else {
          DetachingDeletes(s0, next, meaning, holes, l, v);
        }
      }
    }

    /** The handle at l stops counting. */
    method Detach(l: Loc, b: nat)
      requires HasLoc(S(), l) && At(S(), l) == Shared(b) && b in blocks
      modifies this`roots, this`blocks
      ensures S() == Unrefer(old(S()), l)
    {
      blocks := blocks[b := blocks[b].(count := blocks[b].count - 1)];
      SetHandle(l, Nil);
    }

    /** Destroys the elements of a container one by one, then the container. */
    method Dismantle(b: nat, ghost v: Value, ghost holes: set<nat>)
      requires Sound(holes) && b in blocks && blocks[b].count == 0 && b !in holes
      requires v.Node? && v.children == CellValues(meaning, blocks[b].cells)
      requires LargerThan(S(), meaning, holes, Size(v))
      modifies this`roots, this`blocks
      ensures Dismantled(old(S()), S(), next, meaning, holes, b, v)
      decreases Size(v), 0
    {
      hide Tidy, Coherent, Pruned, FreedBelow, LargerThan;
      ghost var s0 := S();
      DismantlingStarts(s0, next, meaning, holes, b, v);
      var i := 0;
      var n := |blocks[b].cells|;
      while i < n
        invariant 0 <= i <= n && n == |s0.blocks[b].cells|
        invariant Dismantling(s0, S(), next, meaning, holes, b, v, i)
      {
        ghost var s1 := S();
        NextElement(s0, s1, next, meaning, holes, b, v, i);
        DeleteValue(Slot(b, i), v.children[i], holes);
        OneMoreFreed(s0, s1, S(), next, meaning, holes, b, v, i);
        i := i + 1;
      }
      AllFreed(s0, S(), next, meaning, holes, b, v);
      blocks := blocks - {b};
    }

    /** Puts a copy of h into the empty handle at l: containers are shared and counted. */
    method CopyInto(l: Loc, h: Handle)
      requires HasLoc(S(), l) && (h.Shared? ==> h.block in blocks)
      modifies this`roots, this`blocks
      ensures S() == Copied(old(S()), l, h)
    {
      if h.Shared? {
        blocks := blocks[h.block := blocks[h.block].(count := blocks[h.block].count + 1)];
      }
      SetHandle(l, h);
    }

    /** A container of its own for the handle at l, counted once, with n empty elements. */
    method NewContainer(l: Loc, shape: Shape, n: nat)
      requires HasLoc(S(), l) && next !in blocks
      modifies this`roots, this`blocks, this`next
      ensures S() == Fresh(old(S()), l, old(next), shape, n) && next == old(next) + 1
    {
      blocks := blocks[next := Block(1, shape, seq(n, _ => Nil))];
      SetHandle(l, Shared(next));
      next := next + 1;
    }

    /** Copies the elements of container b one by one into the empty container id. */
    method CopyElements(b: nat, id: nat, l: Loc, ghost s0: Store)
      requires Closed(s0) && b !in Holder(l) && Copying(s0, S(), b, id, l, 0) && Tidy(S(), next)
      modifies this`roots, this`blocks
      ensures Copying(s0, S(), b, id, l, |s0.blocks[b].cells|) && Tidy(S(), next)
    {
      hide Tidy;
      var i := 0;
      while i < |blocks[b].cells|
        invariant 0 <= i <= |s0.blocks[b].cells|
        invariant Tidy(S(), next) && Copying(s0, S(), b, id, l, i)
      {
        CopyStep(s0, S(), next, b, id, l, i);
        CopyInto(Slot(id, i), blocks[b].cells[i]);
        i := i + 1;
      }
    }

    /** The handle at l leaves container b to the others and gets an empty one of the same size. */
    method Separate(l: Loc, b: nat)
      requires HasLoc(S(), l) && At(S(), l) == Shared(b) && b in blocks && next !in blocks
      modifies this`roots, this`blocks, this`next
      ensures S() == Separated(old(S()), l, b, old(next)) && next == old(next) + 1
    {
      var shape, n := blocks[b].shape, |blocks[b].cells|;
      Detach(l, b);
      NewContainer(l, shape, n);
    }

    /** The handle at l gets a container that no other handle shares; no value changes. */
    method MakeMutable(l: Loc, ghost name: string, ghost path: seq<nat>)
      requires Valid() && Mine(l, name, path) && At(S(), l).Shared? && At(S(), l).block in blocks
      modifies this
      ensures Unshared(old(S()), S(), next, old(meaning), meaning, name, path, l)
    {
      hide Tidy, Coherent, Separated, Unshared;
      ghost var s0 := S();
      ghost var m0 := meaning;
      var b := At(S(), l).block;
      if blocks[b].count > 1 {
        var id := next;
        SeparationStarts(s0, next, m0, name, path, b, l);
        Separate(l, b);
        CopyElements(b, id, l, s0);
        ghost var s1 := S();
        CopyingUnshares(s0, s1, id, m0, b, id, name, path, l);
        meaning := m0[id := m0[b]];
        assert S() == s1;
      } else {
        AlreadyUnshared(s0, next, m0, name, path, l);
      }
    }

    /** Assignment. Neither handle may be inside the other. */
    method Assign(l: Loc, src: Loc, ghost name: string, ghost path: seq<nat>, ghost from: string, ghost fromPath: seq<nat>)
      requires Valid() && Mine(l, name, path) && Follow(S(), from, fromPath) == Some(src)
      requires l !in Trail(S(), from, fromPath) && src !in Trail(S(), name, path)
      modifies this
      ensures Valid() && Mine(l, name, path)
      ensures Env() == old(Env())[name := Replace(old(Env())[name], path, old(ValueAt(src)))]
    {
      hide Tidy, Coherent, Pruned, FreedBelow, Replace, Trail;
      ghost var s0 := S();
      DeleteValue(l, ValueAt(l), {});
      ghost var s1 := S();
      SourceIsThere(s0, s1, next, meaning, l, src, from, fromPath);
      var h := At(S(), src);
      CopyInto(l, h);
      meaning := AssignmentCopiesValue(s0, s1, S(), next, meaning, name, path, l, src, from, fromPath);
    }

    lemma TypeIsTypeOfValue(l: Loc)
      requires Valid() && HasLoc(S(), l)
      ensures At(S(), l).Shared? ==>
        var b := At(S(), l).block;
        && b in blocks && Coheres(S(), meaning, b) && ShapeFits(blocks[b])
        && ValueAt(l) == Node(blocks[b].shape, CellValues(meaning, blocks[b].cells))
      ensures TypeAt(l) == TypeOf(ValueAt(l))
    {
      hide Exact;
      if At(S(), l).Shared? {
        assert Coheres(S(), meaning, At(S(), l).block);
      }
    }

    /** Adds empty elements to a container that only the handle at l refers to. */
    method Grow(l: Loc, b: nat, shape: Shape, extra: nat, ghost name: string, ghost path: seq<nat>)
      requires Valid() && Mine(l, name, path) && At(S(), l) == Shared(b) && b in blocks && blocks[b].count == 1
      requires ShapeFits(Block(0, shape, blocks[b].cells + seq(extra, _ => Nil)))
      modifies this
      ensures Valid() && Mine(l, name, path) && At(S(), l) == Shared(b) && b in blocks && blocks[b].count == 1
      ensures blocks == Grown(old(S()), b, shape, extra).blocks && old(ValueAt(l)).Node?
      ensures Env() == old(Env())[name := Replace(old(Env())[name], path,
        Node(shape, old(ValueAt(l)).children + NilValues(extra)))]
    {
      hide Tidy, Coherent, Owned, Replace;
      ghost var s0 := S();
      ghost var n := GrowthReachesVariable(s0, next, meaning, name, path, l, b, shape, extra);
      blocks := blocks[b := Block(blocks[b].count, shape, blocks[b].cells + seq(extra, _ => Nil))];
      assert S() == Grown(s0, b, shape, extra);
      meaning := n;
    }

    /** Owning an unshared container means owning its elements. */
    lemma ElementIsMine(l: Loc, b: nat, i: nat, name: string, path: seq<nat>)
      requires Mine(l, name, path) && At(S(), l) == Shared(b) && b in blocks && blocks[b].count == 1
      requires i < |blocks[b].cells|
      ensures Mine(Slot(b, i), name, path + [i])
    {
      assert Init(path + [i]) == path && Last(path + [i]) == i;
    }

    lemma NothingReplaced(l: Loc, name: string, path: seq<nat>)
      requires Valid() && Mine(l, name, path)
      ensures name in Env() && Env() == Env()[name := Replace(Env()[name], path, ValueAt(l))]
    {
      TrailCoheres(S(), meaning, name, path, {});
      ValueAtPath(S(), meaning, name, path);
      ReplaceWithSame(Env()[name], path);
    }

    lemma ValueIsPart(l: Loc, name: string, path: seq<nat>)
      requires Valid() && Mine(l, name, path)
      ensures name in Env() && HasPart(Env()[name], path) && ValueAt(l) == Part(Env()[name], path)
    {
      TrailCoheres(S(), meaning, name, path, {});
      ValueAtPath(S(), meaning, name, path);
    }

    lemma WellShapedValue(l: Loc)
      requires Valid() && HasLoc(S(), l)
      ensures KeysFit(ValueAt(l))
    {
      TypeIsTypeOfValue(l);
    }

    lemma RootIsMine(name: string)
      requires name in Env()
      ensures name in roots && Mine(Root(name), name, [])
    {
    }

    method ElementOfOwn(l: Loc, b: nat, i: int, ghost name: string, ghost path: seq<nat>) returns (r: Result<Loc>)
      requires Valid() && Mine(l, name, path) && At(S(), l) == Shared(b) && b in blocks && blocks[b].count == 1
      requires blocks[b].shape == ArrayShape
      modifies this
      ensures Valid() && Mine(l, name, path)
      ensures ElementFound(old(Env()), Env(), name, path, i, old(ValueAt(l)), r)
      ensures r.Ok? ==> i >= 0 && Mine(r.value, name, path + [i])
    {
      hide Tidy, Coherent, Owned, Replace, Follow;
      TypeIsTypeOfValue(l);
      NothingReplaced(l, name, path);
      var n := |blocks[b].cells|;
      if i < 0 {
        return IndexOutOfBounds(i, n);
      }
      if n <= i {
        Grow(l, b, ArrayShape, i + 1 - n, name, path);
      }
      ElementIsMine(l, b, i, name, path);
      r := Ok(Slot(b, i));
    }

    /** The element reference `array[i]`, through which the element can be changed. */
    method Element(l: Loc, i: int, ghost name: string, ghost path: seq<nat>) returns (r: Result<Loc>)
      requires Valid() && Mine(l, name, path)
      modifies this
      ensures Valid() && Mine(l, name, path)
      ensures ElementFound(old(Env()), Env(), name, path, i, old(ValueAt(l)), r)
      ensures r.Ok? ==> i >= 0 && Mine(r.value, name, path + [i])
    {
      hide Tidy, Coherent, Owned, Replace;
      TypeIsTypeOfValue(l);
      if TypeAt(l) != ArrayType {
        return WrongType(ArrayType, TypeAt(l));
      }
      MakeMutable(l, name, path);
      r := ElementOfOwn(l, At(S(), l).block, i, name, path);
    }

    method EntryOfOwn(l: Loc, b: nat, key: string, ghost name: string, ghost path: seq<nat>) returns (r: Result<Loc>)
      requires Valid() && Mine(l, name, path) && At(S(), l) == Shared(b) && b in blocks && blocks[b].count == 1
      requires blocks[b].shape.TableShape?
      modifies this
      ensures Valid() && Mine(l, name, path)
      ensures EntryFound(old(Env()), Env(), name, path, key, old(ValueAt(l)), r)
      ensures r.Ok? ==> Mine(r.value, name, path + [EntryPosition(old(ValueAt(l)), key)])
    {
      hide Tidy, Coherent, Owned, Replace;
      TypeIsTypeOfValue(l);
      NothingReplaced(l, name, path);
      var keys := blocks[b].shape.keys;
      var i := Position(keys, key);
      if i == |keys| {
        KeyIsNew(keys, key);
        assert NilValues(1) == [NilValue];
        Grow(l, b, TableShape(keys + [key]), 1, name, path);
      } else {
        assert key in keys;
      }
      ElementIsMine(l, b, i, name, path);
      r := Ok(Slot(b, i));
    }

    /** The element reference `table[key]`, through which the element can be changed. */
    method Entry(l: Loc, key: string, ghost name: string, ghost path: seq<nat>) returns (r: Result<Loc>)
      requires Valid() && Mine(l, name, path)
      modifies this
      ensures Valid() && Mine(l, name, path)
      ensures EntryFound(old(Env()), Env(), name, path, key, old(ValueAt(l)), r)
      ensures r.Ok? ==> Mine(r.value, name, path + [EntryPosition(old(ValueAt(l)), key)])
    {
      hide Tidy, Coherent, Owned, Replace;
      TypeIsTypeOfValue(l);
      if TypeAt(l) != TableType {
        return WrongType(TableType, TypeAt(l));
      }
      MakeMutable(l, name, path);
      r := EntryOfOwn(l, At(S(), l).block, key, name, path);
    }

    method AppendToOwn(l: Loc, b: nat, src: Loc, ghost name: string, ghost path: seq<nat>)
      requires Valid() && Mine(l, name, path) && At(S(), l) == Shared(b) && b in blocks && blocks[b].count == 1
      requires blocks[b].shape == ArrayShape && HasLoc(S(), src) && src !in Trail(S(), name, path)
      modifies this
      ensures Valid() && Mine(l, name, path)
      ensures Appended(old(Env()), Env(), name, path, old(ValueAt(l)), old(ValueAt(src)))
    {
      hide Tidy, Coherent, Owned, Replace, Trail, EnvOf, Follow, HandleValue;
      ghost var s0 := S();
      TypeIsTypeOfValue(l);
      NothingReplaced(l, name, path);
      ghost var m := AppendReachesVariable(s0, next, meaning, name, path, l, b, src);
      var h := At(S(), src);
      var n := |blocks[b].cells|;
      blocks := blocks[b := Block(blocks[b].count, blocks[b].shape, blocks[b].cells + seq(1, _ => Nil))];
      assert S() == Grown(s0, b, s0.blocks[b].shape, 1);
      CopyInto(Slot(b, n), h);
      assert S() == Pushed(s0, b, h);
      meaning := m;
    }

    /** `array.append(value)`. The value may be anywhere but in the array's own handle or in one of the
        handles the array is inside of. */
    method Append(l: Loc, src: Loc, ghost name: string, ghost path: seq<nat>) returns (r: Result<()>)
      requires Valid() && Mine(l, name, path) && HasLoc(S(), src) && src !in Trail(S(), name, path)
      modifies this
      ensures Valid() && Mine(l, name, path)
      ensures var v := old(ValueAt(l));
        if TypeOf(v) != ArrayType then r == WrongType(ArrayType, TypeOf(v)) && Env() == old(Env())
        else r == Ok(()) && Appended(old(Env()), Env(), name, path, v, old(ValueAt(src)))
    {
      hide Tidy, Coherent, Owned, Replace, Appended;
      TypeIsTypeOfValue(l);
      if TypeAt(l) != ArrayType {
        return WrongType(ArrayType, TypeAt(l));
      }
      MakeMutable(l, name, path);
      AppendToOwn(l, At(S(), l).block, src, name, path);
      r := Ok(());
    }

    // ----- Reading -----

    /** `array[i]` of a constant array: an element that is there, and nothing is copied. */
    method ConstElement(l: Loc, i: int) returns (r: Result<Loc>)
      requires Valid() && HasLoc(S(), l)
      ensures r.Ok? ==> HasLoc(S(), r.value) && At(S(), l).Shared? && i >= 0 && r.value == Slot(At(S(), l).block, i)
      ensures ReadElement(ValueAt(l), i) == if r.Ok? then Ok(ValueAt(r.value)) else Failure(r)
    {
      hide Tidy, Coherent;
      TypeIsTypeOfValue(l);
      if TypeAt(l) != ArrayType {
        return WrongType(ArrayType, TypeAt(l));
      }
      var b := At(S(), l).block;
      if |blocks[b].cells| <= i || i < 0 {
        return IndexOutOfBounds(i, |blocks[b].cells|);
      }
      r := Ok(Slot(b, i));
    }

    /** `table[key]` of a constant table. */
    method ConstEntry(l: Loc, key: string) returns (r: Result<Loc>)
      requires Valid() && HasLoc(S(), l)
      ensures r.Ok? ==>
        && HasLoc(S(), r.value) && At(S(), l).Shared? && ValueAt(l).Node? && ValueAt(l).shape.TableShape?
        && r.value == Slot(At(S(), l).block, Position(ValueAt(l).shape.keys, key))
      ensures ReadEntry(ValueAt(l), key) == if r.Ok? then Ok(ValueAt(r.value)) else Failure(r)
    {
      hide Tidy, Coherent;
      TypeIsTypeOfValue(l);
      if TypeAt(l) != TableType {
        return WrongType(TableType, TypeAt(l));
      }
      var b := At(S(), l).block;
      var i := Position(blocks[b].shape.keys, key);
      if i == |blocks[b].shape.keys| {
        return KeyNotFound(key);
      }
      r := Ok(Slot(b, i));
    }

    // ----- Variables -----

    /** A new variable, empty as the default constructor leaves it. */
    method Declare(name: string)
      requires Valid() && name !in roots
      modifies this
      ensures Valid() && Env() == old(Env())[name := NilValue] && roots == old(roots)[name := Nil]
    {
      NewRootIsWhole(S(), next, meaning, name);
      roots := roots[name := Nil];
    }

    /** A new variable with a value of its own. */
    method DeclarePlain(name: string, p: Plain)
      requires Valid() && name !in roots
      modifies this
      ensures Valid() && Env() == old(Env())[name := PlainValue(p)]
    {
      Declare(name);
      PlainValueIsSet(S(), next, meaning, name, p);
      SetHandle(Root(name), Single(p));
    }

    /** A new variable with an empty array or table. */
    method DeclareContainer(name: string, shape: Shape)
      requires Valid() && name !in roots && (shape == ArrayShape || shape == TableShape([]))
      modifies this
      ensures Valid() && Env() == old(Env())[name := Node(shape, [])]
    {
      hide Tidy, Coherent, EnvOf, HandleValue;
      Declare(name);
      ghost var s0 := S();
      EmptyContainerIsSet(s0, next, meaning, name, shape);
      ghost var m := meaning[next := Node(shape, [])];
      NewContainer(Root(name), shape, 0);
      meaning := m;
    }

    /** The end of a variable. */
    method Destroy(name: string)
      requires Valid() && name in roots
      modifies this
      ensures Valid() && Env() == old(Env()) - {name}
    {
      hide Tidy, Coherent, Pruned, FreedBelow;
      ghost var s0 := S();
      DeleteValue(Root(name), ValueAt(Root(name)), {});
      DestroyedRootIsGone(s0, S(), next, meaning, name);
      roots := roots - {name};
    }
  }
}
