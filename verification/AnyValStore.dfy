/** The memory behind AnyVal handles: counted blocks of elements, shared between handles. */
module AnyValStore {
  datatype Option<T> = None | Some(value: T)

  /** The values a handle keeps for itself; copying a handle copies them. */
  datatype Plain =
    | Number(number: real)
    | Boolean(truth: bool)
    | Text(text: string)
    | Geometry(kind: nat, components: seq<real>)

  /** What a shared block holds: an array, or a table with one distinct key for each element. */
  datatype Shape = ArrayShape | TableShape(keys: seq<string>)

  datatype Handle = Nil | Single(plain: Plain) | Shared(block: nat)

  /** The container a handle points to, together with the counter that travels with it. */
  datatype Block = Block(count: int, shape: Shape, cells: seq<Handle>)

  /** `roots` are the program's AnyVal variables, `blocks` the containers on the heap. */
  datatype Store = Store(roots: map<string, Handle>, blocks: map<nat, Block>)

  /** Where a handle lives: in a variable or in an element of a container. */
  datatype Loc = Root(name: string) | Slot(block: nat, index: nat)

  predicate HasLoc(s: Store, l: Loc) {
    match l
    case Root(name) => name in s.roots
    case Slot(b, i) => b in s.blocks && i < |s.blocks[b].cells|
  }

  function At(s: Store, l: Loc): Handle
    requires HasLoc(s, l)
  {
    match l
    case Root(name) => s.roots[name]
    case Slot(b, i) => s.blocks[b].cells[i]
  }

  function Write(s: Store, l: Loc, h: Handle): (t: Store)
    requires HasLoc(s, l)
    ensures forall k :: HasLoc(t, k) <==> HasLoc(s, k)
    ensures forall k :: HasLoc(s, k) ==> At(t, k) == if k == l then h else At(s, k)
  {
    match l
    case Root(name) => s.(roots := s.roots[name := h])
    case Slot(b, i) => s.(blocks := s.blocks[b := s.blocks[b].(cells := s.blocks[b].cells[i := h])])
  }

  function Bump(s: Store, b: nat, change: int): (t: Store)
    requires b in s.blocks
    ensures forall k :: HasLoc(t, k) <==> HasLoc(s, k)
    ensures forall k :: HasLoc(s, k) ==> At(t, k) == At(s, k)
  {
    s.(blocks := s.blocks[b := s.blocks[b].(count := s.blocks[b].count + change)])
  }

  // ----- Reference counts -----

  function Locs(s: Store): set<Loc> {
    (set n | n in s.roots :: Root(n))
    + (set b, i | b in s.blocks && 0 <= i < |s.blocks[b].cells| :: Slot(b, i))
  }

  lemma LocsAreLocs(s: Store)
    ensures forall l :: l in Locs(s) <==> HasLoc(s, l)
  {
  }

  /** The handles that share block b. */
  function Referrers(s: Store, b: nat): set<Loc> {
    set l | l in Locs(s) && HasLoc(s, l) && At(s, l) == Shared(b)
  }

  ghost predicate Exact(s: Store) {
    forall b :: b in s.blocks ==> s.blocks[b].count == |Referrers(s, b)|
  }

  /** No handle dangles. */
  ghost predicate Closed(s: Store) {
    forall l :: HasLoc(s, l) && At(s, l).Shared? ==> At(s, l).block in s.blocks
  }

  predicate DistinctKeys(keys: seq<string>) {
    forall i, j :: 0 <= i < j < |keys| ==> keys[i] != keys[j]
  }

  predicate ShapeFits(b: Block) {
    b.shape.TableShape? ==> |b.shape.keys| == |b.cells| && DistinctKeys(b.shape.keys)
  }

  ghost predicate ShapesFit(s: Store) {
    forall b :: b in s.blocks ==> ShapeFits(s.blocks[b])
  }

  /** Two stores in which the same handles refer to b. */
  lemma SameReferrers(s: Store, t: Store, b: nat)
    requires forall l :: (HasLoc(s, l) && At(s, l) == Shared(b)) <==> (HasLoc(t, l) && At(t, l) == Shared(b))
    ensures Referrers(s, b) == Referrers(t, b)
  {
    LocsAreLocs(s);
    LocsAreLocs(t);
  }

  lemma WriteReferrers(s: Store, l: Loc, h: Handle, b: nat)
    requires HasLoc(s, l)
    ensures Referrers(Write(s, l, h), b)
      == Referrers(s, b) - {l} + (if h == Shared(b) then {l} else {})
  {
    LocsAreLocs(s);
    LocsAreLocs(Write(s, l, h));
  }

  /** The same variables and containers of the same sizes; only the count of b changed. */
  predicate SameFrame(s: Store, t: Store, b: nat, change: int) {
    t.roots.Keys == s.roots.Keys && t.blocks.Keys == s.blocks.Keys
    && forall c :: c in s.blocks ==>
      && t.blocks[c].shape == s.blocks[c].shape && |t.blocks[c].cells| == |s.blocks[c].cells|
      && t.blocks[c].count == s.blocks[c].count + if c == b then change else 0
  }

  /** A handle that stops referring and gives its count back. */
  function Unrefer(s: Store, l: Loc): (t: Store)
    requires HasLoc(s, l) && At(s, l).Shared? && At(s, l).block in s.blocks
    ensures SameFrame(s, t, At(s, l).block, -1)
  {
    Write(Bump(s, At(s, l).block, -1), l, Nil)
  }

  /** An empty handle that starts to refer and is counted. */
  function Refer(s: Store, l: Loc, b: nat): (t: Store)
    requires HasLoc(s, l) && b in s.blocks
    ensures SameFrame(s, t, b, 1)
  {
    Write(Bump(s, b, 1), l, Shared(b))
  }

  lemma UnreferReferrers(s: Store, l: Loc, c: nat)
    requires HasLoc(s, l) && At(s, l).Shared? && At(s, l).block in s.blocks
    ensures Referrers(Unrefer(s, l), c) == Referrers(s, c) - {l}
    ensures l in Referrers(s, c) <==> c == At(s, l).block
  {
    var t := Bump(s, At(s, l).block, -1);
    SameReferrers(s, t, c);
    WriteReferrers(t, l, Nil, c);
    LocsAreLocs(s);
  }

  lemma UnreferIsExact(s: Store, l: Loc)
    requires HasLoc(s, l) && At(s, l).Shared? && Exact(s) && Closed(s)
    ensures Exact(Unrefer(s, l)) && Closed(Unrefer(s, l))
  {
    forall c | c in s.blocks ensures Unrefer(s, l).blocks[c].count == |Referrers(Unrefer(s, l), c)| {
      UnreferReferrers(s, l, c);
    }
  }

  lemma ReferReferrers(s: Store, l: Loc, b: nat, c: nat)
    requires HasLoc(s, l) && !At(s, l).Shared? && b in s.blocks
    ensures Referrers(Refer(s, l, b), c) == Referrers(s, c) + (if c == b then {l} else {})
    ensures l !in Referrers(s, c)
  {
    var t := Bump(s, b, 1);
    SameReferrers(s, t, c);
    WriteReferrers(t, l, Shared(b), c);
  }

  lemma ReferIsExact(s: Store, l: Loc, b: nat)
    requires HasLoc(s, l) && !At(s, l).Shared? && b in s.blocks && Exact(s) && Closed(s)
    ensures Exact(Refer(s, l, b)) && Closed(Refer(s, l, b))
  {
    forall c | c in s.blocks ensures Refer(s, l, b).blocks[c].count == |Referrers(Refer(s, l, b), c)| {
      ReferReferrers(s, l, b, c);
    }
  }

  /** Overwriting one uncounted handle by another leaves every count exact. */
  lemma PlainWriteIsExact(s: Store, l: Loc, h: Handle)
    requires HasLoc(s, l) && !At(s, l).Shared? && !h.Shared? && Exact(s) && Closed(s)
    ensures Exact(Write(s, l, h)) && Closed(Write(s, l, h))
  {
    forall c | c in s.blocks ensures Write(s, l, h).blocks[c].count == |Referrers(Write(s, l, h), c)| {
      WriteReferrers(s, l, h, c);
      assert l !in Referrers(s, c);
    }
  }

  /** The only handle on a block whose count is one. */
  lemma SoleReferrer(s: Store, b: nat, l: Loc)
    requires Exact(s) && b in s.blocks && s.blocks[b].count == 1
    requires HasLoc(s, l) && At(s, l) == Shared(b)
    ensures Referrers(s, b) == {l}
    ensures forall k :: HasLoc(s, k) && At(s, k) == Shared(b) ==> k == l
  {
    LocsAreLocs(s);
    assert l in Referrers(s, b);
    assert |Referrers(s, b) - {l}| == 0;
    assert Referrers(s, b) == {l};
    forall k | HasLoc(s, k) && At(s, k) == Shared(b) ensures k == l {
      assert k in Referrers(s, b);
    }
  }

  lemma UnreferredMeansNone(s: Store, b: nat)
    requires Exact(s) && b in s.blocks && s.blocks[b].count == 0
    ensures forall k :: HasLoc(s, k) ==> At(s, k) != Shared(b)
  {
    LocsAreLocs(s);
    assert Referrers(s, b) == {};
    forall k | HasLoc(s, k) ensures At(s, k) != Shared(b) {
      assert k in Referrers(s, b) <==> At(s, k) == Shared(b);
    }
  }

  // ----- Deep values -----

  datatype Value = NilValue | PlainValue(plain: Plain) | Node(shape: Shape, children: seq<Value>)

  type Meaning = map<nat, Value>

  function HandleValue(m: Meaning, h: Handle): Value {
    match h
    case Nil => NilValue
    case Single(p) => PlainValue(p)
    case Shared(b) => if b in m then m[b] else NilValue
  }

  function CellValues(m: Meaning, cells: seq<Handle>): seq<Value> {
    seq(|cells|, i requires 0 <= i < |cells| => HandleValue(m, cells[i]))
  }

  predicate Coheres(s: Store, m: Meaning, b: nat)
    requires b in s.blocks
  {
    b in m && m[b] == Node(s.blocks[b].shape, CellValues(m, s.blocks[b].cells))
  }

  /** m gives every referenced block, except those in `holes`, the deep value its elements make up.
      Values are finite trees, so such an m exists only when no block contains itself. */
  ghost predicate Coherent(s: Store, m: Meaning, holes: set<nat>) {
    forall b :: b in s.blocks && s.blocks[b].count > 0 && b !in holes ==> Coheres(s, m, b)
  }

  function Size(v: Value): (n: nat)
    ensures n > 0
  {
    if v.Node? then 1 + SumSizes(v.children) else 1
  }

  function SumSizes(vs: seq<Value>): nat {
    if vs == [] then 0 else Size(vs[0]) + SumSizes(vs[1..])
  }

  lemma {:induction false} ChildIsSmaller(vs: seq<Value>, i: nat)
    requires i < |vs|
    ensures Size(vs[i]) <= SumSizes(vs)
    decreases i
  {
    if i > 0 {
      ChildIsSmaller(vs[1..], i - 1);
    }
  }

  lemma ElementIsSmaller(s: Store, m: Meaning, b: nat, i: nat)
    requires b in s.blocks && Coheres(s, m, b) && i < |s.blocks[b].cells|
    ensures Size(HandleValue(m, s.blocks[b].cells[i])) < Size(m[b])
  {
    ChildIsSmaller(m[b].children, i);
  }

  /** A store determines its deep values: any two coherent readings agree on every referenced block. */
  lemma {:induction false} ReadingIsUnique(s: Store, m: Meaning, n: Meaning, b: nat)
    requires Closed(s) && Exact(s) && Coherent(s, m, {}) && Coherent(s, n, {})
    requires b in s.blocks && s.blocks[b].count > 0
    ensures m[b] == n[b]
    decreases Size(m[b])
  {
    var cells := s.blocks[b].cells;
    forall i | 0 <= i < |cells| ensures HandleValue(m, cells[i]) == HandleValue(n, cells[i]) {
      if cells[i].Shared? {
        ReferredIsCounted(s, Slot(b, i));
        ElementIsSmaller(s, m, b, i);
        ReadingIsUnique(s, m, n, cells[i].block);
      }
    }
    assert CellValues(m, cells) == CellValues(n, cells);
  }

  lemma ReferredIsCounted(s: Store, l: Loc)
    requires Closed(s) && Exact(s) && HasLoc(s, l) && At(s, l).Shared?
    ensures At(s, l).block in s.blocks && s.blocks[At(s, l).block].count > 0
  {
    LocsAreLocs(s);
    assert l in Referrers(s, At(s, l).block);
  }

  /** A chain of containers, each holding the next one. */
  predicate Chain(s: Store, chain: seq<Loc>, first: nat, last: nat) {
    if chain == [] then first == last
    else
      chain[0].Slot? && chain[0].block == first && HasLoc(s, chain[0])
      && At(s, chain[0]).Shared? && Chain(s, chain[1..], At(s, chain[0]).block, last)
  }

  lemma {:induction false} ChainShrinks(s: Store, m: Meaning, chain: seq<Loc>, first: nat, last: nat)
    requires Closed(s) && Exact(s) && Coherent(s, m, {}) && Chain(s, chain, first, last)
    requires first in s.blocks && s.blocks[first].count > 0
    ensures last in s.blocks && s.blocks[last].count > 0
    ensures Size(m[last]) <= Size(m[first]) && (chain != [] ==> Size(m[last]) < Size(m[first]))
    decreases |chain|
  {
    if chain != [] {
      ReferredIsCounted(s, chain[0]);
      ElementIsSmaller(s, m, first, chain[0].index);
      ChainShrinks(s, m, chain[1..], At(s, chain[0]).block, last);
    }
  }

  /** Sharing never closes a cycle. */
  lemma NoCycle(s: Store, m: Meaning, chain: seq<Loc>, b: nat)
    requires Closed(s) && Exact(s) && Coherent(s, m, {})
    requires b in s.blocks && s.blocks[b].count > 0 && chain != []
    ensures !Chain(s, chain, b, b)
  {
    if Chain(s, chain, b, b) {
      ChainShrinks(s, m, chain, b, b);
    }
  }

  // ----- Paths -----

  function Init<T>(p: seq<T>): seq<T>
    requires p != []
  {
    p[..|p| - 1]
  }

  function Last<T>(p: seq<T>): T
    requires p != []
  {
    p[|p| - 1]
  }

  /** The handle reached from a variable by taking elements at the given positions. */
  function Follow(s: Store, name: string, path: seq<nat>): (r: Option<Loc>)
    ensures r.Some? ==> HasLoc(s, r.value) && name in s.roots
  {
    if path == [] then if name in s.roots then Some(Root(name)) else None
    else
      match Follow(s, name, Init(path))
      case None => None
      case Some(l) =>
        match At(s, l)
        case Shared(b) =>
          if b in s.blocks && Last(path) < |s.blocks[b].cells| then Some(Slot(b, Last(path))) else None
        case _ => None
  }

  /** The handle itself and the handles of the containers it is inside of. */
  function Trail(s: Store, name: string, path: seq<nat>): (r: set<Loc>)
    requires Follow(s, name, path).Some?
    ensures forall l :: l in r ==> HasLoc(s, l)
  {
    {Follow(s, name, path).value} + if path == [] then {} else Trail(s, name, Init(path))
  }

  /** The containers passed on the way. */
  function TrailBlocks(s: Store, name: string, path: seq<nat>): set<nat>
    requires Follow(s, name, path).Some?
  {
    if path == [] then {} else {Follow(s, name, path).value.block} + TrailBlocks(s, name, Init(path))
  }

  /** Nobody shares the containers passed on the way: what a mutable element reference promises. */
  predicate Owned(s: Store, name: string, path: seq<nat>) {
    Follow(s, name, path).Some?
    && (path != [] ==> Owned(s, name, Init(path)) && s.blocks[Follow(s, name, path).value.block].count == 1)
  }

  /** A shorter owned path never ends at the handle a longer one ends at. */
  lemma {:induction false} OwnedPathsDiffer(s: Store, name: string, p: seq<nat>, q: seq<nat>)
    requires Exact(s) && Owned(s, name, p) && Owned(s, name, q)
    requires Follow(s, name, p) == Follow(s, name, q)
    ensures |p| == |q|
    decreases |p|
  {
    if p != [] && q != [] {
      var b := Follow(s, name, p).value.block;
      SoleReferrer(s, b, Follow(s, name, Init(p)).value);
      OwnedPathsDiffer(s, name, Init(p), Init(q));
    }
  }

  lemma {:induction false} TrailIsPrefixes(s: Store, name: string, path: seq<nat>, l: Loc)
    requires Owned(s, name, path) && l in Trail(s, name, path)
    ensures exists k :: 0 <= k <= |path| && Owned(s, name, path[..k]) && Follow(s, name, path[..k]).value == l
    decreases |path|
  {
    if l == Follow(s, name, path).value {
      assert path[..|path|] == path;
    } else {
      TrailIsPrefixes(s, name, Init(path), l);
      var k :| 0 <= k <= |Init(path)| && Owned(s, name, Init(path)[..k]) && Follow(s, name, Init(path)[..k]).value == l;
      assert Init(path)[..k] == path[..k];
    }
  }

  /** An owned handle is not the handle of a container it is in. */
  lemma EndNotOnTheWay(s: Store, name: string, path: seq<nat>)
    requires Exact(s) && Owned(s, name, path) && path != []
    ensures Follow(s, name, path).value !in Trail(s, name, Init(path))
  {
    var l := Follow(s, name, path).value;
    if l in Trail(s, name, Init(path)) {
      TrailIsPrefixes(s, name, Init(path), l);
      var k :| 0 <= k <= |Init(path)| && Owned(s, name, Init(path)[..k]) && Follow(s, name, Init(path)[..k]).value == l;
      OwnedPathsDiffer(s, name, Init(path)[..k], path);
      assert false;
    }
  }

  /** Handles outside the trail do not refer to the containers on it. */
  lemma {:induction false} OffTrail(s: Store, name: string, path: seq<nat>, l: Loc)
    requires Exact(s) && Owned(s, name, path) && HasLoc(s, l)
    requires path != [] ==> l !in Trail(s, name, Init(path))
    requires At(s, l).Shared?
    ensures At(s, l).block !in TrailBlocks(s, name, path)
    decreases |path|
  {
    if path != [] {
      var b := Follow(s, name, path).value.block;
      SoleReferrer(s, b, Follow(s, name, Init(path)).value);
      OffTrail(s, name, Init(path), l);
    }
  }

  /** An owned path stays the same owned path when the handles passed keep their targets and no
      new handle refers to the containers passed. */
  lemma {:induction false} OwnedCarries(s: Store, t: Store, name: string, path: seq<nat>)
    requires Exact(s) && Exact(t) && Closed(t) && Owned(s, name, path) && name in t.roots
    requires forall b :: b in s.blocks && b in t.blocks ==> |s.blocks[b].cells| <= |t.blocks[b].cells|
    requires path != [] ==> forall l :: l in Trail(s, name, Init(path)) && HasLoc(t, l) ==> At(t, l) == At(s, l)
    requires forall l :: (HasLoc(t, l) && At(t, l).Shared? && At(t, l).block in TrailBlocks(s, name, path)
      ==> HasLoc(s, l) && At(s, l) == At(t, l))
    ensures Owned(t, name, path) && Follow(t, name, path) == Follow(s, name, path)
    ensures Trail(t, name, path) == Trail(s, name, path)
    ensures TrailBlocks(t, name, path) == TrailBlocks(s, name, path)
    decreases |path|
  {
    if path != [] {
      OwnedCarries(s, t, name, Init(path));
      var up := Follow(s, name, Init(path)).value;
      var b := Follow(s, name, path).value.block;
      assert HasLoc(t, up) && At(t, up) == Shared(b);
      SoleReferrer(s, b, up);
      LocsAreLocs(t);
      forall l | l in Referrers(t, b) ensures l == up {
      }
      assert Referrers(t, b) == {up};
    }
  }

  // ----- Values along a path -----

  function Child(v: Value, i: nat): Value {
    if v.Node? && i < |v.children| then v.children[i] else NilValue
  }

  function SetChild(v: Value, i: nat, w: Value): Value {
    if v.Node? && i < |v.children| then v.(children := v.children[i := w]) else v
  }

  /** The part of v found at a path, and v with that part replaced. */
  function Part(v: Value, path: seq<nat>): Value {
    if path == [] then v else Child(Part(v, Init(path)), Last(path))
  }

  function Replace(v: Value, path: seq<nat>, w: Value): Value {
    if path == [] then w
    else Replace(v, Init(path), SetChild(Part(v, Init(path)), Last(path), w))
  }

  predicate HasPart(v: Value, path: seq<nat>) {
    path == []
    || (HasPart(v, Init(path)) && var u := Part(v, Init(path)); u.Node? && Last(path) < |u.children|)
  }

  lemma {:induction false} ReplaceWithSame(v: Value, path: seq<nat>)
    ensures Replace(v, path, Part(v, path)) == v
    decreases |path|
  {
    if path != [] {
      var u := Part(v, Init(path));
      if u.Node? && Last(path) < |u.children| {
        assert u.children[Last(path) := u.children[Last(path)]] == u.children;
      }
      assert SetChild(u, Last(path), Part(v, path)) == u;
      ReplaceWithSame(v, Init(path));
    }
  }

  /** Replacement puts the new part where it was asked to. */
  lemma {:induction false} PartOfReplace(v: Value, path: seq<nat>, w: Value)
    requires HasPart(v, path)
    ensures HasPart(Replace(v, path, w), path) && Part(Replace(v, path, w), path) == w
    decreases |path|
  {
    if path != [] {
      PartOfReplace(v, Init(path), SetChild(Part(v, Init(path)), Last(path), w));
    }
  }

  /** A later replacement at the same place wins. */
  lemma {:induction false} ReplaceTwice(v: Value, path: seq<nat>, w: Value, x: Value)
    requires HasPart(v, path)
    ensures Replace(Replace(v, path, w), path, x) == Replace(v, path, x)
    decreases |path|
  {
    if path != [] {
      var p, i := Init(path), Last(path);
      var u := Part(v, p);
      var uw := SetChild(u, i, w);
      PartOfReplace(v, p, uw);
      ReplaceTwice(v, p, uw, SetChild(u, i, x));
      assert SetChild(uw, i, x) == SetChild(u, i, x);
    }
  }

  /** Replacement leaves everything alone that is neither inside the part nor around it. */
  lemma {:induction false} ReplaceIsLocal(v: Value, common: seq<nat>, i: nat, j: nat, below: seq<nat>, w: Value)
    requires i != j && HasPart(v, common + [i])
    ensures Part(Replace(v, common + [i], w), common + [j] + below) == Part(v, common + [j] + below)
    decreases |below|
  {
    if below == [] {
      assert Init(common + [i]) == common && common + [j] + below == common + [j];
      assert Init(common + [j]) == common;
      PartOfReplace(v, common, SetChild(Part(v, common), i, w));
    } else {
      assert Init(common + [j] + below) == common + [j] + Init(below);
      ReplaceIsLocal(v, common, i, j, Init(below), w);
    }
  }

  /** The value of a handle is the part of its variable's value found at its path. */
  lemma {:induction false} ValueAtPath(s: Store, m: Meaning, name: string, path: seq<nat>)
    requires Follow(s, name, path).Some?
    requires forall b :: b in TrailBlocks(s, name, path) && b in s.blocks ==> Coheres(s, m, b)
    ensures HasPart(HandleValue(m, s.roots[name]), path)
    ensures HandleValue(m, At(s, Follow(s, name, path).value)) == Part(HandleValue(m, s.roots[name]), path)
    decreases |path|
  {
    if path != [] {
      ValueAtPath(s, m, name, Init(path));
    }
  }

  lemma {:induction false} TrailSlots(s: Store, name: string, path: seq<nat>, l: Loc)
    requires Follow(s, name, path).Some? && l in Trail(s, name, path) && l.Slot?
    ensures l.block in TrailBlocks(s, name, path)
    decreases |path|
  {
    if path != [] && l != Follow(s, name, path).value {
      TrailSlots(s, name, Init(path), l);
    }
  }

  lemma {:induction false} OwnedBlocks(s: Store, name: string, path: seq<nat>, b: nat)
    requires Owned(s, name, path) && b in TrailBlocks(s, name, path)
    ensures b in s.blocks && s.blocks[b].count == 1
    decreases |path|
  {
    if path != [] && b != Follow(s, name, path).value.block {
      OwnedBlocks(s, name, Init(path), b);
    }
  }

  // ----- Carrying a change up to the variable -----

  /** The handle at the end of the path means w, and the containers passed still mean what they did
      before: m is coherent but for the innermost container. */
  ghost predicate ChangedBelow(s: Store, m: Meaning, name: string, path: seq<nat>, w: Value)
    requires Follow(s, name, path).Some?
  {
    var l := Follow(s, name, path).value;
    HandleValue(m, At(s, l)) == w
    && if path == [] then Coherent(s, m, {}) else
      var b := l.block;
      Coherent(s, m, {b}) && b in m && m[b].Node? && m[b].shape == s.blocks[b].shape
      && Last(path) < |m[b].children|
      && CellValues(m, s.blocks[b].cells) == m[b].children[Last(path) := w]
  }

  function Holder(l: Loc): set<nat> {
    if l.Slot? then {l.block} else {}
  }

  /** A new reading of block b is noticed only by the one handle that refers to it. */
  lemma RereadBlock(s: Store, m: Meaning, b: nat, up: Loc, v: Value)
    requires b in s.blocks && HasLoc(s, up) && At(s, up) == Shared(b) && b !in Holder(up)
    requires forall k :: HasLoc(s, k) && At(s, k) == Shared(b) ==> k == up
    requires Coherent(s, m, {b})
    requires v == Node(s.blocks[b].shape, CellValues(m, s.blocks[b].cells))
    ensures Coherent(s, m[b := v], Holder(up))
    ensures up.Slot? ==>
      CellValues(m[b := v], s.blocks[up.block].cells) == CellValues(m, s.blocks[up.block].cells)[up.index := v]
  {
    var n := m[b := v];
    forall c, i | c in s.blocks && 0 <= i < |s.blocks[c].cells| && Slot(c, i) != up
      ensures HandleValue(n, s.blocks[c].cells[i]) == HandleValue(m, s.blocks[c].cells[i])
    {
      assert HasLoc(s, Slot(c, i)) && At(s, Slot(c, i)) == s.blocks[c].cells[i];
    }
    forall c | c in s.blocks && c !in Holder(up)
      ensures CellValues(n, s.blocks[c].cells) == CellValues(m, s.blocks[c].cells)
    {
    }
  }

  /** The container an owned handle is in hangs on one handle, which lies outside of it. */
  lemma OneWayUp(s: Store, name: string, path: seq<nat>)
    requires Exact(s) && Owned(s, name, path) && path != []
    ensures var b, up := Follow(s, name, path).value.block, Follow(s, name, Init(path)).value;
      && b !in TrailBlocks(s, name, Init(path)) && b !in Holder(up)
      && forall k :: HasLoc(s, k) && At(s, k) == Shared(b) ==> k == up
  {
    var b, up := Follow(s, name, path).value.block, Follow(s, name, Init(path)).value;
    SoleReferrer(s, b, up);
    if Init(path) != [] {
      EndNotOnTheWay(s, name, Init(path));
    }
    OffTrail(s, name, Init(path), up);
  }

  /** One step up: the innermost container takes its new value, and the one around it becomes the
      innermost that does not know yet. */
  lemma RaiseStep(s: Store, m: Meaning, name: string, path: seq<nat>, w: Value) returns (n: Meaning)
    requires Exact(s) && Closed(s) && Owned(s, name, path) && path != []
    requires ChangedBelow(s, m, name, path, w)
    ensures var b := Follow(s, name, path).value.block;
      && b in m && n == m[b := SetChild(m[b], Last(path), w)]
      && b !in TrailBlocks(s, name, Init(path))
      && ChangedBelow(s, n, name, Init(path), n[b])
  {
    var b, up := Follow(s, name, path).value.block, Follow(s, name, Init(path)).value;
    n := m[b := SetChild(m[b], Last(path), w)];
    OneWayUp(s, name, path);
    RereadBlock(s, m, b, up, n[b]);
    if up.Slot? {
      assert Coheres(s, m, up.block) by { OwnedBlocks(s, name, Init(path), up.block); }
    }
  }

  lemma TrailCoheres(s: Store, m: Meaning, name: string, path: seq<nat>, holes: set<nat>)
    requires Owned(s, name, path) && Coherent(s, m, holes) && TrailBlocks(s, name, path) !! holes
    ensures forall c :: c in TrailBlocks(s, name, path) ==> c in s.blocks && Coheres(s, m, c)
  {
    forall c | c in TrailBlocks(s, name, path) ensures c in s.blocks && Coheres(s, m, c) {
      OwnedBlocks(s, name, path, c);
    }
  }

  /** A change of one owned handle reaches its variable as the replacement of that part. */
  lemma {:induction false} Raise(s: Store, m: Meaning, name: string, path: seq<nat>, w: Value) returns (n: Meaning)
    requires Exact(s) && Closed(s) && Owned(s, name, path)
    requires ChangedBelow(s, m, name, path, w)
    ensures Coherent(s, n, {})
    ensures forall h: Handle :: (h.Shared? ==> h.block !in TrailBlocks(s, name, path)) ==> HandleValue(n, h) == HandleValue(m, h)
    ensures path == [] ==> n == m
    ensures path != [] ==> HandleValue(n, s.roots[name]) == Replace(HandleValue(m, s.roots[name]), path, w)
    decreases |path|
  {
    n := m;
    if path != [] {
      var b := Follow(s, name, path).value.block;
      var m1 := RaiseStep(s, m, name, path, w);
      n := Raise(s, m1, name, Init(path), m1[b]);
      TrailCoheres(s, m, name, Init(path), {b});
      ValueAtPath(s, m, name, Init(path));
      assert Part(HandleValue(m, s.roots[name]), Init(path)) == m[b];
      if Init(path) != [] {
        RootNotBlock(s, name, path);
      }
    }
  }

  /** The variable's own handle leads to the outermost container, not to an inner one. */
  lemma RootNotBlock(s: Store, name: string, path: seq<nat>)
    requires Exact(s) && Owned(s, name, path) && path != [] && Init(path) != []
    ensures s.roots[name] != Shared(Follow(s, name, path).value.block)
  {
    var b, up := Follow(s, name, path).value.block, Follow(s, name, Init(path)).value;
    SoleReferrer(s, b, up);
    assert up.Slot?;
    assert HasLoc(s, Root(name)) && At(s, Root(name)) == s.roots[name];
  }
}
