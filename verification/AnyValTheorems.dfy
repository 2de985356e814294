/** What the reference counts are for: nothing leaks, nothing dangles, nothing contains itself. */
module AnyValTheorems {
  import opened AnyValStore
  import opened AnyValRelease
  import opened AnyValChange

  function LargerBlocks(s: Store, m: Meaning, size: nat): set<nat> {
    set c | c in s.blocks && c in m && Size(m[c]) > size
  }

  lemma FewerLargerBlocks(s: Store, m: Meaning, p: nat, size: nat)
    requires p in s.blocks && p in m && Size(m[p]) > size
    ensures |LargerBlocks(s, m, Size(m[p]))| < |LargerBlocks(s, m, size)|
  {
    var fewer := LargerBlocks(s, m, Size(m[p]));
    var more := LargerBlocks(s, m, size);
    assert p in more && p !in fewer && fewer <= more;
    SubsetSize(fewer, more - {p});
  }

  lemma {:induction false} SubsetSize(a: set<nat>, b: set<nat>)
    requires a <= b
    ensures |a| <= |b|
    decreases |a|
  {
    if a != {} {
      var x :| x in a && x >= 0;
      SubsetSize(a - {x}, b - {x});
    }
  }

  lemma ReferrerOf(s: Store, b: nat) returns (l: Loc)
    requires Exact(s) && b in s.blocks && s.blocks[b].count > 0
    ensures HasLoc(s, l) && At(s, l) == Shared(b)
  {
    LocsAreLocs(s);
    l :| l in Referrers(s, b);
  }

  lemma HolderIsLargerBlock(s: Store, next: nat, m: Meaning, p: nat, i: nat, b: nat)
    requires Whole(s, next, m) && HasLoc(s, Slot(p, i)) && At(s, Slot(p, i)) == Shared(b) && b in s.blocks
    ensures p in m && b in m && Size(m[b]) < Size(m[p])
  {
    assert Coheres(s, m, p) && Coheres(s, m, b);
    ElementIsSmaller(s, m, p, i);
  }

  /** Nothing leaks: every container can be reached from a variable. */
  lemma {:induction false} EveryContainerIsReachable(s: Store, next: nat, m: Meaning, b: nat)
    returns (name: string, path: seq<nat>)
    requires Whole(s, next, m) && b in s.blocks
    ensures Follow(s, name, path).Some? && At(s, Follow(s, name, path).value) == Shared(b)
    decreases |LargerBlocks(s, m, Size(m[b]))|
  {
    hide Coherent, Exact, Closed, ShapesFit, LargerBlocks, Size, Coheres, Referrers;
    var l := ReferrerOf(s, b);
    match l
    case Root(n) =>
      name, path := n, [];
    case Slot(p, i) =>
      HolderIsLargerBlock(s, next, m, p, i, b);
      FewerLargerBlocks(s, m, p, Size(m[b]));
      var upper;
      name, upper := EveryContainerIsReachable(s, next, m, p);
      path := upper + [i];
      assert Init(path) == upper && Last(path) == i;
  }

  /** Along an access path values only get smaller. */
  lemma {:induction false} TrailShrinks(s: Store, m: Meaning, name: string, path: seq<nat>, src: Loc)
    requires Closed(s) && Exact(s) && Coherent(s, m, {}) && Follow(s, name, path).Some? && src in Trail(s, name, path)
    ensures var l := Follow(s, name, path).value;
      src == l || Size(HandleValue(m, At(s, l))) < Size(HandleValue(m, At(s, src)))
    decreases |path|
  {
    if path != [] && src != Follow(s, name, path).value {
      TrailShrinks(s, m, name, Init(path), src);
      var up := Follow(s, name, Init(path)).value;
      ReferredIsCounted(s, up);
      ElementIsSmaller(s, m, At(s, up).block, Last(path));
    }
  }

  /** Nothing contains itself: no element shares a container it is inside of. */
  lemma NothingInsideItself(s: Store, m: Meaning, name: string, path: seq<nat>, src: Loc)
    requires Closed(s) && Exact(s) && Coherent(s, m, {}) && Follow(s, name, path).Some?
    requires src in Trail(s, name, path) && src != Follow(s, name, path).value
    ensures At(s, src) != At(s, Follow(s, name, path).value)
  {
    TrailShrinks(s, m, name, path, src);
  }

  lemma {:induction false} FollowExtends(s: Store, u: Store, b: nat, name: string, path: seq<nat>)
    requires Extends(s, u, b) && Follow(s, name, path).Some?
    ensures Follow(u, name, path) == Follow(s, name, path) && Trail(u, name, path) == Trail(s, name, path)
    decreases |path|
  {
    ExtensionKeepsHandles(s, u, b);
    if path != [] {
      FollowExtends(s, u, b, name, Init(path));
    }
  }

  ghost predicate HasReading(s: Store) {
    exists m: Meaning :: Coherent(s, m, {})
  }

  /** The appended element, and the handles it is inside of. */
  lemma PushedElement(s: Store, u: Store, name: string, path: seq<nat>, l: Loc, b: nat, h: Handle)
    requires Extends(s, u, b) && Follow(s, name, path) == Some(l) && At(s, l) == Shared(b)
    requires u.blocks[b].cells == s.blocks[b].cells + [h]
    ensures var longer, i := path + [|s.blocks[b].cells|], |s.blocks[b].cells|;
      && Follow(u, name, longer) == Some(Slot(b, i)) && At(u, Slot(b, i)) == h
      && Trail(u, name, longer) == Trail(s, name, path) + {Slot(b, i)}
  {
    var i := |s.blocks[b].cells|;
    var longer := path + [i];
    assert Init(longer) == path && Last(longer) == i;
    ExtensionKeepsHandles(s, u, b);
    FollowExtends(s, u, b, name, path);
  }

  lemma CycleHasNoReading(s: Store, u: Store, name: string, path: seq<nat>, l: Loc, b: nat, src: Loc)
    requires Extends(s, u, b) && Follow(s, name, path) == Some(l) && At(s, l) == Shared(b)
    requires src in Trail(s, name, path) && u.blocks[b].cells == s.blocks[b].cells + [At(s, src)]
    requires Closed(u) && Exact(u)
    ensures !HasReading(u)
  {
    var longer := path + [|s.blocks[b].cells|];
    PushedElement(s, u, name, path, l, b, At(s, src));
    assert HasLoc(u, src) && At(u, src) == At(s, src) by { ExtensionKeepsHandles(s, u, b); }
    assert src != Slot(b, |s.blocks[b].cells|);
    assert src in Trail(u, name, longer);
    forall n | Coherent(u, n, {}) ensures false {
      NothingInsideItself(u, n, name, longer, src);
    }
  }

  /** Appending the array itself, or something it is inside of, makes a container contain itself: no
      finite value is left for it, and its counts will never reach zero. */
  lemma AppendingAContainerMakesACycle(s: Store, next: nat, m: Meaning, name: string, path: seq<nat>, l: Loc, b: nat, src: Loc)
    requires Whole(s, next, m) && Owned(s, name, path) && Follow(s, name, path) == Some(l)
    requires At(s, l) == Shared(b) && b in s.blocks && s.blocks[b].count == 1 && s.blocks[b].shape.ArrayShape?
    requires src in Trail(s, name, path)
    ensures (At(s, src).Shared? ==> At(s, src).block in s.blocks) && !HasReading(Pushed(s, b, At(s, src)))
  {
    PushedExtends(s, b, At(s, src), {});
    PushedIsTidy(s, next, b, At(s, src));
    CycleHasNoReading(s, Pushed(s, b, At(s, src)), name, path, l, b, src);
  }

  /** Appending keeps sharing free of cycles exactly when the appended handle is neither the array's
      nor that of something the array is inside of. */
  lemma AppendKeepsValuesIff(s: Store, next: nat, m: Meaning, name: string, path: seq<nat>, l: Loc, b: nat, src: Loc)
    requires Whole(s, next, m) && Owned(s, name, path) && Follow(s, name, path) == Some(l)
    requires At(s, l) == Shared(b) && b in s.blocks && s.blocks[b].count == 1 && s.blocks[b].shape.ArrayShape?
    requires HasLoc(s, src)
    ensures At(s, src).Shared? ==> At(s, src).block in s.blocks
    ensures HasReading(Pushed(s, b, At(s, src))) <==> src !in Trail(s, name, path)
  {
    if src in Trail(s, name, path) {
      AppendingAContainerMakesACycle(s, next, m, name, path, l, b, src);
    } else {
      var n := AppendReachesVariable(s, next, m, name, path, l, b, src);
      assert Coherent(Pushed(s, b, At(s, src)), n, {});
    }
  }

  /** k keeps container p: it did before the handle at d was destroyed and does so still. */
  ghost predicate Anchors(s: Store, t: Store, d: Loc, p: nat, k: Loc) {
    k != d && HasLoc(t, k) && HasLoc(s, k) && At(s, k) == Shared(p)
  }

  lemma SurvivorsAreAnchored(s: Store, t: Store, next: nat, m: Meaning, d: Loc)
    requires Whole(s, next, m) && HasLoc(s, d) && Deleted(s, t, next, m, {}, d, HandleValue(m, At(s, d)))
    ensures forall p :: p in t.blocks ==> exists k :: Anchors(s, t, d, p, k)
  {
    hide Coherent, ShapesFit, Referrers, Locs;
    CountsAreNatural(t);
    forall p | p in t.blocks ensures exists k :: Anchors(s, t, d, p, k) {
      var k := ReferrerOf(t, p);
      assert k != d && At(t, k) == At(s, k);
      assert Anchors(s, t, d, p, k);
    }
  }

  /** What is inside a destroyed value goes with it. */
  lemma {:induction false} InsideIsDestroyed(s: Store, t: Store, d: Loc, name: string, path: seq<nat>)
    requires Exact(s) && forall p :: p in t.blocks ==> exists k :: Anchors(s, t, d, p, k)
    requires Owned(s, name, path) && path != [] && d in Trail(s, name, Init(path))
    ensures !HasLoc(t, Follow(s, name, path).value)
    decreases |path|
  {
    var p, up := Follow(s, name, path).value.block, Follow(s, name, Init(path)).value;
    SoleReferrer(s, p, up);
    if p in t.blocks && up != d {
      InsideIsDestroyed(s, t, d, name, Init(path));
    }
  }

  /** Assignment destroys the old value before it looks at the source, so the source must not be inside
      it: a source that only its own variable holds outlives the old value exactly then. */
  lemma SourceSurvivesIff(s: Store, t: Store, next: nat, m: Meaning, d: Loc, name: string, path: seq<nat>, src: Loc)
    requires Whole(s, next, m) && HasLoc(s, d) && Deleted(s, t, next, m, {}, d, HandleValue(m, At(s, d)))
    requires Owned(s, name, path) && Follow(s, name, path) == Some(src) && src != d
    ensures HasLoc(t, src) <==> d !in Trail(s, name, path)
    ensures HasLoc(t, src) ==> At(t, src) == At(s, src)
  {
    if d in Trail(s, name, path) {
      SurvivorsAreAnchored(s, t, next, m, d);
      InsideIsDestroyed(s, t, d, name, path);
    } else {
      SourceSurvives(s, t, d, name, path);
    }
  }

  // ----- When assignment copies -----

  /** A way from a variable to src that does not pass through d. */
  ghost predicate LeadsAround(s: Store, d: Loc, src: Loc, name: string, path: seq<nat>) {
    Follow(s, name, path) == Some(src) && d !in Trail(s, name, path)
  }

  ghost predicate ReachedAround(s: Store, d: Loc, src: Loc) {
    exists name, path :: LeadsAround(s, d, src, name, path)
  }

  /** Whatever is left after the handle at d was destroyed could be reached without it. */
  lemma {:induction false} SurvivorIsReached(s: Store, t: Store, next: nat, m: Meaning, d: Loc, src: Loc, size: nat)
    returns (name: string, path: seq<nat>)
    requires Whole(s, next, m) && Pruned(s, t, {d}) && forall p :: p in t.blocks ==> exists k :: Anchors(s, t, d, p, k)
    requires HasLoc(t, src) && src != d && (src.Slot? ==> src.block in m && Size(m[src.block]) > size)
    ensures LeadsAround(s, d, src, name, path)
    decreases |LargerBlocks(s, m, size)|
  {
    hide Whole, Pruned, LargerBlocks, Size, LeadsAround;
    match src
    case Root(n) =>
      assert n in s.roots by { PrunedParts(s, t, d, src); }
      name, path := n, [];
      assert LeadsAround(s, d, src, n, []) by { RootLeads(s, d, n); }
    case Slot(p, i) =>
      PrunedParts(s, t, d, src);
      var k :| Anchors(s, t, d, p, k);
      if k.Slot? {
        HolderIsLargerBlock(s, next, m, k.block, k.index, p);
      }
      FewerLargerBlocks(s, m, p, size);
      var upper;
      name, upper := SurvivorIsReached(s, t, next, m, d, k, Size(m[p]));
      LongerWay(s, d, k, p, i, name, upper);
      path := upper + [i];
  }

  lemma RootLeads(s: Store, d: Loc, n: string)
    requires n in s.roots && d != Root(n)
    ensures LeadsAround(s, d, Root(n), n, [])
  {
  }

  lemma LongerWay(s: Store, d: Loc, k: Loc, p: nat, i: nat, name: string, upper: seq<nat>)
    requires LeadsAround(s, d, k, name, upper) && HasLoc(s, k) && At(s, k) == Shared(p)
    requires HasLoc(s, Slot(p, i)) && Slot(p, i) != d
    ensures LeadsAround(s, d, Slot(p, i), name, upper + [i])
  {
    assert Init(upper + [i]) == upper && Last(upper + [i]) == i;
  }

  lemma PrunedParts(s: Store, t: Store, d: Loc, src: Loc)
    requires Pruned(s, t, {d}) && HasLoc(t, src)
    ensures HasLoc(s, src)
  {
  }

  /** The source is still there after the old value was destroyed, and what it shares can be shared
      once more without closing a cycle. */
  ghost predicate CopyArrives(s: Store, t: Store, d: Loc, src: Loc)
    requires HasLoc(s, src) && HasLoc(t, d)
  {
    && HasLoc(t, src) && At(t, src) == At(s, src)
    && (At(t, src).Shared? ==> At(t, src).block in t.blocks)
    && HasReading(Copied(t, d, At(t, src)))
  }

  /** Copying a container into something inside it closes a cycle. */
  lemma CopyIntoItselfHasNoReading(
    s: Store, t: Store, next: nat, m: Meaning, name: string, path: seq<nat>, d: Loc, src: Loc)
    requires Whole(s, next, m) && Owned(s, name, path) && Follow(s, name, path) == Some(d)
    requires src in Trail(s, name, path) && src != d
    requires Deleted(s, t, next, m, {}, d, HandleValue(m, At(s, d)))
    ensures !CopyArrives(s, t, d, src)
  {
    hide Coherent, ShapesFit, FreedBelow, Referrers;
    if CopyArrives(s, t, d, src) {
      var h := At(t, src);
      var u := Copied(t, d, h);
      assert Tidy(u, next) by { CopyIsTidy(t, next, d, h); }
      OwnedSurvives(s, t, name, path);
      if path != [] {
        EndNotOnTheWay(t, name, path);
      }
      assert forall k :: HasLoc(t, k) ==> HasLoc(u, k) && At(u, k) == if k == d then h else At(t, k);
      SameFollow(t, u, name, path, d);
      assert At(u, src) == At(u, d);
      forall n | Coherent(u, n, {}) ensures false {
        NothingInsideItself(u, n, name, path, src);
      }
    }
  }

  /** A new handle at the end of a path does not change where the path leads. */
  lemma {:induction false} SameFollow(t: Store, u: Store, name: string, path: seq<nat>, d: Loc)
    requires Exact(t) && Owned(t, name, path) && (path != [] ==> d !in Trail(t, name, Init(path)))
    requires u.blocks.Keys == t.blocks.Keys && u.roots.Keys == t.roots.Keys
    requires forall b :: b in t.blocks ==> |u.blocks[b].cells| == |t.blocks[b].cells|
    requires forall k :: HasLoc(t, k) && k != d ==> HasLoc(u, k) && At(u, k) == At(t, k)
    ensures Follow(u, name, path) == Follow(t, name, path) && Trail(u, name, path) == Trail(t, name, path)
    decreases |path|
  {
    if path != [] {
      if Init(path) != [] {
        assert Trail(t, name, Init(Init(path))) <= Trail(t, name, Init(path));
      }
      SameFollow(t, u, name, Init(path), d);
    }
  }

  /** Assigning an empty handle to itself. */
  lemma NothingToItself(s: Store, t: Store, next: nat, m: Meaning, name: string, path: seq<nat>, d: Loc)
    requires Whole(s, next, m) && Owned(s, name, path) && Follow(s, name, path) == Some(d)
    requires Deleted(s, t, next, m, {}, d, HandleValue(m, At(s, d))) && At(s, d) == Nil
    ensures CopyArrives(s, t, d, d)
  {
    hide Coherent, ShapesFit, FreedBelow, Referrers, Exact;
    assert Copied(t, d, Nil) == t by {
      match d
      case Root(n) => assert t.roots[n := Nil] == t.roots;
      case Slot(b, i) =>
        assert t.blocks[b].cells[i := Nil] == t.blocks[b].cells;
        assert t.blocks[b := t.blocks[b]] == t.blocks;
    }
    OwnedSurvives(s, t, name, path);
    CopyChangesBelow(s, t, t, next, m, name, path, Nil);
    CopyKeepsRoots(s, t, t, m, name, path, Nil);
    var n := ChangeReachesVariable(s, t, m, m, name, path, NilValue);
    assert Coherent(t, n, {});
  }

  /** Assignment copies exactly when there is a way to the source around the destination, and the
      destination is not inside the source. The one exception is an empty handle assigned to itself. */
  lemma AssignmentCopiesIff(
    s: Store, t: Store, next: nat, m: Meaning, name: string, path: seq<nat>, d: Loc, src: Loc)
    requires Whole(s, next, m) && Owned(s, name, path) && Follow(s, name, path) == Some(d) && HasLoc(s, src)
    requires Deleted(s, t, next, m, {}, d, HandleValue(m, At(s, d)))
    ensures CopyArrives(s, t, d, src) <==>
      (ReachedAround(s, d, src) && src !in Trail(s, name, path)) || (src == d && At(s, d) == Nil)
  {
    hide Coherent, ShapesFit, FreedBelow, Referrers, Locs, Exact, Copied;
    if src == d {
      if At(s, d) == Nil {
        NothingToItself(s, t, next, m, name, path, d);
      }
    } else if src in Trail(s, name, path) {
      CopyIntoItselfHasNoReading(s, t, next, m, name, path, d, src);
    } else if ReachedAround(s, d, src) {
      var from, way :| LeadsAround(s, d, src, from, way);
      SourceIsThere(s, t, next, m, d, src, from, way);
      SourceSurvives(s, t, d, from, way);
      var n := AssignmentCopiesValue(s, t, Copied(t, d, At(t, src)), next, m, name, path, d, src, from, way);
      assert Coherent(Copied(t, d, At(t, src)), n, {});
    } else if HasLoc(t, src) {
      SurvivorsAreAnchored(s, t, next, m, d);
      if src.Slot? {
        WholeCoheres(s, next, m, src.block);
      }
      var from, way := SurvivorIsReached(s, t, next, m, d, src, 0);
    }
  }

  lemma WholeCoheres(s: Store, next: nat, m: Meaning, b: nat)
    requires Whole(s, next, m) && b in s.blocks
    ensures Coheres(s, m, b)
  {
  }

  /** For a source reached by mutable references: neither handle may be inside the other. */
  lemma OwnedSourceCopiesIff(
    s: Store, t: Store, next: nat, m: Meaning, name: string, path: seq<nat>, d: Loc, from: string, way: seq<nat>, src: Loc)
    requires Whole(s, next, m) && Owned(s, name, path) && Follow(s, name, path) == Some(d)
    requires Owned(s, from, way) && Follow(s, from, way) == Some(src) && src != d
    requires Deleted(s, t, next, m, {}, d, HandleValue(m, At(s, d)))
    ensures CopyArrives(s, t, d, src) <==> d !in Trail(s, from, way) && src !in Trail(s, name, path)
  {
    AssignmentCopiesIff(s, t, next, m, name, path, d, src);
    if d !in Trail(s, from, way) {
      assert LeadsAround(s, d, src, from, way);
    } else {
      SourceSurvivesIff(s, t, next, m, d, from, way, src);
    }
  }

  // ----- The exceptions occur -----

  /** `a` is an array that holds one empty element. */
  const ONE_ELEMENT := Store(map["a" := Shared(0)], map[0 := Block(1, ArrayShape, [Nil])])
  const ONE_MEANING := map[0 := Node(ArrayShape, [NilValue])]

  lemma OneElementIsWhole()
    ensures Whole(ONE_ELEMENT, 1, ONE_MEANING)
    ensures Owned(ONE_ELEMENT, "a", [0]) && Follow(ONE_ELEMENT, "a", [0]) == Some(Slot(0, 0))
    ensures Owned(ONE_ELEMENT, "a", []) && Follow(ONE_ELEMENT, "a", []) == Some(Root("a"))
    ensures Trail(ONE_ELEMENT, "a", []) == {Root("a")} && Trail(ONE_ELEMENT, "a", [0]) == {Root("a"), Slot(0, 0)}
  {
    assert Init([0]) == [] && Last([0]) == 0;
    LocsAreLocs(ONE_ELEMENT);
    assert Referrers(ONE_ELEMENT, 0) == {Root("a")};
    assert CellValues(ONE_MEANING, [Nil]) == [NilValue];
  }

  /** `a[0] = a` does not copy: the array would be inside itself. */
  lemma AssigningToOwnElementFails(t: Store)
    requires Deleted(ONE_ELEMENT, t, 1, ONE_MEANING, {}, Slot(0, 0), NilValue)
    ensures !CopyArrives(ONE_ELEMENT, t, Slot(0, 0), Root("a"))
  {
    OneElementIsWhole();
    OwnedSourceCopiesIff(ONE_ELEMENT, t, 1, ONE_MEANING, "a", [0], Slot(0, 0), "a", [], Root("a"));
  }

  /** `a = a[0]` does not copy: the element goes with the array. */
  lemma AssigningOwnElementFails(t: Store)
    requires Deleted(ONE_ELEMENT, t, 1, ONE_MEANING, {}, Root("a"), ONE_MEANING[0])
    ensures !CopyArrives(ONE_ELEMENT, t, Root("a"), Slot(0, 0))
  {
    OneElementIsWhole();
    OwnedSourceCopiesIff(ONE_ELEMENT, t, 1, ONE_MEANING, "a", [], Root("a"), "a", [0], Slot(0, 0));
  }

  /** `a.append(a)` closes a cycle. */
  lemma AppendingToItselfFails()
    ensures !HasReading(Pushed(ONE_ELEMENT, 0, Shared(0)))
  {
    OneElementIsWhole();
    AppendKeepsValuesIff(ONE_ELEMENT, 1, ONE_MEANING, "a", [], Root("a"), 0, Root("a"));
  }
}
