/** How changes of single handles and containers show in the values of the variables. */
module AnyValChange {
  import opened AnyValStore
  import opened AnyValRelease

  /** The state between operations: in order, and every container is referred to. */
  ghost predicate Whole(s: Store, next: nat, m: Meaning) {
    Steady(s, next, m, {}) && forall b :: b in s.blocks ==> s.blocks[b].count > 0
  }

  /** Every variable's deep value. */
  function EnvOf(s: Store, m: Meaning): map<string, Value> {
    map n | n in s.roots :: HandleValue(m, s.roots[n])
  }

  lemma {:induction false} TrailRoots(s: Store, name: string, path: seq<nat>, x: string)
    requires Follow(s, name, path).Some? && x != name
    ensures Root(x) !in Trail(s, name, path)
    decreases |path|
  {
    if path != [] {
      TrailRoots(s, name, Init(path), x);
    }
  }

  lemma OtherRoot(u: Store, name: string, path: seq<nat>, x: string)
    requires Exact(u) && Owned(u, name, path) && x in u.roots && x != name
    ensures u.roots[x].Shared? ==> u.roots[x].block !in TrailBlocks(u, name, path)
  {
    if path != [] {
      TrailRoots(u, name, Init(path), x);
    }
    if u.roots[x].Shared? {
      OffTrail(u, name, path, Root(x));
    }
  }

  lemma EndKeepsValue(u: Store, name: string, path: seq<nat>)
    requires Exact(u) && Owned(u, name, path)
    ensures var h := At(u, Follow(u, name, path).value); h.Shared? ==> h.block !in TrailBlocks(u, name, path)
  {
    if path != [] {
      EndNotOnTheWay(u, name, path);
    }
    if At(u, Follow(u, name, path).value).Shared? {
      OffTrail(u, name, path, Follow(u, name, path).value);
    }
  }

  /** Readings m and n agree on handles that do not lead onto the trail. */
  ghost predicate AgreeOffTrail(u: Store, m: Meaning, n: Meaning, name: string, path: seq<nat>)
    requires Follow(u, name, path).Some?
  {
    forall h: Handle :: (h.Shared? ==> h.block !in TrailBlocks(u, name, path)) ==> HandleValue(n, h) == HandleValue(m, h)
  }

  /** The other variables keep their values. */
  lemma OthersAgree(s: Store, u: Store, m: Meaning, m1: Meaning, n: Meaning, name: string, path: seq<nat>)
    requires Exact(u) && Owned(u, name, path) && u.roots.Keys == s.roots.Keys
    requires AgreeOffTrail(u, m1, n, name, path)
    requires forall x :: x in s.roots && x != name ==> HandleValue(m1, u.roots[x]) == HandleValue(m, s.roots[x])
    ensures forall x :: x in s.roots && x != name ==> HandleValue(n, u.roots[x]) == HandleValue(m, s.roots[x])
  {
    forall x | x in s.roots && x != name ensures HandleValue(n, u.roots[x]) == HandleValue(m, s.roots[x]) {
      OtherRoot(u, name, path, x);
    }
  }

  lemma EnvChangedAt(s: Store, u: Store, m: Meaning, n: Meaning, name: string, v: Value)
    requires name in s.roots && u.roots.Keys == s.roots.Keys && HandleValue(n, u.roots[name]) == v
    requires forall x :: x in s.roots && x != name ==> HandleValue(n, u.roots[x]) == HandleValue(m, s.roots[x])
    ensures EnvOf(u, n) == EnvOf(s, m)[name := v]
  {
  }

  /** Once the containers on the way know the new part, exactly the variable at their top changed. */
  lemma ChangeReachesVariable(s: Store, u: Store, m: Meaning, m1: Meaning, name: string, path: seq<nat>, w: Value)
    returns (n: Meaning)
    requires Exact(u) && Closed(u) && Owned(u, name, path) && name in s.roots && u.roots.Keys == s.roots.Keys
    requires ChangedBelow(u, m1, name, path, w)
    requires path != [] ==> HandleValue(m1, u.roots[name]) == HandleValue(m, s.roots[name])
    requires forall x :: x in s.roots && x != name ==> HandleValue(m1, u.roots[x]) == HandleValue(m, s.roots[x])
    ensures Coherent(u, n, {})
    ensures HandleValue(n, At(u, Follow(u, name, path).value)) == w
    ensures EnvOf(u, n) == EnvOf(s, m)[name := Replace(EnvOf(s, m)[name], path, w)]
  {
    n := Raise(u, m1, name, path, w);
    assert AgreeOffTrail(u, m1, n, name, path);
    assert HandleValue(n, At(u, Follow(u, name, path).value)) == w by { EndKeepsValue(u, name, path); }
    OthersAgree(s, u, m, m1, n, name, path);
    EnvChangedAt(s, u, m, n, name, Replace(HandleValue(m, s.roots[name]), path, w));
  }

  // ----- Assignment -----

  /** A copy of handle h in the empty handle at l. */
  function Copied(s: Store, l: Loc, h: Handle): Store
    requires HasLoc(s, l) && (h.Shared? ==> h.block in s.blocks)
  {
    if h.Shared? then Refer(s, l, h.block) else Write(s, l, h)
  }

  lemma CopyIsTidy(s: Store, next: nat, l: Loc, h: Handle)
    requires Tidy(s, next) && HasLoc(s, l) && !At(s, l).Shared? && (h.Shared? ==> h.block in s.blocks)
    ensures Tidy(Copied(s, l, h), next)
  {
    if h.Shared? {
      ReferIsTidy(s, next, l, h.block);
    } else {
      WriteIsTidy(s, next, l, h);
    }
  }

  /** A handle that is not inside what is destroyed outlives it. */
  lemma {:induction false} SourceSurvives(s: Store, t: Store, d: Loc, name: string, path: seq<nat>)
    requires Pruned(s, t, {d}) && Closed(t) && Follow(s, name, path).Some? && d !in Trail(s, name, path)
    ensures Follow(t, name, path) == Follow(s, name, path)
    ensures At(t, Follow(s, name, path).value) == At(s, Follow(s, name, path).value)
    decreases |path|
  {
    var l := Follow(s, name, path).value;
    if path != [] {
      SourceSurvives(s, t, d, name, Init(path));
    }
    assert HasLoc(t, l) && l != d;
    assert At(t, l) == At(s, l);
  }

  lemma SourceIsThere(s: Store, t: Store, next: nat, m: Meaning, d: Loc, src: Loc, name: string, path: seq<nat>)
    requires HasLoc(s, d) && Deleted(s, t, next, m, {}, d, HandleValue(m, At(s, d)))
    requires Follow(s, name, path) == Some(src) && d !in Trail(s, name, path)
    ensures HasLoc(t, d) && HasLoc(t, src) && (At(t, src).Shared? ==> At(t, src).block in t.blocks)
  {
    SourceSurvives(s, t, d, name, path);
  }

  lemma OwnedSurvives(s: Store, t: Store, name: string, path: seq<nat>)
    requires Exact(s) && Owned(s, name, path) && name in t.roots
    requires Exact(t) && Closed(t) && Pruned(s, t, {Follow(s, name, path).value})
    requires HasLoc(t, Follow(s, name, path).value) && At(t, Follow(s, name, path).value) == Nil
    ensures Owned(t, name, path) && Follow(t, name, path) == Follow(s, name, path)
    ensures Trail(t, name, path) == Trail(s, name, path) && TrailBlocks(t, name, path) == TrailBlocks(s, name, path)
  {
    if path != [] {
      EndNotOnTheWay(s, name, path);
    }
    OwnedCarries(s, t, name, path);
  }

  /** Copying into the end of an owned path from a handle off the path leaves the path owned. */
  lemma OwnedAfterCopy(t: Store, u: Store, next: nat, name: string, path: seq<nat>, src: Loc)
    requires Tidy(t, next) && Owned(t, name, path) && HasLoc(t, src) && src !in Trail(t, name, path)
    requires At(t, Follow(t, name, path).value) == Nil && Tidy(u, next)
    requires At(t, src).Shared? ==> At(t, src).block in t.blocks
    requires u == Copied(t, Follow(t, name, path).value, At(t, src))
    ensures Owned(u, name, path) && Follow(u, name, path) == Follow(t, name, path)
  {
    hide Exact, ShapesFit;
    var d, h := Follow(t, name, path).value, At(t, src);
    assert forall k :: HasLoc(u, k) <==> HasLoc(t, k);
    assert forall k :: HasLoc(t, k) ==> At(u, k) == if k == d then h else At(t, k);
    if path != [] {
      EndNotOnTheWay(t, name, path);
    }
    if h.Shared? {
      OffTrail(t, name, path, src);
    }
    OwnedCarries(t, u, name, path);
  }

  lemma HolderAfterCopy(s: Store, t: Store, u: Store, m: Meaning, d: Loc, h: Handle)
    requires d.Slot? && HasLoc(s, d) && HasLoc(t, d) && Pruned(s, t, {d}) && Coheres(s, m, d.block)
    requires (h.Shared? ==> h.block in t.blocks) && u == Copied(t, d, h)
    ensures m[d.block].Node? && m[d.block].shape == u.blocks[d.block].shape && d.index < |m[d.block].children|
    ensures CellValues(m, u.blocks[d.block].cells) == m[d.block].children[d.index := HandleValue(m, h)]
  {
    var b := d.block;
    forall i | 0 <= i < |u.blocks[b].cells|
      ensures u.blocks[b].cells[i] == if i == d.index then h else s.blocks[b].cells[i]
    {
      assert HasLoc(t, Slot(b, i)) && At(u, Slot(b, i)) == if Slot(b, i) == d then h else At(t, Slot(b, i));
    }
  }

  /** After the copy, all containers but the one around the handle read as before. */
  lemma CopyChangesBelow(s: Store, t: Store, u: Store, next: nat, m: Meaning, name: string, path: seq<nat>, h: Handle)
    requires Whole(s, next, m) && Owned(s, name, path)
    requires Follow(u, name, path) == Follow(s, name, path)
    requires Deleted(s, t, next, m, {}, Follow(s, name, path).value, HandleValue(m, At(s, Follow(s, name, path).value)))
    requires (h.Shared? ==> h.block in t.blocks) && u == Copied(t, Follow(s, name, path).value, h)
    ensures ChangedBelow(u, m, name, path, HandleValue(m, h))
    ensures forall b :: b in u.blocks ==> u.blocks[b].count > 0
  {
    var d := Follow(s, name, path).value;
    CountsAreNatural(t);
    CopyIsCoherent(t, u, m, Holder(d), d, h);
    if path != [] {
      OwnedBlocks(s, name, path, d.block);
      HolderAfterCopy(s, t, u, m, d, h);
    }
  }

  lemma CopyIsCoherent(t: Store, u: Store, m: Meaning, holes: set<nat>, d: Loc, h: Handle)
    requires Coherent(t, m, holes) && HasLoc(t, d) && Holder(d) <= holes && (h.Shared? ==> h.block in t.blocks)
    requires u == Copied(t, d, h) && forall b :: b in t.blocks ==> t.blocks[b].count > 0
    ensures Coherent(u, m, holes) && forall b :: b in u.blocks ==> u.blocks[b].count > 0
  {
    forall b | b in u.blocks && b !in holes ensures Coheres(u, m, b) {
      assert Coheres(t, m, b);
      assert u.blocks[b].cells == t.blocks[b].cells;
    }
  }

  lemma CopyKeepsRoots(s: Store, t: Store, u: Store, m: Meaning, name: string, path: seq<nat>, h: Handle)
    requires Follow(s, name, path).Some? && HasLoc(t, Follow(s, name, path).value)
    requires Pruned(s, t, {Follow(s, name, path).value}) && (h.Shared? ==> h.block in t.blocks)
    requires u == Copied(t, Follow(s, name, path).value, h)
    ensures name in s.roots && u.roots.Keys == s.roots.Keys
    ensures path != [] ==> HandleValue(m, u.roots[name]) == HandleValue(m, s.roots[name])
    ensures forall x :: x in s.roots && x != name ==> HandleValue(m, u.roots[x]) == HandleValue(m, s.roots[x])
  {
    var d := Follow(s, name, path).value;
    forall x | x in s.roots && Root(x) != d ensures u.roots[x] == s.roots[x] {
      assert HasLoc(t, Root(x));
      assert At(t, Root(x)) == At(s, Root(x)) && At(u, Root(x)) == At(t, Root(x));
    }
  }

  /** Assignment: after the old value of the handle at d is destroyed and the source copied in, the
      variable d belongs to has the source's value there, and nothing else has changed. */
  lemma AssignmentCopiesValue(s: Store, t: Store, u: Store, next: nat, m: Meaning, name: string, path: seq<nat>,
                              d: Loc, src: Loc, sname: string, spath: seq<nat>)
    returns (n: Meaning)
    requires Whole(s, next, m) && Owned(s, name, path) && Follow(s, name, path) == Some(d)
    requires Follow(s, sname, spath) == Some(src) && d !in Trail(s, sname, spath) && src !in Trail(s, name, path)
    requires Deleted(s, t, next, m, {}, d, HandleValue(m, At(s, d)))
    requires HasLoc(t, src) && (At(t, src).Shared? ==> At(t, src).block in t.blocks)
    requires u == Copied(t, d, At(t, src))
    ensures Whole(u, next, n) && Owned(u, name, path) && Follow(u, name, path) == Some(d)
    ensures EnvOf(u, n) == EnvOf(s, m)[name := Replace(EnvOf(s, m)[name], path, HandleValue(m, At(s, src)))]
  {
    var h := At(t, src);
    SourceSurvives(s, t, d, sname, spath);
    assert Owned(t, name, path) && Follow(t, name, path) == Some(d) && src !in Trail(t, name, path) by {
      OwnedSurvives(s, t, name, path);
    }
    assert Tidy(u, next) by { CopyIsTidy(t, next, d, h); }
    assert Owned(u, name, path) && Follow(u, name, path) == Some(d) by {
      OwnedAfterCopy(t, u, next, name, path, src);
    }
    CopyChangesBelow(s, t, u, next, m, name, path, h);
    CopyKeepsRoots(s, t, u, m, name, path, h);
    n := ChangeReachesVariable(s, u, m, m, name, path, HandleValue(m, h));
  }

  // ----- New contents of a container -----

  /** u is s with more elements at the end of container b. */
  ghost predicate Extends(s: Store, u: Store, b: nat) {
    && b in s.blocks && u.roots == s.roots && u.blocks.Keys == s.blocks.Keys
    && (forall c :: c in s.blocks && c != b ==>
      u.blocks[c].cells == s.blocks[c].cells && u.blocks[c].shape == s.blocks[c].shape)
    && (forall c :: c in s.blocks ==> u.blocks[c].count > 0)
    && |s.blocks[b].cells| <= |u.blocks[b].cells|
    && forall i :: 0 <= i < |s.blocks[b].cells| ==> u.blocks[b].cells[i] == s.blocks[b].cells[i]
  }

  /** The new elements do not lead back to the containers they are in. */
  ghost predicate NewRefsAvoid(s: Store, u: Store, b: nat, avoid: set<nat>)
    requires b in s.blocks && b in u.blocks
  {
    forall i :: |s.blocks[b].cells| <= i < |u.blocks[b].cells| && u.blocks[b].cells[i].Shared?
      ==> u.blocks[b].cells[i].block !in avoid
  }

  lemma ExtensionReferrers(s: Store, u: Store, b: nat, avoid: set<nat>, k: Loc)
    requires Extends(s, u, b) && NewRefsAvoid(s, u, b, avoid)
    requires HasLoc(u, k) && At(u, k).Shared? && At(u, k).block in avoid
    ensures HasLoc(s, k) && At(s, k) == At(u, k)
  {
  }

  lemma ExtensionKeepsHandles(s: Store, u: Store, b: nat)
    requires Extends(s, u, b)
    ensures forall k :: HasLoc(s, k) ==> HasLoc(u, k) && At(u, k) == At(s, k)
    ensures forall c :: c in s.blocks ==> |s.blocks[c].cells| <= |u.blocks[c].cells|
  {
  }

  lemma AllExtensionReferrers(s: Store, u: Store, b: nat, avoid: set<nat>, some: set<nat>)
    requires Extends(s, u, b) && NewRefsAvoid(s, u, b, avoid) && some <= avoid
    ensures forall k :: (HasLoc(u, k) && At(u, k).Shared? && At(u, k).block in some ==> HasLoc(s, k) && At(s, k) == At(u, k))
  {
    forall k | HasLoc(u, k) && At(u, k).Shared? && At(u, k).block in some
      ensures HasLoc(s, k) && At(s, k) == At(u, k)
    {
      ExtensionReferrers(s, u, b, avoid, k);
    }
  }

  lemma OwnedAfterExtension(s: Store, u: Store, next: nat, name: string, path: seq<nat>, b: nat)
    requires Exact(s) && Owned(s, name, path) && Tidy(u, next)
    requires At(s, Follow(s, name, path).value) == Shared(b) && Extends(s, u, b)
    requires NewRefsAvoid(s, u, b, TrailBlocks(s, name, path) + {b})
    ensures Owned(u, name, path) && Follow(u, name, path) == Follow(s, name, path)
  {
    ExtensionKeepsHandles(s, u, b);
    AllExtensionReferrers(s, u, b, TrailBlocks(s, name, path) + {b}, TrailBlocks(s, name, path));
    OwnedCarries(s, u, name, path);
  }

  lemma UnsharedAfterExtension(s: Store, u: Store, b: nat, l: Loc, avoid: set<nat>)
    requires Exact(s) && Exact(u) && HasLoc(s, l) && At(s, l) == Shared(b) && Extends(s, u, b) && s.blocks[b].count == 1
    requires NewRefsAvoid(s, u, b, avoid) && b in avoid
    ensures HasLoc(u, l) && At(u, l) == Shared(b) && u.blocks[b].count == 1
    ensures forall k :: HasLoc(u, k) && At(u, k) == Shared(b) ==> k == l
  {
    SoleReferrer(s, b, l);
    forall k | HasLoc(u, k) && At(u, k) == Shared(b) ensures k == l {
      ExtensionReferrers(s, u, b, avoid, k);
    }
    OneReferrer(u, b, l);
  }

  lemma OneReferrer(u: Store, b: nat, l: Loc)
    requires Exact(u) && b in u.blocks && HasLoc(u, l) && At(u, l) == Shared(b)
    requires forall k :: HasLoc(u, k) && At(u, k) == Shared(b) ==> k == l
    ensures u.blocks[b].count == 1
  {
    LocsAreLocs(u);
    assert Referrers(u, b) == {l};
  }

  lemma ExtensionIsCoherent(s: Store, u: Store, m: Meaning, b: nat)
    requires Coherent(s, m, {}) && Extends(s, u, b) && forall c :: c in s.blocks ==> s.blocks[c].count > 0
    ensures Coherent(u, m, {b})
  {
    forall c | c in u.blocks && c != b ensures Coheres(u, m, c) {
      assert Coheres(s, m, c);
    }
  }

  /** The container's new reading is what the one container around it does not know yet. */
  lemma ExtensionChangesBelow(s: Store, u: Store, next: nat, m: Meaning, name: string, path: seq<nat>, b: nat, v: Value)
    requires Whole(s, next, m) && Owned(s, name, path) && Tidy(u, next) && Owned(u, name, path)
    requires Follow(u, name, path) == Follow(s, name, path)
    requires At(s, Follow(s, name, path).value) == Shared(b) && Extends(s, u, b)
    requires At(u, Follow(s, name, path).value) == Shared(b)
    requires forall k :: HasLoc(u, k) && At(u, k) == Shared(b) ==> k == Follow(s, name, path).value
    requires v == Node(u.blocks[b].shape, CellValues(m, u.blocks[b].cells))
    ensures ChangedBelow(u, m[b := v], name, path, v)
  {
    hide Exact, ShapesFit, Trail;
    var l := Follow(s, name, path).value;
    EndKeepsValue(s, name, path);
    assert b !in Holder(l);
    ExtensionIsCoherent(s, u, m, b);
    RereadBlock(u, m, b, l, v);
    if path != [] {
      OwnedBlocks(s, name, path, l.block);
      assert Coheres(s, m, l.block);
    }
  }

  lemma OtherRootsNotChanged(s: Store, u: Store, m: Meaning, name: string, path: seq<nat>, b: nat, v: Value)
    requires Follow(s, name, path).Some? && u.roots == s.roots
    requires forall k :: HasLoc(u, k) && At(u, k) == Shared(b) ==> k == Follow(s, name, path).value
    ensures path != [] ==> HandleValue(m[b := v], u.roots[name]) == HandleValue(m, s.roots[name])
    ensures forall x :: x in s.roots && x != name ==> HandleValue(m[b := v], u.roots[x]) == HandleValue(m, s.roots[x])
  {
    forall x | x in s.roots && (x != name || path != []) ensures u.roots[x] != Shared(b) {
      assert HasLoc(u, Root(x)) && At(u, Root(x)) == u.roots[x];
    }
  }

  /** New elements of an unshared container show in the variable the container belongs to, only. */
  lemma ExtensionReachesVariable(s: Store, u: Store, next: nat, m: Meaning, name: string, path: seq<nat>, b: nat, v: Value)
    returns (n: Meaning)
    requires Whole(s, next, m) && Owned(s, name, path) && Tidy(u, next)
    requires At(s, Follow(s, name, path).value) == Shared(b) && Extends(s, u, b) && s.blocks[b].count == 1
    requires NewRefsAvoid(s, u, b, TrailBlocks(s, name, path) + {b})
    requires v == Node(u.blocks[b].shape, CellValues(m, u.blocks[b].cells))
    ensures Whole(u, next, n) && Owned(u, name, path) && Follow(u, name, path) == Follow(s, name, path)
    ensures u.blocks[b].count == 1 && At(u, Follow(s, name, path).value) == Shared(b)
    ensures EnvOf(u, n) == EnvOf(s, m)[name := Replace(EnvOf(s, m)[name], path, v)]
  {
    OwnedAfterExtension(s, u, next, name, path, b);
    UnsharedAfterExtension(s, u, b, Follow(s, name, path).value, TrailBlocks(s, name, path) + {b});
    ExtensionChangesBelow(s, u, next, m, name, path, b, v);
    OtherRootsNotChanged(s, u, m, name, path, b, v);
    n := ChangeReachesVariable(s, u, m, m[b := v], name, path, v);
  }

  // ----- The copy before a change -----

  /** Half way through the copy of container b into the new container id, which the handle at l now
      refers to: the first i elements are there. */
  ghost predicate Copying(s: Store, t: Store, b: nat, id: nat, l: Loc, i: nat) {
    && b in s.blocks && id !in s.blocks && HasLoc(s, l)
    && t.roots.Keys == s.roots.Keys && t.blocks.Keys == s.blocks.Keys + {id}
    && (forall c :: c in s.blocks ==>
      t.blocks[c].shape == s.blocks[c].shape && |t.blocks[c].cells| == |s.blocks[c].cells| && t.blocks[c].count > 0)
    && t.blocks[id].count == 1 && t.blocks[id].shape == s.blocks[b].shape
    && |t.blocks[id].cells| == |s.blocks[b].cells| && i <= |s.blocks[b].cells|
    && (forall j :: 0 <= j < |s.blocks[b].cells| ==>
      t.blocks[id].cells[j] == if j < i then s.blocks[b].cells[j] else Nil)
    && forall k :: HasLoc(s, k) ==> HasLoc(t, k) && At(t, k) == if k == l then Shared(id) else At(s, k)
  }

  /** A new container with a count of one and n empty elements, referred to by the handle at l. */
  function Fresh(s: Store, l: Loc, id: nat, shape: Shape, n: nat): (t: Store)
    requires HasLoc(s, l) && id !in s.blocks
    ensures t.roots.Keys == s.roots.Keys && t.blocks.Keys == s.blocks.Keys + {id}
    ensures forall c :: c in s.blocks ==>
      && t.blocks[c].shape == s.blocks[c].shape && |t.blocks[c].cells| == |s.blocks[c].cells|
      && t.blocks[c].count == s.blocks[c].count
    ensures t.blocks[id].count == 1 && t.blocks[id].shape == shape && |t.blocks[id].cells| == n
    ensures forall j :: 0 <= j < n ==> t.blocks[id].cells[j] == Nil
    ensures forall k :: HasLoc(s, k) ==> HasLoc(t, k) && At(t, k) == if k == l then Shared(id) else At(s, k)
  {
    assert HasLoc(WithBlock(s, id, shape, n), l);
    Refer(WithBlock(s, id, shape, n), l, id)
  }

  lemma FreshIsTidy(s: Store, next: nat, l: Loc, shape: Shape, n: nat)
    requires Tidy(s, next) && HasLoc(s, l) && !At(s, l).Shared? && ShapeFits(Block(0, shape, seq(n, _ => Nil)))
    ensures Tidy(Fresh(s, l, next, shape, n), next + 1)
  {
    AdditionIsTidy(s, next, shape, n, next);
    ReferIsTidy(WithBlock(s, next, shape, n), next + 1, l, next);
  }

  function Separated(s: Store, l: Loc, b: nat, id: nat): Store
    requires HasLoc(s, l) && At(s, l) == Shared(b) && b in s.blocks && id !in s.blocks
  {
    Fresh(Unrefer(s, l), l, id, s.blocks[b].shape, |s.blocks[b].cells|)
  }

  lemma SeparatedIsTidy(s: Store, next: nat, b: nat, l: Loc)
    requires Tidy(s, next) && HasLoc(s, l) && At(s, l) == Shared(b) && b in s.blocks
    ensures Tidy(Separated(s, l, b, next), next + 1)
  {
    UnreferIsTidy(s, next, l);
    FreshIsTidy(Unrefer(s, l), next, l, s.blocks[b].shape, |s.blocks[b].cells|);
  }

  lemma CopyingStarts(s: Store, b: nat, id: nat, l: Loc)
    requires HasLoc(s, l) && At(s, l) == Shared(b) && b in s.blocks && s.blocks[b].count > 1 && id !in s.blocks
    requires forall c :: c in s.blocks ==> s.blocks[c].count > 0
    ensures Copying(s, Separated(s, l, b, id), b, id, l, 0)
  {
  }

  lemma SeparationStarts(s: Store, next: nat, m: Meaning, name: string, path: seq<nat>, b: nat, l: Loc)
    requires Whole(s, next, m) && Owned(s, name, path) && Follow(s, name, path) == Some(l)
    requires At(s, l) == Shared(b) && b in s.blocks && s.blocks[b].count > 1
    ensures Closed(s) && next !in s.blocks && b !in Holder(l)
    ensures Tidy(Separated(s, l, b, next), next + 1) && Copying(s, Separated(s, l, b, next), b, next, l, 0)
  {
    EndKeepsValue(s, name, path);
    SeparatedIsTidy(s, next, b, l);
    CopyingStarts(s, b, next, l);
  }

  lemma NextCopied(s: Store, t: Store, b: nat, id: nat, l: Loc, i: nat)
    requires Closed(s) && Copying(s, t, b, id, l, i) && i < |s.blocks[b].cells| && b !in Holder(l)
    ensures HasLoc(t, Slot(id, i)) && At(t, Slot(id, i)) == Nil
    ensures s.blocks[b].cells[i].Shared? ==> s.blocks[b].cells[i].block in s.blocks
    ensures b in t.blocks && i < |t.blocks[b].cells| && t.blocks[b].cells[i] == s.blocks[b].cells[i]
  {
    assert HasLoc(s, Slot(b, i)) && At(s, Slot(b, i)) == s.blocks[b].cells[i];
    assert HasLoc(t, Slot(id, i)) && At(t, Slot(id, i)) == t.blocks[id].cells[i];
  }

  lemma OneMoreCopied(s: Store, t: Store, b: nat, id: nat, l: Loc, i: nat)
    requires Copying(s, t, b, id, l, i) && i < |s.blocks[b].cells|
    requires HasLoc(t, Slot(id, i)) && At(t, Slot(id, i)) == Nil
    requires s.blocks[b].cells[i].Shared? ==> s.blocks[b].cells[i].block in s.blocks
    ensures Copying(s, Copied(t, Slot(id, i), s.blocks[b].cells[i]), b, id, l, i + 1)
  {
  }

  lemma CopyStep(s: Store, t: Store, next: nat, b: nat, id: nat, l: Loc, i: nat)
    requires Closed(s) && Tidy(t, next) && Copying(s, t, b, id, l, i) && i < |s.blocks[b].cells| && b !in Holder(l)
    ensures b in t.blocks && i < |t.blocks[b].cells| && HasLoc(t, Slot(id, i))
    ensures t.blocks[b].cells[i].Shared? ==> t.blocks[b].cells[i].block in t.blocks
    ensures var u := Copied(t, Slot(id, i), t.blocks[b].cells[i]); Tidy(u, next) && Copying(s, u, b, id, l, i + 1)
  {
    NextCopied(s, t, b, id, l, i);
    CopyIsTidy(t, next, Slot(id, i), s.blocks[b].cells[i]);
    OneMoreCopied(s, t, b, id, l, i);
  }

  // ----- What the copy means -----

  /** t is s after the handle at the end of the path got a container of its own: no value changed. */
  ghost predicate Unshared(s: Store, t: Store, next: nat, m: Meaning, n: Meaning, name: string, path: seq<nat>, l: Loc) {
    && Whole(t, next, n) && Owned(t, name, path) && Follow(t, name, path) == Some(l)
    && Follow(s, name, path) == Some(l) && Trail(t, name, path) == Trail(s, name, path)
    && At(t, l).Shared? && At(t, l).block in t.blocks && t.blocks[At(t, l).block].count == 1
    && At(s, l).Shared? && At(s, l).block in s.blocks
    && t.blocks[At(t, l).block].shape == s.blocks[At(s, l).block].shape
    && t.blocks[At(t, l).block].cells == s.blocks[At(s, l).block].cells
    && EnvOf(t, n) == EnvOf(s, m)
    && forall k :: HasLoc(s, k) ==> HasLoc(t, k) && HandleValue(n, At(t, k)) == HandleValue(m, At(s, k))
  }

  lemma AlreadyUnshared(s: Store, next: nat, m: Meaning, name: string, path: seq<nat>, l: Loc)
    requires Whole(s, next, m) && Owned(s, name, path) && Follow(s, name, path) == Some(l)
    requires At(s, l).Shared? && At(s, l).block in s.blocks && s.blocks[At(s, l).block].count <= 1
    ensures Unshared(s, s, next, m, m, name, path, l)
  {
  }

  /** The copy does not add a reference to a container on the way. */
  lemma OwnedAfterCopying(s: Store, t: Store, b: nat, id: nat, name: string, path: seq<nat>, l: Loc)
    requires Exact(s) && Closed(s) && Exact(t) && Closed(t) && Owned(s, name, path) && Follow(s, name, path) == Some(l)
    requires b in s.blocks && Copying(s, t, b, id, l, |s.blocks[b].cells|) && s.blocks[b].count > 1
    ensures Owned(t, name, path) && Follow(t, name, path) == Some(l) && Trail(t, name, path) == Trail(s, name, path)
  {
    if path != [] {
      EndNotOnTheWay(s, name, path);
    }
    forall k | HasLoc(t, k) && At(t, k).Shared? && At(t, k).block in TrailBlocks(s, name, path)
      ensures HasLoc(s, k) && At(s, k) == At(t, k)
    {
      OwnedBlocks(s, name, path, At(t, k).block);
      if k.Slot? && k.block == id {
        CopiedElementOffTrail(s, b, k.index, name, path);
        assert false;
      }
      NewLocIsInCopy(s, t, b, id, l, k);
    }
    OwnedCarries(s, t, name, path);
  }

  lemma NewLocIsInCopy(s: Store, t: Store, b: nat, id: nat, l: Loc, k: Loc)
    requires b in s.blocks && Copying(s, t, b, id, l, |s.blocks[b].cells|) && HasLoc(t, k) && !(k.Slot? && k.block == id)
    ensures HasLoc(s, k) && At(t, k) == if k == l then Shared(id) else At(s, k)
  {
  }

  lemma CopiedElementOffTrail(s: Store, b: nat, i: nat, name: string, path: seq<nat>)
    requires Exact(s) && Owned(s, name, path) && b in s.blocks && s.blocks[b].count > 1 && i < |s.blocks[b].cells|
    ensures s.blocks[b].cells[i].Shared? ==> s.blocks[b].cells[i].block !in TrailBlocks(s, name, path)
  {
    if s.blocks[b].cells[i].Shared? {
      if path != [] && Slot(b, i) in Trail(s, name, Init(path)) {
        TrailSlots(s, name, Init(path), Slot(b, i));
        OwnedBlocks(s, name, Init(path), b);
        assert false;
      }
      assert HasLoc(s, Slot(b, i)) && At(s, Slot(b, i)) == s.blocks[b].cells[i];
      OffTrail(s, name, path, Slot(b, i));
    }
  }

  lemma CopiedValues(s: Store, t: Store, m: Meaning, b: nat, id: nat, l: Loc)
    requires Closed(s) && b in s.blocks && b in m && Copying(s, t, b, id, l, |s.blocks[b].cells|) && At(s, l) == Shared(b)
    ensures forall k :: HasLoc(s, k) ==> HasLoc(t, k) && HandleValue(m[id := m[b]], At(t, k)) == HandleValue(m, At(s, k))
  {
    forall k | HasLoc(s, k)
      ensures HasLoc(t, k) && HandleValue(m[id := m[b]], At(t, k)) == HandleValue(m, At(s, k))
    {
      assert At(t, k) == if k == l then Shared(id) else At(s, k);
    }
  }

  lemma CopyingIsCoherent(s: Store, t: Store, m: Meaning, b: nat, id: nat, l: Loc)
    requires Closed(s) && Coherent(s, m, {}) && (forall c :: c in s.blocks ==> s.blocks[c].count > 0)
    requires b in s.blocks && Copying(s, t, b, id, l, |s.blocks[b].cells|) && At(s, l) == Shared(b)
    ensures b in m && Coherent(t, m[id := m[b]], {})
  {
    assert Coheres(s, m, b);
    CopiedValues(s, t, m, b, id, l);
    forall c | c in s.blocks ensures Coheres(t, m[id := m[b]], c) {
      assert Coheres(s, m, c);
      CopiedCells(s, t, m, b, id, l, c, c);
    }
    assert t.blocks[id].cells == s.blocks[b].cells;
    CopiedCells(s, t, m, b, id, l, b, id);
  }

  lemma CopiedCells(s: Store, t: Store, m: Meaning, b: nat, id: nat, l: Loc, o: nat, c: nat)
    requires o in s.blocks && c in t.blocks && |s.blocks[o].cells| == |t.blocks[c].cells| && b in m && id !in s.blocks
    requires forall k :: HasLoc(s, k) ==> HasLoc(t, k) && HandleValue(m[id := m[b]], At(t, k)) == HandleValue(m, At(s, k))
    requires c == o || (t.blocks[c].cells == s.blocks[o].cells && Closed(s))
    ensures CellValues(m[id := m[b]], t.blocks[c].cells) == CellValues(m, s.blocks[o].cells)
  {
    forall i | 0 <= i < |t.blocks[c].cells|
      ensures HandleValue(m[id := m[b]], t.blocks[c].cells[i]) == HandleValue(m, s.blocks[o].cells[i])
    {
      assert HasLoc(s, Slot(o, i)) && At(s, Slot(o, i)) == s.blocks[o].cells[i];
    }
  }

  lemma CopyingUnshares(s: Store, t: Store, next: nat, m: Meaning, b: nat, id: nat, name: string, path: seq<nat>, l: Loc)
    requires Whole(s, next, m) && Owned(s, name, path) && Follow(s, name, path) == Some(l) && At(s, l) == Shared(b)
    requires b in s.blocks && s.blocks[b].count > 1 && Copying(s, t, b, id, l, |s.blocks[b].cells|) && Tidy(t, next + 1)
    ensures b in m && Unshared(s, t, next + 1, m, m[id := m[b]], name, path, l)
  {
    hide Exact, ShapesFit, Owned, Follow, Trail;
    CopyingIsCoherent(s, t, m, b, id, l);
    CopiedValues(s, t, m, b, id, l);
    OwnedAfterCopying(s, t, b, id, name, path, l);
    CopiedRoots(s, t, m, b, id, l);
    assert t.blocks[id].cells == s.blocks[b].cells;
  }

  lemma CopiedRoots(s: Store, t: Store, m: Meaning, b: nat, id: nat, l: Loc)
    requires Closed(s) && b in s.blocks && b in m && Copying(s, t, b, id, l, |s.blocks[b].cells|) && At(s, l) == Shared(b)
    ensures EnvOf(t, m[id := m[b]]) == EnvOf(s, m)
  {
    CopiedValues(s, t, m, b, id, l);
    forall x | x in s.roots ensures HandleValue(m[id := m[b]], t.roots[x]) == HandleValue(m, s.roots[x]) {
      assert HasLoc(s, Root(x)) && At(t, Root(x)) == t.roots[x];
    }
  }

  // ----- Growth and append -----

  function NilValues(n: nat): seq<Value> {
    seq(n, _ => NilValue)
  }

  lemma GrownExtends(s: Store, b: nat, shape: Shape, extra: nat)
    requires b in s.blocks && forall c :: c in s.blocks ==> s.blocks[c].count > 0
    ensures Extends(s, Grown(s, b, shape, extra), b)
    ensures forall avoid :: NewRefsAvoid(s, Grown(s, b, shape, extra), b, avoid)
  {
  }

  lemma GrownValue(s: Store, m: Meaning, b: nat, shape: Shape, extra: nat)
    requires b in s.blocks && Coheres(s, m, b)
    ensures Node(shape, m[b].children + NilValues(extra))
      == Node(shape, CellValues(m, Grown(s, b, shape, extra).blocks[b].cells))
  {
    var cells := s.blocks[b].cells + seq(extra, _ => Nil);
    assert CellValues(m, cells) == CellValues(m, s.blocks[b].cells) + NilValues(extra);
  }

  /** Growing an unshared container by empty elements. */
  lemma GrowthReachesVariable(s: Store, next: nat, m: Meaning, name: string, path: seq<nat>, l: Loc, b: nat,
                              shape: Shape, extra: nat)
    returns (n: Meaning)
    requires Whole(s, next, m) && Owned(s, name, path) && Follow(s, name, path) == Some(l)
    requires At(s, l) == Shared(b) && b in s.blocks && s.blocks[b].count == 1
    requires ShapeFits(Block(0, shape, s.blocks[b].cells + seq(extra, _ => Nil)))
    ensures var u := Grown(s, b, shape, extra);
      && Whole(u, next, n) && Owned(u, name, path) && Follow(u, name, path) == Some(l)
      && At(u, l) == Shared(b) && u.blocks[b].count == 1 && b in m && m[b].Node?
      && EnvOf(u, n)
        == EnvOf(s, m)[name := Replace(EnvOf(s, m)[name], path, Node(shape, m[b].children + NilValues(extra)))]
  {
    GrowthIsTidy(s, b, shape, extra, next);
    GrownExtends(s, b, shape, extra);
    assert Coheres(s, m, b);
    GrownValue(s, m, b, shape, extra);
    n := ExtensionReachesVariable(s, Grown(s, b, shape, extra), next, m, name, path, b,
                                  Node(shape, m[b].children + NilValues(extra)));
  }

  /** One more element: a copy of handle h. */
  function Pushed(s: Store, b: nat, h: Handle): Store
    requires b in s.blocks && (h.Shared? ==> h.block in s.blocks)
  {
    var g := Grown(s, b, s.blocks[b].shape, 1);
    assert HasLoc(g, Slot(b, |s.blocks[b].cells|));
    Copied(g, Slot(b, |s.blocks[b].cells|), h)
  }

  lemma PushedExtends(s: Store, b: nat, h: Handle, avoid: set<nat>)
    requires b in s.blocks && (h.Shared? ==> h.block in s.blocks && h.block !in avoid)
    requires forall c :: c in s.blocks ==> s.blocks[c].count > 0
    ensures Extends(s, Pushed(s, b, h), b) && NewRefsAvoid(s, Pushed(s, b, h), b, avoid)
    ensures Pushed(s, b, h).blocks[b].cells == s.blocks[b].cells + [h]
    ensures Pushed(s, b, h).blocks[b].shape == s.blocks[b].shape
  {
    var g := Grown(s, b, s.blocks[b].shape, 1);
    assert g.blocks[b].cells == s.blocks[b].cells + [Nil];
    assert (s.blocks[b].cells + [Nil])[|s.blocks[b].cells| := h] == s.blocks[b].cells + [h];
  }

  lemma PushedIsTidy(s: Store, next: nat, b: nat, h: Handle)
    requires Tidy(s, next) && b in s.blocks && (h.Shared? ==> h.block in s.blocks) && s.blocks[b].shape.ArrayShape?
    ensures Tidy(Pushed(s, b, h), next)
  {
    GrowthIsTidy(s, b, ArrayShape, 1, next);
    var g := Grown(s, b, ArrayShape, 1);
    assert HasLoc(g, Slot(b, |s.blocks[b].cells|)) && At(g, Slot(b, |s.blocks[b].cells|)) == Nil;
    CopyIsTidy(g, next, Slot(b, |s.blocks[b].cells|), h);
  }

  lemma PushedValue(s: Store, m: Meaning, b: nat, h: Handle)
    requires b in s.blocks && Coheres(s, m, b)
    ensures CellValues(m, s.blocks[b].cells + [h]) == m[b].children + [HandleValue(m, h)]
  {
  }

  /** A handle off the trail of an unshared container does not lead to that container either. */
  lemma SourceOffTrail(s: Store, name: string, path: seq<nat>, l: Loc, b: nat, src: Loc)
    requires Exact(s) && Closed(s) && Owned(s, name, path) && Follow(s, name, path) == Some(l)
    requires At(s, l) == Shared(b) && b in s.blocks && s.blocks[b].count == 1
    requires HasLoc(s, src) && src !in Trail(s, name, path)
    ensures At(s, src).Shared? ==>
      At(s, src).block in s.blocks && At(s, src).block !in TrailBlocks(s, name, path) + {b}
  {
    if At(s, src).Shared? {
      OffTrail(s, name, path, src);
      SoleReferrer(s, b, l);
    }
  }

  /** Appending a handle that is neither the array nor one it is inside of: the array's variable has
      one more element, with the value of the handle, and nothing else has changed. */
  lemma AppendReachesVariable(s: Store, next: nat, m: Meaning, name: string, path: seq<nat>, l: Loc, b: nat, src: Loc)
    returns (n: Meaning)
    requires Whole(s, next, m) && Owned(s, name, path) && Follow(s, name, path) == Some(l)
    requires At(s, l) == Shared(b) && b in s.blocks && s.blocks[b].count == 1 && s.blocks[b].shape.ArrayShape?
    requires HasLoc(s, src) && src !in Trail(s, name, path)
    ensures At(s, src).Shared? ==> At(s, src).block in s.blocks
    ensures var u := Pushed(s, b, At(s, src));
      && Whole(u, next, n) && Owned(u, name, path) && Follow(u, name, path) == Some(l) && b in m && m[b].Node?
      && EnvOf(u, n) == EnvOf(s, m)[name := Replace(EnvOf(s, m)[name], path,
        Node(ArrayShape, m[b].children + [HandleValue(m, At(s, src))]))]
  {
    var h := At(s, src);
    SourceOffTrail(s, name, path, l, b, src);
    assert Coheres(s, m, b);
    PushedExtends(s, b, h, TrailBlocks(s, name, path) + {b});
    PushedIsTidy(s, next, b, h);
    PushedValue(s, m, b, h);
    n := ExtensionReachesVariable(s, Pushed(s, b, h), next, m, name, path, b,
                                  Node(ArrayShape, m[b].children + [HandleValue(m, h)]));
  }

  // ----- Variables come and go -----

  function WithRoot(s: Store, name: string): Store {
    s.(roots := s.roots[name := Nil])
  }

  /** t is s but for an empty variable that only one of them has. */
  ghost predicate EmptyRootApart(s: Store, t: Store, name: string) {
    && t.blocks == s.blocks
    && (forall x :: x != name ==> (x in t.roots <==> x in s.roots))
    && (forall x :: x in s.roots && x in t.roots && x != name ==> t.roots[x] == s.roots[x])
    && (name in s.roots ==> s.roots[name] == Nil) && (name in t.roots ==> t.roots[name] == Nil)
  }

  lemma EmptyRootIsNoReferrer(s: Store, t: Store, name: string, b: nat)
    requires EmptyRootApart(s, t, name)
    ensures Referrers(s, b) == Referrers(t, b)
  {
    forall k ensures (HasLoc(s, k) && At(s, k) == Shared(b)) <==> (HasLoc(t, k) && At(t, k) == Shared(b)) {
    }
    SameReferrers(s, t, b);
  }

  lemma EmptyRootIsTidy(s: Store, t: Store, name: string, next: nat)
    requires Tidy(s, next) && EmptyRootApart(s, t, name)
    ensures Tidy(t, next)
  {
    forall b | b in t.blocks ensures t.blocks[b].count == |Referrers(t, b)| {
      EmptyRootIsNoReferrer(s, t, name, b);
    }
    forall k | HasLoc(t, k) && At(t, k).Shared? ensures HasLoc(s, k) && At(s, k) == At(t, k) {
    }
  }

  lemma SameBlocksCohere(s: Store, t: Store, m: Meaning)
    requires Coherent(s, m, {}) && t.blocks == s.blocks
    ensures Coherent(t, m, {})
  {
    forall b | b in t.blocks && t.blocks[b].count > 0 ensures Coheres(t, m, b) {
      assert Coheres(s, m, b);
    }
  }

  lemma NewRootIsWhole(s: Store, next: nat, m: Meaning, name: string)
    requires Whole(s, next, m) && name !in s.roots
    ensures Whole(WithRoot(s, name), next, m)
    ensures EnvOf(WithRoot(s, name), m) == EnvOf(s, m)[name := NilValue]
  {
    hide Tidy, Coherent;
    EmptyRootIsTidy(s, WithRoot(s, name), name, next);
    SameBlocksCohere(s, WithRoot(s, name), m);
  }

  lemma PlainValueIsSet(s: Store, next: nat, m: Meaning, name: string, p: Plain)
    requires Whole(s, next, m) && name in s.roots && s.roots[name] == Nil
    ensures Whole(Write(s, Root(name), Single(p)), next, m)
    ensures EnvOf(Write(s, Root(name), Single(p)), m) == EnvOf(s, m)[name := PlainValue(p)]
  {
    WriteIsTidy(s, next, Root(name), Single(p));
    var t := Write(s, Root(name), Single(p));
    forall b | b in t.blocks ensures Coheres(t, m, b) {
      assert Coheres(s, m, b);
    }
  }

  lemma EmptyContainerIsSet(s: Store, next: nat, m: Meaning, name: string, shape: Shape)
    requires Whole(s, next, m) && name in s.roots && s.roots[name] == Nil
    requires shape == ArrayShape || shape == TableShape([])
    ensures next !in s.blocks
    ensures var t, n := Fresh(s, Root(name), next, shape, 0), m[next := Node(shape, [])];
      Whole(t, next + 1, n) && EnvOf(t, n) == EnvOf(s, m)[name := Node(shape, [])]
  {
    var t, n := Fresh(s, Root(name), next, shape, 0), m[next := Node(shape, [])];
    FreshIsTidy(s, next, Root(name), shape, 0);
    FreshIsCoherent(s, next, m, name, shape);
    assert forall b :: b in t.blocks ==> t.blocks[b].count > 0;
    FreshRoots(s, next, m, name, shape);
  }

  lemma FreshRoots(s: Store, next: nat, m: Meaning, name: string, shape: Shape)
    requires Tidy(s, next) && name in s.roots
    ensures EnvOf(Fresh(s, Root(name), next, shape, 0), m[next := Node(shape, [])])
      == EnvOf(s, m)[name := Node(shape, [])]
  {
    var t, n := Fresh(s, Root(name), next, shape, 0), m[next := Node(shape, [])];
    FreshKeepsValues(s, next, m, name, shape);
    forall x | x in s.roots && x != name ensures HandleValue(n, t.roots[x]) == HandleValue(m, s.roots[x]) {
      assert HasLoc(s, Root(x)) && At(t, Root(x)) == t.roots[x];
    }
    assert HasLoc(s, Root(name)) && At(t, Root(name)) == Shared(next);
  }

  lemma FreshKeepsValues(s: Store, next: nat, m: Meaning, name: string, shape: Shape)
    requires Tidy(s, next) && name in s.roots
    ensures var t, n := Fresh(s, Root(name), next, shape, 0), m[next := Node(shape, [])];
      forall k :: HasLoc(s, k) && k != Root(name) ==> HasLoc(t, k) && HandleValue(n, At(t, k)) == HandleValue(m, At(s, k))
  {
  }

  lemma FreshIsCoherent(s: Store, next: nat, m: Meaning, name: string, shape: Shape)
    requires Whole(s, next, m) && name in s.roots
    ensures Coherent(Fresh(s, Root(name), next, shape, 0), m[next := Node(shape, [])], {})
  {
    var t, n := Fresh(s, Root(name), next, shape, 0), m[next := Node(shape, [])];
    FreshKeepsValues(s, next, m, name, shape);
    forall b | b in t.blocks ensures Coheres(t, n, b) {
      if b == next {
        assert CellValues(n, t.blocks[b].cells) == [];
      } else {
        assert Coheres(s, m, b);
        SameCells(s, t, m, n, b);
      }
    }
  }

  lemma SameCells(s: Store, t: Store, m: Meaning, n: Meaning, b: nat)
    requires b in s.blocks && b in t.blocks && |s.blocks[b].cells| == |t.blocks[b].cells|
    requires forall i :: 0 <= i < |s.blocks[b].cells| ==>
      HasLoc(s, Slot(b, i)) && HasLoc(t, Slot(b, i)) && HandleValue(n, At(t, Slot(b, i))) == HandleValue(m, At(s, Slot(b, i)))
    ensures CellValues(n, t.blocks[b].cells) == CellValues(m, s.blocks[b].cells)
  {
    forall i | 0 <= i < |s.blocks[b].cells|
      ensures HandleValue(n, t.blocks[b].cells[i]) == HandleValue(m, s.blocks[b].cells[i])
    {
      assert HasLoc(s, Slot(b, i)) && HasLoc(t, Slot(b, i));
    }
  }

  function WithoutRoot(s: Store, name: string): Store {
    s.(roots := s.roots - {name})
  }

  /** A destroyed variable takes nothing of the others with it. */
  lemma DestroyedRootIsGone(s: Store, t: Store, next: nat, m: Meaning, name: string)
    requires Whole(s, next, m) && name in s.roots
    requires Deleted(s, t, next, m, {}, Root(name), HandleValue(m, s.roots[name]))
    ensures Whole(WithoutRoot(t, name), next, m)
    ensures EnvOf(WithoutRoot(t, name), m) == EnvOf(s, m) - {name}
  {
    var u := WithoutRoot(t, name);
    CountsAreNatural(t);
    assert HasLoc(t, Root(name)) && At(t, Root(name)) == Nil;
    EmptyRootIsTidy(t, u, name, next);
    SameBlocksCohere(t, u, m);
    RemainingRoots(s, t, m, name);
  }

  lemma RemainingRoots(s: Store, t: Store, m: Meaning, name: string)
    requires name in s.roots && Pruned(s, t, {Root(name)})
    ensures EnvOf(WithoutRoot(t, name), m) == EnvOf(s, m) - {name}
  {
    forall x | x in t.roots && x != name ensures t.roots[x] == s.roots[x] {
      assert HasLoc(t, Root(x)) && At(t, Root(x)) == At(s, Root(x));
    }
  }
}
