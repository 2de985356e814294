/** What destroying handles does to the store: containers nobody shares any more go away with
    everything only they kept alive, and nothing else changes. */
module AnyValRelease {
  import opened AnyValStore

  ghost predicate Tidy(s: Store, next: nat) {
    Closed(s) && Exact(s) && ShapesFit(s) && forall b :: b in s.blocks ==> b < next
  }

  /** t is s with containers taken away and, at the handles in `except`, other contents. */
  ghost predicate Pruned(s: Store, t: Store, except: set<Loc>) {
    && t.roots.Keys == s.roots.Keys && t.blocks.Keys <= s.blocks.Keys
    && (forall b :: b in t.blocks ==>
      && t.blocks[b].shape == s.blocks[b].shape && |t.blocks[b].cells| == |s.blocks[b].cells|)
    && forall l :: HasLoc(t, l) && l !in except ==> HasLoc(s, l) && At(t, l) == At(s, l)
  }

  /** Counts only fell; whatever lost its last reference is gone, and only containers whose value is
      no larger than `limit` are. */
  ghost predicate FreedBelow(s: Store, t: Store, m: Meaning, limit: int) {
    && (forall b :: b in s.blocks && b in t.blocks ==>
      t.blocks[b].count <= s.blocks[b].count && (t.blocks[b].count == 0 ==> s.blocks[b].count == 0))
    && forall b :: b in s.blocks && b !in t.blocks ==> s.blocks[b].count > 0 && b in m && Size(m[b]) <= limit
  }

  lemma PrunedTransitive(s: Store, t: Store, u: Store, e: set<Loc>, f: set<Loc>)
    requires Pruned(s, t, e) && Pruned(t, u, f)
    ensures Pruned(s, u, e + f)
  {
    forall l | HasLoc(u, l) && l !in e + f ensures HasLoc(s, l) && At(u, l) == At(s, l) {
      assert HasLoc(t, l) && At(u, l) == At(t, l);
    }
  }

  lemma FreedTransitive(s: Store, t: Store, u: Store, m: Meaning, limit: int)
    requires FreedBelow(s, t, m, limit) && FreedBelow(t, u, m, limit)
    requires t.blocks.Keys <= s.blocks.Keys && u.blocks.Keys <= t.blocks.Keys
    ensures FreedBelow(s, u, m, limit)
  {
  }

  lemma CountsAreNatural(s: Store)
    requires Exact(s)
    ensures forall b :: b in s.blocks ==> s.blocks[b].count >= 0
  {
  }

  /** What is left still reads as before, but for the container of the cleared handle. */
  lemma PrunedCoherent(s: Store, t: Store, m: Meaning, l: Loc, holes: set<nat>)
    requires Pruned(s, t, {l}) && Coherent(s, m, holes)
    requires forall b :: b in t.blocks && t.blocks[b].count > 0 ==> s.blocks[b].count > 0
    ensures Coherent(t, m, holes + Holder(l))
  {
    forall b | b in t.blocks && t.blocks[b].count > 0 && b !in holes + Holder(l) ensures Coheres(t, m, b) {
      assert Coheres(s, m, b);
      forall i | 0 <= i < |t.blocks[b].cells| ensures t.blocks[b].cells[i] == s.blocks[b].cells[i] {
        assert HasLoc(t, Slot(b, i)) && Slot(b, i) != l;
        assert At(t, Slot(b, i)) == At(s, Slot(b, i));
      }
      assert t.blocks[b].cells == s.blocks[b].cells;
    }
  }

  /** A container that nobody refers to and that refers to nobody can go. */
  lemma RemovalIsTidy(s: Store, b: nat, next: nat)
    requires Tidy(s, next) && b in s.blocks && s.blocks[b].count == 0
    requires forall i :: 0 <= i < |s.blocks[b].cells| ==> s.blocks[b].cells[i] == Nil
    ensures Tidy(s.(blocks := s.blocks - {b}), next)
  {
    var t := s.(blocks := s.blocks - {b});
    UnreferredMeansNone(s, b);
    forall l | HasLoc(t, l) ensures HasLoc(s, l) && At(t, l) == At(s, l) {
    }
    forall c | c in t.blocks ensures t.blocks[c].count == |Referrers(t, c)| {
      forall l ensures (HasLoc(s, l) && At(s, l) == Shared(c)) <==> (HasLoc(t, l) && At(t, l) == Shared(c)) {
        if HasLoc(s, l) && At(s, l) == Shared(c) {
          assert l.Slot? ==> l.block != b;
        }
      }
      SameReferrers(s, t, c);
    }
  }

  /** A new container without any reference yet. */
  function WithBlock(s: Store, b: nat, shape: Shape, n: nat): Store {
    s.(blocks := s.blocks[b := Block(0, shape, seq(n, _ => Nil))])
  }

  lemma AdditionIsTidy(s: Store, b: nat, shape: Shape, n: nat, next: nat)
    requires Tidy(s, next) && b == next
    requires ShapeFits(Block(0, shape, seq(n, _ => Nil)))
    ensures Tidy(WithBlock(s, b, shape, n), next + 1)
  {
    var t := WithBlock(s, b, shape, n);
    forall l | HasLoc(s, l) ensures HasLoc(t, l) && At(t, l) == At(s, l) {
    }
    forall l | HasLoc(t, l) && !HasLoc(s, l) ensures At(t, l) == Nil {
    }
    forall c | c in t.blocks ensures t.blocks[c].count == |Referrers(t, c)| {
      SameReferrers(s, t, c);
      if c == b {
        assert Referrers(s, b) == {};
      }
    }
  }

  /** A container that grows by empty elements. */
  function Grown(s: Store, b: nat, shape: Shape, extra: nat): Store
    requires b in s.blocks
  {
    s.(blocks := s.blocks[b := Block(s.blocks[b].count, shape, s.blocks[b].cells + seq(extra, _ => Nil))])
  }

  lemma GrowthIsTidy(s: Store, b: nat, shape: Shape, extra: nat, next: nat)
    requires Tidy(s, next) && b in s.blocks
    requires ShapeFits(Block(0, shape, s.blocks[b].cells + seq(extra, _ => Nil)))
    ensures Tidy(Grown(s, b, shape, extra), next)
  {
    var t := Grown(s, b, shape, extra);
    forall l | HasLoc(s, l) ensures HasLoc(t, l) && At(t, l) == At(s, l) {
    }
    forall l | HasLoc(t, l) && !HasLoc(s, l) ensures At(t, l) == Nil {
    }
    forall c | c in t.blocks ensures t.blocks[c].count == |Referrers(t, c)| {
      SameReferrers(s, t, c);
    }
  }

  /** The store is in order: only the containers in `holes` hold an element their recorded value
      does not know of. */
  ghost predicate Steady(s: Store, next: nat, m: Meaning, holes: set<nat>) {
    Tidy(s, next) && Coherent(s, m, holes)
  }

  /** Those containers are larger than what is being destroyed, so they stay. */
  ghost predicate LargerThan(s: Store, m: Meaning, holes: set<nat>, size: int) {
    forall p :: p in holes && p in s.blocks && s.blocks[p].count > 0 ==> p in m && Size(m[p]) > size
  }

  lemma WriteIsTidy(s: Store, next: nat, l: Loc, h: Handle)
    requires Tidy(s, next) && HasLoc(s, l) && !At(s, l).Shared? && !h.Shared?
    ensures Tidy(Write(s, l, h), next)
  {
    PlainWriteIsExact(s, l, h);
  }

  lemma UnreferIsTidy(s: Store, next: nat, l: Loc)
    requires Tidy(s, next) && HasLoc(s, l) && At(s, l).Shared?
    ensures Tidy(Unrefer(s, l), next)
  {
    UnreferIsExact(s, l);
  }

  lemma ReferIsTidy(s: Store, next: nat, l: Loc, b: nat)
    requires Tidy(s, next) && HasLoc(s, l) && !At(s, l).Shared? && b in s.blocks
    ensures Tidy(Refer(s, l, b), next)
  {
    ReferIsExact(s, l, b);
  }

  lemma WriteIsPruned(s: Store, m: Meaning, l: Loc, h: Handle)
    requires HasLoc(s, l)
    ensures Pruned(s, Write(s, l, h), {l})
    ensures forall limit :: FreedBelow(s, Write(s, l, h), m, limit)
  {
  }

  lemma UnreferIsPruned(s: Store, l: Loc)
    requires HasLoc(s, l) && At(s, l).Shared? && At(s, l).block in s.blocks
    ensures Pruned(s, Unrefer(s, l), {l})
  {
  }

  lemma ClearingIsSteady(s: Store, next: nat, m: Meaning, holes: set<nat>, l: Loc)
    requires Steady(s, next, m, holes) && HasLoc(s, l) && !At(s, l).Shared?
    ensures Steady(Write(s, l, Nil), next, m, holes + Holder(l))
    ensures Pruned(s, Write(s, l, Nil), {l}) && forall limit :: FreedBelow(s, Write(s, l, Nil), m, limit)
  {
    WriteIsTidy(s, next, l, Nil);
    WriteIsPruned(s, m, l, Nil);
    PrunedCoherent(s, Write(s, l, Nil), m, l, holes);
  }

  lemma DetachingIsSteady(s: Store, next: nat, m: Meaning, holes: set<nat>, l: Loc)
    requires Steady(s, next, m, holes) && HasLoc(s, l) && At(s, l).Shared?
    ensures At(s, l).block in s.blocks && s.blocks[At(s, l).block].count > 0
    ensures Steady(Unrefer(s, l), next, m, holes + Holder(l)) && Pruned(s, Unrefer(s, l), {l})
  {
    ReferredIsCounted(s, l);
    UnreferIsTidy(s, next, l);
    UnreferIsPruned(s, l);
    PrunedCoherent(s, Unrefer(s, l), m, l, holes);
  }

  /** The container of a handle is larger than what the handle shares. */
  lemma HolderIsLarger(s: Store, next: nat, m: Meaning, holes: set<nat>, l: Loc, v: Value)
    requires Steady(s, next, m, holes) && HasLoc(s, l) && At(s, l).Shared? && HandleValue(m, At(s, l)) == v
    requires LargerThan(s, m, holes, Size(v)) && Holder(l) !! holes
    ensures At(s, l).block in s.blocks && At(s, l).block !in holes + Holder(l) && Coheres(s, m, At(s, l).block)
    ensures LargerThan(Unrefer(s, l), m, holes + Holder(l), Size(v))
  {
    hide Exact, ShapesFit, Size, CellValues;
    ReferredIsCounted(s, l);
    if l.Slot? && s.blocks[l.block].count > 0 {
      ElementIsSmaller(s, m, l.block, l.index);
    }
  }

  /** A handle that may be given up while the containers in `holes` wait for a new element. */
  ghost predicate Deletable(s: Store, next: nat, m: Meaning, holes: set<nat>, l: Loc, v: Value) {
    && Steady(s, next, m, holes) && HasLoc(s, l) && HandleValue(m, At(s, l)) == v
    && LargerThan(s, m, holes, Size(v)) && Holder(l) !! holes
  }

  /** The handle at l is empty, whatever lost its last reference is gone, all else is as before. */
  ghost predicate Deleted(s: Store, t: Store, next: nat, m: Meaning, holes: set<nat>, l: Loc, v: Value) {
    && HasLoc(t, l) && At(t, l) == Nil && Steady(t, next, m, holes + Holder(l))
    && Pruned(s, t, {l}) && FreedBelow(s, t, m, Size(v))
  }

  lemma ClearingDeletes(s: Store, next: nat, m: Meaning, holes: set<nat>, l: Loc, v: Value)
    requires Deletable(s, next, m, holes, l, v) && !At(s, l).Shared?
    ensures Deleted(s, Write(s, l, Nil), next, m, holes, l, v)
  {
    ClearingIsSteady(s, next, m, holes, l);
  }

  /** After the handle stopped counting, a container without references can be destroyed. */
  lemma DetachingPrepares(s: Store, next: nat, m: Meaning, holes: set<nat>, l: Loc, v: Value)
    requires Deletable(s, next, m, holes, l, v) && At(s, l).Shared?
    ensures var b := At(s, l).block;
      && b in s.blocks && s.blocks[b].count > 0 && b !in holes + Holder(l)
      && v.Node? && v.children == CellValues(m, Unrefer(s, l).blocks[b].cells)
      && Steady(Unrefer(s, l), next, m, holes + Holder(l))
      && LargerThan(Unrefer(s, l), m, holes + Holder(l), Size(v))
  {
    DetachingIsSteady(s, next, m, holes, l);
    HolderIsLarger(s, next, m, holes, l, v);
  }

  lemma DetachingDeletes(s: Store, next: nat, m: Meaning, holes: set<nat>, l: Loc, v: Value)
    requires Deletable(s, next, m, holes, l, v) && At(s, l).Shared?
    requires At(s, l).block in s.blocks && s.blocks[At(s, l).block].count != 1
    ensures Deleted(s, Unrefer(s, l), next, m, holes, l, v)
  {
    DetachingIsSteady(s, next, m, holes, l);
    UnreferFrees(s, m, l, Size(v));
  }

  lemma UnreferFrees(s: Store, m: Meaning, l: Loc, limit: int)
    requires HasLoc(s, l) && At(s, l).Shared? && At(s, l).block in s.blocks && s.blocks[At(s, l).block].count != 1
    ensures FreedBelow(s, Unrefer(s, l), m, limit)
  {
  }

  /** The last reference went, and then the container. */
  lemma FreeingDeletes(s: Store, t: Store, next: nat, m: Meaning, holes: set<nat>, l: Loc, v: Value)
    requires Deletable(s, next, m, holes, l, v) && At(s, l).Shared?
    requires At(s, l).block in s.blocks && s.blocks[At(s, l).block].count > 0
    requires Dismantled(Unrefer(s, l), t, next, m, holes + Holder(l), At(s, l).block, v)
    ensures Deleted(s, t, next, m, holes, l, v)
  {
    hide Tidy, Coherent, LargerThan, FreedBelow, Size;
    HolderIsLarger(s, next, m, holes, l, v);
    UnreferIsPruned(s, l);
    PrunedTransitive(s, Unrefer(s, l), t, {l}, {});
    FreedWithBlock(s, t, m, l, v);
    HolderStays(s, t, next, m, holes, l, v);
  }

  lemma FreedWithBlock(s: Store, t: Store, m: Meaning, l: Loc, v: Value)
    requires HasLoc(s, l) && At(s, l).Shared?
    requires At(s, l).block in s.blocks && s.blocks[At(s, l).block].count > 0 && At(s, l).block !in t.blocks
    requires At(s, l).block in m && m[At(s, l).block] == v
    requires FreedBelow(Without(Unrefer(s, l), At(s, l).block), t, m, Size(v) - 1)
    ensures FreedBelow(s, t, m, Size(v))
  {
    var u := Without(Unrefer(s, l), At(s, l).block);
    forall c | c in s.blocks && c != At(s, l).block
      ensures c in u.blocks && u.blocks[c].count == s.blocks[c].count
    {
    }
  }

  /** The container of the cleared handle is too large to have been part of what it shared. */
  lemma HolderStays(s: Store, t: Store, next: nat, m: Meaning, holes: set<nat>, l: Loc, v: Value)
    requires Deletable(s, next, m, holes, l, v) && At(s, l).Shared?
    requires At(s, l).block in s.blocks && At(s, l).block !in holes + Holder(l)
    requires LargerThan(Unrefer(s, l), m, holes + Holder(l), Size(v))
    requires Dismantled(Unrefer(s, l), t, next, m, holes + Holder(l), At(s, l).block, v)
    ensures HasLoc(t, l) && At(t, l) == Nil
  {
    var u := Unrefer(s, l);
    assert l.Slot? ==> l.block in Without(u, At(s, l).block).blocks;
    assert HasLoc(u, l) && At(u, l) == Nil;
    assert HasLoc(t, l);
    assert At(t, l) == At(u, l);
  }

  /** A container is gone with all that only it kept alive. */
  ghost predicate Dismantled(s: Store, t: Store, next: nat, m: Meaning, holes: set<nat>, b: nat, v: Value) {
    && b !in t.blocks && Steady(t, next, m, holes) && Pruned(s, t, {})
    && FreedBelow(Without(s, b), t, m, Size(v) - 1)
  }

  function Without(s: Store, b: nat): Store {
    s.(blocks := s.blocks - {b})
  }

  function SlotsBelow(b: nat, n: nat): set<Loc> {
    set i | 0 <= i < n :: Slot(b, i)
  }

  /** Half way through the destruction of container b: its first i elements are gone. */
  ghost predicate Dismantling(s: Store, t: Store, next: nat, m: Meaning, holes: set<nat>, b: nat, v: Value, i: nat) {
    && Steady(t, next, m, holes) && LargerThan(t, m, holes, Size(v))
    && b in t.blocks && t.blocks[b].count == 0 && b !in holes
    && b in s.blocks && |t.blocks[b].cells| == |s.blocks[b].cells| && i <= |t.blocks[b].cells|
    && v.Node? && v.children == CellValues(m, s.blocks[b].cells)
    && (forall j :: 0 <= j < i ==> t.blocks[b].cells[j] == Nil)
    && Pruned(s, t, SlotsBelow(b, i)) && FreedBelow(s, t, m, Size(v) - 1)
  }

  lemma DismantlingStarts(s: Store, next: nat, m: Meaning, holes: set<nat>, b: nat, v: Value)
    requires Steady(s, next, m, holes) && LargerThan(s, m, holes, Size(v))
    requires b in s.blocks && s.blocks[b].count == 0 && b !in holes
    requires v.Node? && v.children == CellValues(m, s.blocks[b].cells)
    ensures Dismantling(s, s, next, m, holes, b, v, 0)
  {
  }

  lemma NextElement(s: Store, t: Store, next: nat, m: Meaning, holes: set<nat>, b: nat, v: Value, i: nat)
    requires Dismantling(s, t, next, m, holes, b, v, i) && i < |s.blocks[b].cells|
    ensures |v.children| == |s.blocks[b].cells| && Size(v.children[i]) < Size(v)
    ensures Deletable(t, next, m, holes, Slot(b, i), v.children[i])
  {
    assert HasLoc(t, Slot(b, i)) && Slot(b, i) !in SlotsBelow(b, i);
    assert At(t, Slot(b, i)) == At(s, Slot(b, i));
    ChildIsSmaller(v.children, i);
  }

  /** One more element destroyed. */
  lemma OneMoreFreed(s: Store, t: Store, u: Store, next: nat, m: Meaning, holes: set<nat>, b: nat, v: Value, i: nat)
    requires Dismantling(s, t, next, m, holes, b, v, i) && i < |s.blocks[b].cells|
    requires i < |v.children| && Deleted(t, u, next, m, holes, Slot(b, i), v.children[i])
    ensures Dismantling(s, u, next, m, holes, b, v, i + 1)
  {
    ChildIsSmaller(v.children, i);
    FreedMeanwhile(s, t, u, m, b, i, Size(v) - 1, Size(v.children[i]));
    assert b in u.blocks && u.blocks[b].count == 0 by { CountsAreNatural(u); }
    EmptyHole(u, next, m, holes, b);
    StillLarger(t, u, m, holes, Size(v));
    EarlierStayCleared(t, u, b, i);
  }

  lemma FreedMeanwhile(s: Store, t: Store, u: Store, m: Meaning, b: nat, i: nat, limit: int, size: int)
    requires Pruned(s, t, SlotsBelow(b, i)) && FreedBelow(s, t, m, limit)
    requires Pruned(t, u, {Slot(b, i)}) && FreedBelow(t, u, m, size) && size <= limit
    ensures Pruned(s, u, SlotsBelow(b, i + 1)) && FreedBelow(s, u, m, limit)
  {
    PrunedTransitive(s, t, u, SlotsBelow(b, i), {Slot(b, i)});
    assert SlotsBelow(b, i) + {Slot(b, i)} == SlotsBelow(b, i + 1);
    FreedTransitive(s, t, u, m, limit);
  }

  lemma EmptyHole(u: Store, next: nat, m: Meaning, holes: set<nat>, b: nat)
    requires Steady(u, next, m, holes + {b}) && b in u.blocks && u.blocks[b].count == 0
    ensures Steady(u, next, m, holes)
  {
  }

  lemma StillLarger(t: Store, u: Store, m: Meaning, holes: set<nat>, size: int)
    requires LargerThan(t, m, holes, size) && u.blocks.Keys <= t.blocks.Keys && FreedBelow(t, u, m, size - 1)
    ensures LargerThan(u, m, holes, size)
  {
  }

  lemma EarlierStayCleared(t: Store, u: Store, b: nat, i: nat)
    requires b in t.blocks && b in u.blocks && i < |t.blocks[b].cells| == |u.blocks[b].cells|
    requires forall j :: 0 <= j < i ==> t.blocks[b].cells[j] == Nil
    requires Pruned(t, u, {Slot(b, i)}) && u.blocks[b].cells[i] == Nil
    ensures forall j :: 0 <= j < i + 1 ==> u.blocks[b].cells[j] == Nil
  {
    forall j | 0 <= j < i ensures u.blocks[b].cells[j] == Nil {
      assert HasLoc(u, Slot(b, j)) && Slot(b, j) != Slot(b, i);
      assert At(u, Slot(b, j)) == At(t, Slot(b, j));
    }
  }

  /** All elements destroyed: the container goes, and no handle outside it changed. */
  lemma AllFreed(s: Store, t: Store, next: nat, m: Meaning, holes: set<nat>, b: nat, v: Value)
    requires b in s.blocks && Dismantling(s, t, next, m, holes, b, v, |s.blocks[b].cells|)
    ensures Dismantled(s, Without(t, b), next, m, holes, b, v)
  {
    var u := Without(t, b);
    RemovalIsTidy(t, b, next);
    forall c | c in u.blocks && u.blocks[c].count > 0 && c !in holes ensures Coheres(u, m, c) {
      assert Coheres(t, m, c);
    }
    forall l | HasLoc(u, l) ensures HasLoc(s, l) && At(u, l) == At(s, l) {
      assert HasLoc(t, l) && l !in SlotsBelow(b, |t.blocks[b].cells|);
    }
  }
}
