/** Every level of the tree covers the whole key space, and what that means for announcements. */
module BLinkCover {
  import opened InternalNode
  import opened BLink
  import opened BLinkSearch

  /** p is a node of the given level whose range holds k. */
  predicate CoversAt(t: Tree, level: nat, k: Key, p: Addr) {
    p in t.nodes && t.nodes[p].level == level && t.nodes[p].lo <= k < t.nodes[p].hi
  }

  /** The leftmost node of a level: down along first kids from a node above it. */
  lemma {:induction false} Leftmost(t: Tree, from: Addr, level: nat) returns (p: Addr)
    requires Inv(t) && from in t.nodes && t.nodes[from].lo == t.bottom && level <= t.nodes[from].level
    ensures p in t.nodes && t.nodes[p].level == level && t.nodes[p].lo == t.bottom
    decreases t.nodes[from].level
  {
    p := from;
    if level < t.nodes[from].level {
      assert Imaged(t, from) && GoodImage(t, t.nodes[from]);
      p := Leftmost(t, t.nodes[from].kids[0].ptr, level);
    }
  }

  /** Right along siblings to the node whose range holds k. */
  lemma {:induction false} WalkToCover(t: Tree, from: Addr, k: Key) returns (p: Addr)
    requires Inv(t) && from in t.nodes && t.nodes[from].lo <= k < t.top
    ensures CoversAt(t, t.nodes[from].level, k, p)
    decreases t.top - t.nodes[from].lo
  {
    p := from;
    assert GoodLink(t, from);
    if t.nodes[from].hi <= k {
      p := WalkToCover(t, t.nodes[from].sibling, k);
    }
  }

  /** Fences partition the key space: on every level, every key is in the range of exactly one node. */
  lemma LevelsPartition(t: Tree, level: nat, k: Key)
    requires Inv(t) && level <= t.nodes[t.root].level && t.bottom <= k < t.top
    ensures exists p :: CoversAt(t, level, k, p)
    ensures forall p, q :: CoversAt(t, level, k, p) && CoversAt(t, level, k, q) ==> p == q
  {
    var l := Leftmost(t, t.root, level);
    var c := WalkToCover(t, l, k);
    forall p, q | CoversAt(t, level, k, p) && CoversAt(t, level, k, q) ensures p == q {
      assert Apart(t, p, q);
    }
  }

  /** A parent that can take the announcement in exists exactly when the tree is high enough, which a writer sees in the
      root entry it reads. */
  lemma ParentExistsIff(t: Tree, it: Install)
    requires Inv(t) && it in t.pending
    ensures (exists p :: CoversAt(t, it.level, it.key, p)) <==> it.level <= t.nodes[t.root].level
  {
    assert GoodInstall(t, it) && GoodLink(t, it.child);
    if it.level <= t.nodes[t.root].level {
      LevelsPartition(t, it.level, it.key);
    }
  }

  datatype Descent = Stopped | Parent(addr: Addr)

  /** Turning right on one level. */
  method TurnRight(t: Tree, from: Addr, k: Key) returns (p: Addr)
    requires Inv(t) && from in t.nodes && t.nodes[from].lo <= k < t.top
    ensures CoversAt(t, t.nodes[from].level, k, p)
  {
    p := from;
    while t.nodes[p].hi <= k
      invariant p in t.nodes && t.nodes[p].level == t.nodes[from].level && t.nodes[p].lo <= k
      decreases t.top - t.nodes[p].lo
    {
      assert GoodLink(t, p);
      p := t.nodes[p].sibling;
      assert GoodLink(t, p);
    }
  }

  /** `insert_internal` on a tree at rest: from the root down to the announced level.  It stops at its assertion, because
      the level has come down to the leaves, exactly when the tree is not high enough. */
  method InsertInternal(t: Tree, it: Install) returns (r: Descent)
    requires Inv(t) && it in t.pending
    ensures r.Stopped? <==> it.level > t.nodes[t.root].level
    ensures r.Parent? ==> CoversAt(t, it.level, it.key, r.addr)
  {
    hide GoodLinks, Disjoint, GoodLeaves, GoodImages, GoodRoot, GoodImage;
    AnnouncedShape(t, it);
    var p := t.root;
    var level := t.nodes[p].level + 1;
    while level > 1
      invariant p in t.nodes && level == t.nodes[p].level + 1 && t.nodes[p].lo <= it.key
      invariant it.level > t.nodes[t.root].level ==> it.level >= level
      invariant it.level <= t.nodes[t.root].level ==> it.level < level
      decreases level
    {
      p := TurnRight(t, p, it.key);
      if level - 1 == it.level {
        return Parent(p);
      }
      ImageOf(t, p);
      RouteSound(t, t.nodes[p], it.key);
      level := t.nodes[p].level;
      p := Route(t.nodes[p].kids, t.nodes[p].nextLeftmost, it.key).0;
    }
    return Stopped;
  }

  lemma AnnouncedShape(t: Tree, it: Install)
    requires Inv(t) && it in t.pending
    ensures 1 <= it.level && t.bottom <= it.key < t.top && t.root in t.nodes && t.nodes[t.root].lo == t.bottom
  {
    assert GoodInstall(t, it) && GoodLink(t, it.child);
  }

  lemma ImageOf(t: Tree, p: Addr)
    requires Inv(t) && p in t.nodes && t.nodes[p].level >= 1
    ensures t.nodes[p] in t.images
  {
    assert Imaged(t, p);
  }

  // ---- a second split before the root pointer is swapped ----

  /** A tree of one leaf that was created, split, and split again, its root pointer not swapped yet. */
  function Created(): (t: Tree) {
    Tree(1, 10, 1, map[1 := Node(0, 1, 10, NULL, [], NULL, {9})], {}, {})
  }

  function SplitOnce(): (t: Tree) {
    Tree(1, 10, 1, map[1 := Node(0, 1, 6, 2, [], NULL, {5}), 2 := Node(0, 6, 10, NULL, [], NULL, {9})],
         {Install(1, 6, 2)}, {})
  }

  function SplitTwice(): (t: Tree) {
    Tree(1, 10, 1, map[1 := Node(0, 1, 4, 3, [], NULL, {3}), 2 := Node(0, 6, 10, NULL, [], NULL, {9}),
                       3 := Node(0, 4, 6, 2, [], NULL, {5})],
         {Install(1, 6, 2), Install(1, 4, 3)}, {})
  }

  /** The announcement of the second split finds a root that is still a leaf: `insert_internal` stops at its assertion
      that the root entry's level is above 1. */
  lemma SecondSplitTooEarly()
    ensures Reachable([Created(), SplitOnce(), SplitTwice()])
    ensures var t := SplitTwice();
            && |t.pending| == 2 && t.nodes[t.root].level == 0
            && forall it, p :: it in t.pending ==> !CoversAt(t, it.level, it.key, p)
  {
    var t0, t1, t2 := Created(), SplitOnce(), SplitTwice();
    assert Init(t0);
    assert {5} + {9} == {9} + {5};
    assert TakesStep(t0, t1, StepSplitLeaf(1, 2, 5, 6, {5}, {9}));
    assert {3} + {5} == {5} + {3};
    assert TakesStep(t1, t2, StepSplitLeaf(1, 3, 3, 4, {3}, {5}));
    var trees := [t0, t1, t2];
    forall i | 0 <= i < |trees| - 1 ensures Next(trees[i], trees[i + 1]) {
      if i == 0 { assert Next(t0, t1); } else { assert Next(t1, t2); }
    }
  }
}
