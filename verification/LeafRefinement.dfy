/** Leaf operations on hopscotch tables are the leaf steps of the tree. */
module LeafRefinement {
  import opened HopTable
  import opened HopInsert
  import opened HopSplit
  import InternalNode
  import BLink

  ghost function KeysOf(t: seq<Entry>): set<Key> {
    set i | 0 <= i < |t| && t[i].key != 0 :: t[i].key
  }

  /** The table holds exactly the keys of leaf p. */
  ghost predicate Represents(g: Geometry, t: seq<Entry>, tree: BLink.Tree, p: InternalNode.Addr) {
    Valid(g, t) && p in tree.nodes && tree.nodes[p].level == 0 && tree.nodes[p].keys == KeysOf(t)
  }

  /** The leaf's upper bound is its largest key plus one, so a key the leaf covers is at most the largest key, which is
      what inserting with the lock word's maximum index relies on. */
  lemma MaxIsBound(g: Geometry, t: seq<Entry>, tree: BLink.Tree, p: InternalNode.Addr, i: nat)
    requires BLink.Inv(tree) && Represents(g, t, tree, p) && IsMaxIdx(t, i)
    ensures tree.nodes[p].hi == t[i].key + 1
  {
    assert BLink.GoodKeys(tree.nodes[p]);
    assert t[i].key in KeysOf(t);
  }

  lemma KeysOfContents(t: seq<Entry>, hole: nat, x: Key)
    requires |t| <= hole
    ensures x in KeysOf(t) <==> exists v :: (x, v) in Contents(t, hole)
  {
    if x in KeysOf(t) {
      var i :| 0 <= i < |t| && t[i].key != 0 && t[i].key == x;
      ContentsKeys(t, hole, i);
    }
    if v :| (x, v) in Contents(t, hole) {
      var i :| 0 <= i < |t| && Used(t, hole, i) && (x, v) == (t[i].key, t[i].value);
    }
  }

  /** A stored key is the tree's insert step. */
  lemma InsertRefines(g: Geometry, t: seq<Entry>, k: Key, v: Value)
    requires Valid(g, t) && CanInsert(g, t, k) && k != 0 && Absent(t, k)
    ensures KeysOf(Inserted(g, t, k, v)) == KeysOf(t) + {k}
  {
    hide Inv, CanInsert, Inserted, Absent, KeysOf;
    ValidShape(g, t);
    InsertedCorrect(g, t, k, v);
    forall x ensures x in KeysOf(Inserted(g, t, k, v)) <==> x in KeysOf(t) + {k} {
      KeysOfContents(t, g.slots, x);
      KeysOfContents(Inserted(g, t, k, v), g.slots, x);
      assert x == k ==> (x, v) in Contents(Inserted(g, t, k, v), g.slots);
    }
  }

  /** A leaf split is the tree's split step. */
  lemma SplitRefines(g: Geometry, t: seq<Entry>, k: Key, v: Value, s: Key, left: seq<Entry>, right: seq<Entry>)
    requires Valid(g, t) && SplitOutcome(g, t, k, v, s, left, right)
    ensures BLink.SplitsKeys(KeysOf(t), k, s, KeysOf(left), KeysOf(right))
  {
    SplitKeepsKeys(g, t, k, v, s, left, right);
    var i: nat :| IsMaxIdx(left, i) && left[i].key + 1 == s;
    assert left[i].key in KeysOf(left);
    var j :| 0 <= j < |right| && right[j].key != 0;
    assert right[j].key in KeysOf(right);
  }

  lemma SplitKeepsKeys(g: Geometry, t: seq<Entry>, k: Key, v: Value, s: Key, left: seq<Entry>, right: seq<Entry>)
    requires Valid(g, t) && SplitOutcome(g, t, k, v, s, left, right)
    ensures KeysOf(left) + KeysOf(right) == KeysOf(t) + {k}
  {
    hide Inv, KeysOf, AllKeys, Contents;
    ValidShape(g, t);
    ValidShape(g, left);
    ValidShape(g, right);
    forall x ensures x in KeysOf(left) + KeysOf(right) <==> x in KeysOf(t) + {k} {
      KeysOfContents(t, g.slots, x);
      KeysOfContents(left, g.slots, x);
      KeysOfContents(right, g.slots, x);
      assert x == k ==> (x, v) in Contents(left, g.slots) + Contents(right, g.slots);
      forall w ensures (x, w) in Contents(left, g.slots) + Contents(right, g.slots) <==>
                       (x, w) in Contents(t, g.slots) || (x == k && w == v) {}
    }
  }

  /** Storing k in the leaf is a step of the tree, after which the table still represents the leaf. */
  lemma InsertIsStep(g: Geometry, t: seq<Entry>, tree: BLink.Tree, p: InternalNode.Addr, k: Key, v: Value) returns (tree': BLink.Tree)
    requires Represents(g, t, tree, p) && CanInsert(g, t, k) && k != 0 && Absent(t, k)
    requires tree.nodes[p].lo <= k < tree.nodes[p].hi
    ensures BLink.TakesStep(tree, tree', BLink.StepInsert(p, k))
    ensures Represents(g, Inserted(g, t, k, v), tree', p)
  {
    hide Inv, CanInsert, Inserted, KeysOf, Absent;
    InsertRefines(g, t, k, v);
    InsertedCorrect(g, t, k, v);
    var n := tree.nodes[p];
    tree' := tree.(nodes := tree.nodes[p := n.(keys := n.keys + {k})]);
  }

  /** Splitting the leaf is a step of the tree, after which the two tables represent the two leaves. */
  lemma SplitIsStep(g: Geometry, t: seq<Entry>, tree: BLink.Tree, p: InternalNode.Addr, q: InternalNode.Addr,
                    k: Key, v: Value, s: Key, left: seq<Entry>, right: seq<Entry>)
    returns (tree': BLink.Tree)
    requires Represents(g, t, tree, p) && tree.nodes[p].lo <= k < tree.nodes[p].hi
    requires q !in tree.nodes && q != InternalNode.NULL && SplitOutcome(g, t, k, v, s, left, right)
    ensures BLink.TakesStep(tree, tree', BLink.StepSplitLeaf(p, q, k, s, KeysOf(left), KeysOf(right)))
    ensures Represents(g, left, tree', p) && Represents(g, right, tree', q)
  {
    hide Inv, KeysOf;
    SplitRefines(g, t, k, v, s, left, right);
    var n := tree.nodes[p];
    tree' := tree.(nodes := tree.nodes[p := n.(hi := s, sibling := q, keys := KeysOf(left))]
                                      [q := BLink.Node(0, s, n.hi, n.sibling, [], InternalNode.NULL, KeysOf(right))],
                   pending := tree.pending + {BLink.Install(1, s, q)});
  }
}
