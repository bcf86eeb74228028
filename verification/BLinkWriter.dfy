/** Writers walking the tree while others change it: an insert lands in a leaf whose range covers its key.

    A leaf does not store its range, so nothing in these steps asks for it: the write goes wherever the comparison of
    sibling pointers and the turn-right test on a partial read send it. */
module BLinkWriter {
  import opened InternalNode
  import opened BLink
  import opened BLinkSearch

  /** On the way down a writer does what a reader does. */
  datatype Writer = Descending(at: Reader) | Written(leaf: Addr)

  /** The key is stored in leaf p, whatever p's range. */
  ghost predicate Stores(t: Tree, t': Tree, p: Addr, k: Key) {
    && p in t.nodes && t.nodes[p].level == 0
    && t' == t.(nodes := t.nodes[p := t.nodes[p].(keys := t.nodes[p].keys + {k})])
  }

  /** Leaf p is split to make room for the key, whatever p's range. */
  ghost predicate Splits(t: Tree, t': Tree, p: Addr, q: Addr, k: Key, splitKey: Key, left: set<Key>, right: set<Key>) {
    && p in t.nodes && q !in t.nodes && q != NULL && t.nodes[p].level == 0
    && SplitsKeys(t.nodes[p].keys, k, splitKey, left, right)
    && t' == t.(nodes := t.nodes[p := t.nodes[p].(hi := splitKey, sibling := q, keys := left)]
                                [q := Node(0, splitKey, t.nodes[p].hi, t.nodes[p].sibling, [], NULL, right)],
                pending := t.pending + {Install(1, splitKey, q)})
  }

  ghost predicate Writes(t: Tree, t': Tree, p: Addr, k: Key) {
    Stores(t, t', p, k) || exists q, splitKey, left, right :: Splits(t, t', p, q, k, splitKey, left, right)
  }

  /** What the writer has read of leaf p: some of its keys, and the one the lock word points at. */
  ghost predicate PartialRead(n: Node, read: set<Key>, maxKey: Key) {
    read <= n.keys && maxKey in n.keys && forall x :: x in n.keys ==> x <= maxKey
  }

  /** `leaf_node_insert` on the locked leaf p: back to the start, right, or write. */
  ghost predicate LeafWrite(t: Tree, t': Tree, k: Key, p: Addr, expected: Addr, fromCache: bool, read: set<Key>, maxKey: Key, w: Writer) {
    && p in t.nodes && PartialRead(t.nodes[p], read, maxKey)
    && (if fromCache && t.nodes[p].sibling != expected then t' == t && w == Descending(Start)
        else if t.nodes[p].sibling != expected && TurnsRight(read, maxKey, k) then
          t' == t && w == Descending(AtLeaf(t.nodes[p].sibling, NULL, false, false))
        else Writes(t, t', p, k) && w == Written(p))
  }

  ghost predicate WriterStep(t: Tree, t': Tree, k: Key, w: Writer, w': Writer) {
    w.Descending? && (
      match w.at
      case Start => t' == t && w'.Descending? && (FromRoot(t, w'.at) || FromCache(t, k, w'.at))
      case AtInner(p, c) => t' == t && w'.Descending? && InnerRead(t, k, p, c, w'.at)
      case AtLeaf(p, e, c, _) => exists read, maxKey :: LeafWrite(t, t', k, p, e, c, read, maxKey, w')
      case Done(_, _) => false)
  }

  ghost predicate WriterInv(t: Tree, k: Key, w: Writer) {
    match w
    case Descending(r) => ReaderInv(t, k, r) && !r.Done? && (r.AtLeaf? ==> !r.absent)
    case Written(p) => InTree(t, k)
  }

  /** The heart of it: the leaf a writer writes to covers k. */
  lemma WritesCovered(t: Tree, k: Key, p: Addr, expected: Addr, c: bool, read: set<Key>, maxKey: Key)
    requires Inv(t) && t.bottom <= k < t.top && ReaderInv(t, k, AtLeaf(p, expected, c, false))
    requires PartialRead(t.nodes[p], read, maxKey)
    ensures t.nodes[p].sibling == expected || !TurnsRight(read, maxKey, k) ==> t.nodes[p].lo <= k < t.nodes[p].hi
    ensures t.nodes[p].sibling != expected && TurnsRight(read, maxKey, k) ==>
              ReaderInv(t, k, AtLeaf(t.nodes[p].sibling, NULL, false, false))
  {
    NullNotANode(t);
    WriterDecision(t, p, expected, read, maxKey, k);
  }

  /** So an unguarded write there is a step of the tree, and stores k. */
  lemma WriteIsStep(t: Tree, t': Tree, p: Addr, k: Key) returns (s: Step)
    requires Inv(t) && p in t.nodes && t.nodes[p].lo <= k < t.nodes[p].hi && Writes(t, t', p, k)
    ensures TakesStep(t, t', s) && InTree(t', k)
  {
    if Stores(t, t', p, k) {
      s := StepInsert(p, k);
      assert k in t'.nodes[p].keys;
    } else {
      var q, splitKey, left, right :| Splits(t, t', p, q, k, splitKey, left, right);
      s := StepSplitLeaf(p, q, k, splitKey, left, right);
      assert k in left + right;
      assert k in t'.nodes[p].keys || k in t'.nodes[q].keys;
    }
  }

  lemma LeafWriteInv(t: Tree, t': Tree, k: Key, p: Addr, e: Addr, c: bool, read: set<Key>, maxKey: Key, w: Writer)
    requires Inv(t) && t.bottom <= k < t.top && ReaderInv(t, k, AtLeaf(p, e, c, false))
    requires LeafWrite(t, t', k, p, e, c, read, maxKey, w)
    ensures WriterInv(t', k, w) && (t' == t || exists s :: TakesStep(t, t', s))
    ensures w.Written? ==> w.leaf == p && t.nodes[p].level == 0 && t.nodes[p].lo <= k < t.nodes[p].hi
  {
    hide Inv, ReaderInv, Writes;
    AtLeafNode(t, k, p, e, c);
    WritesCovered(t, k, p, e, c, read, maxKey);
    if w.Written? {
      var s := WriteIsStep(t, t', p, k);
    }
    StartInv(t, k);
  }

  lemma AtLeafNode(t: Tree, k: Key, p: Addr, e: Addr, c: bool)
    requires ReaderInv(t, k, AtLeaf(p, e, c, false))
    ensures p in t.nodes && t.nodes[p].level == 0
  {}

  lemma WriterStepInv(t: Tree, t': Tree, k: Key, w: Writer, w': Writer)
    requires Inv(t) && t.bottom <= k < t.top && WriterInv(t, k, w) && WriterStep(t, t', k, w, w')
    ensures WriterInv(t', k, w') && (t' == t || exists s :: TakesStep(t, t', s))
    ensures w'.Written? ==>
              && w'.leaf in t.nodes && t.nodes[w'.leaf].level == 0
              && t.nodes[w'.leaf].lo <= k < t.nodes[w'.leaf].hi
  {
    hide Inv, ReaderInv, LeafWrite, InnerRead, FromRoot, FromCache;
    match w.at
    case Start =>
      ReaderStepInv(t, k, Start, w'.at);
      DescentShape(t, k, w.at, w'.at);
    case AtInner(p, c) =>
      ReaderStepInv(t, k, w.at, w'.at);
      DescentShape(t, k, w.at, w'.at);
    case AtLeaf(p, e, c, _) =>
      AtLeafNode(t, k, p, e, c);
      var read, maxKey :| LeafWrite(t, t', k, p, e, c, read, maxKey, w');
      LeafWriteInv(t, t', k, p, e, c, read, maxKey, w');
    case Done(_, _) =>
  }

  /** Routing never ends a descent, and never records an absence. */
  lemma DescentShape(t: Tree, k: Key, r: Reader, r': Reader)
    requires ReaderStep(t, k, r, r') && (r.Start? || r.AtInner?)
    ensures !r'.Done? && (r'.AtLeaf? ==> !r'.absent)
  {
    if r.Start? && !FromRoot(t, r') {
      var n :| n in t.images && n.lo <= k < n.hi && Routed(n, k, true, r');
    }
  }

  // ---- runs ----

  datatype Moment = Moment(tree: Tree, writer: Writer)

  /** Someone else changes the tree, or the writer moves. */
  ghost predicate Moves(k: Key, a: Moment, b: Moment) {
    || (a.writer == b.writer && Next(a.tree, b.tree))
    || WriterStep(a.tree, b.tree, k, a.writer, b.writer)
  }

  ghost predicate WriterRun(run: seq<Moment>, k: Key) {
    && run != [] && Inv(run[0].tree) && run[0].tree.bottom <= k < run[0].tree.top && run[0].writer == Descending(Start)
    && forall i :: 0 <= i < |run| - 1 ==> Moves(k, run[i], run[i + 1])
  }

  ghost predicate Good(k: Key, m: Moment) {
    Inv(m.tree) && m.tree.bottom <= k < m.tree.top && WriterInv(m.tree, k, m.writer)
  }

  lemma TreeStepWriter(t: Tree, t': Tree, s: Step, k: Key, w: Writer)
    requires Inv(t) && TakesStep(t, t', s) && WriterInv(t, k, w)
    ensures WriterInv(t', k, w)
  {
    match w
    case Descending(r) => TreeStepReader(t, t', s, k, r);
    case Written(_) => StepKeepsKeys(t, t', s, k);
  }

  lemma MovesGood(k: Key, a: Moment, b: Moment)
    requires Good(k, a) && Moves(k, a, b)
    ensures Good(k, b)
  {
    hide Inv, WriterInv, WriterStep;
    if WriterStep(a.tree, b.tree, k, a.writer, b.writer) {
      WriterStepInv(a.tree, b.tree, k, a.writer, b.writer);
      if a.tree != b.tree {
        var s :| TakesStep(a.tree, b.tree, s);
        StepInv(a.tree, b.tree, s);
      }
    } else if a.tree != b.tree {
      var s :| TakesStep(a.tree, b.tree, s);
      StepInv(a.tree, b.tree, s);
      TreeStepWriter(a.tree, b.tree, s, k, a.writer);
    }
  }

  lemma {:induction false} RunGood(run: seq<Moment>, k: Key, i: nat)
    requires WriterRun(run, k) && i < |run|
    ensures Good(k, run[i])
  {
    hide Inv, Moves;
    if i == 0 {
      StartInv(run[0].tree, k);
    } else {
      RunGood(run, k, i - 1);
      assert Moves(k, run[i - 1], run[i - 1 + 1]);
      MovesGood(k, run[i - 1], run[i]);
    }
  }

  /** Over all runs, whatever others do to the tree and however stale the node the writer started from: the moment it
      writes, the leaf it writes to covers k, the tree stays good, and from then on k is in the tree. */
  lemma WriteLands(run: seq<Moment>, k: Key, i: nat)
    requires WriterRun(run, k) && i < |run|
    ensures Inv(run[i].tree) && (run[i].writer.Written? ==> InTree(run[i].tree, k))
    ensures 0 < i && run[i].writer.Written? && !run[i - 1].writer.Written? ==>
              var p, t := run[i].writer.leaf, run[i - 1].tree;
              p in t.nodes && t.nodes[p].level == 0 && t.nodes[p].lo <= k < t.nodes[p].hi
  {
    hide Inv, WriterStep;
    RunGood(run, k, i);
    if 0 < i && run[i].writer.Written? && !run[i - 1].writer.Written? {
      RunGood(run, k, i - 1);
      assert Moves(k, run[i - 1], run[i - 1 + 1]);
      WriterStepInv(run[i - 1].tree, run[i].tree, k, run[i - 1].writer, run[i].writer);
    }
  }
}
