/** Readers and writers walking the B-link tree while it changes under them. */
module BLinkSearch {
  import opened InternalNode
  import opened BLink

  ghost predicate InTree(t: Tree, k: Key) {
    exists p :: p in t.nodes && k in t.nodes[p].keys
  }

  /** Where the leaf `expected` starts, the null address standing for the end of the key space. */
  function StartOf(t: Tree, p: Addr): Key {
    if p in t.nodes then t.nodes[p].lo else t.top
  }

  // ---- routing and validation ----

  /** Any image whose range covers k, however stale, routes k to a node that starts at or before k, and expects next a
      node that starts after k. */
  lemma RouteSound(t: Tree, n: Node, k: Key)
    requires Inv(t) && n in t.images && n.lo <= k < n.hi
    ensures 1 <= n.level && n.kids != [] && Ascending(n.kids) && n.kids[0].key <= k
    ensures var (child, next) := Route(n.kids, n.nextLeftmost, k);
            && Points(t, child, n.level - 1, StartOf(t, child)) && StartOf(t, child) <= k < StartOf(t, next)
            && (next == NULL || Points(t, next, n.level - 1, StartOf(t, next)))
  {
    assert GoodImage(t, n);
    NullNotANode(t);
  }

  lemma NullNotANode(t: Tree)
    requires GoodLinks(t)
    ensures NULL !in t.nodes
  {
    assert NULL in t.nodes ==> GoodLink(t, NULL);
  }

  /** Sibling-based validation: if the leaf's sibling is the one the image expected, the leaf's range covers k. */
  lemma SiblingValidation(t: Tree, n: Node, k: Key)
    requires Inv(t) && n in t.images && n.level == 1 && n.lo <= k < n.hi
    ensures n.kids != [] && Ascending(n.kids) && n.kids[0].key <= k
    ensures var (child, next) := Route(n.kids, n.nextLeftmost, k);
            && child in t.nodes && t.nodes[child].level == 0
            && (t.nodes[child].sibling == next ==> t.nodes[child].lo <= k < t.nodes[child].hi)
  {
    RouteSound(t, n, k);
    var (child, next) := Route(n.kids, n.nextLeftmost, k);
    EndsAtSibling(t, child);
  }

  /** A node ends where its sibling starts. */
  lemma EndsAtSibling(t: Tree, p: Addr)
    requires Inv(t) && p in t.nodes
    ensures t.nodes[p].hi == StartOf(t, t.nodes[p].sibling) && t.nodes[p].lo < t.nodes[p].hi <= t.top
  {
    NullNotANode(t);
    assert GoodLink(t, p);
  }

  /** A key of the tree is in the leaf whose range covers it. */
  lemma KeyInCoveringLeaf(t: Tree, p: Addr, k: Key)
    requires Inv(t) && p in t.nodes && t.nodes[p].level == 0 && t.nodes[p].lo <= k < t.nodes[p].hi && InTree(t, k)
    ensures k in t.nodes[p].keys
  {
    var q :| q in t.nodes && k in t.nodes[q].keys;
    assert GoodKeys(t.nodes[q]) && Apart(t, p, q);
  }

  /** A leaf before `expected` whose sibling is not `expected` has a sibling that is still before it. */
  lemma WalkRight(t: Tree, p: Addr, expected: Addr)
    requires Inv(t) && p in t.nodes && t.nodes[p].lo < StartOf(t, expected) && t.nodes[p].sibling != expected
    requires expected == NULL || Points(t, expected, t.nodes[p].level, StartOf(t, expected))
    ensures var s := t.nodes[p].sibling;
            && s != NULL && s in t.nodes && t.nodes[s].level == t.nodes[p].level
            && t.nodes[s].lo == t.nodes[p].hi < StartOf(t, expected)
  {
    NullNotANode(t);
    assert GoodLink(t, p);
    if expected != NULL {
      assert GoodLink(t, expected) && Apart(t, p, expected);
      if t.nodes[p].hi == t.nodes[expected].lo && t.nodes[p].sibling != NULL {
        SameStart(t, t.nodes[p].sibling, expected, t.nodes[p].level, t.nodes[p].hi);
      }
    } else {
      assert GoodLink(t, t.nodes[p].sibling);
    }
  }

  // ---- a reader ----

  /** `absent` records that some leaf read so far proved k absent. */
  datatype Reader =
    | Start
    | AtInner(addr: Addr, fromCache: bool)
    | AtLeaf(addr: Addr, expected: Addr, fromCache: bool, absent: bool)
    | Done(found: bool, absent: bool)

  /** Where routing with the image n leads. */
  ghost predicate Routed(n: Node, k: Key, fromCache: bool, r: Reader) {
    && n.kids != [] && Ascending(n.kids) && n.kids[0].key <= k
    && var (child, next) := Route(n.kids, n.nextLeftmost, k);
       r == if n.level == 1 then AtLeaf(child, next, fromCache, false) else AtInner(child, fromCache)
  }

  ghost predicate FromRoot(t: Tree, r: Reader) {
    t.root in t.nodes && r == if t.nodes[t.root].level == 0 then AtLeaf(t.root, NULL, false, false) else AtInner(t.root, false)
  }

  ghost predicate FromCache(t: Tree, k: Key, r: Reader) {
    exists n :: n in t.images && n.lo <= k < n.hi && Routed(n, k, true, r)
  }

  ghost predicate InnerRead(t: Tree, k: Key, p: Addr, fromCache: bool, r: Reader) {
    && p in t.nodes
    && var n := t.nodes[p];
       if fromCache && !(n.lo <= k < n.hi) then r == Start
       else if k >= n.hi then r == AtInner(n.sibling, false)
       else Routed(n, k, false, r)
  }

  ghost predicate LeafRead(t: Tree, k: Key, p: Addr, expected: Addr, fromCache: bool, absent: bool, r: Reader) {
    && p in t.nodes
    && var n := t.nodes[p];
       var absent' := absent || !InTree(t, k);
       if k in n.keys then r == Done(true, absent) || (fromCache && n.sibling != expected && r == Start)
       else if n.sibling == expected then r == Done(false, absent')
       else if fromCache then r == Start
       else r == AtLeaf(n.sibling, expected, false, absent')
  }

  /** One read of the tree as it is now. */
  ghost predicate ReaderStep(t: Tree, k: Key, r: Reader, r': Reader) {
    match r
    case Start => FromRoot(t, r') || FromCache(t, k, r')
    case AtInner(p, c) => InnerRead(t, k, p, c, r')
    case AtLeaf(p, e, c, a) => LeafRead(t, k, p, e, c, a, r')
    case Done(_, _) => false
  }

  /** What a reader looking for k may rely on, whatever has happened since it read last. */
  ghost predicate ReaderInv(t: Tree, k: Key, r: Reader) {
    match r
    case Start => true
    case AtInner(p, _) => p in t.nodes && t.nodes[p].level >= 1 && t.nodes[p].lo <= k
    case AtLeaf(p, e, _, absent) =>
      && p in t.nodes && t.nodes[p].level == 0
      && (e == NULL || Points(t, e, 0, StartOf(t, e)))
      && t.nodes[p].lo < StartOf(t, e) && k < StartOf(t, e)
      && (t.nodes[p].lo <= k || absent)
    case Done(found, absent) => if found then InTree(t, k) else absent
  }

  lemma RoutedInv(t: Tree, n: Node, k: Key, fromCache: bool, r: Reader)
    requires Inv(t) && n in t.images && n.lo <= k < n.hi && Routed(n, k, fromCache, r)
    ensures ReaderInv(t, k, r)
  {
    RouteSound(t, n, k);
  }

  lemma InnerReadInv(t: Tree, k: Key, p: Addr, fromCache: bool, r: Reader)
    requires Inv(t) && k < t.top && ReaderInv(t, k, AtInner(p, fromCache)) && InnerRead(t, k, p, fromCache, r)
    ensures ReaderInv(t, k, r)
  {
    assert Imaged(t, p) && GoodLink(t, p);
    var n := t.nodes[p];
    if n.lo <= k < n.hi { RoutedInv(t, n, k, false, r); }
  }

  lemma LeafReadInv(t: Tree, k: Key, p: Addr, expected: Addr, fromCache: bool, absent: bool, r: Reader)
    requires Inv(t) && ReaderInv(t, k, AtLeaf(p, expected, fromCache, absent))
    requires LeafRead(t, k, p, expected, fromCache, absent, r)
    ensures ReaderInv(t, k, r)
  {
    EndsAtSibling(t, p);
    var n := t.nodes[p];
    if k !in n.keys {
      if InTree(t, k) && n.lo <= k < n.hi { KeyInCoveringLeaf(t, p, k); }
      if n.sibling != expected { WalkRight(t, p, expected); }
    }
  }

  /** Reads keep the reader's invariant. */
  lemma ReaderStepInv(t: Tree, k: Key, r: Reader, r': Reader)
    requires Inv(t) && t.bottom <= k < t.top && ReaderInv(t, k, r) && ReaderStep(t, k, r, r')
    ensures ReaderInv(t, k, r')
  {
    match r
    case Start =>
      if FromCache(t, k, r') {
        var n :| n in t.images && n.lo <= k < n.hi && Routed(n, k, true, r');
        RoutedInv(t, n, k, true, r');
      } else {
        EndsAtSibling(t, t.root);
        NullNotANode(t);
      }
    case AtInner(p, c) => InnerReadInv(t, k, p, c, r');
    case AtLeaf(p, e, c, a) => LeafReadInv(t, k, p, e, c, a, r');
    case Done(_, _) =>
  }

  /** Keys never leave the tree. */
  lemma StepKeepsKeys(t: Tree, t': Tree, s: Step, k: Key)
    requires Inv(t) && TakesStep(t, t', s) && InTree(t, k)
    ensures InTree(t', k)
  {
    var p :| p in t.nodes && k in t.nodes[p].keys;
    assert GoodKeys(t.nodes[p]);
    match s
    case StepSplitLeaf(a, b, _, _, left, right) =>
      if p == a {
        assert k in left + right;
        assert k in t'.nodes[a].keys || k in t'.nodes[b].keys;
      } else {
        assert k in t'.nodes[p].keys;
      }
    case _ => assert k in t'.nodes[p].keys;
  }

  /** Steps of the tree keep the reader's invariant: lower bounds never move, and keys never leave. */
  lemma TreeStepReader(t: Tree, t': Tree, s: Step, k: Key, r: Reader)
    requires Inv(t) && TakesStep(t, t', s) && ReaderInv(t, k, r)
    ensures ReaderInv(t', k, r)
  {
    StepKeeps(t, t', s);
    StepInv(t, t', s);
    NullNotANode(t');
    NullNotANode(t);
    if InTree(t, k) { StepKeepsKeys(t, t', s, k); }
  }

  // ---- whole runs ----

  /** The tree reached by some run from its creation. */
  ghost predicate Reachable(trees: seq<Tree>) {
    && trees != [] && Init(trees[0])
    && forall i :: 0 <= i < |trees| - 1 ==> Next(trees[i], trees[i + 1])
  }

  lemma {:induction false} ReachableInv(trees: seq<Tree>)
    requires Reachable(trees)
    ensures Inv(trees[|trees| - 1])
  {
    var n := |trees| - 1;
    if n == 0 {
      InitInv(trees[0]);
    } else {
      ReachableInv(trees[..n]);
      assert Next(trees[n - 1], trees[n - 1 + 1]);
      if trees[n - 1] != trees[n] {
        var s :| TakesStep(trees[n - 1], trees[n], s);
        StepInv(trees[n - 1], trees[n], s);
      }
    }
  }

  datatype Moment = Moment(tree: Tree, reader: Reader)

  /** Between two moments either the tree takes a step or the reader reads. */
  ghost predicate Moves(k: Key, a: Moment, b: Moment) {
    || (a.reader == b.reader && Next(a.tree, b.tree))
    || (a.tree == b.tree && ReaderStep(a.tree, k, a.reader, b.reader))
  }

  /** A search for k that starts on the given tree. */
  ghost predicate SearchRun(run: seq<Moment>, k: Key) {
    && run != [] && Inv(run[0].tree) && run[0].tree.bottom <= k < run[0].tree.top && run[0].reader == Start
    && forall i :: 0 <= i < |run| - 1 ==> Moves(k, run[i], run[i + 1])
  }

  lemma MovesInv(k: Key, a: Moment, b: Moment)
    requires Inv(a.tree) && a.tree.bottom <= k < a.tree.top && ReaderInv(a.tree, k, a.reader) && Moves(k, a, b)
    ensures Inv(b.tree) && b.tree.bottom <= k < b.tree.top && ReaderInv(b.tree, k, b.reader)
    ensures InTree(a.tree, k) ==> InTree(b.tree, k)
  {
    hide Inv, ReaderInv, ReaderStep;
    if a.tree == b.tree {
      if a.reader != b.reader { ReaderStepInv(a.tree, k, a.reader, b.reader); }
    } else {
      var s :| TakesStep(a.tree, b.tree, s);
      StepInv(a.tree, b.tree, s);
      TreeStepReader(a.tree, b.tree, s, k, a.reader);
      if InTree(a.tree, k) { StepKeepsKeys(a.tree, b.tree, s, k); }
    }
  }

  lemma {:induction false} SearchRunInv(run: seq<Moment>, k: Key, i: nat)
    requires SearchRun(run, k) && i < |run|
    ensures Inv(run[i].tree) && run[i].tree.bottom <= k < run[i].tree.top && ReaderInv(run[i].tree, k, run[i].reader)
    ensures InTree(run[0].tree, k) ==> InTree(run[i].tree, k)
  {
    hide Inv, ReaderInv, Moves;
    if i == 0 {
      StartInv(run[0].tree, k);
    } else {
      SearchRunInv(run, k, i - 1);
      assert Moves(k, run[i - 1], run[i - 1 + 1]);
      MovesInv(k, run[i - 1], run[i]);
    }
  }

  lemma StartInv(t: Tree, k: Key)
    ensures ReaderInv(t, k, Start)
  {}

  /** `absent` is only ever set by reading a tree without k. */
  lemma {:induction false} AbsentWitness(run: seq<Moment>, k: Key, i: nat)
    requires SearchRun(run, k) && i < |run|
    requires match run[i].reader case AtLeaf(_, _, _, a) => a case Done(_, a) => a case _ => false
    ensures !InTree(run[0].tree, k)
  {
    if i > 0 {
      assert Moves(k, run[i - 1], run[i - 1 + 1]);
      var r := run[i - 1].reader;
      if match r case AtLeaf(_, _, _, a) => a case Done(_, a) => a case _ => false {
        AbsentWitness(run, k, i - 1);
      } else {
        SearchRunInv(run, k, i - 1);
      }
    }
  }

  /** Searches are right over all runs, whatever splits, installs and root changes happen meanwhile and however stale
      the cached node they start from: a key stored before the search is never reported missing, and a key reported
      found is stored. */
  lemma SearchCorrect(run: seq<Moment>, k: Key, i: nat)
    requires SearchRun(run, k) && i < |run| && run[i].reader.Done?
    ensures run[i].reader.found ==> InTree(run[i].tree, k)
    ensures InTree(run[0].tree, k) ==> run[i].reader.found
  {
    SearchRunInv(run, k, i);
    if !run[i].reader.found { AbsentWitness(run, k, i); }
  }

  /** While a reader walks, the assertions of the source hold: an internal node it reads does not start after k, and a
      leaf it walks right from has a sibling. */
  lemma ReaderAssertions(run: seq<Moment>, k: Key, i: nat)
    requires SearchRun(run, k) && i < |run|
    ensures run[i].reader.AtInner? ==>
              run[i].reader.addr in run[i].tree.nodes && run[i].tree.nodes[run[i].reader.addr].lo <= k
    ensures run[i].reader.AtLeaf? ==>
              && run[i].reader.addr in run[i].tree.nodes
              && (run[i].tree.nodes[run[i].reader.addr].sibling != run[i].reader.expected ==>
                    run[i].tree.nodes[run[i].reader.addr].sibling != NULL)
  {
    SearchRunInv(run, k, i);
    var t, r := run[i].tree, run[i].reader;
    if r.AtLeaf? && t.nodes[r.addr].sibling != r.expected { WalkRight(t, r.addr, r.expected); }
  }

  // ---- a writer at a leaf ----

  /** The turn-right test of `leaf_node_insert` on a partial read: some key read is at least k, or else k is compared
      with the largest key, which the lock word points at. */
  predicate TurnsRight(read: set<Key>, maxKey: Key, k: Key) {
    (forall x :: x in read ==> x < k) && k >= maxKey + 1
  }

  /** Whatever part of the leaf was read, the test is comparison with the leaf's true upper bound. */
  lemma TurnsRightExact(t: Tree, p: Addr, read: set<Key>, maxKey: Key, k: Key)
    requires Inv(t) && p in t.nodes && t.nodes[p].level == 0 && read <= t.nodes[p].keys
    requires maxKey in t.nodes[p].keys && forall x :: x in t.nodes[p].keys ==> x <= maxKey
    ensures maxKey + 1 == t.nodes[p].hi
    ensures TurnsRight(read, maxKey, k) <==> k >= t.nodes[p].hi
  {
    assert GoodKeys(t.nodes[p]);
  }

  /** A writer that starts at or left of k's leaf ends up inserting in a leaf whose range covers k, or moves right to a
      leaf that still does not start after k. */
  lemma WriterDecision(t: Tree, p: Addr, expected: Addr, read: set<Key>, maxKey: Key, k: Key)
    requires Inv(t) && p in t.nodes && t.nodes[p].level == 0 && t.nodes[p].lo <= k < t.top
    requires expected != NULL ==> k < StartOf(t, expected)
    requires read <= t.nodes[p].keys && maxKey in t.nodes[p].keys && forall x :: x in t.nodes[p].keys ==> x <= maxKey
    ensures t.nodes[p].sibling == expected || !TurnsRight(read, maxKey, k) ==> t.nodes[p].lo <= k < t.nodes[p].hi
    ensures t.nodes[p].sibling != expected && TurnsRight(read, maxKey, k) ==>
              && t.nodes[p].sibling != NULL && t.nodes[p].sibling in t.nodes
              && t.nodes[t.nodes[p].sibling].level == 0 && t.nodes[t.nodes[p].sibling].lo <= k
  {
    EndsAtSibling(t, p);
    NullNotANode(t);
    TurnsRightExact(t, p, read, maxKey, k);
    assert GoodLink(t, p);
  }
}
