/** The tree together with the tables and lock words of its leaves, over whole runs. */
module LeafRuns {
  import opened HopTable
  import opened HopInsert
  import opened HopSplit
  import opened LeafInsert
  import opened LeafUpdate
  import opened LeafRefinement
  import Vacancy
  import InternalNode
  import BLink

  type Addr = InternalNode.Addr

  /** `leaves` has the table and lock word of every leaf of the tree. */
  datatype World = World(tree: BLink.Tree, leaves: map<Addr, Leaf>)

  predicate IsLeaf(t: BLink.Tree, p: Addr) {
    p in t.nodes && t.nodes[p].level == 0
  }

  /** A leaf's table holds exactly its keys, is hopscotch-valid, and its lock word is right: no clear vacancy bit is
      optimistic and the index points at the largest key. */
  ghost predicate LeafOk(g: Geometry, bits: nat, w: World, p: Addr) {
    p in w.leaves && GoodLeaf(g, bits, w.leaves[p]) && Represents(g, w.leaves[p].entries, w.tree, p)
  }

  ghost predicate WorldInv(g: Geometry, bits: nat, w: World) {
    && BLink.Inv(w.tree)
    && (forall p {:trigger IsLeaf(w.tree, p)} :: IsLeaf(w.tree, p) ==> LeafOk(g, bits, w, p))
  }

  /** A tree of one leaf that holds the largest key. */
  ghost predicate Init(g: Geometry, bits: nat, w: World) {
    && BLink.Init(w.tree) && w.tree.root in w.leaves
    && exists v :: HoldsGhost(g, bits, w, v)
  }

  ghost predicate HoldsGhost(g: Geometry, bits: nat, w: World, v: Value)
    requires w.tree.root in w.leaves && 1 <= w.tree.top
  {
    CreatedAs(g, bits, w.leaves[w.tree.root], w.tree.top - 1, v)
  }

  // ---- the steps ----

  /** k is stored in the leaf that covers it, k being new there. */
  ghost predicate Store(g: Geometry, bits: nat, w: World, w': World, p: Addr, b: Leaf, k: Key, v: Value) {
    && IsLeaf(w.tree, p) && p in w.leaves && w.tree.nodes[p].lo <= k < w.tree.nodes[p].hi
    && k != 0 && Absent(w.leaves[p].entries, k) && StoresAs(g, bits, w.leaves[p], b, k, v)
    && w'.leaves == w.leaves[p := b] && BLink.InsertKey(w.tree, w'.tree, p, k)
  }

  /** The leaf is split to make room. */
  ghost predicate Split(g: Geometry, bits: nat, w: World, w': World, p: Addr, q: Addr, b: Leaf, c: Leaf, k: Key, v: Value, s: Key) {
    && IsLeaf(w.tree, p) && p in w.leaves && w.tree.nodes[p].lo <= k < w.tree.nodes[p].hi && q !in w.tree.nodes
    && q != InternalNode.NULL
    && k != 0 && Absent(w.leaves[p].entries, k) && SplitsAs(g, bits, w.leaves[p], b, c, k, v, s)
    && w'.leaves == w.leaves[p := b][q := c]
    && BLink.SplitLeaf(w.tree, w'.tree, p, q, k, s, KeysOf(b.entries), KeysOf(c.entries))
  }

  /** k is there already: its value is overwritten in place. */
  ghost predicate Update(w: World, w': World, p: Addr, i: nat, v: Value) {
    && IsLeaf(w.tree, p) && p in w.leaves && i < |w.leaves[p].entries| && w.leaves[p].entries[i].key != 0
    && w'.tree == w.tree
    && var a := w.leaves[p];
       w'.leaves == w.leaves[p := a.(entries := WithValue(a.entries, i, v))]
  }

  /** A step above the leaves. */
  ghost predicate Above(w: World, w': World, s: BLink.Step) {
    (s.StepInstall? || s.StepSplitInner? || s.StepGrowRoot?) && BLink.TakesStep(w.tree, w'.tree, s) && w'.leaves == w.leaves
  }

  ghost predicate Next(g: Geometry, bits: nat, w: World, w': World) {
    || w == w'
    || (exists p, b, k, v :: Store(g, bits, w, w', p, b, k, v))
    || (exists p, q, b, c, k, v, s :: Split(g, bits, w, w', p, q, b, c, k, v, s))
    || (exists p, i, v :: Update(w, w', p, i, v))
    || (exists s :: Above(w, w', s))
  }

  // ---- every step keeps the invariant ----

  /** A leaf that a step does not touch. */
  lemma Untouched(g: Geometry, bits: nat, w: World, w': World, p: Addr)
    requires LeafOk(g, bits, w, p) && p in w'.leaves && w'.leaves[p] == w.leaves[p]
    requires p in w'.tree.nodes && w'.tree.nodes[p] == w.tree.nodes[p]
    ensures LeafOk(g, bits, w', p)
  {}

  lemma CoveredKey(g: Geometry, bits: nat, w: World, p: Addr, k: Key)
    requires WorldInv(g, bits, w) && IsLeaf(w.tree, p) && p in w.leaves && k < w.tree.nodes[p].hi
    ensures GoodLeaf(g, bits, w.leaves[p]) && Represents(g, w.leaves[p].entries, w.tree, p)
    ensures w.leaves[p].maxIdx < |w.leaves[p].entries| && k <= w.leaves[p].entries[w.leaves[p].maxIdx].key
  {
    assert LeafOk(g, bits, w, p);
    MaxIsBound(g, w.leaves[p].entries, w.tree, p, w.leaves[p].maxIdx);
  }

  lemma StoreInv(g: Geometry, bits: nat, w: World, w': World, p: Addr, b: Leaf, k: Key, v: Value)
    requires WorldInv(g, bits, w) && Store(g, bits, w, w', p, b, k, v)
    ensures WorldInv(g, bits, w')
  {
    hide BLink.Inv, Inv, CanInsert, Inserted, MaxMoved, Absent, NotOptimistic, KeysOf;
    CoveredKey(g, bits, w, p, k);
    StoreGood(g, bits, w.leaves[p], b, k, v);
    InsertRefines(g, w.leaves[p].entries, k, v);
    BLink.StepInv(w.tree, w'.tree, BLink.StepInsert(p, k));
    forall q | IsLeaf(w'.tree, q) ensures LeafOk(g, bits, w', q) {
      if q != p {
        assert IsLeaf(w.tree, q);
        Untouched(g, bits, w, w', q);
      }
    }
  }

  lemma SplitInv(g: Geometry, bits: nat, w: World, w': World, p: Addr, q: Addr, b: Leaf, c: Leaf, k: Key, v: Value, s: Key)
    requires WorldInv(g, bits, w) && Split(g, bits, w, w', p, q, b, c, k, v, s)
    ensures WorldInv(g, bits, w')
  {
    hide BLink.Inv, Inv, SplitOutcome, ExactVacancy, Absent, NotOptimistic, KeysOf;
    CoveredKey(g, bits, w, p, k);
    SplitGood(g, bits, w.leaves[p], b, c, k, v, s);
    BLink.StepInv(w.tree, w'.tree, BLink.StepSplitLeaf(p, q, k, s, KeysOf(b.entries), KeysOf(c.entries)));
    forall r | IsLeaf(w'.tree, r) ensures LeafOk(g, bits, w', r) {
      if r != p && r != q {
        assert IsLeaf(w.tree, r);
        Untouched(g, bits, w, w', r);
      }
    }
  }

  /** Overwriting a value changes nothing the invariant speaks about. */
  lemma ValueOnly(g: Geometry, bits: nat, a: Leaf, i: nat, v: Value)
    requires GoodLeaf(g, bits, a) && i < |a.entries|
    ensures var r := WithValue(a.entries, i, v);
            GoodLeaf(g, bits, a.(entries := r)) && KeysOf(r) == KeysOf(a.entries)
  {
    hide Vacancy.Bucket, Inv, NotOptimistic;
    var t, r := a.entries, WithValue(a.entries, i, v);
    assert forall j :: 0 <= j < |t| ==> r[j].key == t[j].key;
    UpdateValid(g, t, i, v);
    VacancyOnly(g, bits, t, r, a.full);
  }

  lemma VacancyOnly(g: Geometry, bits: nat, t: seq<Entry>, r: seq<Entry>, full: set<nat>)
    requires NotOptimistic(g, t, bits, full) && |r| == |t| && forall j :: 0 <= j < |t| ==> r[j].key == t[j].key
    ensures NotOptimistic(g, r, bits, full)
  {
    hide Vacancy.Bucket;
    forall b | 0 <= b < bits && b !in full
      ensures exists i :: 0 <= i < |r| && r[i].key == 0 && Vacancy.Bucket(g.slots, bits, i) == b
    {
      var i :| 0 <= i < |t| && t[i].key == 0 && Vacancy.Bucket(g.slots, bits, i) == b;
      assert r[i].key == 0;
    }
  }

  lemma UpdateInv(g: Geometry, bits: nat, w: World, w': World, p: Addr, i: nat, v: Value)
    requires WorldInv(g, bits, w) && Update(w, w', p, i, v)
    ensures WorldInv(g, bits, w')
  {
    hide BLink.Inv, Inv, NotOptimistic, KeysOf;
    assert LeafOk(g, bits, w, p);
    ValueOnly(g, bits, w.leaves[p], i, v);
    forall r | IsLeaf(w'.tree, r) ensures LeafOk(g, bits, w', r) {
      assert IsLeaf(w.tree, r);
      if r != p { Untouched(g, bits, w, w', r); }
    }
  }

  lemma AboveInv(g: Geometry, bits: nat, w: World, w': World, s: BLink.Step)
    requires WorldInv(g, bits, w) && Above(w, w', s)
    ensures WorldInv(g, bits, w')
  {
    hide BLink.Inv;
    BLink.StepInv(w.tree, w'.tree, s);
    ParentLevel(w.tree, w'.tree, s);
    forall r | IsLeaf(w'.tree, r) ensures LeafOk(g, bits, w', r) {
      assert IsLeaf(w.tree, r) && LeafOk(g, bits, w, r);
      Untouched(g, bits, w, w', r);
    }
  }

  /** Announcements are for levels above the leaves, so steps that settle them leave the leaves alone. */
  lemma ParentLevel(t: BLink.Tree, t': BLink.Tree, s: BLink.Step)
    requires BLink.Inv(t) && BLink.TakesStep(t, t', s) && (s.StepInstall? || s.StepSplitInner? || s.StepGrowRoot?)
    ensures forall p {:trigger IsLeaf(t', p)} :: IsLeaf(t', p) ==> IsLeaf(t, p) && t'.nodes[p] == t.nodes[p]
  {
    match s
    case StepInstall(p, it) => assert BLink.GoodInstall(t, it);
    case StepSplitInner(p, q, it, cut) => assert BLink.GoodInstall(t, it);
    case StepGrowRoot(q, it) => assert BLink.GoodInstall(t, it);
  }

  lemma InitInv(g: Geometry, bits: nat, w: World)
    requires Init(g, bits, w)
    ensures WorldInv(g, bits, w)
  {
    hide BLink.Inv, Inv, NotOptimistic;
    BLink.InitInv(w.tree);
    var p := w.tree.root;
    var a := w.leaves[p];
    var v :| HoldsGhost(g, bits, w, v);
    CreatedGood(g, bits, a, w.tree.top - 1, v);
    CreatedKeys(g, a.entries, w.tree.top - 1, v);
  }

  lemma CreatedKeys(g: Geometry, t: seq<Entry>, k: Key, v: Value)
    requires k != 0 && |t| == g.slots && Contents(t, g.slots) == {(k, v)}
    ensures KeysOf(t) == {k}
  {
    forall x ensures x in KeysOf(t) <==> x == k {
      KeysOfContents(t, g.slots, x);
    }
  }

  // ---- runs ----

  ghost predicate Run(g: Geometry, bits: nat, ws: seq<World>) {
    ws != [] && Init(g, bits, ws[0]) && forall i :: 0 <= i < |ws| - 1 ==> Next(g, bits, ws[i], ws[i + 1])
  }

  lemma NextInv(g: Geometry, bits: nat, w: World, w': World)
    requires WorldInv(g, bits, w) && Next(g, bits, w, w')
    ensures WorldInv(g, bits, w')
  {
    hide WorldInv, Store, Split, Update, Above;
    if p, b, k, v :| Store(g, bits, w, w', p, b, k, v) {
      StoreInv(g, bits, w, w', p, b, k, v);
    } else if p, q, b, c, k, v, s :| Split(g, bits, w, w', p, q, b, c, k, v, s) {
      SplitInv(g, bits, w, w', p, q, b, c, k, v, s);
    } else if p, i, v :| Update(w, w', p, i, v) {
      UpdateInv(g, bits, w, w', p, i, v);
    } else if s :| Above(w, w', s) {
      AboveInv(g, bits, w, w', s);
    }
  }

  lemma {:induction false} RunInv(g: Geometry, bits: nat, ws: seq<World>, i: nat)
    requires Run(g, bits, ws) && i < |ws|
    ensures WorldInv(g, bits, ws[i])
  {
    hide WorldInv, Next, Init;
    if i == 0 {
      InitInv(g, bits, ws[0]);
    } else {
      RunInv(g, bits, ws, i - 1);
      assert Next(g, bits, ws[i - 1], ws[i - 1 + 1]);
      NextInv(g, bits, ws[i - 1], ws[i]);
    }
  }

  /** In every reachable tree, every leaf has a valid table of exactly its keys; its upper bound is its largest key plus one;
      the lock word points at that key, and a clear vacancy bit means its bucket has an empty slot. */
  lemma LeavesDescribed(g: Geometry, bits: nat, ws: seq<World>, i: nat, p: Addr)
    requires Run(g, bits, ws) && i < |ws| && IsLeaf(ws[i].tree, p)
    ensures p in ws[i].leaves
    ensures var n, a := ws[i].tree.nodes[p], ws[i].leaves[p];
            && Valid(g, a.entries) && KeysOf(a.entries) == n.keys
            && IsMaxIdx(a.entries, a.maxIdx) && n.hi == a.entries[a.maxIdx].key + 1
            && NotOptimistic(g, a.entries, bits, a.full)
  {
    hide BLink.Inv, Inv, NotOptimistic, KeysOf, Run;
    RunInv(g, bits, ws, i);
    assert LeafOk(g, bits, ws[i], p);
    MaxIsBound(g, ws[i].leaves[p].entries, ws[i].tree, p, ws[i].leaves[p].maxIdx);
  }

  // ---- what the whole tree holds ----

  /** All entries of all leaves. */
  ghost function Stored(g: Geometry, w: World): set<(Key, Value)> {
    set p, e | p in w.leaves && IsLeaf(w.tree, p) && e in Contents(w.leaves[p].entries, g.slots) :: e
  }

  lemma StoredIn(g: Geometry, w: World, p: Addr, e: (Key, Value))
    requires p in w.leaves && IsLeaf(w.tree, p) && e in Contents(w.leaves[p].entries, g.slots)
    ensures e in Stored(g, w)
  {}

  lemma StoredWhere(g: Geometry, w: World, e: (Key, Value)) returns (p: Addr)
    requires e in Stored(g, w)
    ensures p in w.leaves && IsLeaf(w.tree, p) && e in Contents(w.leaves[p].entries, g.slots)
  {
    p :| p in w.leaves && IsLeaf(w.tree, p) && e in Contents(w.leaves[p].entries, g.slots);
  }

  /** Storing a key adds its entry. */
  lemma StoreStored(g: Geometry, bits: nat, w: World, w': World, p: Addr, b: Leaf, k: Key, v: Value)
    requires WorldInv(g, bits, w) && Store(g, bits, w, w', p, b, k, v)
    ensures Stored(g, w') == Stored(g, w) + {(k, v)}
  {
    hide BLink.Inv, Inv, CanInsert, Inserted, MaxMoved, Absent, NotOptimistic, KeysOf, Contents, Stored;
    CoveredKey(g, bits, w, p, k);
    InsertedCorrect(g, w.leaves[p].entries, k, v);
    StoredIn(g, w', p, (k, v));
    forall e | e in Stored(g, w) ensures e in Stored(g, w') {
      var q := StoredWhere(g, w, e);
      StoredIn(g, w', q, e);
    }
    forall e | e in Stored(g, w') ensures e in Stored(g, w) + {(k, v)} {
      var q := StoredWhere(g, w', e);
      if e != (k, v) { StoredIn(g, w, q, e); }
    }
  }

  /** So does a split. */
  lemma SplitStored(g: Geometry, bits: nat, w: World, w': World, p: Addr, q: Addr, b: Leaf, c: Leaf, k: Key, v: Value, s: Key)
    requires WorldInv(g, bits, w) && Split(g, bits, w, w', p, q, b, c, k, v, s)
    ensures Stored(g, w') == Stored(g, w) + {(k, v)}
  {
    hide BLink.Inv, Inv, ExactVacancy, Absent, NotOptimistic, KeysOf, Contents, Stored, WorldInv, AllKeys, IsMaxIdx, BLink.SplitsKeys;
    assert Contents(b.entries, g.slots) + Contents(c.entries, g.slots) == Contents(w.leaves[p].entries, g.slots) + {(k, v)};
    forall e | e in Stored(g, w) + {(k, v)} ensures e in Stored(g, w') {
      var r := p;
      if e in Stored(g, w) { r := StoredWhere(g, w, e); }
      if r != p {
        StoredIn(g, w', r, e);
      } else if e in Contents(b.entries, g.slots) {
        StoredIn(g, w', p, e);
      } else {
        StoredIn(g, w', q, e);
      }
    }
    forall e | e in Stored(g, w') ensures e in Stored(g, w) + {(k, v)} {
      var r := StoredWhere(g, w', e);
      if e != (k, v) { StoredIn(g, w, if r == q then p else r, e); }
    }
  }

  /** A key is in the table of one leaf only. */
  lemma OneLeaf(g: Geometry, bits: nat, w: World, p: Addr, q: Addr, k: Key, a: Value, b: Value)
    requires WorldInv(g, bits, w) && IsLeaf(w.tree, p) && IsLeaf(w.tree, q) && p in w.leaves && q in w.leaves
    requires (k, a) in Contents(w.leaves[p].entries, g.slots) && (k, b) in Contents(w.leaves[q].entries, g.slots)
    ensures p == q
  {
    hide Inv, NotOptimistic, KeysOf, Contents;
    assert LeafOk(g, bits, w, p) && LeafOk(g, bits, w, q);
    ValidShape(g, w.leaves[p].entries);
    ValidShape(g, w.leaves[q].entries);
    KeysOfContents(w.leaves[p].entries, g.slots, k);
    KeysOfContents(w.leaves[q].entries, g.slots, k);
    assert BLink.GoodKeys(w.tree.nodes[p]) && BLink.GoodKeys(w.tree.nodes[q]) && BLink.Apart(w.tree, p, q);
  }

  lemma OneEntry(g: Geometry, t: seq<Entry>, k: Key, a: Value, b: Value)
    requires Valid(g, t) && (k, a) in Contents(t, g.slots) && (k, b) in Contents(t, g.slots)
    ensures a == b
  {
    var i :| 0 <= i < |t| && Used(t, g.slots, i) && (k, a) == (t[i].key, t[i].value);
    var j :| 0 <= j < |t| && Used(t, g.slots, j) && (k, b) == (t[j].key, t[j].value);
  }

  /** The tree is a map: no key has two values. */
  lemma OneValue(g: Geometry, bits: nat, w: World, k: Key, a: Value, b: Value)
    requires WorldInv(g, bits, w) && (k, a) in Stored(g, w) && (k, b) in Stored(g, w)
    ensures a == b
  {
    hide Inv, NotOptimistic, KeysOf, Contents, Stored, BLink.Inv;
    var p := StoredWhere(g, w, (k, a));
    var q := StoredWhere(g, w, (k, b));
    OneLeaf(g, bits, w, p, q, k, a, b);
    assert LeafOk(g, bits, w, p);
    OneEntry(g, w.leaves[p].entries, k, a, b);
  }

  /** An update replaces the value of its key. */
  lemma UpdateStored(g: Geometry, bits: nat, w: World, w': World, p: Addr, i: nat, v: Value)
    requires WorldInv(g, bits, w) && Update(w, w', p, i, v)
    ensures var e := w.leaves[p].entries[i];
            (e.key, e.value) in Stored(g, w) && Stored(g, w') == Stored(g, w) - {(e.key, e.value)} + {(e.key, v)}
  {
    hide Inv, NotOptimistic, KeysOf, Contents, Stored, BLink.Inv;
    var t := w.leaves[p].entries;
    var k, old' := t[i].key, t[i].value;
    assert LeafOk(g, bits, w, p);
    ValidShape(g, t);
    ContentsKeys(t, g.slots, i);
    StoredIn(g, w, p, (k, old'));
    UpdateContents(g, t, i, v);
    StoredIn(g, w', p, (k, v));
    forall e | e in Stored(g, w) && e != (k, old') ensures e in Stored(g, w') {
      var q := StoredWhere(g, w, e);
      StoredIn(g, w', q, e);
    }
    forall e | e in Stored(g, w') && e != (k, v) ensures e in Stored(g, w) && e != (k, old') {
      var q := StoredWhere(g, w', e);
      StoredIn(g, w, q, e);
      if e == (k, old') { OneLeaf(g, bits, w, p, q, k, old', old'); }
    }
  }

  /** Steps above the leaves change nothing. */
  lemma AboveStored(g: Geometry, bits: nat, w: World, w': World, s: BLink.Step)
    requires WorldInv(g, bits, w) && Above(w, w', s)
    ensures Stored(g, w') == Stored(g, w)
  {
    hide BLink.Inv, Contents, Stored;
    ParentLevel(w.tree, w'.tree, s);
    BLink.StepKeeps(w.tree, w'.tree, s);
    forall e | e in Stored(g, w) ensures e in Stored(g, w') {
      var q := StoredWhere(g, w, e);
      StoredIn(g, w', q, e);
    }
    forall e | e in Stored(g, w') ensures e in Stored(g, w) {
      var q := StoredWhere(g, w', e);
      StoredIn(g, w, q, e);
    }
  }
}
