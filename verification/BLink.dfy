/** The B-link tree as a state machine.  Leaves split first and are announced to their parent later; internal nodes
    split; the root grows; nothing is ever merged and no address is reused.  Readers route with any internal node
    image that was ever written, however stale. */
module BLink {
  import opened InternalNode

  /** A node of any level, 0 being the leaves.  A leaf does not store its bounds: `lo` and `hi` of a leaf are part of
      the model only, and no step of a reader looks at them. */
  datatype Node = Node(level: nat, lo: Key, hi: Key, sibling: Addr, kids: seq<Kid>, nextLeftmost: Addr, keys: set<Key>)

  /** A split sibling that its parent level does not know yet. */
  datatype Install = Install(level: nat, key: Key, child: Addr)

  /** `images` holds every internal node image ever written: what caches and slow readers may still be looking at. */
  datatype Tree = Tree(bottom: Key, top: Key, root: Addr, nodes: map<Addr, Node>, pending: set<Install>, images: set<Node>)

  // ---- the invariant ----

  /** p is a node of the given level whose range starts at k.  Neither ever changes. */
  predicate Points(t: Tree, p: Addr, level: nat, k: Key) {
    p != NULL && p in t.nodes && t.nodes[p].level == level && t.nodes[p].lo == k
  }

  /** Fences tile the key space: the range ends where the sibling's begins. */
  predicate GoodLink(t: Tree, p: Addr)
    requires p in t.nodes
  {
    var n := t.nodes[p];
    && p != NULL && t.bottom <= n.lo < n.hi <= t.top
    && (if n.sibling == NULL then n.hi == t.top else Points(t, n.sibling, n.level, n.hi))
  }

  ghost predicate GoodLinks(t: Tree) {
    forall p {:trigger GoodLink(t, p)} :: p in t.nodes ==> GoodLink(t, p)
  }

  predicate Apart(t: Tree, p: Addr, q: Addr)
    requires p in t.nodes && q in t.nodes
  {
    p != q && t.nodes[p].level == t.nodes[q].level ==>
      t.nodes[p].hi <= t.nodes[q].lo || t.nodes[q].hi <= t.nodes[p].lo
  }

  /** Ranges of nodes of one level do not overlap. */
  ghost predicate Disjoint(t: Tree) {
    forall p, q {:trigger Apart(t, p, q)} :: p in t.nodes && q in t.nodes ==> Apart(t, p, q)
  }

  /** A leaf's keys lie in its range, and its upper bound is its largest key plus one. */
  predicate GoodKeys(n: Node) {
    if n.level == 0 then n.hi >= 1 && n.hi - 1 in n.keys && forall k :: k in n.keys ==> n.lo <= k < n.hi
    else n.keys == {}
  }

  ghost predicate GoodLeaves(t: Tree) {
    forall p {:trigger GoodKeys(t.nodes[p])} :: p in t.nodes ==> GoodKeys(t.nodes[p])
  }

  /** An internal node image, stale or not: its kids are nodes one level down, each named with its lower bound, and
      `nextLeftmost` is the node that starts where this image ends. */
  ghost predicate GoodImage(t: Tree, n: Node) {
    && 1 <= n.level && 2 <= |n.kids| && Ascending(n.kids) && n.kids[0].key == n.lo
    && (forall i :: 0 <= i < |n.kids| ==> n.kids[i].key < n.hi && Points(t, n.kids[i].ptr, n.level - 1, n.kids[i].key))
    && n.hi <= t.top
    && (if n.nextLeftmost == NULL then n.hi == t.top else Points(t, n.nextLeftmost, n.level - 1, n.hi))
  }

  predicate Imaged(t: Tree, p: Addr)
    requires p in t.nodes
  {
    t.nodes[p].level >= 1 ==> t.nodes[p] in t.images
  }

  ghost predicate GoodImages(t: Tree) {
    && (forall n {:trigger GoodImage(t, n)} :: n in t.images ==> GoodImage(t, n))
    && (forall p {:trigger Imaged(t, p)} :: p in t.nodes ==> Imaged(t, p))
  }

  /** The image mentions p as a kid. */
  predicate Mentions(n: Node, p: Addr) {
    exists i :: 0 <= i < |n.kids| && n.kids[i].ptr == p
  }

  /** An announced child exists, starts at the announced key, and no parent has it yet. */
  ghost predicate GoodInstall(t: Tree, it: Install) {
    && 1 <= it.level && Points(t, it.child, it.level - 1, it.key) && t.bottom < it.key
    && forall n {:trigger Mentions(n, it.child)} :: n in t.images && n.level == it.level ==> !Mentions(n, it.child)
  }

  ghost predicate GoodPending(t: Tree) {
    forall it {:trigger GoodInstall(t, it)} :: it in t.pending ==> GoodInstall(t, it)
  }

  /** The root is the highest node and starts at the lowest key. */
  ghost predicate GoodRoot(t: Tree) {
    && t.root in t.nodes && t.nodes[t.root].lo == t.bottom
    && (forall p {:trigger t.nodes[p].level} :: p in t.nodes ==> t.nodes[p].level <= t.nodes[t.root].level)
  }

  ghost predicate Inv(t: Tree) {
    GoodLinks(t) && Disjoint(t) && GoodLeaves(t) && GoodImages(t) && GoodPending(t) && GoodRoot(t)
  }

  // ---- the steps ----

  /** The tree is created with one leaf holding the largest possible key. */
  ghost predicate Init(t: Tree) {
    && t.bottom < t.top && t.root != NULL && t.pending == {} && t.images == {}
    && t.nodes == map[t.root := Node(0, t.bottom, t.top, NULL, [], NULL, {t.top - 1})]
  }

  /** A key is stored in the leaf whose range covers it. */
  ghost predicate InsertKey(t: Tree, t': Tree, p: Addr, k: Key) {
    && p in t.nodes && t.nodes[p].level == 0 && t.nodes[p].lo <= k < t.nodes[p].hi
    && t' == t.(nodes := t.nodes[p := t.nodes[p].(keys := t.nodes[p].keys + {k})])
  }

  /** What a leaf split makes of the keys: everything is kept, and the split key is one more than the largest key on
      the left. */
  ghost predicate SplitsKeys(keys: set<Key>, k: Key, splitKey: Key, left: set<Key>, right: set<Key>) {
    && left + right == keys + {k} && right != {} && splitKey >= 1 && splitKey - 1 in left
    && (forall x :: x in left ==> x < splitKey) && (forall x :: x in right ==> x >= splitKey)
  }

  ghost predicate SplitLeaf(t: Tree, t': Tree, p: Addr, q: Addr, k: Key, splitKey: Key, left: set<Key>, right: set<Key>) {
    && p in t.nodes && q !in t.nodes && q != NULL && t.nodes[p].level == 0 && t.nodes[p].lo <= k < t.nodes[p].hi
    && SplitsKeys(t.nodes[p].keys, k, splitKey, left, right)
    && t' == t.(nodes := t.nodes[p := t.nodes[p].(hi := splitKey, sibling := q, keys := left)]
                                [q := Node(0, splitKey, t.nodes[p].hi, t.nodes[p].sibling, [], NULL, right)],
                pending := t.pending + {Install(1, splitKey, q)})
  }

  /** A parent takes in an announced child. */
  ghost predicate InstallKid(t: Tree, t': Tree, p: Addr, it: Install) {
    && p in t.nodes && it in t.pending && t.nodes[p].level == it.level && t.nodes[p].lo <= it.key < t.nodes[p].hi
    && var n := t.nodes[p].(kids := InsertKid(t.nodes[p].kids, Kid(it.key, it.child)));
       t' == t.(nodes := t.nodes[p := n], pending := t.pending - {it}, images := t.images + {n})
  }

  /** A full parent splits while taking in an announced child. */
  ghost predicate SplitInner(t: Tree, t': Tree, p: Addr, q: Addr, it: Install, cut: nat) {
    && p in t.nodes && it in t.pending && q !in t.nodes && q != NULL
    && t.nodes[p].level == it.level && t.nodes[p].lo <= it.key < t.nodes[p].hi
    && 2 <= cut && cut + 2 <= |t.nodes[p].kids|
    && var n := t.nodes[p];
       var (left, right) := SplitKids(n.kids, cut, Kid(it.key, it.child));
       var splitKey := n.kids[cut].key;
       var a := n.(hi := splitKey, sibling := q, kids := left, nextLeftmost := n.kids[cut].ptr);
       var b := Node(n.level, splitKey, n.hi, n.sibling, right, n.nextLeftmost, {});
       t' == t.(nodes := t.nodes[p := a][q := b],
                pending := t.pending - {it} + {Install(n.level + 1, splitKey, q)},
                images := t.images + {a, b})
  }

  /** A split of the root is announced by putting a new root above it. */
  ghost predicate GrowRoot(t: Tree, t': Tree, r: Addr, it: Install) {
    && it in t.pending && r !in t.nodes && r != NULL && t.root in t.nodes && t.nodes[t.root].level + 1 == it.level
    && var n := Node(it.level, t.bottom, t.top, NULL, [Kid(t.bottom, t.root), Kid(it.key, it.child)], NULL, {});
       t' == t.(root := r, nodes := t.nodes[r := n], pending := t.pending - {it}, images := t.images + {n})
  }

  datatype Step =
    | StepInsert(p: Addr, k: Key)
    | StepSplitLeaf(p: Addr, q: Addr, k: Key, splitKey: Key, left: set<Key>, right: set<Key>)
    | StepInstall(p: Addr, it: Install)
    | StepSplitInner(p: Addr, q: Addr, it: Install, cut: nat)
    | StepGrowRoot(q: Addr, it: Install)

  ghost predicate TakesStep(t: Tree, t': Tree, s: Step) {
    match s
    case StepInsert(p, k) => InsertKey(t, t', p, k)
    case StepSplitLeaf(p, q, k, splitKey, left, right) => SplitLeaf(t, t', p, q, k, splitKey, left, right)
    case StepInstall(p, it) => InstallKid(t, t', p, it)
    case StepSplitInner(p, q, it, cut) => SplitInner(t, t', p, q, it, cut)
    case StepGrowRoot(q, it) => GrowRoot(t, t', q, it)
  }

  ghost predicate Next(t: Tree, t': Tree) {
    t == t' || exists s :: TakesStep(t, t', s)
  }

  // ---- what no step ever changes ----

  /** Lower bounds and levels are immutable, images accumulate, keys stay in the tree. */
  ghost predicate Keeps(t: Tree, t': Tree) {
    && t'.bottom == t.bottom && t'.top == t.top && t.images <= t'.images
    && (forall p :: p in t.nodes ==> p in t'.nodes && t'.nodes[p].level == t.nodes[p].level && t'.nodes[p].lo == t.nodes[p].lo)
  }

  lemma StepKeeps(t: Tree, t': Tree, s: Step)
    requires TakesStep(t, t', s)
    ensures Keeps(t, t')
  {}

  lemma KeepsImage(t: Tree, t': Tree, n: Node)
    requires Keeps(t, t') && GoodImage(t, n)
    ensures GoodImage(t', n)
  {}

  /** A step that adds images and settles announcements only has to account for what it adds. */
  lemma KeepsImages(t: Tree, t': Tree, added: set<Node>)
    requires Keeps(t, t') && GoodImages(t) && t'.images == t.images + added
    requires forall n :: n in added ==> GoodImage(t', n)
    requires forall p :: p in t'.nodes && t'.nodes[p].level >= 1 ==> (p in t.nodes && t'.nodes[p] == t.nodes[p]) || t'.nodes[p] in added
    ensures GoodImages(t')
  {
    forall n | n in t'.images ensures GoodImage(t', n) {
      if n in t.images {
        assert GoodImage(t, n);
        KeepsImage(t, t', n);
      }
    }
    forall p | p in t'.nodes ensures Imaged(t', p) {
      assert p in t.nodes ==> Imaged(t, p);
    }
  }

  lemma KeepsPending(t: Tree, t': Tree, added: set<Node>, it: Install)
    requires Keeps(t, t') && GoodInstall(t, it) && t'.images == t.images + added
    requires forall n :: n in added && n.level == it.level ==> !Mentions(n, it.child)
    ensures GoodInstall(t', it)
  {}

  lemma KeepsAllPending(t: Tree, t': Tree)
    requires Keeps(t, t') && GoodPending(t) && t'.images == t.images && t'.pending == t.pending
    ensures GoodPending(t')
  {
    forall it | it in t'.pending ensures GoodInstall(t', it) {
      assert GoodInstall(t, it);
      KeepsPending(t, t', {}, it);
    }
  }

  /** A step that changes neither bounds nor siblings keeps the links. */
  lemma SameLinks(t: Tree, t': Tree)
    requires GoodLinks(t) && Disjoint(t) && t'.nodes.Keys == t.nodes.Keys && t'.bottom == t.bottom && t'.top == t.top
    requires forall p :: p in t.nodes ==>
      var a, b := t.nodes[p], t'.nodes[p]; a.level == b.level && a.lo == b.lo && a.hi == b.hi && a.sibling == b.sibling
    ensures GoodLinks(t') && Disjoint(t')
  {
    forall q | q in t'.nodes ensures GoodLink(t', q) {
      assert GoodLink(t, q);
    }
    forall x, y | x in t'.nodes && y in t'.nodes ensures Apart(t', x, y) {
      assert Apart(t, x, y);
    }
  }

  // ---- every step keeps the invariant ----

  lemma InitInv(t: Tree)
    requires Init(t)
    ensures Inv(t)
  {}

  lemma InsertKeyInv(t: Tree, t': Tree, p: Addr, k: Key)
    requires Inv(t) && InsertKey(t, t', p, k)
    ensures Inv(t')
  {
    StepKeeps(t, t', StepInsert(p, k));
    KeepsImages(t, t', {});
    KeepsAllPending(t, t');
    SameLinks(t, t');
    forall q | q in t'.nodes ensures GoodKeys(t'.nodes[q]) { assert GoodKeys(t.nodes[q]); }
  }

  /** A node cut in two at splitKey: links and disjointness are about levels, bounds and siblings only. */
  lemma CutLinks(t: Tree, t': Tree, p: Addr, q: Addr, splitKey: Key)
    requires GoodLinks(t) && Disjoint(t) && p in t.nodes && q !in t.nodes && q != NULL
    requires t.nodes[p].lo < splitKey < t.nodes[p].hi && t'.bottom == t.bottom && t'.top == t.top
    requires t'.nodes.Keys == t.nodes.Keys + {q}
    requires forall x :: x in t.nodes && x != p ==> t'.nodes[x] == t.nodes[x]
    requires var a, b, n := t'.nodes[p], t'.nodes[q], t.nodes[p];
             && a.level == n.level && a.lo == n.lo && a.hi == splitKey && a.sibling == q
             && b.level == n.level && b.lo == splitKey && b.hi == n.hi && b.sibling == n.sibling
    ensures GoodLinks(t') && Disjoint(t')
  {
    forall x | x in t'.nodes ensures GoodLink(t', x) {
      assert GoodLink(t, if x == q then p else x);
    }
    forall x, y | x in t'.nodes && y in t'.nodes ensures Apart(t', x, y) {
      assert Apart(t, if x == q then p else x, if y == q then p else y);
      assert GoodLink(t, if x == q then p else x) && GoodLink(t, if y == q then p else y);
    }
  }

  lemma SplitLeafPending(t: Tree, t': Tree, p: Addr, q: Addr, k: Key, splitKey: Key, left: set<Key>, right: set<Key>)
    requires Inv(t) && SplitLeaf(t, t', p, q, k, splitKey, left, right)
    ensures GoodPending(t')
  {
    StepKeeps(t, t', StepSplitLeaf(p, q, k, splitKey, left, right));
    forall it | it in t'.pending ensures GoodInstall(t', it) {
      if it in t.pending {
        assert GoodInstall(t, it);
        KeepsPending(t, t', {}, it);
      } else {
        assert GoodLink(t, p);
        SplitLeafKeys(t, t', p, q, k, splitKey, left, right);
        forall n | n in t.images ensures !Mentions(n, q) { assert GoodImage(t, n); }
      }
    }
  }

  lemma SplitLeafInv(t: Tree, t': Tree, p: Addr, q: Addr, k: Key, splitKey: Key, left: set<Key>, right: set<Key>)
    requires Inv(t) && SplitLeaf(t, t', p, q, k, splitKey, left, right)
    ensures Inv(t')
  {
    hide GoodImages, GoodPending, GoodLinks, Disjoint;
    StepKeeps(t, t', StepSplitLeaf(p, q, k, splitKey, left, right));
    SplitLeafPending(t, t', p, q, k, splitKey, left, right);
    SplitLeafKeys(t, t', p, q, k, splitKey, left, right);
    KeepsImages(t, t', {});
    CutLinks(t, t', p, q, splitKey);
  }

  /** The old largest key goes right, and the new bound is one more than the largest key left behind. */
  lemma SplitLeafKeys(t: Tree, t': Tree, p: Addr, q: Addr, k: Key, splitKey: Key, left: set<Key>, right: set<Key>)
    requires Inv(t) && SplitLeaf(t, t', p, q, k, splitKey, left, right)
    ensures t.nodes[p].lo < splitKey < t.nodes[p].hi && GoodLeaves(t')
  {
    var n := t.nodes[p];
    assert GoodKeys(n);
    assert forall x :: x in left + right ==> n.lo <= x < n.hi;
    assert splitKey - 1 in left + right;
    var y :| y in right;
    assert y in left + right && n.hi - 1 in left + right;
    forall x | x in t'.nodes ensures GoodKeys(t'.nodes[x]) {
      assert x != q ==> GoodKeys(t.nodes[x]);
    }
  }

  /** Two nodes of one level never start at the same key. */
  lemma SameStart(t: Tree, p: Addr, q: Addr, level: nat, k: Key)
    requires GoodLinks(t) && Disjoint(t) && Points(t, p, level, k) && Points(t, q, level, k)
    ensures p == q
  {
    assert GoodLink(t, p) && GoodLink(t, q) && Apart(t, p, q);
  }

  /** The announced key is not in the parent yet: the check in `internal_node_insert` never fires. */
  lemma AnnouncedKeyIsNew(t: Tree, n: Node, it: Install)
    requires Inv(t) && n in t.images && it in t.pending && n.level == it.level
    ensures forall i :: 0 <= i < |n.kids| ==> n.kids[i].key != it.key
  {
    assert GoodInstall(t, it) && GoodImage(t, n) && !Mentions(n, it.child);
    forall i | 0 <= i < |n.kids| ensures n.kids[i].key != it.key {
      if n.kids[i].key == it.key {
        SameStart(t, n.kids[i].ptr, it.child, it.level - 1, it.key);
      }
    }
  }

  /** Announcements are determined by the child they announce. */
  lemma OneAnnouncement(t: Tree, a: Install, b: Install)
    requires GoodInstall(t, a) && GoodInstall(t, b) && a.child == b.child
    ensures a == b
  {}

  lemma InstallKidInv(t: Tree, t': Tree, p: Addr, it: Install)
    requires Inv(t) && InstallKid(t, t', p, it)
    ensures Inv(t')
  {
    StepKeeps(t, t', StepInstall(p, it));
    var n := t.nodes[p];
    assert GoodInstall(t, it) && Imaged(t, p);
    AnnouncedKeyIsNew(t, n, it);
    assert GoodImage(t, n);
    var m := WithKid(t, n, it);
    KeepsImage(t, t', m);
    KeepsImages(t, t', {m});
    forall x | x in t'.pending ensures GoodInstall(t', x) {
      assert GoodInstall(t, x);
      if x.child == it.child { OneAnnouncement(t, x, it); }
      KeepsPending(t, t', {m}, x);
    }
    SameLinks(t, t');
    forall q | q in t'.nodes ensures GoodKeys(t'.nodes[q]) { assert GoodKeys(t.nodes[q]); }
  }

  /** Either half of a good image, cut at an inner kid, is a good image of its own. */
  lemma CutImage(t: Tree, n: Node, cut: nat, q: Addr) returns (a: Node, b: Node)
    requires GoodImage(t, n) && 2 <= cut && cut + 2 <= |n.kids|
    ensures a == n.(hi := n.kids[cut].key, sibling := q, kids := n.kids[..cut], nextLeftmost := n.kids[cut].ptr)
    ensures b == Node(n.level, n.kids[cut].key, n.hi, n.sibling, n.kids[cut..], n.nextLeftmost, {})
    ensures GoodImage(t, a) && GoodImage(t, b)
    ensures forall x :: Mentions(a, x) || Mentions(b, x) ==> Mentions(n, x)
  {
    a := n.(hi := n.kids[cut].key, sibling := q, kids := n.kids[..cut], nextLeftmost := n.kids[cut].ptr);
    b := Node(n.level, n.kids[cut].key, n.hi, n.sibling, n.kids[cut..], n.nextLeftmost, {});
  }

  /** The two images a splitting parent leaves behind, with the announced child in the half it belongs to. */
  lemma SplitImages(t: Tree, n: Node, it: Install, cut: nat, q: Addr) returns (a: Node, b: Node)
    requires Inv(t) && n in t.images && it in t.pending && n.level == it.level && n.lo <= it.key < n.hi
    requires 2 <= cut && cut + 2 <= |n.kids|
    ensures var (left, right) := SplitKids(n.kids, cut, Kid(it.key, it.child));
            && a == n.(hi := n.kids[cut].key, sibling := q, kids := left, nextLeftmost := n.kids[cut].ptr)
            && b == Node(n.level, n.kids[cut].key, n.hi, n.sibling, right, n.nextLeftmost, {})
    ensures GoodImage(t, a) && GoodImage(t, b)
    ensures forall x :: Mentions(a, x) || Mentions(b, x) ==> Mentions(n, x) || x == it.child
  {
    assert GoodImage(t, n) && GoodInstall(t, it);
    AnnouncedKeyIsNew(t, n, it);
    a, b := CutImage(t, n, cut, q);
    if it.key < n.kids[cut].key {
      a := WithKid(t, a, it);
    } else {
      b := WithKid(t, b, it);
    }
  }

  lemma WithKid(t: Tree, n: Node, it: Install) returns (m: Node)
    requires GoodImage(t, n) && GoodInstall(t, it) && n.level == it.level && n.lo <= it.key < n.hi
    requires forall i :: 0 <= i < |n.kids| ==> n.kids[i].key != it.key
    ensures m == n.(kids := InsertKid(n.kids, Kid(it.key, it.child))) && GoodImage(t, m)
    ensures forall x :: Mentions(m, x) ==> Mentions(n, x) || x == it.child
  {
    m := n.(kids := InsertKid(n.kids, Kid(it.key, it.child)));
    InsertKidCorrect(n.kids, Kid(it.key, it.child));
    forall i | 0 <= i < |m.kids| ensures m.kids[i].key < m.hi && Points(t, m.kids[i].ptr, m.level - 1, m.kids[i].key) {
      assert m.kids[i] in m.kids;
    }
    forall x | Mentions(m, x) ensures Mentions(n, x) || x == it.child {
      var i :| 0 <= i < |m.kids| && m.kids[i].ptr == x;
      assert m.kids[i] in m.kids;
    }
  }

  lemma SplitInnerPending(t: Tree, t': Tree, p: Addr, q: Addr, it: Install, cut: nat, a: Node, b: Node)
    requires Inv(t) && SplitInner(t, t', p, q, it, cut) && t'.images == t.images + {a, b} && Keeps(t, t')
    requires t'.nodes[q] == b && b.lo == t.nodes[p].kids[cut].key && a.level == b.level == it.level
    requires forall x :: Mentions(a, x) || Mentions(b, x) ==> Mentions(t.nodes[p], x) || x == it.child
    ensures GoodPending(t')
  {
    assert GoodInstall(t, it) && Imaged(t, p) && GoodImage(t, t.nodes[p]) && GoodLink(t, p);
    forall x | x in t'.pending ensures GoodInstall(t', x) {
      if x in t.pending && x != it {
        assert GoodInstall(t, x) && (x.level == it.level ==> !Mentions(t.nodes[p], x.child));
        if x.child == it.child { OneAnnouncement(t, x, it); }
        KeepsPending(t, t', {a, b}, x);
      } else {
        forall n | n in t'.images && n.level == x.level ensures !Mentions(n, q) {
          assert n in t.images ==> GoodImage(t, n);
        }
      }
    }
  }

  /** A good parent of an announced child, and where it may be cut. */
  lemma ParentShape(t: Tree, p: Addr, it: Install, cut: nat)
    requires Inv(t) && p in t.nodes && it in t.pending && t.nodes[p].level == it.level
    requires cut < |t.nodes[p].kids| && 1 <= cut
    ensures t.nodes[p] in t.images && 1 <= it.level && t.nodes[p].lo < t.nodes[p].kids[cut].key < t.nodes[p].hi
  {
    assert GoodInstall(t, it) && Imaged(t, p) && GoodImage(t, t.nodes[p]);
  }

  lemma SplitInnerInv(t: Tree, t': Tree, p: Addr, q: Addr, it: Install, cut: nat)
    requires Inv(t) && SplitInner(t, t', p, q, it, cut)
    ensures Inv(t')
  {
    hide GoodPending, GoodInstall, GoodImages, GoodImage, GoodLinks, Disjoint, Mentions, SplitKids;
    StepKeeps(t, t', StepSplitInner(p, q, it, cut));
    ParentShape(t, p, it, cut);
    var a, b := SplitImages(t, t.nodes[p], it, cut, q);
    KeepsImage(t, t', a);
    KeepsImage(t, t', b);
    KeepsImages(t, t', {a, b});
    SplitInnerPending(t, t', p, q, it, cut, a, b);
    CutLinks(t, t', p, q, t.nodes[p].kids[cut].key);
    forall x | x in t'.nodes ensures GoodKeys(t'.nodes[x]) { assert x != q ==> GoodKeys(t.nodes[x]); }
  }

  lemma GrowRootInv(t: Tree, t': Tree, r: Addr, it: Install)
    requires Inv(t) && GrowRoot(t, t', r, it)
    ensures Inv(t')
  {
    StepKeeps(t, t', StepGrowRoot(r, it));
    var n := t'.nodes[r];
    assert GoodInstall(t, it) && GoodLink(t, t.root) && GoodLink(t, it.child);
    assert GoodImage(t', n);
    KeepsImages(t, t', {n});
    forall x | x in t'.pending ensures GoodInstall(t', x) {
      assert GoodInstall(t, x);
      if x.child == it.child { OneAnnouncement(t, x, it); }
      assert x.level == it.level ==> x.child != t.root;
      KeepsPending(t, t', {n}, x);
    }
    forall q | q in t'.nodes ensures GoodLink(t', q) { assert q != r ==> GoodLink(t, q); }
    forall x, y | x in t'.nodes && y in t'.nodes ensures Apart(t', x, y) {
      assert x != r && y != r ==> Apart(t, x, y);
    }
    forall q | q in t'.nodes ensures GoodKeys(t'.nodes[q]) { assert q != r ==> GoodKeys(t.nodes[q]); }
  }

  lemma StepInv(t: Tree, t': Tree, s: Step)
    requires Inv(t) && TakesStep(t, t', s)
    ensures Inv(t') && Keeps(t, t')
  {
    hide Inv, Keeps;
    StepKeeps(t, t', s);
    match s
    case StepInsert(p, k) => InsertKeyInv(t, t', p, k);
    case StepSplitLeaf(p, q, k, splitKey, left, right) => SplitLeafInv(t, t', p, q, k, splitKey, left, right);
    case StepInstall(p, it) => InstallKidInv(t, t', p, it);
    case StepSplitInner(p, q, it, cut) => SplitInnerInv(t, t', p, q, it, cut);
    case StepGrowRoot(q, it) => GrowRootInv(t, t', q, it);
  }
}
