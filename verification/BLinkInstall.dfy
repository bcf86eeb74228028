/** Announcers: the thread that split a node takes the new sibling to the parent level, reading each node on the way as it
    is at that moment while others change the tree.

    `start` is the level of the root entry the descent began with.  Installing asks neither for the parent's range nor for
    its level: it happens wherever the descent and the comparison with the upper fence lead. */
module BLinkInstall {
  import opened InternalNode
  import opened BLink
  import opened BLinkSearch
  import opened BLinkCover

  datatype Announcer =
    | Begin
    | Down(addr: Addr, start: nat)
    | Stopped(start: nat)
    | Installed(parent: Addr, start: nat)

  /** The child is put into node p, whatever p is. */
  ghost predicate PutsKid(t: Tree, t': Tree, p: Addr, it: Install) {
    && p in t.nodes
    && var n := t.nodes[p].(kids := InsertKid(t.nodes[p].kids, Kid(it.key, it.child)));
       t' == t.(nodes := t.nodes[p := n], pending := t.pending - {it}, images := t.images + {n})
  }

  /** The same for a full node, which splits. */
  ghost predicate SplitsAround(t: Tree, t': Tree, p: Addr, q: Addr, it: Install, cut: nat) {
    && p in t.nodes && q !in t.nodes && q != NULL && 2 <= cut && cut + 2 <= |t.nodes[p].kids|
    && var n := t.nodes[p];
       var (left, right) := SplitKids(n.kids, cut, Kid(it.key, it.child));
       var splitKey := n.kids[cut].key;
       var a := n.(hi := splitKey, sibling := q, kids := left, nextLeftmost := n.kids[cut].ptr);
       var b := Node(n.level, splitKey, n.hi, n.sibling, right, n.nextLeftmost, {});
       t' == t.(nodes := t.nodes[p := a][q := b],
                pending := t.pending - {it} + {Install(n.level + 1, splitKey, q)},
                images := t.images + {a, b})
  }

  ghost predicate Puts(t: Tree, t': Tree, p: Addr, it: Install) {
    PutsKid(t, t', p, it) || exists q, cut :: SplitsAround(t, t', p, q, it, cut)
  }

  /** One round of `insert_internal` at node p: stop at the assertion when p is a leaf; at the announced level turn right or
      install; above it turn right or go down. */
  ghost predicate Round(t: Tree, t': Tree, it: Install, p: Addr, start: nat, w: Announcer) {
    p in t.nodes &&
    var n := t.nodes[p];
    if n.level == 0 then t' == t && w == Announcer.Stopped(start)
    else if it.key >= n.hi then t' == t && w == Down(n.sibling, start)
    else if n.level == it.level then Puts(t, t', p, it) && w == Installed(p, start)
    else
      && t' == t && n.kids != [] && Ascending(n.kids) && n.kids[0].key <= it.key
      && w == Down(Route(n.kids, n.nextLeftmost, it.key).0, start)
  }

  ghost predicate AnnouncerStep(t: Tree, t': Tree, it: Install, w: Announcer, w': Announcer) {
    match w
    case Begin => t' == t && t.root in t.nodes && w' == Down(t.root, t.nodes[t.root].level)
    case Down(p, start) => Round(t, t', it, p, start, w')
    case _ => false
  }

  /** A descent that began high enough is still at or above the announced level, one that did not is below it. */
  ghost predicate AnnouncerInv(t: Tree, it: Install, w: Announcer) {
    match w
    case Begin => it in t.pending
    case Down(p, start) =>
      && it in t.pending && p in t.nodes && t.nodes[p].lo <= it.key && t.nodes[p].level <= start
      && (it.level <= start ==> it.level <= t.nodes[p].level)
    case Stopped(start) => it.level > start
    case Installed(_, start) => it.level <= start
  }

  lemma PutIsStep(t: Tree, t': Tree, p: Addr, it: Install) returns (s: Step)
    requires p in t.nodes && it in t.pending && t.nodes[p].level == it.level && t.nodes[p].lo <= it.key < t.nodes[p].hi
    requires Puts(t, t', p, it)
    ensures TakesStep(t, t', s)
  {
    if PutsKid(t, t', p, it) {
      s := StepInstall(p, it);
    } else {
      var q, cut :| SplitsAround(t, t', p, q, it, cut);
      s := StepSplitInner(p, q, it, cut);
    }
  }

  lemma RoundInv(t: Tree, t': Tree, it: Install, p: Addr, start: nat, w: Announcer)
    requires Inv(t) && AnnouncerInv(t, it, Down(p, start)) && Round(t, t', it, p, start, w)
    ensures AnnouncerInv(t', it, w) && (t' == t || exists s :: TakesStep(t, t', s))
    ensures w.Installed? ==> w.parent == p && CoversAt(t, it.level, it.key, p)
  {
    hide GoodLinks, Disjoint, GoodLeaves, GoodImages, GoodRoot, GoodPending, Puts;
    AnnouncedShape(t, it);
    var n := t.nodes[p];
    EndsAtSibling(t, p);
    if n.hi <= it.key { SiblingThere(t, p); }
    if n.level > 0 && it.key < n.hi {
      if n.level == it.level {
        var s := PutIsStep(t, t', p, it);
      } else {
        ImageOf(t, p);
        RouteSound(t, n, it.key);
      }
    }
  }

  /** A node that does not reach the end of the key space has a sibling of its level. */
  lemma SiblingThere(t: Tree, p: Addr)
    requires Inv(t) && p in t.nodes && t.nodes[p].hi < t.top
    ensures t.nodes[p].sibling in t.nodes && t.nodes[t.nodes[p].sibling].level == t.nodes[p].level
    ensures t.nodes[t.nodes[p].sibling].lo == t.nodes[p].hi
  {
    assert GoodLink(t, p);
  }

  // ---- runs ----

  datatype Moment = Moment(tree: Tree, announcer: Announcer)

  /** Others change the tree, leaving this announcement to its announcer; or the announcer moves. */
  ghost predicate Moves(it: Install, a: Moment, b: Moment) {
    || (a.announcer == b.announcer && Next(a.tree, b.tree) && (it in a.tree.pending ==> it in b.tree.pending))
    || AnnouncerStep(a.tree, b.tree, it, a.announcer, b.announcer)
  }

  ghost predicate AnnouncerRun(run: seq<Moment>, it: Install) {
    && run != [] && Inv(run[0].tree) && it in run[0].tree.pending && run[0].announcer == Begin
    && forall i :: 0 <= i < |run| - 1 ==> Moves(it, run[i], run[i + 1])
  }

  ghost predicate Good(it: Install, m: Moment) {
    Inv(m.tree) && AnnouncerInv(m.tree, it, m.announcer)
  }

  lemma StepGood(it: Install, a: Moment, b: Moment)
    requires Good(it, a) && AnnouncerStep(a.tree, b.tree, it, a.announcer, b.announcer)
    ensures Good(it, b)
    ensures b.announcer.Installed? ==> CoversAt(a.tree, it.level, it.key, b.announcer.parent)
  {
    hide GoodLinks, Disjoint, GoodLeaves, GoodImages, GoodPending, Round;
    match a.announcer
    case Begin => AnnouncedShape(a.tree, it);
    case Down(p, start) =>
      RoundInv(a.tree, b.tree, it, p, start, b.announcer);
      if a.tree != b.tree {
        var s :| TakesStep(a.tree, b.tree, s);
        StepInv(a.tree, b.tree, s);
      }
    case _ =>
  }

  lemma MovesGood(it: Install, a: Moment, b: Moment)
    requires Good(it, a) && Moves(it, a, b)
    ensures Good(it, b)
  {
    hide Inv, AnnouncerStep;
    if AnnouncerStep(a.tree, b.tree, it, a.announcer, b.announcer) {
      StepGood(it, a, b);
    } else if a.tree != b.tree {
      var s :| TakesStep(a.tree, b.tree, s);
      StepInv(a.tree, b.tree, s);
    }
  }

  lemma {:induction false} RunGood(run: seq<Moment>, it: Install, i: nat)
    requires AnnouncerRun(run, it) && i < |run|
    ensures Good(it, run[i])
  {
    hide Inv, Moves;
    if i > 0 {
      RunGood(run, it, i - 1);
      assert Moves(it, run[i - 1], run[i - 1 + 1]);
      MovesGood(it, run[i - 1], run[i]);
    }
  }

  /** Over all runs: an announcer whose descent began at a root of at least the announced level never stops at the assertion,
      one whose root was lower never installs, and what is installed is put into the node that covers the announced key. */
  lemma AnnouncementLands(run: seq<Moment>, it: Install, i: nat)
    requires AnnouncerRun(run, it) && i < |run|
    ensures Inv(run[i].tree)
    ensures run[i].announcer.Stopped? ==> it.level > run[i].announcer.start
    ensures run[i].announcer.Installed? ==> it.level <= run[i].announcer.start
    ensures 0 < i && run[i].announcer.Installed? && !run[i - 1].announcer.Installed? ==>
              CoversAt(run[i - 1].tree, it.level, it.key, run[i].announcer.parent)
  {
    hide Inv, AnnouncerStep;
    RunGood(run, it, i);
    if 0 < i && run[i].announcer.Installed? && !run[i - 1].announcer.Installed? {
      RunGood(run, it, i - 1);
      assert Moves(it, run[i - 1], run[i - 1 + 1]);
      StepGood(it, run[i - 1], run[i]);
    }
  }
}
