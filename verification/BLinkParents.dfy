/** No node is ever lost to its parent level: every node is the root, or announced, or the child of exactly one node. */
module BLinkParents {
  import opened InternalNode
  import opened BLink
  import opened BLinkSearch

  /** Node q, one level up, has p as a kid, under its lower bound. */
  predicate Parent(t: Tree, q: Addr, p: Addr)
    requires p in t.nodes
  {
    q in t.nodes && t.nodes[q].level == t.nodes[p].level + 1 && Kid(t.nodes[p].lo, p) in t.nodes[q].kids
  }

  predicate Announced(t: Tree, p: Addr)
    requires p in t.nodes
  {
    Install(t.nodes[p].level + 1, t.nodes[p].lo, p) in t.pending
  }

  ghost predicate HasParent(t: Tree, p: Addr)
    requires p in t.nodes
  {
    exists q :: Parent(t, q, p)
  }

  ghost predicate Placed(t: Tree, p: Addr)
    requires p in t.nodes
  {
    p == t.root || Announced(t, p) || HasParent(t, p)
  }

  ghost predicate NoOrphans(t: Tree) {
    forall p {:trigger Placed(t, p)} :: p in t.nodes ==> Placed(t, p)
  }

  // ---- every step keeps it ----

  /** A node that a step leaves alone stays placed if its parent keeps its kids. */
  lemma StaysPlaced(t: Tree, t': Tree, p: Addr)
    requires p in t.nodes && p in t'.nodes && t'.nodes[p].level == t.nodes[p].level && t'.nodes[p].lo == t.nodes[p].lo
    requires Placed(t, p) && t'.root == t.root && (Announced(t, p) ==> Announced(t', p) || HasParent(t', p))
    requires forall q {:trigger q in t.nodes} :: q in t.nodes && Parent(t, q, p) ==> HasParent(t', p)
    ensures Placed(t', p)
  {
    if HasParent(t, p) {
      var q :| Parent(t, q, p);
      assert q in t.nodes;
    }
  }

  lemma LeafStepPlaced(t: Tree, t': Tree, s: Step)
    requires Inv(t) && NoOrphans(t) && TakesStep(t, t', s) && (s.StepInsert? || s.StepSplitLeaf?)
    ensures NoOrphans(t')
  {
    hide Inv;
    forall p | p in t'.nodes ensures Placed(t', p) {
      if p in t.nodes {
        assert Placed(t, p);
        forall q | q in t.nodes && Parent(t, q, p) ensures HasParent(t', p) {
          assert Parent(t', q, p);
        }
        StaysPlaced(t, t', p);
      } else {
        assert Announced(t', p);
      }
    }
  }

  lemma InstallPlaced(t: Tree, t': Tree, p: Addr, it: Install)
    requires Inv(t) && NoOrphans(t) && InstallKid(t, t', p, it)
    ensures NoOrphans(t')
  {
    hide Inv, InsertKid;
    ParentFacts(t, p, it);
    forall x | x in t'.nodes ensures Placed(t', x) {
      assert Placed(t, x);
      if x == it.child { assert Parent(t', p, x); }
      forall q | q in t.nodes && Parent(t, q, x) ensures HasParent(t', x) {
        assert Parent(t', q, x);
      }
      if x != it.child && Announced(t, x) { AnnouncedStays(t, t', it, x); }
      StaysPlaced(t, t', x);
    }
  }

  /** The parent gains the announced child and keeps its kids. */
  lemma ParentFacts(t: Tree, p: Addr, it: Install)
    requires Inv(t) && it in t.pending && p in t.nodes && t.nodes[p].level == it.level
    ensures it.child in t.nodes && 1 <= it.level == t.nodes[it.child].level + 1 && t.nodes[it.child].lo == it.key
    ensures var kids := InsertKid(t.nodes[p].kids, Kid(it.key, it.child));
            Kid(it.key, it.child) in kids && forall x :: x in t.nodes[p].kids ==> x in kids
    ensures Ascending(t.nodes[p].kids)
  {
    assert GoodInstall(t, it) && Imaged(t, p) && GoodImage(t, t.nodes[p]);
    AnnouncedKeyIsNew(t, t.nodes[p], it);
    InsertKidCorrect(t.nodes[p].kids, Kid(it.key, it.child));
  }

  lemma SplitPlaced(t: Tree, t': Tree, p: Addr, q: Addr, it: Install, cut: nat)
    requires Inv(t) && NoOrphans(t) && SplitInner(t, t', p, q, it, cut)
    ensures NoOrphans(t')
  {
    hide Inv, InsertKid, SplitKids;
    ParentFacts(t, p, it);
    var kid := Kid(it.key, it.child);
    SplitKeepsKids(t.nodes[p].kids, cut, kid);
    forall x | x in t'.nodes ensures Placed(t', x) {
      if x == q {
        assert Announced(t', q);
      } else {
        assert Placed(t, x);
        if x == it.child { KidSomewhere(t, t', p, q, it, cut, kid, x); }
        forall r | r in t.nodes && Parent(t, r, x) ensures HasParent(t', x) {
          if r == p {
            KidSomewhere(t, t', p, q, it, cut, Kid(t.nodes[x].lo, x), x);
          } else {
            assert Parent(t', r, x);
          }
        }
        if x != it.child && Announced(t, x) { AnnouncedStays(t, t', it, x); }
        StaysPlaced(t, t', x);
      }
    }
  }

  /** Settling one announcement leaves all others. */
  lemma AnnouncedStays(t: Tree, t': Tree, it: Install, x: Addr)
    requires x in t.nodes && x in t'.nodes && t'.nodes[x].level == t.nodes[x].level && t'.nodes[x].lo == t.nodes[x].lo
    requires x != it.child && Announced(t, x) && t.pending - {it} <= t'.pending
    ensures Announced(t', x)
  {}

  /** Each kid is in one of the halves. */
  lemma KidSomewhere(t: Tree, t': Tree, p: Addr, q: Addr, it: Install, cut: nat, kid: Kid, x: Addr)
    requires SplitInner(t, t', p, q, it, cut) && x in t.nodes && x in t'.nodes && kid == Kid(t.nodes[x].lo, x)
    requires t'.nodes[x].lo == t.nodes[x].lo && t'.nodes[x].level == t.nodes[x].level && t.nodes[x].level + 1 == it.level
    requires kid in InsertKid(t.nodes[p].kids, Kid(it.key, it.child))
    requires SplitKids(t.nodes[p].kids, cut, Kid(it.key, it.child)).0 + SplitKids(t.nodes[p].kids, cut, Kid(it.key, it.child)).1
          == InsertKid(t.nodes[p].kids, Kid(it.key, it.child))
    ensures HasParent(t', x)
  {
    hide InsertKid, SplitKids;
    assert kid in t'.nodes[p].kids || kid in t'.nodes[q].kids;
    assert Parent(t', p, x) || Parent(t', q, x);
  }

  lemma GrowPlaced(t: Tree, t': Tree, r: Addr, it: Install)
    requires Inv(t) && NoOrphans(t) && GrowRoot(t, t', r, it)
    ensures NoOrphans(t')
  {
    assert GoodInstall(t, it);
    forall x | x in t'.nodes ensures Placed(t', x) {
      if x != r {
        assert Placed(t, x);
        if x == t.root || x == it.child {
          assert Parent(t', r, x);
        } else if HasParent(t, x) {
          var q :| Parent(t, q, x);
          assert Parent(t', q, x);
        } else {
          AnnouncedStays(t, t', it, x);
        }
      }
    }
  }

  lemma StepPlaced(t: Tree, t': Tree, s: Step)
    requires Inv(t) && NoOrphans(t) && TakesStep(t, t', s)
    ensures NoOrphans(t')
  {
    hide Inv, NoOrphans;
    match s
    case StepInstall(p, it) => InstallPlaced(t, t', p, it);
    case StepSplitInner(p, q, it, cut) => SplitPlaced(t, t', p, q, it, cut);
    case StepGrowRoot(q, it) => GrowPlaced(t, t', q, it);
    case _ => LeafStepPlaced(t, t', s);
  }

  // ---- exactly one place ----

  /** A node has at most one parent: its lower bound is in one range of the level above. */
  lemma OneParent(t: Tree, p: Addr, q: Addr, r: Addr)
    requires Inv(t) && p in t.nodes && Parent(t, q, p) && Parent(t, r, p)
    ensures q == r
  {
    KidInRange(t, q, p);
    KidInRange(t, r, p);
    assert Apart(t, q, r);
  }

  lemma KidInRange(t: Tree, q: Addr, p: Addr)
    requires Inv(t) && p in t.nodes && Parent(t, q, p)
    ensures t.nodes[q].lo <= t.nodes[p].lo < t.nodes[q].hi
  {
    assert Imaged(t, q) && GoodImage(t, t.nodes[q]);
    var i :| 0 <= i < |t.nodes[q].kids| && t.nodes[q].kids[i] == Kid(t.nodes[p].lo, p);
  }

  /** The three places exclude each other. */
  lemma OnePlace(t: Tree, p: Addr)
    requires Inv(t) && p in t.nodes
    ensures !(p == t.root && Announced(t, p)) && !(p == t.root && HasParent(t, p)) && !(Announced(t, p) && HasParent(t, p))
  {
    var it := Install(t.nodes[p].level + 1, t.nodes[p].lo, p);
    if Announced(t, p) { assert GoodInstall(t, it); }
    if HasParent(t, p) {
      var q :| Parent(t, q, p);
      assert Imaged(t, q) && t.nodes[q].level <= t.nodes[t.root].level;
      var i :| 0 <= i < |t.nodes[q].kids| && t.nodes[q].kids[i] == Kid(t.nodes[p].lo, p);
      assert Mentions(t.nodes[q], p);
    }
  }

  lemma {:induction false} ReachablePlaced(trees: seq<Tree>)
    requires Reachable(trees)
    ensures NoOrphans(trees[|trees| - 1])
  {
    hide Inv, NoOrphans;
    var n := |trees| - 1;
    if n == 0 {
      InitPlaced(trees[0]);
    } else {
      ReachablePlaced(trees[..n]);
      ReachableInv(trees[..n]);
      assert Next(trees[n - 1], trees[n - 1 + 1]);
      if trees[n - 1] != trees[n] {
        var s :| TakesStep(trees[n - 1], trees[n], s);
        StepPlaced(trees[n - 1], trees[n], s);
      }
    }
  }

  lemma InitPlaced(t: Tree)
    requires Init(t)
    ensures NoOrphans(t)
  {}

  /** In every reachable tree each node is in exactly one place: it is the root, or announced to the level above, or the kid
      of exactly one node of that level under its own lower bound. */
  lemma EveryNodePlaced(trees: seq<Tree>, p: Addr)
    requires Reachable(trees) && p in trees[|trees| - 1].nodes
    ensures var t := trees[|trees| - 1];
            && Placed(t, p)
            && !(p == t.root && Announced(t, p)) && !(p == t.root && HasParent(t, p)) && !(Announced(t, p) && HasParent(t, p))
            && forall q, r :: Parent(t, q, p) && Parent(t, r, p) ==> q == r
  {
    hide Inv;
    var t := trees[|trees| - 1];
    ReachableInv(trees);
    ReachablePlaced(trees);
    OnePlace(t, p);
    forall q, r | Parent(t, q, p) && Parent(t, r, p) ensures q == r {
      OneParent(t, p, q, r);
    }
  }
}
