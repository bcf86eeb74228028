/** On a tree that nobody changes, readers, writers and announcers get somewhere: every step brings them closer to their
    end, there always is a next step before it, and so every walk is finite and ends with the right outcome. */
module BLinkRest {
  import opened Arith
  import opened InternalNode
  import opened BLink
  import opened BLinkSearch
  import opened BLinkCover
  import BLinkWriter
  import BLinkInstall

  /** How far a walk that is at node p may still have to go: levels down, and on each level to the right. */
  function ToGo(t: Tree, p: Addr): (n: nat)
    requires p in t.nodes
  {
    var n := t.nodes[p];
    if t.bottom <= n.lo <= t.top then Times(n.level + 1, t.top - t.bottom + 1) + (t.top - n.lo) else 0
  }

  function Times(a: nat, b: nat): (c: nat)
    ensures c == a * b
  {
    MulMono(0, a, b);
    a * b
  }

  lemma StartsInside(t: Tree, p: Addr)
    requires Inv(t) && p in t.nodes
    ensures t.bottom <= t.nodes[p].lo < t.top
  {
    assert GoodLink(t, p);
  }

  lemma RightIsCloser(t: Tree, p: Addr)
    requires Inv(t) && p in t.nodes && t.nodes[p].sibling in t.nodes
    ensures ToGo(t, t.nodes[p].sibling) < ToGo(t, p) && t.nodes[t.nodes[p].sibling].level == t.nodes[p].level
  {
    hide Times;
    NullNotANode(t);
    assert GoodLink(t, p);
    StartsInside(t, p);
    StartsInside(t, t.nodes[p].sibling);
  }

  lemma DownIsCloser(t: Tree, p: Addr, q: Addr)
    requires Inv(t) && p in t.nodes && q in t.nodes && t.nodes[q].level + 1 == t.nodes[p].level
    ensures ToGo(t, q) < ToGo(t, p)
  {
    StartsInside(t, p);
    StartsInside(t, q);
    MulAdd(t.nodes[q].level + 1, 1, t.top - t.bottom + 1);
  }

  // ---- readers ----

  /** On the way, not holding on to a cached route. */
  predicate OnTheWay(r: Reader) {
    (r.AtInner? || r.AtLeaf?) && !r.fromCache
  }

  ghost function ReaderToGo(t: Tree, k: Key, r: Reader): (n: nat)
    requires Inv(t) && ReaderInv(t, k, r)
  {
    if r.AtInner? || r.AtLeaf? then ToGo(t, r.addr) + 1 else 0
  }

  /** What a reader's memory of an absence rests on. */
  ghost predicate Honest(t: Tree, k: Key, r: Reader) {
    (r.AtLeaf? || r.Done?) && r.absent ==> !InTree(t, k)
  }

  lemma LeafCloser(t: Tree, k: Key, r: Reader, r': Reader)
    requires Inv(t) && t.bottom <= k < t.top && ReaderInv(t, k, r) && r.AtLeaf? && OnTheWay(r) && ReaderStep(t, k, r, r')
    ensures ReaderInv(t, k, r') && (r'.Done? || OnTheWay(r')) && ReaderToGo(t, k, r') < ReaderToGo(t, k, r)
  {
    hide Inv;
    ReaderStepInv(t, k, r, r');
    if r'.AtLeaf? { RightIsCloser(t, r.addr); }
  }

  lemma InnerCloser(t: Tree, k: Key, r: Reader, r': Reader)
    requires Inv(t) && t.bottom <= k < t.top && ReaderInv(t, k, r) && r.AtInner? && OnTheWay(r) && ReaderStep(t, k, r, r')
    ensures ReaderInv(t, k, r') && (r'.Done? || OnTheWay(r')) && ReaderToGo(t, k, r') < ReaderToGo(t, k, r)
  {
    hide Inv;
    ReaderStepInv(t, k, r, r');
    var n := t.nodes[r.addr];
    if k >= n.hi {
      RightIsCloser(t, r.addr);
    } else {
      ImageOf(t, r.addr);
      RouteSound(t, n, k);
      DownIsCloser(t, r.addr, r'.addr);
    }
  }

  /** Every step of a reader brings it closer, and keeps it on its way until it is done. */
  lemma ReaderCloser(t: Tree, k: Key, r: Reader, r': Reader)
    requires Inv(t) && t.bottom <= k < t.top && ReaderInv(t, k, r) && OnTheWay(r) && ReaderStep(t, k, r, r')
    requires Honest(t, k, r)
    ensures ReaderInv(t, k, r') && (r'.Done? || OnTheWay(r')) && Honest(t, k, r')
    ensures ReaderToGo(t, k, r') < ReaderToGo(t, k, r)
  {
    hide Inv, ReaderInv;
    if r.AtLeaf? { LeafCloser(t, k, r, r'); } else { InnerCloser(t, k, r, r'); }
  }

  /** A reader that is not done has a next step. */
  lemma ReaderGoesOn(t: Tree, k: Key, r: Reader) returns (r': Reader)
    requires Inv(t) && t.bottom <= k < t.top && ReaderInv(t, k, r) && OnTheWay(r)
    ensures ReaderStep(t, k, r, r')
  {
    hide Inv;
    var n := t.nodes[r.addr];
    match r
    case AtInner(p, c) =>
      if k >= n.hi {
        r' := AtInner(n.sibling, false);
      } else {
        ImageOf(t, p);
        RouteSound(t, n, k);
        var (child, next) := Route(n.kids, n.nextLeftmost, k);
        r' := if n.level == 1 then AtLeaf(child, next, false, false) else AtInner(child, false);
      }
    case AtLeaf(p, e, c, a) =>
      var absent := a || !InTree(t, k);
      r' := if k in n.keys then Done(true, a)
            else if n.sibling == e then Done(false, absent)
            else AtLeaf(n.sibling, e, false, absent);
  }

  /** Any sequence of reads by one reader of the tree at rest. */
  ghost predicate Reading(t: Tree, k: Key, rs: seq<Reader>) {
    rs != [] && forall i :: 0 <= i < |rs| - 1 ==> ReaderStep(t, k, rs[i], rs[i + 1])
  }

  lemma {:induction false} ReadingBound(t: Tree, k: Key, rs: seq<Reader>, i: nat)
    requires Inv(t) && t.bottom <= k < t.top && Reading(t, k, rs) && FromRoot(t, rs[0]) && i < |rs|
    ensures ReaderInv(t, k, rs[i]) && (rs[i].Done? || OnTheWay(rs[i])) && Honest(t, k, rs[i])
    ensures ReaderInv(t, k, rs[0]) && i + ReaderToGo(t, k, rs[i]) <= ReaderToGo(t, k, rs[0])
  {
    hide Inv, ReaderInv, ReaderStep, ReaderToGo;
    RootReader(t, k, rs[0]);
    if i > 0 {
      ReadingBound(t, k, rs, i - 1);
      assert ReaderStep(t, k, rs[i - 1], rs[i - 1 + 1]);
      NotDoneYet(t, k, rs[i - 1], rs[i]);
      ReaderCloser(t, k, rs[i - 1], rs[i]);
    }
  }

  lemma NotDoneYet(t: Tree, k: Key, r: Reader, r': Reader)
    requires ReaderStep(t, k, r, r')
    ensures !r.Done?
  {}

  lemma RootReader(t: Tree, k: Key, r: Reader)
    requires Inv(t) && t.bottom <= k < t.top && FromRoot(t, r)
    ensures ReaderInv(t, k, r) && OnTheWay(r) && Honest(t, k, r)
  {
    hide Inv;
    ReaderStepInv(t, k, Start, r);
  }

  /** Every search of a tree at rest from its root takes at most so many reads, goes on until it is done, and then has the
      right answer. */
  lemma SearchEnds(t: Tree, k: Key, rs: seq<Reader>)
    requires Inv(t) && t.bottom <= k < t.top && Reading(t, k, rs) && FromRoot(t, rs[0])
    ensures ReaderInv(t, k, rs[0]) && |rs| - 1 <= ReaderToGo(t, k, rs[0])
    ensures var last := rs[|rs| - 1];
            if last.Done? then last.found <==> InTree(t, k) else exists r :: ReaderStep(t, k, last, r)
  {
    hide Inv, ReaderStep, ReaderToGo;
    ReadingBound(t, k, rs, |rs| - 1);
    var last := rs[|rs| - 1];
    if !last.Done? {
      var r := ReaderGoesOn(t, k, last);
    }
  }

  // ---- writers ----

  /** A writer on its way either writes now, or moves closer with the tree unchanged. */
  lemma WriterCloser(t: Tree, t': Tree, k: Key, w: BLinkWriter.Writer, w': BLinkWriter.Writer)
    requires Inv(t) && t.bottom <= k < t.top && BLinkWriter.WriterInv(t, k, w) && w.Descending? && OnTheWay(w.at)
    requires BLinkWriter.WriterStep(t, t', k, w, w')
    ensures if w'.Written? then InTree(t', k)
            else && t' == t && BLinkWriter.WriterInv(t, k, w') && OnTheWay(w'.at)
                 && ReaderToGo(t, k, w'.at) < ReaderToGo(t, k, w.at)
  {
    hide Inv;
    BLinkWriter.WriterStepInv(t, t', k, w, w');
    if w'.Descending? {
      if w.at.AtInner? {
        InnerCloser(t, k, w.at, w'.at);
      } else {
        RightIsCloser(t, w.at.addr);
      }
    }
  }

  /** A writer that has not written yet has a next step. */
  lemma WriterGoesOn(t: Tree, k: Key, w: BLinkWriter.Writer) returns (t': Tree, w': BLinkWriter.Writer)
    requires Inv(t) && t.bottom <= k < t.top && BLinkWriter.WriterInv(t, k, w) && w.Descending? && OnTheWay(w.at)
    ensures BLinkWriter.WriterStep(t, t', k, w, w')
  {
    hide Inv;
    if w.at.AtInner? {
      var r := ReaderGoesOn(t, k, w.at);
      t', w' := t, BLinkWriter.Descending(r);
      InnerCloser(t, k, w.at, r);
    } else {
      var p, n := w.at.addr, t.nodes[w.at.addr];
      LargestKey(t, p);
      var maxKey := n.hi - 1;
      assert BLinkWriter.PartialRead(n, {}, maxKey);
      if n.sibling != w.at.expected && TurnsRight({}, maxKey, k) {
        t', w' := t, BLinkWriter.Descending(AtLeaf(n.sibling, NULL, false, false));
      } else {
        t', w' := t.(nodes := t.nodes[p := n.(keys := n.keys + {k})]), BLinkWriter.Written(p);
        assert BLinkWriter.Stores(t, t', p, k);
      }
      assert BLinkWriter.LeafWrite(t, t', k, p, w.at.expected, w.at.fromCache, {}, maxKey, w');
    }
  }

  lemma LargestKey(t: Tree, p: Addr)
    requires Inv(t) && p in t.nodes && t.nodes[p].level == 0
    ensures 1 <= t.nodes[p].hi && t.nodes[p].hi - 1 in t.nodes[p].keys && forall x :: x in t.nodes[p].keys ==> x <= t.nodes[p].hi - 1
  {
    assert GoodKeys(t.nodes[p]);
  }

  // ---- announcers ----

  /** An announcer on its way installs or stops now, or moves closer with the tree unchanged. */
  lemma AnnouncerCloser(t: Tree, t': Tree, it: Install, p: Addr, start: nat, w: BLinkInstall.Announcer)
    requires Inv(t) && BLinkInstall.AnnouncerInv(t, it, BLinkInstall.Down(p, start))
    requires BLinkInstall.AnnouncerStep(t, t', it, BLinkInstall.Down(p, start), w)
    ensures w.Down? ==> t' == t && w.addr in t.nodes && ToGo(t, w.addr) < ToGo(t, p)
    ensures w.Down? || w.Stopped? || w.Installed?
  {
    hide Inv;
    BLinkInstall.RoundInv(t, t', it, p, start, w);
    if w.Down? {
      AnnouncedShape(t, it);
      var n := t.nodes[p];
      if it.key >= n.hi {
        BLinkInstall.SiblingThere(t, p);
        RightIsCloser(t, p);
      } else {
        ImageOf(t, p);
        RouteSound(t, n, it.key);
        DownIsCloser(t, p, w.addr);
      }
    }
  }

  /** An announcer on its way has a next step. */
  lemma AnnouncerGoesOn(t: Tree, it: Install, p: Addr, start: nat) returns (t': Tree, w: BLinkInstall.Announcer)
    requires Inv(t) && BLinkInstall.AnnouncerInv(t, it, BLinkInstall.Down(p, start))
    ensures BLinkInstall.AnnouncerStep(t, t', it, BLinkInstall.Down(p, start), w)
  {
    hide Inv;
    var n := t.nodes[p];
    t' := t;
    if n.level == 0 {
      w := BLinkInstall.Stopped(start);
    } else if it.key >= n.hi {
      w := BLinkInstall.Down(n.sibling, start);
    } else if n.level == it.level {
      var m := n.(kids := InsertKid(n.kids, Kid(it.key, it.child)));
      t' := t.(nodes := t.nodes[p := m], pending := t.pending - {it}, images := t.images + {m});
      w := BLinkInstall.Installed(p, start);
      assert BLinkInstall.PutsKid(t, t', p, it);
    } else {
      ImageOf(t, p);
      RouteSound(t, n, it.key);
      w := BLinkInstall.Down(Route(n.kids, n.nextLeftmost, it.key).0, start);
    }
  }

  // ---- what an internal node expects next ----

  /** `sibling_leftmost_ptr` is the leftmost child of the next node. */
  lemma NextLeftmostIs(t: Tree, p: Addr)
    requires Inv(t) && p in t.nodes && 1 <= t.nodes[p].level
    ensures t.nodes[p].sibling == NULL <==> t.nodes[p].nextLeftmost == NULL
    ensures t.nodes[p].sibling != NULL ==>
              && t.nodes[p].sibling in t.nodes && t.nodes[t.nodes[p].sibling].kids != []
              && t.nodes[p].nextLeftmost == t.nodes[t.nodes[p].sibling].kids[0].ptr
  {
    var n := t.nodes[p];
    assert GoodLink(t, p) && Imaged(t, p) && GoodImage(t, n);
    assert n.nextLeftmost in t.nodes ==> GoodLink(t, n.nextLeftmost);
    if n.sibling != NULL {
      var q := n.sibling;
      assert GoodLink(t, q) && Imaged(t, q) && GoodImage(t, t.nodes[q]);
      assert Points(t, t.nodes[q].kids[0].ptr, n.level - 1, n.hi);
      if n.nextLeftmost != NULL {
        SameStart(t, n.nextLeftmost, t.nodes[q].kids[0].ptr, n.level - 1, n.hi);
      }
    }
  }
}
