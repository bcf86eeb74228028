/** Operations on the records of an internal node are the steps of the tree. */
module InternalRefinement {
  import opened InternalNode
  import opened BLink

  /** The first `count` records, after the leftmost pointer, are the kids of node p. */
  ghost predicate Represents(t: Tree, p: Addr, leftmost: Addr, records: seq<Kid>, count: nat) {
    && p in t.nodes && 1 <= t.nodes[p].level && count <= |records|
    && t.nodes[p].kids == Kids(t.nodes[p].lo, leftmost, records, count)
  }

  /** Shifting and inserting the announced child is the tree's install step. */
  lemma ShiftIsInstall(t: Tree, p: Addr, it: Install, leftmost: Addr, records: seq<Kid>, records': seq<Kid>, count: nat)
    returns (t': Tree)
    requires Represents(t, p, leftmost, records, count) && count < |records| == |records'|
    requires it in t.pending && t.nodes[p].level == it.level && t.nodes[p].lo <= it.key < t.nodes[p].hi
    requires records'[..count + 1] == InsertKid(records[..count], Kid(it.key, it.child))
    ensures TakesStep(t, t', StepInstall(p, it)) && Represents(t', p, leftmost, records', count + 1)
  {
    hide InsertKid;
    var kid := Kid(it.key, it.child);
    InsertBehind(Kid(t.nodes[p].lo, leftmost), records[..count], kid);
    var n := t.nodes[p].(kids := InsertKid(t.nodes[p].kids, kid));
    t' := t.(nodes := t.nodes[p := n], pending := t.pending - {it}, images := t.images + {n});
  }

  /** Splitting the records of a full node is the tree's split step; the middle pointer becomes the new node's leftmost one
      and the old node's expected neighbour. */
  lemma SplitIsStep(t: Tree, p: Addr, q: Addr, it: Install, leftmost: Addr, records: seq<Kid>,
                    left: seq<Kid>, leftCount: nat, right: seq<Kid>, rightCount: nat, rightLeftmost: Addr)
    returns (t': Tree)
    requires Represents(t, p, leftmost, records, |records|) && 3 <= |records| && q !in t.nodes && q != NULL
    requires it in t.pending && t.nodes[p].level == it.level && t.nodes[p].lo <= it.key < t.nodes[p].hi
    requires leftCount <= |left| && rightCount <= |right|
    requires var m := |records| / 2;
             (Kids(t.nodes[p].lo, leftmost, left, leftCount), Kids(records[m].key, rightLeftmost, right, rightCount))
               == SplitKids(Kids(t.nodes[p].lo, leftmost, records, |records|), m + 1, Kid(it.key, it.child))
    ensures TakesStep(t, t', StepSplitInner(p, q, it, |records| / 2 + 1))
    ensures Represents(t', p, leftmost, left, leftCount) && Represents(t', q, rightLeftmost, right, rightCount)
    ensures t'.nodes[q].lo == t'.nodes[p].hi == records[|records| / 2].key && t'.nodes[p].sibling == q
    ensures t'.nodes[p].nextLeftmost == records[|records| / 2].ptr
  {
    hide InsertKid, SplitKids;
    var m, n := |records| / 2, t.nodes[p];
    var kid := Kid(it.key, it.child);
    assert n.kids[m + 1] == records[m];
    var (x, y) := SplitKids(n.kids, m + 1, kid);
    var a := n.(hi := records[m].key, sibling := q, kids := x, nextLeftmost := records[m].ptr);
    var b := Node(n.level, records[m].key, n.hi, n.sibling, y, n.nextLeftmost, {});
    t' := t.(nodes := t.nodes[p := a][q := b],
             pending := t.pending - {it} + {Install(n.level + 1, records[m].key, q)},
             images := t.images + {a, b});
  }
}
