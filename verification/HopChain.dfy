/** The hop chain of a hopscotch leaf, seen from the home of the key being inserted.

    Slots are numbered from that home, so slot q is `hash_idx + q` in the source and no index wraps.
    `disp[q]` is how far the key in slot q sits from its own home.  A hole at slot p may be filled from
    slot q when the two are less than `span` apart and p still lies in the neighbourhood of q's key. */
module HopChain {

  /** The first slot at or after `from` whose key may move into a hole at p, or p when there is none. */
  function FirstMover(disp: seq<nat>, span: nat, p: nat, from: nat): (q: nat)
    requires from <= p <= |disp|
    ensures from <= q <= p
    ensures q < p ==> q - disp[q] + span > p
    ensures forall s :: from <= s < q ==> s - disp[s] + span <= p
    decreases p - from
  {
    if from == p then p
    else if from - disp[from] + span > p then from
    else FirstMover(disp, span, p, from + 1)
  }

  /** The greedy choice: the source tries the largest offset, `span - 1`, first. */
  function NextHop(disp: seq<nat>, span: nat, p: nat): (q: nat)
    requires 1 <= span <= p <= |disp|
    ensures p - span < q <= p
    ensures q < p ==> q - disp[q] + span > p
    ensures forall s :: p - span < s < q ==> s - disp[s] + span <= p
  {
    FirstMover(disp, span, p, p - span + 1)
  }

  /** A hole at p can be hopped into the neighbourhood of slot 0. */
  predicate Reaches(disp: seq<nat>, span: nat, p: nat)
    requires 1 <= span && p <= |disp|
    decreases p
  {
    p < span || (var q := NextHop(disp, span, p); q < p && Reaches(disp, span, q))
  }

  /** Being able to hop a hole home is downward monotone in the position of the hole. */
  lemma {:induction false} ReachesDown(disp: seq<nat>, span: nat, p: nat, c: nat)
    requires 1 <= span && p <= c <= |disp|
    requires Reaches(disp, span, c)
    ensures Reaches(disp, span, p)
    decreases c
  {
    if span <= p < c {
      var q := NextHop(disp, span, c);
      if p <= q {
        ReachesDown(disp, span, p, q);
      } else {
        ReachesDown(disp, span, NextHop(disp, span, p), q);
      }
    }
  }

  /** Two successive hops move keys whose homes strictly decrease, so no home is hopped twice. */
  lemma HomesDecrease(disp: seq<nat>, span: nat, p: nat)
    requires 1 <= span <= p <= |disp|
    requires span <= NextHop(disp, span, p) < p
    ensures var q := NextHop(disp, span, p);
            var r := NextHop(disp, span, q);
            r < q ==> r - disp[r] <= p - span < q - disp[q]
  {
    var q := NextHop(disp, span, p);
    var r := NextHop(disp, span, q);
    if r < q && r > p - span {
      assert r - disp[r] + span <= p;
    }
  }

  /** The chain only looks at slots before the hole. */
  lemma {:induction false} MoverPrefix(a: seq<nat>, b: seq<nat>, span: nat, p: nat, from: nat)
    requires from <= p <= |a| && p <= |b| && a[..p] == b[..p]
    ensures FirstMover(a, span, p, from) == FirstMover(b, span, p, from)
    decreases p - from
  {
    if from < p {
      assert a[from] == a[..p][from] == b[from];
      MoverPrefix(a, b, span, p, from + 1);
    }
  }

  lemma {:induction false} ReachesPrefix(a: seq<nat>, b: seq<nat>, span: nat, p: nat)
    requires 1 <= span && p <= |a| && p <= |b| && a[..p] == b[..p]
    ensures span <= p ==> NextHop(a, span, p) == NextHop(b, span, p)
    ensures Reaches(a, span, p) <==> Reaches(b, span, p)
    decreases p
  {
    if span <= p {
      MoverPrefix(a, b, span, p, p - span + 1);
      var q := NextHop(a, span, p);
      if q < p {
        assert a[..q] == a[..p][..q] == b[..q];
        ReachesPrefix(a, b, span, q);
      }
    }
  }
}
