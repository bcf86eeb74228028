/** Lock-free point reads.  A reader sees, slot by slot, the leaf before or after a concurrent insert; comparing the
    bitmap it recomputes with the stored one catches every read in which a hopping key slipped past it. */
module HopRead {
  import opened HopChain
  import opened HopTable
  import opened HopInsert

  /** The keys that hash to c, at the slots where they are; 0 elsewhere. */
  ghost function View(g: Geometry, t: seq<Entry>, hole: nat, c: nat): (s: seq<Key>)
    ensures |s| == |t|
  {
    seq(|t|, (i: nat) requires i < |t| => if HomedAt(g, t, hole, c, i) then t[i].key else 0)
  }

  /** w is u, or u with one key moved to a free slot. */
  ghost predicate OneMove(u: seq<Key>, w: seq<Key>) {
    u == w || exists h, j :: Moved(u, w, h, j)
  }

  ghost predicate Moved(u: seq<Key>, w: seq<Key>, h: nat, j: nat) {
    h < |u| && j < |u| && h != j && u[h] != 0 && u[j] == 0 && w == u[h := 0][j := u[h]]
  }

  lemma ViewOfHop(g: Geometry, t: seq<Entry>, x: nat, y: nat, c: nat)
    requires g.Ok() && |t| == g.slots && x < |t| && y < |t| && c < |t| && Used(t, x, y)
    ensures c != g.home(t[y].key) ==> View(g, HopStep(g, t, x, y), y, c) == View(g, t, x, c)
    ensures c == g.home(t[y].key) ==> Moved(View(g, t, x, c), View(g, HopStep(g, t, x, y), y, c), y, x)
  {
    var r := HopStep(g, t, x, y);
    assert forall i :: 0 <= i < |t| && i != x ==> r[i].key == t[i].key;
    var u, w := View(g, t, x, c), View(g, r, y, c);
    if c == g.home(t[y].key) {
      assert w == u[y := 0][x := u[y]];
    } else {
      assert w == u;
    }
  }

  lemma ViewOfPlace(g: Geometry, t: seq<Entry>, x: nat, k: Key, v: Value, c: nat)
    requires g.Ok() && |t| == g.slots && x < |t| && c < |t| && k != 0
    ensures var u, w := View(g, t, x, c), View(g, Place(g, t, x, k, v), g.slots, c);
            u[x] == 0 && w == if c == g.home(k) then u[x := k] else u
  {
    var r := Place(g, t, x, k, v);
    assert forall i :: 0 <= i < |t| && i != x ==> r[i].key == t[i].key;
  }

  /** Offset from b of the home of the next key to hop. */
  ghost function NextHome(g: Geometry, t: seq<Entry>, b: nat, p: nat): (o: nat)
    requires Hopping(g, t, b, p) && g.span <= p && Mover(g, t, b, p) < p
    ensures p - g.span < o < g.slots
    ensures g.home(t[Slot(g, b, Mover(g, t, b, p))].key) == Slot(g, b, o)
  {
    var q := Mover(g, t, b, p);
    HomeOffset(g, t, b, p, q);
    q - Displacement(g, t, b, q)
  }

  /** Successively hopped homes strictly decrease. */
  lemma NextHomeDecreases(g: Geometry, t: seq<Entry>, b: nat, p: nat)
    requires Hopping(g, t, b, p) && g.span <= p && Mover(g, t, b, p) < p
    ensures var q := Mover(g, t, b, p);
            var r := HopStep(g, t, Slot(g, b, p), Slot(g, b, q));
            && Hopping(g, r, b, q)
            && (g.span <= q && Mover(g, r, b, q) < q ==> NextHome(g, r, b, q) < NextHome(g, t, b, p))
  {
    hide Inv, HopStep, Slot;
    HopOne(g, t, b, p);
    var q := Mover(g, t, b, p);
    var r := HopStep(g, t, Slot(g, b, p), Slot(g, b, q));
    if g.span <= q && Mover(g, r, b, q) < q {
      MoversDecrease(g, t, r, b, p);
    }
  }

  /** The same on displacements, of which the second leaf has those before the new hole. */
  lemma MoversDecrease(g: Geometry, t: seq<Entry>, r: seq<Entry>, b: nat, p: nat)
    requires g.Ok() && |t| == |r| == g.slots && b < g.slots && g.span <= p < g.slots && g.span <= Mover(g, t, b, p) < p
    requires var q := Mover(g, t, b, p);
             Displacements(g, r, b, q) == Displacements(g, t, b, p)[..q] && Mover(g, r, b, q) < q
    ensures var q := Mover(g, t, b, p);
            var q' := Mover(g, r, b, q);
            q' - Displacement(g, r, b, q') < q - Displacement(g, t, b, q)
  {
    hide Displacements, Displacement;
    var q := Mover(g, t, b, p);
    var disp := Displacements(g, t, b, p);
    HomesDecrease(disp, g.span, p);
    assert disp[..q][..q] == disp[..q];
    ReachesPrefix(Displacements(g, r, b, q), disp, g.span, q);
    DisplacementAt(g, t, b, p, q);
    DisplacementAt(g, r, b, q, Mover(g, r, b, q));
  }

  /** A home beyond the next one to be hopped is not touched by the rest of the chain. */
  lemma {:induction false} HomeUntouched(g: Geometry, t: seq<Entry>, b: nat, p: nat, c: nat)
    requires Hopping(g, t, b, p) && CanReach(g, t, b, p) && c < g.slots
    requires g.span <= p ==> Dist(g.slots, b, c) > NextHome(g, t, b, p)
    ensures var r := HopAll(g, t, b, p); View(g, r.0, Slot(g, b, r.1), c) == View(g, t, Slot(g, b, p), c)
    decreases p
  {
    if g.span <= p {
      HopOne(g, t, b, p);
      NextHomeDecreases(g, t, b, p);
      var q := Mover(g, t, b, p);
      ViewOfHop(g, t, Slot(g, b, p), Slot(g, b, q), c);
      HomeUntouched(g, HopStep(g, t, Slot(g, b, p), Slot(g, b, q)), b, q, c);
    }
  }

  /** No home has more than one of its keys moved by an insert, and b itself has none. */
  lemma {:induction false} OneMovePerHome(g: Geometry, t: seq<Entry>, b: nat, p: nat, c: nat)
    requires Hopping(g, t, b, p) && CanReach(g, t, b, p) && c < g.slots
    ensures var r := HopAll(g, t, b, p);
            var u, w := View(g, t, Slot(g, b, p), c), View(g, r.0, Slot(g, b, r.1), c);
            OneMove(u, w) && (c == b ==> u == w)
    decreases p
  {
    if g.span <= p {
      HopOne(g, t, b, p);
      var q := Mover(g, t, b, p);
      var x, y := Slot(g, b, p), Slot(g, b, q);
      ViewOfHop(g, t, x, y, c);
      var o := NextHome(g, t, b, p);
      if c == Slot(g, b, o) {
        NextHomeDecreases(g, t, b, p);
        HomeUntouched(g, HopStep(g, t, x, y), b, q, c);
      } else {
        OneMovePerHome(g, HopStep(g, t, x, y), b, q, c);
      }
    }
  }

  lemma ViewOfEmpty(g: Geometry, t: seq<Entry>, x: nat, c: nat)
    requires |t| == g.slots && x < |t| && t[x].key == 0
    ensures View(g, t, x, c) == View(g, t, g.slots, c)
  {
    assert forall i :: 0 <= i < |t| ==> HomedAt(g, t, x, c, i) == HomedAt(g, t, g.slots, c, i);
  }

  /** What an insert of k does to the keys of one home: at most one of them moves, and k's home only gains k. */
  lemma InsertedView(g: Geometry, t: seq<Entry>, k: Key, v: Value, c: nat)
    requires Valid(g, t) && CanInsert(g, t, k) && k != 0 && c < g.slots
    ensures var u, w := View(g, t, g.slots, c), View(g, Inserted(g, t, k, v), g.slots, c);
            if c == g.home(k) then exists x: nat :: x < |u| && u[x] == 0 && w == u[x := k] else OneMove(u, w)
  {
    hide Inv;
    StartHopping(g, t, k);
    var b := g.home(k);
    var e := FirstEmpty(g, t, b, 0, g.slots);
    ViewOfEmpty(g, t, Slot(g, b, e), c);
    OneMovePerHome(g, t, b, e, c);
    var (u, p) := HopAll(g, t, b, e);
    ViewOfPlace(g, u, Slot(g, b, p), k, v, c);
  }

  /** A read that took every entry from one of two leaf images. */
  ghost predicate Mix(m: seq<Entry>, t: seq<Entry>, t': seq<Entry>) {
    |m| == |t| == |t'| && forall i :: 0 <= i < |m| ==> m[i] == t[i] || m[i] == t'[i]
  }

  predicate InNeighbourhood(g: Geometry, t: seq<Entry>, k: Key)
    requires |t| == g.slots && g.home(k) < g.slots && g.span <= g.slots
  {
    exists d :: 0 <= d < g.span && t[Slot(g, g.home(k), d)].key == k
  }

  /** A valid leaf holds a key exactly where a reader looks for it. */
  lemma StoredInNeighbourhood(g: Geometry, t: seq<Entry>, r: Key, i: nat)
    requires Valid(g, t) && r != 0 && i < |t| && t[i].key == r
    ensures Dist(g.slots, g.home(r), i) < g.span && i == Slot(g, g.home(r), Dist(g.slots, g.home(r), i))
  {
    assert Used(t, g.slots, i) && InReach(g, t, i);
  }

  lemma BitInView(g: Geometry, t: seq<Entry>, c: nat, i: nat)
    requires |t| == g.slots && c < g.slots && i < g.slots && g.span <= g.slots
    ensures Dist(g.slots, c, i) in HomeBits(g, t, g.slots, c) <==>
              Dist(g.slots, c, i) < g.span && View(g, t, g.slots, c)[i] != 0
  {
    assert HopBit(g, t, g.slots, c, Dist(g.slots, c, i)) == HomedAt(g, t, g.slots, c, i);
  }

  /** The reader's check on two views: a key in both that the mix misses leaves a bit set that the mix cannot explain. */
  lemma MissedMove(u: seq<Key>, w: seq<Key>, m: seq<Key>, i: nat) returns (j: nat)
    requires OneMove(u, w) && |m| == |u| == |w| && i < |u| && u[i] != 0
    requires forall l :: 0 <= l < |m| ==> m[l] == u[l] || m[l] == w[l]
    requires forall l :: 0 <= l < |m| ==> m[l] != u[i]
    ensures j < |u| && w[j] == u[i] && m[i] == 0 && m[j] == 0
  {
    var h, j' :| Moved(u, w, h, j');
    j := j';
  }

  lemma FoundSomewhere(g: Geometry, t: seq<Entry>, t': seq<Entry>, m: seq<Entry>, r: Key, l: nat)
    requires Valid(g, t) && Valid(g, t') && Mix(m, t, t') && r != 0 && l < |m| && m[l].key == r
    ensures InNeighbourhood(g, m, r)
  {
    StoredInNeighbourhood(g, if m[l] == t[l] then t else t', r, l);
  }

  lemma ViewOfMix(g: Geometry, t: seq<Entry>, t': seq<Entry>, m: seq<Entry>, r: Key)
    requires Valid(g, t) && Valid(g, t') && Mix(m, t, t') && r != 0 && !InNeighbourhood(g, m, r)
    ensures var u, w, n := View(g, t, g.slots, g.home(r)), View(g, t', g.slots, g.home(r)), View(g, m, g.slots, g.home(r));
            forall l :: 0 <= l < |n| ==> (n[l] == u[l] || n[l] == w[l]) && n[l] != r
  {
    hide Inv, InNeighbourhood;
    forall l | 0 <= l < |m| ensures m[l].key != r {
      if m[l].key == r { FoundSomewhere(g, t, t', m, r, l); }
    }
  }

  lemma MissedMoveCaught(g: Geometry, t: seq<Entry>, t': seq<Entry>, m: seq<Entry>, r: Key, i: nat)
    requires Valid(g, t) && Valid(g, t') && Mix(m, t, t') && i < |t| && t[i].key == r != 0
    requires OneMove(View(g, t, g.slots, g.home(r)), View(g, t', g.slots, g.home(r)))
    requires !InNeighbourhood(g, m, r)
    ensures m[g.home(r)].bits != HomeBits(g, m, g.slots, g.home(r))
  {
    hide Inv, InNeighbourhood, HomeBits;
    ValidShape(g, t);
    var c := g.home(r);
    var u, w, n := View(g, t, g.slots, c), View(g, t', g.slots, c), View(g, m, g.slots, c);
    ViewOfMix(g, t, t', m, r);
    ValidBits(g, t, c);
    ValidBits(g, t', c);
    StoredInNeighbourhood(g, t, r, i);
    var j := MissedMove(u, w, n, i);
    StoredInNeighbourhood(g, t', r, j);
    BitInView(g, t, c, i);
    BitInView(g, t', c, j);
    BitInView(g, m, c, i);
    BitInView(g, m, c, j);
  }

  /** No key is missed under a concurrent insert: if r is in the leaf and the mix shows it nowhere in its
      neighbourhood, the stored bitmap of r's home differs from the recomputed one and the reader retries. */
  lemma NoMissedKey(g: Geometry, t: seq<Entry>, k: Key, v: Value, m: seq<Entry>, r: Key)
    requires Valid(g, t) && CanInsert(g, t, k) && k != 0 && Absent(t, k)
    requires Mix(m, t, Inserted(g, t, k, v))
    requires r != 0 && !Absent(t, r) && !InNeighbourhood(g, m, r)
    ensures m[g.home(r)].bits != HomeBits(g, m, g.slots, g.home(r))
  {
    hide Inv, InNeighbourhood, HomeBits, Inserted, CanInsert;
    ValidShape(g, t);
    var c, t' := g.home(r), Inserted(g, t, k, v);
    InsertedCorrect(g, t, k, v);
    var i :| 0 <= i < |t| && t[i].key == r;
    assert View(g, t, g.slots, c)[i] == r;
    InsertedView(g, t, k, v, c);
    if c == g.home(k) {
      ViewOfMix(g, t, t', m, r);
    } else {
      MissedMoveCaught(g, t, t', m, r, i);
    }
  }

  /** Slots d after home c, seen alike in two tables. */
  ghost predicate SameNear(g: Geometry, a: seq<Entry>, b: seq<Entry>, c: nat) {
    && |a| == |b| == g.slots && c < g.slots && g.span <= g.slots
    && forall d :: 0 <= d < g.span ==> a[Slot(g, c, d)] == b[Slot(g, c, d)]
  }

  /** A reader only looks at the neighbourhood of its key. */
  lemma OnlyNear(g: Geometry, a: seq<Entry>, b: seq<Entry>, r: Key)
    requires g.Ok() && SameNear(g, a, b, g.home(r))
    ensures InNeighbourhood(g, a, r) <==> InNeighbourhood(g, b, r)
    ensures HomeBits(g, a, g.slots, g.home(r)) == HomeBits(g, b, g.slots, g.home(r))
    ensures a[g.home(r)] == b[g.home(r)]
  {
    var c := g.home(r);
    assert Slot(g, c, 0) == c;
    forall d | 0 <= d < g.span ensures HopBit(g, a, g.slots, c, d) == HopBit(g, b, g.slots, c, d) {
      assert a[Slot(g, c, d)] == b[Slot(g, c, d)];
    }
  }

  /** The slots within `span` after c come from one of two leaf images; the reader has not read the others. */
  ghost predicate MixNear(g: Geometry, m: seq<Entry>, t: seq<Entry>, t': seq<Entry>, c: nat) {
    && |m| == |t| == |t'| == g.slots && c < g.slots && g.span <= g.slots
    && forall d :: 0 <= d < g.span ==> m[Slot(g, c, d)] == t[Slot(g, c, d)] || m[Slot(g, c, d)] == t'[Slot(g, c, d)]
  }

  /** The mix of the whole leaf that shows what the reader has read. */
  function Padded(g: Geometry, m: seq<Entry>, t: seq<Entry>, c: nat): (w: seq<Entry>)
    requires |m| == |t| == g.slots && c < g.slots
    ensures |w| == g.slots
  {
    seq(g.slots, (i: nat) requires i < g.slots => if Dist(g.slots, c, i) < g.span then m[i] else t[i])
  }

  lemma PaddedMix(g: Geometry, m: seq<Entry>, t: seq<Entry>, t': seq<Entry>, c: nat)
    requires MixNear(g, m, t, t', c)
    ensures Mix(Padded(g, m, t, c), t, t') && SameNear(g, m, Padded(g, m, t, c), c)
  {
    var w := Padded(g, m, t, c);
    forall i | 0 <= i < |w| ensures w[i] == t[i] || w[i] == t'[i] {
      assert i == Slot(g, c, Dist(g.slots, c, i));
    }
  }

  /** What a reader may conclude from having read a neighbourhood around one insert of (k, v). */
  lemma NearSearchSound(g: Geometry, t: seq<Entry>, k: Key, v: Value, m: seq<Entry>, r: Key)
    requires Valid(g, t) && CanInsert(g, t, k) && k != 0 && Absent(t, k) && r != 0
    requires g.Ok() && MixNear(g, m, t, Inserted(g, t, k, v), g.home(r))
    ensures forall d :: 0 <= d < g.span && m[Slot(g, g.home(r), d)].key == r ==>
              (r, m[Slot(g, g.home(r), d)].value) in Contents(t, g.slots) + {(k, v)}
    ensures !InNeighbourhood(g, m, r) && m[g.home(r)].bits == HomeBits(g, m, g.slots, g.home(r)) ==> Absent(t, r)
  {
    hide Inv, InNeighbourhood, HomeBits, Inserted, CanInsert, Contents, Absent;
    var c := g.home(r);
    var w := Padded(g, m, t, c);
    PaddedMix(g, m, t, Inserted(g, t, k, v), c);
    OnlyNear(g, m, w, r);
    SearchSound(g, t, k, v, w, r);
    forall d | 0 <= d < g.span && m[Slot(g, c, d)].key == r
      ensures (r, m[Slot(g, c, d)].value) in Contents(t, g.slots) + {(k, v)}
    {
      assert w[Slot(g, c, d)] == m[Slot(g, c, d)];
    }
  }

  datatype ReadResult = Found(value: Value) | NotFound | Retry

  /** The scan of `leaf_node_search` over the neighbourhood it has read. */
  method SearchNeighbourhood(g: Geometry, records: seq<Entry>, r: Key) returns (res: ReadResult)
    requires g.Ok() && |records| == g.slots && r != 0
    ensures res.Found? <==> InNeighbourhood(g, records, r)
    ensures res.Found? ==> exists i :: 0 <= i < |records| && records[i].key == r && records[i].value == res.value
    ensures res.Retry? <==> !InNeighbourhood(g, records, r) && records[g.home(r)].bits != HomeBits(g, records, g.slots, g.home(r))
  {
    var c := g.home(r);
    var bitmap: set<nat> := {};
    for d := 0 to g.span
      invariant bitmap == set z | 0 <= z < d && HopBit(g, records, g.slots, c, z)
      invariant forall z :: 0 <= z < d ==> records[Slot(g, c, z)].key != r
    {
      var e := records[Slot(g, c, d)];
      if e.key != 0 && g.home(e.key) == c {
        bitmap := bitmap + {d};
        if e.key == r {
          return Found(e.value);
        }
      }
    }
    res := if bitmap != records[c].bits then Retry else NotFound;
  }

  /** What a reader may conclude from a read that overlapped one insert of (k, v): a value it returns was stored, and
      when it reports absence the key was absent before the insert. */
  lemma SearchSound(g: Geometry, t: seq<Entry>, k: Key, v: Value, m: seq<Entry>, r: Key)
    requires Valid(g, t) && CanInsert(g, t, k) && k != 0 && Absent(t, k) && r != 0
    requires Mix(m, t, Inserted(g, t, k, v))
    ensures forall i :: 0 <= i < |m| && m[i].key == r ==> (r, m[i].value) in Contents(t, g.slots) + {(k, v)}
    ensures !InNeighbourhood(g, m, r) && m[g.home(r)].bits == HomeBits(g, m, g.slots, g.home(r)) ==> Absent(t, r)
  {
    hide Inv, InNeighbourhood, HomeBits, Inserted, CanInsert;
    ValidShape(g, t);
    if !InNeighbourhood(g, m, r) && !Absent(t, r) {
      NoMissedKey(g, t, k, v, m, r);
    }
    InsertedCorrect(g, t, k, v);
    forall i | 0 <= i < |m| && m[i].key == r ensures (r, m[i].value) in Contents(t, g.slots) + {(k, v)} {
      if m[i] == t[i] {
        ContentsKeys(t, g.slots, i);
      } else {
        ContentsKeys(Inserted(g, t, k, v), g.slots, i);
      }
    }
  }
}
