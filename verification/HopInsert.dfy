/** Hopscotch insertion: the greedy hop chain on a whole leaf, and the in-place method that runs it on the
    part of the leaf that was read. */
module HopInsert {
  import opened Arith
  import opened HopChain
  import opened HopTable

  /** An insert whose hole is p slots after b, all slots in between being taken. */
  ghost predicate Hopping(g: Geometry, t: seq<Entry>, b: nat, p: nat) {
    && g.Ok() && |t| == g.slots && b < g.slots && p < g.slots
    && Inv(g, t, Slot(g, b, p))
    && forall q :: 0 <= q < p ==> t[Slot(g, b, q)].key != 0
  }

  /** The hole p can be brought into the neighbourhood of b. */
  ghost predicate CanReach(g: Geometry, t: seq<Entry>, b: nat, p: nat)
    requires g.Ok() && |t| == g.slots && b < g.slots && p <= g.slots
  {
    Reaches(Displacements(g, t, b, p), g.span, p)
  }

  /** The slot the next hop takes its key from. */
  ghost function Mover(g: Geometry, t: seq<Entry>, b: nat, p: nat): (q: nat)
    requires g.Ok() && |t| == g.slots && b < g.slots && g.span <= p <= g.slots
    ensures p - g.span < q <= p
    ensures q < p ==> q - Displacement(g, t, b, q) + g.span > p
    ensures forall s :: p - g.span < s < q ==> s - Displacement(g, t, b, s) + g.span <= p
  {
    var disp := Displacements(g, t, b, p);
    assert forall s :: 0 <= s < p ==> disp[s] == Displacement(g, t, b, s);
    NextHop(disp, g.span, p)
  }

  /** Where the home of the key in slot q lies, when it does not lie before b. */
  lemma HomeOffset(g: Geometry, t: seq<Entry>, b: nat, p: nat, q: nat)
    requires g.Ok() && |t| == g.slots && b < g.slots && q < p < g.slots
    requires Displacement(g, t, b, q) <= q
    ensures var o := q - Displacement(g, t, b, q);
            g.home(t[Slot(g, b, q)].key) == Slot(g, b, o) && Dist(g.slots, Slot(g, b, o), Slot(g, b, p)) == p - o
  {}

  /** One hop keeps the invariant and the contents, and leaves the rest of the chain as it was. */
  lemma HopOne(g: Geometry, t: seq<Entry>, b: nat, p: nat)
    requires Hopping(g, t, b, p) && g.span <= p && Mover(g, t, b, p) < p
    ensures var q := Mover(g, t, b, p);
            var r := HopStep(g, t, Slot(g, b, p), Slot(g, b, q));
            && Hopping(g, r, b, q)
            && Contents(r, Slot(g, b, q)) == Contents(t, Slot(g, b, p))
            && Displacements(g, r, b, q) == Displacements(g, t, b, p)[..q]
            && (CanReach(g, r, b, q) <==> CanReach(g, t, b, p))
  {
    hide Inv, HopStep, Contents, Reaches, Displacements;
    var q := Mover(g, t, b, p);
    var x, y := Slot(g, b, p), Slot(g, b, q);
    var r := HopStep(g, t, x, y);
    HomeOffset(g, t, b, p, q);
    HopStepInv(g, t, x, y);
    HopKeys(g, t, x, y);
    HopDisplacements(g, t, b, p, q);
    ReachUnrolled(g, t, r, b, p);
  }

  lemma HopDisplacements(g: Geometry, t: seq<Entry>, b: nat, p: nat, q: nat)
    requires g.Ok() && |t| == g.slots && b < g.slots && q < p < g.slots
    ensures Displacements(g, HopStep(g, t, Slot(g, b, p), Slot(g, b, q)), b, q) == Displacements(g, t, b, p)[..q]
  {
    hide HopStep;
    var r := HopStep(g, t, Slot(g, b, p), Slot(g, b, q));
    HopKeys(g, t, Slot(g, b, p), Slot(g, b, q));
    assert forall s :: 0 <= s < q ==> Displacement(g, r, b, s) == Displacement(g, t, b, s);
  }

  /** The rest of the chain, on a leaf with the same displacements before the new hole. */
  lemma ReachUnrolled(g: Geometry, t: seq<Entry>, r: seq<Entry>, b: nat, p: nat)
    requires g.Ok() && |t| == |r| == g.slots && b < g.slots && g.span <= p < g.slots && Mover(g, t, b, p) < p
    requires Displacements(g, r, b, Mover(g, t, b, p)) == Displacements(g, t, b, p)[..Mover(g, t, b, p)]
    ensures CanReach(g, r, b, Mover(g, t, b, p)) <==> CanReach(g, t, b, p)
  {
    hide Displacements;
    var q := Mover(g, t, b, p);
    var disp := Displacements(g, t, b, p);
    assert disp[..q][..q] == disp[..q];
    ReachesPrefix(Displacements(g, r, b, q), disp, g.span, q);
  }

  /** Hop until the hole is in the neighbourhood of b; gives the leaf and where the hole ended up. */
  ghost function HopAll(g: Geometry, t: seq<Entry>, b: nat, p: nat): (r: (seq<Entry>, nat))
    requires Hopping(g, t, b, p) && CanReach(g, t, b, p)
    ensures Hopping(g, r.0, b, r.1) && r.1 < g.span && r.1 <= p
    ensures Contents(r.0, Slot(g, b, r.1)) == Contents(t, Slot(g, b, p))
    decreases p
  {
    if p < g.span then (t, p)
    else
      HopOne(g, t, b, p);
      var q := Mover(g, t, b, p);
      HopAll(g, HopStep(g, t, Slot(g, b, p), Slot(g, b, q)), b, q)
  }

  /** Insertion of k succeeds: some slot is empty and the first one can be hopped home. */
  ghost predicate CanInsert(g: Geometry, t: seq<Entry>, k: Key)
    requires g.Ok() && |t| == g.slots
  {
    var e := FirstEmpty(g, t, g.home(k), 0, g.slots);
    e < g.slots && CanReach(g, t, g.home(k), e)
  }

  /** An empty slot may be counted as the hole. */
  lemma EmptyIsHole(g: Geometry, t: seq<Entry>, x: nat)
    requires Valid(g, t) && x < |t| && t[x].key == 0
    ensures Inv(g, t, x) && Contents(t, x) == Contents(t, g.slots)
  {
    assert forall i :: 0 <= i < |t| ==> Used(t, x, i) == Used(t, g.slots, i);
    forall c | 0 <= c < |t| ensures t[c].bits == HomeBits(g, t, x, c) {
      assert t[c].bits == HomeBits(g, t, g.slots, c);
      assert forall d :: 0 <= d < g.span ==> HopBit(g, t, x, c, d) == HopBit(g, t, g.slots, c, d);
    }
  }

  lemma StartHopping(g: Geometry, t: seq<Entry>, k: Key)
    requires Valid(g, t) && FirstEmpty(g, t, g.home(k), 0, g.slots) < g.slots
    ensures Hopping(g, t, g.home(k), FirstEmpty(g, t, g.home(k), 0, g.slots))
  {
    EmptyIsHole(g, t, Slot(g, g.home(k), FirstEmpty(g, t, g.home(k), 0, g.slots)));
  }

  /** The leaf after a successful insert of (k, v). */
  ghost function Inserted(g: Geometry, t: seq<Entry>, k: Key, v: Value): (r: seq<Entry>)
    requires Valid(g, t) && CanInsert(g, t, k)
    ensures |r| == |t|
  {
    StartHopping(g, t, k);
    var b := g.home(k);
    var (u, p) := HopAll(g, t, b, FirstEmpty(g, t, b, 0, g.slots));
    Place(g, u, Slot(g, b, p), k, v)
  }

  lemma ContentsKeys(t: seq<Entry>, hole: nat, i: nat)
    requires i < |t| && Used(t, hole, i)
    ensures (t[i].key, t[i].value) in Contents(t, hole)
  {}

  /** A key of a leaf whose contents are t's and (k, v) is a key of t, or k. */
  lemma KeysFromContents(r: seq<Entry>, t: seq<Entry>, hole: nat, k: Key, v: Value, i: nat)
    requires Contents(r, hole) <= Contents(t, hole) + {(k, v)} && i < |r| && Used(r, hole, i) && r[i].key != k
    ensures exists j :: 0 <= j < |t| && Used(t, hole, j) && t[j].key == r[i].key
  {
    assert (r[i].key, r[i].value) in Contents(r, hole);
    var j :| 0 <= j < |t| && Used(t, hole, j) && (t[j].key, t[j].value) == (r[i].key, r[i].value);
  }

  /** Inserting an absent key keeps the leaf valid and adds exactly that entry. */
  lemma InsertedCorrect(g: Geometry, t: seq<Entry>, k: Key, v: Value)
    requires Valid(g, t) && CanInsert(g, t, k) && k != 0 && Absent(t, k)
    ensures Valid(g, Inserted(g, t, k, v))
    ensures Contents(Inserted(g, t, k, v), g.slots) == Contents(t, g.slots) + {(k, v)}
  {
    StartHopping(g, t, k);
    var b := g.home(k);
    var e := FirstEmpty(g, t, b, 0, g.slots);
    EmptyIsHole(g, t, Slot(g, b, e));
    var (u, p) := HopAll(g, t, b, e);
    var x := Slot(g, b, p);
    forall i | 0 <= i < |u| && Used(u, x, i) ensures u[i].key != k {
      ContentsKeys(u, x, i);
      assert (u[i].key, u[i].value) in Contents(t, g.slots);
    }
    PlaceInv(g, u, x, k, v);
  }

  /** An insert brings in no key but k. */
  lemma InsertedKeys(g: Geometry, t: seq<Entry>, k: Key, v: Value, i: nat)
    requires Valid(g, t) && CanInsert(g, t, k) && k != 0 && Absent(t, k)
    requires i < g.slots && |t| == g.slots && Inserted(g, t, k, v)[i].key != 0 && Inserted(g, t, k, v)[i].key != k
    ensures exists j :: 0 <= j < |t| && t[j].key == Inserted(g, t, k, v)[i].key
  {
    hide Inv, CanInsert, Inserted, Absent;
    InsertedCorrect(g, t, k, v);
    KeysFromContents(Inserted(g, t, k, v), t, g.slots, k, v, i);
  }

  /** Hops from hole p touch nothing after p. */
  lemma {:induction false} HopAllFrame(g: Geometry, t: seq<Entry>, b: nat, p: nat)
    requires Hopping(g, t, b, p) && CanReach(g, t, b, p)
    ensures forall q :: p < q < g.slots ==> HopAll(g, t, b, p).0[Slot(g, b, q)] == t[Slot(g, b, q)]
    decreases p
  {
    if g.span <= p {
      HopOne(g, t, b, p);
      var q := Mover(g, t, b, p);
      HomeOffset(g, t, b, p, q);
      HopAllFrame(g, HopStep(g, t, Slot(g, b, p), Slot(g, b, q)), b, q);
    }
  }

  /** The segment from k's home to the first empty slot covers everything an insert changes. */
  lemma InsertedFrame(g: Geometry, t: seq<Entry>, k: Key, v: Value)
    requires Valid(g, t) && CanInsert(g, t, k)
    ensures var b := g.home(k);
            var e := FirstEmpty(g, t, b, 0, g.slots);
            forall q :: e < q < g.slots ==> Inserted(g, t, k, v)[Slot(g, b, q)] == t[Slot(g, b, q)]
  {
    StartHopping(g, t, k);
    HopAllFrame(g, t, g.home(k), FirstEmpty(g, t, g.home(k), 0, g.slots));
  }

  /** The buffer holds the leaf's entries in the n slots from b on; elsewhere it may hold anything. */
  ghost predicate Window(g: Geometry, buffer: seq<Entry>, t: seq<Entry>, b: nat, n: nat) {
    && |buffer| == |t| == g.slots && b < g.slots && n <= g.slots
    && forall q :: 0 <= q < n ==> buffer[Slot(g, b, q)] == t[Slot(g, b, q)]
  }

  /** Wrap h - z into the array, then renormalise: this always gives back h - z. */
  method WrappedHome(n: nat, span: nat, h: int, z: nat) returns (home: int)
    requires 1 <= span <= n && z < span && 0 < h < 2 * n
    ensures home == h - z
  {
    home := (h - z + n) % n;
    ModCases(n, h - z + n);
    if h - home < 0 { home := home - n; } else if h - home >= span { home := home + n; }
  }

  /** Bit z of the entry z slots before a taken slot is set exactly when the key there is z slots from its home. */
  lemma BitTellsHome(g: Geometry, t: seq<Entry>, b: nat, p: nat, q: nat, z: nat)
    requires Hopping(g, t, b, p) && z < g.span && q < p && z <= q
    ensures z in t[Slot(g, b, q - z)].bits <==> z == Displacement(g, t, b, q)
    ensures Displacement(g, t, b, q) < g.span
  {
    var c, i, hole := Slot(g, b, q - z), Slot(g, b, q), Slot(g, b, p);
    assert Used(t, hole, i) && InReach(g, t, i);
    assert Dist(g.slots, c, i) == z;
    BitsOf(g, t, hole, c, i);
    if z == Displacement(g, t, b, q) { HomeOffset(g, t, b, p, q); }
  }

  predicate BitFromHome(g: Geometry, buffer: seq<Entry>, b: nat, q: nat, z: nat)
    requires |buffer| == g.slots && b < g.slots && z <= q < g.slots
  {
    z in buffer[Slot(g, b, q - z)].bits
  }

  /** What the bitmaps in the p slots from b on say about the displacements of the keys there. */
  ghost predicate BitsMatch(g: Geometry, buffer: seq<Entry>, disp: seq<nat>, b: nat, p: nat) {
    && |buffer| == g.slots && b < g.slots && p <= |disp| && p < g.slots
    && (forall q :: 0 <= q < p ==> disp[q] < g.span)
    && (forall q, z :: 0 <= z <= q < p && z < g.span ==> (BitFromHome(g, buffer, b, q, z) <==> z == disp[q]))
  }

  lemma HoppingBitsMatch(g: Geometry, buffer: seq<Entry>, t: seq<Entry>, b: nat, p: nat)
    requires Hopping(g, t, b, p) && Window(g, buffer, t, b, p)
    ensures BitsMatch(g, buffer, Displacements(g, t, b, p), b, p)
  {
    forall q, z | 0 <= z <= q < p && z < g.span
      ensures BitFromHome(g, buffer, b, q, z) <==> z == Displacements(g, t, b, p)[q]
    {
      BitTellsHome(g, t, b, p, q, z);
    }
    forall q | 0 <= q < p ensures Displacements(g, t, b, p)[q] < g.span {
      BitTellsHome(g, t, b, p, q, 0);
    }
  }

  /** Find the home of the key in slot h from the hop bitmaps alone, if the hole j is still within its reach. */
  method HomeByBitmap(g: Geometry, records: array<Entry>, b: nat, j: int, h: int, ghost disp: seq<nat>) returns (home: int)
    requires g.Ok() && b < g.slots && b + g.span <= j && BitsMatch(g, records[..], disp, b, j - b)
    requires j - g.span < h < j
    ensures home >= 0 <==> h - disp[h - b] + g.span > j
    ensures home >= 0 ==> home == h - disp[h - b]
  {
    home := -1;
    var z: int := g.span - 1;
    while z >= 0
      invariant -1 <= z < g.span && home == -1
      invariant h - disp[h - b] + g.span > j ==> disp[h - b] <= z
    {
      var hHome := WrappedHome(g.slots, g.span, h, z);
      if hHome + g.span > j {
        var c := Wrap(g.slots, hHome);
        assert BitFromHome(g, records[..], b, h - b, z) <==> z in records[c].bits;
        if z in records[c].bits {
          home := hHome;
          break;
        }
      }
      z := z - 1;
    }
  }

  /** The largest offset whose key may move into the hole j, and that key's home; `found` is false if none may. */
  method FindHop(g: Geometry, records: array<Entry>, b: nat, j: int, ghost disp: seq<nat>) returns (found: bool, h: int, home: int)
    requires g.Ok() && b < g.slots && b + g.span <= j && BitsMatch(g, records[..], disp, b, j - b)
    ensures found <==> NextHop(disp, g.span, j - b) < j - b
    ensures found ==> h == b + NextHop(disp, g.span, j - b) && home == h - disp[h - b]
  {
    found, h, home := false, j, j;
    var offset: int := g.span - 1;
    while offset > 0
      invariant 0 <= offset < g.span
      invariant forall s :: j - b - g.span < s < j - b - offset ==> s - disp[s] + g.span <= j - b
    {
      h := j - offset;
      home := HomeByBitmap(g, records, b, j, h, disp);
      if home >= 0 {
        found := true;
        return;
      }
      offset := offset - 1;
    }
  }

  /** `set_hop_bit` and `unset_hop_bit`: their preconditions are the source's assertions. */
  function SetHopBit(e: Entry, span: nat, d: nat): Entry
    requires d < span && d !in e.bits
  {
    e.(bits := e.bits + {d})
  }

  function UnsetHopBit(e: Entry, span: nat, d: nat): Entry
    requires d < span && d in e.bits
  {
    e.(bits := e.bits - {d})
  }

  /** The bitmap of c, the home of slot y's key, is as the hop of y into x expects it. */
  ghost predicate HopReady(g: Geometry, t: seq<Entry>, x: nat, y: nat, c: nat) {
    && g.Ok() && |t| == g.slots && x < g.slots && y < g.slots && x != y
    && c == g.home(t[y].key) && Dist(g.slots, c, y) < g.span && Dist(g.slots, c, x) < g.span
    && Dist(g.slots, c, y) in t[c].bits && Dist(g.slots, c, x) !in t[c].bits
  }

  /** Move the key of slot y, whose home is c, into the hole x. */
  method Hop(g: Geometry, records: array<Entry>, x: nat, y: nat, c: nat)
    requires HopReady(g, records[..], x, y, c)
    modifies records
    ensures records[..] == HopStep(g, old(records[..]), x, y)
  {
    records[x] := records[x].(key := records[y].key, value := records[y].value);
    records[c] := UnsetHopBit(records[c], g.span, Dist(g.slots, c, y));
    records[c] := SetHopBit(records[c], g.span, Dist(g.slots, c, x));
  }

  /** The slots the hole visits, in order. */
  ghost function HopSlots(g: Geometry, t: seq<Entry>, b: nat, p: nat): seq<nat>
    requires Hopping(g, t, b, p) && CanReach(g, t, b, p)
    decreases p
  {
    if p < g.span then [Slot(g, b, p)]
    else
      HopOne(g, t, b, p);
      var q := Mover(g, t, b, p);
      [Slot(g, b, p)] + HopSlots(g, HopStep(g, t, Slot(g, b, p), Slot(g, b, q)), b, q)
  }

  /** The slots visited by the whole insert of k. */
  ghost function InsertSlots(g: Geometry, t: seq<Entry>, k: Key): seq<nat>
    requires Valid(g, t) && CanInsert(g, t, k)
  {
    StartHopping(g, t, k);
    HopSlots(g, t, g.home(k), FirstEmpty(g, t, g.home(k), 0, g.slots))
  }

  lemma HopBitsReady(g: Geometry, t: seq<Entry>, x: nat, y: nat)
    requires Inv(g, t, x) && x < |t| && y < |t| && Used(t, x, y)
    ensures var c := g.home(t[y].key); Dist(g.slots, c, y) in t[c].bits && Dist(g.slots, c, x) !in t[c].bits
    ensures Dist(g.slots, g.home(t[y].key), y) < g.span
  {
    var c := g.home(t[y].key);
    BitsOf(g, t, x, c, y);
    BitsOf(g, t, x, c, x);
    assert InReach(g, t, y);
  }

  /** A hop done on the buffer is the hop done on the leaf, as far as the buffer shows it. */
  lemma HopInWindow(g: Geometry, buffer: seq<Entry>, t: seq<Entry>, b: nat, n: nat, p: nat)
    requires Hopping(g, t, b, p) && g.span <= p < n && Mover(g, t, b, p) < p && Window(g, buffer, t, b, n)
    ensures var x, y := Slot(g, b, p), Slot(g, b, Mover(g, t, b, p));
            && Window(g, HopStep(g, buffer, x, y), HopStep(g, t, x, y), b, n)
            && forall q :: n <= q < g.slots ==> HopStep(g, buffer, x, y)[Slot(g, b, q)] == buffer[Slot(g, b, q)]
  {
    hide Inv, Displacements;
    HomeOffset(g, t, b, p, Mover(g, t, b, p));
  }

  lemma DisplacementAt(g: Geometry, t: seq<Entry>, b: nat, p: nat, q: nat)
    requires g.Ok() && |t| == g.slots && b < g.slots && q < p <= g.slots
    ensures Displacements(g, t, b, p)[q] == Displacement(g, t, b, q)
  {}

  /** How far an insert has come: t is the leaf with hole p, reached from hole e of `full` by way of `hopped`. */
  ghost predicate ReachedFrom(g: Geometry, full: seq<Entry>, b: nat, e: nat, t: seq<Entry>, p: nat, hopped: seq<nat>) {
    && Hopping(g, full, b, e) && Hopping(g, t, b, p)
    && (CanReach(g, t, b, p) <==> CanReach(g, full, b, e))
    && (CanReach(g, full, b, e) ==>
          && HopAll(g, t, b, p) == HopAll(g, full, b, e)
          && hopped + HopSlots(g, t, b, p) == HopSlots(g, full, b, e))
  }

  lemma ReachedStart(g: Geometry, full: seq<Entry>, b: nat, e: nat)
    requires Hopping(g, full, b, e)
    ensures ReachedFrom(g, full, b, e, full, e, [])
  {
    if CanReach(g, full, b, e) { assert [] + HopSlots(g, full, b, e) == HopSlots(g, full, b, e); }
  }

  lemma ReachedOne(g: Geometry, full: seq<Entry>, b: nat, e: nat, t: seq<Entry>, p: nat, hopped: seq<nat>)
    requires ReachedFrom(g, full, b, e, t, p, hopped) && g.span <= p && Mover(g, t, b, p) < p
    ensures var q := Mover(g, t, b, p);
            var r := HopStep(g, t, Slot(g, b, p), Slot(g, b, q));
            Hopping(g, r, b, q) && ReachedFrom(g, full, b, e, r, q, hopped + [Slot(g, b, p)])
  {
    hide Inv, HopStep, Displacements, Contents, Slot;
    HopOne(g, t, b, p);
    if CanReach(g, full, b, e) {
      var q := Mover(g, t, b, p);
      var rest := HopSlots(g, HopStep(g, t, Slot(g, b, p), Slot(g, b, q)), b, q);
      assert hopped + ([Slot(g, b, p)] + rest) == (hopped + [Slot(g, b, p)]) + rest;
    }
  }

  lemma ReachedEnd(g: Geometry, full: seq<Entry>, b: nat, e: nat, t: seq<Entry>, p: nat, hopped: seq<nat>)
    requires ReachedFrom(g, full, b, e, t, p, hopped) && p < g.span
    ensures CanReach(g, full, b, e) && HopAll(g, full, b, e) == (t, p)
    ensures HopSlots(g, full, b, e) == hopped + [Slot(g, b, p)]
  {}

  lemma ReachedStuck(g: Geometry, full: seq<Entry>, b: nat, e: nat, t: seq<Entry>, p: nat, hopped: seq<nat>)
    requires ReachedFrom(g, full, b, e, t, p, hopped) && g.span <= p && Mover(g, t, b, p) == p
    ensures !CanReach(g, full, b, e)
  {}

  /** Two buffers agree on every slot more than e after b. */
  ghost predicate SameAfter(g: Geometry, a: seq<Entry>, a': seq<Entry>, b: nat, e: nat) {
    && |a| == |a'| == g.slots && b < g.slots
    && forall q :: e < q < g.slots ==> a[Slot(g, b, q)] == a'[Slot(g, b, q)]
  }

  /** The state of the hop loop: the buffer shows the leaf t whose hole is p, and is untouched after slot e. */
  ghost predicate HopState(g: Geometry, start: seq<Entry>, full: seq<Entry>, b: nat, e: nat,
                           buffer: seq<Entry>, t: seq<Entry>, p: nat, hopped: seq<nat>) {
    && p <= e < g.slots
    && ReachedFrom(g, full, b, e, t, p, hopped)
    && Window(g, buffer, t, b, e + 1)
    && SameAfter(g, buffer, start, b, e)
  }

  lemma HopStateLook(g: Geometry, start: seq<Entry>, full: seq<Entry>, b: nat, e: nat,
                     buffer: seq<Entry>, t: seq<Entry>, p: nat, hopped: seq<nat>)
    requires HopState(g, start, full, b, e, buffer, t, p, hopped)
    ensures g.Ok() && |t| == |buffer| == g.slots && b < g.slots && p <= e < g.slots
    ensures BitsMatch(g, buffer, Displacements(g, t, b, p), b, p)
  {
    assert Window(g, buffer, t, b, p);
    HoppingBitsMatch(g, buffer, t, b, p);
  }

  lemma HopStateStart(g: Geometry, start: seq<Entry>, full: seq<Entry>, b: nat, e: nat)
    requires Hopping(g, full, b, e) && Window(g, start, full, b, e + 1)
    ensures HopState(g, start, full, b, e, start, full, e, [])
  {
    ReachedStart(g, full, b, e);
  }

  lemma HopStateStuck(g: Geometry, start: seq<Entry>, full: seq<Entry>, b: nat, e: nat,
                      buffer: seq<Entry>, t: seq<Entry>, p: nat, hopped: seq<nat>)
    requires HopState(g, start, full, b, e, buffer, t, p, hopped)
    requires g.Ok() && |t| == g.slots && b < g.slots && g.span <= p < g.slots
    requires NextHop(Displacements(g, t, b, p), g.span, p) == p
    ensures !CanReach(g, full, b, e) && SameAfter(g, buffer, start, b, e)
  {
    ReachedStuck(g, full, b, e, t, p, hopped);
  }

  lemma HopStateEnd(g: Geometry, start: seq<Entry>, full: seq<Entry>, b: nat, e: nat,
                    buffer: seq<Entry>, t: seq<Entry>, p: nat, hopped: seq<nat>)
    requires Hopping(g, full, b, e) && HopState(g, start, full, b, e, buffer, t, p, hopped) && p < g.span
    ensures CanReach(g, full, b, e) && HopAll(g, full, b, e).1 == p && p < g.slots
    ensures HopSlots(g, full, b, e) == hopped + [Slot(g, b, p)]
    ensures Window(g, buffer, HopAll(g, full, b, e).0, b, e + 1) && SameAfter(g, buffer, start, b, e)
  {
    ReachedEnd(g, full, b, e, t, p, hopped);
  }

  lemma HopStateStep(g: Geometry, start: seq<Entry>, full: seq<Entry>, b: nat, e: nat,
                     buffer: seq<Entry>, t: seq<Entry>, p: nat, hopped: seq<nat>)
    returns (x: nat, y: nat, c: nat)
    requires HopState(g, start, full, b, e, buffer, t, p, hopped) && g.Ok() && |t| == g.slots && b < g.slots && p < g.slots
    requires g.span <= p && NextHop(Displacements(g, t, b, p), g.span, p) < p
    ensures var q := NextHop(Displacements(g, t, b, p), g.span, p);
            && x == Wrap(g.slots, b + p) && y == Wrap(g.slots, b + q)
            && b + q >= Displacements(g, t, b, p)[q] && c == Wrap(g.slots, b + q - Displacements(g, t, b, p)[q])
    ensures HopReady(g, buffer, x, y, c) && c == g.home(t[y].key) < g.slots
    ensures |buffer| == g.slots && g.home(buffer[y].key) < g.slots
    ensures HopState(g, start, full, b, e, HopStep(g, buffer, x, y), HopStep(g, t, x, y),
                     NextHop(Displacements(g, t, b, p), g.span, p), hopped + [x])
  {
    hide Inv, HopStep, HopAll, HopSlots, CanReach;
    var q := Mover(g, t, b, p);
    DisplacementAt(g, t, b, p, q);
    HomeOffset(g, t, b, p, q);
    x, y, c := Slot(g, b, p), Slot(g, b, q), Slot(g, b, q - Displacement(g, t, b, q));
    HopBitsReady(g, t, x, y);
    HopInWindow(g, buffer, t, b, e + 1, p);
    ReachedOne(g, full, b, e, t, p, hopped);
  }

  /** The hop loop: moves the hole from slot b + e into the neighbourhood of b, or reports that it is stuck. */
  method RunHops(g: Geometry, records: array<Entry>, b: nat, e: nat, ghost full: seq<Entry>)
    returns (ok: bool, j: nat, hopped: seq<nat>)
    requires Hopping(g, full, b, e) && Window(g, records[..], full, b, e + 1)
    modifies records
    ensures ok <==> CanReach(g, full, b, e)
    ensures ok ==> j == b + HopAll(g, full, b, e).1 && hopped == HopSlots(g, full, b, e)
    ensures ok ==> Window(g, records[..], HopAll(g, full, b, e).0, b, e + 1)
    ensures SameAfter(g, records[..], old(records[..]), b, e)
  {
    hide Inv, Hopping, HopState, ReachedFrom, HopAll, HopSlots, CanReach, HopStep, BitsMatch, Displacements, NextHop, HopReady, Wrap;
    ghost var start, t := records[..], full;
    j, hopped, ok := b + e, [], true;
    HopStateStart(g, start, full, b, e);
    while b + g.span <= j
      invariant b <= j <= b + e && HopState(g, start, full, b, e, records[..], t, j - b, hopped)
      decreases j
    {
      HopStateLook(g, start, full, b, e, records[..], t, j - b, hopped);
      ghost var disp := Displacements(g, t, b, j - b);
      var found, h, home := FindHop(g, records, b, j, disp);
      if !found {
        HopStateStuck(g, start, full, b, e, records[..], t, j - b, hopped);
        ok := false;
        return;
      }
      ghost var x, y, c := HopStateStep(g, start, full, b, e, records[..], t, j - b, hopped);
      Hop(g, records, Wrap(g.slots, j), Wrap(g.slots, h), Wrap(g.slots, home));
      hopped := hopped + [Wrap(g.slots, j)];
      t, j := HopStep(g, t, x, y), h;
    }
    HopStateEnd(g, start, full, b, e, records[..], t, j - b, hopped);
    hopped := hopped + [Wrap(g.slots, j)];
  }

  /** A slot the hole never visits keeps its key and value, and the hole only visits slots up to p. */
  lemma {:induction false} HopSlotsCover(g: Geometry, t: seq<Entry>, b: nat, p: nat, i: nat)
    requires Hopping(g, t, b, p) && CanReach(g, t, b, p) && i < g.slots
    ensures i in HopSlots(g, t, b, p) ==> Dist(g.slots, b, i) <= p
    ensures var r := HopAll(g, t, b, p);
            && Slot(g, b, r.1) in HopSlots(g, t, b, p)
            && (i !in HopSlots(g, t, b, p) ==> r.0[i].key == t[i].key && r.0[i].value == t[i].value)
    decreases p
  {
    if g.span <= p {
      HopOne(g, t, b, p);
      var q := Mover(g, t, b, p);
      HopSlotsCover(g, HopStep(g, t, Slot(g, b, p), Slot(g, b, q)), b, q, i);
    }
  }

  /** The hole never visits a slot twice: each listed slot lies nearer to b than the one before it. */
  lemma {:induction false} HopSlotsDistinct(g: Geometry, t: seq<Entry>, b: nat, p: nat)
    requires Hopping(g, t, b, p) && CanReach(g, t, b, p)
    ensures forall i, j :: 0 <= i < j < |HopSlots(g, t, b, p)| ==> HopSlots(g, t, b, p)[i] != HopSlots(g, t, b, p)[j]
    decreases p
  {
    hide Inv, HopAll, HopStep, Displacements;
    if g.span <= p {
      HopOne(g, t, b, p);
      var q := Mover(g, t, b, p);
      var u := HopStep(g, t, Slot(g, b, p), Slot(g, b, q));
      var rest := HopSlots(g, u, b, q);
      HopSlotsDistinct(g, u, b, q);
      forall j | 0 <= j < |rest| ensures rest[j] != Slot(g, b, p) {
        if rest[j] == Slot(g, b, p) { HopSlotsCover(g, u, b, q, rest[j]); }
      }
    }
  }

  /** An insert lists no slot twice, so every listed slot has its version bumped once. */
  lemma InsertSlotsDistinct(g: Geometry, t: seq<Entry>, k: Key)
    requires Valid(g, t) && CanInsert(g, t, k)
    ensures forall i, j :: 0 <= i < j < |InsertSlots(g, t, k)| ==> InsertSlots(g, t, k)[i] != InsertSlots(g, t, k)[j]
  {
    StartHopping(g, t, k);
    HopSlotsDistinct(g, t, g.home(k), FirstEmpty(g, t, g.home(k), 0, g.slots));
  }

  /** Every slot whose key or value an insert changes is in its list of hopped slots, and all of them are in the
      segment from k's home to the first empty slot. */
  lemma InsertSlotsCover(g: Geometry, t: seq<Entry>, k: Key, v: Value, i: nat)
    requires Valid(g, t) && CanInsert(g, t, k) && i < g.slots
    ensures i !in InsertSlots(g, t, k) ==>
              Inserted(g, t, k, v)[i].key == t[i].key && Inserted(g, t, k, v)[i].value == t[i].value
    ensures i in InsertSlots(g, t, k) ==> Dist(g.slots, g.home(k), i) <= FirstEmpty(g, t, g.home(k), 0, g.slots)
  {
    StartHopping(g, t, k);
    HopSlotsCover(g, t, g.home(k), FirstEmpty(g, t, g.home(k), 0, g.slots), i);
  }

  lemma WindowNarrow(g: Geometry, buffer: seq<Entry>, t: seq<Entry>, b: nat, n: nat, m: nat)
    requires Window(g, buffer, t, b, n) && m <= n
    ensures Window(g, buffer, t, b, m)
  {}

  lemma FirstEmptyWindow(g: Geometry, buffer: seq<Entry>, t: seq<Entry>, b: nat, from: nat, n: nat)
    requires Window(g, buffer, t, b, n) && from <= n
    ensures |buffer| == |t| == g.slots
    ensures FirstEmpty(g, buffer, b, from, n) == FirstEmpty(g, t, b, from, n)
    decreases n - from
  {
  }

  lemma FirstEmptyWiden(g: Geometry, t: seq<Entry>, b: nat, from: nat, n: nat)
    requires |t| == g.slots && b < g.slots && from <= n <= g.slots
    requires n == g.slots || FirstEmpty(g, t, b, from, n) < n
    ensures FirstEmpty(g, t, b, from, n) == FirstEmpty(g, t, b, from, g.slots)
    decreases n - from
  {
  }

  /** The bitmap of k's home has no bit for slot x yet, which is within reach. */
  ghost predicate PlaceReady(g: Geometry, t: seq<Entry>, x: nat, k: Key) {
    && g.Ok() && |t| == g.slots && x < g.slots
    && Dist(g.slots, g.home(k), x) < g.span && Dist(g.slots, g.home(k), x) !in t[g.home(k)].bits
  }

  method PlaceAt(g: Geometry, records: array<Entry>, x: nat, k: Key, v: Value)
    requires PlaceReady(g, records[..], x, k)
    modifies records
    ensures records[..] == Place(g, old(records[..]), x, k, v)
  {
    var c := g.home(k);
    records[x] := records[x].(key := k, value := v);
    records[c] := SetHopBit(records[c], g.span, Dist(g.slots, c, x));
  }

  /** The last write of an insert, as seen in the buffer. */
  lemma PlaceInWindow(g: Geometry, buffer: seq<Entry>, t: seq<Entry>, b: nat, e: nat, p: nat, k: Key, v: Value)
    requires Hopping(g, t, b, p) && p <= e < g.slots && p < g.span && Window(g, buffer, t, b, e + 1) && b == g.home(k)
    ensures PlaceReady(g, buffer, Slot(g, b, p), k)
    ensures Window(g, Place(g, buffer, Slot(g, b, p), k, v), Place(g, t, Slot(g, b, p), k, v), b, e + 1)
    ensures SameAfter(g, Place(g, buffer, Slot(g, b, p), k, v), buffer, b, e)
  {
    assert Slot(g, b, 0) == b;
    BitsOf(g, t, Slot(g, b, p), b, Slot(g, b, p));
  }

  lemma SameAfterTrans(g: Geometry, a: seq<Entry>, b: seq<Entry>, c: seq<Entry>, h: nat, e: nat)
    requires SameAfter(g, a, b, h, e) && SameAfter(g, b, c, h, e)
    ensures SameAfter(g, a, c, h, e)
  {}

  /** Scan for the first empty slot. */
  method FindEmpty(g: Geometry, records: array<Entry>, b: nat, n: nat) returns (e: nat)
    requires records.Length == g.slots && b < g.slots && n <= g.slots
    ensures e == FirstEmpty(g, records[..], b, 0, n)
  {
    e := 0;
    while e < n && records[Slot(g, b, e)].key != 0
      invariant e <= n && FirstEmpty(g, records[..], b, e, n) == FirstEmpty(g, records[..], b, 0, n)
    {
      e := e + 1;
    }
  }

  lemma InsertParts(g: Geometry, t: seq<Entry>, k: Key, v: Value)
    requires Valid(g, t) && FirstEmpty(g, t, g.home(k), 0, g.slots) < g.slots
    ensures var b, e := g.home(k), FirstEmpty(g, t, g.home(k), 0, g.slots);
            && Hopping(g, t, b, e) && (CanInsert(g, t, k) <==> CanReach(g, t, b, e))
            && (CanInsert(g, t, k) ==>
                  var r := HopAll(g, t, b, e);
                  Inserted(g, t, k, v) == Place(g, r.0, Slot(g, b, r.1), k, v) && InsertSlots(g, t, k) == HopSlots(g, t, b, e))
  {
    hide Inv, HopAll, HopSlots, CanReach, Place, FirstEmpty;
    StartHopping(g, t, k);
  }

  /** `hopscotch_insert_and_unlock` on the buffer that holds the `entryNum` entries read from k's home on.

      It decides and changes exactly what the same insert on the whole leaf `full` would, and touches nothing after
      the first empty slot, so writing back the segment from k's home to that slot installs the whole insert. */
  method InsertInWindow(g: Geometry, records: array<Entry>, k: Key, v: Value, entryNum: nat, ghost full: seq<Entry>)
    returns (ok: bool, empty: nat, hopped: seq<nat>)
    requires Valid(g, full) && k != 0 && Absent(full, k)
    requires Window(g, records[..], full, g.home(k), entryNum)
    requires entryNum == g.slots || FirstEmpty(g, full, g.home(k), 0, entryNum) < entryNum
    modifies records
    ensures ok <==> CanInsert(g, full, k)
    ensures ok ==> empty == FirstEmpty(g, full, g.home(k), 0, g.slots) && hopped == InsertSlots(g, full, k)
    ensures ok ==> Window(g, records[..], Inserted(g, full, k, v), g.home(k), empty + 1)
    ensures ok ==> SameAfter(g, records[..], old(records[..]), g.home(k), empty)
  {
    hide Inv, HopAll, HopSlots, CanReach, Hopping, Place, PlaceReady, SameAfter, FirstEmpty, Inserted, InsertSlots, Absent;
    ValidShape(g, full);
    var b := g.home(k);
    ok, hopped, empty := false, [], 0;
    FirstEmptyWindow(g, records[..], full, b, 0, entryNum);
    FirstEmptyWiden(g, full, b, 0, entryNum);
    empty := FindEmpty(g, records, b, entryNum);
    if empty == entryNum { return; }
    InsertParts(g, full, k, v);
    WindowNarrow(g, records[..], full, b, entryNum, empty + 1);
    var j;
    ok, j, hopped := RunHops(g, records, b, empty, full);
    if ok {
      PlaceInWindow(g, records[..], HopAll(g, full, b, empty).0, b, empty, j - b, k, v);
      ghost var before := records[..];
      PlaceAt(g, records, Wrap(g.slots, j), k, v);
      SameAfterTrans(g, records[..], before, old(records[..]), b, empty);
    }
  }

  /** The leaf after the entries from b to b + e have been written back from the buffer. */
  function WriteSegment(g: Geometry, t: seq<Entry>, buffer: seq<Entry>, b: nat, e: nat): (r: seq<Entry>)
    requires |t| == |buffer| == g.slots && b < g.slots
    ensures |r| == g.slots
  {
    seq(g.slots, (i: nat) requires i < g.slots => if Dist(g.slots, b, i) <= e then buffer[i] else t[i])
  }

  /** Writing back only the segment installs the whole insert. */
  lemma SegmentInstallsInsert(g: Geometry, t: seq<Entry>, buffer: seq<Entry>, k: Key, v: Value)
    requires Valid(g, t) && CanInsert(g, t, k)
    requires Window(g, buffer, Inserted(g, t, k, v), g.home(k), FirstEmpty(g, t, g.home(k), 0, g.slots) + 1)
    ensures WriteSegment(g, t, buffer, g.home(k), FirstEmpty(g, t, g.home(k), 0, g.slots)) == Inserted(g, t, k, v)
  {
    InsertedFrame(g, t, k, v);
    var b := g.home(k);
    var e := FirstEmpty(g, t, b, 0, g.slots);
    var r := WriteSegment(g, t, buffer, b, e);
    forall i | 0 <= i < g.slots ensures r[i] == Inserted(g, t, k, v)[i] {
      assert i == Slot(g, b, Dist(g.slots, b, i));
    }
  }

  lemma SegmentIsBuffer(g: Geometry, t: seq<Entry>, buffer: seq<Entry>, b: nat, e: nat)
    requires SameAfter(g, buffer, t, b, e)
    ensures WriteSegment(g, t, buffer, b, e) == buffer
  {
    forall i | 0 <= i < g.slots ensures WriteSegment(g, t, buffer, b, e)[i] == buffer[i] {
      assert i == Slot(g, b, Dist(g.slots, b, i));
    }
  }

  lemma {:induction false} HopSlotsLast(g: Geometry, t: seq<Entry>, b: nat, p: nat)
    requires Hopping(g, t, b, p) && CanReach(g, t, b, p)
    ensures var s := HopSlots(g, t, b, p); s != [] && s[|s| - 1] == Slot(g, b, HopAll(g, t, b, p).1)
    decreases p
  {
    hide Inv, HopStep, Displacements, Contents, Slot;
    if g.span <= p {
      HopOne(g, t, b, p);
      HopSlotsLast(g, HopStep(g, t, Slot(g, b, p), Slot(g, b, Mover(g, t, b, p))), b, Mover(g, t, b, p));
    }
  }

  /** The last slot visited is where k ends up. */
  lemma InsertSlotsLast(g: Geometry, t: seq<Entry>, k: Key, v: Value)
    requires Valid(g, t) && CanInsert(g, t, k)
    ensures var s := InsertSlots(g, t, k);
            s != [] && s[|s| - 1] < g.slots && Inserted(g, t, k, v)[s[|s| - 1]].key == k
  {
    StartHopping(g, t, k);
    HopSlotsLast(g, t, g.home(k), FirstEmpty(g, t, g.home(k), 0, g.slots));
  }

  /** On a buffer that held the whole leaf, the segment written is the whole insert. */
  lemma WholeInsert(g: Geometry, t: seq<Entry>, buffer: seq<Entry>, k: Key, v: Value)
    requires Valid(g, t) && CanInsert(g, t, k)
    requires var e := FirstEmpty(g, t, g.home(k), 0, g.slots);
             Window(g, buffer, Inserted(g, t, k, v), g.home(k), e + 1) && SameAfter(g, buffer, t, g.home(k), e)
    ensures buffer == Inserted(g, t, k, v)
    ensures var s := InsertSlots(g, t, k);
            s != [] && s[|s| - 1] < |buffer| && buffer[s[|s| - 1]].key == k
  {
    hide Inv, CanInsert, Inserted, InsertSlots;
    SegmentInstallsInsert(g, t, buffer, k, v);
    SegmentIsBuffer(g, t, buffer, g.home(k), FirstEmpty(g, t, g.home(k), 0, g.slots));
    InsertSlotsLast(g, t, k, v);
  }

  lemma WindowOfSelf(g: Geometry, t: seq<Entry>, k: Key)
    requires Valid(g, t)
    ensures Window(g, t, t, g.home(k), g.slots)
  {}

  /** `hopscotch_insert_locally`: insert into a leaf that is known to have room.  Gives the slot of k. */
  method InsertLocally(g: Geometry, records: array<Entry>, k: Key, v: Value) returns (idx: nat)
    requires Valid(g, records[..]) && k != 0 && Absent(records[..], k) && CanInsert(g, records[..], k)
    modifies records
    ensures records[..] == Inserted(g, old(records[..]), k, v)
    ensures idx < records.Length && records[idx].key == k
  {
    hide Inv, InsertSlots, Inserted, SameAfter, Window, CanInsert, Absent;
    ghost var t := records[..];
    WindowOfSelf(g, t, k);
    var ok, empty, hopped := InsertInWindow(g, records, k, v, g.slots, t);
    WholeInsert(g, t, records[..], k, v);
    idx := hopped[|hopped| - 1];
  }
}
