/** Leaf entries, the circular slot arithmetic and the hopscotch invariant. */
module HopTable {

  /** Keys are big-endian byte strings read as numbers (see KeyArithmetic); 0 is `kkeyNull`. */
  type Key = nat
  type Value = nat

  /** Bit d of the source's `hop_bitmap` is membership of d in `bits`. */
  datatype Entry = Entry(key: Key, value: Value, bits: set<nat>)

  const NULL_ENTRY := Entry(0, 0, {})

  /** `leafSpanSize`, `neighborSize` and the hash function, all arbitrary. */
  datatype Geometry = Geometry(slots: nat, span: nat, home: Key -> nat) {
    ghost predicate Ok() {
      1 <= span <= slots && forall k :: home(k) < slots
    }
  }

  function Wrap(n: nat, i: nat): (r: nat)
    requires i < 2 * n
    ensures r < n
  {
    if i < n then i else i - n
  }

  /** How far slot i lies after slot c, going round. */
  function Dist(n: nat, c: nat, i: nat): (d: nat)
    requires c < n && i < n
    ensures d < n && Wrap(n, c + d) == i
  {
    if c <= i then i - c else i + n - c
  }

  lemma DistUnique(n: nat, c: nat, d: nat)
    requires c < n && d < n
    ensures Dist(n, c, Wrap(n, c + d)) == d
  {}

  /** The slot holds a key; the hole of an unfinished insert does not, whatever stale copy it keeps. */
  predicate Used(t: seq<Entry>, hole: nat, i: nat)
    requires i < |t|
  {
    i != hole && t[i].key != 0
  }

  /** The key in slot i hashes to c. */
  predicate HomedAt(g: Geometry, t: seq<Entry>, hole: nat, c: nat, i: nat)
    requires i < |t|
  {
    Used(t, hole, i) && g.home(t[i].key) == c
  }

  /** The slot d after home c holds a key that hashes to c. */
  predicate HopBit(g: Geometry, t: seq<Entry>, hole: nat, c: nat, d: nat)
    requires c < |t| == g.slots && d < g.slots
  {
    HomedAt(g, t, hole, c, Wrap(g.slots, c + d))
  }

  /** The bitmap a reader recomputes for home c from the keys it sees. */
  function HomeBits(g: Geometry, t: seq<Entry>, hole: nat, c: nat): set<nat>
    requires c < |t| == g.slots && g.span <= g.slots
  {
    set d | 0 <= d < g.span && HopBit(g, t, hole, c, d)
  }

  predicate InReach(g: Geometry, t: seq<Entry>, i: nat)
    requires i < |t| == g.slots && g.home(t[i].key) < g.slots
  {
    Dist(g.slots, g.home(t[i].key), i) < g.span
  }

  /** The leaf invariant, with slot `hole` (if it is a slot at all) counted as empty. */
  ghost predicate Inv(g: Geometry, t: seq<Entry>, hole: nat) {
    && g.Ok()
    && |t| == g.slots
    && (forall i :: 0 <= i < |t| && Used(t, hole, i) ==> InReach(g, t, i))
    && (forall c :: 0 <= c < |t| ==> t[c].bits == HomeBits(g, t, hole, c))
    && (forall i, j :: 0 <= i < j < |t| && Used(t, hole, i) && Used(t, hole, j) ==> t[i].key != t[j].key)
  }

  ghost predicate Valid(g: Geometry, t: seq<Entry>) {
    Inv(g, t, g.slots)
  }

  lemma ValidShape(g: Geometry, t: seq<Entry>)
    requires Valid(g, t)
    ensures g.Ok() && |t| == g.slots
  {}

  lemma ValidBits(g: Geometry, t: seq<Entry>, c: nat)
    requires Valid(g, t) && c < g.slots
    ensures g.Ok() && |t| == g.slots && t[c].bits == HomeBits(g, t, g.slots, c)
  {}

  lemma EmptyLeafValid(g: Geometry, t: seq<Entry>)
    requires g.Ok() && |t| == g.slots && forall i :: 0 <= i < |t| ==> t[i] == NULL_ENTRY
    ensures Valid(g, t)
  {}

  ghost function Contents(t: seq<Entry>, hole: nat): set<(Key, Value)> {
    set i | 0 <= i < |t| && Used(t, hole, i) :: (t[i].key, t[i].value)
  }

  predicate Absent(t: seq<Entry>, k: Key) {
    forall i :: 0 <= i < |t| ==> t[i].key != k
  }

  /** Slot b + q, where b is the home of the key being inserted. */
  function Slot(g: Geometry, b: nat, q: nat): (r: nat)
    requires b < g.slots && q < g.slots
    ensures r < g.slots && Dist(g.slots, b, r) == q
  {
    DistUnique(g.slots, b, q);
    Wrap(g.slots, b + q)
  }

  ghost function Displacement(g: Geometry, t: seq<Entry>, b: nat, q: nat): nat
    requires g.Ok() && |t| == g.slots && b < g.slots && q < g.slots
  {
    var i := Slot(g, b, q);
    Dist(g.slots, g.home(t[i].key), i)
  }

  /** Displacements of the keys in slots b, b+1, ..., b+p-1. */
  ghost function Displacements(g: Geometry, t: seq<Entry>, b: nat, p: nat): (s: seq<nat>)
    requires g.Ok() && |t| == g.slots && b < g.slots && p <= g.slots
    ensures |s| == p
  {
    seq(p, (q: nat) requires q < p => Displacement(g, t, b, q))
  }

  /** Offset of the first empty slot going round from b, or `n` when the first n slots are taken. */
  function FirstEmpty(g: Geometry, t: seq<Entry>, b: nat, from: nat, n: nat): (e: nat)
    requires |t| == g.slots && b < g.slots && from <= n <= g.slots
    ensures from <= e <= n
    ensures e < n ==> t[Slot(g, b, e)].key == 0
    ensures forall q :: from <= q < e ==> t[Slot(g, b, q)].key != 0
    decreases n - from
  {
    if from == n || t[Slot(g, b, from)].key == 0 then from else FirstEmpty(g, t, b, from + 1, n)
  }

  /** Move the key of slot y into the hole x; y becomes the hole and keeps a stale copy. */
  function HopStep(g: Geometry, t: seq<Entry>, x: nat, y: nat): (r: seq<Entry>)
    requires |t| == g.slots && x < g.slots && y < g.slots && g.home(t[y].key) < g.slots
    ensures |r| == |t|
  {
    var c := g.home(t[y].key);
    var u := t[x := t[x].(key := t[y].key, value := t[y].value)];
    u[c := u[c].(bits := u[c].bits - {Dist(g.slots, c, y)} + {Dist(g.slots, c, x)})]
  }

  lemma HopKeys(g: Geometry, t: seq<Entry>, x: nat, y: nat)
    requires |t| == g.slots && x < g.slots && y < g.slots && g.home(t[y].key) < g.slots
    ensures HopStep(g, t, x, y)[x].key == t[y].key
    ensures forall i :: 0 <= i < |t| && i != x ==> HopStep(g, t, x, y)[i].key == t[i].key
  {}

  /** Write (k, v) into the hole x. */
  function Place(g: Geometry, t: seq<Entry>, x: nat, k: Key, v: Value): (r: seq<Entry>)
    requires |t| == g.slots && x < g.slots && g.home(k) < g.slots
    ensures |r| == |t|
  {
    var c := g.home(k);
    var u := t[x := t[x].(key := k, value := v)];
    u[c := u[c].(bits := u[c].bits + {Dist(g.slots, c, x)})]
  }

  lemma BitsOf(g: Geometry, t: seq<Entry>, hole: nat, c: nat, i: nat)
    requires Inv(g, t, hole) && c < |t| && i < |t|
    ensures HomedAt(g, t, hole, c, i) ==> Dist(g.slots, c, i) in t[c].bits
    ensures Dist(g.slots, c, i) in t[c].bits ==> HomedAt(g, t, hole, c, i)
  {
    assert t[c].bits == HomeBits(g, t, hole, c);
    DistUnique(g.slots, c, Dist(g.slots, c, i));
    assert HopBit(g, t, hole, c, Dist(g.slots, c, i)) == HomedAt(g, t, hole, c, i);
  }

  /** Homes other than the moved key's own see the same keys before and after a hop. */
  lemma HopStepBits(g: Geometry, t: seq<Entry>, x: nat, y: nat, c: nat)
    requires Inv(g, t, x) && x < |t| && y < |t| && c < |t| && Used(t, x, y)
    requires Dist(g.slots, g.home(t[y].key), x) < g.span
    ensures HopStep(g, t, x, y)[c].bits == HomeBits(g, HopStep(g, t, x, y), y, c)
  {
    var r := HopStep(g, t, x, y);
    var m := g.home(t[y].key);
    assert t[c].bits == HomeBits(g, t, x, c);
    forall d | 0 <= d < g.span
      ensures d in r[c].bits <==> HopBit(g, r, y, c, d)
    {
      DistUnique(g.slots, c, d);
      assert d in t[c].bits <==> HopBit(g, t, x, c, d);
    }
    forall d | d in r[c].bits ensures d in HomeBits(g, r, y, c) {}
  }

  lemma HopStepContents(g: Geometry, t: seq<Entry>, x: nat, y: nat)
    requires g.Ok() && |t| == g.slots && x < |t| && y < |t| && Used(t, x, y)
    ensures Contents(HopStep(g, t, x, y), y) == Contents(t, x)
  {
    var r := HopStep(g, t, x, y);
    assert forall i :: 0 <= i < |t| && i != x ==> r[i].key == t[i].key && r[i].value == t[i].value;
    forall e | e in Contents(t, x) ensures e in Contents(r, y) {
      var i :| 0 <= i < |t| && Used(t, x, i) && e == (t[i].key, t[i].value);
      var j := if i == y then x else i;
      assert Used(r, y, j);
    }
    forall e | e in Contents(r, y) ensures e in Contents(t, x) {
      var i :| 0 <= i < |t| && Used(r, y, i) && e == (r[i].key, r[i].value);
      var j := if i == x then y else i;
      assert Used(t, x, j);
    }
  }

  lemma HopStepInv(g: Geometry, t: seq<Entry>, x: nat, y: nat)
    requires Inv(g, t, x) && x < |t| && y < |t| && Used(t, x, y)
    requires Dist(g.slots, g.home(t[y].key), x) < g.span
    ensures Inv(g, HopStep(g, t, x, y), y)
    ensures Contents(HopStep(g, t, x, y), y) == Contents(t, x)
  {
    var r := HopStep(g, t, x, y);
    assert forall i :: 0 <= i < |t| && i != x ==> r[i].key == t[i].key && r[i].value == t[i].value;
    assert r[x].key == t[y].key && r[x].value == t[y].value;
    forall i | 0 <= i < |r| && Used(r, y, i) ensures InReach(g, r, i) {
      assert i != x ==> Used(t, x, i) && InReach(g, t, i);
    }
    forall c | 0 <= c < |r| ensures r[c].bits == HomeBits(g, r, y, c) {
      HopStepBits(g, t, x, y, c);
    }
    HopStepContents(g, t, x, y);
  }

  lemma PlaceBits(g: Geometry, t: seq<Entry>, x: nat, k: Key, v: Value, c: nat)
    requires Inv(g, t, x) && x < |t| && c < |t| && k != 0 && Dist(g.slots, g.home(k), x) < g.span
    ensures Place(g, t, x, k, v)[c].bits == HomeBits(g, Place(g, t, x, k, v), g.slots, c)
  {
    var r := Place(g, t, x, k, v);
    assert t[c].bits == HomeBits(g, t, x, c);
    forall d | 0 <= d < g.span
      ensures d in r[c].bits <==> HopBit(g, r, g.slots, c, d)
    {
      DistUnique(g.slots, c, d);
      assert d in t[c].bits <==> HopBit(g, t, x, c, d);
    }
  }

  lemma PlaceInv(g: Geometry, t: seq<Entry>, x: nat, k: Key, v: Value)
    requires Inv(g, t, x) && x < |t| && k != 0 && Dist(g.slots, g.home(k), x) < g.span
    requires forall i :: 0 <= i < |t| && Used(t, x, i) ==> t[i].key != k
    ensures Valid(g, Place(g, t, x, k, v))
    ensures Contents(Place(g, t, x, k, v), g.slots) == Contents(t, x) + {(k, v)}
  {
    var r := Place(g, t, x, k, v);
    assert forall i :: 0 <= i < |t| && i != x ==> r[i].key == t[i].key && r[i].value == t[i].value;
    assert r[x].key == k && r[x].value == v;
    forall i | 0 <= i < |r| && Used(r, g.slots, i) ensures InReach(g, r, i) {
      assert i != x ==> Used(t, x, i) && InReach(g, t, i);
    }
    forall c | 0 <= c < |r| ensures r[c].bits == HomeBits(g, r, g.slots, c) {
      PlaceBits(g, t, x, k, v, c);
    }
    forall e | e in Contents(t, x) + {(k, v)} ensures e in Contents(r, g.slots) {
      if e == (k, v) {
        assert Used(r, g.slots, x);
      } else {
        var i :| 0 <= i < |t| && Used(t, x, i) && e == (t[i].key, t[i].value);
        assert Used(r, g.slots, i);
      }
    }
    forall e | e in Contents(r, g.slots) ensures e in Contents(t, x) + {(k, v)} {
      var i :| 0 <= i < |t| && Used(r, g.slots, i) && e == (r[i].key, r[i].value);
      assert i != x ==> Used(t, x, i);
    }
  }
}
