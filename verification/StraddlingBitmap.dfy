/** In every layout at risk, a read that passes every check and misses a key that is stored before, during and after the
    insert it overlaps.

    Slots are numbered from the one before c.  The first `span` of them are taken, the others empty.  Key 3 is two slots on,
    one after its home c.  Inserting key span + 1, whose home is the first slot, hops key 3 to the end of c's neighbourhood,
    which moves its bit from one byte of c's bitmap to the other; c itself is not hopped, so its version stays. */
module StraddlingBitmap {
  import opened HopChain
  import opened HopTable
  import opened HopInsert
  import opened HopRead
  import opened VersionLayout
  import opened VersionCodec
  import opened VersionDecode
  import opened TornEntries
  import opened EntryBytes
  import opened RawRead
  import opened SearchLayout
  import KeyArithmetic

  // ---- the leaf and the insert ----

  predicate Sizes(n: nat, span: nat, b: nat) {
    10 <= span <= 16 && span < n && b < n
  }

  function HomeOf(n: nat, span: nat, b: nat, key: Key): (h: nat)
    requires Sizes(n, span, b)
    ensures h < n
  {
    if key == 3 then Wrap(n, b + 1) else if 4 <= key <= span then Wrap(n, b + key - 1) else b
  }

  function G(n: nat, span: nat, b: nat): (g: Geometry)
    requires Sizes(n, span, b)
  {
    Geometry(n, span, (key: Key) => if Sizes(n, span, b) then HomeOf(n, span, b, key) else 0)
  }

  function StartBits(span: nat, q: nat): set<nat> {
    if q == 0 then {0, 1} else if q == 1 then {1} else if 3 <= q < span then {0} else {}
  }

  function T(n: nat, span: nat, b: nat): (t: seq<Entry>)
    requires Sizes(n, span, b)
    ensures |t| == n
    ensures forall i :: 0 <= i < n ==>
              t[i] == Entry(if Dist(n, b, i) < span then Dist(n, b, i) + 1 else 0, 0, StartBits(span, Dist(n, b, i)))
  {
    seq(n, (i: nat) requires i < n =>
      Entry(if Dist(n, b, i) < span then Dist(n, b, i) + 1 else 0, 0, StartBits(span, Dist(n, b, i))))
  }

  lemma GeometryOk(n: nat, span: nat, b: nat)
    requires Sizes(n, span, b)
    ensures G(n, span, b).Ok()
  {}

  /** Where the key at offset p has its home. */
  function HomeOffset(p: nat): nat {
    if p <= 1 then 0 else if p == 2 then 1 else p
  }

  lemma HomeAt(n: nat, span: nat, b: nat, i: nat)
    requires Sizes(n, span, b) && i < n && Dist(n, b, i) < span
    ensures var p := Dist(n, b, i); HomeOf(n, span, b, p + 1) == Wrap(n, b + HomeOffset(p)) && HomeOffset(p) <= p
  {}

  lemma StartBit(n: nat, span: nat, b: nat, c: nat, d: nat)
    requires Sizes(n, span, b) && c < n && d < span
    ensures d in StartBits(span, Dist(n, b, c)) <==> HopBit(G(n, span, b), T(n, span, b), n, c, d)
  {
    hide T;
    var i := Wrap(n, c + d);
    var p := Dist(n, b, i);
    if p < span { HomeAt(n, span, b, i); }
  }

  lemma StartValid(n: nat, span: nat, b: nat)
    requires Sizes(n, span, b)
    ensures Valid(G(n, span, b), T(n, span, b)) && Absent(T(n, span, b), span + 1)
  {
    hide T, HopBit, StartBits;
    var g, t := G(n, span, b), T(n, span, b);
    GeometryOk(n, span, b);
    forall c | 0 <= c < n ensures t[c].bits == HomeBits(g, t, n, c) {
      forall d | 0 <= d < span ensures d in t[c].bits <==> HopBit(g, t, n, c, d) {
        StartBit(n, span, b, c, d);
      }
      BitsSmall(span, Dist(n, b, c));
    }
    forall i | 0 <= i < n && Used(t, n, i) ensures InReach(g, t, i) {
      HomeAt(n, span, b, i);
    }
  }

  lemma BitsSmall(span: nat, q: nat)
    requires 2 <= span
    ensures forall d :: d in StartBits(span, q) ==> d < span
  {}

  lemma KeyAtOffset(n: nat, span: nat, b: nat, q: nat)
    requires Sizes(n, span, b) && q < n
    ensures T(n, span, b)[Slot(G(n, span, b), b, q)].key == if q < span then q + 1 else 0
  {}

  lemma FirstEmptyIs(n: nat, span: nat, b: nat)
    requires Sizes(n, span, b)
    ensures FirstEmpty(G(n, span, b), T(n, span, b), b, 0, n) == span
  {
    hide T, Slot;
    var g, t := G(n, span, b), T(n, span, b);
    KeyAtOffset(n, span, b, span);
    forall q | 0 <= q < span ensures t[Slot(g, b, q)].key != 0 {
      KeyAtOffset(n, span, b, q);
    }
  }

  lemma MoverIs(n: nat, span: nat, b: nat)
    requires Sizes(n, span, b)
    ensures G(n, span, b).Ok() && Mover(G(n, span, b), T(n, span, b), b, span) == 2
  {
    hide T;
    var g, t := G(n, span, b), T(n, span, b);
    GeometryOk(n, span, b);
    var q := Mover(g, t, b, span);
    assert Displacement(g, t, b, 1) == 1 && Displacement(g, t, b, 2) == 1;
  }

  lemma Reaching(n: nat, span: nat, b: nat)
    requires Sizes(n, span, b)
    ensures G(n, span, b).Ok() && CanReach(G(n, span, b), T(n, span, b), b, span)
    ensures G(n, span, b).home(span + 1) == b && CanInsert(G(n, span, b), T(n, span, b), span + 1)
  {
    hide T, Displacements, NextHop;
    var g, t := G(n, span, b), T(n, span, b);
    FirstEmptyIs(n, span, b);
    MoverIs(n, span, b);
    var disp := Displacements(g, t, b, span);
    assert NextHop(disp, span, span) == Mover(g, t, b, span) == 2;
    assert Reaches(disp, span, 2);
  }

  /** Inserting (k, v) is one hop from y to x and one write at y. */
  ghost predicate HopAndWrite(g: Geometry, t: seq<Entry>, k: Key, v: Value, x: nat, y: nat) {
    && Valid(g, t) && g.Ok() && |t| == g.slots && CanInsert(g, t, k) && x < g.slots && y < g.slots
    && Inserted(g, t, k, v) == Place(g, HopStep(g, t, x, y), y, k, v)
    && InsertSlots(g, t, k) == [x, y]
  }

  lemma InsertedIs(n: nat, span: nat, b: nat)
    requires Sizes(n, span, b)
    ensures HopAndWrite(G(n, span, b), T(n, span, b), span + 1, 0, Wrap(n, b + span), Wrap(n, b + 2))
  {
    hide Inv, HopStep, Displacements, Place, T, G, CanReach, FirstEmpty, Mover;
    var g, t := G(n, span, b), T(n, span, b);
    StartValid(n, span, b);
    ValidShape(g, t);
    GeometryIs(n, span, b);
    Reaching(n, span, b);
    FirstEmptyIs(n, span, b);
    MoverIs(n, span, b);
    OneHop(g, t, span + 1, 0, b, span, 2);
  }

  lemma GeometryIs(n: nat, span: nat, b: nat)
    requires Sizes(n, span, b)
    ensures G(n, span, b).slots == n && G(n, span, b).span == span
  {}

  /** A chain of one hop. */
  lemma OneHop(g: Geometry, t: seq<Entry>, k: Key, v: Value, b: nat, e: nat, q: nat)
    requires Valid(g, t) && g.Ok() && |t| == g.slots && CanInsert(g, t, k) && b == g.home(k)
    requires e == FirstEmpty(g, t, b, 0, g.slots) && g.span <= e < g.slots && Mover(g, t, b, e) == q < g.span
    ensures Inserted(g, t, k, v) == Place(g, HopStep(g, t, Slot(g, b, e), Slot(g, b, q)), Slot(g, b, q), k, v)
    ensures InsertSlots(g, t, k) == [Slot(g, b, e), Slot(g, b, q)]
  {
    hide Inv, HopStep, Displacements, Place, FirstEmpty, Mover;
    var x, y := Slot(g, b, e), Slot(g, b, q);
    StartHopping(g, t, k);
    HopOne(g, t, b, e);
    assert HopAll(g, t, b, e) == (HopStep(g, t, x, y), q);
    assert HopSlots(g, HopStep(g, t, x, y), b, q) == [y];
    assert HopSlots(g, t, b, e) == [x] + [y];
  }

  /** What matters of the leaf after the insert. */
  lemma InsertedShape(n: nat, span: nat, b: nat)
    requires Sizes(n, span, b)
    ensures var g, t := G(n, span, b), T(n, span, b);
            var c, x, y := Wrap(n, b + 1), Wrap(n, b + span), Wrap(n, b + 2);
            var r := Place(g, HopStep(g, t, x, y), y, span + 1, 0);
            && |r| == n && c != x && c != y && x != y
            && t[c] == Entry(2, 0, {1}) && r[c] == Entry(2, 0, {span - 1}) && r[y].key == span + 1 && t[x].key == 0
  {
    hide T;
    var g, t := G(n, span, b), T(n, span, b);
    var c, x, y := Wrap(n, b + 1), Wrap(n, b + span), Wrap(n, b + 2);
    assert t[y].key == 3 && t[c] == Entry(2, 0, {1}) && t[x].key == 0;
    assert g.home(3) == c && g.home(span + 1) == b && b != c;
    var u := HopStep(g, t, x, y);
    assert Dist(n, c, y) == 1 && Dist(n, c, x) == span - 1;
    assert u[c].bits == {1} - {1} + {span - 1} == {span - 1};
  }

  // ---- which lines come from where ----

  /** All lines below `limit` except those from lo up to hi. */
  function OldLines(limit: nat, lo: nat, hi: nat): (s: set<nat>)
    ensures forall l: nat :: l in s <==> l < limit && (l < lo || l >= hi)
  {
    set l | l in LinesBelow(limit) && (l < lo || l >= hi)
  }

  function Last(L: Layout, i: nat): nat
    requires L.Ok()
  {
    LineOf(EntryStart(L, i) + L.entry - 1)
  }

  function Head(L: Layout, i: nat): nat
    requires L.Ok()
  {
    LineOf(EntryStart(L, i))
  }

  lemma LinesOf(L: Layout, i: nat, q: nat)
    requires L.Ok() && q < L.entry
    ensures Head(L, i) <= LineOf(EntryStart(L, i) + q) <= Last(L, i)
  {
    hide EntryStart, LineOf;
    LineMonotone(EntryStart(L, i), EntryStart(L, i) + q);
    LineMonotone(EntryStart(L, i) + q, EntryStart(L, i) + L.entry - 1);
  }

  lemma AllNew(L: Layout, limit: nat, lo: nat, hi: nat, i: nat)
    requires L.Ok() && lo <= Head(L, i) && Last(L, i) < hi
    ensures Uncut(L, OldLines(limit, lo, hi), i) && !InFirst(OldLines(limit, lo, hi), EntryStart(L, i), 0)
  {
    hide EntryStart, LineOf, Head, Last, OldLines;
    forall q | 0 <= q < L.entry ensures !InFirst(OldLines(limit, lo, hi), EntryStart(L, i), q) {
      LinesOf(L, i, q);
    }
    assert !InFirst(OldLines(limit, lo, hi), EntryStart(L, i), 0);
  }

  lemma AllOld(L: Layout, limit: nat, lo: nat, hi: nat, i: nat)
    requires L.Ok() && Last(L, i) < limit && (hi <= Head(L, i) || hi <= lo)
    ensures Uncut(L, OldLines(limit, lo, hi), i) && InFirst(OldLines(limit, lo, hi), EntryStart(L, i), 0)
  {
    hide EntryStart, LineOf, Head, Last, OldLines;
    forall q | 0 <= q < L.entry ensures InFirst(OldLines(limit, lo, hi), EntryStart(L, i), q) {
      LinesOf(L, i, q);
    }
    assert InFirst(OldLines(limit, lo, hi), EntryStart(L, i), 0);
  }

  /** Above every line of n entries. */
  function Limit(L: Layout, n: nat): nat
    requires L.Ok()
  {
    LineOf(Offset(L, n)) + 1
  }

  lemma BelowLimit(L: Layout, n: nat, i: nat)
    requires L.Ok() && i < n
    ensures Head(L, i) <= Last(L, i) < Limit(L, n)
  {
    hide EntryStart, LineOf, Offset;
    LinesOf(L, i, 0);
    EntryInRange(L, i, n, i);
    LineMonotone(EntryStart(L, i) + L.entry - 1, Offset(L, n));
  }

  lemma LinesAscend(L: Layout, i: nat, j: nat)
    requires L.Ok() && i < j
    ensures Last(L, i) <= Head(L, j)
  {
    hide EntryStart, LineOf;
    StartsAscend(L, i, j);
    LineMonotone(EntryStart(L, i) + L.entry - 1, EntryStart(L, j));
  }

  /** The line that starts between the bytes of c's bitmap. */
  function Cut(L: Layout, c: nat): nat
    requires L.Ok()
  {
    LineOf(EntryStart(L, c) + 2)
  }

  /** The first read: old up to the first byte of c's bitmap and at the end of the neighbourhood, new in between. */
  function First(L: Layout, n: nat, span: nat, c: nat): set<nat>
    requires L.Ok() && c < n && 2 <= span <= n
  {
    OldLines(Limit(L, n), Cut(L, c), if c + span <= n then Head(L, c + span - 1) else Limit(L, n))
  }

  /** The second read, from the start of the leaf: new at first if the slot after c is in it, and old. */
  function Second(L: Layout, n: nat, span: nat, c: nat): set<nat>
    requires L.Ok() && c < n && 2 <= span <= n
  {
    OldLines(Limit(L, n), 0, if c + 1 < n then 0 else Head(L, span - 2))
  }

  /** In the first read, c's bitmap is cut, the slot after c is new and the end of the neighbourhood old. */
  lemma FirstSides(L: Layout, n: nat, span: nat, c: nat)
    requires L.Ok() && 4 <= L.entry && c < n && 10 <= span < n && AtRisk(L, n, span, c)
    ensures InFirst(First(L, n, span, c), EntryStart(L, c), 1) && !InFirst(First(L, n, span, c), EntryStart(L, c), 2)
    ensures c + 1 < n ==> Uncut(L, First(L, n, span, c), c + 1) && !InFirst(First(L, n, span, c), EntryStart(L, c + 1), 0)
    ensures c + span <= n ==>
              Uncut(L, First(L, n, span, c), c + span - 1) && InFirst(First(L, n, span, c), EntryStart(L, c + span - 1), 0)
  {
    hide EntryStart, LineOf, Offset, OldLines, Uncut, Limit, Boundary;
    var o, hi := EntryStart(L, c), if c + span <= n then Head(L, c + span - 1) else Limit(L, n);
    LineMonotone(o + 1, o + 2);
    LinesOf(L, c, 1);
    LinesOf(L, c, 2);
    BelowLimit(L, n, c);
    if c + 1 < n {
      LinesAscend(L, c, c + 1);
      BelowLimit(L, n, c + 1);
      AllNew(L, Limit(L, n), Cut(L, c), hi, c + 1);
    }
    if c + span <= n {
      BelowLimit(L, n, c + span - 1);
      AllOld(L, Limit(L, n), Cut(L, c), hi, c + span - 1);
    }
  }

  /** In the second read, the end of the neighbourhood is old, and the slot after c new if it is read there. */
  lemma SecondSides(L: Layout, n: nat, span: nat, c: nat)
    requires L.Ok() && c < n && 10 <= span < n && AtRisk(L, n, span, c) && c + span > n
    ensures var x := c + span - 1 - n;
            Uncut(L, Second(L, n, span, c), x) && InFirst(Second(L, n, span, c), EntryStart(L, x), 0)
    ensures c + 1 == n ==> Uncut(L, Second(L, n, span, c), 0) && !InFirst(Second(L, n, span, c), EntryStart(L, 0), 0)
  {
    hide EntryStart, LineOf, Offset, OldLines, Uncut, Limit, Boundary;
    var x, hi := c + span - 1 - n, if c + 1 < n then 0 else Head(L, span - 2);
    BelowLimit(L, n, x);
    AllOld(L, Limit(L, n), 0, hi, x);
    if c + 1 == n {
      AllNew(L, Limit(L, n), 0, hi, 0);
    }
  }

  // ---- the search ----

  /** A layout at risk, with keys long enough to tell a neighbourhood apart. */
  ghost predicate Stage(L: Layout, f: Shape, n: nat, c: nat) {
    && L.Ok() && f.Ok() && L.entry == f.Size() && f.keyLen >= 1
    && 10 <= f.span < n && c < n && AtRisk(L, n, f.span, c)
  }

  function Before(n: nat, c: nat): (b: nat)
    requires c < n
    ensures b < n && Wrap(n, b + 1) == c
  {
    if c == 0 then n - 1 else c - 1
  }

  function Zeros(n: nat): (z: seq<Byte>)
    ensures |z| == n && forall i :: 0 <= i < n ==> z[i] == 0
  {
    seq(n, (i: nat) => 0)
  }

  lemma PowAtLeast(n: nat)
    ensures KeyArithmetic.Pow(n) >= 1 && (n >= 1 ==> KeyArithmetic.Pow(n) >= 256)
  {}

  lemma InSetting(L: Layout, f: Shape, n: nat, b: nat)
    requires L.Ok() && f.Ok() && L.entry == f.Size() && f.keyLen >= 1 && Sizes(n, f.span, b)
    ensures Setting(L, f, G(n, f.span, b), Zeros(L.meta), Zeros(n), T(n, f.span, b), f.span + 1, 0)
    ensures NodeVersionsAre(Zeros(L.meta), Zeros(n), 0)
  {
    hide Inv, CanInsert, KeyArithmetic.Pow, T;
    StartValid(n, f.span, b);
    Reaching(n, f.span, b);
    PowAtLeast(f.keyLen);
    PowAtLeast(f.valLen);
    forall i | 0 <= i < n ensures Fits(f, T(n, f.span, b)[i]) {
      BitsSmall(f.span, Dist(n, b, i));
    }
  }

  /** Neither bit is in the byte it is read from. */
  lemma BitsLost(span: nat)
    requires 10 <= span <= 16
    ensures OffsetsOf(span, BitmapByte(span, {1}, 0), BitmapByte(span, {span - 1}, 1)) == {}
  {
    hide BitmapPart, BitAt;
    var lo, hi := BitmapByte(span, {1}, 0), BitmapByte(span, {span - 1}, 1);
    forall d | 0 <= d < span ensures !OffsetBit(span, lo, hi, d) {
      var p := span - 1 - d;
      if p < 8 { PartBit(span, {1}, 0, 8, p); } else { PartBit(span, {span - 1}, 8, 8, p - 8); }
    }
  }

  lemma BitmapBytes(f: Shape, version: Byte, e: Entry)
    ensures Bytes(f, version, e)[1] == BitmapByte(f.span, e.bits, 0) && Bytes(f, version, e)[2] == BitmapByte(f.span, e.bits, 1)
  {}

  lemma SeenTorn(f: Shape, version: Byte, a: Entry, b: Entry, from0: set<nat>, o: nat)
    requires f.Ok() && 10 <= f.span && a == Entry(2, 0, {1}) && b == Entry(2, 0, {f.span - 1}) && Fits(f, a) && Fits(f, b)
    requires InFirst(from0, o, 1) && !InFirst(from0, o, 2)
    ensures EntryOf(f, Seen(f, version, a, version, b, from0, o)) == Entry(2, 0, {})
  {
    hide Bytes, Fits, OffsetsOf, BitmapByte, InFirst, KeyArithmetic.Value;
    SeenUnbumped(f, version, a, b, from0, o);
    BitmapBytes(f, version, a);
    BitmapBytes(f, version, b);
    BitsLost(f.span);
  }

  /** The reader's records: what it has read, and nothing elsewhere. */
  lemma MakeRecords(L: Layout, f: Shape, n: nat, x: seq<Byte>, l: nat, r: nat, x': seq<Byte>, r': nat) returns (records: seq<Entry>)
    requires L.Ok() && L.entry == f.Size() && l < r <= n && r' <= l && ReadsRange(L, x, l, r) && (r' > 0 ==> ReadsRange(L, x', 0, r'))
    ensures |records| == n && Holds(L, f, records, x, l, r) && (r' > 0 ==> Holds(L, f, records, x', 0, r'))
  {
    hide ReadsRange, EntryRead, EntryStart, Offset;
    forall i | l <= i < r ensures Offset(L, l) <= EntryStart(L, i) && EntryStart(L, i) + L.entry <= Offset(L, r) {
      EntryInRange(L, l, r, i);
    }
    forall i | 0 <= i < r' ensures Offset(L, 0) <= EntryStart(L, i) && EntryStart(L, i) + L.entry <= Offset(L, r') {
      EntryInRange(L, 0, r', i);
    }
    records := seq(n, (i: nat) requires i < n =>
      if l <= i < r then EntryRead(L, f, x, l, r, i) else if i < r' then EntryRead(L, f, x', 0, r', i) else NULL_ENTRY);
  }

  /** Both reads are accepted. */
  lemma ReadsAccepted(L: Layout, f: Shape, g: Geometry, m: seq<Byte>, vers: seq<Byte>, t: seq<Entry>, k: Key, v: Value,
                      x: seq<Byte>, x': seq<Byte>, n: nat, c: nat)
    requires Stage(L, f, n, c) && |t| == n && NodeVersionsAre(m, vers, 0)
    requires TornLeaf(L, f, g, m, vers, t, k, v, x, First(L, n, f.span, c))
    requires TornLeaf(L, f, g, m, vers, t, k, v, x', Second(L, n, f.span, c))
    requires Valid(g, t) && CanInsert(g, t, k) && InsertSlots(g, t, k) == [Wrap(n, c + f.span - 1), Wrap(n, c + 1)]
    ensures ReadsRange(L, x, c, if c + f.span <= n then c + f.span else n)
    ensures c + f.span > n ==> ReadsRange(L, x', 0, c + f.span - n)
  {
    hide Inv, CanInsert, InsertSlots, TornLeaf, ReadsRange, NodeVersionsAre, First, Second, Uncut, AtRisk, InFirst, EntryStart;
    FirstSides(L, n, f.span, c);
    MixAccepted(L, f, g, m, vers, t, k, v, x, First(L, n, f.span, c), c, if c + f.span <= n then c + f.span else n, 0);
    if c + f.span > n {
      SecondSides(L, n, f.span, c);
      MixAccepted(L, f, g, m, vers, t, k, v, x', Second(L, n, f.span, c), 0, c + f.span - n, 0);
    }
  }

  /** Inserting (k, v) fills slot x and ends with k in slot y, visiting no others. */
  ghost predicate VisitsTwo(g: Geometry, t: seq<Entry>, k: Key, v: Value, x: nat, y: nat) {
    && Valid(g, t) && CanInsert(g, t, k) && |t| == g.slots && x < g.slots && y < g.slots
    && InsertSlots(g, t, k) == [x, y] && t[x].key == 0 && Inserted(g, t, k, v)[y].key == k
  }

  /** The insert hops a key from the slot after c to the end of c's neighbourhood, and moves the bit for it at c. */
  ghost predicate HopsOver(g: Geometry, t: seq<Entry>, k: Key, v: Value, c: nat) {
    && 2 <= g.span < g.slots && c < g.slots
    && VisitsTwo(g, t, k, v, Wrap(g.slots, c + g.span - 1), Wrap(g.slots, c + 1))
    && t[c] == Entry(2, 0, {1}) && Inserted(g, t, k, v)[c] == Entry(2, 0, {g.span - 1})
  }

  /** A search for a key of home c around such an insert, with lines as in `First` and `Second`. */
  ghost predicate Cast(L: Layout, f: Shape, s: Search, n: nat, c: nat) {
    && Stage(L, f, n, c) && Reads(L, f, s) && Torn2(L, f, s) && HopsOver(s.g, s.t, s.k, s.v, c)
    && s.g.slots == n == |s.records| == |s.vers| && s.g.span == f.span && s.g.home(s.key) == c
    && s.from0 == First(L, n, f.span, c) && s.from0' == Second(L, n, f.span, c)
  }

  /** What the reader holds at c, at the slot after c and at the end of the neighbourhood. */
  lemma ThreeRead(L: Layout, f: Shape, s: Search, n: nat, c: nat)
    requires Cast(L, f, s, n, c)
    ensures s.records[c] == Entry(2, 0, {})
    ensures s.records[Wrap(n, c + 1)] == Inserted(s.g, s.t, s.k, s.v)[Wrap(n, c + 1)]
    ensures s.records[Wrap(n, c + f.span - 1)] == s.t[Wrap(n, c + f.span - 1)]
  {
    hide Inv, CanInsert, Inserted, InsertSlots, TornLeaf, ReadsRange, EntryRead, First, Second, Uncut, AtRisk, InFirst,
      EntryStart, Offset, Absent, Seen, EntryOf, After;
    var t', end := Inserted(s.g, s.t, s.k, s.v), if c + f.span <= n then c + f.span else n;
    FirstSides(L, n, f.span, c);
    TornAtHome(L, f, s, n, c);
    if c + 1 < n {
      BumpedSide(L, f, s.g, s.m, s.vers, s.t, s.k, s.v, s.x, s.from0, c, end, c + 1);
    }
    if c + f.span <= n {
      BumpedSide(L, f, s.g, s.m, s.vers, s.t, s.k, s.v, s.x, s.from0, c, end, c + f.span - 1);
    } else {
      SecondSides(L, n, f.span, c);
      BumpedSide(L, f, s.g, s.m, s.vers, s.t, s.k, s.v, s.x', s.from0', 0, c + f.span - n, c + f.span - 1 - n);
      if c + 1 == n {
        BumpedSide(L, f, s.g, s.m, s.vers, s.t, s.k, s.v, s.x', s.from0', 0, c + f.span - n, 0);
      }
    }
  }

  lemma TornAtHome(L: Layout, f: Shape, s: Search, n: nat, c: nat)
    requires Cast(L, f, s, n, c) && c !in InsertSlots(s.g, s.t, s.k)
    requires InFirst(s.from0, EntryStart(L, c), 1) && !InFirst(s.from0, EntryStart(L, c), 2)
    ensures s.records[c] == Entry(2, 0, {})
  {
    hide Inv, CanInsert, Inserted, InsertSlots, ReadsRange, EntryRead, AtRisk, InFirst, EntryStart, Offset, Absent, Seen,
      EntryOf, After, LeafBytes, LineMix, Fits;
    var end := if c + f.span <= n then c + f.span else n;
    ReadSeen(L, f, s.g, s.m, s.vers, s.t, s.k, s.v, s.x, s.from0, c, end, c);
    InsertedFits(L, f, s.g, s.m, s.vers, s.t, s.k, s.v, c);
    AfterAt(s.g, s.vers, s.t, s.k, c);
    SeenTorn(f, s.vers[c], s.t[c], Inserted(s.g, s.t, s.k, s.v)[c], s.from0, EntryStart(L, c));
  }

  /** The slot q after b holds key q + 1. */
  predicate OwnKey(records: seq<Entry>, n: nat, b: nat, q: nat)
    requires b < n && q < n && |records| == n
  {
    records[Wrap(n, b + q)].key == q + 1
  }

  /** Nobody in the neighbourhood of c has home c, in a table that differs from the leaf as the records do. */
  lemma NobodyHome(n: nat, span: nat, b: nat, records: seq<Entry>)
    requires Sizes(n, span, b) && |records| == n
    requires var c, x, y := Wrap(n, b + 1), Wrap(n, b + span), Wrap(n, b + 2);
             && records[c] == Entry(2, 0, {}) && records[y].key == span + 1 && records[x].key == 0
             && forall q :: 3 <= q < span ==> OwnKey(records, n, b, q)
    ensures NothingFound(G(n, span, b), records, 3) && G(n, span, b).home(3) == Wrap(n, b + 1)
  {
    var g, c := G(n, span, b), Wrap(n, b + 1);
    forall d | 0 <= d < span ensures records[Slot(g, c, d)].key != 3 && !HopBit(g, records, n, c, d) {
      var i := Wrap(n, b + 1 + d);
      assert Slot(g, c, d) == i;
      assert 3 <= d + 1 < span ==> OwnKey(records, n, b, d + 1);
    }
    assert HomeBits(g, records, n, c) == {};
  }

  /** The other slots of the neighbourhood are read with the keys they have. */
  lemma OthersRead(L: Layout, f: Shape, s: Search, i: nat)
    requires Reads(L, f, s) && Torn2(L, f, s) && Valid(s.g, s.t) && CanInsert(s.g, s.t, s.k)
    requires |s.t| == |s.records| == s.g.slots && i < s.g.slots && Dist(s.g.slots, s.g.home(s.key), i) < s.g.span
    requires i !in InsertSlots(s.g, s.t, s.k)
    ensures s.records[i].key == s.t[i].key
  {
    hide Inv, CanInsert, Inserted, InsertSlots, TornLeaf, Holds, EntryStart, BothBytesDiffer, Boundary, Absent;
    SlotRead(L, f, s, i);
    InsertSlotsCover(s.g, s.t, s.k, s.v, i);
  }

  lemma TheInsert(n: nat, span: nat, c: nat)
    requires 10 <= span <= 16 && span < n && c < n
    ensures HopsOver(G(n, span, Before(n, c)), T(n, span, Before(n, c)), span + 1, 0, c)
  {
    hide Inv, HopStep, Place, T, G, Inserted, InsertSlots, CanInsert;
    var b := Before(n, c);
    GeometryIs(n, span, b);
    InsertedIs(n, span, b);
    InsertedShape(n, span, b);
  }

  /** The search is about the leaf and the insert above. */
  ghost predicate Staged(L: Layout, f: Shape, s: Search, n: nat, c: nat) {
    && Cast(L, f, s, n, c) && f.span <= 16
    && s.g == G(n, f.span, Before(n, c)) && s.t == T(n, f.span, Before(n, c)) && s.k == f.span + 1 && s.v == 0 && s.key == 3
  }

  lemma OwnKeys(L: Layout, f: Shape, s: Search, n: nat, c: nat, q: nat)
    requires Staged(L, f, s, n, c) && 3 <= q < f.span && |s.records| == n
    ensures OwnKey(s.records, n, Before(n, c), q)
  {
    hide Inv, CanInsert, Inserted, InsertSlots, Holds, AtRisk, First, Second, TornLeaf, G, T;
    GeometryIs(n, f.span, Before(n, c));
    OthersRead(L, f, s, Wrap(n, Before(n, c) + q));
    KeysOfT(n, f.span, Before(n, c), q);
  }

  lemma Missing(L: Layout, f: Shape, s: Search, n: nat, c: nat)
    requires Staged(L, f, s, n, c)
    ensures Misses(L, f, s)
  {
    hide Inv, CanInsert, Inserted, InsertSlots, Holds, AtRisk, First, Second, TornLeaf, NothingFound, G, T, OwnKey;
    var b := Before(n, c);
    TheInsert(n, f.span, c);
    ThreeRead(L, f, s, n, c);
    forall q | 3 <= q < f.span ensures OwnKey(s.records, n, b, q) {
      OwnKeys(L, f, s, n, c, q);
    }
    NobodyHome(n, f.span, b, s.records);
    KeysOfT(n, f.span, b, 2);
  }

  lemma KeysOfT(n: nat, span: nat, b: nat, q: nat)
    requires Sizes(n, span, b) && q < span
    ensures Wrap(n, b + q) < n && T(n, span, b)[Wrap(n, b + q)].key == q + 1
  {}

  /** In every layout at risk some search misses a stored key. */
  lemma StoredKeyMissed(L: Layout, f: Shape, n: nat, c: nat) returns (s: Search)
    requires Stage(L, f, n, c)
    ensures Misses(L, f, s) && s.g.slots == n && s.g.span == f.span
  {
    hide Inv, CanInsert, Inserted, InsertSlots, Holds, AtRisk, First, Second, ReadsRange, LeafBytes, After, Torn, LineMix,
      Encode, T, Offset, Setting;
    var span, b := f.span, Before(n, c);
    var g, t, k, m, vers := G(n, span, b), T(n, span, b), span + 1, Zeros(L.meta), Zeros(n);
    InSetting(L, f, n, b);
    TheInsert(n, span, c);
    LeavesAlike(L, f, g, m, vers, t, k, 0);
    var d0, d1 := LeafBytes(L, f, m, vers, t), LeafBytes(L, f, m, After(g, vers, t, k), Inserted(g, t, k, 0));
    var x, x' := Torn(L, d0, d1, First(L, n, span, c)), Torn(L, d0, d1, Second(L, n, span, c));
    ReadsAccepted(L, f, g, m, vers, t, k, 0, x, x', n, c);
    GeometryOk(n, span, b);
    var records := MakeRecords(L, f, n, x, c, if c + span <= n then c + span else n, x', if c + span <= n then 0 else c + span - n);
    s := Search(g, m, vers, t, k, 0, x, First(L, n, span, c), x', Second(L, n, span, c), records, 3);
    Missing(L, f, s, n, c);
  }

  /** Exactly the unsafe layouts have a search that misses a stored key.  Keys must be long enough for a neighbourhood's
      worth of them to exist, which a single byte already is. */
  lemma MissesIff(L: Layout, f: Shape, n: nat)
    requires L.Ok() && f.Ok() && L.entry == f.Size() && f.keyLen >= 1 && f.span <= n
    ensures (exists s: Search :: Misses(L, f, s) && s.g.slots == n && s.g.span == f.span) <==> Unsafe(L, f, n)
  {
    hide Misses, AtRisk, Separate;
    if Unsafe(L, f, n) {
      var c :| 0 <= c < n && AtRisk(L, n, f.span, c);
      var s := StoredKeyMissed(L, f, n, c);
    } else {
      forall s: Search | Misses(L, f, s) && s.g.slots == n && s.g.span == f.span ensures false {
        NotMissed(L, f, s);
      }
    }
  }

  lemma NotMissed(L: Layout, f: Shape, s: Search)
    requires L.Ok() && Misses(L, f, s)
    ensures Unsafe(L, f, s.g.slots)
  {
    hide Inv, Holds, NothingFound, Absent, Unsafe, TornLeaf;
    if !Unsafe(L, f, s.g.slots) {
      NeverMisses(L, f, s);
    }
  }

  // ---- a layout of the source's shape ----

  /** Groups of as many entries as a neighbourhood, after ten bytes of metadata, with 8-byte keys: with sixteen slots in a
      neighbourhood and values of 41 bytes, a leaf of 17 slots is unsafe. */
  lemma SourceShapeUnsafe() returns (s: Search)
    ensures Misses(Layout(10, 52, 16), Shape(16, 8, 41), s) && s.g.slots == 17 && s.g.span == 16
  {
    var L, f := Layout(10, 52, 16), Shape(16, 8, 41);
    assert EntryStart(L, 1) == 62 && EntryStart(L, 2) == 114 && EntryStart(L, 16) == 852;
    assert Boundary(64) && LineOf(165) == 2 && LineOf(852) == 13;
    s := StoredKeyMissed(L, f, 17, 1);
  }
}
