/** Searches from the bytes up: what a reader may conclude, and the layouts for which it never misses a stored key. */
module SearchLayout {
  import opened HopTable
  import opened HopInsert
  import opened HopRead
  import opened VersionLayout
  import opened VersionCodec
  import opened VersionDecode
  import opened TornEntries
  import opened EntryBytes
  import opened RawRead

  // ---- one search ----

  /** The records a reader holds come from entries l to r of an accepted read. */
  ghost predicate Holds(L: Layout, f: Shape, records: seq<Entry>, x: seq<Byte>, l: nat, r: nat) {
    && ReadsRange(L, x, l, r) && L.entry == f.Size() && r <= |records|
    && forall i :: l <= i < r ==>
         && Offset(L, l) <= EntryStart(L, i) && EntryStart(L, i) + L.entry <= Offset(L, r)
         && records[i] == EntryRead(L, f, x, l, r, i)
  }

  /** A search for `key` around one insert of (k, v) into the leaf t.  `x` is the read of the neighbourhood, or of the part
      of it up to the end of the leaf; then `x'` is the read of the rest. */
  datatype Search = Search(g: Geometry, m: seq<Byte>, vers: seq<Byte>, t: seq<Entry>, k: Key, v: Value,
                           x: seq<Byte>, from0: set<nat>, x': seq<Byte>, from0': set<nat>, records: seq<Entry>, key: Key)

  ghost predicate Torn2(L: Layout, f: Shape, s: Search) {
    && TornLeaf(L, f, s.g, s.m, s.vers, s.t, s.k, s.v, s.x, s.from0)
    && TornLeaf(L, f, s.g, s.m, s.vers, s.t, s.k, s.v, s.x', s.from0')
  }

  /** Both reads are mixes of lines from before and after the insert, and pass the version checks. */
  ghost predicate Reads(L: Layout, f: Shape, s: Search) {
    && Torn2(L, f, s) && s.g.Ok() && |s.records| == |s.t| == s.g.slots && s.key != 0
    && var c, n := s.g.home(s.key), s.g.slots;
       if c + s.g.span <= n then Holds(L, f, s.records, s.x, c, c + s.g.span)
       else Holds(L, f, s.records, s.x, c, n) && Holds(L, f, s.records, s.x', 0, c + s.g.span - n)
  }

  /** The scan ends without the key, and the bitmap it recomputed is the stored one. */
  predicate NothingFound(g: Geometry, records: seq<Entry>, key: Key)
    requires |records| == g.slots && g.home(key) < g.slots && g.span <= g.slots
  {
    !InNeighbourhood(g, records, key) && records[g.home(key)].bits == HomeBits(g, records, g.slots, g.home(key))
  }

  /** The search ends with nothing found although the key was stored before the insert, and so after it. */
  ghost predicate Misses(L: Layout, f: Shape, s: Search) {
    Reads(L, f, s) && NothingFound(s.g, s.records, s.key) && !Absent(s.t, s.key)
  }

  // ---- the layouts at risk ----

  /** The slots right after home c and at the end of its neighbourhood are read separately, or share no line. */
  predicate Separate(L: Layout, n: nat, span: nat, c: nat)
    requires L.Ok() && 2 <= span <= n && c < n
  {
    || c + 1 < n <= c + span - 1
    || LineOf(EntryStart(L, Wrap(n, c + 1)) + L.entry - 1) < LineOf(EntryStart(L, Wrap(n, c + span - 1)))
  }

  /** A line starts between the bytes of c's bitmap, and a key can be read neither where it was nor where it went. */
  predicate AtRisk(L: Layout, n: nat, span: nat, c: nat)
    requires L.Ok() && 2 <= span <= n && c < n
  {
    Boundary(EntryStart(L, c) + 2) && Separate(L, n, span, c)
  }

  /** With fewer than ten slots in a neighbourhood, no hop changes both bytes of a bitmap without bumping its entry; with a
      neighbourhood of the whole leaf, nothing hops. */
  ghost predicate Unsafe(L: Layout, f: Shape, n: nat)
    requires L.Ok()
  {
    10 <= f.span < n && exists c :: 0 <= c < n && AtRisk(L, n, f.span, c)
  }

  // ---- what is read of one slot ----

  lemma Shape2(L: Layout, f: Shape, s: Search)
    requires Torn2(L, f, s)
    ensures Setting(L, f, s.g, s.m, s.vers, s.t, s.k, s.v) && s.g.Ok() && |s.t| == s.g.slots
    ensures Valid(s.g, s.t) && CanInsert(s.g, s.t, s.k) && s.k != 0 && Absent(s.t, s.k) && s.g.span == f.span && L.Ok()
    ensures |Inserted(s.g, s.t, s.k, s.v)| == s.g.slots
  {}

  lemma SlotRange(L: Layout, f: Shape, s: Search, i: nat)
    requires Reads(L, f, s) && i < s.g.slots && Dist(s.g.slots, s.g.home(s.key), i) < s.g.span
    ensures var c, n := s.g.home(s.key), s.g.slots;
            || (c <= i < n && i < c + s.g.span && Holds(L, f, s.records, s.x, c, if c + s.g.span <= n then c + s.g.span else n))
            || (c + s.g.span > n && i < c + s.g.span - n && Holds(L, f, s.records, s.x', 0, c + s.g.span - n))
  {}

  /** Keys and values are always read from one of the images, and so are bitmaps unless they are torn. */
  lemma SlotRead(L: Layout, f: Shape, s: Search, i: nat)
    requires Reads(L, f, s) && i < s.g.slots && Dist(s.g.slots, s.g.home(s.key), i) < s.g.span
    ensures |Inserted(s.g, s.t, s.k, s.v)| == |s.t| == s.g.slots == |s.records| && L.Ok()
    ensures var e, a, b := s.records[i], s.t[i], Inserted(s.g, s.t, s.k, s.v)[i];
            || e == a || e == b
            || (e.key == a.key == b.key && e.value == a.value == b.value && i !in InsertSlots(s.g, s.t, s.k)
                && BothBytesDiffer(f.span, a.bits, b.bits) && Boundary(EntryStart(L, i) + 2))
  {
    hide Inv, CanInsert, Inserted, InsertSlots, TornLeaf, ReadsRange, EntryRead, EntryStart, Offset, BothBytesDiffer, Boundary;
    Shape2(L, f, s);
    SlotRange(L, f, s, i);
    var c, n := s.g.home(s.key), s.g.slots;
    if c <= i < n && i < c + s.g.span {
      EntryNotTorn(L, f, s.g, s.m, s.vers, s.t, s.k, s.v, s.x, s.from0, c, if c + s.g.span <= n then c + s.g.span else n, i);
    } else {
      EntryNotTorn(L, f, s.g, s.m, s.vers, s.t, s.k, s.v, s.x', s.from0', 0, c + s.g.span - n, i);
    }
  }

  /** A value that is returned was stored, whatever the layout. */
  lemma ValueStored(L: Layout, f: Shape, s: Search, d: nat)
    requires Reads(L, f, s) && d < s.g.span && s.records[Slot(s.g, s.g.home(s.key), d)].key == s.key
    ensures (s.key, s.records[Slot(s.g, s.g.home(s.key), d)].value) in Contents(s.t, s.g.slots) + {(s.k, s.v)}
  {
    hide Inv, CanInsert, Inserted, InsertSlots, TornLeaf, Holds, EntryStart, BothBytesDiffer, Boundary, Absent;
    Shape2(L, f, s);
    var i := Slot(s.g, s.g.home(s.key), d);
    var t' := Inserted(s.g, s.t, s.k, s.v);
    SlotRead(L, f, s, i);
    InsertedCorrect(s.g, s.t, s.k, s.v);
    if s.records[i] == t'[i] {
      ContentsKeys(t', s.g.slots, i);
    } else {
      ContentsKeys(s.t, s.g.slots, i);
    }
  }

  // ---- a bitmap can only be torn by a long hop ----

  /** When the neighbourhood is the whole leaf, no key moves. */
  lemma NothingHops(g: Geometry, t: seq<Entry>, k: Key, v: Value, c: nat)
    requires Valid(g, t) && CanInsert(g, t, k) && k != 0 && c < g.slots == g.span && c != g.home(k)
    ensures View(g, Inserted(g, t, k, v), g.slots, c) == View(g, t, g.slots, c)
  {
    hide Inv, View, Place;
    StartHopping(g, t, k);
    var b := g.home(k);
    var e := FirstEmpty(g, t, b, 0, g.slots);
    assert HopAll(g, t, b, e) == (t, e);
    ViewOfEmpty(g, t, Slot(g, b, e), c);
    ViewOfPlace(g, t, Slot(g, b, e), k, v, c);
  }

  /** An offset is in the bitmaps of home c exactly when the views have a key there. */
  lemma BitsAndViews(g: Geometry, t: seq<Entry>, c: nat, d: nat)
    requires Valid(g, t) && c < g.slots && d < g.span <= g.slots
    ensures |t| == g.slots && (d in t[c].bits <==> View(g, t, g.slots, c)[Slot(g, c, d)] != 0)
  {
    hide View, Inv, HomeBits;
    ValidShape(g, t);
    ValidBits(g, t, c);
    BitInView(g, t, c, Slot(g, c, d));
  }

  /** Key and view at a slot where the view changes: the insert visited it. */
  lemma ViewChange(g: Geometry, t: seq<Entry>, k: Key, v: Value, c: nat, i: nat)
    requires Valid(g, t) && CanInsert(g, t, k) && c < g.slots && i < g.slots && |t| == g.slots
    requires View(g, t, g.slots, c)[i] != View(g, Inserted(g, t, k, v), g.slots, c)[i]
    ensures i in InsertSlots(g, t, k)
  {
    hide Inv, CanInsert, Inserted, InsertSlots;
    InsertSlotsCover(g, t, k, v, i);
  }

  /** Both bytes of the bitmap of c changed, and c was not visited: a key of home c moved, from one slot after c to another,
      in a neighbourhood of at least ten slots, smaller than the leaf. */
  lemma TornByMove(g: Geometry, t: seq<Entry>, k: Key, v: Value, c: nat) returns (h: nat, j: nat)
    requires Valid(g, t) && CanInsert(g, t, k) && k != 0 && c < g.slots && c !in InsertSlots(g, t, k)
    requires |t| == g.slots && g.span <= g.slots && g.span <= 16
    requires BothBytesDiffer(g.span, t[c].bits, Inserted(g, t, k, v)[c].bits) && Valid(g, Inserted(g, t, k, v))
    ensures 10 <= g.span < g.slots && h < g.slots && j < g.slots && h != j && h in InsertSlots(g, t, k) && j in InsertSlots(g, t, k)
    ensures 1 <= Dist(g.slots, c, h) < g.span && 1 <= Dist(g.slots, c, j) < g.span
  {
    hide Inv, CanInsert, Inserted, InsertSlots, View, BitmapByte, OneMove;
    var t' := Inserted(g, t, k, v);
    var d := ByteDiffers(g.span, t[c].bits, t'[c].bits, 0);
    var d' := ByteDiffers(g.span, t[c].bits, t'[c].bits, 1);
    BitsAndViews(g, t, c, d);
    BitsAndViews(g, t, c, d');
    BitsAndViews(g, t', c, d);
    BitsAndViews(g, t', c, d');
    h, j := Slot(g, c, d), Slot(g, c, d');
    ViewChange(g, t, k, v, c, h);
    ViewChange(g, t, k, v, c, j);
    assert Slot(g, c, 0) == c;
    if g.span == g.slots || c == g.home(k) { TwoChanges(g, t, k, v, c, h, j); }
  }

  /** The view of a home changes in two slots only by a hop. */
  lemma TwoChanges(g: Geometry, t: seq<Entry>, k: Key, v: Value, c: nat, h: nat, j: nat)
    requires Valid(g, t) && CanInsert(g, t, k) && k != 0 && c < g.slots && h < g.slots && j < g.slots && h != j && |t| == g.slots
    requires View(g, t, g.slots, c)[h] != View(g, Inserted(g, t, k, v), g.slots, c)[h]
    requires View(g, t, g.slots, c)[j] != View(g, Inserted(g, t, k, v), g.slots, c)[j]
    ensures g.span != g.slots && c != g.home(k)
  {
    hide Inv, CanInsert, Inserted, View;
    if c == g.home(k) {
      InsertedView(g, t, k, v, c);
    } else if g.span == g.slots {
      NothingHops(g, t, k, v, c);
    }
  }

  // ---- torn, but found ----

  lemma StartsAscend(L: Layout, i: nat, j: nat)
    requires L.Ok() && i < j
    ensures EntryStart(L, i) + L.entry - 1 < EntryStart(L, j)
  {
    hide Offset, EntryStart;
    EntryInRange(L, i, i + 1, i);
    EntryInRange(L, i + 1, j + 1, j);
    EntryEnds(L, i);
  }

  /** When the ends of a neighbourhood share a line, all in between lies on it. */
  lemma SharedLine(L: Layout, y: nat, x: nat, lo: nat, hi: nat)
    requires L.Ok() && y <= lo < hi <= x && LineOf(EntryStart(L, y) + L.entry - 1) >= LineOf(EntryStart(L, x))
    ensures LineOf(EntryStart(L, lo) + L.entry - 1) == LineOf(EntryStart(L, hi))
  {
    hide EntryStart, LineOf;
    if y < lo { StartsAscend(L, y, lo); }
    StartsAscend(L, lo, hi);
    if hi < x { StartsAscend(L, hi, x); }
    LineMonotone(EntryStart(L, y) + L.entry - 1, EntryStart(L, lo) + L.entry - 1);
    LineMonotone(EntryStart(L, lo) + L.entry - 1, EntryStart(L, hi));
    LineMonotone(EntryStart(L, hi), EntryStart(L, x));
  }

  /** Two visited slots of one range on a common line are read from the same image. */
  lemma SameImage(L: Layout, f: Shape, s: Search, x: seq<Byte>, from0: set<nat>, l: nat, r: nat, lo: nat, hi: nat)
    requires TornLeaf(L, f, s.g, s.m, s.vers, s.t, s.k, s.v, x, from0) && Holds(L, f, s.records, x, l, r)
    requires l <= lo < r <= |s.t| && l <= hi < r && LineOf(EntryStart(L, lo) + L.entry - 1) == LineOf(EntryStart(L, hi))
    requires lo in InsertSlots(s.g, s.t, s.k) && hi in InsertSlots(s.g, s.t, s.k)
    ensures var t' := Inserted(s.g, s.t, s.k, s.v);
            || (s.records[lo] == s.t[lo] && s.records[hi] == s.t[hi])
            || (s.records[lo] == t'[lo] && s.records[hi] == t'[hi])
  {
    hide Inv, CanInsert, Inserted, InsertSlots, ReadsRange, EntryRead, EntryStart, Offset, LineOf, TornLeaf, Absent;
    SettingShape(L, f, s.g, s.m, s.vers, s.t, s.k, s.v, x, from0);
    BumpedSide(L, f, s.g, s.m, s.vers, s.t, s.k, s.v, x, from0, l, r, lo);
    BumpedSide(L, f, s.g, s.m, s.vers, s.t, s.k, s.v, x, from0, l, r, hi);
    assert InFirst(from0, EntryStart(L, lo), L.entry - 1) <==> InFirst(from0, EntryStart(L, lo), 0);
    assert InFirst(from0, EntryStart(L, lo), L.entry - 1) <==> InFirst(from0, EntryStart(L, hi), 0);
  }

  /** Where the layout is not at risk, two visited slots after home c are read from the same image. */
  lemma SameSide(L: Layout, f: Shape, s: Search, h: nat, j: nat)
    requires Reads(L, f, s) && h < s.g.slots && j < s.g.slots && h != j
    requires var c, n := s.g.home(s.key), s.g.slots;
             && 10 <= f.span < n && c < n && !Separate(L, n, f.span, c)
             && 1 <= Dist(n, c, h) < f.span && 1 <= Dist(n, c, j) < f.span
    requires Torn2(L, f, s) && Valid(s.g, s.t) && CanInsert(s.g, s.t, s.k) && s.g.span == f.span
    requires h in InsertSlots(s.g, s.t, s.k) && j in InsertSlots(s.g, s.t, s.k)
    ensures |s.t| == |s.records| == s.g.slots
    ensures var t' := Inserted(s.g, s.t, s.k, s.v);
            || (s.records[h] == s.t[h] && s.records[j] == s.t[j])
            || (s.records[h] == t'[h] && s.records[j] == t'[j])
  {
    hide Inv, CanInsert, Inserted, InsertSlots, TornLeaf, Holds, EntryStart, LineOf, Absent;
    var c, n := s.g.home(s.key), s.g.slots;
    Shape2(L, f, s);
    var lo, hi := if h < j then h else j, if h < j then j else h;
    if c + f.span <= n {
      SharedLine(L, c + 1, c + f.span - 1, lo, hi);
      SameImage(L, f, s, s.x, s.from0, c, c + f.span, lo, hi);
    } else {
      assert c == n - 1 && Wrap(n, c + 1) == 0 && Wrap(n, c + f.span - 1) == f.span - 2;
      SharedLine(L, 0, f.span - 2, lo, hi);
      SameImage(L, f, s, s.x', s.from0', 0, c + f.span - n, lo, hi);
    }
  }

  // ---- nothing found means absent ----

  /** A key of home c that changes its slot leaves the one and takes the other alone. */
  lemma MovedKey(g: Geometry, t: seq<Entry>, k: Key, v: Value, c: nat, h: nat, j: nat)
    requires Valid(g, t) && CanInsert(g, t, k) && k != 0 && c < g.slots && h < g.slots && j < g.slots && h != j && |t| == g.slots
    requires var u, w := View(g, t, g.slots, c), View(g, Inserted(g, t, k, v), g.slots, c);
             u[h] != w[h] && u[h] != 0 && u[j] != w[j]
    ensures View(g, Inserted(g, t, k, v), g.slots, c)[h] == 0 && View(g, t, g.slots, c)[j] == 0
  {
    hide Inv, CanInsert, Inserted, View;
    InsertedView(g, t, k, v, c);
  }

  /** A stored key that the reader does not see has moved: it is read neither where it was nor where it went. */
  lemma UnseenMoved(L: Layout, f: Shape, s: Search) returns (h: nat, j: nat)
    requires Misses(L, f, s) && s.g.Ok() && |s.t| == s.g.slots == |s.records| && |Inserted(s.g, s.t, s.k, s.v)| == s.g.slots
    ensures var t', c := Inserted(s.g, s.t, s.k, s.v), s.g.home(s.key);
            && h < s.g.slots && j < s.g.slots && h != j && Dist(s.g.slots, c, h) < s.g.span && Dist(s.g.slots, c, j) < s.g.span
            && s.t[h].key == s.key == t'[j].key && s.t[j].key != s.key && t'[h].key != s.key
            && s.records[h].key == t'[h].key && s.records[j].key == s.t[j].key
            && s.records[h].key != s.key && s.records[j].key != s.key
  {
    hide Inv, CanInsert, Inserted, InsertSlots, Torn2, Holds, BothBytesDiffer, Boundary, Contents, HomeBits;
    Shape2(L, f, s);
    var t', c := Inserted(s.g, s.t, s.k, s.v), s.g.home(s.key);
    h :| 0 <= h < |s.t| && s.t[h].key == s.key;
    InsertedCorrect(s.g, s.t, s.k, s.v);
    ContentsKeys(s.t, s.g.slots, h);
    j := KeyAt(t', s.g.slots, s.key, s.t[h].value);
    StoredInNeighbourhood(s.g, s.t, s.key, h);
    StoredInNeighbourhood(s.g, t', s.key, j);
    SlotRead(L, f, s, h);
    SlotRead(L, f, s, j);
    if s.t[j].key == s.key { OneSlot(s.g, s.t, h, j); }
    if t'[h].key == s.key { OneSlot(s.g, t', h, j); }
  }

  lemma KeyAt(t: seq<Entry>, hole: nat, key: Key, value: Value) returns (j: nat)
    requires (key, value) in Contents(t, hole)
    ensures j < |t| && t[j].key == key
  {
    j :| 0 <= j < |t| && Used(t, hole, j) && (t[j].key, t[j].value) == (key, value);
  }

  lemma OneSlot(g: Geometry, t: seq<Entry>, i: nat, j: nat)
    requires Valid(g, t) && i < |t| && j < |t| && t[i].key == t[j].key != 0
    ensures i == j
  {
    assert Used(t, g.slots, i) && Used(t, g.slots, j);
  }

  /** A key's slot in the view of its home. */
  lemma ViewAt(g: Geometry, t: seq<Entry>, c: nat, i: nat)
    requires i < |t| == g.slots && c < g.slots
    ensures View(g, t, g.slots, c)[i] == if t[i].key != 0 && g.home(t[i].key) == c then t[i].key else 0
  {}

  lemma NotRecomputed(g: Geometry, records: seq<Entry>, c: nat, i: nat)
    requires |records| == g.slots && g.span <= g.slots && c < g.slots && i < g.slots && (records[i].key == 0 || g.home(records[i].key) != c)
    ensures Dist(g.slots, c, i) !in HomeBits(g, records, g.slots, c)
  {}

  /** So its home's bitmap is torn. */
  lemma UnseenTorn(L: Layout, f: Shape, s: Search, h: nat, j: nat)
    requires Misses(L, f, s) && s.g.Ok() && |s.t| == s.g.slots == |s.records| && |Inserted(s.g, s.t, s.k, s.v)| == s.g.slots
    requires var t', c := Inserted(s.g, s.t, s.k, s.v), s.g.home(s.key);
             && h < s.g.slots && j < s.g.slots && h != j && Dist(s.g.slots, c, h) < s.g.span && Dist(s.g.slots, c, j) < s.g.span
             && s.t[h].key == s.key == t'[j].key && s.t[j].key != s.key && t'[h].key != s.key
             && s.records[h].key == t'[h].key && s.records[j].key == s.t[j].key
    ensures Valid(s.g, s.t) && CanInsert(s.g, s.t, s.k) && L.Ok()
    ensures var c := s.g.home(s.key);
            && h in InsertSlots(s.g, s.t, s.k) && j in InsertSlots(s.g, s.t, s.k) && c !in InsertSlots(s.g, s.t, s.k)
            && BothBytesDiffer(f.span, s.t[c].bits, Inserted(s.g, s.t, s.k, s.v)[c].bits) && Boundary(EntryStart(L, c) + 2)
  {
    hide Inv, CanInsert, Inserted, InsertSlots, Torn2, Holds, BothBytesDiffer, Boundary, Contents, HomeBits, View, InNeighbourhood, EntryStart, Absent;
    Shape2(L, f, s);
    var t', c := Inserted(s.g, s.t, s.k, s.v), s.g.home(s.key);
    ViewAt(s.g, s.t, c, h);
    ViewAt(s.g, s.t, c, j);
    ViewAt(s.g, t', c, h);
    ViewAt(s.g, t', c, j);
    ViewChange(s.g, s.t, s.k, s.v, c, h);
    ViewChange(s.g, s.t, s.k, s.v, c, j);
    MovedKey(s.g, s.t, s.k, s.v, c, h, j);
    NotRecomputed(s.g, s.records, c, h);
    NotRecomputed(s.g, s.records, c, j);
    InsertedCorrect(s.g, s.t, s.k, s.v);
    BitsAndViews(s.g, s.t, c, Dist(s.g.slots, c, h));
    BitsAndViews(s.g, t', c, Dist(s.g.slots, c, j));
    assert Dist(s.g.slots, c, c) == 0;
    SlotRead(L, f, s, c);
  }

  /** In every layout that is not unsafe: when the search ends with nothing found, the key was absent before the insert. */
  lemma NeverMisses(L: Layout, f: Shape, s: Search)
    requires Reads(L, f, s) && L.Ok() && !Unsafe(L, f, s.g.slots) && |s.records| == s.g.slots && s.g.Ok()
    requires NothingFound(s.g, s.records, s.key)
    ensures Absent(s.t, s.key)
  {
    hide Inv, CanInsert, Inserted, InsertSlots, Torn2, Holds, BothBytesDiffer, Boundary, HomeBits, InNeighbourhood, EntryStart,
      Absent, Separate, NothingFound;
    Shape2(L, f, s);
    if !Absent(s.t, s.key) {
      var h, j := UnseenMoved(L, f, s);
      UnseenTorn(L, f, s, h, j);
      var c := s.g.home(s.key);
      InsertedCorrect(s.g, s.t, s.k, s.v);
      var _, _ := TornByMove(s.g, s.t, s.k, s.v, c);
      assert !AtRisk(L, s.g.slots, f.span, c);
      SameSide(L, f, s, h, j);
    }
  }
}
