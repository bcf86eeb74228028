/** Lock-free reads from the bytes up: what a reader decodes from the lines it happened to get, around one insert. */
module RawRead {
  import opened Arith
  import opened HopTable
  import opened HopInsert
  import opened HopRead
  import opened LeafInsert
  import opened VersionLayout
  import opened VersionCodec
  import opened VersionDecode
  import opened MetadataScatter
  import opened TornEntries
  import opened EntryBytes

  // ---- where entries lie ----

  /** Decoded offset of entry i itself, after the metadata if it starts a group. */
  function EntryStart(L: Layout, i: nat): nat
    requires L.Ok()
  {
    Offset(L, i) + if i % L.perGroup == 0 then L.meta else 0
  }

  lemma EntryEnds(L: Layout, i: nat)
    requires L.Ok()
    ensures Offset(L, i) <= EntryStart(L, i) && EntryStart(L, i) + L.entry == Offset(L, i + 1)
  {
    hide Offset;
    OffsetStep(L, i);
  }

  /** Every byte of an entry has the entry as its object. */
  lemma EntryObject(L: Layout, i: nat, q: nat)
    requires L.Ok() && q < L.entry
    ensures ObjStart(L, EntryStart(L, i) + q) == EntryStart(L, i)
  {
    hide ObjStart;
    var c, r := OffsetParts(L, i);
    assert i % L.perGroup == r by { DivisionUnique(L.perGroup, i, c, r); }
    var o := L.meta + r * L.entry + q;
    EntryInGroup(L, r, q);
    ObjStartShift(L, c, o);
  }

  lemma EntryInGroup(L: Layout, r: nat, q: nat)
    requires L.Ok() && r < L.perGroup && q < L.entry
    ensures 0 <= L.meta + r * L.entry + q < L.Group() && StartInGroup(L, L.meta + r * L.entry + q) == L.meta + r * L.entry
  {
    DivisionUnique(L.entry, r * L.entry + q, r, q);
    MulMono(r + 1, L.perGroup, L.entry);
    MulAdd(r, 1, L.entry);
    assert L.perGroup * L.entry == L.entry * L.perGroup;
  }

  /** And no other byte has. */
  lemma EntryBytesOnly(L: Layout, i: nat, j: nat)
    requires L.Ok() && ObjStart(L, j) == EntryStart(L, i)
    ensures EntryStart(L, i) <= j < EntryStart(L, i) + L.entry
  {
    hide ObjStart, EntryStart, Offset;
    ObjStartBelow(L, j);
    EntryEnds(L, i);
    if j >= Offset(L, i + 1) {
      OffsetIsStart(L, i + 1);
      ObjStartMonotone(L, Offset(L, i + 1), j);
    }
  }

  lemma ScatterEntry(L: Layout, m: seq<Byte>, es: seq<seq<Byte>>, i: nat, q: nat)
    requires Sized(L, m, es) && i < |es| && q < L.entry
    ensures EntryStart(L, i) + q < |Scatter(L, m, es, 0, |es|)|
    ensures Scatter(L, m, es, 0, |es|)[EntryStart(L, i) + q] == es[i][q]
  {
    hide Offset, Scatter;
    ScatterSlice(L, m, es, i, i + 1);
    EntryEnds(L, i);
    ScatterSingle(L, m, es, i);
    var at := EntryStart(L, i) - Offset(L, i) + q;
    SliceAt(Scatter(L, m, es, 0, |es|), Offset(L, i), Offset(L, i + 1), at);
  }

  lemma SliceAt(d: seq<Byte>, s: nat, e: nat, q: nat)
    requires s <= e <= |d| && q < e - s
    ensures d[s..e][q] == d[s + q]
  {}

  lemma ScatterSingle(L: Layout, m: seq<Byte>, es: seq<seq<Byte>>, i: nat)
    requires L.Ok() && i < |es|
    ensures Scatter(L, m, es, i, i + 1) == (if i % L.perGroup == 0 then m else []) + es[i]
  {
    assert Scatter(L, m, es, i, i) == [];
  }

  // ---- the two images around an insert ----

  function EntriesOf(f: Shape, vers: seq<Byte>, t: seq<Entry>): (es: seq<seq<Byte>>)
    requires |vers| == |t|
    ensures |es| == |t|
  {
    seq(|t|, (i: nat) requires i < |t| => Bytes(f, vers[i], t[i]))
  }

  /** The leaf as bytes, metadata copies and all, before version bytes are put between them. */
  function LeafBytes(L: Layout, f: Shape, m: seq<Byte>, vers: seq<Byte>, t: seq<Entry>): seq<Byte>
    requires L.Ok() && |vers| == |t|
  {
    Scatter(L, m, EntriesOf(f, vers, t), 0, |t|)
  }

  /** `encode_segment_versions` bumps one listed entry after the other. */
  function Bumped(vers: seq<Byte>, slots: seq<nat>): (r: seq<Byte>)
    requires forall j :: 0 <= j < |slots| ==> slots[j] < |vers|
    ensures |r| == |vers|
    decreases |slots|
  {
    if slots == [] then vers else Bumped(vers[slots[0] := BumpEntryVersion(vers[slots[0]])], slots[1..])
  }

  /** As no slot is listed twice, exactly the listed versions change, and node versions stay. */
  lemma {:induction false} BumpedAt(vers: seq<Byte>, slots: seq<nat>, i: nat)
    requires forall j :: 0 <= j < |slots| ==> slots[j] < |vers|
    requires forall a, b :: 0 <= a < b < |slots| ==> slots[a] != slots[b]
    requires i < |vers|
    ensures Bumped(vers, slots)[i] == if i in slots then BumpEntryVersion(vers[i]) else vers[i]
    decreases |slots|
  {
    if slots != [] {
      var rest := slots[1..];
      assert slots == [slots[0]] + rest;
      BumpedAt(vers[slots[0] := BumpEntryVersion(vers[slots[0]])], rest, i);
    }
  }

  /** A leaf, an absent key that can be inserted, and how they are laid out. */
  ghost predicate Setting(L: Layout, f: Shape, g: Geometry, m: seq<Byte>, vers: seq<Byte>, t: seq<Entry>, k: Key, v: Value) {
    && L.Ok() && f.Ok() && f.span == g.span && L.entry == f.Size() && |m| == L.meta && |vers| == |t|
    && Valid(g, t) && CanInsert(g, t, k) && k != 0 && Absent(t, k) && Fits(f, Entry(k, v, {}))
    && forall i :: 0 <= i < |t| ==> Fits(f, t[i])
  }

  ghost function After(g: Geometry, vers: seq<Byte>, t: seq<Entry>, k: Key): (r: seq<Byte>)
    requires Valid(g, t) && CanInsert(g, t, k) && |vers| == |t|
    ensures |r| == |vers|
  {
    InsertSlotsInRange(g, t, k);
    Bumped(vers, InsertSlots(g, t, k))
  }

  lemma AfterAt(g: Geometry, vers: seq<Byte>, t: seq<Entry>, k: Key, i: nat)
    requires Valid(g, t) && CanInsert(g, t, k) && |vers| == |t| && i < |t|
    ensures After(g, vers, t, k)[i] == if i in InsertSlots(g, t, k) then BumpEntryVersion(vers[i]) else vers[i]
  {
    hide Inv, CanInsert, InsertSlots;
    ValidShape(g, t);
    InsertSlotsInRange(g, t, k);
    InsertSlotsDistinct(g, t, k);
    BumpedAt(vers, InsertSlots(g, t, k), i);
  }

  /** Entries after the insert fit their fields too. */
  lemma InsertedFits(L: Layout, f: Shape, g: Geometry, m: seq<Byte>, vers: seq<Byte>, t: seq<Entry>, k: Key, v: Value, i: nat)
    requires Setting(L, f, g, m, vers, t, k, v) && i < |t|
    ensures Fits(f, Inserted(g, t, k, v)[i])
  {
    hide Inv, CanInsert, Inserted, InsertSlots, Absent, Contents;
    var r := Inserted(g, t, k, v);
    ValidShape(g, t);
    InsertedCorrect(g, t, k, v);
    BitsInSpan(g, r, i);
    InsertSlotsCover(g, t, k, v, i);
    if i in InsertSlots(g, t, k) {
      HoppedTaken(g, t, k, v, i);
      ContentsKeys(r, g.slots, i);
      ContentsFrom(t, g.slots, r[i].key, r[i].value, k, v);
    }
  }

  lemma BitsInSpan(g: Geometry, t: seq<Entry>, i: nat)
    requires Valid(g, t) && i < |t|
    ensures forall d :: d in t[i].bits ==> d < g.span
  {
    ValidBits(g, t, i);
  }

  lemma ContentsFrom(t: seq<Entry>, hole: nat, key: Key, value: Value, k: Key, v: Value)
    requires (key, value) in Contents(t, hole) + {(k, v)}
    ensures (key == k && value == v) || exists j :: 0 <= j < |t| && t[j].key == key && t[j].value == value
  {}

  lemma HoppedTaken(g: Geometry, t: seq<Entry>, k: Key, v: Value, i: nat)
    requires Valid(g, t) && CanInsert(g, t, k) && k != 0 && i < g.slots && i in InsertSlots(g, t, k)
    ensures Inserted(g, t, k, v)[i].key != 0
  {
    hide Inv, CanInsert, Inserted, InsertSlots;
    ValidShape(g, t);
    InsertSlotsCover(g, t, k, v, i);
    InsertFills(g, t, k, v);
    assert i == Slot(g, g.home(k), Dist(g.slots, g.home(k), i));
  }

  lemma LeafByte(L: Layout, f: Shape, m: seq<Byte>, vers: seq<Byte>, t: seq<Entry>, i: nat, q: nat)
    requires L.Ok() && L.entry == f.Size() && |m| == L.meta && |vers| == |t| && i < |t| && q < L.entry
    ensures EntryStart(L, i) + q < |LeafBytes(L, f, m, vers, t)|
    ensures LeafBytes(L, f, m, vers, t)[EntryStart(L, i) + q] == Bytes(f, vers[i], t[i])[q]
  {
    hide Bytes, EntryStart;
    ScatterEntry(L, m, EntriesOf(f, vers, t), i, q);
  }

  lemma LeafLength(L: Layout, f: Shape, m: seq<Byte>, vers: seq<Byte>, t: seq<Entry>)
    requires L.Ok() && L.entry == f.Size() && |m| == L.meta && |vers| == |t|
    ensures |LeafBytes(L, f, m, vers, t)| == Offset(L, |t|)
  {
    hide Offset, Scatter, Bytes;
    ScatterLength(L, m, EntriesOf(f, vers, t), 0, |t|);
    OffsetZero(L);
  }

  // ---- what the reader makes of a range ----

  /** Entries l to r of what was read of the node. */
  ghost predicate ReadsRange(L: Layout, x: seq<Byte>, l: nat, r: nat) {
    && L.Ok() && Offset(L, l) < Offset(L, r) && Raw(Offset(L, l)) <= Raw(Offset(L, r)) <= |x|
    && ObjStart(L, Offset(L, l)) == Offset(L, l)
    && Accepted(L, x[Raw(Offset(L, l))..Raw(Offset(L, r))], Offset(L, l), Offset(L, r))
  }

  /** Entry i as decoded from an accepted range. */
  ghost function EntryRead(L: Layout, f: Shape, x: seq<Byte>, l: nat, r: nat, i: nat): Entry
    requires ReadsRange(L, x, l, r) && L.entry == f.Size()
    requires Offset(L, l) <= EntryStart(L, i) && EntryStart(L, i) + L.entry <= Offset(L, r)
  {
    var s, e := Offset(L, l), Offset(L, r);
    var d := Decoded(x[Raw(s)..Raw(e)], s, e);
    EntryOf(f, d[EntryStart(L, i) - s..EntryStart(L, i) - s + L.entry])
  }

  lemma EntryInRange(L: Layout, l: nat, r: nat, i: nat)
    requires L.Ok() && l <= i < r
    ensures Offset(L, l) <= EntryStart(L, i) && EntryStart(L, i) + L.entry <= Offset(L, r) && Offset(L, l) < Offset(L, r)
  {
    hide Offset, EntryStart;
    EntryEnds(L, i);
    LengthsAgree(L, l, i - l);
    LengthsAgree(L, i + 1, r - i - 1);
  }

  /** The two images around the insert, and a torn read of them. */
  ghost predicate TornLeaf(L: Layout, f: Shape, g: Geometry, m: seq<Byte>, vers: seq<Byte>, t: seq<Entry>, k: Key, v: Value,
                           x: seq<Byte>, from0: set<nat>) {
    && Setting(L, f, g, m, vers, t, k, v)
    && var d0, d1 := LeafBytes(L, f, m, vers, t), LeafBytes(L, f, m, After(g, vers, t, k), Inserted(g, t, k, v));
       |d0| == |d1| && LineMix(x, Encode(L, d0, 0, |d0|), Encode(L, d1, 0, |d1|), from0)
  }

  lemma LeavesAlike(L: Layout, f: Shape, g: Geometry, m: seq<Byte>, vers: seq<Byte>, t: seq<Entry>, k: Key, v: Value)
    requires Setting(L, f, g, m, vers, t, k, v)
    ensures var d0, d1 := LeafBytes(L, f, m, vers, t), LeafBytes(L, f, m, After(g, vers, t, k), Inserted(g, t, k, v));
            |d0| == |d1| == Offset(L, |t|)
  {
    hide Inv, CanInsert, Inserted, Offset, LeafBytes, After, Absent;
    LeafLength(L, f, m, vers, t);
    LeafLength(L, f, m, After(g, vers, t, k), Inserted(g, t, k, v));
  }

  /** Byte q of the entry at o is on a line read from the first image. */
  predicate InFirst(from0: set<nat>, o: nat, q: nat) {
    LineOf(o + q) in from0
  }

  /** What is read of an entry at o that is a, with version va, in one image and b, with version vb, in the other. */
  function Seen(f: Shape, va: Byte, a: Entry, vb: Byte, b: Entry, from0: set<nat>, o: nat): (y: seq<Byte>)
    ensures |y| == f.Size()
  {
    seq(f.Size(), (q: nat) requires q < f.Size() => if InFirst(from0, o, q) then Bytes(f, va, a)[q] else Bytes(f, vb, b)[q])
  }

  lemma RangeIsTorn(L: Layout, f: Shape, g: Geometry, m: seq<Byte>, vers: seq<Byte>, t: seq<Entry>, k: Key, v: Value,
                    x: seq<Byte>, from0: set<nat>, l: nat, r: nat, i: nat)
    requires TornLeaf(L, f, g, m, vers, t, k, v, x, from0) && ReadsRange(L, x, l, r) && l <= i < r <= |t|
    ensures Offset(L, l) <= EntryStart(L, i) && EntryStart(L, i) + L.entry <= Offset(L, r)
    ensures TornRange(L, LeafBytes(L, f, m, vers, t), LeafBytes(L, f, m, After(g, vers, t, k), Inserted(g, t, k, v)),
                      x, from0, Offset(L, l), Offset(L, r))
  {
    hide Inv, CanInsert, Inserted, Offset, LeafBytes, After, Absent, ObjStart, Raw, Encode, EntryStart, Accepted, LineMix, Fits;
    LeavesAlike(L, f, g, m, vers, t, k, v);
    EntryInRange(L, l, r, i);
    LengthsAgree(L, r, |t| - r);
  }

  /** Byte q of entry i as read. */
  lemma ByteSeen(L: Layout, f: Shape, g: Geometry, m: seq<Byte>, vers: seq<Byte>, t: seq<Entry>, k: Key, v: Value,
                 x: seq<Byte>, from0: set<nat>, s: nat, e: nat, i: nat, q: nat)
    requires TornLeaf(L, f, g, m, vers, t, k, v, x, from0) && i < |t| && q < L.entry
    requires TornRange(L, LeafBytes(L, f, m, vers, t), LeafBytes(L, f, m, After(g, vers, t, k), Inserted(g, t, k, v)),
                       x, from0, s, e)
    requires s <= EntryStart(L, i) && EntryStart(L, i) + L.entry <= e
    ensures Decoded(x[Raw(s)..Raw(e)], s, e)[EntryStart(L, i) + q - s]
         == Seen(f, vers[i], t[i], After(g, vers, t, k)[i], Inserted(g, t, k, v)[i], from0, EntryStart(L, i))[q]
  {
    hide Inv, CanInsert, Inserted, LeafBytes, After, Absent, ObjStart, Raw, Encode, EntryStart, Decoded, LineMix, LineOf,
      Bytes, Fits;
    LeafByte(L, f, m, vers, t, i, q);
    LeafByte(L, f, m, After(g, vers, t, k), Inserted(g, t, k, v), i, q);
    TornBytes(L, LeafBytes(L, f, m, vers, t), LeafBytes(L, f, m, After(g, vers, t, k), Inserted(g, t, k, v)), x, from0, s, e,
              EntryStart(L, i) + q);
  }

  lemma ReadSeen(L: Layout, f: Shape, g: Geometry, m: seq<Byte>, vers: seq<Byte>, t: seq<Entry>, k: Key, v: Value,
                 x: seq<Byte>, from0: set<nat>, l: nat, r: nat, i: nat)
    requires TornLeaf(L, f, g, m, vers, t, k, v, x, from0) && ReadsRange(L, x, l, r) && l <= i < r <= |t|
    ensures Offset(L, l) <= EntryStart(L, i) && EntryStart(L, i) + L.entry <= Offset(L, r)
    ensures EntryRead(L, f, x, l, r, i)
         == EntryOf(f, Seen(f, vers[i], t[i], After(g, vers, t, k)[i], Inserted(g, t, k, v)[i], from0, EntryStart(L, i)))
  {
    hide Inv, CanInsert, Inserted, LeafBytes, After, Absent, ObjStart, Raw, Encode, EntryStart, Decoded, LineMix, EntryOf,
      Seen, Offset, TornRange, Accepted, Fits;
    RangeIsTorn(L, f, g, m, vers, t, k, v, x, from0, l, r, i);
    RangeShape(L, LeafBytes(L, f, m, vers, t), LeafBytes(L, f, m, After(g, vers, t, k), Inserted(g, t, k, v)),
               x, from0, Offset(L, l), Offset(L, r));
    var s, e, o := Offset(L, l), Offset(L, r), EntryStart(L, i);
    var d := Decoded(x[Raw(s)..Raw(e)], s, e);
    var y := d[o - s..o - s + L.entry];
    var z := Seen(f, vers[i], t[i], After(g, vers, t, k)[i], Inserted(g, t, k, v)[i], from0, o);
    forall q | 0 <= q < L.entry ensures y[q] == z[q] {
      ByteSeen(L, f, g, m, vers, t, k, v, x, from0, s, e, i, q);
    }
    assert y == z;
  }

  /** The bytes of an entry in the images, by side. */
  lemma SeenOneSide(f: Shape, va: Byte, a: Entry, vb: Byte, b: Entry, from0: set<nat>, o: nat)
    requires f.Ok() && Fits(f, a) && Fits(f, b)
    requires forall q :: 0 <= q < f.Size() ==> (InFirst(from0, o, q) <==> InFirst(from0, o, 0))
    ensures EntryOf(f, Seen(f, va, a, vb, b, from0, o)) == if InFirst(from0, o, 0) then a else b
  {
    hide InFirst, Bytes, EntryOf, Fits;
    if InFirst(from0, o, 0) {
      assert Seen(f, va, a, vb, b, from0, o) == Bytes(f, va, a);
      EntryRoundTrip(f, va, a);
    } else {
      assert Seen(f, va, a, vb, b, from0, o) == Bytes(f, vb, b);
      EntryRoundTrip(f, vb, b);
    }
  }

  /** Both bytes of the bitmap differ. */
  predicate BothBytesDiffer(span: nat, a: set<nat>, b: set<nat>) {
    BitmapByte(span, a, 0) != BitmapByte(span, b, 0) && BitmapByte(span, a, 1) != BitmapByte(span, b, 1)
  }

  /** An entry that changed in its bitmap alone is read with its key and value, and with one of its bitmaps unless both
      bytes of the bitmap changed and a line starts between them. */
  lemma SeenUnbumped(f: Shape, va: Byte, a: Entry, b: Entry, from0: set<nat>, o: nat)
    requires f.Ok() && Fits(f, a) && Fits(f, b) && a.key == b.key && a.value == b.value
    ensures var e := EntryOf(f, Seen(f, va, a, va, b, from0, o));
            && e.key == a.key && e.value == a.value
            && (e == a || e == b || (BothBytesDiffer(f.span, a.bits, b.bits) && Boundary(o + 2)))
  {
    hide LineOf, Bytes, EntryOf, Fits, Boundary, BitmapByte;
    var y, ya, yb := Seen(f, va, a, va, b, from0, o), Bytes(f, va, a), Bytes(f, va, b);
    forall q | 0 <= q < f.Size() && ya[q] != yb[q]
      ensures (q == 1 && BitmapByte(f.span, a.bits, 0) != BitmapByte(f.span, b.bits, 0))
           || (q == 2 && BitmapByte(f.span, a.bits, 1) != BitmapByte(f.span, b.bits, 1))
    {
      BitmapDiffers(f, va, a, b, q);
    }
    EntryRoundTrip(f, va, a);
    EntryRoundTrip(f, va, b);
    assert y[3..] == ya[3..];
    SameTail(f, y, ya);
    if !Boundary(o + 2) { OneLineOf(o); }
    if y != ya && y != yb {
      assert y[1] != ya[1] || y[2] != ya[2];
      assert y[1] != yb[1] || y[2] != yb[2];
    }
  }

  /** Key and value are what lies behind the bitmap. */
  lemma SameTail(f: Shape, y: seq<Byte>, z: seq<Byte>)
    requires |y| == |z| == f.Size() && y[3..] == z[3..]
    ensures EntryOf(f, y).key == EntryOf(f, z).key && EntryOf(f, y).value == EntryOf(f, z).value
  {
    hide KeyArithmetic.Value;
    assert y[3..3 + f.keyLen] == y[3..][..f.keyLen] && z[3..3 + f.keyLen] == z[3..][..f.keyLen];
    assert y[3 + f.keyLen..] == y[3..][f.keyLen..] && z[3 + f.keyLen..] == z[3..][f.keyLen..];
  }

  lemma OneLineOf(o: nat)
    requires !Boundary(o + 2)
    ensures LineOf(o + 1) == LineOf(o + 2)
  {
    hide Lines, Boundary;
    LinesStep(o + 2);
  }

  // ---- the entries read ----

  lemma BumpedDiffers(L: Layout, f: Shape, g: Geometry, m: seq<Byte>, vers: seq<Byte>, t: seq<Entry>, k: Key, v: Value, i: nat)
    requires Setting(L, f, g, m, vers, t, k, v) && i < |t| && i in InsertSlots(g, t, k)
    ensures var d0, d1 := LeafBytes(L, f, m, vers, t), LeafBytes(L, f, m, After(g, vers, t, k), Inserted(g, t, k, v));
            EntryStart(L, i) < |d0| && EntryStart(L, i) < |d1| && d0[EntryStart(L, i)] != d1[EntryStart(L, i)]
  {
    hide Inv, CanInsert, Inserted, InsertSlots, ObjStart, EntryStart, LeafBytes, After, Absent;
    LeafByte(L, f, m, vers, t, i, 0);
    LeafByte(L, f, m, After(g, vers, t, k), Inserted(g, t, k, v), i, 0);
    AfterAt(g, vers, t, k, i);
  }

  /** A hopped entry is read whole, all its lines coming from the same image. */
  lemma BumpedSide(L: Layout, f: Shape, g: Geometry, m: seq<Byte>, vers: seq<Byte>, t: seq<Entry>, k: Key, v: Value,
                   x: seq<Byte>, from0: set<nat>, l: nat, r: nat, i: nat)
    requires TornLeaf(L, f, g, m, vers, t, k, v, x, from0) && ReadsRange(L, x, l, r) && l <= i < r <= |t|
    requires i in InsertSlots(g, t, k)
    ensures Offset(L, l) <= EntryStart(L, i) && EntryStart(L, i) + L.entry <= Offset(L, r)
    ensures forall q :: 0 <= q < L.entry ==> (InFirst(from0, EntryStart(L, i), q) <==> InFirst(from0, EntryStart(L, i), 0))
    ensures EntryRead(L, f, x, l, r, i) == if InFirst(from0, EntryStart(L, i), 0) then t[i] else Inserted(g, t, k, v)[i]
  {
    hide Inv, CanInsert, Inserted, InsertSlots, LeafBytes, After, Absent, ObjStart, Raw, Encode, EntryStart, Decoded, LineMix,
      EntryOf, Seen, Offset, LinesOk, NodeOk, LineOf, Fits;
    RangeIsTorn(L, f, g, m, vers, t, k, v, x, from0, l, r, i);
    var d0, d1 := LeafBytes(L, f, m, vers, t), LeafBytes(L, f, m, After(g, vers, t, k), Inserted(g, t, k, v));
    var s, e, o := Offset(L, l), Offset(L, r), EntryStart(L, i);
    BumpedDiffers(L, f, g, m, vers, t, k, v, i);
    forall q | 0 <= q < L.entry ensures InFirst(from0, o, q) <==> InFirst(from0, o, 0) {
      EntryObject(L, i, q);
      BumpedEntryNotTorn(L, d0, d1, x, from0, s, e, o, o + q);
    }
    ReadSeen(L, f, g, m, vers, t, k, v, x, from0, l, r, i);
    InsertedFits(L, f, g, m, vers, t, k, v, i);
    SeenOneSide(f, vers[i], t[i], After(g, vers, t, k)[i], Inserted(g, t, k, v)[i], from0, o);
  }

  /** Around one insert, an entry decoded from an accepted range is the entry before or the entry after; only the bitmap of
      an entry that was not hopped may be torn, if both its bytes changed and a line starts between them. */
  lemma EntryNotTorn(L: Layout, f: Shape, g: Geometry, m: seq<Byte>, vers: seq<Byte>, t: seq<Entry>, k: Key, v: Value,
                     x: seq<Byte>, from0: set<nat>, l: nat, r: nat, i: nat)
    requires TornLeaf(L, f, g, m, vers, t, k, v, x, from0) && ReadsRange(L, x, l, r) && l <= i < r <= |t|
    ensures Offset(L, l) <= EntryStart(L, i) && EntryStart(L, i) + L.entry <= Offset(L, r)
    ensures var e, a, b := EntryRead(L, f, x, l, r, i), t[i], Inserted(g, t, k, v)[i];
            || e == a || e == b
            || (e.key == a.key == b.key && e.value == a.value == b.value && i !in InsertSlots(g, t, k)
                && BothBytesDiffer(f.span, a.bits, b.bits) && Boundary(EntryStart(L, i) + 2))
  {
    hide Inv, CanInsert, Inserted, InsertSlots, After, Absent, EntryStart, EntryOf, EntryRead, Seen, Offset, TornLeaf, Fits,
      ReadsRange, BothBytesDiffer, Boundary, LineOf;
    SettingShape(L, f, g, m, vers, t, k, v, x, from0);
    ReadSeen(L, f, g, m, vers, t, k, v, x, from0, l, r, i);
    if i in InsertSlots(g, t, k) {
      BumpedSide(L, f, g, m, vers, t, k, v, x, from0, l, r, i);
    } else {
      InsertSlotsCover(g, t, k, v, i);
      InsertedFits(L, f, g, m, vers, t, k, v, i);
      AfterAt(g, vers, t, k, i);
      SeenUnbumped(f, vers[i], t[i], Inserted(g, t, k, v)[i], from0, EntryStart(L, i));
    }
  }

  lemma SettingShape(L: Layout, f: Shape, g: Geometry, m: seq<Byte>, vers: seq<Byte>, t: seq<Entry>, k: Key, v: Value,
                     x: seq<Byte>, from0: set<nat>)
    requires TornLeaf(L, f, g, m, vers, t, k, v, x, from0)
    ensures Setting(L, f, g, m, vers, t, k, v) && g.Ok() && |t| == g.slots == |Inserted(g, t, k, v)|
  {}

  // ---- reads that are accepted ----

  /** An object start is the metadata of a group or an entry. */
  lemma ObjectKinds(L: Layout, n: nat, o: nat) returns (i: nat)
    requires L.Ok() && o < Offset(L, n) && ObjStart(L, o) == o
    ensures i < n && (o == EntryStart(L, i) || (o == Offset(L, i) && i % L.perGroup == 0))
  {
    hide ObjStart, Offset, EntryStart;
    GroupPositive(L);
    ObjStartIs(L, o);
    var c, w := Decompose(L.Group(), o);
    i := GroupObject(L, c, w);
    if i >= n { LengthsAgree(L, n, i - n); EntryEnds(L, i); }
  }

  lemma GroupObject(L: Layout, c: nat, w: nat) returns (i: nat)
    requires L.Ok() && w < L.Group() && StartInGroup(L, w) == w
    ensures var o := c * L.Group() + w; o == EntryStart(L, i) || (o == Offset(L, i) && i % L.perGroup == 0)
  {
    hide EntryStart, Offset;
    if w < L.meta {
      i := c * L.perGroup;
      GroupEntry(L, c, 0);
    } else {
      var r := (w - L.meta) / L.entry;
      DivAtLeast(L.entry, w - L.meta, L.perGroup);
      assert L.perGroup * L.entry == L.entry * L.perGroup;
      i := c * L.perGroup + r;
      GroupEntry(L, c, r);
    }
  }

  lemma GroupEntry(L: Layout, c: nat, r: nat)
    requires L.Ok() && r < L.perGroup
    ensures c * L.perGroup + r >= 0 && (c * L.perGroup + r) % L.perGroup == r
    ensures EntryStart(L, c * L.perGroup + r) == c * L.Group() + L.meta + r * L.entry
    ensures r == 0 ==> Offset(L, c * L.perGroup) == c * L.Group()
  {
    DivisionUnique(L.perGroup, c * L.perGroup + r, c, r);
  }

  lemma MetadataByte(L: Layout, f: Shape, m: seq<Byte>, vers: seq<Byte>, t: seq<Entry>, i: nat)
    requires L.Ok() && L.entry == f.Size() && |m| == L.meta && |vers| == |t| && i < |t| && i % L.perGroup == 0
    ensures Offset(L, i) < |LeafBytes(L, f, m, vers, t)| && LeafBytes(L, f, m, vers, t)[Offset(L, i)] == m[0]
  {
    hide Offset, Scatter, Bytes;
    var es := EntriesOf(f, vers, t);
    ScatterSlice(L, m, es, i, i + 1);
    ScatterSingle(L, m, es, i);
    EntryEnds(L, i);
    SliceAt(Scatter(L, m, es, 0, |es|), Offset(L, i), Offset(L, i + 1), 0);
  }

  lemma HeadVersion(f: Shape, version: Byte, e: Entry)
    ensures |Bytes(f, version, e)| == f.Size() && f.Size() > 0 && Bytes(f, version, e)[0] == version
  {}

  /** All versions of a leaf show the node version u. */
  ghost predicate NodeVersionsAre(m: seq<Byte>, vers: seq<Byte>, u: int) {
    m != [] && NodeVersion(m[0]) == u && forall i :: 0 <= i < |vers| ==> NodeVersion(vers[i]) == u
  }

  lemma OneNodeVersion(L: Layout, f: Shape, m: seq<Byte>, vers: seq<Byte>, t: seq<Entry>, u: int)
    requires L.Ok() && L.entry == f.Size() && |m| == L.meta && |vers| == |t| && NodeVersionsAre(m, vers, u)
    ensures HasNodeVersion(L, LeafBytes(L, f, m, vers, t), u)
  {
    hide Offset, ObjStart, EntryStart, LeafBytes, Bytes, NodeVersion;
    var d := LeafBytes(L, f, m, vers, t);
    LeafLength(L, f, m, vers, t);
    forall o | 0 <= o < |d| && ObjStart(L, o) == o ensures NodeVersion(d[o]) == u {
      var i := ObjectKinds(L, |t|, o);
      if o == EntryStart(L, i) {
        LeafByte(L, f, m, vers, t, i, 0);
        HeadVersion(f, vers[i], t[i]);
      } else {
        MetadataByte(L, f, m, vers, t, i);
      }
    }
  }

  lemma AfterNodeVersions(g: Geometry, m: seq<Byte>, vers: seq<Byte>, t: seq<Entry>, k: Key, u: int)
    requires Valid(g, t) && CanInsert(g, t, k) && |vers| == |t| && NodeVersionsAre(m, vers, u)
    ensures NodeVersionsAre(m, After(g, vers, t, k), u)
  {
    hide Inv, CanInsert, After, InsertSlots;
    forall i | 0 <= i < |vers| ensures NodeVersion(After(g, vers, t, k)[i]) == u {
      AfterAt(g, vers, t, k, i);
    }
  }

  /** Only hopped entries have different versions in the two images. */
  lemma HeadsDiffer(L: Layout, f: Shape, g: Geometry, m: seq<Byte>, vers: seq<Byte>, t: seq<Entry>, k: Key, v: Value, o: nat)
    returns (i: nat)
    requires Setting(L, f, g, m, vers, t, k, v) && ObjStart(L, o) == o
    requires var d0, d1 := LeafBytes(L, f, m, vers, t), LeafBytes(L, f, m, After(g, vers, t, k), Inserted(g, t, k, v));
             o < |d0| == |d1| && d0[o] != d1[o]
    ensures i < |t| && i in InsertSlots(g, t, k) && o == EntryStart(L, i)
  {
    hide Inv, CanInsert, Inserted, InsertSlots, Offset, ObjStart, EntryStart, LeafBytes, Bytes, After, Absent;
    LeavesAlike(L, f, g, m, vers, t, k, v);
    var t', vers' := Inserted(g, t, k, v), After(g, vers, t, k);
    i := ObjectKinds(L, |t|, o);
    if o == EntryStart(L, i) {
      LeafByte(L, f, m, vers, t, i, 0);
      LeafByte(L, f, m, vers', t', i, 0);
      HeadVersion(f, vers[i], t[i]);
      HeadVersion(f, vers'[i], t'[i]);
      AfterAt(g, vers, t, k, i);
    } else {
      MetadataByte(L, f, m, vers, t, i);
      MetadataByte(L, f, m, vers', t', i);
    }
  }

  /** All lines of entry i come from the same image. */
  predicate Uncut(L: Layout, from0: set<nat>, i: nat)
    requires L.Ok()
  {
    forall q :: 0 <= q < L.entry ==> (InFirst(from0, EntryStart(L, i), q) <==> InFirst(from0, EntryStart(L, i), 0))
  }

  /** A range is accepted when none of its hopped entries is cut. */
  lemma MixAccepted(L: Layout, f: Shape, g: Geometry, m: seq<Byte>, vers: seq<Byte>, t: seq<Entry>, k: Key, v: Value,
                    x: seq<Byte>, from0: set<nat>, l: nat, r: nat, u: int)
    requires TornLeaf(L, f, g, m, vers, t, k, v, x, from0) && NodeVersionsAre(m, vers, u) && l < r <= |t|
    requires forall i :: l <= i < r && i in InsertSlots(g, t, k) ==> Uncut(L, from0, i)
    ensures ReadsRange(L, x, l, r)
  {
    hide Inv, CanInsert, Inserted, InsertSlots, Offset, ObjStart, EntryStart, LeafBytes, Bytes, After, Absent, LineMix, Encode,
      Raw, Accepted, SameVersion, HasNodeVersion, Boundary, NodeVersionsAre, Fits, Uncut;
    var vers', t' := After(g, vers, t, k), Inserted(g, t, k, v);
    var d0, d1 := LeafBytes(L, f, m, vers, t), LeafBytes(L, f, m, vers', t');
    var s, e := Offset(L, l), Offset(L, r);
    LeavesAlike(L, f, g, m, vers, t, k, v);
    EntryInRange(L, l, r, l);
    LengthsAgree(L, r, |t| - r);
    OffsetIsStart(L, l);
    RangeFits(L, d0, d1, x, from0, s, e);
    OneNodeVersion(L, f, m, vers, t, u);
    AfterNodeVersions(g, m, vers, t, k, u);
    OneNodeVersion(L, f, m, vers', t', u);
    forall h {:trigger Boundary(h)} | s <= h < e && Boundary(h) ensures SameVersion(L, d0, d1, from0, h) {
      VersionSame(L, f, g, m, vers, t, k, v, x, from0, l, r, h);
    }
    AcceptedIff(L, d0, d1, x, from0, s, e, u);
  }

  lemma VersionSame(L: Layout, f: Shape, g: Geometry, m: seq<Byte>, vers: seq<Byte>, t: seq<Entry>, k: Key, v: Value,
                    x: seq<Byte>, from0: set<nat>, l: nat, r: nat, h: nat)
    requires TornLeaf(L, f, g, m, vers, t, k, v, x, from0) && l < r <= |t| && Offset(L, l) <= h < Offset(L, r)
    requires forall i :: l <= i < r && i in InsertSlots(g, t, k) ==> Uncut(L, from0, i)
    ensures var d0, d1 := LeafBytes(L, f, m, vers, t), LeafBytes(L, f, m, After(g, vers, t, k), Inserted(g, t, k, v));
            h < |d0| == |d1| && SameVersion(L, d0, d1, from0, h)
  {
    hide Inv, CanInsert, Inserted, InsertSlots, Offset, ObjStart, EntryStart, LeafBytes, Bytes, After, Absent, LineMix, Encode,
      LineOf, Fits;
    var d0, d1 := LeafBytes(L, f, m, vers, t), LeafBytes(L, f, m, After(g, vers, t, k), Inserted(g, t, k, v));
    LeavesAlike(L, f, g, m, vers, t, k, v);
    LengthsAgree(L, r, |t| - r);
    ObjStartBelow(L, h);
    var o := ObjStart(L, h);
    if d0[o] != d1[o] {
      var i := HeadsDiffer(L, f, g, m, vers, t, k, v, o);
      EntryBytesOnly(L, i, h);
      OffsetIsStart(L, l);
      ObjStartMonotone(L, Offset(L, l), h);
      InsideRange(L, l, r, i, h);
      assert InFirst(from0, o, h - o) <==> InFirst(from0, o, 0);
    }
  }

  lemma InsideRange(L: Layout, l: nat, r: nat, i: nat, h: nat)
    requires L.Ok() && l < r && Offset(L, l) <= EntryStart(L, i) <= h < EntryStart(L, i) + L.entry && h < Offset(L, r)
    ensures l <= i < r
  {
    hide Offset, EntryStart;
    EntryEnds(L, i);
    if i < l { LengthsAgree(L, i + 1, l - i - 1); }
    if r <= i { LengthsAgree(L, r, i - r); }
  }
}
