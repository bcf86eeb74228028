/** A whole leaf insert under the vacancy-aware lock: read only the window the lock word allows, insert there, keep the
    lock word's metadata right, and split when there is no room. */
module LeafInsert {
  import opened Arith
  import opened HopTable
  import opened HopInsert
  import opened HopSplit
  import opened Vacancy

  /** A clear bit is never optimistic: one of its slots is empty. */
  ghost predicate NotOptimistic(g: Geometry, t: seq<Entry>, bits: nat, full: set<nat>) {
    && 1 <= bits <= g.slots && |t| == g.slots
    && forall b :: 0 <= b < bits && b !in full ==> exists i :: 0 <= i < |t| && t[i].key == 0 && Bucket(g.slots, bits, i) == b
  }

  /** A leaf together with the metadata in its lock word. */
  ghost predicate LeafInv(g: Geometry, t: seq<Entry>, bits: nat, full: set<nat>, maxIdx: nat) {
    Valid(g, t) && NotOptimistic(g, t, bits, full) && IsMaxIdx(t, maxIdx)
  }

  /** A leaf's entries and the metadata in its lock word. */
  datatype Leaf = Leaf(entries: seq<Entry>, full: set<nat>, maxIdx: nat)

  ghost predicate GoodLeaf(g: Geometry, bits: nat, a: Leaf) {
    LeafInv(g, a.entries, bits, a.full, a.maxIdx)
  }

  /** A window of n slots from k's home, ending with a usable vacant bit, contains an empty slot. */
  lemma WindowHasEmpty(g: Geometry, t: seq<Entry>, bits: nat, full: set<nat>, start: nat, b: nat, n: nat)
    requires NotOptimistic(g, t, bits, full) && start < g.slots && Usable(g.slots, bits, full, start, b)
    requires BucketRange(g.slots, bits, b).1 - start + 1 <= n <= g.slots
    ensures FirstEmpty(g, t, start, 0, n) < n
  {
    hide First, Bucket;
    var i :| 0 <= i < |t| && t[i].key == 0 && Bucket(g.slots, bits, i) == b;
    BucketPreimage(g.slots, bits, b, i);
    assert i == Slot(g, start, i - start);
  }

  /** `update_vacancy` keeps the bitmap honest when every slot that was filled has its bit among those marked full, and
      every bit cleared is that of a slot still empty. */
  lemma VacancyKept(g: Geometry, t: seq<Entry>, t': seq<Entry>, bits: nat, full: set<nat>, l: nat, r: nat, empties: seq<nat>)
    requires NotOptimistic(g, t, bits, full) && |t'| == g.slots
    requires forall i :: 0 <= i < |t| && t[i].key == 0 && t'[i].key != 0 ==> Bucket(g.slots, bits, i) in Covered(g.slots, bits, l, r)
    requires forall j :: 0 <= j < |empties| ==> empties[j] < g.slots && t'[empties[j]].key == 0
    ensures NotOptimistic(g, t', bits, full + Covered(g.slots, bits, l, r) - BucketsOf(g.slots, bits, empties))
  {
    hide Bucket, Covered;
    var full' := full + Covered(g.slots, bits, l, r) - BucketsOf(g.slots, bits, empties);
    forall b | 0 <= b < bits && b !in full'
      ensures exists i :: 0 <= i < |t'| && t'[i].key == 0 && Bucket(g.slots, bits, i) == b
    {
      if b in BucketsOf(g.slots, bits, empties) {
        var j :| 0 <= j < |empties| && b == Bucket(g.slots, bits, empties[j]);
      } else {
        var i :| 0 <= i < |t| && t[i].key == 0 && Bucket(g.slots, bits, i) == b;
      }
    }
  }

  /** The bits marked for a segment are exactly those of its slots, if the segment does not wrap inside one bit. */
  lemma CoveredIff(slots: nat, bits: nat, l: nat, r: nat, b: nat)
    requires 1 <= bits <= slots && l < slots && r < slots && b < bits
    requires l <= r || Bucket(slots, bits, l) > Bucket(slots, bits, r)
    ensures b in Covered(slots, bits, l, r) <==> exists i :: 0 <= i < slots && SlotOfBit(slots, bits, l, r, i, b)
  {
    hide Bucket, First;
    var lb, rb := Bucket(slots, bits, l), Bucket(slots, bits, r);
    BucketPlain(slots, bits, l);
    BucketPlain(slots, bits, r);
    if l <= r { BucketMonotone(slots, bits, l, r); }
    if b in Covered(slots, bits, l, r) {
      var i := FirstOfBit(slots, bits, l, r, b);
      assert SlotOfBit(slots, bits, l, r, i, b);
    }
    if i :| 0 <= i < slots && SlotOfBit(slots, bits, l, r, i, b) {
      if l <= i { BucketMonotone(slots, bits, l, i); }
      if i <= r { BucketMonotone(slots, bits, i, r); }
    }
  }

  /** Slot i is in the segment and has bit b. */
  predicate SlotOfBit(slots: nat, bits: nat, l: nat, r: nat, i: nat, b: nat)
    requires 1 <= bits <= slots && l < slots && r < slots && i < slots
  {
    InSegment(slots, l, r, i) && Bucket(slots, bits, i) == b
  }

  lemma FirstOfBit(slots: nat, bits: nat, l: nat, r: nat, b: nat) returns (i: nat)
    requires 1 <= bits <= slots && l < slots && r < slots && b < bits && b in Covered(slots, bits, l, r)
    requires l <= r || Bucket(slots, bits, l) > Bucket(slots, bits, r)
    ensures i < slots && SlotOfBit(slots, bits, l, r, i, b)
  {
    hide Bucket, First;
    var lb, rb := Bucket(slots, bits, l), Bucket(slots, bits, r);
    BucketPlain(slots, bits, l);
    BucketPlain(slots, bits, r);
    BucketPreimage(slots, bits, lb, l);
    BucketPreimage(slots, bits, rb, r);
    BucketPreimage(slots, bits, b, l);
    if l <= r { BucketMonotone(slots, bits, l, r); }
    i := if b == lb then l else BucketRange(slots, bits, b).0;
    BucketPreimage(slots, bits, b, i);
    if lb < b { RangesAscend(slots, bits, lb, b); }
    if b < rb { RangesAscend(slots, bits, b, rb); }
  }

  /** The exception: a segment that goes all the way round and ends in the bit it began in marks that bit alone. */
  lemma CoveredInOneBit(slots: nat, bits: nat, l: nat, r: nat)
    requires 1 <= bits <= slots && r < l < slots && Bucket(slots, bits, l) <= Bucket(slots, bits, r)
    ensures Bucket(slots, bits, l) == Bucket(slots, bits, r) && Covered(slots, bits, l, r) == {Bucket(slots, bits, l)}
  {
    hide Bucket;
    BucketMonotone(slots, bits, r, l);
  }

  lemma EndInCovered(slots: nat, bits: nat, l: nat, r: nat)
    requires 1 <= bits <= slots && l < slots && r < slots
    ensures Bucket(slots, bits, r) in Covered(slots, bits, l, r)
  {
    hide Bucket;
    BucketPlain(slots, bits, r);
  }

  /** After the hops, every slot up to the hole's start other than where it ended is taken. */
  lemma {:induction false} HopsFill(g: Geometry, t: seq<Entry>, b: nat, p: nat)
    requires Hopping(g, t, b, p) && CanReach(g, t, b, p)
    ensures var r := HopAll(g, t, b, p);
            forall q :: 0 <= q <= p && q != r.1 ==> r.0[Slot(g, b, q)].key != 0
    decreases p
  {
    hide Inv, HopStep, Displacements;
    if g.span <= p {
      HopOne(g, t, b, p);
      var q := Mover(g, t, b, p);
      var u := HopStep(g, t, Slot(g, b, p), Slot(g, b, q));
      HopsFill(g, u, b, q);
      HopAllFrame(g, u, b, q);
      HopKeys(g, t, Slot(g, b, p), Slot(g, b, q));
    }
  }

  /** An insert fills the first empty slot and no other; the segment it writes has no empty slot left. */
  lemma InsertFills(g: Geometry, t: seq<Entry>, k: Key, v: Value)
    requires Valid(g, t) && CanInsert(g, t, k) && k != 0
    ensures var b := g.home(k);
            var e := FirstEmpty(g, t, b, 0, g.slots);
            var r := Inserted(g, t, k, v);
            && (forall q :: 0 <= q <= e ==> r[Slot(g, b, q)].key != 0)
            && (forall i :: 0 <= i < |t| && t[i].key == 0 && r[i].key != 0 ==> i == Slot(g, b, e))
  {
    hide Inv, CanReach;
    StartHopping(g, t, k);
    var b := g.home(k);
    var e := FirstEmpty(g, t, b, 0, g.slots);
    HopsFill(g, t, b, e);
    InsertedFrame(g, t, k, v);
    forall i | 0 <= i < |t| && t[i].key == 0 && Inserted(g, t, k, v)[i].key != 0 ensures i == Slot(g, b, e) {
      assert i == Slot(g, b, Dist(g.slots, b, i));
    }
  }

  /** The largest key stays the largest, and is in a hopped slot if it has moved. */
  lemma MaxAfterInsert(g: Geometry, t: seq<Entry>, k: Key, v: Value, maxIdx: nat) returns (j: nat)
    requires Valid(g, t) && CanInsert(g, t, k) && k != 0 && Absent(t, k) && IsMaxIdx(t, maxIdx) && k <= t[maxIdx].key
    ensures var r := Inserted(g, t, k, v);
            && IsMaxIdx(r, j) && r[j].key == t[maxIdx].key
            && (maxIdx !in InsertSlots(g, t, k) ==> j == maxIdx)
            && (maxIdx in InsertSlots(g, t, k) ==> j in InsertSlots(g, t, k))
  {
    var r, max := Inserted(g, t, k, v), t[maxIdx].key;
    ValidShape(g, t);
    InsertedCorrect(g, t, k, v);
    InsertSlotsCover(g, t, k, v, maxIdx);
    forall i | 0 <= i < |r| ensures r[i].key <= max {
      if r[i].key != 0 && r[i].key != k { InsertedKeys(g, t, k, v, i); }
    }
    ContentsKeys(t, g.slots, maxIdx);
    assert (max, t[maxIdx].value) in Contents(r, g.slots);
    var j' :| 0 <= j' < |r| && Used(r, g.slots, j') && (max, t[maxIdx].value) == (r[j'].key, r[j'].value);
    j := if maxIdx in InsertSlots(g, t, k) then j' else maxIdx;
    if j == j' {
      InsertSlotsCover(g, t, k, v, j);
      assert j !in InsertSlots(g, t, k) ==> Used(t, g.slots, j) && Used(t, g.slots, maxIdx);
    }
  }

  /** Widen a short window so that it takes in one replica of the leaf metadata. */
  function Widened(span: nat, l: nat, n: nat): (w: nat)
    requires 1 <= span
    ensures n <= w && (w <= span || w == n)
  {
    if 1 <= n < span && l % span != 0 && l / span == (l + n - 1) / span then
      WidenedEnd(span, l, n);
      (l + n - 1 + span) / span * span + 1 - l
    else n
  }

  /** The widened window ends just after the first entry of the next group. */
  lemma WidenedEnd(span: nat, l: nat, n: nat)
    requires 1 <= n < span && l % span != 0 && l / span == (l + n - 1) / span
    ensures (l + n - 1 + span) / span * span == (l / span + 1) * span
    ensures l + n <= (l + n - 1 + span) / span * span + 1 <= l + span
  {
    var q, x := l / span, l + n - 1;
    assert l == q * span + l % span && x == q * span + x % span;
    assert (q + 1) * span == q * span + span;
    DivisionUnique(span, x + span, q + 1, x % span);
  }

  /** Whatever the window asked for, the one that is read contains the first entry of a group, and so a replica. */
  lemma WindowHasReplica(slots: nat, span: nat, l: nat, n: nat)
    requires 1 <= span <= slots && l < slots && 1 <= n <= slots
    ensures exists i :: l <= i < l + Widened(span, l, n) && i < 2 * slots && GroupStart(slots, span, i)
  {
    hide Widened;
    if l % span == 0 {
      assert GroupStart(slots, span, l);
    } else {
      ReachesGroup(span, l, n);
      NextGroup(span, l);
      var q := (l / span + 1) * span;
      assert GroupStart(slots, span, if q < slots then q else slots);
    }
  }

  lemma NextGroup(span: nat, l: nat)
    requires 1 <= span
    ensures l < (l / span + 1) * span && (l / span + 1) * span % span == 0
  {
    assert l == l / span * span + l % span;
    MulAdd(l / span, 1, span);
    DivisionUnique(span, (l / span + 1) * span, l / span + 1, 0);
  }

  /** The slot that index i wraps to starts a group. */
  predicate GroupStart(slots: nat, span: nat, i: nat)
    requires 1 <= span && i < 2 * slots
  {
    Wrap(slots, i) % span == 0
  }

  lemma ReachesGroup(span: nat, l: nat, n: nat)
    requires 1 <= span && 1 <= n && l % span != 0
    ensures (l / span + 1) * span < l + Widened(span, l, n)
  {
    var c, x := l / span, l + n - 1;
    assert l == c * span + l % span && x == x / span * span + x % span;
    MulAdd(c, 1, span);
    if 1 <= n < span && c == x / span {
      WidenedEnd(span, l, n);
    } else {
      DivAtLeast(span, x, c + 1);
      DivAtLeast(span, x, c);
    }
  }

  /** Read n entries from slot b on into a zeroed buffer. */
  method ReadWindow(g: Geometry, leaf: array<Entry>, b: nat, n: nat) returns (buffer: array<Entry>)
    requires leaf.Length == g.slots && b < g.slots && n <= g.slots
    ensures fresh(buffer) && Window(g, buffer[..], leaf[..], b, n)
  {
    buffer := new Entry[g.slots](_ => NULL_ENTRY);
    for q := 0 to n
      invariant forall s :: 0 <= s < q ==> buffer[Slot(g, b, s)] == leaf[Slot(g, b, s)]
    {
      var i := Slot(g, b, q);
      buffer[i] := leaf[i];
    }
  }

  /** Write the entries from b to b + e back to the leaf. */
  method WriteBack(g: Geometry, leaf: array<Entry>, buffer: array<Entry>, b: nat, e: nat)
    requires leaf != buffer && leaf.Length == buffer.Length == g.slots && b < g.slots && e < g.slots
    modifies leaf
    ensures leaf[..] == WriteSegment(g, old(leaf[..]), buffer[..], b, e)
  {
    for q := 0 to e + 1
      invariant forall s :: 0 <= s < q ==> leaf[Slot(g, b, s)] == buffer[Slot(g, b, s)]
      invariant forall s :: q <= s < g.slots ==> leaf[Slot(g, b, s)] == old(leaf[Slot(g, b, s)])
    {
      var i := Slot(g, b, q);
      leaf[i] := buffer[i];
    }
    forall i | 0 <= i < g.slots ensures leaf[i] == WriteSegment(g, old(leaf[..]), buffer[..], b, e)[i] {
      assert i == Slot(g, b, Dist(g.slots, b, i));
    }
  }

  /** Is slot i on the way from l to r, going round? */
  predicate InSegment(slots: nat, l: nat, r: nat, i: nat)
    requires l < slots && r < slots && i < slots
  {
    Dist(slots, l, i) <= Dist(slots, l, r)
  }

  /** The empty slots of the segment from l to r, which may wrap. */
  method EmptySlots(g: Geometry, records: seq<Entry>, l: nat, r: nat) returns (empties: seq<nat>)
    requires |records| == g.slots && l < g.slots && r < g.slots
    ensures forall j :: 0 <= j < |empties| ==>
              empties[j] < g.slots && InSegment(g.slots, l, r, empties[j]) && records[empties[j]].key == 0
    ensures forall i :: 0 <= i < g.slots && InSegment(g.slots, l, r, i) && records[i].key == 0 ==> i in empties
    ensures (forall i :: 0 <= i < g.slots && InSegment(g.slots, l, r, i) ==> records[i].key != 0) ==> empties == []
  {
    if l <= r {
      empties := EmptySlotsBetween(g, records, l, r, l, r + 1);
    } else {
      var low := EmptySlotsBetween(g, records, l, r, 0, r + 1);
      var high := EmptySlotsBetween(g, records, l, r, l, g.slots);
      empties := low + high;
    }
  }

  method EmptySlotsBetween(g: Geometry, records: seq<Entry>, l: nat, r: nat, from: nat, to: nat) returns (empties: seq<nat>)
    requires |records| == g.slots && l < g.slots && r < g.slots && from <= to <= g.slots
    requires forall i :: from <= i < to ==> InSegment(g.slots, l, r, i)
    ensures forall j :: 0 <= j < |empties| ==>
              empties[j] < g.slots && InSegment(g.slots, l, r, empties[j]) && records[empties[j]].key == 0
    ensures forall i :: from <= i < to && records[i].key == 0 ==> i in empties
    ensures (forall i :: from <= i < to ==> records[i].key != 0) ==> empties == []
  {
    empties := [];
    for i := from to to
      invariant forall x :: from <= x < i && records[x].key == 0 ==> x in empties
      invariant (forall x :: from <= x < i ==> records[x].key != 0) ==> empties == []
      invariant forall j :: 0 <= j < |empties| ==>
        empties[j] < g.slots && InSegment(g.slots, l, r, empties[j]) && records[empties[j]].key == 0
    {
      if records[i].key == 0 { empties := empties + [i]; }
    }
  }

  /** The largest key among the hopped slots, as recorded when the old largest key's slot was hopped. */
  method MaxAmong(records: seq<Entry>, idxes: seq<nat>, fallback: nat) returns (idx: nat)
    requires forall j :: 0 <= j < |idxes| ==> idxes[j] < |records|
    requires exists j :: 0 <= j < |idxes| && records[idxes[j]].key != 0
    ensures idx in idxes && forall j :: 0 <= j < |idxes| ==> records[idxes[j]].key <= records[idx].key
  {
    var max: Key := 0;
    idx := fallback;
    for j := 0 to |idxes|
      invariant max == 0 || (idx in idxes && records[idx].key == max)
      invariant forall l :: 0 <= l < j ==> records[idxes[l]].key <= max
    {
      if records[idxes[j]].key > max { max, idx := records[idxes[j]].key, idxes[j]; }
    }
  }

  /** What the metadata update of `segment_write_and_unlock` knows: the buffer shows the inserted leaf from k's home to
      the first empty slot. */
  ghost predicate Inserting(g: Geometry, t: seq<Entry>, k: Key, v: Value, buffer: seq<Entry>) {
    && Valid(g, t) && k != 0 && Absent(t, k) && CanInsert(g, t, k)
    && Window(g, buffer, Inserted(g, t, k, v), g.home(k), FirstEmpty(g, t, g.home(k), 0, g.slots) + 1)
  }

  lemma HoppedShown(g: Geometry, t: seq<Entry>, k: Key, v: Value, buffer: seq<Entry>, i: nat)
    requires Inserting(g, t, k, v, buffer) && i < g.slots && i in InsertSlots(g, t, k)
    ensures buffer[i] == Inserted(g, t, k, v)[i]
  {
    InsertSlotsCover(g, t, k, v, i);
    assert i == Slot(g, g.home(k), Dist(g.slots, g.home(k), i));
  }

  lemma {:induction false} HopSlotsInRange(g: Geometry, t: seq<Entry>, b: nat, p: nat)
    requires Hopping(g, t, b, p) && CanReach(g, t, b, p)
    ensures forall j :: 0 <= j < |HopSlots(g, t, b, p)| ==> HopSlots(g, t, b, p)[j] < g.slots
    decreases p
  {
    if g.span <= p {
      HopOne(g, t, b, p);
      HopSlotsInRange(g, HopStep(g, t, Slot(g, b, p), Slot(g, b, Mover(g, t, b, p))), b, Mover(g, t, b, p));
    }
  }

  lemma InsertSlotsInRange(g: Geometry, t: seq<Entry>, k: Key)
    requires Valid(g, t) && CanInsert(g, t, k)
    ensures forall j :: 0 <= j < |InsertSlots(g, t, k)| ==> InsertSlots(g, t, k)[j] < g.slots
  {
    StartHopping(g, t, k);
    HopSlotsInRange(g, t, g.home(k), FirstEmpty(g, t, g.home(k), 0, g.slots));
  }

  /** The index is recomputed over the hopped slots if it was one of them. */
  ghost predicate MaxMoved(g: Geometry, t: seq<Entry>, k: Key, v: Value, maxIdx: nat, idx: nat)
    requires Valid(g, t) && CanInsert(g, t, k)
  {
    var r, slots := Inserted(g, t, k, v), InsertSlots(g, t, k);
    if maxIdx in slots then idx in slots && idx < |r| && forall j :: j in slots && j < |r| ==> r[j].key <= r[idx].key
    else idx == maxIdx
  }

  /** Then it points at the largest key again. */
  lemma MaxMovedIsMax(g: Geometry, t: seq<Entry>, k: Key, v: Value, maxIdx: nat, idx: nat)
    requires Valid(g, t) && CanInsert(g, t, k) && k != 0 && Absent(t, k) && IsMaxIdx(t, maxIdx) && k <= t[maxIdx].key
    requires MaxMoved(g, t, k, v, maxIdx, idx)
    ensures IsMaxIdx(Inserted(g, t, k, v), idx) && Inserted(g, t, k, v)[idx].key == t[maxIdx].key
  {
    hide Inv, CanInsert, Inserted, InsertSlots, Absent;
    var j := MaxAfterInsert(g, t, k, v, maxIdx);
  }

  /** The new index of the largest key. */
  method NewMaxIdx(g: Geometry, maxIdx: nat, buffer: seq<Entry>, hopped: seq<nat>, k: Key, ghost t: seq<Entry>, ghost v: Value)
    returns (idx: nat)
    requires Inserting(g, t, k, v, buffer) && hopped == InsertSlots(g, t, k)
    requires IsMaxIdx(t, maxIdx) && k <= t[maxIdx].key
    ensures MaxMoved(g, t, k, v, maxIdx, idx)
  {
    hide Inv, CanInsert, Inserted, InsertSlots, Absent;
    idx := maxIdx;
    ghost var j := MaxAfterInsert(g, t, k, v, maxIdx);
    if maxIdx in hopped {
      InsertSlotsInRange(g, t, k);
      InsertingShape(g, t, k, v, buffer);
      forall l | 0 <= l < |hopped| ensures buffer[hopped[l]] == Inserted(g, t, k, v)[hopped[l]] {
        HoppedShown(g, t, k, v, buffer, hopped[l]);
      }
      idx := MaxAmong(buffer, hopped, maxIdx);
    }
  }

  lemma InsertingShape(g: Geometry, t: seq<Entry>, k: Key, v: Value, buffer: seq<Entry>)
    requires Inserting(g, t, k, v, buffer)
    ensures g.Ok() && |t| == |buffer| == g.slots
  {}

  lemma SegmentTaken(g: Geometry, buffer: seq<Entry>, b: nat, e: nat)
    requires |buffer| == g.slots && b < g.slots && e < g.slots
    requires forall q :: 0 <= q <= e ==> buffer[Slot(g, b, q)].key != 0
    ensures forall i :: 0 <= i < g.slots && InSegment(g.slots, b, Slot(g, b, e), i) ==> buffer[i].key != 0
  {
    forall i | 0 <= i < g.slots && InSegment(g.slots, b, Slot(g, b, e), i) ensures buffer[i].key != 0 {
      assert i == Slot(g, b, Dist(g.slots, b, i));
    }
  }

  /** The bitmap part: mark the written segment full, then clear the bits of its empty slots, of which there are none. */
  method NewVacancy(g: Geometry, lock: VaLock, buffer: seq<Entry>, k: Key, e: nat, ghost t: seq<Entry>, ghost v: Value)
    requires Inserting(g, t, k, v, buffer) && e == FirstEmpty(g, t, g.home(k), 0, g.slots)
    requires lock.slots == g.slots && NotOptimistic(g, t, lock.bits, lock.full)
    modifies lock`full
    ensures lock.full == old(lock.full) + Covered(g.slots, lock.bits, g.home(k), Slot(g, g.home(k), e))
  {
    hide Inv, Inserted, Bucket, Covered, CanReach, HopBit;
    InsertFills(g, t, k, v);
    var b := g.home(k);
    var r := Slot(g, b, e);
    SegmentTaken(g, buffer, b, e);
    var empties := EmptySlots(g, buffer, b, r);
    assert BucketsOf(g.slots, lock.bits, empties) == {};
    lock.UpdateVacancy(b, r, empties);
  }

  /** Marking the segment keeps the bitmap from being optimistic. */
  lemma MarkedKept(g: Geometry, t: seq<Entry>, k: Key, v: Value, bits: nat, full: set<nat>)
    requires Valid(g, t) && CanInsert(g, t, k) && k != 0 && NotOptimistic(g, t, bits, full)
    ensures |t| == g.slots
    ensures var b := g.home(k);
            var r := Slot(g, b, FirstEmpty(g, t, b, 0, g.slots));
            NotOptimistic(g, Inserted(g, t, k, v), bits, full + Covered(g.slots, bits, b, r))
  {
    hide Inv, Inserted, Bucket, Covered, CanReach, BucketsOf;
    ValidShape(g, t);
    InsertFills(g, t, k, v);
    var b := g.home(k);
    var r := Slot(g, b, FirstEmpty(g, t, b, 0, g.slots));
    EndInCovered(g.slots, bits, b, r);
    VacancyKept(g, t, Inserted(g, t, k, v), bits, full, b, r, []);
    NoBuckets(g.slots, bits);
    assert full + Covered(g.slots, bits, b, r) - {} == full + Covered(g.slots, bits, b, r);
  }

  lemma NoBuckets(slots: nat, bits: nat)
    requires 1 <= bits <= slots
    ensures BucketsOf(slots, bits, []) == {}
  {}

  /** The bitmap of a freshly written leaf: every bit marked full, then the bits of all empty slots cleared. */
  method FreshVacancy(g: Geometry, lock: VaLock, records: seq<Entry>)
    requires |records| == g.slots == lock.slots && 1 <= lock.bits <= lock.slots
    modifies lock`full
    ensures ExactVacancy(g, records, lock.bits, lock.full)
  {
    hide Bucket, Covered;
    var empties := EmptySlots(g, records, 0, g.slots - 1);
    AllCovered(g.slots, lock.bits, empties);
    lock.UpdateVacancy(0, g.slots - 1, empties);
    forall b | 0 <= b < lock.bits ensures b in lock.full <==> !HasVacant(g, records, lock.bits, b) {
      assert b in Interval(0, lock.bits - 1);
      if b !in lock.full {
        var j :| 0 <= j < |empties| && b == Bucket(g.slots, lock.bits, empties[j]);
      }
      if i :| 0 <= i < |records| && records[i].key == 0 && Bucket(g.slots, lock.bits, i) == b {
        assert i in empties;
      }
    }
  }

  /** Some slot of bit b is empty. */
  ghost predicate HasVacant(g: Geometry, t: seq<Entry>, bits: nat, b: nat)
    requires 1 <= bits <= g.slots
  {
    exists i :: 0 <= i < |t| && t[i].key == 0 && Bucket(g.slots, bits, i) == b
  }

  /** Exactly the bits without an empty slot are marked. */
  ghost predicate ExactVacancy(g: Geometry, t: seq<Entry>, bits: nat, full: set<nat>) {
    1 <= bits <= g.slots && |t| == g.slots && forall b :: 0 <= b < bits ==> (b in full <==> !HasVacant(g, t, bits, b))
  }

  lemma ExactNotOptimistic(g: Geometry, t: seq<Entry>, bits: nat, full: set<nat>)
    requires ExactVacancy(g, t, bits, full)
    ensures NotOptimistic(g, t, bits, full)
  {
    hide Bucket;
    forall b | 0 <= b < bits && b !in full
      ensures exists i :: 0 <= i < |t| && t[i].key == 0 && Bucket(g.slots, bits, i) == b
    {
      assert HasVacant(g, t, bits, b);
    }
  }

  lemma AllCovered(slots: nat, bits: nat, empties: seq<nat>)
    requires 1 <= bits <= slots && forall j :: 0 <= j < |empties| ==> empties[j] < slots
    ensures Covered(slots, bits, 0, slots - 1) == Interval(0, bits - 1)
    ensures BucketsOf(slots, bits, empties) <= Covered(slots, bits, 0, slots - 1)
  {
    hide Bucket;
    BucketEnds(slots, bits);
    forall j | 0 <= j < |empties| ensures Bucket(slots, bits, empties[j]) < bits {
      BucketPlain(slots, bits, empties[j]);
    }
  }

  // ---- the first leaf ----

  lemma EmptyLeafHasRoom(g: Geometry, t: seq<Entry>, k: Key)
    requires g.Ok() && |t| == g.slots && forall i :: 0 <= i < |t| ==> t[i] == NULL_ENTRY
    ensures Valid(g, t) && CanInsert(g, t, k) && Contents(t, g.slots) == {}
  {
    EmptyLeafValid(g, t);
  }

  lemma EmptyLeafVacant(g: Geometry, t: seq<Entry>, bits: nat)
    requires g.Ok() && |t| == g.slots && 1 <= bits <= g.slots && forall i :: 0 <= i < |t| ==> t[i].key == 0
    ensures NotOptimistic(g, t, bits, {})
  {
    hide Bucket, First;
    var full: set<nat> := {};
    forall b | 0 <= b < bits && b !in full
      ensures exists i :: 0 <= i < |t| && t[i].key == 0 && Bucket(g.slots, bits, i) == b
    {
      BucketPreimage(g.slots, bits, b, 0);
      var i := BucketRange(g.slots, bits, b).0;
      BucketPreimage(g.slots, bits, b, i);
    }
  }

  /** A leaf with one key: that key is the largest. */
  lemma OnlyKey(g: Geometry, t: seq<Entry>, k: Key, v: Value, i: nat)
    requires k != 0 && Contents(t, |t|) == {(k, v)} && i < |t| && t[i].key == k
    ensures IsMaxIdx(t, i)
  {
    forall j | 0 <= j < |t| && t[j].key != 0 ensures t[j].key == k {
      ContentsKeys(t, |t|, j);
    }
  }

  /** The leaf a tree is created with, and its lock word. */
  ghost predicate CreatedAs(g: Geometry, bits: nat, a: Leaf, ghostKey: Key, v: Value) {
    && g.Ok() && 1 <= bits <= g.slots && ghostKey != 0 && Valid(g, a.entries) && Contents(a.entries, g.slots) == {(ghostKey, v)}
    && a.maxIdx < |a.entries| == g.slots && a.entries[a.maxIdx].key == ghostKey
    && a.full == Covered(g.slots, bits, a.maxIdx, a.maxIdx)
  }

  lemma CreatedGood(g: Geometry, bits: nat, a: Leaf, ghostKey: Key, v: Value)
    requires CreatedAs(g, bits, a, ghostKey, v)
    ensures GoodLeaf(g, bits, a)
  {
    hide Inv, Bucket, Covered, Contents, IsMaxIdx, NotOptimistic, BucketsOf;
    var t := seq(g.slots, (i: nat) => NULL_ENTRY);
    EmptyLeafVacant(g, t, bits);
    OneFilled(g, t, a.entries, ghostKey, v, a.maxIdx, bits);
    NoBuckets(g.slots, bits);
    assert {} + Covered(g.slots, bits, a.maxIdx, a.maxIdx) - {} == a.full;
    OnlyKey(g, a.entries, ghostKey, v, a.maxIdx);
  }

  /** The leaf a tree is created with holds only the ghost key, and its lock word describes it. */
  method CreateRootLeaf(g: Geometry, bits: nat, ghostKey: Key, v: Value) returns (leaf: array<Entry>, lock: VaLock)
    requires g.Ok() && 1 <= bits <= g.slots && ghostKey != 0
    ensures fresh(leaf) && fresh(lock) && lock.slots == g.slots && lock.bits == bits
    ensures CreatedAs(g, bits, Leaf(leaf[..], lock.full, lock.maxKeyIdx), ghostKey, v)
    ensures LeafInv(g, leaf[..], bits, lock.full, lock.maxKeyIdx)
  {
    hide Inv, CanInsert, Inserted, Bucket, Covered, Contents, IsMaxIdx, BucketsOf, NotOptimistic;
    leaf := new Entry[g.slots](_ => NULL_ENTRY);
    ghost var t := leaf[..];
    EmptyLeafHasRoom(g, t, ghostKey);
    InsertedCorrect(g, t, ghostKey, v);
    var idx := InsertLocally(g, leaf, ghostKey, v);
    lock := new VaLock(g.slots, bits, idx);
    NoBuckets(g.slots, bits);
    lock.UpdateVacancy(idx, idx, []);
    CreatedGood(g, bits, Leaf(leaf[..], lock.full, lock.maxKeyIdx), ghostKey, v);
  }

  lemma OneFilled(g: Geometry, t: seq<Entry>, r: seq<Entry>, k: Key, v: Value, idx: nat, bits: nat)
    requires |t| == |r| == g.slots && NotOptimistic(g, t, bits, {}) && idx < g.slots && r[idx].key == k
    requires Valid(g, r) && Contents(r, g.slots) == {(k, v)}
    ensures NotOptimistic(g, r, bits, {} + Covered(g.slots, bits, idx, idx) - BucketsOf(g.slots, bits, []))
  {
    hide Bucket, Covered;
    EndInCovered(g.slots, bits, idx, idx);
    forall i | 0 <= i < |r| && r[i].key != 0 ensures i == idx {
      ContentsKeys(r, g.slots, i);
      assert Used(r, g.slots, i);
      assert r[i].key == k && Used(r, g.slots, idx);
    }
    VacancyKept(g, t, r, bits, {}, idx, idx, []);
  }

  datatype Outcome = Stored | Split(sibling: array<Entry>, siblingLock: VaLock, splitKey: Key)

  /** How many entries to read before inserting k: at least one of them is empty, unless the whole leaf is read; one of them
      has a replica of the metadata before it; and no more are read than the nearest vacant bit or a neighbourhood needs. */
  method EntriesToRead(g: Geometry, lock: VaLock, k: Key, ghost t: seq<Entry>) returns (n: nat)
    requires g.Ok() && lock.slots == g.slots && NotOptimistic(g, t, lock.bits, lock.full)
    ensures n <= g.slots && (n == g.slots || FirstEmpty(g, t, g.home(k), 0, n) < n)
    ensures exists i :: g.home(k) <= i < g.home(k) + n && i < 2 * g.slots && GroupStart(g.slots, g.span, i)
    ensures forall b :: Usable(g.slots, lock.bits, lock.full, g.home(k), b) ==>
              n <= g.span || n <= BucketRange(g.slots, lock.bits, b).1 - g.home(k) + 1
  {
    hide Bucket, First, Widened;
    var l := g.home(k);
    var m := lock.ReadEntryNum(l);
    n := Widened(g.span, l, m);
    WindowHasReplica(g.slots, g.span, l, m);
    if m < g.slots {
      ghost var b :| Usable(g.slots, lock.bits, lock.full, l, b) && m == BucketRange(g.slots, lock.bits, b).1 - l + 1;
      WindowHasEmpty(g, t, lock.bits, lock.full, l, b, n);
    }
  }

  // ---- what one insert makes of a leaf and its lock word ----

  /** The key is stored: the hops, the segment's bits marked, the index recomputed. */
  ghost predicate StoresAs(g: Geometry, bits: nat, a: Leaf, b: Leaf, k: Key, v: Value) {
    && 1 <= bits <= g.slots && Valid(g, a.entries) && CanInsert(g, a.entries, k) && |a.entries| == g.slots && g.home(k) < g.slots
    && b.entries == Inserted(g, a.entries, k, v)
    && (var l, e := g.home(k), FirstEmpty(g, a.entries, g.home(k), 0, g.slots);
        e < g.slots && b.full == a.full + Covered(g.slots, bits, l, Slot(g, l, e)))
    && MaxMoved(g, a.entries, k, v, a.maxIdx, b.maxIdx)
  }

  /** The leaf is split: both halves, their bitmaps written afresh, and both indexes recomputed. */
  ghost predicate SplitsAs(g: Geometry, bits: nat, a: Leaf, b: Leaf, c: Leaf, k: Key, v: Value, splitKey: Key) {
    && SplitOutcome(g, a.entries, k, v, splitKey, b.entries, c.entries)
    && ExactVacancy(g, b.entries, bits, b.full) && ExactVacancy(g, c.entries, bits, c.full)
    && IsMaxIdx(b.entries, b.maxIdx) && IsMaxIdx(c.entries, c.maxIdx)
  }

  /** Storing keeps a good leaf good, and its largest key. */
  lemma StoreGood(g: Geometry, bits: nat, a: Leaf, b: Leaf, k: Key, v: Value)
    requires GoodLeaf(g, bits, a) && StoresAs(g, bits, a, b, k, v)
    requires k != 0 && Absent(a.entries, k) && k <= a.entries[a.maxIdx].key
    ensures GoodLeaf(g, bits, b) && b.entries[b.maxIdx].key == a.entries[a.maxIdx].key
  {
    hide Inv, CanInsert, Inserted, InsertSlots, Bucket, Covered, Absent, MaxMoved, NotOptimistic, FirstEmpty;
    InsertedCorrect(g, a.entries, k, v);
    MarkedKept(g, a.entries, k, v, bits, a.full);
    MaxMovedIsMax(g, a.entries, k, v, a.maxIdx, b.maxIdx);
  }

  /** Splitting makes two good leaves, the right one with the old largest key. */
  lemma SplitGood(g: Geometry, bits: nat, a: Leaf, b: Leaf, c: Leaf, k: Key, v: Value, splitKey: Key)
    requires GoodLeaf(g, bits, a) && SplitsAs(g, bits, a, b, c, k, v, splitKey) && k <= a.entries[a.maxIdx].key
    ensures GoodLeaf(g, bits, b) && GoodLeaf(g, bits, c) && c.entries[c.maxIdx].key == a.entries[a.maxIdx].key
  {
    hide Inv, SplitOutcome, ExactVacancy, NotOptimistic;
    SplitMax(g, a.entries, k, v, splitKey, b.entries, c.entries, a.maxIdx);
    ExactNotOptimistic(g, b.entries, bits, b.full);
    ExactNotOptimistic(g, c.entries, bits, c.full);
  }

  /** The part of `leaf_node_insert` that runs on the locked leaf k belongs to, k not being stored yet. */
  method InsertIntoLeaf(g: Geometry, leaf: array<Entry>, lock: VaLock, k: Key, v: Value) returns (out: Outcome)
    requires lock.slots == g.slots && LeafInv(g, leaf[..], lock.bits, lock.full, lock.maxKeyIdx)
    requires k != 0 && Absent(leaf[..], k) && k <= leaf[lock.maxKeyIdx].key
    modifies leaf, lock
    ensures lock.slots == g.slots
    ensures out.Stored? <==> old(CanInsert(g, leaf[..], k))
    ensures out.Stored? ==>
              StoresAs(g, lock.bits, old(Leaf(leaf[..], lock.full, lock.maxKeyIdx)), Leaf(leaf[..], lock.full, lock.maxKeyIdx), k, v)
    ensures out.Split? ==>
      && out.siblingLock.slots == g.slots && out.siblingLock.bits == lock.bits
      && SplitsAs(g, lock.bits, old(Leaf(leaf[..], lock.full, lock.maxKeyIdx)), Leaf(leaf[..], lock.full, lock.maxKeyIdx),
                  Leaf(out.sibling[..], out.siblingLock.full, out.siblingLock.maxKeyIdx), k, v, out.splitKey)
    ensures LeafInv(g, leaf[..], lock.bits, lock.full, lock.maxKeyIdx)
    ensures out.Split? ==> LeafInv(g, out.sibling[..], out.siblingLock.bits, out.siblingLock.full, out.siblingLock.maxKeyIdx)
    ensures (if out.Stored? then leaf[lock.maxKeyIdx] else out.sibling[out.siblingLock.maxKeyIdx]).key
         == old(leaf[lock.maxKeyIdx].key)
  {
    hide Inv, CanInsert, Inserted, InsertSlots, Bucket, Absent, Covered, MaxMoved, NotOptimistic, SplitOutcome, ExactVacancy,
      FirstEmpty, Window, SameAfter;
    ghost var t := leaf[..];
    ghost var before := Leaf(leaf[..], lock.full, lock.maxKeyIdx);
    ValidShape(g, t);
    BitsFit(g, t, lock.bits, lock.full);
    var n := EntriesToRead(g, lock, k, t);
    var buffer := ReadWindow(g, leaf, g.home(k), n);
    var ok, e, hopped := InsertInWindow(g, buffer, k, v, n, t);
    if ok {
      assert Inserting(g, t, k, v, buffer[..]);
      lock.maxKeyIdx := NewMaxIdx(g, lock.maxKeyIdx, buffer[..], hopped, k, t, v);
      FirstTaken(g, t, k);
      NewVacancy(g, lock, buffer[..], k, e, t, v);
      SegmentInstallsInsert(g, t, buffer[..], k, v);
      WriteBack(g, leaf, buffer, g.home(k), e);
      out := Stored;
      StoreGood(g, lock.bits, before, Leaf(leaf[..], lock.full, lock.maxKeyIdx), k, v);
    } else {
      out := SplitAndPublish(g, leaf, lock, k, v);
      SplitGood(g, lock.bits, before, Leaf(leaf[..], lock.full, lock.maxKeyIdx),
                Leaf(out.sibling[..], out.siblingLock.full, out.siblingLock.maxKeyIdx), k, v, out.splitKey);
    }
  }

  lemma FirstTaken(g: Geometry, t: seq<Entry>, k: Key)
    requires Valid(g, t) && CanInsert(g, t, k)
    ensures |t| == g.slots && FirstEmpty(g, t, g.home(k), 0, g.slots) < g.slots
  {}

  /** Split, and give both halves a lock word that describes them. */
  method SplitAndPublish(g: Geometry, leaf: array<Entry>, lock: VaLock, k: Key, v: Value) returns (out: Outcome)
    requires lock.slots == g.slots && LeafInv(g, leaf[..], lock.bits, lock.full, lock.maxKeyIdx)
    requires k != 0 && Absent(leaf[..], k) && k <= leaf[lock.maxKeyIdx].key && !CanInsert(g, leaf[..], k)
    modifies leaf, lock
    ensures out.Split? && lock.slots == g.slots && out.siblingLock.slots == g.slots && out.siblingLock.bits == lock.bits
    ensures SplitsAs(g, lock.bits, old(Leaf(leaf[..], lock.full, lock.maxKeyIdx)), Leaf(leaf[..], lock.full, lock.maxKeyIdx),
                     Leaf(out.sibling[..], out.siblingLock.full, out.siblingLock.maxKeyIdx), k, v, out.splitKey)
  {
    hide Inv, CanInsert, SplitOutcome, Bucket, ExactVacancy, NotOptimistic;
    ghost var t, max := leaf[..], lock.maxKeyIdx;
    ValidShape(g, t);
    BitsFit(g, t, lock.bits, lock.full);
    var sibling, splitKey := SplitLeaf(g, leaf, k, v);
    SplitMax(g, t, k, v, splitKey, leaf[..], sibling[..], max);
    lock.maxKeyIdx := MaxKeyIdx(leaf[..]);
    var j := MaxKeyIdx(sibling[..]);
    var siblingLock := new VaLock(g.slots, lock.bits, j);
    FreshVacancy(g, lock, leaf[..]);
    FreshVacancy(g, siblingLock, sibling[..]);
    out := Split(sibling, siblingLock, splitKey);
  }

  lemma BitsFit(g: Geometry, t: seq<Entry>, bits: nat, full: set<nat>)
    requires NotOptimistic(g, t, bits, full)
    ensures 1 <= bits <= g.slots
  {}

  /** The old largest key is the largest key of the right half. */
  lemma SplitMax(g: Geometry, t: seq<Entry>, k: Key, v: Value, splitKey: Key, left: seq<Entry>, right: seq<Entry>, max: nat)
    requires Valid(g, t) && SplitOutcome(g, t, k, v, splitKey, left, right) && IsMaxIdx(t, max) && k <= t[max].key
    ensures Valid(g, left) && Valid(g, right) && |left| == |right| == g.slots
    ensures exists i :: 0 <= i < |left| && left[i].key != 0
    ensures exists i :: 0 <= i < |right| && right[i].key == t[max].key
    ensures forall i :: 0 <= i < |right| ==> right[i].key <= t[max].key
  {
    hide Inv;
    ValidShape(g, t);
    ValidShape(g, left);
    ValidShape(g, right);
    ContentsKeys(t, g.slots, max);
    forall i | 0 <= i < |right| && right[i].key != 0 ensures right[i].key <= t[max].key {
      ContentsKeys(right, g.slots, i);
      assert (right[i].key, right[i].value) in Contents(t, g.slots) + {(k, v)};
    }
    assert (t[max].key, t[max].value) in Contents(left, g.slots) + Contents(right, g.slots);
  }
}
