/** The vacancy bitmap of the lock word: which leaf slots each bit stands for, how it is maintained and how many
    entries an inserter reads because of it. */
module Vacancy {
  import opened Arith

  /** `find_bucket`: the bit that stands for slot i of `slots`. */
  function Bucket(slots: nat, bits: nat, i: nat): nat
    requires 1 <= bits <= slots
  {
    (i * bits / slots) % bits
  }

  /** `get_first`: the first slot that bit b stands for. */
  function First(slots: nat, bits: nat, b: nat): nat
    requires 1 <= bits <= slots
  {
    b * slots / bits + if (slots * b) % bits != 0 then 1 else 0
  }

  /** `get_idx_range_in_bucket`: the inclusive range of slots that bit b stands for. */
  function BucketRange(slots: nat, bits: nat, b: nat): (int, int)
    requires 1 <= bits <= slots
  {
    var r := First(slots, bits, b + 1) - 1;
    (First(slots, bits, b), if r >= slots then slots - 1 else r)
  }

  lemma FirstAtLeast(slots: nat, bits: nat, b: nat, i: nat)
    requires 1 <= bits <= slots
    ensures i >= First(slots, bits, b) <==> i * bits >= b * slots
  {
    var x := b * slots;
    assert x == (x / bits) * bits + x % bits && slots * b == x;
    MulMono(i, x / bits, bits);
    MulMono(x / bits, i, bits);
    MulMono(x / bits + 1, i, bits);
    assert (x / bits + 1) * bits == (x / bits) * bits + bits;
  }

  lemma BucketPlain(slots: nat, bits: nat, i: nat)
    requires 1 <= bits <= slots && i < slots
    ensures Bucket(slots, bits, i) == i * bits / slots < bits
  {
    var x := i * bits;
    ProductBelow(i, slots, bits);
    DivAtLeast(slots, x, bits);
    SmallMod(x / slots, bits);
  }

  lemma FirstTight(slots: nat, bits: nat, b: nat)
    requires 1 <= bits <= slots
    ensures First(slots, bits, b) * bits < b * slots + bits
  {
    hide First;
    var f := First(slots, bits, b);
    if f > 0 {
      FirstAtLeast(slots, bits, b, f - 1);
      MulAdd(f - 1, 1, bits);
    }
  }

  lemma BucketNonEmpty(slots: nat, bits: nat, b: nat)
    requires 1 <= bits <= slots && b < bits
    ensures First(slots, bits, b) < First(slots, bits, b + 1) && First(slots, bits, b) < slots
  {
    var f := First(slots, bits, b);
    FirstAtLeast(slots, bits, b, f);
    FirstTight(slots, bits, b);
    MulAdd(b, 1, slots);
    FirstAtLeast(slots, bits, b + 1, f);
    MulMono(b + 1, bits, slots);
    MulMono(slots, f, bits);
  }

  /** Ranges are exactly the preimages of `Bucket`, and none is empty. */
  lemma BucketPreimage(slots: nat, bits: nat, b: nat, i: nat)
    requires 1 <= bits <= slots && i < slots && b < bits
    ensures Bucket(slots, bits, i) == b <==>
              BucketRange(slots, bits, b).0 <= i <= BucketRange(slots, bits, b).1
    ensures 0 <= BucketRange(slots, bits, b).0 <= BucketRange(slots, bits, b).1 < slots
  {
    hide First, Bucket;
    var x := i * bits;
    BucketPlain(slots, bits, i);
    DivAtLeast(slots, x, b);
    DivAtLeast(slots, x, b + 1);
    FirstAtLeast(slots, bits, b, i);
    FirstAtLeast(slots, bits, b + 1, i);
    BucketNonEmpty(slots, bits, b);
  }

  /** The mapping from slots to bits is monotone, and the last slot has the last bit. */
  lemma BucketMonotone(slots: nat, bits: nat, i: nat, j: nat)
    requires 1 <= bits <= slots && i <= j < slots
    ensures Bucket(slots, bits, i) <= Bucket(slots, bits, j) < bits
  {
    hide Bucket;
    var x, y := i * bits, j * bits;
    BucketPlain(slots, bits, i);
    BucketPlain(slots, bits, j);
    MulMono(i, j, bits);
    DivAtLeast(slots, y, x / slots);
    DivAtLeast(slots, x, x / slots);
  }

  lemma BucketEnds(slots: nat, bits: nat)
    requires 1 <= bits <= slots
    ensures Bucket(slots, bits, 0) == 0 && Bucket(slots, bits, slots - 1) == bits - 1
  {
    hide Bucket;
    BucketPlain(slots, bits, 0);
    BucketPlain(slots, bits, slots - 1);
    var x := (slots - 1) * bits;
    assert x == slots * bits - bits;
    assert (bits - 1) * slots == slots * bits - slots;
    DivAtLeast(slots, x, bits - 1);
    DivAtLeast(slots, 0, 1);
  }

  lemma RangesAscend(slots: nat, bits: nat, b: nat, c: nat)
    requires 1 <= bits <= slots && b < c < bits
    ensures BucketRange(slots, bits, b).1 < BucketRange(slots, bits, c).0
  {
    hide First;
    var f := First(slots, bits, c);
    FirstAtLeast(slots, bits, c, f);
    MulMono(b + 1, c, slots);
    FirstAtLeast(slots, bits, b + 1, f);
  }

  /** A vacant bit whose slots all lie at or after `start`: the only kind the reader uses. */
  predicate Usable(slots: nat, bits: nat, full: set<nat>, start: nat, b: nat)
    requires 1 <= bits <= slots
  {
    b < bits && b !in full && start <= BucketRange(slots, bits, b).0
  }

  lemma UsableAhead(slots: nat, bits: nat, full: set<nat>, start: nat, b: nat)
    requires 1 <= bits <= slots && start < slots && Usable(slots, bits, full, start, b)
    ensures Bucket(slots, bits, start) <= b
  {
    hide First, Bucket;
    var s := Bucket(slots, bits, start);
    BucketPlain(slots, bits, start);
    BucketPreimage(slots, bits, s, start);
    BucketPreimage(slots, bits, b, start);
    if b < s { RangesAscend(slots, bits, b, s); }
  }

  function Interval(lo: nat, hi: int): (s: set<nat>)
    ensures forall i :: i in s <==> lo <= i <= hi
    decreases hi - lo + 1
  {
    if hi < lo then {} else Interval(lo, hi - 1) + {hi}
  }

  /** The bits `update_vacancy` marks as full for the segment from l to r, which may wrap. */
  function Covered(slots: nat, bits: nat, l: nat, r: nat): set<nat>
    requires 1 <= bits <= slots
  {
    var lb, rb := Bucket(slots, bits, l), Bucket(slots, bits, r);
    if lb <= rb then Interval(lb, rb) else Interval(0, rb) + Interval(lb, bits - 1)
  }

  /** The bits of a list of slots. */
  function BucketsOf(slots: nat, bits: nat, idxes: seq<nat>): set<nat>
    requires 1 <= bits <= slots
  {
    set j | 0 <= j < |idxes| :: Bucket(slots, bits, idxes[j])
  }

  /** The lock word of a leaf, without its lock bit.  A bit in `full` claims nothing; a bit outside it claims that one
      of its slots is empty. */
  class VaLock {
    const slots: nat
    const bits: nat
    var full: set<nat>
    var maxKeyIdx: nat

    constructor (slots: nat, bits: nat, maxKeyIdx: nat)
      ensures this.slots == slots && this.bits == bits && full == {} && this.maxKeyIdx == maxKeyIdx
    {
      this.slots, this.bits, this.full, this.maxKeyIdx := slots, bits, {}, maxKeyIdx;
    }

    method MarkFull(from: nat, to: int)
      modifies this`full
      ensures full == old(full) + Interval(from, to)
    {
      var i := from;
      while i <= to
        invariant from <= i && (i <= to + 1 || i == from)
        invariant full == old(full) + Interval(from, i - 1)
      {
        full := full + {i};
        i := i + 1;
      }
    }

    /** `update_vacancy` for the segment from l to r, of which the slots in `empties` are empty. */
    method UpdateVacancy(l: nat, r: nat, empties: seq<nat>)
      requires 1 <= bits <= slots
      requires BucketsOf(slots, bits, empties) <= Covered(slots, bits, l, r)
      modifies this`full
      ensures full == old(full) + Covered(slots, bits, l, r) - BucketsOf(slots, bits, empties)
    {
      hide Bucket;
      var lb, rb := Bucket(slots, bits, l), Bucket(slots, bits, r);
      if lb <= rb {
        MarkFull(lb, rb);
      } else {
        MarkFull(0, rb);
        MarkFull(lb, bits - 1);
      }
      assert full == old(full) + Covered(slots, bits, l, r);
      ghost var marked := full;
      for j := 0 to |empties|
        invariant full == marked - BucketsOf(slots, bits, empties[..j])
      {
        assert empties[..j + 1] == empties[..j] + [empties[j]];
        BucketsOfSnoc(slots, bits, empties[..j], empties[j]);
        full := full - {Bucket(slots, bits, empties[j])};
      }
      assert empties[..|empties|] == empties;
    }

    /** `get_read_entry_num_from_bitmap`: how many entries to read from `start` on.  The window ends with the first
        usable vacant bit, or covers the whole leaf when there is none. */
    method ReadEntryNum(start: nat) returns (n: nat)
      requires 1 <= bits <= slots && start < slots
      ensures 1 <= n <= slots
      ensures forall b :: Usable(slots, bits, full, start, b) ==> n <= BucketRange(slots, bits, b).1 - start + 1
      ensures n == slots ||
              exists b :: Usable(slots, bits, full, start, b) && n == BucketRange(slots, bits, b).1 - start + 1
    {
      hide First, Bucket;
      var s := Bucket(slots, bits, start);
      BucketPlain(slots, bits, start);
      for i := 0 to bits
        invariant forall b :: s <= b < s + i ==> !Usable(slots, bits, full, start, b)
      {
        var e := (s + i) % bits;
        ModCases(bits, s + i);
        if e !in full {
          var (l, r) := BucketRange(slots, bits, e);
          BucketPreimage(slots, bits, e, start);
          if start <= l {
            UsableAhead(slots, bits, full, start, e);
            n := (r + slots - start + 1) % slots;
            ModCases(slots, r + slots - start + 1);
            n := if n != 0 then n else slots;
            FirstUsable(slots, bits, full, start, e);
            return;
          }
        }
      }
      n := slots;
      NoneUsable(slots, bits, full, start);
    }
  }

  lemma BucketsOfSnoc(slots: nat, bits: nat, idxes: seq<nat>, x: nat)
    requires 1 <= bits <= slots
    ensures BucketsOf(slots, bits, idxes + [x]) == BucketsOf(slots, bits, idxes) + {Bucket(slots, bits, x)}
  {
    hide Bucket;
    var s := idxes + [x];
    forall b | b in BucketsOf(slots, bits, idxes) + {Bucket(slots, bits, x)} ensures b in BucketsOf(slots, bits, s) {
      if b == Bucket(slots, bits, x) {
        assert s[|idxes|] == x;
      } else {
        var j :| 0 <= j < |idxes| && b == Bucket(slots, bits, idxes[j]);
        assert s[j] == idxes[j];
      }
    }
  }

  /** Bits before the first usable one from `start` on cannot be usable. */
  lemma FirstUsable(slots: nat, bits: nat, full: set<nat>, start: nat, e: nat)
    requires 1 <= bits <= slots && start < slots && e < bits
    requires forall b :: Bucket(slots, bits, start) <= b < e ==> !Usable(slots, bits, full, start, b)
    ensures forall b :: Usable(slots, bits, full, start, b) ==> BucketRange(slots, bits, e).1 <= BucketRange(slots, bits, b).1
  {
    hide First, Bucket;
    forall b | Usable(slots, bits, full, start, b)
      ensures BucketRange(slots, bits, e).1 <= BucketRange(slots, bits, b).1
    {
      UsableAhead(slots, bits, full, start, b);
      BucketPreimage(slots, bits, b, start);
      if e < b { RangesAscend(slots, bits, e, b); }
    }
  }

  lemma NoneUsable(slots: nat, bits: nat, full: set<nat>, start: nat)
    requires 1 <= bits <= slots && start < slots
    requires forall b :: Bucket(slots, bits, start) <= b < Bucket(slots, bits, start) + bits ==> !Usable(slots, bits, full, start, b)
    ensures forall b :: !Usable(slots, bits, full, start, b)
  {
    hide First, Bucket;
    forall b ensures !Usable(slots, bits, full, start, b) {
      if Usable(slots, bits, full, start, b) { UsableAhead(slots, bits, full, start, b); }
    }
  }
}
