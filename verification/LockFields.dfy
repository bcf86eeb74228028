/** The fields of `VALOCK` and the 64-bit word they share with the lock bit, in the default configuration: 57 vacancy
    bits, 6 bits of maximum index, and the lock bit on top. */
module LockFields {
  import opened HopTable
  import opened LeafInsert

  type Word = bv64
  type Bitmap = bv57
  type Index = bv6

  const VACANCY_BITS: nat := 57
  const LOCK_BIT: Word := 1 << 63

  predicate Locked(w: Word) {
    w & LOCK_BIT != 0
  }

  /** The fields as the bit-fields hold them; their widths leave the lock bit alone. */
  function Pack(v: Bitmap, m: Index): Word {
    ((m as Word) << 57) | (v as Word)
  }

  function BitmapOf(w: Word): Bitmap {
    (w & 0x1FF_FFFF_FFFF_FFFF) as Bitmap
  }

  function IndexOf(w: Word): Index {
    ((w >> 57) & 63) as Index
  }

  lemma PackFields(v: Bitmap, m: Index)
    ensures !Locked(Pack(v, m)) && BitmapOf(Pack(v, m)) == v && IndexOf(Pack(v, m)) == m
  {}

  // ---- single bits ----

  function OneAt(b: nat): Bitmap {
    if b == 0 then 1 else OneAt(b - 1) << 1
  }

  function And(x: Bitmap, y: Bitmap): Bitmap { x & y }
  function Or(x: Bitmap, y: Bitmap): Bitmap { x | y }

  predicate Bit(v: Bitmap, b: nat) {
    And(v, OneAt(b)) != 0
  }

  lemma ShiftBoth(x: Bitmap, y: Bitmap)
    requires x & y == 0
    ensures (x << 1) & (y << 1) == 0
  {}

  lemma LowClear(x: Bitmap)
    ensures 1 & (x << 1) == 0
  {}

  lemma {:induction false} Disjoint(a: nat, b: nat)
    requires a < b
    ensures OneAt(a) & OneAt(b) == 0
  {
    if a == 0 {
      LowClear(OneAt(b - 1));
    } else {
      Disjoint(a - 1, b - 1);
      ShiftBoth(OneAt(a - 1), OneAt(b - 1));
    }
  }

  lemma ShiftNonzero(x: Bitmap)
    requires x != 0 && x & (1 << 56) == 0
    ensures x << 1 != 0
  {}

  lemma Top()
    ensures OneAt(56) == 1 << 56
  {
    assert OneAt(8) == 1 << 8;
    assert OneAt(16) == 1 << 16;
    assert OneAt(24) == 1 << 24;
    assert OneAt(32) == 1 << 32;
    assert OneAt(40) == 1 << 40;
    assert OneAt(48) == 1 << 48;
  }

  lemma {:induction false} Nonzero(b: nat)
    requires b < VACANCY_BITS
    ensures OneAt(b) != 0
  {
    if b > 0 {
      Nonzero(b - 1);
      Top();
      Disjoint(b - 1, 56);
      ShiftNonzero(OneAt(b - 1));
    }
  }

  lemma OrElsewhere(v: Bitmap, one: Bitmap, mask: Bitmap)
    requires one & mask == 0
    ensures (v | one) & mask == v & mask
  {
    assert (v | one) & mask == (v & mask) | (one & mask);
  }

  lemma AndOrElsewhere(v: Bitmap, one: Bitmap, mask: Bitmap)
    requires And(one, mask) == 0
    ensures And(Or(v, one), mask) == And(v, mask)
  {
    OrElsewhere(v, one, mask);
  }

  lemma AndOrHere(v: Bitmap, one: Bitmap)
    ensures And(Or(v, one), one) == one
  {}

  lemma Commute(x: Bitmap, y: Bitmap)
    ensures x & y == y & x
  {}

  lemma Apart(a: nat, b: nat)
    requires a != b
    ensures And(OneAt(a), OneAt(b)) == 0
  {
    hide OneAt;
    if a < b {
      Disjoint(a, b);
    } else {
      Disjoint(b, a);
      Commute(OneAt(b), OneAt(a));
    }
  }

  lemma SetBit(v: Bitmap, a: nat, b: nat)
    requires a < VACANCY_BITS && b < VACANCY_BITS
    ensures Bit(Or(v, OneAt(a)), b) <==> a == b || Bit(v, b)
  {
    hide OneAt, And, Or;
    if a == b {
      Nonzero(b);
      AndOrHere(v, OneAt(b));
    } else {
      Apart(a, b);
      AndOrElsewhere(v, OneAt(a), OneAt(b));
    }
  }

  // ---- the word of a leaf ----

  /** The bitmap whose set bits, of the first n, are those in `full`. */
  function Bits(full: set<nat>, n: nat): Bitmap {
    if n == 0 then 0 else if n - 1 in full then Or(Bits(full, n - 1), OneAt(n - 1)) else Bits(full, n - 1)
  }

  lemma NoBits(b: nat)
    ensures !Bit(0, b)
  {}

  lemma {:induction false} BitsAre(full: set<nat>, n: nat, b: nat)
    requires n <= VACANCY_BITS && b < VACANCY_BITS
    ensures Bit(Bits(full, n), b) <==> b < n && b in full
  {
    hide OneAt, Bit, Or;
    if n == 0 {
      NoBits(b);
    } else {
      BitsAre(full, n - 1, b);
      SetBit(Bits(full, n - 1), n - 1, b);
    }
  }

  datatype Fields = Fields(full: set<nat>, maxIdx: nat)

  predicate Fit(f: Fields) {
    f.maxIdx < 64
  }

  function WordOf(f: Fields): Word
    requires Fit(f)
  {
    Pack(Bits(f.full, VACANCY_BITS), f.maxIdx as Index)
  }

  lemma IndexFits(i: nat)
    requires i < 64
    ensures (i as Index) as nat == i
  {}

  /** The word shows the fields and leaves the lock bit clear. */
  lemma WordShows(f: Fields)
    requires Fit(f)
    ensures !Locked(WordOf(f)) && IndexOf(WordOf(f)) as nat == f.maxIdx
    ensures forall b :: 0 <= b < VACANCY_BITS ==> (Bit(BitmapOf(WordOf(f)), b) <==> b in f.full)
  {
    hide Bit, Bits, Pack, BitmapOf, IndexOf, Locked;
    PackFields(Bits(f.full, VACANCY_BITS), f.maxIdx as Index);
    IndexFits(f.maxIdx);
    forall b | 0 <= b < VACANCY_BITS ensures Bit(BitmapOf(WordOf(f)), b) <==> b in f.full {
      BitsAre(f.full, VACANCY_BITS, b);
    }
  }

  /** The lock word of every good leaf can be written with the lock bit clear, and no metadata is cut off. */
  lemma LeafWordUnlocked(g: Geometry, t: seq<Entry>, full: set<nat>, maxIdx: nat)
    requires g.slots <= 64 && LeafInv(g, t, VACANCY_BITS, full, maxIdx)
    ensures Fit(Fields(full, maxIdx)) && !Locked(WordOf(Fields(full, maxIdx)))
    ensures IndexOf(WordOf(Fields(full, maxIdx))) as nat == maxIdx
  {
    hide WordOf, Locked, Inv, IndexOf;
    ValidShape(g, t);
    WordShows(Fields(full, maxIdx));
  }
}
