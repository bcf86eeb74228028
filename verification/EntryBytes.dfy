/** Leaf entries as bytes: version, two bytes of hop bitmap with the low byte first, key, value. */
module EntryBytes {
  import opened Arith
  import opened HopTable
  import opened VersionLayout
  import KeyArithmetic

  /** How an entry is laid out; the source has 8-byte keys and values. */
  datatype Shape = Shape(span: nat, keyLen: nat, valLen: nat) {
    predicate Ok() { 1 <= span <= 16 }
    function Size(): nat { 3 + keyLen + valLen }
  }

  /** The source numbers the bits from the other end: offset d is bit span - 1 - d. */
  predicate BitmapBit(span: nat, bits: set<nat>, p: nat) {
    p < span && span - 1 - p in bits
  }

  function Pow2(n: nat): (r: nat)
    ensures r >= 1
  {
    if n == 0 then 1 else 2 * Pow2(n - 1)
  }

  /** Bits p, p + 1, ..., p + n - 1 of the bitmap, as a number. */
  function BitmapPart(span: nat, bits: set<nat>, p: nat, n: nat): (r: nat)
    ensures r < Pow2(n)
    decreases n
  {
    if n == 0 then 0 else (if BitmapBit(span, bits, p) then 1 else 0) + 2 * BitmapPart(span, bits, p + 1, n - 1)
  }

  predicate BitAt(x: nat, b: nat) {
    if b == 0 then x % 2 == 1 else BitAt(x / 2, b - 1)
  }

  lemma {:induction false} PartBit(span: nat, bits: set<nat>, p: nat, n: nat, b: nat)
    requires b < n
    ensures BitAt(BitmapPart(span, bits, p, n), b) <==> BitmapBit(span, bits, p + b)
    decreases n
  {
    if b > 0 { PartBit(span, bits, p + 1, n - 1, b - 1); }
  }

  lemma {:induction false} PartZero(span: nat, bits: set<nat>, p: nat, n: nat)
    requires span <= p
    ensures BitmapPart(span, bits, p, n) == 0
    decreases n
  {
    if n > 0 { PartZero(span, bits, p + 1, n - 1); }
  }

  /** Byte j of the bitmap. */
  function BitmapByte(span: nat, bits: set<nat>, j: nat): Byte {
    assert Pow2(8) == 256;
    BitmapPart(span, bits, 8 * j, 8)
  }

  function Bytes(f: Shape, version: Byte, e: Entry): (x: seq<Byte>)
    ensures |x| == f.Size() && x[0] == version
  {
    [version, BitmapByte(f.span, e.bits, 0), BitmapByte(f.span, e.bits, 1)]
      + KeyArithmetic.FromInt(e.key, f.keyLen) + KeyArithmetic.FromInt(e.value, f.valLen)
  }

  predicate OffsetBit(span: nat, lo: Byte, hi: Byte, d: nat)
    requires d < span
  {
    var p := span - 1 - d;
    if p < 8 then BitAt(lo, p) else BitAt(hi, p - 8)
  }

  /** The offsets shown by a bitmap's two bytes. */
  function OffsetsOf(span: nat, lo: Byte, hi: Byte): set<nat> {
    set d | 0 <= d < span && OffsetBit(span, lo, hi, d)
  }

  function EntryOf(f: Shape, x: seq<Byte>): Entry
    requires |x| == f.Size()
  {
    Entry(KeyArithmetic.Value(x[3..3 + f.keyLen]), KeyArithmetic.Value(x[3 + f.keyLen..]), OffsetsOf(f.span, x[1], x[2]))
  }

  /** Key and value fit their fields, and the bitmap has only offsets of the neighbourhood. */
  ghost predicate Fits(f: Shape, e: Entry) {
    && e.key < KeyArithmetic.Pow(f.keyLen) && e.value < KeyArithmetic.Pow(f.valLen)
    && forall d :: d in e.bits ==> d < f.span
  }

  lemma OffsetsRoundTrip(span: nat, bits: set<nat>)
    requires span <= 16 && forall d :: d in bits ==> d < span
    ensures OffsetsOf(span, BitmapByte(span, bits, 0), BitmapByte(span, bits, 1)) == bits
  {
    var lo, hi := BitmapByte(span, bits, 0), BitmapByte(span, bits, 1);
    forall d | 0 <= d < span ensures OffsetBit(span, lo, hi, d) <==> d in bits {
      var p := span - 1 - d;
      if p < 8 { PartBit(span, bits, 0, 8, p); } else { PartBit(span, bits, 8, 8, p - 8); }
    }
  }

  lemma NumberRoundTrip(v: nat, n: nat)
    requires v < KeyArithmetic.Pow(n)
    ensures KeyArithmetic.Value(KeyArithmetic.FromInt(v, n)) == v
  {
    KeyArithmetic.FromIntValue(v, n);
    SmallMod(v, KeyArithmetic.Pow(n));
  }

  lemma EntryRoundTrip(f: Shape, version: Byte, e: Entry)
    requires f.Ok() && Fits(f, e)
    ensures EntryOf(f, Bytes(f, version, e)) == e
  {
    hide BitmapByte, OffsetsOf, KeyArithmetic.Value, KeyArithmetic.FromInt, KeyArithmetic.Pow;
    var x := Bytes(f, version, e);
    assert x[3..3 + f.keyLen] == KeyArithmetic.FromInt(e.key, f.keyLen);
    assert x[3 + f.keyLen..] == KeyArithmetic.FromInt(e.value, f.valLen);
    NumberRoundTrip(e.key, f.keyLen);
    NumberRoundTrip(e.value, f.valLen);
    OffsetsRoundTrip(f.span, e.bits);
  }

  /** Entries that differ in their bitmap alone differ in its bytes alone. */
  lemma BitmapDiffers(f: Shape, version: Byte, a: Entry, b: Entry, q: nat)
    requires f.Ok() && a.key == b.key && a.value == b.value && q < f.Size()
    requires Bytes(f, version, a)[q] != Bytes(f, version, b)[q]
    ensures (q == 1 && BitmapByte(f.span, a.bits, 0) != BitmapByte(f.span, b.bits, 0))
         || (q == 2 && BitmapByte(f.span, a.bits, 1) != BitmapByte(f.span, b.bits, 1))
  {
    hide KeyArithmetic.FromInt, BitmapByte;
  }

  /** Byte j of two bitmaps differs only where an offset it stands for does. */
  lemma ByteDiffers(span: nat, a: set<nat>, b: set<nat>, j: nat) returns (d: nat)
    requires BitmapByte(span, a, j) != BitmapByte(span, b, j)
    ensures d < span && 8 * j <= span - 1 - d < 8 * j + 8 && (d in a) != (d in b)
  {
    var p := PartDiffers(span, a, b, 8 * j, 8);
    d := span - 1 - p;
  }

  lemma {:induction false} PartDiffers(span: nat, a: set<nat>, b: set<nat>, p: nat, n: nat) returns (r: nat)
    requires BitmapPart(span, a, p, n) != BitmapPart(span, b, p, n)
    ensures p <= r < p + n && BitmapBit(span, a, r) != BitmapBit(span, b, r)
    decreases n
  {
    if BitmapBit(span, a, p) != BitmapBit(span, b, p) {
      r := p;
    } else {
      r := PartDiffers(span, a, b, p + 1, n - 1);
    }
  }
}
