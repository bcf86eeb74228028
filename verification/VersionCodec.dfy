/** Encoding and decoding nodes and segments of nodes. */
module VersionCodec {
  import opened Arith
  import opened VersionLayout

  // ---- the reference encoding, byte by byte ----

  /** What decoded byte i contributes: itself, after the version of its object if it starts a line. */
  function Cell(L: Layout, d: seq<Byte>, i: nat): (c: seq<Byte>)
    requires L.Ok() && i < |d|
    ensures |c| == if Boundary(i) then 2 else 1
  {
    ObjStartBelow(L, i);
    if Boundary(i) then [d[ObjStart(L, i)], d[i]] else [d[i]]
  }

  /** The encoding of decoded bytes s to e of the node d. */
  function Encode(L: Layout, d: seq<Byte>, s: nat, e: nat): (x: seq<Byte>)
    requires L.Ok() && s <= e <= |d|
    ensures |x| == Raw(e) - Raw(s)
    decreases e
  {
    if s == e then []
    else
      LinesStep(e - 1);
      Encode(L, d, s, e - 1) + Cell(L, d, e - 1)
  }

  /** Adjacent segments tile. */
  lemma {:induction false} EncodeTiles(L: Layout, d: seq<Byte>, s: nat, m: nat, e: nat)
    requires L.Ok() && s <= m <= e <= |d|
    ensures Encode(L, d, s, e) == Encode(L, d, s, m) + Encode(L, d, m, e)
    decreases e
  {
    hide Raw, ObjStart, Boundary, Cell;
    if m < e {
      EncodeTiles(L, d, s, m, e - 1);
      assert Encode(L, d, s, m) + Encode(L, d, m, e - 1) + Cell(L, d, e - 1)
          == Encode(L, d, s, m) + (Encode(L, d, m, e - 1) + Cell(L, d, e - 1));
    }
  }

  /** The encoding of a range that starts at an object start depends on that range only. */
  lemma {:induction false} EncodeLocal(L: Layout, d: seq<Byte>, d': seq<Byte>, s: nat, e: nat)
    requires L.Ok() && s <= e <= |d| && e <= |d'| && ObjStart(L, s) == s
    requires forall i :: s <= i < e ==> d[i] == d'[i]
    ensures Encode(L, d, s, e) == Encode(L, d', s, e)
    decreases e
  {
    hide Raw, ObjStart, Boundary;
    if s < e {
      EncodeLocal(L, d, d', s, e - 1);
      ObjStartMonotone(L, s, e - 1);
      ObjStartBelow(L, e - 1);
    }
  }

  /** Writing an encoded segment at its raw offset into an encoded node gives the encoding of the node with that segment
      replaced; nothing outside the segment is touched. */
  lemma SegmentWrite(L: Layout, d: seq<Byte>, d': seq<Byte>, s: nat, e: nat)
    requires L.Ok() && s <= e <= |d| == |d'| && ObjStart(L, s) == s && (e == |d| || ObjStart(L, e) == e)
    requires forall i :: 0 <= i < |d| && !(s <= i < e) ==> d[i] == d'[i]
    ensures Raw(s) <= Raw(e) <= Raw(|d|) && |Encode(L, d, 0, |d|)| == Raw(|d|)
    ensures Encode(L, d', 0, |d|)
         == Encode(L, d, 0, |d|)[..Raw(s)] + Encode(L, d', s, e) + Encode(L, d, 0, |d|)[Raw(e)..]
  {
    hide Encode, ObjStart, Raw;
    var n := |d|;
    RawMonotone(0, s);
    RawMonotone(s, e);
    RawMonotone(e, n);
    EncodeTiles(L, d, 0, s, n);
    EncodeTiles(L, d, s, e, n);
    EncodeTiles(L, d', 0, s, n);
    EncodeTiles(L, d', s, e, n);
    StartIsStart(L);
    EncodeLocal(L, d, d', 0, s);
    if e < n { EncodeLocal(L, d, d', e, n); } else { EncodeNothing(L, d, n); EncodeNothing(L, d', n); }
    Replace(Encode(L, d, 0, s), Encode(L, d, s, e), Encode(L, d', s, e), Encode(L, d, e, n));
    RawZero();
  }

  lemma RawZero()
    ensures Raw(0) == 0
  {}

  lemma StartIsStart(L: Layout)
    requires L.Ok()
    ensures ObjStart(L, 0) == 0
  {
    ObjStartBelow(L, 0);
  }

  lemma EncodeNothing(L: Layout, d: seq<Byte>, e: nat)
    requires L.Ok() && e <= |d|
    ensures Encode(L, d, e, e) == []
  {}

  lemma Replace(a: seq<Byte>, b: seq<Byte>, b': seq<Byte>, c: seq<Byte>)
    ensures a + (b' + c) == (a + (b + c))[..|a|] + b' + (a + (b + c))[|a| + |b|..]
  {
    assert (a + (b + c))[..|a|] == a && (a + (b + c))[|a| + |b|..] == c;
    assert a + (b' + c) == a + b' + c;
  }

  // ---- the offset formulas ----

  /** Decoded offset of entry idx; that of the group's metadata when the entry is the first of its group. */
  function Offset(L: Layout, idx: nat): nat
    requires L.Ok()
  {
    Times(idx / L.perGroup, L.Group()) + if idx % L.perGroup == 0 then 0 else L.meta + Times(idx % L.perGroup, L.entry)
  }

  function CeilDiv(n: nat, x: nat): nat
    requires 1 <= n
  {
    x / n + if x % n != 0 then 1 else 0
  }

  /** Every entry before idx takes its own bytes, every group begun takes one copy of the metadata. */
  lemma OffsetIs(L: Layout, idx: nat)
    requires L.Ok()
    ensures Offset(L, idx) == idx * L.entry + CeilDiv(L.perGroup, idx) * L.meta
  {
    var q, r := Decompose(L.perGroup, idx);
    ScaleParts(q, L.perGroup, r, L.entry);
    MulAdd(L.meta, L.entry * L.perGroup, q);
    MulAdd(q, 1, L.meta);
  }

  /** `MetadataManager::get_offset_info`: where the first metadata copy lies in the segment, and the segment's length
      with its metadata copies. */
  function MetadataInfo(L: Layout, start: nat, num: nat): (nat, nat)
    requires L.Ok()
  {
    var len := Times(num, L.entry);
    var toGroup := Times((L.perGroup - start % L.perGroup) % L.perGroup, L.entry);
    var first := if toGroup <= len then toGroup else len;
    var groupBytes := Times(L.entry, L.perGroup);
    (first, len + if groupBytes == 0 then 0 else Times(L.meta, CeilDiv(groupBytes, len - first)))
  }

  lemma CeilShift(n: nat, c: nat, y: nat)
    requires 1 <= n
    ensures CeilDiv(n, c * n + y) == c + CeilDiv(n, y)
  {
    var q, r := Decompose(n, y);
    assert (c + q) * n == c * n + q * n;
    DivisionUnique(n, c * n + y, c + q, r);
  }

  lemma ScaledRest(n: nat, k: nat, r: nat)
    requires r < n && 1 <= k
    ensures 0 <= r * k < k * n && (r * k == 0 <==> r == 0)
  {
    MulMono(r, n, k);
    MulMono(0, r, k);
    assert n * k == k * n;
  }

  lemma CeilScale(n: nat, k: nat, y: nat)
    requires 1 <= n && 1 <= k
    ensures k * n >= 1 && CeilDiv(k * n, y * k) == CeilDiv(n, y)
  {
    var q, r := Decompose(n, y);
    var group, rest := k * n, r * k;
    ScaleParts(q, n, r, k);
    ScaledRest(n, k, r);
    DivisionUnique(group, y * k, q, rest);
  }

  /** Distance from entry l to the next group start. */
  function ToGroup(n: nat, l: nat): (z: nat)
    requires 1 <= n
    ensures z < n
  {
    (n - l % n) % n
  }

  lemma ToGroupIs(n: nat, l: nat)
    requires 1 <= n
    ensures l + ToGroup(n, l) == CeilDiv(n, l) * n
  {
    var q, r := Decompose(n, l);
    if r == 0 {
      DivisionUnique(n, n, 1, 0);
    } else {
      SmallMod(n - r, n);
      assert (q + 1) * n == q * n + n;
    }
  }

  /** How many groups begin among the num entries from l on. */
  lemma GroupsBegun(n: nat, l: nat, num: nat)
    requires 1 <= n
    ensures CeilDiv(n, l + num) == CeilDiv(n, l) + if num <= ToGroup(n, l) then 0 else CeilDiv(n, num - ToGroup(n, l))
  {
    var z, c := ToGroup(n, l), CeilDiv(n, l);
    ToGroupIs(n, l);
    if num >= z {
      CeilShift(n, c, num - z);
      if num == z { CeilZero(n); }
    } else {
      var q, r := Decompose(n, l);
      assert c * n == if r == 0 then q * n else q * n + n;
      DivisionUnique(n, l + num, q, r + num);
    }
  }

  lemma CeilZero(n: nat)
    requires 1 <= n
    ensures CeilDiv(n, 0) == 0
  {}

  /** The metadata formula and the version formula agree on the length of every segment. */
  lemma LengthsAgree(L: Layout, l: nat, num: nat)
    requires L.Ok()
    ensures Offset(L, l) + MetadataInfo(L, l, num).1 == Offset(L, l + num)
  {
    hide CeilDiv, Offset;
    var n, z := L.perGroup, ToGroup(L.perGroup, l);
    OffsetIs(L, l);
    OffsetIs(L, l + num);
    GroupsBegun(n, l, num);
    MulMono(z, num, L.entry);
    MulMono(num, z, L.entry);
    var y := if num <= z then 0 else num - z;
    CeilScale(n, L.entry, y);
    CeilZero(n);
    CeilZero(L.entry * n);
    Distribute(num, z, L.entry);
    Distribute(l + num, l, L.entry);
    var a, b := CeilDiv(n, l), CeilDiv(n, l + num);
    assert b * L.meta == a * L.meta + (b - a) * L.meta;
  }

  lemma Distribute(a: nat, b: nat, k: nat)
    ensures (a - b) * k == a * k - b * k
  {}

  /** The version formula's `get_raw_distance`. */
  function RawDistance(x: int): int {
    if x <= 0 then x else x + CeilDiv(BLOCK, x)
  }

  /** `LeafVersionManager::get_offset_info`: raw offset, raw length and distance to the first version byte. */
  function VersionInfo(s: nat, e: nat): (int, int, int)
    requires s <= e
  {
    var dist := s - LINE;
    var lines := if dist < 0 then 0 else CeilDiv(BLOCK, dist);
    var next := LINE + lines * BLOCK - s;
    (s + lines, RawDistance(e - LINE) - RawDistance(s - LINE), if next <= e - s then next else e - s)
  }

  lemma RawDistanceIs(x: nat)
    ensures Raw(x) == LINE + RawDistance(x - LINE)
    ensures Raw(x) == x + if x < LINE then 0 else CeilDiv(BLOCK, x - LINE)
  {
    var d: int := x - LINE;
    if d > 0 {
      var q, r := Decompose(BLOCK, d);
      assert d + BLOCK - 1 == (if r == 0 then q else q + 1) * BLOCK + if r == 0 then BLOCK - 1 else r - 1;
      DivisionUnique(BLOCK, d + BLOCK - 1, if r == 0 then q else q + 1, if r == 0 then BLOCK - 1 else r - 1);
    }
  }

  /** The first line start at or after s. */
  lemma NextLineIs(s: nat)
    ensures var n := LINE + (if s < LINE then 0 else CeilDiv(BLOCK, s - LINE)) * BLOCK;
            s <= n && Boundary(n) && forall i :: s <= i < n ==> !Boundary(i)
  {
    var lines := if s < LINE then 0 else CeilDiv(BLOCK, s - LINE);
    var n := LINE + lines * BLOCK;
    DivisionUnique(BLOCK, n - LINE, lines, 0);
    forall i | s <= i < n ensures !Boundary(i) {
      if i >= LINE {
        var q, r := Decompose(BLOCK, i - LINE);
        assert q < lines;
      }
    }
  }

  /** The formulas say where the segment lies in the encoded node, how long it is there, and that its first version
      byte comes right after `first` bytes. */
  lemma VersionInfoIs(s: nat, e: nat)
    requires s <= e
    ensures var (offset, len, first) := VersionInfo(s, e);
            && offset == Raw(s) && offset + len == Raw(e) && 0 <= first <= e - s
            && (s + first < e ==> Boundary(s + first))
            && forall i :: s <= i < s + first ==> !Boundary(i)
  {
    hide Raw, Boundary, CeilDiv, RawDistance;
    RawDistanceIs(s);
    RawDistanceIs(e);
    NextLineIs(s);
  }

  /** Where the object holding local offset i of a segment starts, from the segment's own layout. */
  function LocalStart(L: Layout, first: nat, i: nat): nat
    requires L.Ok()
  {
    if i < first then Times(i / L.entry, L.entry)
    else
      GroupPositive(L);
      first + Times((i - first) / L.Group(), L.Group()) + StartInGroup(L, (i - first) % L.Group())
  }

  lemma ObjStartGroups(L: Layout, q: nat, x: nat)
    requires L.Ok()
    ensures q * L.Group() + x >= 0 && ObjStart(L, q * L.Group() + x) == q * L.Group() + ObjStart(L, x)
  {
    hide StartInGroup, ObjStart;
    GroupPositive(L);
    var n := L.Group();
    var p, o := Decompose(n, x);
    assert (q + p) * n == q * n + p * n;
    ObjStartShift(L, p, o);
    ObjStartShift(L, q + p, o);
  }

  /** Inside the first, partial group of a segment. */
  lemma LocalStartPartial(L: Layout, q: nat, r: nat, i: nat)
    requires L.Ok() && 1 <= r < L.perGroup && i < (L.perGroup - r) * L.entry
    ensures q * L.Group() + L.meta + r * L.entry + i >= 0
    ensures ObjStart(L, q * L.Group() + L.meta + r * L.entry + i) == q * L.Group() + L.meta + r * L.entry + i / L.entry * L.entry
  {
    hide ObjStart;
    var k := L.entry;
    var a, b := Decompose(k, i);
    assert (r + a) * k == r * k + a * k;
    DivisionUnique(k, r * k + i, r + a, b);
    Distribute(L.perGroup, r, k);
    assert L.perGroup * k == k * L.perGroup;
    ObjStartShift(L, q, L.meta + r * k + i);
  }

  /** From a group start on. */
  lemma LocalStartAligned(L: Layout, base: nat, q: nat, first: nat, i: nat)
    requires L.Ok() && first <= i && base + first == q * L.Group()
    ensures ObjStart(L, base + i) == base + LocalStart(L, first, i)
  {
    hide ObjStart, StartInGroup;
    ObjStartGroups(L, q, i - first);
    ObjStartIs(L, i - first);
  }

  lemma OffsetParts(L: Layout, l: nat) returns (q: nat, r: nat)
    requires L.Ok()
    ensures l == q * L.perGroup + r && r < L.perGroup
    ensures Offset(L, l) == q * L.Group() + if r == 0 then 0 else L.meta + r * L.entry
    ensures ToGroup(L.perGroup, l) == if r == 0 then 0 else L.perGroup - r
    ensures (L.perGroup - r) * L.entry == L.entry * L.perGroup - r * L.entry
    ensures (q + 1) * L.Group() == q * L.Group() + L.Group()
  {
    var n := L.perGroup;
    q, r := Decompose(n, l);
    if r == 0 { DivisionUnique(n, n, 1, 0); } else { SmallMod(n - r, n); }
    Distribute(n, r, L.entry);
  }

  /** A segment's own layout agrees with the node's. */
  lemma LocalStartIs(L: Layout, l: nat, num: nat, i: nat)
    requires L.Ok() && Offset(L, l) + i < Offset(L, l + num)
    ensures ObjStart(L, Offset(L, l) + i) == Offset(L, l) + LocalStart(L, MetadataInfo(L, l, num).0, i)
  {
    hide ObjStart, StartInGroup, Offset, ToGroup;
    var q, r := OffsetParts(L, l);
    var first := MetadataInfo(L, l, num).0;
    FirstMetadata(L, l, num);
    if first <= i {
      FullFirstGroup(L, l, num, i);
      LocalStartAligned(L, Offset(L, l), if r == 0 then q else q + 1, first, i);
    } else {
      LocalStartPartial(L, q, r, i);
    }
  }

  lemma FirstMetadata(L: Layout, l: nat, num: nat)
    requires L.Ok()
    ensures MetadataInfo(L, l, num).0 <= ToGroup(L.perGroup, l) * L.entry
  {}

  lemma ObjStartIs(L: Layout, i: nat)
    requires L.Ok()
    ensures L.Group() >= 1 && ObjStart(L, i) == i / L.Group() * L.Group() + StartInGroup(L, i % L.Group())
  {}

  /** A segment that reaches past its first metadata copy contains the rest of its first group. */
  lemma FullFirstGroup(L: Layout, l: nat, num: nat, i: nat)
    requires L.Ok() && Offset(L, l) + i < Offset(L, l + num) && MetadataInfo(L, l, num).0 <= i
    ensures MetadataInfo(L, l, num).0 == ToGroup(L.perGroup, l) * L.entry
  {
    hide Offset;
    LengthsAgree(L, l, num);
    CeilZero(L.entry * L.perGroup);
  }

  lemma OffsetIsStart(L: Layout, l: nat)
    requires L.Ok()
    ensures ObjStart(L, Offset(L, l)) == Offset(L, l)
  {
    hide Offset, ObjStart;
    var q, r := OffsetParts(L, l);
    if r == 0 {
      ObjStartShift(L, q, 0);
    } else {
      MulSign(L.perGroup - r, L.entry);
      LocalStartPartial(L, q, r, 0);
    }
  }

  // ---- the block-wise code ----

  lemma {:induction false} EncodeRun(L: Layout, d: seq<Byte>, a: nat, b: nat)
    requires L.Ok() && a <= b <= |d| && forall i :: a <= i < b ==> !Boundary(i)
    ensures Encode(L, d, a, b) == d[a..b]
    decreases b
  {
    hide Boundary, ObjStart, Raw;
    if a < b {
      EncodeRun(L, d, a, b - 1);
      assert d[a..b] == d[a..b - 1] + [d[b - 1]];
    } else {
      EncodeNothing(L, d, a);
    }
  }

  lemma NextBoundary(i: nat)
    requires Boundary(i)
    ensures Boundary(i + BLOCK) && forall j :: i < j < i + BLOCK ==> !Boundary(j)
  {}

  lemma EncodeOneMore(L: Layout, d: seq<Byte>, a: nat, b: nat)
    requires L.Ok() && a < b <= |d|
    ensures Encode(L, d, a, b) == Encode(L, d, a, b - 1) + Cell(L, d, b - 1)
  {}

  lemma {:induction false} EncodeBlock(L: Layout, d: seq<Byte>, a: nat, b: nat)
    requires L.Ok() && a < b <= |d| && b <= a + BLOCK && Boundary(a)
    ensures ObjStart(L, a) <= a && Encode(L, d, a, b) == [d[ObjStart(L, a)]] + d[a..b]
    decreases b
  {
    hide Boundary, ObjStart, Encode;
    ObjStartBelow(L, a);
    EncodeOneMore(L, d, a, b);
    if b == a + 1 {
      EncodeNothing(L, d, a);
      assert d[a..b] == [d[a]];
    } else {
      EncodeBlock(L, d, a, b - 1);
      NextBoundary(a);
      assert d[a..b] == d[a..b - 1] + [d[b - 1]];
    }
  }

  /** The version the code finds through the segment's own layout is that of the object in the node. */
  lemma LocalVersion(L: Layout, d: seq<Byte>, l: nat, num: nat, i: nat)
    requires L.Ok() && Offset(L, l) + i < Offset(L, l + num) <= |d|
    ensures var s, p := Offset(L, l), LocalStart(L, MetadataInfo(L, l, num).0, i);
            && ObjStart(L, s + i) == s + p && p <= i
  {
    hide Offset, ObjStart, LocalStart, MetadataInfo;
    LocalStartIs(L, l, num, i);
    ObjStartBelow(L, Offset(L, l) + i);
  }

  /** One round of the encoding loop: a version byte and up to one block of the segment. */
  lemma EncodeStep(L: Layout, d: seq<Byte>, s: nat, i: nat, next: nat)
    requires L.Ok() && s + next <= |d| && i < next <= i + BLOCK && Boundary(s + i)
    ensures ObjStart(L, s + i) <= s + i
    ensures Encode(L, d, s, s + i) + ([d[ObjStart(L, s + i)]] + d[s + i..s + next]) == Encode(L, d, s, s + next)
  {
    hide Encode, ObjStart, Boundary, Raw;
    EncodeTiles(L, d, s, s + i, s + next);
    EncodeBlock(L, d, s + i, s + next);
  }

  lemma EncodeFirst(L: Layout, d: seq<Byte>, s: nat, e: nat, first: int)
    requires L.Ok() && s <= e <= |d| && first == VersionInfo(s, e).2
    ensures 0 <= first <= e - s && (s + first < e ==> Boundary(s + first))
    ensures Encode(L, d, s, s + first) == d[s..e][..first]
  {
    hide Encode, VersionInfo, Raw, Boundary, ObjStart, Lines;
    VersionInfoIs(s, e);
    EncodeRun(L, d, s, s + first);
    assert d[s..e][..first] == d[s..s + first];
  }

  lemma EncodeLength(L: Layout, d: seq<Byte>, s: nat, e: nat)
    requires L.Ok() && s <= e <= |d|
    ensures |Encode(L, d, s, e)| == VersionInfo(s, e).1
  {
    hide Encode, VersionInfo, Raw, Boundary, ObjStart;
    VersionInfoIs(s, e);
  }

  lemma SliceOfSlice(d: seq<Byte>, s: nat, e: nat, i: nat, j: nat)
    requires s <= e <= |d| && i <= j <= e - s
    ensures d[s..e][i..j] == d[s + i..s + j]
  {
    forall q | 0 <= q < j - i ensures d[s..e][i..j][q] == d[s + i..s + j][q] {}
  }

  /** `encode_segment_versions` after the versions have been bumped; with l = 0 and all entries, `encode_node_versions`. */
  method EncodeSegment(L: Layout, input: seq<Byte>, l: nat, num: nat, ghost d: seq<Byte>) returns (out: seq<Byte>)
    requires L.Ok() && Offset(L, l) <= Offset(L, l + num) <= |d| && input == d[Offset(L, l)..Offset(L, l + num)]
    ensures out == Encode(L, d, Offset(L, l), Offset(L, l + num))
    ensures |out| == VersionInfo(Offset(L, l), Offset(L, l + num)).1
  {
    hide Encode, Offset, ObjStart, LocalStart, MetadataInfo, VersionInfo, Boundary, Raw;
    var s, e := Offset(L, l), Offset(L, l + num);
    var metadata := MetadataInfo(L, l, num).0;
    var first := VersionInfo(s, e).2;
    EncodeFirst(L, d, s, e, first);
    EncodeLength(L, d, s, e);
    out := input[..first];
    var i := first;
    while i < |input|
      invariant first <= i <= |input| && (i < |input| ==> Boundary(s + i))
      invariant out == Encode(L, d, s, s + i)
    {
      var next := if i + BLOCK <= |input| then i + BLOCK else |input|;
      LocalVersion(L, d, l, num, i);
      EncodeStep(L, d, s, i, next);
      NextBoundary(s + i);
      SliceOfSlice(d, s, e, i, next);
      out := out + ([input[LocalStart(L, metadata, i)]] + input[i..next]);
      i := next;
    }
  }
}
