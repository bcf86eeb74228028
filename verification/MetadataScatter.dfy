/** Replicated leaf metadata: a copy in front of every group of entries. */
module MetadataScatter {
  import opened Arith
  import opened VersionLayout
  import opened VersionCodec

  /** Entries and metadata have their fixed sizes. */
  ghost predicate Sized(L: Layout, m: seq<Byte>, es: seq<seq<Byte>>) {
    L.Ok() && |m| == L.meta && forall i :: 0 <= i < |es| ==> |es[i]| == L.entry
  }

  /** The decoded bytes of entries l to r: each entry, after a copy of the metadata if it starts a group. */
  function Scatter(L: Layout, m: seq<Byte>, es: seq<seq<Byte>>, l: nat, r: nat): seq<Byte>
    requires L.Ok() && l <= r <= |es|
    decreases r
  {
    if l == r then [] else Scatter(L, m, es, l, r - 1) + ((if (r - 1) % L.perGroup == 0 then m else []) + es[r - 1])
  }

  /** The entries one after the other, as they lie in the local leaf. */
  function Flat(es: seq<seq<Byte>>, l: nat, r: nat): seq<Byte>
    requires l <= r <= |es|
    decreases r
  {
    if l == r then [] else Flat(es, l, r - 1) + es[r - 1]
  }

  lemma OffsetStep(L: Layout, idx: nat)
    requires L.Ok()
    ensures Offset(L, idx + 1) == Offset(L, idx) + (if idx % L.perGroup == 0 then L.meta else 0) + L.entry
  {
    hide Offset;
    var n := L.perGroup;
    OffsetIs(L, idx);
    OffsetIs(L, idx + 1);
    assert (idx + 1) * L.entry == idx * L.entry + L.entry;
    CeilStep(n, idx);
    var c := CeilDiv(n, idx);
    assert (c + 1) * L.meta == c * L.meta + L.meta;
  }

  lemma CeilStep(n: nat, i: nat)
    requires 1 <= n
    ensures CeilDiv(n, i + 1) == CeilDiv(n, i) + if i % n == 0 then 1 else 0
  {
    var q, r := Decompose(n, i);
    if r + 1 < n {
      DivisionUnique(n, i + 1, q, r + 1);
    } else {
      assert (q + 1) * n == q * n + n;
      DivisionUnique(n, i + 1, q + 1, 0);
    }
  }

  /** A scattered segment has exactly the length the offset formulas give it. */
  lemma {:induction false} ScatterLength(L: Layout, m: seq<Byte>, es: seq<seq<Byte>>, l: nat, r: nat)
    requires Sized(L, m, es) && l <= r <= |es|
    ensures Offset(L, l) + |Scatter(L, m, es, l, r)| == Offset(L, r)
    decreases r
  {
    hide Offset;
    if l < r {
      ScatterLength(L, m, es, l, r - 1);
      OffsetStep(L, r - 1);
    }
  }

  lemma {:induction false} ScatterTiles(L: Layout, m: seq<Byte>, es: seq<seq<Byte>>, l: nat, k: nat, r: nat)
    requires L.Ok() && l <= k <= r <= |es|
    ensures Scatter(L, m, es, l, r) == Scatter(L, m, es, l, k) + Scatter(L, m, es, k, r)
    decreases r
  {
    if k < r {
      ScatterTiles(L, m, es, l, k, r - 1);
      var c := (if (r - 1) % L.perGroup == 0 then m else []) + es[r - 1];
      assert (Scatter(L, m, es, l, k) + Scatter(L, m, es, k, r - 1)) + c
          == Scatter(L, m, es, l, k) + (Scatter(L, m, es, k, r - 1) + c);
    }
  }

  lemma {:induction false} ScatterSame(L: Layout, m: seq<Byte>, es: seq<seq<Byte>>, es': seq<seq<Byte>>, l: nat, r: nat)
    requires L.Ok() && l <= r <= |es| && r <= |es'| && forall i :: l <= i < r ==> es[i] == es'[i]
    ensures Scatter(L, m, es, l, r) == Scatter(L, m, es', l, r)
    decreases r
  {
    if l < r { ScatterSame(L, m, es, es', l, r - 1); }
  }

  lemma OffsetZero(L: Layout)
    requires L.Ok()
    ensures Offset(L, 0) == 0
  {
    OffsetIs(L, 0);
  }

  /** Two leaves that differ only in entries l to r differ, as bytes, only in that segment. */
  lemma ScatterDiffers(L: Layout, m: seq<Byte>, es: seq<seq<Byte>>, es': seq<seq<Byte>>, l: nat, r: nat, i: nat)
    requires Sized(L, m, es) && Sized(L, m, es') && l <= r <= |es| == |es'|
    requires forall j :: 0 <= j < |es| && !(l <= j < r) ==> es[j] == es'[j]
    requires var d := Scatter(L, m, es, 0, |es|); i < |d| && !(Offset(L, l) <= i < Offset(L, r))
    ensures |Scatter(L, m, es', 0, |es|)| == |Scatter(L, m, es, 0, |es|)|
    ensures Scatter(L, m, es', 0, |es|)[i] == Scatter(L, m, es, 0, |es|)[i]
  {
    hide Offset, Scatter;
    var n := |es|;
    OffsetZero(L);
    ScatterLength(L, m, es, 0, n);
    ScatterLength(L, m, es', 0, n);
    ScatterLength(L, m, es, 0, l);
    ScatterLength(L, m, es', 0, l);
    ScatterLength(L, m, es, 0, r);
    ScatterLength(L, m, es', 0, r);
    ScatterSame(L, m, es, es', 0, l);
    ScatterSame(L, m, es, es', r, n);
    ScatterTiles(L, m, es, 0, l, n);
    ScatterTiles(L, m, es', 0, l, n);
    ScatterTiles(L, m, es, 0, r, n);
    ScatterTiles(L, m, es', 0, r, n);
  }

  /** Entries l to r of the leaf are bytes Offset(l) to Offset(r). */
  lemma ScatterSlice(L: Layout, m: seq<Byte>, es: seq<seq<Byte>>, l: nat, r: nat)
    requires Sized(L, m, es) && l <= r <= |es|
    ensures var d := Scatter(L, m, es, 0, |es|);
            && Offset(L, l) <= Offset(L, r) <= Offset(L, |es|) == |d|
            && d[Offset(L, l)..Offset(L, r)] == Scatter(L, m, es, l, r)
  {
    hide Offset, Scatter;
    var n := |es|;
    OffsetZero(L);
    ScatterLength(L, m, es, 0, n);
    ScatterLength(L, m, es, 0, l);
    ScatterLength(L, m, es, l, r);
    ScatterLength(L, m, es, r, n);
    ScatterTiles(L, m, es, 0, l, n);
    ScatterTiles(L, m, es, l, r, n);
    Middle(Scatter(L, m, es, 0, l), Scatter(L, m, es, l, r), Scatter(L, m, es, r, n));
  }

  lemma Middle(a: seq<Byte>, b: seq<Byte>, c: seq<Byte>)
    ensures (a + (b + c))[|a|..|a| + |b|] == b
  {}

  /** Writing one encoded segment installs exactly the new entries: the node in memory becomes the encoding of the leaf
      with entries l to r replaced. */
  lemma SegmentWriteInstallsEntries(L: Layout, m: seq<Byte>, es: seq<seq<Byte>>, es': seq<seq<Byte>>, l: nat, r: nat)
    requires Sized(L, m, es) && Sized(L, m, es') && l <= r <= |es| == |es'|
    requires forall j :: 0 <= j < |es| && !(l <= j < r) ==> es[j] == es'[j]
    ensures var d, d' := Scatter(L, m, es, 0, |es|), Scatter(L, m, es', 0, |es|);
            var s, e := Offset(L, l), Offset(L, r);
            && s <= e <= |d| == |d'| && d'[s..e] == Scatter(L, m, es', l, r)
            && Raw(s) <= Raw(e) <= |Encode(L, d, 0, |d|)|
            && Encode(L, d', 0, |d|)
                 == Encode(L, d, 0, |d|)[..Raw(s)] + Encode(L, d', s, e) + Encode(L, d, 0, |d|)[Raw(e)..]
  {
    hide Offset, Scatter, Encode, Raw, ObjStart;
    var d, d' := Scatter(L, m, es, 0, |es|), Scatter(L, m, es', 0, |es|);
    ScatterSlice(L, m, es, l, r);
    ScatterSlice(L, m, es', l, r);
    OffsetIsStart(L, l);
    OffsetIsStart(L, r);
    forall i | 0 <= i < |d| && !(Offset(L, l) <= i < Offset(L, r)) ensures d[i] == d'[i] {
      ScatterDiffers(L, m, es, es', l, r, i);
    }
    SegmentWrite(L, d, d', Offset(L, l), Offset(L, r));
  }

  // ---- the group-wise code ----

  lemma {:induction false} FlatLength(L: Layout, m: seq<Byte>, es: seq<seq<Byte>>, l: nat, r: nat)
    requires Sized(L, m, es) && l <= r <= |es|
    ensures |Flat(es, l, r)| == (r - l) * L.entry
    decreases r
  {
    if l < r {
      FlatLength(L, m, es, l, r - 1);
      assert (r - l) * L.entry == (r - 1 - l) * L.entry + L.entry;
    }
  }

  lemma {:induction false} FlatTiles(es: seq<seq<Byte>>, l: nat, k: nat, r: nat)
    requires l <= k <= r <= |es|
    ensures Flat(es, l, r) == Flat(es, l, k) + Flat(es, k, r)
    decreases r
  {
    if k < r {
      FlatTiles(es, l, k, r - 1);
      assert (Flat(es, l, k) + Flat(es, k, r - 1)) + es[r - 1] == Flat(es, l, k) + (Flat(es, k, r - 1) + es[r - 1]);
    }
  }

  lemma FlatSlice(L: Layout, m: seq<Byte>, es: seq<seq<Byte>>, l: nat, a: nat, b: nat, r: nat)
    requires Sized(L, m, es) && l <= a <= b <= r <= |es|
    ensures 0 <= (a - l) * L.entry <= (b - l) * L.entry <= |Flat(es, l, r)| == (r - l) * L.entry
    ensures Flat(es, l, r)[(a - l) * L.entry..(b - l) * L.entry] == Flat(es, a, b)
  {
    hide Flat;
    FlatTiles(es, l, a, r);
    FlatTiles(es, a, b, r);
    FlatLength(L, m, es, l, a);
    FlatLength(L, m, es, a, b);
    FlatLength(L, m, es, b, r);
    FlatLength(L, m, es, l, r);
    assert (b - l) * L.entry == (a - l) * L.entry + (b - a) * L.entry;
    Middle(Flat(es, l, a), Flat(es, a, b), Flat(es, b, r));
  }

  /** Entries that start no group have no metadata between them. */
  lemma {:induction false} ScatterPlain(L: Layout, m: seq<Byte>, es: seq<seq<Byte>>, l: nat, r: nat)
    requires L.Ok() && l <= r <= |es| && forall i :: l <= i < r ==> i % L.perGroup != 0
    ensures Scatter(L, m, es, l, r) == Flat(es, l, r)
    decreases r
  {
    if l < r { ScatterPlain(L, m, es, l, r - 1); }
  }

  lemma InsideGroup(n: nat, k: nat, r: nat)
    requires 1 <= n && k % n == 0 && r <= k + n
    ensures forall i :: k < i < r ==> i % n != 0
  {
    forall i | k < i < r ensures i % n != 0 {
      var q, o := Decompose(n, k);
      DivisionUnique(n, i, q, i - k);
    }
  }

  lemma ScatterOne(L: Layout, m: seq<Byte>, es: seq<seq<Byte>>, k: nat)
    requires L.Ok() && k < |es| && k % L.perGroup == 0
    ensures Scatter(L, m, es, k, k + 1) == m + es[k] && Flat(es, k, k + 1) == es[k]
  {
    assert [] + (m + es[k]) == m + es[k] && [] + es[k] == es[k];
  }

  /** A group, or the beginning of one, is one copy of the metadata and then its entries. */
  lemma ScatterGroup(L: Layout, m: seq<Byte>, es: seq<seq<Byte>>, k: nat, r: nat)
    requires L.Ok() && k < r <= |es| && r <= k + L.perGroup && k % L.perGroup == 0
    ensures Scatter(L, m, es, k, r) == m + Flat(es, k, r)
  {
    hide Scatter, Flat;
    ScatterTiles(L, m, es, k, k + 1, r);
    FlatTiles(es, k, k + 1, r);
    InsideGroup(L.perGroup, k, r);
    ScatterPlain(L, m, es, k + 1, r);
    ScatterOne(L, m, es, k);
    assert (m + es[k]) + Flat(es, k + 1, r) == m + (es[k] + Flat(es, k + 1, r));
  }

  /** The entries before the first metadata copy of a segment start no group; the one after them does. */
  lemma BeforeFirst(n: nat, l: nat, k: nat)
    requires 1 <= n && l <= k <= l + ToGroup(n, l)
    ensures forall i :: l <= i < k ==> i % n != 0
    ensures k == l + ToGroup(n, l) ==> k % n == 0
  {
    ToGroupIs(n, l);
    var c := CeilDiv(n, l);
    DivisionUnique(n, c * n, c, 0);
    forall i | l <= i < k ensures i % n != 0 {
      var q, r := Decompose(n, l);
      assert (q + 1) * n == q * n + n;
      DivisionUnique(n, i, q, i - q * n);
    }
  }

  /** How many entries come before the first metadata copy. */
  function FirstCount(L: Layout, l: nat, num: nat): (c: nat)
    requires L.Ok()
    ensures c <= num
  {
    var z := ToGroup(L.perGroup, l);
    if z <= num then z else num
  }

  lemma FirstCountIs(L: Layout, l: nat, num: nat)
    requires L.Ok()
    ensures MetadataInfo(L, l, num).0 == FirstCount(L, l, num) * L.entry
  {
    var z := ToGroup(L.perGroup, l);
    MulMono(z, num, L.entry);
    MulMono(num, z, L.entry);
  }

  /** `encode_segment_metadata`: put a copy of the metadata in front of every group of the segment. */
  method ScatterSegment(L: Layout, input: seq<Byte>, l: nat, num: nat, m: seq<Byte>, ghost es: seq<seq<Byte>>) returns (out: seq<Byte>)
    requires Sized(L, m, es) && l + num <= |es| && input == Flat(es, l, l + num)
    ensures out == Scatter(L, m, es, l, l + num)
  {
    hide Scatter, Flat, MetadataInfo, ToGroup;
    var k := FirstCount(L, l, num);
    FirstCountIs(L, l, num);
    var first := MetadataInfo(L, l, num).0;
    FlatSlice(L, m, es, l, l, l + k, l + num);
    SegmentHead(L, m, es, l, num);
    out := input[..first];
    var i := first;
    while k < num
      invariant k <= num && i == k * L.entry && (k < num ==> (l + k) % L.perGroup == 0)
      invariant out == Scatter(L, m, es, l, l + k)
    {
      var next := if k + L.perGroup <= num then k + L.perGroup else num;
      FlatSlice(L, m, es, l, l + k, l + next, l + num);
      ScatterTiles(L, m, es, l, l + k, l + next);
      ScatterGroup(L, m, es, l + k, l + next);
      NextGroup(L.perGroup, l + k);
      out := out + (m + input[i..next * L.entry]);
      k, i := next, next * L.entry;
    }
  }

  lemma NextGroup(n: nat, k: nat)
    requires 1 <= n && k % n == 0
    ensures (k + n) % n == 0
  {
    var q, o := Decompose(n, k);
    assert (q + 1) * n == q * n + n;
    DivisionUnique(n, k + n, q + 1, 0);
  }

  lemma SegmentHead(L: Layout, m: seq<Byte>, es: seq<seq<Byte>>, l: nat, num: nat)
    requires Sized(L, m, es) && l + num <= |es|
    ensures var k := FirstCount(L, l, num);
            Scatter(L, m, es, l, l + k) == Flat(es, l, l + k) && (k < num ==> (l + k) % L.perGroup == 0)
  {
    hide Scatter, Flat;
    var k := FirstCount(L, l, num);
    BeforeFirst(L.perGroup, l, l + k);
    ScatterPlain(L, m, es, l, l + k);
  }

  /** `decode_segment_metadata`: take the metadata copies out again.  Gives the metadata, if the segment has a copy. */
  method GatherSegment(L: Layout, input: seq<Byte>, l: nat, num: nat, ghost m: seq<Byte>, ghost es: seq<seq<Byte>>)
    returns (has: bool, metadata: seq<Byte>, out: seq<Byte>)
    requires Sized(L, m, es) && l + num <= |es| && input == Scatter(L, m, es, l, l + num)
    ensures out == Flat(es, l, l + num)
    ensures has <==> FirstCount(L, l, num) < num
    ensures has ==> metadata == m
  {
    hide Scatter, Flat, MetadataInfo, ToGroup, Offset;
    var k := FirstCount(L, l, num);
    FirstCountIs(L, l, num);
    SegmentHead(L, m, es, l, num);
    SplitBytes(L, m, es, l, l + k, l + num);
    FlatLength(L, m, es, l, l + k);
    var i := MetadataInfo(L, l, num).0;
    out, metadata, has := input[..i], [], k < num;
    while k < num
      invariant k <= num && 0 <= i == |Scatter(L, m, es, l, l + k)| && (k < num ==> (l + k) % L.perGroup == 0)
      invariant out == Flat(es, l, l + k) && (k > FirstCount(L, l, num) ==> metadata == m)
    {
      var next := if k + L.perGroup <= num then k + L.perGroup else num;
      GroupBytes(L, m, es, l, l + k, l + next, l + num);
      FlatTiles(es, l, l + k, l + next);
      NextGroup(L.perGroup, l + k);
      metadata := input[i..i + L.meta];
      i := i + L.meta;
      out := out + input[i..i + (next - k) * L.entry];
      k, i := next, i + (next - k) * L.entry;
    }
  }

  lemma SplitBytes(L: Layout, m: seq<Byte>, es: seq<seq<Byte>>, l: nat, k: nat, r: nat)
    requires Sized(L, m, es) && l <= k <= r <= |es|
    ensures var x, n := Scatter(L, m, es, l, r), |Scatter(L, m, es, l, k)|; n <= |x| && x[..n] == Scatter(L, m, es, l, k)
  {
    ScatterTiles(L, m, es, l, k, r);
  }

  lemma GroupBytes(L: Layout, m: seq<Byte>, es: seq<seq<Byte>>, l: nat, k: nat, next: nat, r: nat)
    requires Sized(L, m, es) && l <= k < next <= r <= |es| && next <= k + L.perGroup && k % L.perGroup == 0
    ensures var x, i, n := Scatter(L, m, es, l, r), |Scatter(L, m, es, l, k)|, (next - k) * L.entry;
            && 0 <= n && i + L.meta + n <= |x|
            && x[i..i + L.meta] == m && x[i + L.meta..i + L.meta + n] == Flat(es, k, next)
            && |Scatter(L, m, es, l, next)| == i + L.meta + n
  {
    hide Scatter, Flat;
    ScatterTiles(L, m, es, l, k, next);
    ScatterTiles(L, m, es, l, next, r);
    ScatterGroup(L, m, es, k, next);
    FlatLength(L, m, es, k, next);
    var a, f, c := Scatter(L, m, es, l, k), Flat(es, k, next), Scatter(L, m, es, next, r);
    assert Scatter(L, m, es, l, r) == a + (m + (f + c)) by { assert (a + (m + f)) + c == a + (m + (f + c)); }
    Middle(a, m, f + c);
    assert a + (m + (f + c)) == (a + m) + (f + c);
    Middle(a + m, f, c);
  }
}
