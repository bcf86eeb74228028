/** Decoding what was read from remote memory, and what the version checks say about torn reads. */
module VersionDecode {
  import opened VersionLayout
  import opened VersionCodec

  /** Raw position of decoded byte i. */
  function DataPos(i: nat): nat {
    RawMonotone(i, i + 1);
    Raw(i + 1) - 1
  }

  lemma DataPosBounds(s: nat, i: nat, e: nat)
    requires s <= i < e
    ensures Raw(s) <= Raw(i) <= DataPos(i) < Raw(e) && DataPos(i) == Raw(i) + if Boundary(i) then 1 else 0
  {
    RawMonotone(s, i);
    RawMonotone(i + 1, e);
    LinesStep(i);
  }

  /** The node bytes s to e contained in the raw bytes of that range. */
  ghost function Decoded(x: seq<Byte>, s: nat, e: nat): (d: seq<Byte>)
    requires s <= e && Raw(s) <= Raw(e) && |x| == Raw(e) - Raw(s)
    ensures |d| == e - s
  {
    seq(e - s, (q: nat) requires q < e - s => DataPosBounds(s, s + q, e); x[DataPos(s + q) - Raw(s)])
  }

  /** Every version byte equals the version of the object its line starts in. */
  ghost predicate LinesOk(L: Layout, x: seq<Byte>, s: nat, e: nat)
    requires L.Ok() && s <= e && Raw(s) <= Raw(e) && |x| == Raw(e) - Raw(s) && ObjStart(L, s) == s
  {
    forall i {:trigger Boundary(i)} :: s <= i < e && Boundary(i) ==> LineOk(L, x, s, e, i)
  }

  ghost predicate LineOk(L: Layout, x: seq<Byte>, s: nat, e: nat, i: nat)
    requires L.Ok() && s <= i < e && Raw(s) <= Raw(e) && |x| == Raw(e) - Raw(s) && ObjStart(L, s) == s
  {
    DataPosBounds(s, i, e);
    ObjStartBelow(L, i);
    ObjStartMonotone(L, s, i);
    x[Raw(i) - Raw(s)] == Decoded(x, s, e)[ObjStart(L, i) - s]
  }

  /** The node version is the low half of a version byte. */
  function NodeVersion(b: Byte): int {
    b % 16
  }

  /** All objects of the range have the node version of the first one. */
  ghost predicate NodeOk(L: Layout, d: seq<Byte>, s: nat)
    requires L.Ok() && d != []
  {
    forall i :: 0 <= i < |d| && ObjStart(L, s + i) == s + i ==> NodeVersion(d[i]) == NodeVersion(d[0])
  }

  /** The reader accepts what it read. */
  ghost predicate Accepted(L: Layout, x: seq<Byte>, s: nat, e: nat)
    requires L.Ok() && s < e && Raw(s) <= Raw(e) && |x| == Raw(e) - Raw(s) && ObjStart(L, s) == s
  {
    LinesOk(L, x, s, e) && NodeOk(L, Decoded(x, s, e), s)
  }

  // ---- encode, then decode ----

  lemma EncodeAt(L: Layout, d: seq<Byte>, s: nat, e: nat, i: nat)
    requires L.Ok() && s <= i < e <= |d|
    ensures Raw(s) <= Raw(i) <= DataPos(i) < Raw(e) && ObjStart(L, i) <= i
    ensures Encode(L, d, s, e)[DataPos(i) - Raw(s)] == d[i]
    ensures Boundary(i) ==> Encode(L, d, s, e)[Raw(i) - Raw(s)] == d[ObjStart(L, i)]
  {
    hide ObjStart, Raw, Lines, Encode, Boundary, DataPos;
    DataPosBounds(s, i, e);
    ObjStartBelow(L, i);
    EncodeTiles(L, d, s, i, e);
    EncodeTiles(L, d, i, i + 1, e);
    EncodeCell(L, d, i);
  }

  lemma EncodeCell(L: Layout, d: seq<Byte>, i: nat)
    requires L.Ok() && i < |d|
    ensures Encode(L, d, i, i + 1) == Cell(L, d, i)
  {
    EncodeNothing(L, d, i);
  }

  lemma DecodedAt(x: seq<Byte>, s: nat, e: nat, q: nat)
    requires s + q < e && Raw(s) <= Raw(e) && |x| == Raw(e) - Raw(s)
    ensures Raw(s) <= DataPos(s + q) < Raw(e) && Decoded(x, s, e)[q] == x[DataPos(s + q) - Raw(s)]
  {
    hide Raw, Boundary, DataPos;
    DataPosBounds(s, s + q, e);
  }

  lemma DecodeEncodedAt(L: Layout, d: seq<Byte>, s: nat, e: nat, q: nat)
    requires L.Ok() && s + q < e <= |d|
    ensures Raw(s) <= Raw(e) && Decoded(Encode(L, d, s, e), s, e)[q] == d[s + q]
  {
    hide ObjStart, Raw, Encode, Boundary, Decoded, DataPos;
    RawMonotone(s, e);
    EncodeAt(L, d, s, e, s + q);
    DecodedAt(Encode(L, d, s, e), s, e, q);
  }

  lemma DecodeEncoded(L: Layout, d: seq<Byte>, s: nat, e: nat)
    requires L.Ok() && s <= e <= |d|
    ensures Raw(s) <= Raw(e) && Decoded(Encode(L, d, s, e), s, e) == d[s..e]
  {
    hide ObjStart, Raw, Encode, Boundary, Decoded;
    RawMonotone(s, e);
    var x := Decoded(Encode(L, d, s, e), s, e);
    forall q | 0 <= q < |x| ensures x[q] == d[s..e][q] {
      DecodeEncodedAt(L, d, s, e, q);
    }
  }

  /** What was encoded decodes to itself, and is accepted exactly when its objects share one node version. */
  lemma RoundTrip(L: Layout, d: seq<Byte>, s: nat, e: nat)
    requires L.Ok() && s < e <= |d| && ObjStart(L, s) == s
    ensures Raw(s) <= Raw(e) && Decoded(Encode(L, d, s, e), s, e) == d[s..e]
    ensures Accepted(L, Encode(L, d, s, e), s, e) <==> NodeOk(L, d[s..e], s)
  {
    hide ObjStart, Raw, Encode, Boundary, Decoded, NodeOk;
    DecodeEncoded(L, d, s, e);
    var x := Encode(L, d, s, e);
    forall i | s <= i < e && Boundary(i) ensures LineOk(L, x, s, e, i) {
      EncodeAt(L, d, s, e, i);
      ObjStartMonotone(L, s, i);
    }
  }

  // ---- torn reads ----

  /** The 64-byte line that decoded byte i, and the version byte before it if there is one, lie in. */
  function LineOf(i: nat): nat {
    Lines(i + 1)
  }

  lemma LineOfIs(i: nat)
    ensures DataPos(i) / LINE == LineOf(i) && (Boundary(i) ==> Raw(i) / LINE == LineOf(i))
  {
    BoundaryIsLineStart(i);
    LinesStep(i);
  }

  /** A read of the whole node in which each 64-byte line came from one of two images. */
  ghost predicate LineMix(x: seq<Byte>, a: seq<Byte>, b: seq<Byte>, fromA: set<nat>) {
    |x| == |a| == |b| && forall p :: 0 <= p < |x| ==> x[p] == if p / LINE in fromA then a[p] else b[p]
  }

  /** The image that decoded byte i was read from. */
  function Image(d0: seq<Byte>, d1: seq<Byte>, from0: set<nat>, i: nat): seq<Byte> {
    if LineOf(i) in from0 then d0 else d1
  }

  /** The bytes of a range, taken out of a read of the whole node. */
  lemma SliceBytes(x: seq<Byte>, s: nat, e: nat, i: nat)
    requires s <= i < e && Raw(s) <= Raw(e) <= |x|
    ensures Raw(s) <= Raw(i) <= DataPos(i) < Raw(e)
    ensures Decoded(x[Raw(s)..Raw(e)], s, e)[i - s] == x[DataPos(i)]
    ensures x[Raw(s)..Raw(e)][Raw(i) - Raw(s)] == x[Raw(i)]
  {
    hide Raw, Boundary, Decoded, DataPos;
    DataPosBounds(s, i, e);
    DecodedAt(x[Raw(s)..Raw(e)], s, e, i - s);
  }

  /** Byte i of a torn read of the whole node, and the version byte before it. */
  lemma MixBytes(L: Layout, d0: seq<Byte>, d1: seq<Byte>, x: seq<Byte>, from0: set<nat>, i: nat)
    requires L.Ok() && i < |d0| == |d1|
    requires LineMix(x, Encode(L, d0, 0, |d0|), Encode(L, d1, 0, |d1|), from0)
    ensures Raw(i) <= DataPos(i) < |x| && ObjStart(L, i) <= i
    ensures x[DataPos(i)] == Image(d0, d1, from0, i)[i]
    ensures Boundary(i) ==> x[Raw(i)] == Image(d0, d1, from0, i)[ObjStart(L, i)]
  {
    hide ObjStart, Raw, Encode, Boundary, DataPos, LineOf;
    RawZero();
    EncodeAt(L, d0, 0, |d0|, i);
    EncodeAt(L, d1, 0, |d1|, i);
    LineOfIs(i);
  }

  /** What a range of a torn read contains. */
  lemma TornBytes(L: Layout, d0: seq<Byte>, d1: seq<Byte>, x: seq<Byte>, from0: set<nat>, s: nat, e: nat, i: nat)
    requires L.Ok() && s <= i < e <= |d0| == |d1|
    requires LineMix(x, Encode(L, d0, 0, |d0|), Encode(L, d1, 0, |d1|), from0)
    ensures Raw(s) <= Raw(i) < Raw(e) <= |x| && ObjStart(L, i) <= i
    ensures Decoded(x[Raw(s)..Raw(e)], s, e)[i - s] == Image(d0, d1, from0, i)[i]
    ensures Boundary(i) ==> x[Raw(s)..Raw(e)][Raw(i) - Raw(s)] == Image(d0, d1, from0, i)[ObjStart(L, i)]
  {
    hide ObjStart, Raw, Encode, Boundary, Decoded, DataPos, LineOf, Image;
    RawZero();
    RawMonotone(s, e);
    RawMonotone(e, |d0|);
    assert |x| == Raw(|d0|);
    MixBytes(L, d0, d1, x, from0, i);
    SliceBytes(x, s, e, i);
  }

  /** The first byte of i's line that is at or after s: either s itself, or a byte right after a version byte. */
  lemma {:induction false} LineHead(s: nat, i: nat) returns (h: nat)
    requires s <= i
    ensures s <= h <= i && LineOf(h) == LineOf(i) && (h == s || Boundary(h))
    decreases i
  {
    if i == s || Boundary(i) {
      h := i;
    } else {
      LinesStep(i);
      h := LineHead(s, i - 1);
    }
  }

  /** The version check at a line start, read through a torn read: both sides name the same object. */
  lemma TornLine(L: Layout, d0: seq<Byte>, d1: seq<Byte>, x: seq<Byte>, from0: set<nat>, s: nat, e: nat, h: nat)
    requires L.Ok() && s <= h < e <= |d0| == |d1| && ObjStart(L, s) == s && Boundary(h)
    requires LineMix(x, Encode(L, d0, 0, |d0|), Encode(L, d1, 0, |d1|), from0)
    requires Raw(s) <= Raw(e) <= |x| && LinesOk(L, x[Raw(s)..Raw(e)], s, e)
    ensures s <= ObjStart(L, h) <= h
    ensures Image(d0, d1, from0, h)[ObjStart(L, h)] == Image(d0, d1, from0, ObjStart(L, h))[ObjStart(L, h)]
  {
    hide ObjStart, Raw, Encode, Decoded, DataPos, Image;
    ObjStartBelow(L, h);
    ObjStartMonotone(L, s, h);
    TornBytes(L, d0, d1, x, from0, s, e, h);
    TornBytes(L, d0, d1, x, from0, s, e, ObjStart(L, h));
    assert LineOk(L, x[Raw(s)..Raw(e)], s, e, h);
  }

  /** All objects of an image carry the node version v. */
  ghost predicate HasNodeVersion(L: Layout, d: seq<Byte>, v: int)
    requires L.Ok()
  {
    forall o :: 0 <= o < |d| && ObjStart(L, o) == o ==> NodeVersion(d[o]) == v
  }

  /** In an accepted torn read, the line of byte i carries the node version of the first object read. */
  lemma LineVersion(L: Layout, d0: seq<Byte>, d1: seq<Byte>, x: seq<Byte>, from0: set<nat>, s: nat, e: nat, i: nat, v0: int, v1: int)
    requires L.Ok() && s <= i < e <= |d0| == |d1| && ObjStart(L, s) == s
    requires LineMix(x, Encode(L, d0, 0, |d0|), Encode(L, d1, 0, |d1|), from0)
    requires Raw(s) <= Raw(e) <= |x| && Accepted(L, x[Raw(s)..Raw(e)], s, e)
    requires HasNodeVersion(L, d0, v0) && HasNodeVersion(L, d1, v1)
    ensures (if LineOf(i) in from0 then v0 else v1) == if LineOf(s) in from0 then v0 else v1
  {
    hide ObjStart, Raw, Encode, Decoded, DataPos, Boundary, LineOf, Lines;
    var h := LineHead(s, i);
    TornBytes(L, d0, d1, x, from0, s, e, s);
    if h != s {
      TornLine(L, d0, d1, x, from0, s, e, h);
      var o := ObjStart(L, h);
      ObjStartBelow(L, h);
      TornBytes(L, d0, d1, x, from0, s, e, o);
      assert s + (o - s) == o;
    }
  }

  /** Torn reads of a whole-node write are caught: if the two images have different node versions and the reader accepts
      any range of the mix, then everything it decoded comes from one image. */
  lemma NodeWriteNotTorn(L: Layout, d0: seq<Byte>, d1: seq<Byte>, x: seq<Byte>, from0: set<nat>, s: nat, e: nat, v0: int, v1: int)
    requires L.Ok() && s < e <= |d0| == |d1| && ObjStart(L, s) == s && v0 != v1
    requires LineMix(x, Encode(L, d0, 0, |d0|), Encode(L, d1, 0, |d1|), from0)
    requires Raw(s) <= Raw(e) <= |x| && Accepted(L, x[Raw(s)..Raw(e)], s, e)
    requires HasNodeVersion(L, d0, v0) && HasNodeVersion(L, d1, v1)
    ensures forall i :: s <= i < e ==> (LineOf(i) in from0 <==> LineOf(s) in from0)
    ensures Decoded(x[Raw(s)..Raw(e)], s, e) == Image(d0, d1, from0, s)[s..e]
  {
    hide ObjStart, Raw, Encode, Decoded, DataPos, Boundary, LineOf, Accepted, HasNodeVersion;
    forall i | s <= i < e ensures LineOf(i) in from0 <==> LineOf(s) in from0 {
      LineVersion(L, d0, d1, x, from0, s, e, i, v0, v1);
    }
    var r, d := Decoded(x[Raw(s)..Raw(e)], s, e), Image(d0, d1, from0, s);
    forall q | 0 <= q < |r| ensures r[q] == d[s..e][q] {
      TornBytes(L, d0, d1, x, from0, s, e, s + q);
    }
  }

  /** A read that wraps decodes two ranges and compares their node versions: then both come from the same image. */
  lemma TwoRangesNotTorn(L: Layout, d0: seq<Byte>, d1: seq<Byte>, v0: int, v1: int,
                         x: seq<Byte>, fromX: set<nat>, s: nat, e: nat, y: seq<Byte>, fromY: set<nat>, s': nat, e': nat)
    requires L.Ok() && s < e <= |d0| && s' < e' <= |d0| == |d1| && ObjStart(L, s) == s && ObjStart(L, s') == s' && v0 != v1
    requires HasNodeVersion(L, d0, v0) && HasNodeVersion(L, d1, v1)
    requires LineMix(x, Encode(L, d0, 0, |d0|), Encode(L, d1, 0, |d1|), fromX)
    requires LineMix(y, Encode(L, d0, 0, |d0|), Encode(L, d1, 0, |d1|), fromY)
    requires Raw(s) <= Raw(e) <= |x| && Accepted(L, x[Raw(s)..Raw(e)], s, e)
    requires Raw(s') <= Raw(e') <= |y| && Accepted(L, y[Raw(s')..Raw(e')], s', e')
    requires NodeVersion(Decoded(x[Raw(s)..Raw(e)], s, e)[0]) == NodeVersion(Decoded(y[Raw(s')..Raw(e')], s', e')[0])
    ensures var d := Image(d0, d1, fromX, s);
            && Decoded(x[Raw(s)..Raw(e)], s, e) == d[s..e]
            && Decoded(y[Raw(s')..Raw(e')], s', e') == d[s'..e']
  {
    hide ObjStart, Raw, Encode, Decoded, LineOf, Accepted, LineMix;
    NodeWriteNotTorn(L, d0, d1, x, fromX, s, e, v0, v1);
    NodeWriteNotTorn(L, d0, d1, y, fromY, s', e', v0, v1);
    assert Image(d0, d1, fromX, s)[s..e][0] == Image(d0, d1, fromX, s)[s];
    assert Image(d0, d1, fromY, s')[s'..e'][0] == Image(d0, d1, fromY, s')[s'];
  }

  /** Bytes s to e of an encoded node are the encoding of that range. */
  lemma EncodeSlice(L: Layout, d: seq<Byte>, s: nat, e: nat)
    requires L.Ok() && s <= e <= |d|
    ensures Raw(0) == 0 && Raw(s) <= Raw(e) <= |Encode(L, d, 0, |d|)|
    ensures Encode(L, d, 0, |d|)[Raw(s)..Raw(e)] == Encode(L, d, s, e)
  {
    hide Encode, Raw;
    RawZero();
    RawMonotone(0, s);
    RawMonotone(s, e);
    RawMonotone(e, |d|);
    EncodeTiles(L, d, 0, s, |d|);
    EncodeTiles(L, d, s, e, |d|);
  }

  /** No retry without a reason: a read whose lines all come from one image with a single node version is accepted. */
  lemma UntornAccepted(L: Layout, d0: seq<Byte>, d1: seq<Byte>, x: seq<Byte>, from0: set<nat>, s: nat, e: nat, v: int)
    requires L.Ok() && s < e <= |d0| == |d1| && ObjStart(L, s) == s && HasNodeVersion(L, d0, v)
    requires LineMix(x, Encode(L, d0, 0, |d0|), Encode(L, d1, 0, |d1|), from0)
    requires forall p :: Raw(s) <= p < Raw(e) ==> p / LINE in from0
    ensures Raw(s) <= Raw(e) <= |x| && Accepted(L, x[Raw(s)..Raw(e)], s, e)
  {
    hide Encode, Raw, Accepted;
    EncodeSlice(L, d0, s, e);
    assert x[Raw(s)..Raw(e)] == Encode(L, d0, 0, |d0|)[Raw(s)..Raw(e)];
    RoundTrip(L, d0, s, e);
    OneVersionOk(L, d0, s, e, v);
  }

  lemma OneVersionOk(L: Layout, d: seq<Byte>, s: nat, e: nat, v: int)
    requires L.Ok() && s < e <= |d| && ObjStart(L, s) == s && HasNodeVersion(L, d, v)
    ensures NodeOk(L, d[s..e], s)
  {
    hide ObjStart;
    assert d[s..e][0] == d[s];
    forall i | 0 <= i < e - s && ObjStart(L, s + i) == s + i
      ensures NodeVersion(d[s..e][i]) == NodeVersion(d[s..e][0])
    {
      assert d[s..e][i] == d[s + i];
    }
  }

  /** Torn reads of a segment write are caught entry by entry: an object whose version was bumped comes whole from one
      image, whatever else the reader saw. */
  lemma BumpedEntryNotTorn(L: Layout, d0: seq<Byte>, d1: seq<Byte>, x: seq<Byte>, from0: set<nat>, s: nat, e: nat, o: nat, i: nat)
    requires L.Ok() && s <= o <= i < e <= |d0| == |d1| && ObjStart(L, s) == s && ObjStart(L, i) == o
    requires LineMix(x, Encode(L, d0, 0, |d0|), Encode(L, d1, 0, |d1|), from0)
    requires Raw(s) <= Raw(e) <= |x| && LinesOk(L, x[Raw(s)..Raw(e)], s, e) && d0[o] != d1[o]
    ensures LineOf(i) in from0 <==> LineOf(o) in from0
    ensures Decoded(x[Raw(s)..Raw(e)], s, e)[i - s] == Image(d0, d1, from0, o)[i]
  {
    hide ObjStart, Raw, Encode, Decoded, DataPos, Boundary, LineOf, LinesOk;
    TornBytes(L, d0, d1, x, from0, s, e, i);
    ObjStartBelow(L, i);
    var h := LineHead(o, i);
    if h != o {
      ObjStartMonotone(L, o, h);
      ObjStartMonotone(L, h, i);
      TornLine(L, d0, d1, x, from0, s, e, h);
    }
  }

  // ---- bumping versions ----

  /** `++ node_version`, which wraps at 16. */
  function WithNodeVersion(b: Byte, v: int): Byte
    requires 0 <= v < 16
  {
    b / 16 * 16 + v
  }

  /** `++ entry_version`. */
  function BumpEntryVersion(b: Byte): (r: Byte)
    ensures r != b && NodeVersion(r) == NodeVersion(b)
  {
    (b / 16 + 1) % 16 * 16 + b % 16
  }

  /** The version after n bumps. */
  function Bumps(b: Byte, n: nat): Byte {
    if n == 0 then b else BumpEntryVersion(Bumps(b, n - 1))
  }

  lemma BumpParts(b: Byte)
    ensures BumpEntryVersion(b) / 16 == (b / 16 + 1) % 16 && BumpEntryVersion(b) % 16 == b % 16
  {}

  lemma NextModulo(x: nat)
    ensures (x % 16 + 1) % 16 == (x + 1) % 16
  {}

  lemma {:induction false} BumpsAre(b: Byte, n: nat)
    ensures Bumps(b, n) / 16 == (b / 16 + n) % 16 && Bumps(b, n) % 16 == b % 16
  {
    if n > 0 {
      hide BumpEntryVersion;
      BumpsAre(b, n - 1);
      BumpParts(Bumps(b, n - 1));
      NextModulo(b / 16 + n - 1);
    }
  }

  lemma Returns(v: nat, n: nat)
    requires v < 16
    ensures (v + n) % 16 == v <==> n % 16 == 0
  {}

  /** It takes exactly 16 bumps to bring an entry version back, no fewer. */
  lemma BumpsReturn(b: Byte, n: nat)
    ensures Bumps(b, n) == b <==> n % 16 == 0
  {
    hide Bumps;
    BumpsAre(b, n);
    Returns(b / 16, n);
    assert b == b / 16 * 16 + b % 16 && Bumps(b, n) == Bumps(b, n) / 16 * 16 + Bumps(b, n) % 16;
  }

  /** `encode_node_versions` gives every object the first object's node version plus one. */
  ghost function BumpNode(L: Layout, d: seq<Byte>): (r: seq<Byte>)
    requires L.Ok() && d != []
    ensures |r| == |d|
  {
    var v := (NodeVersion(d[0]) + 1) % 16;
    seq(|d|, (i: nat) requires i < |d| => if ObjStart(L, i) == i then WithNodeVersion(d[i], v) else d[i])
  }

  lemma BumpNodeVersion(L: Layout, d: seq<Byte>)
    requires L.Ok() && d != []
    ensures HasNodeVersion(L, BumpNode(L, d), (NodeVersion(d[0]) + 1) % 16)
    ensures forall i :: 0 <= i < |d| && ObjStart(L, i) != i ==> BumpNode(L, d)[i] == d[i]
  {
    hide ObjStart;
  }

  /** The node after n whole-node writes that leave its bytes as they are. */
  ghost function BumpNodes(L: Layout, d: seq<Byte>, n: nat): (r: seq<Byte>)
    requires L.Ok() && d != []
    ensures |r| == |d|
  {
    if n == 0 then d else BumpNode(L, BumpNodes(L, d, n - 1))
  }

  lemma {:induction false} NodeBumpsAre(L: Layout, d: seq<Byte>, n: nat)
    requires L.Ok() && d != []
    ensures NodeVersion(BumpNodes(L, d, n)[0]) == (NodeVersion(d[0]) + n) % 16
  {
    hide BumpNode, NodeVersion;
    VersionSmall(d[0]);
    if n == 0 {
      SmallVersion(NodeVersion(d[0]));
    } else {
      NodeBumpsAre(L, d, n - 1);
      FirstBumped(L, BumpNodes(L, d, n - 1));
      NextModulo(NodeVersion(d[0]) + n - 1);
    }
  }

  lemma SmallVersion(v: nat)
    requires v < 16
    ensures v % 16 == v
  {}

  lemma FirstBumped(L: Layout, d: seq<Byte>)
    requires L.Ok() && d != []
    ensures NodeVersion(BumpNode(L, d)[0]) == (NodeVersion(d[0]) + 1) % 16
  {
    hide ObjStart, BumpNode, NodeVersion;
    BumpNodeVersion(L, d);
    StartIsStart(L);
  }

  lemma VersionSmall(b: Byte)
    ensures 0 <= NodeVersion(b) < 16
  {}

  /** It takes exactly 16 whole-node writes to bring the node version back, no fewer. */
  lemma NodeBumpsReturn(L: Layout, d: seq<Byte>, n: nat)
    requires L.Ok() && d != []
    ensures NodeVersion(BumpNodes(L, d, n)[0]) == NodeVersion(d[0]) <==> n % 16 == 0
  {
    hide NodeVersion;
    NodeBumpsAre(L, d, n);
    VersionSmall(d[0]);
    Returns(NodeVersion(d[0]), n);
  }

  /** Every whole-node write is caught when torn: whatever the writer puts in, the node version it read from the old
      image differs from the one it writes. */
  lemma NodeWriteCaught(L: Layout, d0: seq<Byte>, d1: seq<Byte>, x: seq<Byte>, from0: set<nat>, s: nat, e: nat)
    requires L.Ok() && s < e <= |d0| == |d1| && ObjStart(L, s) == s
    requires HasNodeVersion(L, d0, NodeVersion(d0[0])) && NodeVersion(d1[0]) == NodeVersion(d0[0])
    requires LineMix(x, Encode(L, d0, 0, |d0|), Encode(L, BumpNode(L, d1), 0, |d1|), from0)
    requires Raw(s) <= Raw(e) <= |x| && Accepted(L, x[Raw(s)..Raw(e)], s, e)
    ensures Decoded(x[Raw(s)..Raw(e)], s, e) == d0[s..e] || Decoded(x[Raw(s)..Raw(e)], s, e) == BumpNode(L, d1)[s..e]
  {
    hide ObjStart, Raw, Encode, Decoded, DataPos, Boundary, LineOf, Accepted, HasNodeVersion, LineMix, BumpNode;
    var v := NodeVersion(d0[0]);
    BumpNodeVersion(L, d1);
    NodeWriteNotTorn(L, d0, BumpNode(L, d1), x, from0, s, e, v, (v + 1) % 16);
  }

  // ---- the decoding loop ----

  lemma {:induction false} RawRun(a: nat, b: nat)
    requires a <= b && forall i :: a <= i < b ==> !Boundary(i)
    ensures Raw(b) == Raw(a) + (b - a)
    decreases b
  {
    if a < b {
      RawRun(a, b - 1);
      LinesStep(b - 1);
    }
  }

  /** The data bytes behind a version byte, or at the start of a segment, are consecutive. */
  lemma DecodedRun(x: seq<Byte>, s: nat, e: nat, a: nat, b: nat)
    requires s <= a < b <= e && Raw(s) <= Raw(e) && |x| == Raw(e) - Raw(s)
    requires forall i :: a < i < b ==> !Boundary(i)
    ensures var p := DataPos(a) - Raw(s);
            0 <= p && p + (b - a) <= |x| && Decoded(x, s, e)[a - s..b - s] == x[p..p + (b - a)]
  {
    hide Decoded, Raw, DataPos, Boundary;
    DataPosBounds(s, a, e);
    DataPosBounds(s, b - 1, e);
    forall i | a <= i < b ensures DataPos(i) == DataPos(a) + (i - a) {
      DataPosRun(a, i);
    }
    var p := DataPos(a) - Raw(s);
    var r, y := Decoded(x, s, e)[a - s..b - s], x[p..p + (b - a)];
    forall q | 0 <= q < |r| ensures r[q] == y[q] {
      DecodedAt(x, s, e, a + q - s);
      assert s + (a + q - s) == a + q;
    }
  }

  lemma DataPosRun(a: nat, i: nat)
    requires a <= i && forall j :: a < j <= i ==> !Boundary(j)
    ensures DataPos(i) == DataPos(a) + (i - a)
  {
    hide Boundary, Raw;
    RawRun(a + 1, i + 1);
  }

  /** What the decoding loop knows after j decoded bytes: the next raw byte is a version byte. */
  ghost predicate Decoding(L: Layout, x: seq<Byte>, s: nat, e: nat, j: nat, out: seq<Byte>)
    requires L.Ok() && s <= e && Raw(s) <= Raw(e) && |x| == Raw(e) - Raw(s) && ObjStart(L, s) == s
  {
    && j <= e - s && out == Decoded(x, s, e)[..j] && (s + j < e ==> Boundary(s + j))
    && forall i {:trigger Boundary(i)} :: s <= i < s + j && Boundary(i) ==> LineOk(L, x, s, e, i)
  }

  lemma DecodingStart(L: Layout, x: seq<Byte>, s: nat, e: nat)
    requires L.Ok() && s < e && Raw(s) <= Raw(e) && |x| == Raw(e) - Raw(s) && ObjStart(L, s) == s
    ensures var first := VersionInfo(s, e).2;
            0 <= first <= e - s && first <= |x| && Decoding(L, x, s, e, first, x[..first])
  {
    hide Raw, Decoded, Boundary, ObjStart, VersionInfo, DataPos, LineOk;
    VersionInfoIs(s, e);
    var first := VersionInfo(s, e).2;
    if first > 0 {
      DecodedRun(x, s, e, s, s + first);
      DataPosBounds(s, s, e);
      assert Decoded(x, s, e)[s - s..s + first - s] == Decoded(x, s, e)[..first];
    }
  }

  lemma Grow(d: seq<Byte>, j: nat, next: nat)
    requires j <= next <= |d|
    ensures d[..next] == d[..j] + d[j..next]
  {}

  /** One round: version byte, then up to one block of data. */
  lemma DecodingBlock(L: Layout, x: seq<Byte>, s: nat, e: nat, j: nat, next: nat)
    requires L.Ok() && s < e && Raw(s) <= Raw(e) && |x| == Raw(e) - Raw(s) && s + j < e && Boundary(s + j)
    requires next == if j + BLOCK <= e - s then j + BLOCK else e - s
    ensures var i := Raw(s + j) - Raw(s);
            && 0 <= i && i + 1 + (next - j) <= |x|
            && Decoded(x, s, e)[..next] == Decoded(x, s, e)[..j] + x[i + 1..i + 1 + (next - j)]
    ensures s + next < e ==> Boundary(s + next)
    ensures forall i {:trigger Boundary(i)} :: s + j < i < s + next ==> !Boundary(i)
  {
    hide Raw, Decoded, Boundary, DataPos;
    NextBoundary(s + j);
    DecodedRun(x, s, e, s + j, s + next);
    DataPosBounds(s, s + j, e);
    Grow(Decoded(x, s, e), j, next);
  }

  /** The check of the line read: the version byte against the version found in what has been decoded so far. */
  lemma LineCheck(L: Layout, x: seq<Byte>, s: nat, e: nat, j: nat, next: nat)
    requires L.Ok() && s < e && Raw(s) <= Raw(e) && |x| == Raw(e) - Raw(s) && ObjStart(L, s) == s
    requires s + j < e && j < next <= e - s
    ensures var i := Raw(s + j) - Raw(s);
            && 0 <= i < |x| && s <= ObjStart(L, s + j) <= s + j
            && (x[i] == Decoded(x, s, e)[..next][ObjStart(L, s + j) - s] <==> LineOk(L, x, s, e, s + j))
  {
    hide Raw, Decoded, Boundary, ObjStart, DataPos;
    DataPosBounds(s, s + j, e);
    ObjStartBelow(L, s + j);
    ObjStartMonotone(L, s, s + j);
  }

  lemma DecodingStep(L: Layout, x: seq<Byte>, s: nat, e: nat, j: nat, next: nat, out: seq<Byte>)
    requires L.Ok() && s < e && Raw(s) <= Raw(e) && |x| == Raw(e) - Raw(s) && ObjStart(L, s) == s
    requires Decoding(L, x, s, e, j, out) && s + j < e
    requires next == if j + BLOCK <= e - s then j + BLOCK else e - s
    ensures var i := Raw(s + j) - Raw(s);
            && Boundary(s + j) && 0 <= i && i + 1 + (next - j) <= |x| && s <= ObjStart(L, s + j) <= s + j
            && var out' := out + x[i + 1..i + 1 + (next - j)];
               && |out'| == next
               && (x[i] == out'[ObjStart(L, s + j) - s] <==> LineOk(L, x, s, e, s + j))
               && (LineOk(L, x, s, e, s + j) ==> Decoding(L, x, s, e, next, out'))
  {
    hide Raw, Decoded, Boundary, ObjStart, DataPos, LineOk;
    DecodingBlock(L, x, s, e, j, next);
    LineCheck(L, x, s, e, j, next);
    forall i {:trigger Boundary(i)} | s <= i < s + next && Boundary(i) && i != s + j ensures LineOk(L, x, s, e, i) {
      assert i < s + j;
    }
  }

  /** `decode_segment_versions`; with l = 0 and all entries, `decode_node_versions`. */
  method DecodeSegment(L: Layout, x: seq<Byte>, l: nat, num: nat) returns (ok: bool, out: seq<Byte>)
    requires L.Ok() && Offset(L, l) < Offset(L, l + num) && ObjStart(L, Offset(L, l)) == Offset(L, l)
    requires Raw(Offset(L, l)) <= Raw(Offset(L, l + num)) && |x| == Raw(Offset(L, l + num)) - Raw(Offset(L, l))
    ensures ok <==> Accepted(L, x, Offset(L, l), Offset(L, l + num))
    ensures ok ==> out == Decoded(x, Offset(L, l), Offset(L, l + num))
  {
    hide Raw, Decoded, Boundary, ObjStart, VersionInfo, LineOk, Offset, LocalStart, MetadataInfo, Decoding;
    var s, e := Offset(L, l), Offset(L, l + num);
    var metadata := MetadataInfo(L, l, num).0;
    DecodingStart(L, x, s, e);
    var j := VersionInfo(s, e).2;
    out := x[..j];
    while s + j < e
      invariant 0 <= j <= e - s && Decoding(L, x, s, e, j, out)
    {
      var next := if j + BLOCK <= e - s then j + BLOCK else e - s;
      DecodingStep(L, x, s, e, j, next, out);
      LocalStartIs(L, l, num, j);
      var i := Raw(s + j) - Raw(s);
      out := out + x[i + 1..i + 1 + (next - j)];
      if x[i] != out[LocalStart(L, metadata, j)] {
        DecodingFails(L, x, s, e, j);
        return false, out;
      }
      j := next;
    }
    DecodingEnd(L, x, s, e, j, out);
    ok := SameNodeVersion(L, out, s);
  }

  lemma DecodingFails(L: Layout, x: seq<Byte>, s: nat, e: nat, j: nat)
    requires L.Ok() && s + j < e && Raw(s) <= Raw(e) && |x| == Raw(e) - Raw(s) && ObjStart(L, s) == s
    requires Boundary(s + j) && !LineOk(L, x, s, e, s + j)
    ensures !Accepted(L, x, s, e)
  {}

  lemma DecodingEnd(L: Layout, x: seq<Byte>, s: nat, e: nat, j: nat, out: seq<Byte>)
    requires L.Ok() && s <= e && Raw(s) <= Raw(e) && |x| == Raw(e) - Raw(s) && ObjStart(L, s) == s
    requires Decoding(L, x, s, e, j, out) && s + j == e
    ensures out == Decoded(x, s, e) && LinesOk(L, x, s, e)
  {
    hide Raw, Decoded, Boundary, ObjStart, LineOk;
    assert Decoded(x, s, e)[..j] == Decoded(x, s, e);
  }

  /** The joint check over all objects of the segment. */
  method SameNodeVersion(L: Layout, d: seq<Byte>, s: nat) returns (ok: bool)
    requires L.Ok() && d != []
    ensures ok <==> NodeOk(L, d, s)
  {
    hide ObjStart;
    for i := 0 to |d|
      invariant forall j :: 0 <= j < i && ObjStart(L, s + j) == s + j ==> NodeVersion(d[j]) == NodeVersion(d[0])
    {
      if ObjStart(L, s + i) == s + i && NodeVersion(d[i]) != NodeVersion(d[0]) { return false; }
    }
    ok := true;
  }
}
