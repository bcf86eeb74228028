/** Reads around a segment write, object by object: exactly which torn reads pass the version checks, and exactly when
    every object they show is whole. */
module TornEntries {
  import opened VersionLayout
  import opened VersionCodec
  import opened VersionDecode

  /** The read of the whole node that took the lines in `from0` from d0's encoding and the others from d1's. */
  function Torn(L: Layout, d0: seq<Byte>, d1: seq<Byte>, from0: set<nat>): (x: seq<Byte>)
    requires L.Ok() && |d0| == |d1|
    ensures LineMix(x, Encode(L, d0, 0, |d0|), Encode(L, d1, 0, |d1|), from0)
  {
    var a, b := Encode(L, d0, 0, |d0|), Encode(L, d1, 0, |d1|);
    seq(|a|, (p: nat) requires p < |a| => if p / LINE in from0 then a[p] else b[p])
  }

  /** At byte h, which starts a line, the version byte and the object it is checked against show the same version. */
  ghost predicate SameVersion(L: Layout, d0: seq<Byte>, d1: seq<Byte>, from0: set<nat>, h: nat)
    requires L.Ok() && h < |d0| == |d1|
  {
    ObjStartBelow(L, h);
    var o := ObjStart(L, h);
    Image(d0, d1, from0, h)[o] == Image(d0, d1, from0, o)[o]
  }

  /** A range of the node that starts with an object, and a torn read of the node. */
  ghost predicate TornRange(L: Layout, d0: seq<Byte>, d1: seq<Byte>, x: seq<Byte>, from0: set<nat>, s: nat, e: nat) {
    && L.Ok() && s < e <= |d0| == |d1| && ObjStart(L, s) == s && Raw(s) <= Raw(e) <= |x|
    && LineMix(x, Encode(L, d0, 0, |d0|), Encode(L, d1, 0, |d1|), from0)
  }

  lemma RangeFits(L: Layout, d0: seq<Byte>, d1: seq<Byte>, x: seq<Byte>, from0: set<nat>, s: nat, e: nat)
    requires L.Ok() && s < e <= |d0| == |d1| && ObjStart(L, s) == s
    requires LineMix(x, Encode(L, d0, 0, |d0|), Encode(L, d1, 0, |d1|), from0)
    ensures TornRange(L, d0, d1, x, from0, s, e)
  {
    hide Raw, Encode, ObjStart;
    EncodeSlice(L, d0, s, e);
  }

  lemma LineOkIff(L: Layout, d0: seq<Byte>, d1: seq<Byte>, x: seq<Byte>, from0: set<nat>, s: nat, e: nat, h: nat)
    requires TornRange(L, d0, d1, x, from0, s, e) && s <= h < e && Boundary(h)
    ensures LineOk(L, x[Raw(s)..Raw(e)], s, e, h) <==> SameVersion(L, d0, d1, from0, h)
  {
    hide ObjStart, Raw, Encode, Decoded, DataPos, Boundary, LineOf, LineMix;
    TornBytes(L, d0, d1, x, from0, s, e, h);
    ObjStartBelow(L, h);
    ObjStartMonotone(L, s, h);
    TornBytes(L, d0, d1, x, from0, s, e, ObjStart(L, h));
  }

  /** When a write leaves the node version alone, a torn read is accepted exactly when no line starts inside an object
      whose version the line and the object's head show differently. */
  lemma AcceptedIff(L: Layout, d0: seq<Byte>, d1: seq<Byte>, x: seq<Byte>, from0: set<nat>, s: nat, e: nat, v: int)
    requires TornRange(L, d0, d1, x, from0, s, e) && HasNodeVersion(L, d0, v) && HasNodeVersion(L, d1, v)
    ensures Accepted(L, x[Raw(s)..Raw(e)], s, e) <==>
              forall h {:trigger Boundary(h)} :: s <= h < e && Boundary(h) ==> SameVersion(L, d0, d1, from0, h)
  {
    hide ObjStart, Raw, Boundary, SameVersion, LineOk, HasNodeVersion, Encode, NodeOk, TornRange;
    RangeShape(L, d0, d1, x, from0, s, e);
    JointOk(L, d0, d1, x, from0, s, e, v);
    forall h {:trigger Boundary(h)} | s <= h < e && Boundary(h)
      ensures LineOk(L, x[Raw(s)..Raw(e)], s, e, h) <==> SameVersion(L, d0, d1, from0, h)
    {
      LineOkIff(L, d0, d1, x, from0, s, e, h);
    }
  }

  lemma RangeShape(L: Layout, d0: seq<Byte>, d1: seq<Byte>, x: seq<Byte>, from0: set<nat>, s: nat, e: nat)
    requires TornRange(L, d0, d1, x, from0, s, e)
    ensures L.Ok() && s < e <= |d0| == |d1| && ObjStart(L, s) == s && Raw(s) <= Raw(e) <= |x|
  {}

  lemma JointOk(L: Layout, d0: seq<Byte>, d1: seq<Byte>, x: seq<Byte>, from0: set<nat>, s: nat, e: nat, v: int)
    requires TornRange(L, d0, d1, x, from0, s, e) && HasNodeVersion(L, d0, v) && HasNodeVersion(L, d1, v)
    ensures NodeOk(L, Decoded(x[Raw(s)..Raw(e)], s, e), s)
  {
    hide ObjStart, Raw, Encode, Decoded, DataPos, Boundary, LineOf, LineMix;
    var d := Decoded(x[Raw(s)..Raw(e)], s, e);
    TornBytes(L, d0, d1, x, from0, s, e, s);
    forall i | 0 <= i < |d| && ObjStart(L, s + i) == s + i ensures NodeVersion(d[i]) == NodeVersion(d[0]) {
      TornBytes(L, d0, d1, x, from0, s, e, s + i);
    }
  }

  // ---- whole objects ----

  /** What the read shows of object o is what one of the images has there. */
  ghost predicate Whole(L: Layout, d0: seq<Byte>, d1: seq<Byte>, r: seq<Byte>, s: nat, e: nat, o: nat)
    requires L.Ok() && s <= e <= |d0| == |d1| && |r| == e - s
  {
    || (forall i :: s <= i < e && ObjStart(L, i) == o ==> r[i - s] == d0[i])
    || (forall i :: s <= i < e && ObjStart(L, i) == o ==> r[i - s] == d1[i])
  }

  /** Byte i of object o differs between the images. */
  ghost predicate Differs(L: Layout, d0: seq<Byte>, d1: seq<Byte>, s: nat, e: nat, o: nat, i: nat)
    requires L.Ok() && e <= |d0| == |d1|
  {
    s <= i < e && ObjStart(L, i) == o && d0[i] != d1[i]
  }

  /** All bytes of object o that differ lie on one line. */
  ghost predicate OneLine(L: Layout, d0: seq<Byte>, d1: seq<Byte>, s: nat, e: nat, o: nat)
    requires L.Ok() && e <= |d0| == |d1|
  {
    forall i, j :: Differs(L, d0, d1, s, e, o, i) && Differs(L, d0, d1, s, e, o, j) ==> LineOf(i) == LineOf(j)
  }

  /** An accepted read shows an object whole if its version was bumped, or all that changed in it lies on one line. */
  lemma ObjectWhole(L: Layout, d0: seq<Byte>, d1: seq<Byte>, x: seq<Byte>, from0: set<nat>, s: nat, e: nat, o: nat)
    requires TornRange(L, d0, d1, x, from0, s, e) && LinesOk(L, x[Raw(s)..Raw(e)], s, e)
    requires s <= o < e && (d0[o] != d1[o] || OneLine(L, d0, d1, s, e, o))
    ensures Whole(L, d0, d1, Decoded(x[Raw(s)..Raw(e)], s, e), s, e, o)
  {
    hide ObjStart, Raw, Encode, Decoded, LineOf, LinesOk, LineMix;
    var r := Decoded(x[Raw(s)..Raw(e)], s, e);
    var from: nat := o;
    if d0[o] == d1[o] && exists i :: Differs(L, d0, d1, s, e, o, i) {
      from :| Differs(L, d0, d1, s, e, o, from);
    }
    var d := Image(d0, d1, from0, from);
    forall i | s <= i < e && ObjStart(L, i) == o ensures r[i - s] == d[i] {
      TornBytes(L, d0, d1, x, from0, s, e, i);
      if d0[o] != d1[o] {
        BumpedEntryNotTorn(L, d0, d1, x, from0, s, e, o, i);
      } else if d0[i] != d1[i] {
        assert Differs(L, d0, d1, s, e, o, i);
      }
    }
  }

  // ---- the other direction ----

  lemma LineMonotone(i: nat, j: nat)
    requires i <= j
    ensures LineOf(i) <= LineOf(j) && (Boundary(j) && i < j ==> LineOf(i) < LineOf(j))
  {
    hide Raw, Lines, Boundary;
    RawMonotone(i + 1, j + 1);
    if i < j {
      RawMonotone(i + 1, j);
      LinesStep(j);
    }
  }

  function LinesBelow(n: nat): (s: set<nat>)
    ensures forall l: nat :: l in s <==> l < n
  {
    if n == 0 then {} else LinesBelow(n - 1) + {n - 1}
  }

  /** The read that switches from d0 to d1 where a line starts inside the unbumped object o passes every check. */
  lemma SwitchInside(L: Layout, d0: seq<Byte>, d1: seq<Byte>, s: nat, e: nat, o: nat, j: nat, h: nat)
    requires L.Ok() && s <= o <= j < e <= |d0| == |d1| && ObjStart(L, s) == s && ObjStart(L, j) == o && d0[o] == d1[o]
    requires LineOf(o) < LineOf(j) && s <= h < e && Boundary(h)
    ensures SameVersion(L, d0, d1, LinesBelow(LineOf(j)), h)
  {
    hide ObjStart, LineOf, Boundary;
    var from0 := LinesBelow(LineOf(j));
    ObjStartBelow(L, h);
    var p := ObjStart(L, h);
    LineMonotone(p, h);
    if LineOf(p) < LineOf(j) <= LineOf(h) {
      var c := LineHead(s, j);
      if c == s { LineMonotone(s, o); }
      if c < o { LineMonotone(c, o); }
      if c <= p { LineMonotone(c, p); }
      if h < c { LineMonotone(h, c); }
      ObjStartBelow(L, j);
      ObjStartMonotone(L, o, c);
      ObjStartMonotone(L, c, j);
      ObjStartMonotone(L, p, c);
      ObjStartMonotone(L, c, h);
    }
  }

  /** Two changed bytes on different lines of an object that was not bumped: some accepted read tears it. */
  lemma TearAccepted(L: Layout, d0: seq<Byte>, d1: seq<Byte>, s: nat, e: nat, o: nat, i: nat, j: nat, v: int)
    requires L.Ok() && s < e <= |d0| == |d1| && ObjStart(L, s) == s && s <= o < e && ObjStart(L, o) == o
    requires HasNodeVersion(L, d0, v) && HasNodeVersion(L, d1, v) && d0[o] == d1[o]
    requires Differs(L, d0, d1, s, e, o, i) && Differs(L, d0, d1, s, e, o, j) && LineOf(i) < LineOf(j)
    ensures var x := Torn(L, d0, d1, LinesBelow(LineOf(j)));
            && TornRange(L, d0, d1, x, LinesBelow(LineOf(j)), s, e)
            && Accepted(L, x[Raw(s)..Raw(e)], s, e)
            && !Whole(L, d0, d1, Decoded(x[Raw(s)..Raw(e)], s, e), s, e, o)
  {
    hide ObjStart, Raw, Encode, Decoded, LineOf, Boundary, SameVersion, HasNodeVersion, Accepted, LineMix, Torn;
    var from0 := LinesBelow(LineOf(j));
    var x := Torn(L, d0, d1, from0);
    RangeFits(L, d0, d1, x, from0, s, e);
    ObjStartBelow(L, i);
    ObjStartBelow(L, j);
    LineMonotone(o, i);
    forall h {:trigger Boundary(h)} | s <= h < e && Boundary(h) ensures SameVersion(L, d0, d1, from0, h) {
      SwitchInside(L, d0, d1, s, e, o, j, h);
    }
    AcceptedIff(L, d0, d1, x, from0, s, e, v);
    TornBytes(L, d0, d1, x, from0, s, e, i);
    TornBytes(L, d0, d1, x, from0, s, e, j);
  }

  /** Every accepted read of the range shows all its objects whole. */
  ghost predicate NeverTorn(L: Layout, d0: seq<Byte>, d1: seq<Byte>, s: nat, e: nat)
    requires L.Ok() && s < e <= |d0| == |d1|
  {
    forall x: seq<Byte>, from0: set<nat>, o: nat ::
      TornRange(L, d0, d1, x, from0, s, e) && Accepted(L, x[Raw(s)..Raw(e)], s, e) && s <= o < e && ObjStart(L, o) == o ==>
        Whole(L, d0, d1, Decoded(x[Raw(s)..Raw(e)], s, e), s, e, o)
  }

  /** In every object that changed without being bumped, all that changed lies on one line. */
  ghost predicate ChangesOnOneLine(L: Layout, d0: seq<Byte>, d1: seq<Byte>, s: nat, e: nat)
    requires L.Ok() && e <= |d0| == |d1|
  {
    forall o :: s <= o < e && ObjStart(L, o) == o && d0[o] == d1[o] ==> OneLine(L, d0, d1, s, e, o)
  }

  lemma NeverTornIf(L: Layout, d0: seq<Byte>, d1: seq<Byte>, s: nat, e: nat)
    requires L.Ok() && s < e <= |d0| == |d1| && ChangesOnOneLine(L, d0, d1, s, e)
    ensures NeverTorn(L, d0, d1, s, e)
  {
    hide ObjStart, Raw, Decoded, LineOf, Whole, OneLine, Encode, LinesOk;
    forall x: seq<Byte>, from0: set<nat>, o: nat |
      TornRange(L, d0, d1, x, from0, s, e) && Accepted(L, x[Raw(s)..Raw(e)], s, e) && s <= o < e && ObjStart(L, o) == o
      ensures Whole(L, d0, d1, Decoded(x[Raw(s)..Raw(e)], s, e), s, e, o)
    {
      ObjectWhole(L, d0, d1, x, from0, s, e, o);
    }
  }

  lemma NeverTornOnlyIf(L: Layout, d0: seq<Byte>, d1: seq<Byte>, s: nat, e: nat, v: int)
    requires L.Ok() && s < e <= |d0| == |d1| && ObjStart(L, s) == s
    requires HasNodeVersion(L, d0, v) && HasNodeVersion(L, d1, v) && NeverTorn(L, d0, d1, s, e)
    ensures ChangesOnOneLine(L, d0, d1, s, e)
  {
    hide ObjStart, Raw, Decoded, LineOf, HasNodeVersion, TornRange, Whole, Differs;
    forall o | s <= o < e && ObjStart(L, o) == o && d0[o] == d1[o] ensures OneLine(L, d0, d1, s, e, o) {
      forall i, j | Differs(L, d0, d1, s, e, o, i) && Differs(L, d0, d1, s, e, o, j) ensures LineOf(i) == LineOf(j) {
        if LineOf(i) < LineOf(j) {
          TearAccepted(L, d0, d1, s, e, o, i, j, v);
        } else if LineOf(j) < LineOf(i) {
          TearAccepted(L, d0, d1, s, e, o, j, i, v);
        }
      }
    }
  }

  /** Around a segment write, which leaves the node version alone: no accepted read is ever torn if and only if in each
      object that changed without being bumped, all that changed lies on one line. */
  lemma NeverTornIff(L: Layout, d0: seq<Byte>, d1: seq<Byte>, s: nat, e: nat, v: int)
    requires L.Ok() && s < e <= |d0| == |d1| && ObjStart(L, s) == s
    requires HasNodeVersion(L, d0, v) && HasNodeVersion(L, d1, v)
    ensures NeverTorn(L, d0, d1, s, e) <==> ChangesOnOneLine(L, d0, d1, s, e)
  {
    hide NeverTorn, ChangesOnOneLine, HasNodeVersion, ObjStart;
    if NeverTorn(L, d0, d1, s, e) {
      NeverTornOnlyIf(L, d0, d1, s, e, v);
    }
    if ChangesOnOneLine(L, d0, d1, s, e) {
      NeverTornIf(L, d0, d1, s, e);
    }
  }
}
