/** Updating the value of a stored key in place. */
module LeafUpdate {
  import opened HopTable
  import opened HopRead

  function WithValue(t: seq<Entry>, i: nat, v: Value): (r: seq<Entry>)
    requires i < |t|
    ensures |r| == |t|
  {
    t[i := t[i].(value := v)]
  }

  /** The leaf stays valid: keys and bitmaps are the same. */
  lemma UpdateValid(g: Geometry, t: seq<Entry>, i: nat, v: Value)
    requires Valid(g, t) && i < |t|
    ensures Valid(g, WithValue(t, i, v))
  {
    var r := WithValue(t, i, v);
    assert forall j :: 0 <= j < |t| ==> r[j].key == t[j].key && r[j].bits == t[j].bits;
    forall c | 0 <= c < |r| ensures r[c].bits == HomeBits(g, r, g.slots, c) {
      assert t[c].bits == HomeBits(g, t, g.slots, c);
      assert forall d :: 0 <= d < g.span ==> HopBit(g, r, g.slots, c, d) == HopBit(g, t, g.slots, c, d);
    }
    forall j | 0 <= j < |r| && Used(r, g.slots, j) ensures InReach(g, r, j) {
      assert Used(t, g.slots, j) && InReach(g, t, j);
    }
  }

  /** The entry's value is replaced, and nothing else changes. */
  lemma UpdateContents(g: Geometry, t: seq<Entry>, i: nat, v: Value)
    requires Valid(g, t) && i < |t| && t[i].key != 0
    ensures Contents(WithValue(t, i, v), g.slots) == Contents(t, g.slots) - {(t[i].key, t[i].value)} + {(t[i].key, v)}
  {
    var r := WithValue(t, i, v);
    var before, after := Contents(t, g.slots), Contents(r, g.slots);
    assert Used(t, g.slots, i) && Used(r, g.slots, i);
    forall e | e in after ensures e in before - {(t[i].key, t[i].value)} + {(t[i].key, v)} {
      var j :| 0 <= j < |r| && Used(r, g.slots, j) && e == (r[j].key, r[j].value);
      assert Used(t, g.slots, j);
    }
    forall e | e in before - {(t[i].key, t[i].value)} + {(t[i].key, v)} ensures e in after {
      if e == (t[i].key, v) {
        assert e == (r[i].key, r[i].value);
      } else {
        var j :| 0 <= j < |t| && Used(t, g.slots, j) && e == (t[j].key, t[j].value);
        assert j != i && Used(r, g.slots, j) && e == (r[j].key, r[j].value);
      }
    }
  }

  /** `leaf_node_update` on the locked leaf: scan the neighbourhood of k and overwrite its value.  It finds k exactly when k
      is stored anywhere in the leaf. */
  method UpdateInLeaf(g: Geometry, leaf: array<Entry>, k: Key, v: Value) returns (found: bool, i: nat)
    requires Valid(g, leaf[..]) && k != 0
    modifies leaf
    ensures found <==> !Absent(old(leaf[..]), k)
    ensures !found ==> leaf[..] == old(leaf[..])
    ensures found ==> i < leaf.Length && old(leaf[..])[i].key == k && leaf[..] == WithValue(old(leaf[..]), i, v)
    ensures found ==>
              Contents(leaf[..], g.slots) == Contents(old(leaf[..]), g.slots) - {(k, old(leaf[..])[i].value)} + {(k, v)}
    ensures Valid(g, leaf[..])
  {
    hide Inv, Contents;
    ghost var t := leaf[..];
    ValidShape(g, t);
    var c := g.home(k);
    for j := 0 to g.span
      invariant leaf[..] == t
      invariant forall d :: 0 <= d < j ==> t[Slot(g, c, d)].key != k
    {
      i := Slot(g, c, j);
      if leaf[i].key == k {
        UpdateValid(g, t, i, v);
        UpdateContents(g, t, i, v);
        leaf[i] := leaf[i].(key := k, value := v);
        assert leaf[..] == WithValue(t, i, v);
        return true, i;
      }
    }
    NotInNeighbourhood(g, t, k);
    return false, 0;
  }

  lemma NotInNeighbourhood(g: Geometry, t: seq<Entry>, k: Key)
    requires Valid(g, t) && k != 0 && g.Ok() && |t| == g.slots
    requires forall d :: 0 <= d < g.span ==> t[Slot(g, g.home(k), d)].key != k
    ensures Absent(t, k)
  {
    hide Inv;
    forall i | 0 <= i < |t| ensures t[i].key != k {
      if t[i].key == k { StoredInNeighbourhood(g, t, k, i); }
    }
  }
}
