/** Splitting a leaf into which a key could not be inserted. */
module HopSplit {
  import opened Basics
  import opened HopChain
  import opened HopTable
  import opened HopInsert

  /** Offsets from k's home that are taken, and from which a hole could be hopped home. */
  ghost predicate Critical(g: Geometry, t: seq<Entry>, k: Key, e: nat)
    requires g.Ok() && |t| == g.slots
  {
    e < FirstEmpty(g, t, g.home(k), 0, g.slots) && CanReach(g, t, g.home(k), e)
  }

  /** The keys in the first n slots from k's home that are critical. */
  ghost function CriticalKeys(g: Geometry, t: seq<Entry>, k: Key, n: nat): (s: set<Key>)
    requires g.Ok() && |t| == g.slots && n <= g.slots
  {
    set e | 0 <= e < n && Critical(g, t, k, e) :: t[Slot(g, g.home(k), e)].key
  }

  function Below(s: set<Key>, x: Key): set<Key> {
    set y | y in s && y < x
  }

  /** x is the element of s that has half of s below it. */
  predicate IsMedian(s: set<Key>, x: Key) {
    x in s && |Below(s, x)| == |s| / 2
  }

  /** The split key the source chooses: the median of the critical keys and k itself. */
  ghost predicate IsSplitKey(g: Geometry, t: seq<Entry>, k: Key, s: Key)
    requires g.Ok() && |t| == g.slots
  {
    IsMedian(CriticalKeys(g, t, k, g.slots) + {k}, s)
  }

  /** h is the part of t with keys below s, or from s on, every entry at the index it had. */
  ghost predicate IsHalf(t: seq<Entry>, s: Key, upper: bool, h: seq<Entry>) {
    && |h| == |t|
    && forall i :: 0 <= i < |t| ==>
         if t[i].key != 0 && (t[i].key >= s) == upper then h[i].key == t[i].key && h[i].value == t[i].value
         else h[i].key == 0
  }

  /** When the insert of k failed, k's home is taken and so critical. */
  lemma HomeCritical(g: Geometry, t: seq<Entry>, k: Key)
    requires g.Ok() && |t| == g.slots && !CanInsert(g, t, k)
    ensures Critical(g, t, k, 0)
  {}

  lemma MedianSplits(s: set<Key>, x: Key, y: Key, z: Key)
    requires IsMedian(s, x) && y in s && z in s && y != z
    ensures exists w :: w in s && w < x
  {
    assert {y, z} <= s;
    SubsetSize({y, z}, s);
    assert Below(s, x) != {};
    var w :| w in Below(s, x);
  }

  /** Some critical slot loses its key to the other half. */
  lemma CriticalSlotFreed(g: Geometry, t: seq<Entry>, k: Key, s: Key) returns (e: nat)
    requires g.Ok() && |t| == g.slots && k != 0 && Absent(t, k) && !CanInsert(g, t, k) && IsSplitKey(g, t, k, s)
    ensures Critical(g, t, k, e) && (t[Slot(g, g.home(k), e)].key >= s) != (k >= s)
  {
    HomeCritical(g, t, k);
    var crit := CriticalKeys(g, t, k, g.slots);
    var x := t[Slot(g, g.home(k), 0)].key;
    assert x in crit;
    MedianSplits(crit + {k}, s, x, k);
    var w: Key := s;
    if k >= s {
      w :| w in crit + {k} && w < s;
    }
    assert w in crit;
    e :| 0 <= e < g.slots && Critical(g, t, k, e) && w == t[Slot(g, g.home(k), e)].key;
  }

  /** Splitting always makes room: in the half k belongs to, the first empty slot can be hopped home. */
  lemma SplitMakesRoom(g: Geometry, t: seq<Entry>, k: Key, s: Key, h: seq<Entry>)
    requires g.Ok() && |t| == g.slots && k != 0 && Absent(t, k) && !CanInsert(g, t, k) && IsSplitKey(g, t, k, s)
    requires IsHalf(t, s, k >= s, h)
    ensures CanInsert(g, h, k) && Absent(h, k)
  {
    var e := CriticalSlotFreed(g, t, k, s);
    var b := g.home(k);
    var f := FirstEmpty(g, h, b, 0, g.slots);
    assert h[Slot(g, b, e)].key == 0;
    assert f <= e;
    var disp := Displacements(g, t, b, e);
    ReachesDown(disp, g.span, f, e);
    assert forall q :: 0 <= q < f ==> Displacement(g, h, b, q) == Displacement(g, t, b, q);
    assert Displacements(g, h, b, f)[..f] == disp[..f];
    ReachesPrefix(Displacements(g, h, b, f), disp, g.span, f);
  }

  /** Critical slots are a prefix of the taken slots. */
  lemma CriticalPrefix(g: Geometry, t: seq<Entry>, k: Key, e: nat, c: nat)
    requires g.Ok() && |t| == g.slots && e <= c && Critical(g, t, k, c)
    ensures Critical(g, t, k, e)
  {
    var disp := Displacements(g, t, g.home(k), c);
    ReachesDown(disp, g.span, e, c);
    assert Displacements(g, t, g.home(k), e)[..e] == disp[..e];
    ReachesPrefix(Displacements(g, t, g.home(k), e), disp, g.span, e);
  }

  // ---- choosing the split key ----

  lemma ReachUnroll(g: Geometry, t: seq<Entry>, b: nat, p: nat)
    requires g.Ok() && |t| == g.slots && b < g.slots && g.span <= p <= g.slots
    ensures CanReach(g, t, b, p) <==> Mover(g, t, b, p) < p && CanReach(g, t, b, Mover(g, t, b, p))
  {
    var q := Mover(g, t, b, p);
    var disp := Displacements(g, t, b, p);
    assert Displacements(g, t, b, q)[..q] == disp[..q];
    ReachesPrefix(Displacements(g, t, b, q), disp, g.span, q);
  }

  /** The home of the key in slot h by hashing it, brought to within `span` before h. */
  method HashedHome(g: Geometry, t: seq<Entry>, b: nat, h: nat) returns (home: int)
    requires g.Ok() && |t| == g.slots && b < g.slots && b <= h < b + g.slots && InReach(g, t, Slot(g, b, h - b))
    ensures home == h - Displacement(g, t, b, h - b)
  {
    home := g.home(t[Wrap(g.slots, h)].key);
    if h - home < 0 { home := home - g.slots; } else if h - home >= g.span { home := home + g.slots; }
  }

  /** Try hopping as if slot b + e were empty. */
  method TryHops(g: Geometry, t: seq<Entry>, b: nat, e: nat) returns (ok: bool)
    requires g.Ok() && |t| == g.slots && b < g.slots && e < g.slots
    requires forall q :: 0 <= q < e ==> InReach(g, t, Slot(g, b, q))
    ensures ok <==> CanReach(g, t, b, e)
  {
    hide CanReach, Displacement, InReach;
    var j := b + e;
    while b + g.span <= j
      invariant b <= j <= b + e
      invariant CanReach(g, t, b, j - b) <==> CanReach(g, t, b, e)
      decreases j
    {
      ReachUnroll(g, t, b, j - b);
      var h := j;
      var offset: int := g.span - 1;
      while offset > 0
        invariant 0 <= offset < g.span && h == j
        invariant forall s :: j - b - g.span < s < j - b - offset ==> s - Displacement(g, t, b, s) + g.span <= j - b
      {
        var home := HashedHome(g, t, b, j - offset);
        if home + g.span > j {
          h := j - offset;
          break;
        }
        offset := offset - 1;
      }
      if h == j { return false; }
      j := h;
    }
    ReachHome(g, t, b, j - b);
    ok := true;
  }

  lemma ReachHome(g: Geometry, t: seq<Entry>, b: nat, p: nat)
    requires g.Ok() && |t| == g.slots && b < g.slots && p < g.span
    ensures CanReach(g, t, b, p)
  {}

  predicate Ascending(s: seq<Key>) {
    forall i, j :: 0 <= i < j < |s| ==> s[i] < s[j]
  }

  function Elements(s: seq<Key>): set<Key> {
    set x | x in s
  }

  lemma {:induction false} AscendingSize(s: seq<Key>)
    requires Ascending(s)
    ensures |Elements(s)| == |s|
  {
    if s != [] {
      var n := |s| - 1;
      AscendingSize(s[..n]);
      assert s == s[..n] + [s[n]];
      assert Elements(s) == Elements(s[..n]) + {s[n]};
    }
  }

  /** In an ascending list the element at the middle index is the median. */
  lemma AscendingMedian(s: seq<Key>)
    requires Ascending(s) && s != []
    ensures IsMedian(Elements(s), s[|s| / 2])
  {
    var m := |s| / 2;
    AscendingSize(s);
    AscendingSize(s[..m]);
    forall y | y in Below(Elements(s), s[m]) ensures y in Elements(s[..m]) {
      var i :| 0 <= i < |s| && s[i] == y;
      assert i < m && s[..m][i] == y;
    }
    assert Below(Elements(s), s[m]) == Elements(s[..m]);
  }

  /** `std::sort` on distinct keys. */
  method SortKeys(keys: seq<Key>) returns (s: seq<Key>)
    requires forall i, j :: 0 <= i < j < |keys| ==> keys[i] != keys[j]
    ensures Ascending(s) && Elements(s) == Elements(keys) && |s| == |keys|
  {
    s := [];
    for n := 0 to |keys|
      invariant Ascending(s) && Elements(s) == Elements(keys[..n]) && |s| == n
    {
      var x := keys[n];
      var p := 0;
      while p < |s| && s[p] < x
        invariant p <= |s| && forall i :: 0 <= i < p ==> s[i] < x
      {
        p := p + 1;
      }
      assert keys[..n + 1] == keys[..n] + [x];
      assert x !in Elements(keys[..n]);
      SpliceAscending(s, x, p);
      s := s[..p] + [x] + s[p..];
    }
    assert keys[..|keys|] == keys;
  }

  lemma SpliceAscending(s: seq<Key>, x: Key, p: nat)
    requires Ascending(s) && p <= |s| && x !in s
    requires forall i :: 0 <= i < p ==> s[i] < x
    requires p < |s| ==> x <= s[p]
    ensures Ascending(s[..p] + [x] + s[p..])
    ensures Elements(s[..p] + [x] + s[p..]) == Elements(s) + {x}
  {
    var r := s[..p] + [x] + s[p..];
    assert p < |s| ==> x < s[p];
    assert s == s[..p] + s[p..];
  }

  lemma SlotKeysDiffer(g: Geometry, t: seq<Entry>, b: nat, p: nat, q: nat)
    requires Valid(g, t) && b < g.slots && p < q < g.slots
    requires t[Slot(g, b, p)].key != 0 && t[Slot(g, b, q)].key != 0
    ensures t[Slot(g, b, p)].key != t[Slot(g, b, q)].key
  {
    var i, j := Slot(g, b, p), Slot(g, b, q);
    assert Used(t, g.slots, i) && Used(t, g.slots, j);
  }

  /** One more slot adds its key to the critical keys, a new one, exactly when a hole there could be hopped home. */
  lemma CriticalStep(g: Geometry, t: seq<Entry>, k: Key, e: nat)
    requires Valid(g, t) && e < FirstEmpty(g, t, g.home(k), 0, g.slots)
    ensures var x := t[Slot(g, g.home(k), e)].key;
            && x !in CriticalKeys(g, t, k, e)
            && CriticalKeys(g, t, k, e + 1)
                 == CriticalKeys(g, t, k, e) + if CanReach(g, t, g.home(k), e) then {x} else {}
  {
    hide Inv, CanReach;
    ValidShape(g, t);
    var b := g.home(k);
    var x := t[Slot(g, b, e)].key;
    if x in CriticalKeys(g, t, k, e) {
      var f :| 0 <= f < e && Critical(g, t, k, f) && x == t[Slot(g, b, f)].key;
      SlotKeysDiffer(g, t, b, f, e);
    }
    assert forall f :: 0 <= f < e + 1 && Critical(g, t, k, f) ==> f < e || f == e;
  }

  lemma CriticalAll(g: Geometry, t: seq<Entry>, k: Key, e: nat)
    requires g.Ok() && |t| == g.slots && e == FirstEmpty(g, t, g.home(k), 0, g.slots)
    ensures CriticalKeys(g, t, k, e) == CriticalKeys(g, t, k, g.slots)
  {
    assert forall f :: 0 <= f < g.slots && Critical(g, t, k, f) ==> f < e;
  }

  lemma TakenInReach(g: Geometry, t: seq<Entry>, b: nat, e: nat)
    requires Valid(g, t) && b < g.slots && e <= FirstEmpty(g, t, b, 0, g.slots)
    ensures forall q :: 0 <= q < e ==> InReach(g, t, Slot(g, b, q))
  {
    forall q | 0 <= q < e ensures InReach(g, t, Slot(g, b, q)) {
      assert Used(t, g.slots, Slot(g, b, q));
    }
  }

  /** `hopscotch_get_split_key`. */
  method GetSplitKey(g: Geometry, t: seq<Entry>, k: Key) returns (s: Key)
    requires Valid(g, t) && Absent(t, k) && !CanInsert(g, t, k)
    ensures IsSplitKey(g, t, k, s)
  {
    hide Inv, Critical, CanReach, CanInsert, CriticalKeys, InReach;
    ValidShape(g, t);
    HomeCritical(g, t, k);
    var b := g.home(k);
    var critical: seq<Key> := [];
    var e := 0;
    CriticalNone(g, t, k);
    while e < g.slots && t[Slot(g, b, e)].key != 0
      invariant e <= FirstEmpty(g, t, b, 0, g.slots) <= g.slots
      invariant Elements(critical) == CriticalKeys(g, t, k, e)
      invariant forall i, j :: 0 <= i < j < |critical| ==> critical[i] != critical[j]
      invariant k !in critical
    {
      TakenInReach(g, t, b, e);
      var ok := TryHops(g, t, b, e);
      CriticalStep(g, t, k, e);
      if ok {
        assert t[Slot(g, b, e)].key !in Elements(critical);
        critical := critical + [t[Slot(g, b, e)].key];
      }
      e := e + 1;
    }
    CriticalAll(g, t, k, e);
    assert Elements(critical + [k]) == CriticalKeys(g, t, k, g.slots) + {k};
    var sorted := SortKeys(critical + [k]);
    AscendingMedian(sorted);
    s := sorted[|sorted| / 2];
  }

  lemma CriticalNone(g: Geometry, t: seq<Entry>, k: Key)
    requires g.Ok() && |t| == g.slots
    ensures CriticalKeys(g, t, k, 0) == {}
  {}

  // ---- moving the upper half ----

  /** Take the key out of slot x. */
  function Removed(g: Geometry, t: seq<Entry>, x: nat): (r: seq<Entry>)
    requires |t| == g.slots && x < g.slots && g.home(t[x].key) < g.slots
    ensures |r| == |t|
  {
    var c := g.home(t[x].key);
    var u := t[x := t[x].(key := 0, value := 0)];
    u[c := u[c].(bits := u[c].bits - {Dist(g.slots, c, x)})]
  }

  lemma RemovedValid(g: Geometry, t: seq<Entry>, x: nat)
    requires Valid(g, t) && x < |t| && t[x].key != 0
    ensures Valid(g, Removed(g, t, x))
  {
    var r, m := Removed(g, t, x), g.home(t[x].key);
    assert forall i :: 0 <= i < |t| && i != x ==> r[i].key == t[i].key;
    assert r[x].key == 0;
    forall i | 0 <= i < |r| && Used(r, g.slots, i) ensures InReach(g, r, i) {
      assert Used(t, g.slots, i) && InReach(g, t, i);
    }
    forall c | 0 <= c < |r| ensures r[c].bits == HomeBits(g, r, g.slots, c) {
      RemovedBits(g, t, x, c);
    }
  }

  lemma RemovedBits(g: Geometry, t: seq<Entry>, x: nat, c: nat)
    requires Valid(g, t) && x < |t| && t[x].key != 0 && c < |t|
    ensures Removed(g, t, x)[c].bits == HomeBits(g, Removed(g, t, x), g.slots, c)
  {
    var r := Removed(g, t, x);
    assert t[c].bits == HomeBits(g, t, g.slots, c);
    forall d | 0 <= d < g.span ensures d in r[c].bits <==> HopBit(g, r, g.slots, c, d) {
      DistUnique(g.slots, c, d);
      assert d in t[c].bits <==> HopBit(g, t, g.slots, c, d);
    }
  }

  /** The state of the move loop after n slots of the old leaf t. */
  ghost predicate Moving(g: Geometry, t: seq<Entry>, s: Key, n: nat, left: seq<Entry>, right: seq<Entry>) {
    && Valid(g, t) && Valid(g, left) && Valid(g, right) && n <= |t|
    && (forall i :: 0 <= i < n ==>
          if t[i].key >= s && t[i].key != 0 then left[i].key == 0 && right[i].key == t[i].key && right[i].value == t[i].value
          else right[i].key == 0 && left[i].key == t[i].key && left[i].value == t[i].value)
    && (forall i :: n <= i < |t| ==> right[i].key == 0 && left[i].key == t[i].key && left[i].value == t[i].value)
  }

  lemma MovingStart(g: Geometry, t: seq<Entry>, s: Key, right: seq<Entry>)
    requires Valid(g, t) && Valid(g, right) && forall i :: 0 <= i < |right| ==> right[i].key == 0
    ensures Moving(g, t, s, 0, t, right) && |t| == |right| == g.slots
  {}

  lemma MovingStep(g: Geometry, t: seq<Entry>, s: Key, n: nat, left: seq<Entry>, right: seq<Entry>)
    requires Moving(g, t, s, n, left, right) && n < |t| && t[n].key >= s && t[n].key != 0
    ensures var c := g.home(left[n].key);
            && g.Ok() && |left| == |right| == g.slots && c < g.slots && Dist(g.slots, c, n) < g.span
            && Dist(g.slots, c, n) in left[c].bits && PlaceReady(g, right, n, left[n].key)
            && Moving(g, t, s, n + 1, Removed(g, left, n), Place(g, right, n, left[n].key, left[n].value))
  {
    var k, v, c := left[n].key, left[n].value, g.home(left[n].key);
    assert Used(t, g.slots, n) && InReach(g, t, n);
    BitsOf(g, left, g.slots, c, n);
    BitsOf(g, right, g.slots, c, n);
    RemovedValid(g, left, n);
    EmptyIsHole(g, right, n);
    forall i | 0 <= i < |right| && Used(right, n, i) ensures right[i].key != k {
      assert Used(t, g.slots, i);
    }
    PlaceInv(g, right, n, k, v);
  }

  lemma MovingSkip(g: Geometry, t: seq<Entry>, s: Key, n: nat, left: seq<Entry>, right: seq<Entry>)
    requires Moving(g, t, s, n, left, right) && n < |t| && !(t[n].key >= s && t[n].key != 0)
    ensures Moving(g, t, s, n + 1, left, right)
  {}

  lemma MovingEnd(g: Geometry, t: seq<Entry>, s: Key, left: seq<Entry>, right: seq<Entry>)
    requires Moving(g, t, s, |t|, left, right)
    ensures IsHalf(t, s, false, left) && IsHalf(t, s, true, right) && Valid(g, left) && Valid(g, right)
  {}

  method RemoveAt(g: Geometry, records: array<Entry>, x: nat)
    requires g.Ok() && records.Length == g.slots && x < g.slots
    requires var c := g.home(records[x].key); Dist(g.slots, c, x) < g.span && Dist(g.slots, c, x) in records[c].bits
    modifies records
    ensures records[..] == Removed(g, old(records[..]), x)
  {
    var c := g.home(records[x].key);
    records[x] := records[x].(key := 0, value := 0);
    records[c] := UnsetHopBit(records[c], g.span, Dist(g.slots, c, x));
  }

  /** Move every entry whose key is at least s to the sibling, at the same index. */
  method MoveUpper(g: Geometry, records: array<Entry>, sibling: array<Entry>, s: Key)
    requires records != sibling && Valid(g, records[..]) && Valid(g, sibling[..])
    requires forall i :: 0 <= i < sibling.Length ==> sibling[i].key == 0
    modifies records, sibling
    ensures IsHalf(old(records[..]), s, false, records[..]) && IsHalf(old(records[..]), s, true, sibling[..])
    ensures Valid(g, records[..]) && Valid(g, sibling[..])
  {
    hide Inv, Moving, Place, Removed, PlaceReady;
    ghost var t := records[..];
    MovingStart(g, t, s, sibling[..]);
    var n := 0;
    while n < g.slots
      invariant n <= g.slots == |t| == records.Length == sibling.Length
      invariant Moving(g, t, s, n, records[..], sibling[..])
      invariant forall i :: n <= i < |t| ==> records[i].key == t[i].key
    {
      assert records[..][n] == records[n];
      var e := records[n];
      if e.key != 0 && e.key >= s {
        MovingStep(g, t, s, n, records[..], sibling[..]);
        ghost var before := records[..];
        PlaceAt(g, sibling, n, e.key, e.value);
        RemoveAt(g, records, n);
        RemovedKeys(g, before, n);
      } else {
        MovingSkip(g, t, s, n, records[..], sibling[..]);
      }
      n := n + 1;
    }
    MovingEnd(g, t, s, records[..], sibling[..]);
  }

  lemma RemovedKeys(g: Geometry, t: seq<Entry>, x: nat)
    requires |t| == g.slots && x < g.slots && g.home(t[x].key) < g.slots
    ensures forall i :: 0 <= i < |t| && i != x ==> Removed(g, t, x)[i].key == t[i].key
  {}

  // ---- the whole split ----

  /** i is the slot of the largest key. */
  predicate IsMaxIdx(t: seq<Entry>, i: nat) {
    i < |t| && t[i].key != 0 && forall j :: 0 <= j < |t| ==> t[j].key <= t[i].key
  }

  /** `get_max_key_idx`. */
  method MaxKeyIdx(t: seq<Entry>) returns (idx: nat)
    requires exists i :: 0 <= i < |t| && t[i].key != 0
    ensures IsMaxIdx(t, idx)
  {
    var max: Key := 0;
    idx := 0;
    for i := 0 to |t|
      invariant max == 0 || (idx < i && t[idx].key == max)
      invariant forall j :: 0 <= j < i ==> t[j].key <= max
    {
      if t[i].key > max { max, idx := t[i].key, i; }
    }
  }

  lemma HalvesContents(t: seq<Entry>, s: Key, left: seq<Entry>, right: seq<Entry>, hole: nat)
    requires IsHalf(t, s, false, left) && IsHalf(t, s, true, right) && |t| <= hole
    ensures Contents(left, hole) + Contents(right, hole) == Contents(t, hole)
  {
    forall e | e in Contents(t, hole) ensures e in Contents(left, hole) + Contents(right, hole) {
      var i :| 0 <= i < |t| && Used(t, hole, i) && e == (t[i].key, t[i].value);
      assert Used(if t[i].key >= s then right else left, hole, i);
    }
    forall e | e in Contents(left, hole) ensures e in Contents(t, hole) {
      var i :| 0 <= i < |t| && Used(left, hole, i) && e == (left[i].key, left[i].value);
      assert Used(t, hole, i);
    }
    forall e | e in Contents(right, hole) ensures e in Contents(t, hole) {
      var i :| 0 <= i < |t| && Used(right, hole, i) && e == (right[i].key, right[i].value);
      assert Used(t, hole, i);
    }
  }

  /** Every key of the leaf lies on the given side of s. */
  ghost predicate AllKeys(t: seq<Entry>, s: Key, upper: bool) {
    forall i :: 0 <= i < |t| && t[i].key != 0 ==> (t[i].key >= s) == upper
  }

  /** An insert adds no key but k, so it keeps both sides apart. */
  lemma InsertedSide(g: Geometry, t: seq<Entry>, k: Key, v: Value, s: Key)
    requires Valid(g, t) && k != 0 && Absent(t, k) && CanInsert(g, t, k) && AllKeys(t, s, k >= s)
    ensures AllKeys(Inserted(g, t, k, v), s, k >= s)
    ensures exists i :: 0 <= i < g.slots && Inserted(g, t, k, v)[i].key == k
  {
    hide Inv, Inserted, CanInsert, Absent, InsertSlots;
    ValidShape(g, t);
    InsertSlotsLast(g, t, k, v);
    var r := Inserted(g, t, k, v);
    forall i | 0 <= i < |r| && r[i].key != 0 ensures (r[i].key >= s) == (k >= s) {
      if r[i].key != k { InsertedKeys(g, t, k, v, i); }
    }
  }

  /** The half k does not go to keeps a key: both halves end up non-empty. */
  lemma OtherHalfNonEmpty(g: Geometry, t: seq<Entry>, k: Key, s: Key, h: seq<Entry>)
    requires g.Ok() && |t| == g.slots && k != 0 && Absent(t, k) && !CanInsert(g, t, k) && IsSplitKey(g, t, k, s)
    requires IsHalf(t, s, !(k >= s), h)
    ensures exists i :: 0 <= i < |h| && h[i].key != 0
  {
    var e := CriticalSlotFreed(g, t, k, s);
    assert h[Slot(g, g.home(k), e)].key != 0;
  }

  /** Two leaves that hold t's entries and (k, v), split at s, neither of them empty. */
  ghost predicate SplitAt(g: Geometry, t: seq<Entry>, k: Key, v: Value, s: Key, left: seq<Entry>, right: seq<Entry>) {
    && Valid(g, left) && Valid(g, right)
    && Contents(left, g.slots) + Contents(right, g.slots) == Contents(t, g.slots) + {(k, v)}
    && AllKeys(left, s, false) && AllKeys(right, s, true)
    && (exists i :: 0 <= i < |left| && left[i].key != 0)
    && (exists i :: 0 <= i < |right| && right[i].key != 0)
  }

  /** ... and the split key is one more than the largest key on the left. */
  ghost predicate SplitOutcome(g: Geometry, t: seq<Entry>, k: Key, v: Value, splitKey: Key, left: seq<Entry>, right: seq<Entry>) {
    && SplitAt(g, t, k, v, splitKey, left, right)
    && exists i: nat :: IsMaxIdx(left, i) && left[i].key + 1 == splitKey
  }

  lemma HalfSide(t: seq<Entry>, s: Key, upper: bool, h: seq<Entry>)
    requires IsHalf(t, s, upper, h)
    ensures AllKeys(h, s, upper)
  {}

  /** Inserting k into the half it belongs to completes the split. */
  lemma InsertCompletesSplit(g: Geometry, t: seq<Entry>, k: Key, v: Value, s: Key, own: seq<Entry>, other: seq<Entry>)
    requires IsHalf(t, s, k >= s, own) && IsHalf(t, s, !(k >= s), other) && Valid(g, own) && Valid(g, other) && Valid(g, t)
    requires k != 0 && Absent(own, k) && CanInsert(g, own, k) && exists i :: 0 <= i < |other| && other[i].key != 0
    ensures var r := Inserted(g, own, k, v);
            if k >= s then SplitAt(g, t, k, v, s, other, r) else SplitAt(g, t, k, v, s, r, other)
  {
    hide Inv, CanInsert, Inserted, Contents, IsHalf, AllKeys, Absent;
    ValidShape(g, t);
    ValidShape(g, own);
    HalfSide(t, s, k >= s, own);
    HalfSide(t, s, !(k >= s), other);
    if k >= s {
      HalvesContents(t, s, other, own, g.slots);
    } else {
      HalvesContents(t, s, own, other, g.slots);
    }
    InsertedCorrect(g, own, k, v);
    InsertedSide(g, own, k, v, s);
  }

  /** The tightened split key still separates the halves. */
  lemma TightenedKey(g: Geometry, t: seq<Entry>, k: Key, v: Value, s: Key, left: seq<Entry>, right: seq<Entry>, i: nat)
    requires SplitAt(g, t, k, v, s, left, right) && IsMaxIdx(left, i)
    ensures SplitOutcome(g, t, k, v, left[i].key + 1, left, right)
  {
    hide Inv;
  }

  /** `hopscotch_split_and_unlock`, up to the point where the two nodes are written out. */
  method SplitLeaf(g: Geometry, records: array<Entry>, k: Key, v: Value) returns (sibling: array<Entry>, splitKey: Key)
    requires Valid(g, records[..]) && k != 0 && Absent(records[..], k) && !CanInsert(g, records[..], k)
    modifies records
    ensures fresh(sibling) && sibling.Length == records.Length
    ensures SplitOutcome(g, old(records[..]), k, v, splitKey, records[..], sibling[..])
  {
    hide Inv, CanInsert, Inserted, IsSplitKey, IsHalf, SplitOutcome, Absent;
    ghost var t := records[..];
    ValidShape(g, t);
    var s := GetSplitKey(g, records[..], k);
    sibling := new Entry[g.slots](_ => NULL_ENTRY);
    EmptyLeafValid(g, sibling[..]);
    MoveUpper(g, records, sibling, s);
    if k < s {
      SplitMakesRoom(g, t, k, s, records[..]);
      OtherHalfNonEmpty(g, t, k, s, sibling[..]);
      InsertCompletesSplit(g, t, k, v, s, records[..], sibling[..]);
      var _ := InsertLocally(g, records, k, v);
    } else {
      SplitMakesRoom(g, t, k, s, sibling[..]);
      OtherHalfNonEmpty(g, t, k, s, records[..]);
      InsertCompletesSplit(g, t, k, v, s, sibling[..], records[..]);
      var _ := InsertLocally(g, sibling, k, v);
    }
    var idx := MaxKeyIdx(records[..]);
    TightenedKey(g, t, k, v, s, records[..], sibling[..], idx);
    splitKey := records[idx].key + 1;
  }
}
