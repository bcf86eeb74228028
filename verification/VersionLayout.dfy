/** Nodes as bytes in remote memory: one version byte in front of every 64-byte line but the first, and, for leaves, the
    metadata replicated in front of every group of entries. */
module VersionLayout {
  import opened Arith

  /** `cachelineSize` and `blockSize`: a line holds one version byte and 63 bytes of the node. */
  const LINE: nat := 64
  const BLOCK: nat := 63

  type Byte = b: int | 0 <= b < 256

  /** How many version bytes lie before decoded offset x. */
  function Lines(x: nat): nat {
    if x <= LINE then 0 else (x - LINE + BLOCK - 1) / BLOCK
  }

  /** Where decoded offset x lands in the encoded node; at a line start, that is its version byte. */
  function Raw(x: nat): nat {
    x + Lines(x)
  }

  /** A version byte is placed right before decoded offset i. */
  predicate Boundary(i: nat) {
    i >= LINE && (i - LINE) % BLOCK == 0
  }

  lemma LinesStep(i: nat)
    ensures Lines(i + 1) == Lines(i) + if Boundary(i) then 1 else 0
  {}

  /** Version bytes are exactly the bytes at the start of a line. */
  lemma BoundaryIsLineStart(i: nat)
    ensures Boundary(i) ==> Raw(i) % LINE == 0 && Raw(i) / LINE == Lines(i) + 1
    ensures (Raw(i + 1) - 1) / LINE == Lines(i + 1)
  {}

  lemma RawMonotone(i: nat, j: nat)
    requires i <= j
    ensures Raw(i) <= Raw(j) && (i < j ==> Raw(i) < Raw(j)) && Lines(i) <= Lines(j)
  {}

  /** Objects of a node: in every group, one metadata object of `meta` bytes and then entries of `entry` bytes.  An
      internal node is a single group. */
  datatype Layout = Layout(meta: nat, entry: nat, perGroup: nat) {
    predicate Ok() { 1 <= meta && 1 <= entry && 1 <= perGroup }
    function Group(): nat { meta + Times(entry, perGroup) }
  }

  function Times(a: nat, b: nat): (c: nat)
    ensures c == a * b
  {
    MulMono(0, a, b);
    a * b
  }

  /** Where the object that contains offset o of a group starts. */
  function StartInGroup(L: Layout, o: nat): nat
    requires L.Ok()
  {
    if o < L.meta then 0 else L.meta + Times((o - L.meta) / L.entry, L.entry)
  }

  lemma GroupPositive(L: Layout)
    requires L.Ok()
    ensures L.Group() >= 1
  {}

  /** Where the object that contains decoded offset i starts; its first byte is its version. */
  function ObjStart(L: Layout, i: nat): nat
    requires L.Ok()
  {
    GroupPositive(L);
    Times(i / L.Group(), L.Group()) + StartInGroup(L, i % L.Group())
  }

  lemma RoundDown(n: nat, x: nat)
    requires 1 <= n
    ensures x / n * n <= x < x / n * n + n && (x / n * n) / n * n == x / n * n
  {
    var q := x / n;
    assert x == q * n + x % n;
    DivisionUnique(n, q * n, q, 0);
  }

  lemma RoundDownMono(n: nat, x: nat, y: nat)
    requires 1 <= n && x <= y
    ensures x / n * n <= y / n * n
  {
    RoundDown(n, x);
    DivAtLeast(n, y, x / n);
    MulMono(x / n, y / n, n);
  }

  lemma StartInGroupFacts(L: Layout, o: nat, o': nat)
    requires L.Ok() && o <= o'
    ensures StartInGroup(L, o) <= o && StartInGroup(L, StartInGroup(L, o)) == StartInGroup(L, o)
    ensures StartInGroup(L, o) <= StartInGroup(L, o')
  {
    if o >= L.meta { RoundDown(L.entry, o - L.meta); RoundDownMono(L.entry, o - L.meta, o' - L.meta); }
  }

  /** Offsets of a later group are those of the first group, shifted. */
  lemma ObjStartShift(L: Layout, q: nat, o: nat)
    requires L.Ok() && o < L.Group()
    ensures ObjStart(L, q * L.Group() + o) == q * L.Group() + StartInGroup(L, o)
  {
    DivisionUnique(L.Group(), q * L.Group() + o, q, o);
  }

  lemma Decompose(n: nat, i: nat) returns (q: nat, o: nat)
    requires 1 <= n
    ensures i == q * n + o && o < n && q == i / n && o == i % n
  {
    q, o := i / n, i % n;
  }

  /** Object starts lie at or before the offset and are their own object start. */
  lemma ObjStartBelow(L: Layout, i: nat)
    requires L.Ok()
    ensures ObjStart(L, i) <= i && ObjStart(L, ObjStart(L, i)) == ObjStart(L, i)
  {
    hide StartInGroup, ObjStart;
    GroupPositive(L);
    var q, o := Decompose(L.Group(), i);
    StartInGroupFacts(L, o, o);
    ObjStartShift(L, q, o);
    ObjStartShift(L, q, StartInGroup(L, o));
  }

  lemma ObjStartMonotone(L: Layout, i: nat, j: nat)
    requires L.Ok() && i <= j
    ensures ObjStart(L, i) <= ObjStart(L, j)
  {
    hide StartInGroup, ObjStart;
    GroupPositive(L);
    var n := L.Group();
    var q, o := Decompose(n, i);
    var q', o' := Decompose(n, j);
    ObjStartShift(L, q, o);
    ObjStartShift(L, q', o');
    StartInGroupFacts(L, o, o);
    DivAtLeast(n, j, q);
    if q == q' {
      StartInGroupFacts(L, o, o');
    } else {
      NextMultiple(q, q', n);
    }
  }

  lemma NextMultiple(q: nat, q': nat, n: nat)
    requires q < q'
    ensures q * n + n <= q' * n
  {
    MulMono(q + 1, q', n);
    assert (q + 1) * n == q * n + n;
  }
}
