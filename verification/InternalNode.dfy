/** Sorted internal nodes: routing, insertion by shifting, and splitting in the middle. */
module InternalNode {

  type Key = nat
  type Addr = nat

  const NULL: Addr := 0

  /** A child pointer and the lower bound of the child.  The leftmost pointer of a node is its first kid. */
  datatype Kid = Kid(key: Key, ptr: Addr)

  predicate Ascending(kids: seq<Kid>) {
    forall i, j :: 0 <= i < j < |kids| ==> kids[i].key < kids[j].key
  }

  /** How many kids have a key of at most k, in an ascending list. */
  function Rank(kids: seq<Kid>, k: Key): (n: nat)
    ensures n <= |kids|
    ensures Ascending(kids) ==> forall i :: 0 <= i < |kids| ==> (kids[i].key <= k <==> i < n)
  {
    if kids == [] || kids[|kids| - 1].key <= k then |kids| else Rank(kids[..|kids| - 1], k)
  }

  /** The ascending list with one kid more. */
  function InsertKid(kids: seq<Kid>, kid: Kid): (r: seq<Kid>) {
    var n := Rank(kids, kid.key);
    kids[..n] + [kid] + kids[n..]
  }

  lemma InsertKidCorrect(kids: seq<Kid>, kid: Kid)
    requires Ascending(kids) && forall i :: 0 <= i < |kids| ==> kids[i].key != kid.key
    ensures Ascending(InsertKid(kids, kid))
    ensures multiset(InsertKid(kids, kid)) == multiset(kids) + multiset{kid}
    ensures forall x :: x in InsertKid(kids, kid) <==> x in kids || x == kid
  {
    var n := Rank(kids, kid.key);
    assert kids == kids[..n] + kids[n..];
  }

  /** The child that k is routed to, and the child expected to follow it. */
  function Route(kids: seq<Kid>, nextLeftmost: Addr, k: Key): (r: (Addr, Addr))
    requires kids != [] && Ascending(kids) && kids[0].key <= k
  {
    var n := Rank(kids, k);
    (kids[n - 1].ptr, if n < |kids| then kids[n].ptr else nextLeftmost)
  }

  /** Records as stored: `count` of them in ascending order, the rest null. */
  ghost predicate Packed(records: seq<Kid>, count: nat) {
    && count <= |records|
    && Ascending(records[..count])
    && (forall i :: 0 <= i < count ==> records[i].key != 0)
    && (forall i :: count <= i < |records| ==> records[i].key == 0)
  }

  /** All kids of a node, the leftmost one first. */
  ghost function Kids(lo: Key, leftmost: Addr, records: seq<Kid>, count: nat): seq<Kid>
    requires count <= |records|
  {
    [Kid(lo, leftmost)] + records[..count]
  }

  lemma KidsAscend(lo: Key, leftmost: Addr, records: seq<Kid>, count: nat)
    requires count <= |records| && Ascending(records[..count]) && (0 < count ==> lo < records[0].key)
    ensures Ascending(Kids(lo, leftmost, records, count))
  {
    var kids := Kids(lo, leftmost, records, count);
    forall i, j | 0 <= i < j < |kids| ensures kids[i].key < kids[j].key {
      assert kids[j] == records[..count][j - 1];
      assert 0 < i ==> kids[i] == records[..count][i - 1];
      assert records[..count][0] == records[0];
    }
  }

  lemma RouteAt(kids: seq<Kid>, nextLeftmost: Addr, k: Key, i: nat)
    requires Ascending(kids) && i < |kids| && kids[0].key <= k && kids[i].key <= k && (i + 1 < |kids| ==> k < kids[i + 1].key)
    ensures Route(kids, nextLeftmost, k) == (kids[i].ptr, if i + 1 < |kids| then kids[i + 1].ptr else nextLeftmost)
  {
    RankIs(kids, k, i + 1);
  }

  /** The search loop of `internal_node_search` and of the cache. */
  method RouteRecords(records: seq<Kid>, leftmost: Addr, siblingLeftmost: Addr, k: Key, ghost lo: Key, ghost count: nat)
    returns (child: Addr, next: Addr)
    requires Packed(records, count) && 1 <= count && lo <= k && lo < records[0].key
    ensures Ascending(Kids(lo, leftmost, records, count))
    ensures (child, next) == Route(Kids(lo, leftmost, records, count), siblingLeftmost, k)
  {
    hide Ascending, Rank, Route;
    ghost var kids := Kids(lo, leftmost, records, count);
    KidsAscend(lo, leftmost, records, count);
    if k < records[0].key {
      RouteAt(kids, siblingLeftmost, k, 0);
      return leftmost, records[0].ptr;
    }
    for i := 1 to |records|
      invariant i <= count && records[i - 1].key <= k
    {
      if k < records[i].key || records[i].key == 0 {
        RouteAt(kids, siblingLeftmost, k, i);
        return records[i - 1].ptr, if records[i].key == 0 then siblingLeftmost else records[i].ptr;
      }
    }
    RouteAt(kids, siblingLeftmost, k, count);
    return records[|records| - 1].ptr, siblingLeftmost;
  }

  lemma RankIs(kids: seq<Kid>, k: Key, n: nat)
    requires Ascending(kids) && n <= |kids| && (forall i :: 0 <= i < n ==> kids[i].key <= k)
    requires n < |kids| ==> kids[n].key > k
    ensures Rank(kids, k) == n
  {}

  method FindPosition(records: array<Kid>, count: nat, k: Key) returns (at: nat)
    requires count <= records.Length && Ascending(records[..count])
    ensures at == Rank(records[..count], k)
  {
    at := 0;
    while at < count && records[at].key <= k
      invariant at <= count && forall i :: 0 <= i < at ==> records[i].key <= k
    {
      at := at + 1;
    }
    RankIs(records[..count], k, at);
  }

  lemma Shifted(before: seq<Kid>, now: seq<Kid>, at: nat, count: nat)
    requires at <= count < |before| == |now|
    requires forall i :: at < i <= count ==> now[i] == before[i - 1]
    requires forall i :: count < i < |now| ==> now[i] == before[i]
    ensures now[at + 1..count + 1] == before[at..count] && now[count + 1..] == before[count + 1..]
  {
    assert |now[at + 1..count + 1]| == |before[at..count]|;
    forall j | 0 <= j < count - at ensures now[at + 1..count + 1][j] == before[at..count][j] {}
  }

  method ShiftUp(records: array<Kid>, at: nat, count: nat)
    requires at <= count < records.Length
    modifies records
    ensures records[..at] == old(records[..at])
    ensures records[at + 1..count + 1] == old(records[at..count])
    ensures records[count + 1..] == old(records[count + 1..])
  {
    var j := count;
    while j > at
      invariant at <= j <= count
      invariant forall i :: 0 <= i < j ==> records[i] == old(records[i])
      invariant forall i :: j < i <= count ==> records[i] == old(records[i - 1])
      invariant forall i :: count < i < records.Length ==> records[i] == old(records[i])
    {
      records[j] := records[j - 1];
      j := j - 1;
    }
    ghost var before, now := old(records[..]), records[..];
    Shifted(before, now, at, count);
    assert records[at + 1..count + 1] == now[at + 1..count + 1] && old(records[at..count]) == before[at..count];
    assert records[count + 1..] == now[count + 1..] && old(records[count + 1..]) == before[count + 1..];
  }

  /** Shift the larger records up and put the new one in its place. */
  method ShiftAndInsert(records: array<Kid>, count: nat, k: Key, p: Addr)
    requires count < records.Length && Ascending(records[..count])
    modifies records
    ensures records[..count + 1] == InsertKid(old(records[..count]), Kid(k, p))
    ensures records[count + 1..] == old(records[count + 1..])
  {
    ghost var before := records[..count];
    var at := FindPosition(records, count, k);
    assert before[..at] == records[..at] && before[at..] == records[at..count];
    ShiftUp(records, at, count);
    records[at] := Kid(k, p);
    assert records[..at] == before[..at] && records[at + 1..count + 1] == before[at..];
    assert records[..count + 1] == records[..at] + [records[at]] + records[at + 1..count + 1];
  }

  /** A full list cut in two, with the new kid put into the half it belongs to. */
  function SplitKids(kids: seq<Kid>, cut: nat, kid: Kid): (seq<Kid>, seq<Kid>)
    requires cut < |kids|
  {
    if kid.key < kids[cut].key then (InsertKid(kids[..cut], kid), kids[cut..]) else (kids[..cut], InsertKid(kids[cut..], kid))
  }

  lemma SpliceLeft<T>(s: seq<T>, cut: nat, n: nat, x: T)
    requires n <= cut <= |s|
    ensures (s[..cut][..n] + [x] + s[..cut][n..]) + s[cut..] == s[..n] + [x] + s[n..]
  {
    assert s[..cut][..n] == s[..n];
    assert s[..cut][n..] + s[cut..] == s[n..];
  }

  lemma SpliceRight<T>(s: seq<T>, cut: nat, n: nat, x: T)
    requires cut <= n <= |s|
    ensures s[..cut] + (s[cut..][..n - cut] + [x] + s[cut..][n - cut..]) == s[..n] + [x] + s[n..]
  {
    assert s[..cut] + s[cut..][..n - cut] == s[..n];
    assert s[cut..][n - cut..] == s[n..];
  }

  /** Cutting and inserting loses and reorders nothing: end to end, the halves are the old list plus the new kid. */
  lemma SplitKeepsKids(kids: seq<Kid>, cut: nat, kid: Kid)
    requires cut < |kids| && Ascending(kids)
    ensures SplitKids(kids, cut, kid).0 + SplitKids(kids, cut, kid).1 == InsertKid(kids, kid)
  {
    var n := Rank(kids, kid.key);
    if kid.key < kids[cut].key {
      RankIs(kids[..cut], kid.key, n);
      SpliceLeft(kids, cut, n, kid);
    } else {
      RankIs(kids[cut..], kid.key, n - cut);
      SpliceRight(kids, cut, n, kid);
    }
  }

  lemma {:induction false} RankBehind(first: Kid, rest: seq<Kid>, k: Key)
    requires first.key <= k
    ensures Rank([first] + rest, k) == Rank(rest, k) + 1
  {
    var all := [first] + rest;
    if rest != [] {
      assert all[|all| - 1] == rest[|rest| - 1];
      assert all[..|all| - 1] == [first] + rest[..|rest| - 1];
      if rest[|rest| - 1].key > k { RankBehind(first, rest[..|rest| - 1], k); }
    }
  }

  /** A kid that does not sort first is inserted behind the first one. */
  lemma InsertBehind(first: Kid, rest: seq<Kid>, kid: Kid)
    requires first.key <= kid.key
    ensures InsertKid([first] + rest, kid) == [first] + InsertKid(rest, kid)
  {
    var all, n := [first] + rest, Rank(rest, kid.key);
    RankBehind(first, rest, kid.key);
    assert all[..n + 1] == [first] + rest[..n] && all[n + 1..] == rest[n..];
  }

  /** Move the records after the middle one to a new node and clear the upper half of the old one. */
  method MoveRecords(records: array<Kid>, m: nat) returns (sibling: array<Kid>)
    requires m < records.Length
    modifies records
    ensures fresh(sibling) && sibling.Length == records.Length
    ensures records[..m] == old(records[..m]) && sibling[..records.Length - m - 1] == old(records[m + 1..])
    ensures forall i :: m <= i < records.Length ==> records[i] == Kid(0, NULL)
    ensures forall i :: records.Length - m - 1 <= i < sibling.Length ==> sibling[i] == Kid(0, NULL)
  {
    sibling := new Kid[records.Length](_ => Kid(0, NULL));
    for i := m + 1 to records.Length
      invariant records[..] == old(records[..])
      invariant forall j :: 0 <= j < i - m - 1 ==> sibling[j] == records[m + 1 + j]
      invariant forall j :: i - m - 1 <= j < sibling.Length ==> sibling[j] == Kid(0, NULL)
    {
      sibling[i - m - 1] := records[i];
    }
    assert sibling[..records.Length - m - 1] == records[m + 1..];
    ghost var moved := sibling[..];
    for i := m to records.Length
      invariant sibling[..] == moved
      invariant forall j :: m <= j < i ==> records[j] == Kid(0, NULL)
      invariant forall j :: 0 <= j < m ==> records[j] == old(records[j])
    {
      records[i] := Kid(0, NULL);
    }
    assert sibling[..records.Length - m - 1] == moved[..records.Length - m - 1];
  }

  /** What `SplitKids` gives on a node's kids, in terms of its records. */
  lemma SplitOfRecords(first: Kid, records: seq<Kid>, m: nat, kid: Kid)
    requires m < |records| && first.key <= kid.key
    ensures SplitKids([first] + records, m + 1, kid) ==
              if kid.key < records[m].key
              then ([first] + InsertKid(records[..m], kid), [records[m]] + records[m + 1..])
              else ([first] + records[..m], [records[m]] + InsertKid(records[m + 1..], kid))
  {
    hide InsertKid;
    var all := [first] + records;
    assert all[..m + 1] == [first] + records[..m] && all[m + 1..] == [records[m]] + records[m + 1..];
    if kid.key < records[m].key {
      InsertBehind(first, records[..m], kid);
    } else {
      InsertBehind(records[m], records[m + 1..], kid);
    }
  }

  lemma RecordsAscend(first: Kid, records: seq<Kid>, m: nat)
    requires m < |records| && Ascending([first] + records)
    ensures Ascending(records[..m]) && Ascending(records[m + 1..])
  {
    var all := [first] + records;
    assert records[..m] == all[1..m + 1] && records[m + 1..] == all[m + 2..];
  }

  /** `node_split_and_unlock` for a full internal node: the middle record's pointer becomes the sibling's leftmost
      pointer, and its key the split key. */
  method SplitRecords(records: array<Kid>, k: Key, p: Addr, ghost lo: Key, ghost leftmost: Addr)
    returns (sibling: array<Kid>, splitKey: Key, siblingLeftmost: Addr, leftCount: nat, rightCount: nat)
    requires 3 <= records.Length && Ascending(Kids(lo, leftmost, records[..], records.Length)) && lo <= k
    modifies records
    ensures fresh(sibling) && sibling.Length == records.Length && leftCount <= records.Length && rightCount <= records.Length
    ensures splitKey == old(records[records.Length / 2].key)
    ensures (Kids(lo, leftmost, records[..], leftCount), Kids(splitKey, siblingLeftmost, sibling[..], rightCount))
         == SplitKids(old(Kids(lo, leftmost, records[..], records.Length)), records.Length / 2 + 1, Kid(k, p))
  {
    hide Ascending, InsertKid, SplitKids;
    var n := records.Length;
    var m := n / 2;
    ghost var before := records[..];
    assert before[..n] == before;
    RecordsAscend(Kid(lo, leftmost), before, m);
    SplitOfRecords(Kid(lo, leftmost), before, m, Kid(k, p));
    splitKey, siblingLeftmost := records[m].key, records[m].ptr;
    sibling := MoveRecords(records, m);
    leftCount, rightCount := m, n - m - 1;
    if k < splitKey {
      ShiftAndInsert(records, m, k, p);
      leftCount := m + 1;
    } else {
      ShiftAndInsert(sibling, n - m - 1, k, p);
      rightCount := n - m;
    }
  }
}
