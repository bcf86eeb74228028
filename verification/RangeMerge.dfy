/** Merging the leaf segments a range query wants to read: overlapping ones always, nearby ones while one read stays
    small. */
module RangeMerge {

  /** The slots from l up to, not including, r. */
  datatype Segment = Segment(l: int, r: int)

  predicate Sorted(s: seq<Segment>) {
    forall i, j :: 0 <= i < j < |s| ==> s[i].l <= s[j].l
  }

  predicate Proper(s: seq<Segment>) {
    forall i :: 0 <= i < |s| ==> s[i].l <= s[i].r
  }

  predicate Covers(s: seq<Segment>, x: int) {
    exists i :: 0 <= i < |s| && s[i].l <= x < s[i].r
  }

  /** Ascending, with at least one slot between neighbours. */
  predicate Apart(s: seq<Segment>) {
    Proper(s) && forall i, j :: 0 <= i < j < |s| ==> s[i].r < s[j].l
  }

  lemma SpliceSorted(r: seq<Segment>, a: Segment, p: nat)
    requires Sorted(r) && p <= |r| && (forall i :: 0 <= i < p ==> r[i].l <= a.l) && (p < |r| ==> a.l <= r[p].l)
    ensures Sorted(r[..p] + [a] + r[p..])
  {
    var q := r[..p] + [a] + r[p..];
    assert forall i :: 0 <= i < p ==> q[i] == r[i];
    assert q[p] == a;
    assert forall i :: p < i < |q| ==> q[i] == r[i - 1];
  }

  lemma SpliceMultiset(r: seq<Segment>, a: Segment, p: nat)
    requires p <= |r|
    ensures multiset(r[..p] + [a] + r[p..]) == multiset(r) + multiset{a}
  {
    assert r == r[..p] + r[p..];
  }

  lemma EmptySorted()
    ensures Sorted([])
  {}

  method InsertPosition(r: seq<Segment>, a: Segment) returns (p: nat)
    ensures p <= |r| && (forall i :: 0 <= i < p ==> r[i].l <= a.l) && (p < |r| ==> a.l <= r[p].l)
  {
    p := 0;
    while p < |r| && r[p].l <= a.l
      invariant p <= |r| && forall i :: 0 <= i < p ==> r[i].l <= a.l
    {
      p := p + 1;
    }
  }

  /** `std::sort` by left end. */
  method SortByStart(s: seq<Segment>) returns (r: seq<Segment>)
    ensures Sorted(r) && multiset(r) == multiset(s)
  {
    hide Sorted;
    EmptySorted();
    r := [];
    for n := 0 to |s|
      invariant Sorted(r) && multiset(r) == multiset(s[..n])
    {
      var p := InsertPosition(r, s[n]);
      assert s[..n + 1] == s[..n] + [s[n]];
      SpliceSorted(r, s[n], p);
      SpliceMultiset(r, s[n], p);
      r := r[..p] + [s[n]] + r[p..];
    }
    assert s[..|s|] == s;
  }

  /** Merging one more segment into a run that it touches. */
  lemma ExtendRun(s: seq<Segment>, i: nat, j: nat, end: int, x: int)
    requires Sorted(s) && Proper(s) && i < j < |s| && s[j].l <= end && s[i].l <= end
    requires Covers(s[i..j], x) <==> s[i].l <= x < end
    ensures Covers(s[i..j + 1], x) <==> s[i].l <= x < if s[j].r > end then s[j].r else end
  {
    assert s[i..j + 1] == s[i..j] + [s[j]];
    CoversConcat(s[i..j], [s[j]], x);
    CoversOne(s[j], x);
  }

  lemma CoversConcat(a: seq<Segment>, b: seq<Segment>, x: int)
    ensures Covers(a + b, x) <==> Covers(a, x) || Covers(b, x)
  {
    var c := a + b;
    if Covers(a, x) {
      var i :| 0 <= i < |a| && a[i].l <= x < a[i].r;
      assert c[i] == a[i];
    }
    if Covers(b, x) {
      var i :| 0 <= i < |b| && b[i].l <= x < b[i].r;
      assert c[|a| + i] == b[i];
    }
  }

  lemma CoversOne(a: Segment, x: int)
    ensures Covers([a], x) <==> a.l <= x < a.r
  {
    assert [a][0] == a;
  }

  /** The first run of s[i..]: everything reachable through overlaps, and nothing more. */
  method NextRun(s: seq<Segment>, i: nat) returns (j: nat, end: int)
    requires Sorted(s) && Proper(s) && i < |s|
    ensures i < j <= |s| && s[i].l <= end && (j < |s| ==> end < s[j].l)
    ensures forall x :: Covers(s[i..j], x) <==> s[i].l <= x < end
  {
    j, end := i + 1, s[i].r;
    assert s[i..i + 1] == [s[i]];
    forall x ensures Covers(s[i..j], x) <==> s[i].l <= x < end { CoversOne(s[i], x); }
    while j < |s| && s[j].l <= end
      invariant i < j <= |s| && s[i].l <= end
      invariant forall x :: Covers(s[i..j], x) <==> s[i].l <= x < end
    {
      var end' := if s[j].r > end then s[j].r else end;
      var run := s[i..j + 1];
      forall x ensures Covers(run, x) <==> s[i].l <= x < end' {
        ExtendRun(s, i, j, end, x);
      }
      end := end';
      j := j + 1;
    }
  }

  /** Merge overlapping segments: the runs cover exactly the slots the segments cover, and do not touch. */
  method MergeOverlaps(s: seq<Segment>) returns (runs: seq<Segment>)
    requires Sorted(s) && Proper(s)
    ensures Apart(runs) && forall x :: Covers(runs, x) <==> Covers(s, x)
  {
    runs := [];
    var i := 0;
    while i < |s|
      invariant i <= |s| && Apart(runs)
      invariant i < |s| ==> forall k :: 0 <= k < |runs| ==> runs[k].r < s[i].l
      invariant forall x :: Covers(runs, x) <==> Covers(s[..i], x)
    {
      var j, end := NextRun(s, i);
      var run := Segment(s[i].l, end);
      assert s[..j] == s[..i] + s[i..j];
      forall x ensures Covers(runs + [run], x) <==> Covers(s[..j], x) {
        CoversConcat(runs, [run], x);
        CoversOne(run, x);
        CoversConcat(s[..i], s[i..j], x);
      }
      assert j < |s| ==> s[i].l <= s[j].l;
      runs := runs + [run];
      i := j;
    }
    assert s[..|s|] == s;
  }

  // ---- the greedy part ----

  /** Runs i up to j may be read together: there is one of them, or they fit into one read. */
  predicate Fits(runs: seq<Segment>, limit: nat, i: nat, j: nat)
    requires i < j <= |runs|
  {
    j == i + 1 || runs[j - 1].r <= runs[i].l + limit
  }

  /** The furthest end of a read that starts with run i, of those at or after j. */
  function FurthestCut(runs: seq<Segment>, limit: nat, i: nat, j: nat): (c: nat)
    requires i < j <= |runs|
    ensures j <= c <= |runs| && (c < |runs| ==> runs[c].r > runs[i].l + limit)
    ensures Fits(runs, limit, i, j) ==> Fits(runs, limit, i, c)
    decreases |runs| - j
  {
    if j < |runs| && runs[j].r <= runs[i].l + limit then FurthestCut(runs, limit, i, j + 1) else j
  }

  function Greedy(runs: seq<Segment>, limit: nat, i: nat): (ios: seq<Segment>)
    requires i <= |runs|
    decreases |runs| - i
  {
    if i == |runs| then []
    else
      var j := FurthestCut(runs, limit, i, i + 1);
      [Segment(runs[i].l, runs[j - 1].r)] + Greedy(runs, limit, j)
  }

  method FindCut(runs: seq<Segment>, limit: nat, i: nat) returns (j: nat, end: int)
    requires Apart(runs) && i < |runs|
    ensures j == FurthestCut(runs, limit, i, i + 1) && end == runs[j - 1].r
  {
    j, end := i + 1, runs[i].r;
    while j < |runs| && (if end > runs[j].r then end else runs[j].r) <= runs[i].l + limit
      invariant i < j <= |runs| && end == runs[j - 1].r
      invariant FurthestCut(runs, limit, i, j) == FurthestCut(runs, limit, i, i + 1)
    {
      assert runs[j - 1].r < runs[j].l <= runs[j].r;
      end := if end > runs[j].r then end else runs[j].r;
      j := j + 1;
    }
    assert j < |runs| ==> runs[j - 1].r < runs[j].l <= runs[j].r;
  }

  /** The greedy loop of `merge_internals`. */
  method MergeNearby(runs: seq<Segment>, limit: nat) returns (ios: seq<Segment>)
    requires Apart(runs)
    ensures ios == Greedy(runs, limit, 0)
  {
    hide FurthestCut, Apart, Greedy;
    ios := [];
    var i := 0;
    while i < |runs|
      invariant i <= |runs| && ios + Greedy(runs, limit, i) == Greedy(runs, limit, 0)
    {
      var j, end := FindCut(runs, limit, i);
      var io := Segment(runs[i].l, end);
      GreedyUnroll(runs, limit, i);
      assert ios + ([io] + Greedy(runs, limit, j)) == (ios + [io]) + Greedy(runs, limit, j);
      ios := ios + [io];
      i := j;
    }
    GreedyUnroll(runs, limit, i);
  }

  lemma GreedyUnroll(runs: seq<Segment>, limit: nat, i: nat)
    requires i <= |runs|
    ensures i == |runs| ==> Greedy(runs, limit, i) == []
    ensures i < |runs| ==>
              var j := FurthestCut(runs, limit, i, i + 1);
              Greedy(runs, limit, i) == [Segment(runs[i].l, runs[j - 1].r)] + Greedy(runs, limit, j)
  {
    hide FurthestCut;
  }

  /** Each read is one run or spans at most `limit` slots; reads are ascending and apart, and cover all runs. */
  lemma {:induction false} GreedyReads(runs: seq<Segment>, limit: nat, i: nat, k: nat)
    requires Apart(runs) && i <= |runs| && k < |Greedy(runs, limit, i)|
    ensures var g := Greedy(runs, limit, i);
            && (g[k] in runs || g[k].r - g[k].l <= limit)
            && g[k].l <= g[k].r && i < |runs| && runs[i].l <= g[k].l
            && (k + 1 < |g| ==> g[k].r < g[k + 1].l)
    decreases |runs| - i
  {
    var j := FurthestCut(runs, limit, i, i + 1);
    var g := Greedy(runs, limit, i);
    assert Fits(runs, limit, i, j);
    if k > 0 {
      GreedyReads(runs, limit, j, k - 1);
      assert g[k] == Greedy(runs, limit, j)[k - 1];
      if k + 1 < |g| { assert g[k + 1] == Greedy(runs, limit, j)[k]; }
    } else {
      assert g[0] == Segment(runs[i].l, runs[j - 1].r);
      if j == i + 1 { assert g[0] == runs[i]; }
      if j < |runs| {
        GreedyReads(runs, limit, j, 0);
        assert 1 < |g| ==> g[1] == Greedy(runs, limit, j)[0];
      }
    }
  }

  lemma SpanHolds(runs: seq<Segment>, i: nat, p: nat, j: nat)
    requires Apart(runs) && i <= p < j <= |runs|
    ensures runs[i].l <= runs[p].l && runs[p].r <= runs[j - 1].r
  {
    assert p < j - 1 ==> runs[p].r < runs[j - 1].l;
  }

  lemma {:induction false} GreedyCovers(runs: seq<Segment>, limit: nat, i: nat, x: int)
    requires Apart(runs) && i <= |runs| && Covers(runs[i..], x)
    ensures Covers(Greedy(runs, limit, i), x)
    decreases |runs| - i
  {
    hide Greedy, Apart;
    var p :| 0 <= p < |runs[i..]| && runs[i..][p].l <= x < runs[i..][p].r;
    var j := FurthestCut(runs, limit, i, i + 1);
    var first := Segment(runs[i].l, runs[j - 1].r);
    GreedyUnroll(runs, limit, i);
    CoversConcat([first], Greedy(runs, limit, j), x);
    if i + p < j {
      SpanHolds(runs, i, i + p, j);
      CoversOne(first, x);
    } else {
      assert runs[j..][i + p - j] == runs[i + p];
      GreedyCovers(runs, limit, j, x);
    }
  }

  // ---- no other way needs fewer ios ----

  /** Cutting runs b.. into consecutive reads that end before the given indices. */
  ghost predicate Partition(runs: seq<Segment>, limit: nat, b: nat, ends: seq<nat>)
    decreases |ends|
  {
    if ends == [] then b == |runs|
    else b < ends[0] <= |runs| && Fits(runs, limit, b, ends[0]) && Partition(runs, limit, ends[0], ends[1..])
  }

  lemma FurthestIsFurthest(runs: seq<Segment>, limit: nat, i: nat, j: nat, e: nat)
    requires Apart(runs) && i < j <= e <= |runs| && Fits(runs, limit, i, e)
    ensures FurthestCut(runs, limit, i, j) >= e
    decreases |runs| - j
  {
    if j < e {
      assert j < e - 1 ==> runs[j].r < runs[e - 1].l;
      FurthestIsFurthest(runs, limit, i, j + 1, e);
    }
  }

  /** Greedy stays ahead: no cutting of the runs into reads that fit uses fewer reads. */
  lemma {:induction false} GreedyOptimal(runs: seq<Segment>, limit: nat, b: nat, i: nat, ends: seq<nat>)
    requires Apart(runs) && b <= i <= |runs| && Partition(runs, limit, b, ends)
    ensures |Greedy(runs, limit, i)| <= |ends|
    decreases |ends|, i
  {
    if ends != [] && i < |runs| {
      var e := ends[0];
      if e <= i {
        GreedyOptimal(runs, limit, e, i, ends[1..]);
      } else {
        assert Fits(runs, limit, i, e) by { assert b < i ==> runs[b].l <= runs[b].r < runs[i].l; }
        FurthestIsFurthest(runs, limit, i, i + 1, e);
        GreedyOptimal(runs, limit, e, FurthestCut(runs, limit, i, i + 1), ends[1..]);
      }
    }
  }

  lemma ProperFromMultiset(a: seq<Segment>, b: seq<Segment>)
    requires multiset(a) == multiset(b) && Proper(a)
    ensures Proper(b) && forall x :: Covers(a, x) <==> Covers(b, x)
  {
    forall i | 0 <= i < |b| ensures b[i].l <= b[i].r {
      assert b[i] in multiset(a);
    }
    forall x ensures Covers(a, x) <==> Covers(b, x) {
      if Covers(a, x) {
        var i :| 0 <= i < |a| && a[i].l <= x < a[i].r;
        assert a[i] in multiset(b);
      }
      if Covers(b, x) {
        var i :| 0 <= i < |b| && b[i].l <= x < b[i].r;
        assert b[i] in multiset(a);
      }
    }
  }

  /** `merge_internals`. */
  method MergeSegments(segments: seq<Segment>, limit: nat) returns (ios: seq<Segment>, ghost runs: seq<Segment>)
    requires Proper(segments)
    ensures Apart(runs) && forall x :: Covers(runs, x) <==> Covers(segments, x)
    ensures ios == Greedy(runs, limit, 0)
    ensures forall x :: Covers(segments, x) ==> Covers(ios, x)
    ensures forall k :: 0 <= k < |ios| ==> ios[k] in runs || ios[k].r - ios[k].l <= limit
    ensures forall k :: 0 <= k < |ios| - 1 ==> ios[k].r < ios[k + 1].l
  {
    var sorted := SortByStart(segments);
    ProperFromMultiset(segments, sorted);
    var merged := MergeOverlaps(sorted);
    ios := MergeNearby(merged, limit);
    runs := merged;
    forall k | 0 <= k < |ios|
      ensures (ios[k] in runs || ios[k].r - ios[k].l <= limit) && (k + 1 < |ios| ==> ios[k].r < ios[k + 1].l) {
      GreedyReads(runs, limit, 0, k);
    }
    forall x | Covers(segments, x) ensures Covers(ios, x) {
      assert runs[0..] == runs;
      GreedyCovers(runs, limit, 0, x);
    }
  }
}
