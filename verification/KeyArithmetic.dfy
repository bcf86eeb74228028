/** Keys as big-endian byte strings: carrying addition and subtraction, order, and conversion. */
module KeyArithmetic {
  import opened Arith
  import VersionLayout

  type Byte = VersionLayout.Byte

  function Pow(n: nat): (p: nat)
    ensures p >= 1
  {
    if n == 0 then 1 else 256 * Pow(n - 1)
  }

  /** `key2int`. */
  function Value(a: seq<Byte>): (v: nat)
    ensures v < Pow(|a|)
  {
    if a == [] then 0 else Value(a[..|a| - 1]) * 256 + a[|a| - 1]
  }

  /** Adding b at the last byte and carrying to the front. */
  function Plus(a: seq<Byte>, b: Byte): (r: seq<Byte>)
    ensures |r| == |a|
  {
    if a == [] then []
    else
      var n := |a| - 1;
      if a[n] + b < 256 then a[..n] + [a[n] + b] else Plus(a[..n], (a[n] + b) / 256) + [(a[n] + b) % 256]
  }

  function Minus(a: seq<Byte>, b: Byte): (r: seq<Byte>)
    ensures |r| == |a|
  {
    if a == [] then []
    else
      var n := |a| - 1;
      if a[n] >= b then a[..n] + [a[n] - b] else Minus(a[..n], 1) + [a[n] + 256 - b]
  }

  /** Keys of one length are determined by their value. */
  lemma {:induction false} ValueInjective(a: seq<Byte>, b: seq<Byte>)
    requires |a| == |b| && Value(a) == Value(b)
    ensures a == b
  {
    if a != [] {
      var n := |a| - 1;
      assert Value(a[..n]) == Value(b[..n]) && a[n] == b[n];
      ValueInjective(a[..n], b[..n]);
      assert a == a[..n] + [a[n]] && b == b[..n] + [b[n]];
    }
  }

  lemma Snoc(a: seq<Byte>, x: Byte)
    ensures Value(a + [x]) == Value(a) * 256 + x
  {
    assert (a + [x])[..|a|] == a;
  }

  /** (v * 256 + x) reduced modulo 256 * p, digit by digit. */
  lemma ReduceDigit(v: int, x: Byte, p: nat)
    requires p >= 1
    ensures (v * 256 + x) % (256 * p) == v % p * 256 + x
  {
    var q, r := v / p, v % p;
    assert v == q * p + r;
    assert v * 256 + x == q * (256 * p) + (r * 256 + x) by {
      assert (q * p + r) * 256 == q * p * 256 + r * 256 && q * p * 256 == q * (256 * p);
    }
    MulMono(r + 1, p, 256);
    ModUnique(256 * p, v * 256 + x, q, r * 256 + x);
  }

  lemma ModUnique(n: nat, i: int, q: int, r: nat)
    requires r < n && i == q * n + r
    ensures i % n == r
  {
    var k := i / n - q;
    assert k * n == (i / n) * n - q * n;
    MulSign(k, n);
  }

  /** One digit of a reduction: the front reduces to v, the last byte stays. */
  lemma LastDigit(u: int, v: nat, x: Byte, p: nat, whole: int)
    requires p >= 1 && v == u % p && whole == u * 256 + x
    ensures v * 256 + x == whole % (256 * p)
  {
    ReduceDigit(u, x, p);
  }

  lemma PlusNoCarry(a: seq<Byte>, b: Byte)
    requires a != [] && a[|a| - 1] + b < 256
    ensures Value(Plus(a, b)) == (Value(a) + b) % Pow(|a|)
  {
    hide Pow, Value;
    var n := |a| - 1;
    var front, sum := a[..n], a[n] + b;
    ValueSnoc(a);
    PowStep(n);
    Snoc(front, sum);
    SmallMod(Value(front), Pow(n));
    LastDigit(Value(front), Value(front), sum, Pow(n), Value(a) + b);
  }

  lemma PlusCarry(a: seq<Byte>, b: Byte)
    requires a != [] && a[|a| - 1] + b >= 256
    requires var n, c := |a| - 1, (a[|a| - 1] + b) / 256;
             Value(Plus(a[..n], c)) == (Value(a[..n]) + c) % Pow(n)
    ensures Value(Plus(a, b)) == (Value(a) + b) % Pow(|a|)
  {
    hide Pow, Value;
    var n := |a| - 1;
    var front, c, x := a[..n], (a[n] + b) / 256, (a[n] + b) % 256;
    ValueSnoc(a);
    PowStep(n);
    Snoc(Plus(front, c), x);
    LastDigit(Value(front) + c, Value(Plus(front, c)), x, Pow(n), Value(a) + b);
  }

  /** Byte-wise addition is addition modulo 256 to the length. */
  lemma {:induction false} PlusValue(a: seq<Byte>, b: Byte)
    ensures Value(Plus(a, b)) == (Value(a) + b) % Pow(|a|)
  {
    hide Pow, Value, Plus;
    if a == [] {
      ValueOfNothing();
    } else if a[|a| - 1] + b < 256 {
      PlusNoCarry(a, b);
    } else {
      PlusValue(a[..|a| - 1], (a[|a| - 1] + b) / 256);
      PlusCarry(a, b);
    }
  }

  /** Byte-wise subtraction is subtraction modulo 256 to the length. */
  lemma {:induction false} MinusValue(a: seq<Byte>, b: Byte)
    ensures Value(Minus(a, b)) == (Value(a) - b) % Pow(|a|)
  {
    hide Pow, Value;
    ValueOfNothing();
    if a != [] {
      var n := |a| - 1;
      ValueSnoc(a);
      PowStep(n);
      var front := a[..n];
      var last: int := a[n];
      if last >= b {
        Snoc(front, last - b);
        SmallMod(Value(front), Pow(n));
        LastDigit(Value(front), Value(front), last - b, Pow(n), Value(a) - b);
      } else {
        MinusValue(front, 1);
        Snoc(Minus(front, 1), last + 256 - b);
        LastDigit(Value(front) - 1, Value(Minus(front, 1)), last + 256 - b, Pow(n), Value(a) - b);
      }
    }
  }

  lemma ReduceOutside(v: int, d: int, p: nat)
    requires p >= 1
    ensures (v % p + d) % p == (v + d) % p
  {
    var q := v / p;
    var w := v % p + d;
    assert v + d == q * p + w;
    var r := w / p;
    assert v + d == (q + r) * p + w % p by { assert (q + r) * p == q * p + r * p; }
    ModUnique(p, v + d, q + r, w % p);
  }

  /** Subtraction undoes addition, and the other way round, also across the wrap-around. */
  lemma PlusMinus(a: seq<Byte>, b: Byte)
    ensures Minus(Plus(a, b), b) == a && Plus(Minus(a, b), b) == a
  {
    hide Value, Pow, Plus, Minus;
    var p := Pow(|a|);
    PlusValue(a, b);
    MinusValue(Plus(a, b), b);
    var d: int := b;
    ReduceOutside(Value(a) + b, -d, p);
    MinusValue(a, b);
    PlusValue(Minus(a, b), b);
    ReduceOutside(Value(a) - b, b, p);
    SmallMod(Value(a), p);
    ValueInjective(Minus(Plus(a, b), b), a);
    ValueInjective(Plus(Minus(a, b), b), a);
  }

  // ---- order ----

  /** `std::array`'s comparison: the first differing byte decides. */
  predicate Less(a: seq<Byte>, b: seq<Byte>)
    requires |a| == |b|
  {
    a != [] && (a[0] < b[0] || (a[0] == b[0] && Less(a[1..], b[1..])))
  }

  lemma ValueSnoc(a: seq<Byte>)
    requires a != []
    ensures Value(a) == Value(a[..|a| - 1]) * 256 + a[|a| - 1]
  {}

  lemma PowStep(n: nat)
    ensures Pow(n + 1) == 256 * Pow(n)
  {}

  lemma {:induction false} ValueCons(a: seq<Byte>)
    requires a != []
    ensures Value(a) == a[0] * Pow(|a| - 1) + Value(a[1..])
    decreases |a|
  {
    hide Value, Pow;
    var n := |a| - 1;
    ValueSnoc(a);
    if n == 0 {
      ValueOfNothing();
      assert a[..0] == [] && a[1..] == [];
    } else {
      ValueCons(a[..n]);
      ValueSnoc(a[1..]);
      assert a[..n][1..] == a[1..][..n - 1] && a[1..][n - 1] == a[n];
      PowStep(n - 1);
      ConsDigit(a[0], Pow(n - 1), Value(a[..n][1..]), a[n]);
    }
  }

  lemma ValueOfNothing()
    ensures Value([]) == 0 && Pow(0) == 1
  {}

  lemma ConsDigit(x: int, p: int, front: int, last: int)
    ensures (x * p + front) * 256 + last == x * (256 * p) + (front * 256 + last)
  {
    MulAdd(x * p, front, 256);
    MulAssoc(x, 256, p);
    assert 256 * (x * p) == x * p * 256;
  }

  /** The leading digit decides unless it is equal. */
  lemma LeadingDigit(x: int, y: int, p: nat, u: nat, v: nat)
    requires u < p && v < p
    ensures x * p + u < y * p + v <==> x < y || (x == y && u < v)
  {
    if x < y {
      MulMono(x + 1, y, p);
      assert (x + 1) * p == x * p + p;
    } else if y < x {
      MulMono(y + 1, x, p);
      assert (y + 1) * p == y * p + p;
    }
  }

  /** Lexicographic order is numeric order. */
  lemma {:induction false} LessIsNumeric(a: seq<Byte>, b: seq<Byte>)
    requires |a| == |b|
    ensures Less(a, b) <==> Value(a) < Value(b)
    decreases |a|
  {
    hide Value, Pow;
    if a != [] {
      ValueCons(a);
      ValueCons(b);
      LessIsNumeric(a[1..], b[1..]);
      LeadingDigit(a[0], b[0], Pow(|a| - 1), Value(a[1..]), Value(b[1..]));
    } else {
      assert a == b;
    }
  }

  /** Below the largest key, adding one gives the immediate successor. */
  lemma Successor(a: seq<Byte>, c: seq<Byte>)
    requires |c| == |a| && Value(a) + 1 < Pow(|a|)
    ensures Less(a, Plus(a, 1)) && Value(Plus(a, 1)) == Value(a) + 1
    ensures !(Less(a, c) && Less(c, Plus(a, 1)))
  {
    PlusValue(a, 1);
    SmallMod(Value(a) + 1, Pow(|a|));
    LessIsNumeric(a, Plus(a, 1));
    LessIsNumeric(a, c);
    LessIsNumeric(c, Plus(a, 1));
  }

  // ---- the carry loops ----

  lemma PlusLast(a: seq<Byte>, i: nat, b: Byte)
    requires i < |a|
    ensures a[i] + b < 256 ==> Plus(a[..i + 1], b) == a[..i] + [a[i] + b]
    ensures a[i] + b >= 256 ==> Plus(a[..i + 1], b) == Plus(a[..i], (a[i] + b) / 256) + [(a[i] + b) % 256]
  {
    assert a[..i + 1][..i] == a[..i];
  }

  lemma MinusLast(a: seq<Byte>, i: nat, b: Byte)
    requires i < |a|
    ensures a[i] >= b ==> Minus(a[..i + 1], b) == a[..i] + [a[i] - b]
    ensures a[i] < b ==> Minus(a[..i + 1], b) == Minus(a[..i], 1) + [a[i] + 256 - b]
  {
    assert a[..i + 1][..i] == a[..i];
  }

  lemma Cut(s: seq<Byte>, i: nat)
    requires i < |s|
    ensures s == s[..i] + [s[i]] + s[i + 1..] && s[i..] == [s[i]] + s[i + 1..]
  {}

  lemma PlusStop(a: seq<Byte>, b: Byte, was: seq<Byte>, now: seq<Byte>, i: nat, c: Byte)
    requires |was| == |a| && i < |a| && was[..i + 1] == a[..i + 1]
    requires Plus(a, b) == Plus(a[..i + 1], c) + was[i + 1..]
    requires a[i] + c < 256 && now == was[i := a[i] + c]
    ensures now == Plus(a, b)
  {
    hide Plus;
    PlusLast(a, i, c);
    assert was[..i] == was[..i + 1][..i] == a[..i];
    Cut(now, i);
  }

  lemma PlusStep(a: seq<Byte>, b: Byte, was: seq<Byte>, now: seq<Byte>, i: nat, c: Byte)
    requires |was| == |a| && i < |a| && was[..i + 1] == a[..i + 1]
    requires Plus(a, b) == Plus(a[..i + 1], c) + was[i + 1..]
    requires a[i] + c >= 256 && now == was[i := (a[i] + c) % 256]
    ensures now[..i] == a[..i] && Plus(a, b) == Plus(a[..i], (a[i] + c) / 256) + now[i..]
  {
    hide Plus;
    PlusLast(a, i, c);
    assert was[..i] == was[..i + 1][..i] == a[..i];
    Cut(now, i);
    assert now[i + 1..] == was[i + 1..];
  }

  lemma MinusStop(a: seq<Byte>, b: Byte, was: seq<Byte>, now: seq<Byte>, i: nat, c: Byte)
    requires |was| == |a| && i < |a| && was[..i + 1] == a[..i + 1]
    requires Minus(a, b) == Minus(a[..i + 1], c) + was[i + 1..]
    requires a[i] >= c && now == was[i := a[i] - c]
    ensures now == Minus(a, b)
  {
    hide Minus;
    MinusLast(a, i, c);
    assert was[..i] == was[..i + 1][..i] == a[..i];
    Cut(now, i);
  }

  lemma MinusStep(a: seq<Byte>, b: Byte, was: seq<Byte>, now: seq<Byte>, i: nat, c: Byte)
    requires |was| == |a| && i < |a| && was[..i + 1] == a[..i + 1]
    requires Minus(a, b) == Minus(a[..i + 1], c) + was[i + 1..]
    requires a[i] < c && now == was[i := a[i] + 256 - c]
    ensures now[..i] == a[..i] && Minus(a, b) == Minus(a[..i], 1) + now[i..]
  {
    hide Minus;
    MinusLast(a, i, c);
    assert was[..i] == was[..i + 1][..i] == a[..i];
    Cut(now, i);
    assert now[i + 1..] == was[i + 1..];
  }

  /** `operator+`. */
  method Add(a: seq<Byte>, b: Byte) returns (res: array<Byte>)
    ensures fresh(res) && res[..] == Plus(a, b)
  {
    hide Plus;
    res := new Byte[|a|](i requires 0 <= i < |a| => a[i]);
    var carry: Byte := b;
    var n := |a|;
    assert res[..] == a && a[..n] == a && res[..][n..] == [];
    while n > 0
      invariant 0 <= n <= |a| == res.Length && res[..][..n] == a[..n]
      invariant Plus(a, b) == Plus(a[..n], carry) + res[..][n..]
    {
      var i := n - 1;
      ghost var was := res[..];
      var partial: int := res[i];
      assert partial == was[..n][i] == a[i];
      if partial + carry < 256 {
        res[i] := partial + carry;
        PlusStop(a, b, was, res[..], i, carry);
        return;
      }
      var tmp: int := partial + carry;
      res[i] := tmp % 256;
      PlusStep(a, b, was, res[..], i, carry);
      carry, n := tmp / 256, i;
    }
    PlusNothing(a, carry);
  }

  lemma PlusNothing(a: seq<Byte>, c: Byte)
    ensures Plus(a[..0], c) == []
  {}

  lemma MinusNothing(a: seq<Byte>, c: Byte)
    ensures Minus(a[..0], c) == []
  {}

  /** `operator-`. The inner loop always borrows exactly once. */
  method Subtract(a: seq<Byte>, b: Byte) returns (res: array<Byte>)
    ensures fresh(res) && res[..] == Minus(a, b)
  {
    hide Minus;
    res := new Byte[|a|](i requires 0 <= i < |a| => a[i]);
    var borrow: Byte := b;
    var n := |a|;
    assert res[..] == a && a[..n] == a && res[..][n..] == [];
    while n > 0
      invariant 0 <= n <= |a| == res.Length && res[..][..n] == a[..n]
      invariant Minus(a, b) == Minus(a[..n], borrow) + res[..][n..]
    {
      var i := n - 1;
      ghost var was := res[..];
      var partial: int := res[i];
      assert partial == was[..n][i] == a[i];
      if partial >= borrow {
        res[i] := partial - borrow;
        MinusStop(a, b, was, res[..], i, borrow);
        return;
      }
      var carry, tmp := Borrow(partial, borrow);
      res[i] := partial + carry * 256 - borrow;
      MinusStep(a, b, was, res[..], i, borrow);
      borrow, n := carry, i;
    }
    MinusNothing(a, borrow);
  }

  method Borrow(partial: int, b: int) returns (carry: nat, tmp: int)
    requires 0 <= partial < b < 256
    ensures carry == 1 && tmp == partial + 256
  {
    carry, tmp := 0, partial;
    while tmp < b
      invariant tmp == partial + carry * 256 && carry <= 1
      decreases b - tmp
    {
      tmp, carry := tmp + 256, carry + 1;
    }
  }

  /** The digits of v that fit into n bytes. */
  function FromInt(v: nat, n: nat): (a: seq<Byte>)
    ensures |a| == n
  {
    if n == 0 then [] else FromInt(v / 256, n - 1) + [v % 256]
  }

  lemma {:induction false} FromIntValue(v: nat, n: nat)
    ensures Value(FromInt(v, n)) == v % Pow(n)
  {
    if n > 0 {
      FromIntValue(v / 256, n - 1);
      Snoc(FromInt(v / 256, n - 1), v % 256);
      ReduceDigit(v / 256, v % 256, Pow(n - 1));
    }
  }

  /** `int2key`: the null key's number stands for the smallest key. */
  function IntToKey(v: nat, n: nat): (a: seq<Byte>)
    ensures |a| == n
  {
    FromInt(if v == 0 then 1 else v, n)
  }

  /** Converting a key to a number and back is the identity exactly on the keys other than null. */
  lemma KeyRoundTrip(a: seq<Byte>)
    requires a != []
    ensures IntToKey(Value(a), |a|) == a <==> Value(a) != 0
  {
    hide Value, FromInt;
    var v := if Value(a) == 0 then 1 else Value(a);
    OneFits(|a|);
    FromIntValue(v, |a|);
    SmallMod(v, Pow(|a|));
    if v == Value(a) { ValueInjective(FromInt(v, |a|), a); }
  }

  lemma OneFits(n: nat)
    requires n >= 1
    ensures 1 < Pow(n)
  {}

  /** And from a number to a key and back exactly on the numbers that are keys. */
  lemma IntRoundTrip(v: nat, n: nat)
    requires n >= 1
    ensures Value(IntToKey(v, n)) == v <==> 1 <= v < Pow(n)
  {
    hide Value, FromInt;
    var w := if v == 0 then 1 else v;
    OneFits(n);
    FromIntValue(w, n);
    if w < Pow(n) { SmallMod(w, Pow(n)); }
  }
}
