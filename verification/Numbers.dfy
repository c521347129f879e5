/** Powers, positional notation and bit operations on non-negative integers. */
module Numbers {

  function Pow(b: nat, e: nat): (p: nat)
    ensures b > 0 ==> p > 0
  {
    if e == 0 then 1 else b * Pow(b, e - 1)
  }

  lemma MulMono(a: int, b: int, c: nat)
    requires a <= b
    ensures a * c <= b * c && c * a <= c * b
  {
    assert (b - a) * c >= 0;
  }

  lemma MulStrict(a: int, b: int, c: nat)
    requires a < b && c > 0
    ensures a * c < b * c && c * a < c * b
  {
    assert (b - a) * c > 0;
  }

  lemma PowSucc(b: nat, e: nat)
    ensures Pow(b, e + 1) == b * Pow(b, e)
  {
  }

  lemma {:induction false} PowAdd(b: nat, m: nat, n: nat)
    ensures Pow(b, m + n) == Pow(b, m) * Pow(b, n)
  {
    if m > 0 {
      PowAdd(b, m - 1, n);
      var x, y := Pow(b, m - 1), Pow(b, n);
      assert b * (x * y) == (b * x) * y;
    }
  }

  lemma {:induction false} PowMul(b: nat, m: nat, n: nat)
    ensures Pow(Pow(b, m), n) == Pow(b, m * n)
  {
    if n == 0 {
      assert m * n == 0;
    } else {
      PowMul(b, m, n - 1);
      assert m * n == m + m * (n - 1);
      PowAdd(b, m, m * (n - 1));
    }
  }

  lemma {:induction false} PowMono(b: nat, m: nat, n: nat)
    requires b > 0 && m <= n
    ensures Pow(b, m) <= Pow(b, n)
  {
    PowAdd(b, m, n - m);
    MulMono(1, Pow(b, n - m), Pow(b, m));
  }

  lemma {:induction false} PowBaseStrict(a: nat, b: nat, e: nat)
    requires 0 < a < b && e > 0
    ensures Pow(a, e) < Pow(b, e)
  {
    if e > 1 {
      PowBaseStrict(a, b, e - 1);
      MulStrict(a, b, Pow(a, e - 1));
      MulStrict(Pow(a, e - 1), Pow(b, e - 1), b);
    }
  }

  lemma {:induction false} PowBaseMono(a: nat, b: nat, e: nat)
    requires a <= b
    ensures Pow(a, e) <= Pow(b, e)
  {
    if e > 0 {
      PowBaseMono(a, b, e - 1);
      MulMono(a, b, Pow(a, e - 1));
      MulMono(Pow(a, e - 1), Pow(b, e - 1), b);
    }
  }

  lemma DivModUnique(a: int, d: int, q: int, r: int)
    requires d > 0 && a == q * d + r && 0 <= r < d
    ensures a / d == q && a % d == r
  {
    var q', r' := a / d, a % d;
    assert a == q' * d + r';
    assert (q - q') * d == r' - r;
    if q < q' {
      MulMono(q - q', -1, d);
    } else if q > q' {
      MulMono(1, q - q', d);
    }
  }

  // ---------- Positional notation, least significant digit first ----------

  predicate Digits(ds: seq<int>, b: int) {
    forall i :: 0 <= i < |ds| ==> 0 <= ds[i] < b
  }

  function Value(ds: seq<int>, b: int): int {
    if ds == [] then 0 else ds[0] + b * Value(ds[1..], b)
  }

  lemma {:induction false} ValueAppend(s: seq<int>, t: seq<int>, b: nat)
    ensures Value(s + t, b) == Value(s, b) + Pow(b, |s|) * Value(t, b)
  {
    if s == [] {
      assert s + t == t;
    } else {
      assert (s + t)[1..] == s[1..] + t;
      ValueAppend(s[1..], t, b);
      var p, v := Pow(b, |s| - 1), Value(t, b);
      assert b * (Value(s[1..], b) + p * v) == b * Value(s[1..], b) + (b * p) * v;
    }
  }

  /** One more digit at the top. */
  lemma ValueSnoc(s: seq<int>, i: nat, b: nat)
    requires i < |s|
    ensures Value(s[..i + 1], b) == Value(s[..i], b) + s[i] * Pow(b, i)
  {
    assert s[..i + 1] == s[..i] + [s[i]];
    ValueAppend(s[..i], [s[i]], b);
    ValueOne(s[i], b);
    assert Pow(b, i) * s[i] == s[i] * Pow(b, i);
  }

  lemma ValueOne(d: int, b: int)
    ensures Value([d], b) == d
  {
    assert [d][1..] == [];
    assert Value([d][1..], b) == 0;
  }

  lemma ValueSplit(s: seq<int>, i: nat, b: nat)
    requires i <= |s|
    ensures Value(s, b) == Value(s[..i], b) + Pow(b, i) * Value(s[i..], b)
  {
    assert s == s[..i] + s[i..];
    ValueAppend(s[..i], s[i..], b);
  }

  lemma {:induction false} ValueBound(s: seq<int>, b: nat)
    requires Digits(s, b)
    ensures 0 <= Value(s, b) < Pow(b, |s|)
  {
    if s != [] {
      var v, p := Value(s[1..], b), Pow(b, |s| - 1);
      ValueBound(s[1..], b);
      assert 0 <= s[0] < b;
      MulMono(0, v, b);
      MulMono(v, p - 1, b);
      assert b * (p - 1) == b * p - b;
    }
  }

  lemma {:induction false} ValueUnique(s: seq<int>, t: seq<int>, b: nat)
    requires |s| == |t| && Digits(s, b) && Digits(t, b) && Value(s, b) == Value(t, b)
    ensures s == t
  {
    if s != [] {
      var v, w := Value(s[1..], b), Value(t[1..], b);
      DivModUnique(s[0] + b * v, b, v, s[0]);
      DivModUnique(t[0] + b * w, b, w, t[0]);
      ValueUnique(s[1..], t[1..], b);
      assert s == [s[0]] + s[1..] && t == [t[0]] + t[1..];
    }
  }

  lemma {:induction false} ValueZeros(s: seq<int>, b: nat)
    requires forall i :: 0 <= i < |s| ==> s[i] == 0
    ensures Value(s, b) == 0
  {
    if s != [] {
      ValueZeros(s[1..], b);
      assert b * 0 == 0;
    }
  }

  lemma ValueHighZeros(s: seq<int>, m: nat, b: nat)
    requires m <= |s| && forall i :: m <= i < |s| ==> s[i] == 0
    ensures Value(s, b) == Value(s[..m], b)
  {
    ValueSplit(s, m, b);
    ValueZeros(s[m..], b);
    assert Pow(b, m) * 0 == 0;
  }

  // ---------- Bit operations ----------

  function BitOr(x: nat, y: nat): nat {
    if x == 0 && y == 0 then 0
    else 2 * BitOr(x / 2, y / 2) + if x % 2 == 1 || y % 2 == 1 then 1 else 0
  }

  function BitAnd(x: nat, y: nat): (r: nat)
    ensures r <= x && r <= y
  {
    if x == 0 || y == 0 then 0
    else 2 * BitAnd(x / 2, y / 2) + if x % 2 == 1 && y % 2 == 1 then 1 else 0
  }

  /** Masking with a power of two less one is the remainder. */
  lemma {:induction false} BitAndMask(x: nat, d: nat)
    ensures BitAnd(x, Pow(2, d) - 1) == x % Pow(2, d)
    decreases d
  {
    hide Pow, BitAnd;
    if d == 0 {
      MaskNone(x);
    } else {
      BitAndMask(x / 2, d - 1);
      PowSucc(2, d - 1);
      MaskStep(x, Pow(2, d - 1));
      RemainderStep(x, Pow(2, d - 1));
    }
  }

  lemma MaskNone(x: nat)
    ensures BitAnd(x, Pow(2, 0) - 1) == 0 && x % Pow(2, 0) == 0
  {
  }

  lemma MaskStep(x: nat, p: nat)
    requires p > 0
    ensures BitAnd(x, 2 * p - 1) == 2 * BitAnd(x / 2, p - 1) + x % 2
  {
    assert (2 * p - 1) / 2 == p - 1 && (2 * p - 1) % 2 == 1;
  }

  lemma RemainderStep(x: nat, p: nat)
    requires p > 0
    ensures x % (2 * p) == 2 * (x / 2 % p) + x % 2
  {
    var q, r := x / 2 / p, x / 2 % p;
    assert x / 2 == q * p + r;
    assert x == 2 * (x / 2) + x % 2;
    assert q * (2 * p) == 2 * (q * p);
    DivModUnique(x, 2 * p, q, 2 * r + x % 2);
  }

  /** Or of numbers with no common bits, one below the other, is their sum. */
  lemma {:induction false} BitOrDisjoint(x: nat, y: nat, s: nat)
    requires x % Pow(2, s) == 0 && y < Pow(2, s)
    ensures BitOr(x, y) == x + y && BitOr(y, x) == x + y
    decreases s
  {
    if s == 0 {
      assert y == 0;
      BitOrZero(x);
    } else {
      var p := Pow(2, s - 1);
      assert Pow(2, s) == 2 * p;
      var q := x / (2 * p);
      assert x == 2 * p * q == 2 * (p * q);
      assert x / 2 == p * q && x % 2 == 0;
      DivModUnique(x / 2, p, q, 0);
      BitOrDisjoint(x / 2, y / 2, s - 1);
    }
  }

  lemma {:induction false} BitOrZero(x: nat)
    ensures BitOr(x, 0) == x && BitOr(0, x) == x
  {
    if x > 0 { BitOrZero(x / 2); }
  }
}
