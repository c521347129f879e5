/** GF(1024) as polynomials over GF(2) modulo x^10 + x^8 + x^5 + x + 1: multiplication by powers of x, and the order
    of x. */
module Gf1024 {
  function Add(w: bv10, v: bv10): bv10 { w ^ v }

  /** Multiplication by x, which has order 1023. */
  function Times(w: bv10): bv10 {
    (w << 1) ^ (w >> 9) ^ ((w >> 9) << 1) ^ ((w >> 9) << 5) ^ ((w >> 9) << 8)
  }

  /** Multiplication by its n-th power. */
  function Turn(n: nat, w: bv10): bv10 {
    if n == 0 then w else Times(Turn(n - 1, w))
  }

  lemma AddFacts(w: bv10, v: bv10)
    ensures Add(w, v) == Add(v, w) && Add(w, 0) == w && (Add(w, v) == 0 <==> w == v)
  {
  }

  lemma TimesLinear(w: bv10, v: bv10)
    ensures Times(Add(w, v)) == Add(Times(w), Times(v))
  {
  }

  lemma TimesZero(w: bv10)
    ensures Times(w) == 0 <==> w == 0
  {
  }

  lemma {:induction false} TurnAdd(m: nat, n: nat, w: bv10)
    ensures Turn(m + n, w) == Turn(m, Turn(n, w))
  {
    hide Times;
    if m > 0 { TurnAdd(m - 1, n, w); }
  }

  lemma {:induction false} TurnLinear(n: nat, w: bv10, v: bv10)
    ensures Turn(n, Add(w, v)) == Add(Turn(n, w), Turn(n, v))
  {
    hide Times, Add;
    if n > 0 {
      TurnLinear(n - 1, w, v);
      TimesLinear(Turn(n - 1, w), Turn(n - 1, v));
    }
  }

  lemma {:induction false} TurnZero(n: nat, w: bv10)
    ensures Turn(n, w) == 0 <==> w == 0
  {
    hide Times;
    if n > 0 {
      TurnZero(n - 1, w);
      TimesZero(Turn(n - 1, w));
    }
  }

  lemma TurnInjective(n: nat, w: bv10, v: bv10)
    requires Turn(n, w) == Turn(n, v)
    ensures w == v
  {
    hide Turn, Add;
    TurnLinear(n, w, v);
    AddFacts(Turn(n, w), Turn(n, v));
    TurnZero(n, Add(w, v));
    AddFacts(w, v);
  }

  // ---------- The powers x^2, x^4, ..., x^512 bit by bit ----------

  function Turn2(w: bv10): bv10 {
    ((w & 1) * 0x004) ^ (((w >> 1) & 1) * 0x008) ^ (((w >> 2) & 1) * 0x010) ^ (((w >> 3) & 1) * 0x020) ^
    (((w >> 4) & 1) * 0x040) ^ (((w >> 5) & 1) * 0x080) ^ (((w >> 6) & 1) * 0x100) ^ (((w >> 7) & 1) * 0x200) ^
    (((w >> 8) & 1) * 0x123) ^ (((w >> 9) & 1) * 0x246)
  }

  function Turn4(w: bv10): bv10 {
    ((w & 1) * 0x010) ^ (((w >> 1) & 1) * 0x020) ^ (((w >> 2) & 1) * 0x040) ^ (((w >> 3) & 1) * 0x080) ^
    (((w >> 4) & 1) * 0x100) ^ (((w >> 5) & 1) * 0x200) ^ (((w >> 6) & 1) * 0x123) ^ (((w >> 7) & 1) * 0x246) ^
    (((w >> 8) & 1) * 0x1af) ^ (((w >> 9) & 1) * 0x35e)
  }

  function Turn8(w: bv10): bv10 {
    ((w & 1) * 0x100) ^ (((w >> 1) & 1) * 0x200) ^ (((w >> 2) & 1) * 0x123) ^ (((w >> 3) & 1) * 0x246) ^
    (((w >> 4) & 1) * 0x1af) ^ (((w >> 5) & 1) * 0x35e) ^ (((w >> 6) & 1) * 0x39f) ^ (((w >> 7) & 1) * 0x21d) ^
    (((w >> 8) & 1) * 0x119) ^ (((w >> 9) & 1) * 0x232)
  }

  function Turn16(w: bv10): bv10 {
    ((w & 1) * 0x119) ^ (((w >> 1) & 1) * 0x232) ^ (((w >> 2) & 1) * 0x147) ^ (((w >> 3) & 1) * 0x28e) ^
    (((w >> 4) & 1) * 0x03f) ^ (((w >> 5) & 1) * 0x07e) ^ (((w >> 6) & 1) * 0x0fc) ^ (((w >> 7) & 1) * 0x1f8) ^
    (((w >> 8) & 1) * 0x3f0) ^ (((w >> 9) & 1) * 0x2c3)
  }

  function Turn32(w: bv10): bv10 {
    ((w & 1) * 0x058) ^ (((w >> 1) & 1) * 0x0b0) ^ (((w >> 2) & 1) * 0x160) ^ (((w >> 3) & 1) * 0x2c0) ^
    (((w >> 4) & 1) * 0x0a3) ^ (((w >> 5) & 1) * 0x146) ^ (((w >> 6) & 1) * 0x28c) ^ (((w >> 7) & 1) * 0x03b) ^
    (((w >> 8) & 1) * 0x076) ^ (((w >> 9) & 1) * 0x0ec)
  }

  function Turn64(w: bv10): bv10 {
    ((w & 1) * 0x0ef) ^ (((w >> 1) & 1) * 0x1de) ^ (((w >> 2) & 1) * 0x3bc) ^ (((w >> 3) & 1) * 0x25b) ^
    (((w >> 4) & 1) * 0x195) ^ (((w >> 5) & 1) * 0x32a) ^ (((w >> 6) & 1) * 0x377) ^ (((w >> 7) & 1) * 0x3cd) ^
    (((w >> 8) & 1) * 0x2b9) ^ (((w >> 9) & 1) * 0x051)
  }

  function Turn128(w: bv10): bv10 {
    ((w & 1) * 0x346) ^ (((w >> 1) & 1) * 0x3af) ^ (((w >> 2) & 1) * 0x27d) ^ (((w >> 3) & 1) * 0x1d9) ^
    (((w >> 4) & 1) * 0x3b2) ^ (((w >> 5) & 1) * 0x247) ^ (((w >> 6) & 1) * 0x1ad) ^ (((w >> 7) & 1) * 0x35a) ^
    (((w >> 8) & 1) * 0x397) ^ (((w >> 9) & 1) * 0x20d)
  }

  function Turn256(w: bv10): bv10 {
    ((w & 1) * 0x1e5) ^ (((w >> 1) & 1) * 0x3ca) ^ (((w >> 2) & 1) * 0x2b7) ^ (((w >> 3) & 1) * 0x04d) ^
    (((w >> 4) & 1) * 0x09a) ^ (((w >> 5) & 1) * 0x134) ^ (((w >> 6) & 1) * 0x268) ^ (((w >> 7) & 1) * 0x1f3) ^
    (((w >> 8) & 1) * 0x3e6) ^ (((w >> 9) & 1) * 0x2ef)
  }

  function Turn512(w: bv10): bv10 {
    ((w & 1) * 0x21b) ^ (((w >> 1) & 1) * 0x115) ^ (((w >> 2) & 1) * 0x22a) ^ (((w >> 3) & 1) * 0x177) ^
    (((w >> 4) & 1) * 0x2ee) ^ (((w >> 5) & 1) * 0x0ff) ^ (((w >> 6) & 1) * 0x1fe) ^ (((w >> 7) & 1) * 0x3fc) ^
    (((w >> 8) & 1) * 0x2db) ^ (((w >> 9) & 1) * 0x095)
  }

  lemma Square2(w: bv10)
    ensures Turn2(w) == Times(Times(w))
  {
  }

  lemma Square4(w: bv10)
    ensures Turn4(w) == Turn2(Turn2(w))
  {
  }

  lemma Square8(w: bv10)
    ensures Turn8(w) == Turn4(Turn4(w))
  {
  }

  lemma Square16(w: bv10)
    ensures Turn16(w) == Turn8(Turn8(w))
  {
  }

  lemma Square32(w: bv10)
    ensures Turn32(w) == Turn16(Turn16(w))
  {
  }

  lemma Square64(w: bv10)
    ensures Turn64(w) == Turn32(Turn32(w))
  {
  }

  lemma Square128(w: bv10)
    ensures Turn128(w) == Turn64(Turn64(w))
  {
  }

  lemma Square256(w: bv10)
    ensures Turn256(w) == Turn128(Turn128(w))
  {
  }

  lemma Square512(w: bv10)
    ensures Turn512(w) == Turn256(Turn256(w))
  {
  }

  lemma Square1024(w: bv10)
    ensures Turn512(Turn512(w)) == Times(w)
  {
  }

  lemma TurnSmall(w: bv10)
    ensures Turn(1, w) == Times(w) && Turn(2, w) == Turn2(w)
  {
    hide Times, Turn2;
    Square2(w);
    assert Turn(0, w) == w;
    assert Turn(1, w) == Times(Turn(0, w));
    assert Turn(2, w) == Times(Turn(1, w));
  }

  lemma TurnDoubled(n: nat, w: bv10, v: bv10)
    requires v == Turn(n, w)
    ensures Turn(2 * n, w) == Turn(n, v)
  {
    TurnAdd(n, n, w);
  }

  lemma TurnIs4(w: bv10)
    ensures Turn(4, w) == Turn4(w)
  {
    hide Turn, Turn4, Turn2;
    Square4(w);
    TurnSmall(w);
    TurnSmall(Turn2(w));
    TurnDoubled(2, w, Turn2(w));
  }

  lemma TurnIs8(w: bv10)
    ensures Turn(8, w) == Turn8(w)
  {
    hide Turn, Turn8, Turn4;
    Square8(w);
    TurnIs4(w);
    TurnIs4(Turn4(w));
    TurnDoubled(4, w, Turn4(w));
  }

  lemma TurnIs16(w: bv10)
    ensures Turn(16, w) == Turn16(w)
  {
    hide Turn, Turn16, Turn8;
    Square16(w);
    TurnIs8(w);
    TurnIs8(Turn8(w));
    TurnDoubled(8, w, Turn8(w));
  }

  lemma TurnIs32(w: bv10)
    ensures Turn(32, w) == Turn32(w)
  {
    hide Turn, Turn32, Turn16;
    Square32(w);
    TurnIs16(w);
    TurnIs16(Turn16(w));
    TurnDoubled(16, w, Turn16(w));
  }

  lemma TurnIs64(w: bv10)
    ensures Turn(64, w) == Turn64(w)
  {
    hide Turn, Turn64, Turn32;
    Square64(w);
    TurnIs32(w);
    TurnIs32(Turn32(w));
    TurnDoubled(32, w, Turn32(w));
  }

  lemma TurnIs128(w: bv10)
    ensures Turn(128, w) == Turn128(w)
  {
    hide Turn, Turn128, Turn64;
    Square128(w);
    TurnIs64(w);
    TurnIs64(Turn64(w));
    TurnDoubled(64, w, Turn64(w));
  }

  lemma TurnIs256(w: bv10)
    ensures Turn(256, w) == Turn256(w)
  {
    hide Turn, Turn256, Turn128;
    Square256(w);
    TurnIs128(w);
    TurnIs128(Turn128(w));
    TurnDoubled(128, w, Turn128(w));
  }

  lemma TurnIs512(w: bv10)
    ensures Turn(512, w) == Turn512(w)
  {
    hide Turn, Turn512, Turn256;
    Square512(w);
    TurnIs256(w);
    TurnIs256(Turn256(w));
    TurnDoubled(256, w, Turn256(w));
  }

  // ---------- The order of x ----------

  predicate Fixes(n: nat, w: bv10) { Turn(n, w) == w }

  lemma FixesWhole(w: bv10)
    ensures Fixes(1023, w)
  {
    hide Turn, Times, Turn512;
    TurnIs512(w);
    TurnIs512(Turn512(w));
    TurnDoubled(512, w, Turn512(w));
    Square1024(w);
    TurnSmall(Turn(1023, w));
    TurnSmall(w);
    TurnAdd(1, 1023, w);
    TurnInjective(1, Turn(1023, w), w);
  }

  lemma NoFixedPoint33(w: bv10)
    requires Turn32(Times(w)) == w
    ensures w == 0
  {
  }

  lemma NoFixedPoint93(w: bv10)
    requires Turn64(Turn16(Turn8(Turn4(Times(w))))) == w
    ensures w == 0
  {
  }

  lemma NoFixedPoint341(w: bv10)
    requires Turn256(Turn64(Turn16(Turn4(Times(w))))) == w
    ensures w == 0
  {
  }

  lemma Turn33(w: bv10)
    ensures Turn(33, w) == Turn32(Times(w))
  {
    hide Turn, Times, Turn32;
    TurnSmall(w);
    TurnAdd(32, 1, w);
    TurnIs32(Times(w));
  }

  lemma Turn93(w: bv10)
    ensures Turn(93, w) == Turn64(Turn16(Turn8(Turn4(Times(w)))))
  {
    hide Turn, Times, Turn4, Turn8, Turn16, Turn64;
    TurnSmall(w);
    var a := Times(w);
    TurnAdd(4, 1, w);
    TurnIs4(a);
    TurnAdd(8, 5, w);
    TurnIs8(Turn4(a));
    TurnAdd(16, 13, w);
    TurnIs16(Turn8(Turn4(a)));
    TurnAdd(64, 29, w);
    TurnIs64(Turn16(Turn8(Turn4(a))));
  }

  lemma Turn341(w: bv10)
    ensures Turn(341, w) == Turn256(Turn64(Turn16(Turn4(Times(w)))))
  {
    hide Turn, Times, Turn4, Turn16, Turn64, Turn256;
    TurnSmall(w);
    var a := Times(w);
    TurnAdd(4, 1, w);
    TurnIs4(a);
    TurnAdd(16, 5, w);
    TurnIs16(Turn4(a));
    TurnAdd(64, 21, w);
    TurnIs64(Turn16(Turn4(a)));
    TurnAdd(256, 85, w);
    TurnIs256(Turn64(Turn16(Turn4(a))));
  }

  /** No proper divisor of 1023 with a prime cofactor fixes anything but zero. */
  lemma MaximalDivisors(w: bv10)
    requires Fixes(33, w) || Fixes(93, w) || Fixes(341, w)
    ensures w == 0
  {
    hide Turn, Times, Turn4, Turn8, Turn16, Turn32, Turn64, Turn256;
    Turn33(w);
    Turn93(w);
    Turn341(w);
    if Fixes(33, w) { NoFixedPoint33(w); }
    if Fixes(93, w) { NoFixedPoint93(w); }
    if Fixes(341, w) { NoFixedPoint341(w); }
  }

  lemma {:induction false} FixesMultiple(n: nat, k: nat, w: bv10)
    requires Fixes(n, w)
    ensures Fixes(n * k, w)
    decreases k
  {
    hide Times;
    if k > 0 {
      FixesMultiple(n, k - 1, w);
      assert n * k == n + n * (k - 1);
      TurnAdd(n, n * (k - 1), w);
    }
  }

  lemma FixesDifference(m: nat, n: nat, w: bv10)
    requires m >= n && Fixes(m, w) && Fixes(n, w)
    ensures Fixes(m - n, w)
  {
    hide Turn;
    TurnAdd(n, m - n, w);
    TurnInjective(n, Turn(m - n, w), w);
  }

  ghost predicate Divides(g: nat, n: nat) { exists k: nat :: g * k == n }

  /** Two exponents that fix w have a common divisor that does. */
  lemma {:induction false} FixesCommon(m: nat, n: nat, w: bv10) returns (g: nat)
    requires m > 0 && n > 0 && Fixes(m, w) && Fixes(n, w)
    ensures 0 < g <= n && Fixes(g, w) && Divides(g, m) && Divides(g, n)
    decreases m + n
  {
    hide Turn, Fixes;
    if m == n {
      g := m;
      assert g * 1 == m;
    } else if m > n {
      FixesDifference(m, n, w);
      g := FixesCommon(m - n, n, w);
      DividesSum(g, m - n, n);
    } else {
      FixesDifference(n, m, w);
      g := FixesCommon(m, n - m, w);
      DividesSum(g, n - m, m);
    }
  }

  lemma DividesSum(g: nat, a: nat, b: nat)
    requires Divides(g, a) && Divides(g, b)
    ensures Divides(g, a + b)
  {
    var j: nat :| g * j == a;
    var k: nat :| g * k == b;
    assert g * (j + k) == a + b;
  }

  /** A proper divisor of 1023 = 3 * 11 * 31 divides 33, 93 or 341. */
  lemma ProperDivisor(g: nat, k: nat)
    requires g * k == 1023 && g < 1023
    ensures Divides(g, 33) || Divides(g, 93) || Divides(g, 341)
  {
    if g <= 31 {
      SmallDivisor(g, k);
      assert 1 * 33 == 33 && 3 * 11 == 33 && 11 * 3 == 33 && 31 * 3 == 93;
    } else {
      assert 32 * k <= g * k;
      SmallDivisor(k, g);
      assert 33 * 1 == 33 && 93 * 1 == 93 && 341 * 1 == 341;
    }
  }

  lemma SmallDivisor(g: nat, k: nat)
    requires g * k == 1023 && g <= 31
    ensures (g == 1 && k == 1023) || (g == 3 && k == 341) || (g == 11 && k == 93) || (g == 31 && k == 33)
  {
    assert g == 1 || g == 2 || g == 3 || g == 4 || g == 5 || g == 6 || g == 7 || g == 8 ||
           g == 9 || g == 10 || g == 11 || g == 12 || g == 13 || g == 14 || g == 15 || g == 16 ||
           g == 17 || g == 18 || g == 19 || g == 20 || g == 21 || g == 22 || g == 23 || g == 24 ||
           g == 25 || g == 26 || g == 27 || g == 28 || g == 29 || g == 30 || g == 31;
  }

  /** x has order 1023, on every element but zero. */
  lemma Order(d: nat, w: bv10)
    requires 0 < d < 1023 && Fixes(d, w)
    ensures w == 0
  {
    hide Fixes, Turn;
    FixesWhole(w);
    var g := FixesCommon(1023, d, w);
    var k: nat :| g * k == 1023;
    ProperDivisor(g, k);
    if Divides(g, 33) { DivisorFixes(g, 33, w); }
    if Divides(g, 93) { DivisorFixes(g, 93, w); }
    if Divides(g, 341) { DivisorFixes(g, 341, w); }
    MaximalDivisors(w);
  }

  lemma DivisorFixes(g: nat, n: nat, w: bv10)
    requires Fixes(g, w) && Divides(g, n)
    ensures Fixes(n, w)
  {
    hide Fixes;
    var k: nat :| g * k == n;
    FixesMultiple(g, k, w);
  }

  /** Different powers of x below the order agree on zero only. */
  lemma PowersDiffer(m: nat, n: nat, w: bv10)
    requires n < m < n + 1023 && Turn(m, w) == Turn(n, w)
    ensures w == 0
  {
    hide Turn;
    TurnAdd(m - n, n, w);
    assert Fixes(m - n, Turn(n, w));
    Order(m - n, Turn(n, w));
    TurnZero(n, w);
  }
}
