/** The compact representation of 256-bit targets (SetCompact and GetCompact in
    src/arith_uint256.cpp): a size byte and a 23-bit mantissa with a sign bit. */
module ArithCompact {
  import opened Numbers
  import opened ArithUint

  const SIGN := 0x0080_0000        // 2^23
  const SIZE_UNIT := 0x0100_0000   // 2^24

  // ---------- Number of bits and bytes ----------

  function NumBits(x: nat): nat {
    if x == 0 then 0 else 1 + NumBits(x / 2)
  }

  lemma {:induction false} NumBitsRange(x: nat)
    requires x > 0
    ensures NumBits(x) > 0 && Pow(2, NumBits(x) - 1) <= x < Pow(2, NumBits(x))
  {
    if x > 1 { NumBitsRange(x / 2); }
  }

  lemma NumBitsUnique(x: nat, b: nat)
    requires b > 0 && Pow(2, b - 1) <= x < Pow(2, b)
    ensures NumBits(x) == b
  {
    hide NumBits;
    NumBitsRange(x);
    var c := NumBits(x);
    if c < b { PowMono(2, c, b - 1); } else if b < c { PowMono(2, b, c - 1); }
  }

  function ByteSize(x: nat): nat { (NumBits(x) + 7) / 8 }

  lemma ByteSizeRange(x: nat)
    requires x > 0
    ensures ByteSize(x) > 0 && Pow(256, ByteSize(x) - 1) <= x < Pow(256, ByteSize(x))
  {
    hide NumBits, Pow;
    NumBitsRange(x);
    var b, n := NumBits(x), ByteSize(x);
    PowMono(2, 8 * (n - 1), b - 1);
    PowMono(2, b, 8 * n);
    BytePower(n - 1);
    BytePower(n);
  }

  lemma BytePower(n: nat)
    ensures Pow(256, n) == Pow(2, 8 * n)
  {
    assert Pow(2, 8) == 256 by { assert Pow(2, 4) == 16; PowAdd(2, 4, 4); }
    PowMul(2, 8, n);
  }

  // ---------- The two conversions on values ----------

  // The three leading bytes of x, as GetCompact first takes them.
  function Leading(x: nat, size: nat): nat {
    if size <= 3 then x * Pow(256, 3 - size) else x / Pow(256, size - 3)
  }

  function Packed(m: nat, size: nat): nat {
    if m / SIGN % 2 == 1 then m / 256 + (size + 1) * SIZE_UNIT else m + size * SIZE_UNIT
  }

  /** GetCompact(false). */
  function Encode(x: nat): nat {
    Packed(Leading(x, ByteSize(x)), ByteSize(x))
  }

  function Size(compact: nat): nat { compact / SIZE_UNIT }
  function Mantissa(compact: nat): nat { compact % SIGN }
  predicate SignBit(compact: nat) { compact / SIGN % 2 == 1 }

  // nWord as SetCompact leaves it.
  function Word(compact: nat): nat {
    if Size(compact) <= 3 then Mantissa(compact) / Pow(256, 3 - Size(compact)) else Mantissa(compact)
  }

  /** SetCompact's value, for the width of 256 bits. */
  function Decode(compact: nat): nat {
    if Size(compact) <= 3 then Word(compact)
    else (Mantissa(compact) * Pow(256, Size(compact) - 3)) % Pow(256, 32)
  }

  predicate Overflows(compact: nat) {
    var word, size := Word(compact), Size(compact);
    word != 0 && (size > 34 || (word > 0xff && size > 33) || (word > 0xffff && size > 32))
  }

  /** The value of any compact form: its mantissa times 256 to the size less three, rounded down, within 256 bits. */
  lemma DecodeMeaning(compact: nat)
    requires Size(compact) < 256
    ensures Pow(256, 3) > 0 && Pow(256, 32) > 0
    ensures Decode(compact) == Mantissa(compact) * Pow(256, Size(compact)) / Pow(256, 3) % Pow(256, 32)
  {
    hide Pow;
    var m, e := Mantissa(compact), Size(compact);
    if e <= 3 {
      var p, q := Pow(256, e), Pow(256, 3 - e);
      PowAdd(256, e, 3 - e);
      CancelFactor(m, q, p);
      SmallWord(compact);
    } else {
      PowAdd(256, e - 3, 3);
      assert m * Pow(256, e) == m * Pow(256, e - 3) * Pow(256, 3);
      DivModUnique(m * Pow(256, e), Pow(256, 3), m * Pow(256, e - 3), 0);
    }
  }

  lemma CancelFactor(m: nat, q: nat, p: nat)
    requires p > 0 && q > 0
    ensures q * p > 0 && m * p / (p * q) == m / q
  {
    var d, r := m / q, m % q;
    assert m * p == d * (p * q) + r * p;
    MulStrict(r, q, p);
    MulMono(0, r, p);
    MulStrict(0, q, p);
    assert p * q == q * p;
    DivModUnique(m * p, p * q, d, r * p);
  }

  lemma SmallWord(compact: nat)
    requires Size(compact) <= 3
    ensures Word(compact) < Pow(256, 32) && Word(compact) % Pow(256, 32) == Word(compact)
  {
    hide Pow;
    var q := Pow(256, 3 - Size(compact));
    DivAtMost(Mantissa(compact), q);
    Power3();
    PowMono(256, 3, 32);
    DivModUnique(Word(compact), Pow(256, 32), 0, Word(compact));
  }

  // ---------- What Encode computes ----------

  /** Scaled by 2^24, a positive x lies in exactly one of the ranges
      [2^15 * 256^e, 2^23 * 256^e); e is its size and the quotient its mantissa. */
  lemma EncodeMeaning(x: nat)
    requires x > 0
    ensures var e, m := Size(Encode(x)), Mantissa(Encode(x));
            && Encode(x) == m + e * SIZE_UNIT && !SignBit(Encode(x))
            && 0x8000 * Pow(256, e) <= x * SIZE_UNIT < SIGN * Pow(256, e)
            && m == x * SIZE_UNIT / Pow(256, e) && 0x8000 <= m < SIGN
  {
    hide Pow, ByteSize, Packed, Leading;
    var size := ByteSize(x);
    var m := Leading(x, size);
    LeadingRange(x);
    PowSucc(256, size);
    PackedMeaning(x * SIZE_UNIT, Pow(256, size), m, size);
  }

  lemma LeadingRange(x: nat)
    requires x > 0
    ensures Leading(x, ByteSize(x)) == x * SIZE_UNIT / Pow(256, ByteSize(x))
    ensures 0x1_0000 <= Leading(x, ByteSize(x)) < SIZE_UNIT
  {
    hide Pow, ByteSize, Leading;
    ByteSizeRange(x);
    var size := ByteSize(x);
    ScaledMantissa(x, size);
    MantissaRange(x, size, Leading(x, size));
  }

  // A mantissa that would reach the sign bit is shortened by a byte.
  lemma PackedMeaning(s: nat, p: nat, m: nat, size: nat)
    requires p > 0 && m == s / p && 0x1_0000 <= m < SIZE_UNIT
    ensures var c := Packed(m, size);
            var q := if Size(c) == size then p else 256 * p;
            && (Size(c) == size || Size(c) == size + 1)
            && c == Mantissa(c) + Size(c) * SIZE_UNIT && !SignBit(c)
            && 0x8000 * q <= s < SIGN * q && Mantissa(c) == s / q && 0x8000 <= Mantissa(c) < SIGN
  {
    if m / SIGN % 2 == 1 {
      SplitCompact(m / 256, size + 1);
      DivideAgain(s, p);
      QuotientRange(s, 256 * p, m / 256);
    } else {
      SplitCompact(m, size);
      QuotientRange(s, p, m);
    }
  }

  lemma ScaledMantissa(x: nat, size: nat)
    ensures x * SIZE_UNIT / Pow(256, size) == Leading(x, size)
  {
    hide Pow;
    Power3();
    if size <= 3 {
      PowAdd(256, 3 - size, size);
      var a, b := Pow(256, 3 - size), Pow(256, size);
      assert x * (a * b) == (x * a) * b;
      DivModUnique(x * SIZE_UNIT, b, x * a, 0);
    } else {
      PowAdd(256, size - 3, 3);
      CancelDivision(x, Pow(256, size - 3), SIZE_UNIT);
    }
  }

  lemma Power3()
    ensures Pow(256, 3) == SIZE_UNIT && Pow(256, 1) == 256 && Pow(256, 2) == 0x1_0000
  {
    assert Pow(256, 1) == 256;
    assert Pow(256, 2) == 256 * Pow(256, 1);
    assert Pow(256, 3) == 256 * Pow(256, 2);
  }

  lemma CancelDivision(x: nat, a: nat, c: nat)
    requires a > 0 && c > 0
    ensures a * c > 0 && x * c / (a * c) == x / a
  {
    MulStrict(0, a, c);
    var q, r := x / a, x % a;
    assert x == q * a + r;
    assert x * c == q * (a * c) + r * c;
    MulStrict(r, a, c);
    MulMono(0, r, c);
    DivModUnique(x * c, a * c, q, r * c);
  }

  // 256^(size-1) <= x < 256^size puts the scaled quotient between 2^16 and 2^24.
  lemma MantissaRange(x: nat, size: nat, m: nat)
    requires size > 0 && Pow(256, size - 1) <= x < Pow(256, size) && m == x * SIZE_UNIT / Pow(256, size)
    ensures 0x1_0000 <= m < SIZE_UNIT
  {
    hide Pow;
    PowSucc(256, size - 1);
    var p := Pow(256, size - 1);
    var s := x * SIZE_UNIT;
    MulMono(p, x, SIZE_UNIT);
    MulStrict(x, 256 * p, SIZE_UNIT);
    QuotientBounds(s, 256 * p, 0x1_0000, SIZE_UNIT);
  }

  lemma QuotientBounds(s: int, d: int, lo: int, hi: int)
    requires d > 0 && lo * d <= s < hi * d
    ensures lo <= s / d < hi
  {
    var q, r := s / d, s % d;
    assert s == q * d + r;
    assert (q + 1) * d == q * d + d;
    if q < lo { MulMono(q + 1, lo, d); }
    if q >= hi { MulMono(hi, q, d); }
  }

  lemma QuotientRange(s: nat, d: nat, m: nat)
    requires d > 0 && m == s / d && 0x8000 <= m < SIGN
    ensures 0x8000 * d <= s < SIGN * d
  {
    assert s == m * d + s % d;
    MulMono(0x8000, m, d);
    MulMono(m + 1, SIGN, d);
    assert (m + 1) * d == m * d + d;
  }

  lemma DivideAgain(s: nat, p: nat)
    requires p > 0
    ensures 256 * p > 0 && s / p / 256 == s / (256 * p)
  {
    var q := s / p;
    var a, b := q / 256, q % 256;
    assert s == q * p + s % p;
    assert q == a * 256 + b;
    assert q * p == a * (256 * p) + b * p;
    MulMono(b + 1, 256, p);
    MulMono(0, b, p);
    assert (b + 1) * p == b * p + p;
    DivModUnique(s, 256 * p, a, b * p + s % p);
  }

  lemma SplitCompact(m: nat, e: nat)
    requires m < SIGN
    ensures Size(m + e * SIZE_UNIT) == e && Mantissa(m + e * SIZE_UNIT) == m && !SignBit(m + e * SIZE_UNIT)
  {
    DivModUnique(m + e * SIZE_UNIT, SIZE_UNIT, e, m);
    DivModUnique(m + e * SIZE_UNIT, SIGN, 2 * e, m);
  }

  /** The range determines the code. */
  lemma EncodeUnique(x: nat, e: nat)
    requires x > 0 && 0x8000 * Pow(256, e) <= x * SIZE_UNIT < SIGN * Pow(256, e)
    ensures Encode(x) == x * SIZE_UNIT / Pow(256, e) + e * SIZE_UNIT
  {
    hide Pow, Encode;
    EncodeMeaning(x);
    var f := Size(Encode(x));
    if e < f {
      RangesApart(e, f);
    } else if f < e {
      RangesApart(f, e);
    }
  }

  lemma RangesApart(e: nat, f: nat)
    requires e < f
    ensures SIGN * Pow(256, e) <= 0x8000 * Pow(256, f)
  {
    hide Pow;
    PowMono(256, e + 1, f);
    PowSucc(256, e);
  }

  // ---------- The main results ----------

  /** GetCompact preserves order. */
  lemma EncodeMonotone(x: nat, y: nat)
    requires x <= y
    ensures Encode(x) <= Encode(y)
  {
    hide Pow, Encode;
    if x == 0 {
      EncodeZero();
    } else {
      EncodeMeaning(x);
      EncodeMeaning(y);
      var e, f := Size(Encode(x)), Size(Encode(y));
      var m, n := Mantissa(Encode(x)), Mantissa(Encode(y));
      if f < e {
        RangesApart(f, e);
      } else if e == f {
        QuotientMonotone(x * SIZE_UNIT, y * SIZE_UNIT, Pow(256, e));
      } else {
        MulMono(e + 1, f, SIZE_UNIT);
      }
    }
  }

  lemma EncodeZero()
    ensures Encode(0) == 0
  {
  }

  lemma QuotientMonotone(a: int, b: int, d: int)
    requires d > 0 && a <= b
    ensures a / d <= b / d
  {
    assert a == a / d * d + a % d;
    assert b == b / d * d + b % d;
    assert (b / d + 1) * d == b / d * d + d;
    if b / d < a / d { MulMono(b / d + 1, a / d, d); }
  }

  /** SetCompact(GetCompact(x)) is x with its low-order bytes cleared, neither negative
      nor overflowing, for every 256-bit x. */
  lemma DecodeEncode(x: nat)
    requires x < Pow(256, 32)
    ensures var e := Size(Encode(x));
            && Decode(Encode(x)) == (if e <= 3 then x else x - x % Pow(256, e - 3))
            && !SignBit(Encode(x)) && !Overflows(Encode(x))
  {
    hide Pow, Encode;
    if x == 0 {
      EncodeZero();
      ZeroDecodes();
    } else {
      EncodeMeaning(x);
      var e, m := Size(Encode(x)), Mantissa(Encode(x));
      ScaledMantissa(x, e);
      if e <= 3 {
        var p := Pow(256, 3 - e);
        DivModUnique(x * p, p, x, 0);
      } else {
        var p := Pow(256, e - 3);
        assert x == x / p * p + x % p;
        MulMono(0, x / p, p);
        DivModUnique(m * p, Pow(256, 32), 0, m * p);
        OverflowMeaning(Encode(x));
      }
    }
  }

  lemma ZeroDecodes()
    ensures Decode(0) == 0 && !Overflows(0) && !SignBit(0) && Size(0) == 0
  {
    var p := Pow(256, 3);
    DivModUnique(0, p, 0, 0);
  }

  /** GetCompact does not change again once the low-order bytes are gone. */
  lemma EncodeStable(x: nat)
    requires x < Pow(256, 32)
    ensures Encode(Decode(Encode(x))) == Encode(x)
  {
    hide Pow, Encode, Decode;
    DecodeEncode(x);
    if x > 0 {
      EncodeMeaning(x);
      var e, m := Size(Encode(x)), Mantissa(Encode(x));
      if e > 3 {
        ScaledMantissa(x, e);
        var p := Pow(256, e - 3);
        var y := Decode(Encode(x));
        assert y == m * p by { assert x == x / p * p + x % p; }
        Power3();
        PowAdd(256, e - 3, 3);
        assert (m * p) * SIZE_UNIT == m * (p * SIZE_UNIT);
        MulMono(0x8000, m, Pow(256, e));
        MulStrict(m, SIGN, Pow(256, e));
        MulStrict(0, m, p);
        EncodeUnique(y, e);
        DivModUnique(m * Pow(256, e), Pow(256, e), m, 0);
      }
    }
  }

  /** SetCompact reports overflow exactly when the encoded number does not fit 256 bits. */
  lemma OverflowMeaning(compact: nat)
    ensures Overflows(compact) <==>
            Size(compact) > 3 && Mantissa(compact) * Pow(256, Size(compact) - 3) >= Pow(256, 32)
  {
    hide Pow;
    var m, size := Mantissa(compact), Size(compact);
    if size <= 3 {
      WordSmall(m, 3 - size);
    } else {
      OverflowScaled(m, size - 3);
    }
  }

  lemma WordSmall(m: nat, k: nat)
    ensures m / Pow(256, k) <= m
  {
    DivAtMost(m, Pow(256, k));
  }

  lemma OverflowScaled(m: nat, k: nat)
    requires m < SIGN
    ensures m * Pow(256, k) >= Pow(256, 32) <==> m != 0 && (k > 31 || (m > 0xff && k > 30) || (m > 0xffff && k > 29))
  {
    hide Pow;
    Power3();
    if k > 31 {
      PowMono(256, 32, k);
      if m != 0 { MulMono(1, m, Pow(256, k)); }
    } else {
      var need := 32 - k;
      PowAdd(256, k, need);
      CompareScaled(m, Pow(256, k), Pow(256, need));
      if need >= 3 { PowMono(256, 3, need); }
    }
  }

  lemma CompareScaled(m: nat, p: nat, q: nat)
    requires p > 0
    ensures m * p >= p * q <==> m >= q
  {
    if m < q { MulStrict(m, q, p); } else { MulMono(q, m, p); }
  }

  // ---------- The conversions on limbs ----------

  /** SetCompact. */
  method SetCompact(u: BaseUint, compact: nat) returns (negative: bool, overflow: bool)
    requires u.Valid() && u.pn.Length == 8 && compact < LIMB
    modifies u.pn
    ensures u.Valid() && u.Val() == Decode(compact)
    ensures negative <==> Word(compact) != 0 && SignBit(compact)
    ensures overflow <==> Overflows(compact)
  {
    hide Pow, Value;
    var size := compact / SIZE_UNIT;
    var word := compact % SIGN;
    if size <= 3 {
      DivAtMost(word, Pow(256, 3 - size));
      word := word / Pow(256, 3 - size);
      SetWord(u, word);
    } else {
      SetWord(u, word);
      BytePower(size - 3);
      FullWidth();
      u.ShiftLeft(8 * (size - 3));
    }
    negative := word != 0 && compact / SIGN % 2 == 1;
    overflow := word != 0 && (size > 34 || (word > 0xff && size > 33) || (word > 0xffff && size > 32));
  }

  lemma FullWidth()
    ensures Modulus(8) == Pow(256, 32)
  {
    hide Pow;
    LimbIsPower();
    PowMul(2, 32, 8);
    BytePower(32);
  }

  // *this = nWord
  method SetWord(u: BaseUint, word: nat)
    requires u.pn.Length >= 2 && word < LIMB
    modifies u.pn
    ensures u.Valid() && u.Val() == word
  {
    u.SetZero();
    u.pn[0] := word;
    ValueHighZeros(u.pn[..], 1, LIMB);
    assert u.pn[..][..1] == [word];
    ValueOne(word, LIMB);
  }

  method GetLow64(u: BaseUint) returns (r: nat)
    requires u.Valid()
    ensures r == u.Val() % U64
  {
    hide Value;
    r := u.pn[0] + u.pn[1] * LIMB;
    ghost var limbs := u.pn[..];
    ValueSplit(limbs, 2, LIMB);
    ValueSnoc(limbs, 1, LIMB);
    ValueSnoc(limbs, 0, LIMB);
    ValueZeros(limbs[..0], LIMB);
    DivModUnique(u.Val(), U64, Value(limbs[2..], LIMB), r);
  }

  lemma LeadingFits(x: nat)
    ensures Leading(x, ByteSize(x)) < SIZE_UNIT
    ensures ByteSize(x) <= 3 ==> x < SIZE_UNIT
  {
    hide Pow, ByteSize;
    if x == 0 {
      ZeroSize();
    } else {
      LeadingRange(x);
      ByteSizeRange(x);
      Power3();
      if ByteSize(x) <= 3 { PowMono(256, ByteSize(x), 3); }
    }
  }

  lemma ZeroSize()
    ensures ByteSize(0) == 0
  {
  }

  // nCompact |= nSize << 24
  method OrSize(m: nat, size: nat) returns (r: nat)
    requires m < SIGN
    ensures r == m + size * SIZE_UNIT
  {
    hide Pow, BitOr;
    UnitIsPower();
    DivModUnique(size * SIZE_UNIT, SIZE_UNIT, size, 0);
    BitOrDisjoint(size * SIZE_UNIT, m, 24);
    r := BitOr(m, size * SIZE_UNIT);
  }

  lemma UnitIsPower()
    ensures Pow(2, 24) == SIZE_UNIT && Pow(2, 23) == SIGN
  {
    hide Pow;
    Power3();
    BytePower(3);
    PowSucc(2, 23);
  }

  // The sign bit is clear in m + size * 2^24, so setting it adds it.
  lemma {:induction false} OrSign(m: nat, size: nat)
    requires m < SIGN
    ensures BitOr(m + size * SIZE_UNIT, SIGN) == m + size * SIZE_UNIT + SIGN
  {
    hide Pow, BitOr;
    UnitIsPower();
    OrLow(m, 2 * size, 1, 23);
    OrEven(size);
  }

  /** Bits below position s that only the first operand has. */
  lemma {:induction false} OrLow(m: nat, x: nat, y: nat, s: nat)
    requires m < Pow(2, s)
    ensures BitOr(m + x * Pow(2, s), y * Pow(2, s)) == m + BitOr(x, y) * Pow(2, s)
    decreases s
  {
    hide BitOr;
    if s == 0 {
      UnitScale(x);
      UnitScale(y);
      UnitScale(BitOr(x, y));
    } else {
      var p := Pow(2, s - 1);
      OrLow(m / 2, x, y, s - 1);
      OrDouble(m / 2 + x * p, m % 2, y * p);
      DoubleScaled(x, p);
      DoubleScaled(y, p);
      DoubleScaled(BitOr(x, y), p);
    }
  }

  lemma UnitScale(x: nat)
    ensures x * Pow(2, 0) == x
  {
  }

  lemma DoubleScaled(x: nat, p: nat)
    ensures x * (2 * p) == 2 * (x * p)
  {
  }

  lemma OrDouble(a: nat, b: nat, c: nat)
    requires b < 2
    ensures BitOr(2 * a + b, 2 * c) == 2 * BitOr(a, c) + b
  {
  }

  lemma OrEven(size: nat)
    ensures BitOr(2 * size, 1) == 2 * size + 1
  {
    BitOrZero(size);
  }

  ghost function Number(u: BaseUint): nat
    requires u.Valid()
    reads u.pn
  {
    ValueBound(u.pn[..], LIMB);
    u.Val()
  }

  // The low 32 bits of the shifted number.
  method TakeLeading(u: BaseUint, size: nat) returns (m: nat)
    requires u.Valid() && size == ByteSize(Number(u))
    ensures m == Leading(Number(u), size)
  {
    hide Pow, ByteSize, Value, Leading;
    ghost var x := Number(u);
    LeadingFits(x);
    LeadingByShift(x, size);
    if size <= 3 {
      m := GetLow64(u);
      m := m * Pow(256, 3 - size) % LIMB;
    } else {
      var bn := new BaseUint.Copy(u);
      bn.ShiftRight(8 * (size - 3));
      m := GetLow64(bn);
      m := m % LIMB;
    }
  }

  lemma LeadingByShift(x: nat, size: nat)
    requires size <= 3 ==> x < U64
    requires Leading(x, size) < LIMB
    ensures size <= 3 ==> x % U64 * Pow(256, 3 - size) % LIMB == Leading(x, size)
    ensures size > 3 ==> x / Pow(2, 8 * (size - 3)) % U64 % LIMB == Leading(x, size)
  {
    hide Pow;
    if size > 3 { BytePower(size - 3); }
    SmallModulo(Leading(x, size), LIMB);
    SmallModulo(Leading(x, size), U64);
    if size <= 3 { SmallModulo(x, U64); }
  }

  lemma SmallModulo(v: nat, m: nat)
    requires v < m
    ensures v % m == v
  {
    DivModUnique(v, m, 0, v);
  }

  /** GetCompact. */
  method GetCompact(u: BaseUint, negative: bool) returns (compact: nat)
    requires u.Valid() && u.pn.Length == 8
    ensures compact == Encode(Number(u)) + if negative && Mantissa(Encode(Number(u))) != 0 then SIGN else 0
    ensures compact < LIMB
  {
    hide Pow, Value, BitOr, NumBits, Leading;
    var bits := u.Bits();
    ghost var x := Number(u);
    if bits > 0 { NumBitsUnique(x, bits); } else { ZeroSize(); }
    var size := (bits + 7) / 8;
    var m := TakeLeading(u, size);
    LeadingFits(x);
    if m / SIGN % 2 == 1 {
      m := m / 256;
      size := size + 1;
    }
    assert m < SIGN;
    assert size < 256;
    compact := OrSize(m, size);
    assert compact == Encode(x);
    SplitCompact(m, size);
    if negative && compact % SIGN != 0 {
      OrSign(m, size);
      compact := BitOr(compact, SIGN);
    }
  }

  /** Setting the sign bit of an encoding changes neither its value nor its size, and is read back. */
  lemma SignedEncode(x: nat, negative: bool)
    requires x < Pow(256, 32)
    ensures var c := Encode(x) + if negative && x != 0 then SIGN else 0;
            && Decode(c) == Decode(Encode(x)) && Size(c) == Size(Encode(x)) && !Overflows(c)
            && (Word(c) != 0 <==> x != 0) && (Word(c) != 0 && SignBit(c) <==> negative && x != 0)
    ensures Mantissa(Encode(x)) != 0 <==> x != 0
  {
    hide Pow, Encode, Decode, Word;
    DecodeEncode(x);
    if x == 0 {
      EncodeZero();
      ZeroWord();
    } else {
      EncodeMeaning(x);
      var e, m := Size(Encode(x)), Mantissa(Encode(x));
      SignedParts(m, e);
      WordOfEncoding(x);
      SameParts(Encode(x), Encode(x) + SIGN);
    }
  }

  lemma ZeroWord()
    ensures Word(0) == 0
  {
    DivModUnique(0, Pow(256, 3), 0, 0);
  }

  lemma SignedParts(m: nat, e: nat)
    requires m < SIGN
    ensures var c := m + e * SIZE_UNIT + SIGN; Size(c) == e && Mantissa(c) == m && SignBit(c)
  {
    DivModUnique(m + e * SIZE_UNIT + SIGN, SIZE_UNIT, e, m + SIGN);
    DivModUnique(m + e * SIZE_UNIT + SIGN, SIGN, 2 * e + 1, m);
  }

  lemma SameParts(c: nat, d: nat)
    requires Size(c) == Size(d) && Mantissa(c) == Mantissa(d)
    ensures Word(c) == Word(d) && Decode(c) == Decode(d) && Overflows(c) == Overflows(d)
  {
    hide Pow;
  }

  lemma WordOfEncoding(x: nat)
    requires 0 < x < Pow(256, 32)
    ensures Word(Encode(x)) != 0
  {
    hide Pow, Encode;
    DecodeEncode(x);
    EncodeMeaning(x);
  }

  /** GetCompact and SetCompact in turn: the value without its low-order bytes, no overflow, and negative exactly as
      asked for a number that is not zero. */
  method CompactRoundTrip(u: BaseUint, v: BaseUint, negative: bool) returns (compact: nat, signed: bool, overflow: bool)
    requires u.Valid() && v.Valid() && u.pn.Length == v.pn.Length == 8 && u.pn != v.pn
    modifies v.pn
    ensures v.Valid() && compact < LIMB && !overflow && (signed <==> negative && old(u.Val()) != 0)
    ensures var x, e := old(u.Val()), Size(compact); v.Val() == if e <= 3 then x else x - x % Pow(256, e - 3)
  {
    hide Pow, Encode, Decode, Word, SignBit, Overflows, Mantissa;
    ghost var x := Number(u);
    ValueBound(u.pn[..], LIMB);
    FullWidth();
    SignedEncode(x, negative);
    DecodeEncode(x);
    compact := GetCompact(u, negative);
    signed, overflow := SetCompact(v, compact);
  }
}
