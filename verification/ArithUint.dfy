/** Fixed-width unsigned integers in 32-bit limbs (src/arith_uint256.h,
    src/arith_uint256.cpp), for every width of at least two limbs. */
module ArithUint {
  import opened Numbers

  const LIMB := 0x1_0000_0000
  const U64 := 0x1_0000_0000_0000_0000

  lemma LimbIsPower()
    ensures Pow(2, 32) == LIMB
  {
    assert Pow(2, 4) == 16;
    PowAdd(2, 4, 4);
    PowAdd(2, 8, 8);
    PowAdd(2, 16, 16);
  }

  // ---------- Values modulo 2^BITS ----------

  function Modulus(width: nat): (m: nat)
    ensures m > 0
  {
    Pow(LIMB, width)
  }

  /** What a full row of limbs holds when `exact` has been accumulated up to a carry. */
  lemma Truncated(limbs: seq<int>, exact: int, carry: int)
    requires Digits(limbs, LIMB) && exact == Value(limbs, LIMB) + carry * Modulus(|limbs|)
    ensures Value(limbs, LIMB) == exact % Modulus(|limbs|)
  {
    ValueBound(limbs, LIMB);
    DivModUnique(exact, Modulus(|limbs|), carry, Value(limbs, LIMB));
  }

  // ---------- The class ----------

  class BaseUint {
    const pn: array<int>

    ghost predicate Valid()
      reads pn
    {
      pn.Length >= 2 && Digits(pn[..], LIMB)
    }

    ghost function Val(): int
      reads pn
    {
      Value(pn[..], LIMB)
    }

    constructor Copy(b: BaseUint)
      requires b.Valid()
      ensures Valid() && fresh(pn) && pn.Length == b.pn.Length && pn[..] == b.pn[..]
    {
      pn := new int[b.pn.Length];
      new;
      for i := 0 to pn.Length
        invariant pn[..i] == b.pn[..i]
      {
        pn[i] := b.pn[i];
      }
    }

    method SetZero()
      requires pn.Length >= 2
      modifies pn
      ensures Valid() && forall i :: 0 <= i < pn.Length ==> pn[i] == 0
    {
      for i := 0 to pn.Length
        invariant forall j :: 0 <= j < i ==> pn[j] == 0
      {
        pn[i] := 0;
      }
    }

    /** operator+=; the argument may be the receiver. */
    method AddAssign(b: BaseUint)
      requires Valid() && b.Valid() && b.pn.Length == pn.Length
      modifies pn
      ensures Valid()
      ensures Val() == (old(Val()) + old(b.Val())) % Modulus(pn.Length)
    {
      ghost var x, y := pn[..], b.pn[..];
      var carry := 0;
      for i := 0 to pn.Length
        invariant Digits(pn[..], LIMB) && 0 <= carry <= 1
        invariant pn[i..] == x[i..] && b.pn[i..] == y[i..]
        invariant Value(pn[..][..i], LIMB) + carry * Pow(LIMB, i) == Value(x[..i], LIMB) + Value(y[..i], LIMB)
      {
        var n := carry + pn[i] + b.pn[i];
        assert 0 <= n < U64;
        assert pn[i] == x[i] && b.pn[i] == y[i];
        ghost var before := pn[..];
        pn[i] := n % LIMB;
        carry := n / LIMB;
        SumStep(before, pn[..], x, y, i, n);
      }
      assert pn[..][..pn.Length] == pn[..] && x[..pn.Length] == x && y[..pn.Length] == y;
      Truncated(pn[..], Value(x, LIMB) + Value(y, LIMB), carry);
    }

    /** Prefix operator++. */
    method Increment()
      requires Valid()
      modifies pn
      ensures Valid()
      ensures Val() == (old(Val()) + 1) % Modulus(pn.Length)
    {
      ghost var x := pn[..];
      var i := 0;
      pn[i] := (pn[i] + 1) % LIMB;
      IncStep(x, pn[..], x, 0);
      while pn[i] == 0 && i < pn.Length - 1
        invariant 0 <= i < pn.Length && Digits(pn[..], LIMB)
        invariant forall k :: i < k < pn.Length ==> pn[k] == x[k]
        invariant Value(pn[..][..i + 1], LIMB) + (if pn[i] == 0 then 1 else 0) * Pow(LIMB, i + 1) ==
                    Value(x[..i + 1], LIMB) + 1
      {
        ghost var before := pn[..];
        i := i + 1;
        assert pn[i] == x[i];
        pn[i] := (pn[i] + 1) % LIMB;
        IncStep(before, pn[..], x, i);
      }
      assert pn[..][i + 1..] == x[i + 1..];
      FinishInc(pn[..], x, i);
    }

    /** Prefix operator--. */
    method Decrement()
      requires Valid()
      modifies pn
      ensures Valid()
      ensures Val() == (old(Val()) - 1) % Modulus(pn.Length)
    {
      hide Value, Pow;
      ghost var x := pn[..];
      DecStart(x);
      var i := 0;
      pn[i] := (pn[i] - 1) % LIMB;
      DecStep(x, pn[..], x, 0);
      while pn[i] == LIMB - 1 && i < pn.Length - 1
        invariant 0 <= i < pn.Length && Digits(pn[..], LIMB)
        invariant forall k :: i < k < pn.Length ==> pn[k] == x[k]
        invariant Value(pn[..][..i + 1], LIMB) - (if pn[i] == LIMB - 1 then 1 else 0) * Pow(LIMB, i + 1) ==
                    Value(x[..i + 1], LIMB) - 1
      {
        ghost var before := pn[..];
        i := i + 1;
        assert pn[i] == x[i];
        pn[i] := (pn[i] - 1) % LIMB;
        DecStep(before, pn[..], x, i);
      }
      assert pn[..][i + 1..] == x[i + 1..];
      FinishDec(pn[..], x, i);
    }

    /** Unary minus: the two's complement. */
    method Negate() returns (ret: BaseUint)
      requires Valid()
      ensures ret.Valid() && fresh(ret) && fresh(ret.pn) && ret.pn.Length == pn.Length
      ensures ret.Val() == (-Val()) % Modulus(pn.Length)
    {
      ret := new BaseUint.Copy(this);
      for i := 0 to pn.Length
        invariant ret.pn.Length == pn.Length && fresh(ret.pn)
        invariant forall j :: 0 <= j < i ==> ret.pn[j] == LIMB - 1 - pn[j]
        invariant forall j :: i <= j < pn.Length ==> ret.pn[j] == pn[j]
      {
        ret.pn[i] := LIMB - 1 - pn[i];
      }
      Complement(pn[..], ret.pn[..]);
      ret.Increment();
      ValueBound(pn[..], LIMB);
      NegateMod(Val(), Modulus(pn.Length));
    }

    /** operator-= */
    method SubAssign(b: BaseUint)
      requires Valid() && b.Valid() && b.pn.Length == pn.Length
      modifies pn
      ensures Valid()
      ensures Val() == (old(Val()) - old(b.Val())) % Modulus(pn.Length)
    {
      var neg := b.Negate();
      AddMod(Val(), -b.Val(), Modulus(pn.Length));
      AddAssign(neg);
    }

    /** operator*= by a single limb. */
    method MulAssign32(b32: int)
      requires Valid() && 0 <= b32 < LIMB
      modifies pn
      ensures Valid()
      ensures Val() == (old(Val()) * b32) % Modulus(pn.Length)
    {
      ghost var x := pn[..];
      var carry := 0;
      for i := 0 to pn.Length
        invariant Digits(pn[..], LIMB) && 0 <= carry < LIMB && pn[i..] == x[i..]
        invariant Value(pn[..][..i], LIMB) + carry * Pow(LIMB, i) == b32 * Value(x[..i], LIMB)
      {
        LimbProduct(b32, pn[i], carry, 0);
        var n := carry + b32 * pn[i];
        assert 0 <= n < U64;
        assert pn[i] == x[i];
        ghost var before := pn[..];
        pn[i] := n % LIMB;
        carry := n / LIMB;
        ScaleStep(before, pn[..], x, b32, i, n);
      }
      assert pn[..][..pn.Length] == pn[..] && x[..pn.Length] == x;
      assert Value(x, LIMB) * b32 == b32 * Value(x, LIMB);
      Truncated(pn[..], Value(x, LIMB) * b32, carry);
    }

    /** operator*=.  The receiver is zeroed while the argument is still read, so
        multiplying a number by itself in place gives zero. */
    method MulAssign(b: BaseUint)
      requires Valid() && b.Valid() && b.pn.Length == pn.Length && (b == this || b.pn != pn)
      modifies pn
      ensures Valid()
      ensures b != this ==> Val() == (old(Val()) * b.Val()) % Modulus(pn.Length)
      ensures b == this ==> Val() == 0
    {
      var a := new BaseUint.Copy(this);
      ghost var x, y := pn[..], b.pn[..];
      SetZero();
      ghost var w := pn.Length;
      ghost var over := 0;      // what has been lost above the top limb
      ValueZeros(pn[..], LIMB);
      for j := 0 to pn.Length
        invariant a.pn[..] == x && Digits(pn[..], LIMB)
        invariant b != this ==>
                    b.pn[..] == y && Value(pn[..], LIMB) + over * Modulus(w) == Value(x[..j], LIMB) * Value(y, LIMB)
        invariant b == this ==> forall i :: 0 <= i < w ==> pn[i] == 0
      {
        ghost var p0 := pn[..];
        var carry := MulRow(a, b, j, x, y);
        if b != this {
          over := RowDone(p0, pn[..], x, y, j, carry, over);
        }
      }
      if b != this {
        assert x[..w] == x;
        Truncated(pn[..], Value(x, LIMB) * Value(y, LIMB), over);
      } else {
        ValueZeros(pn[..], LIMB);
      }
    }

    /** The inner loop of operator*=: adds a.pn[j] * b at position j. */
    method MulRow(a: BaseUint, b: BaseUint, j: int, ghost x: seq<int>, ghost y: seq<int>) returns (carry: int)
      requires a.pn != pn && a.pn.Length == b.pn.Length == pn.Length && 0 <= j < pn.Length
      requires b == this || b.pn != pn
      requires a.pn[..] == x && Digits(x, LIMB) && Digits(pn[..], LIMB) && Digits(b.pn[..], LIMB)
      requires b != this ==> b.pn[..] == y
      requires b == this ==> forall i :: 0 <= i < pn.Length ==> pn[i] == 0
      modifies pn
      ensures Digits(pn[..], LIMB) && 0 <= carry < LIMB
      ensures b != this ==>
                Value(pn[..], LIMB) + carry * Modulus(pn.Length)
                == old(Value(pn[..], LIMB)) + x[j] * Value(y[..pn.Length - j], LIMB) * Pow(LIMB, j)
      ensures b == this ==> forall i :: 0 <= i < pn.Length ==> pn[i] == 0
    {
      ghost var p0 := pn[..];
      carry := 0;
      var i := 0;
      RowStart(p0, x[j], j);
      while i + j < pn.Length
        invariant 0 <= i <= pn.Length - j && Digits(pn[..], LIMB) && 0 <= carry < LIMB
        invariant pn[i + j..] == p0[i + j..]
        invariant b != this ==>
                    Value(pn[..][..i + j], LIMB) + carry * Pow(LIMB, i + j)
                    == Value(p0[..i + j], LIMB) + x[j] * Value(y[..i], LIMB) * Pow(LIMB, j)
        invariant b == this ==> carry == 0 && forall k :: 0 <= k < pn.Length ==> pn[k] == 0
      {
        assert 0 <= b.pn[..][i] < LIMB && 0 <= x[j] < LIMB && pn[i + j] == p0[i + j];
        LimbProduct(a.pn[j], b.pn[i], carry, pn[i + j]);
        var n := carry + pn[i + j] + a.pn[j] * b.pn[i];
        assert 0 <= n < U64;
        ghost var before := pn[..];
        pn[i + j] := n % LIMB;
        if b != this { RowStep(before, pn[..], p0, x[j], y, i, j, carry, n); }
        carry := n / LIMB;
        i := i + 1;
      }
      assert pn[..][..i + j] == pn[..] && p0[..i + j] == p0;
    }

    /** operator<<= */
    method ShiftLeft(shift: nat)
      requires Valid()
      modifies pn
      ensures Valid()
      ensures Val() == (old(Val()) * Pow(2, shift)) % Modulus(pn.Length)
    {
      hide Value, Pow, ShiftedTo, BitOr, Spill;
      ghost var x := pn[..];
      var a := new BaseUint.Copy(this);
      SetZero();
      var k, s := shift / 32, shift % 32;
      ghost var w := pn.Length;
      ShiftStart(pn[..], k);
      for i := 0 to pn.Length
        invariant a.pn[..] == x && Digits(pn[..], LIMB)
        invariant k > w ==> forall t :: 0 <= t < w ==> pn[t] == 0
        invariant k <= w ==> ShiftedTo(pn[..], x, k, s, if i + k <= w then i else w - k)
      {
        ghost var before := pn[..];
        if i + k < pn.Length {
          ShiftCells(before, x, k, s, i);
          if i + k + 1 < pn.Length && s != 0 {
            pn[i + k + 1] := BitOr(pn[i + k + 1], a.pn[i] / Pow(2, 32 - s));
          }
          pn[i + k] := BitOr(pn[i + k], (a.pn[i] * Pow(2, s)) % LIMB);
          ShiftStep(before, pn[..], x, k, s, i);
        }
      }
      ShiftDone(pn[..], x, k, s, shift);
    }

    /** operator>>= */
    method ShiftRight(shift: nat)
      requires Valid()
      modifies pn
      ensures Valid()
      ensures Val() == old(Val()) / Pow(2, shift)
    {
      hide Value, Pow, ShiftedDown, BitOr;
      ghost var x := pn[..];
      var a := new BaseUint.Copy(this);
      SetZero();
      var k, s := shift / 32, shift % 32;
      for i := 0 to pn.Length
        invariant a.pn[..] == x && Digits(pn[..], LIMB)
        invariant i <= k ==> forall t :: 0 <= t < pn.Length ==> pn[t] == 0
        invariant i > k ==> ShiftedDown(pn[..], x, k, s, i - k)
      {
        ghost var before := pn[..];
        if i - k - 1 >= 0 && s != 0 {
          DownCells(before, x, k, s, i - k);
          pn[i - k - 1] := BitOr(pn[i - k - 1], (a.pn[i] * Pow(2, 32 - s)) % LIMB);
        }
        if i - k >= 0 {
          DownTop(before, x, k, s, i - k);
          pn[i - k] := BitOr(pn[i - k], a.pn[i] / Pow(2, s));
          DownStep(before, pn[..], x, k, s, i - k);
        }
      }
      DownDone(pn[..], x, k, s, shift);
    }

    /** -1, 0 or 1 as the value is below, equal to or above the other. */
    method CompareTo(b: BaseUint) returns (r: int)
      requires Valid() && b.Valid() && b.pn.Length == pn.Length
      ensures r == if Val() < b.Val() then -1 else if Val() > b.Val() then 1 else 0
    {
      hide Value;
      ghost var x, y := pn[..], b.pn[..];
      var i := pn.Length - 1;
      while i >= 0
        invariant -1 <= i < pn.Length
        invariant forall t :: i < t < pn.Length ==> x[t] == y[t]
      {
        if pn[i] < b.pn[i] {
          TopDecides(x, y, i);
          return -1;
        }
        if pn[i] > b.pn[i] {
          TopDecides(y, x, i);
          return 1;
        }
        i := i - 1;
      }
      assert x == y;
      return 0;
    }

    /** The position of the highest set bit plus one, or zero. */
    method Bits() returns (r: nat)
      requires Valid()
      ensures r <= 32 * pn.Length && (r == 0 <==> Val() == 0)
      ensures r > 0 ==> Pow(2, r - 1) <= Val() < Pow(2, r)
    {
      hide Value, Pow;
      var pos := pn.Length - 1;
      while pos >= 0
        invariant -1 <= pos < pn.Length
        invariant forall t :: pos < t < pn.Length ==> pn[t] == 0
      {
        if pn[pos] != 0 {
          LimbIsPower();
          var bits := 31;
          while bits > 0
            invariant 0 <= bits <= 31 && pn[pos] < Pow(2, bits + 1)
          {
            PowSucc(2, bits);
            if pn[pos] / Pow(2, bits) % 2 == 1 {
              BitsFound(pn[..], pos, bits);
              return 32 * pos + bits + 1;
            }
            BitClear(pn[pos], Pow(2, bits));
            bits := bits - 1;
          }
          PowSucc(2, 0);
          PowZero(2);
          BitsFound(pn[..], pos, 0);
          return 32 * pos + 1;
        }
        pos := pos - 1;
      }
      ValueZeros(pn[..], LIMB);
      return 0;
    }

    /** operator/=: the floor of the quotient; division by zero throws. */
    method DivAssign(b: BaseUint) returns (threw: bool)
      requires Valid() && b.Valid() && b.pn.Length == pn.Length
      modifies pn
      ensures Valid()
      ensures threw <==> old(b.Val()) == 0
      ensures Val() == if threw then 0 else old(Val()) / old(b.Val())
    {
      hide Value, Pow, LowClear, BitOr;
      ghost var n, d := Val(), b.Val();
      var div := new BaseUint.Copy(b);
      var num := new BaseUint.Copy(this);
      SetZero();
      ValueZeros(pn[..], LIMB);
      var numBits := num.Bits();
      var divBits := div.Bits();
      ValueBound(num.pn[..], LIMB);
      ValueBound(div.pn[..], LIMB);
      if divBits == 0 { return true; }
      if divBits > numBits {
        QuotientZero(n, d, numBits, divBits);
        return false;
      }
      var shift := numBits - divBits;
      AlignFits(n, d, numBits, divBits, pn.Length);
      div.ShiftLeft(shift);
      ZeroLowClear(pn[..], shift + 1);
      while shift >= 0
        invariant -1 <= shift < numBits && Valid() && num.Valid() && div.Valid()
        invariant num.pn.Length == div.pn.Length == pn.Length
        invariant fresh(num.pn) && fresh(div.pn) && num.pn != div.pn
        invariant 0 <= num.Val() < d * Pow(2, shift + 1) && num.Val() + Val() * d == n
        invariant shift >= 0 ==> div.Val() == d * Pow(2, shift)
        invariant LowClear(pn[..], shift + 1)
      {
        DivideStep(num, div, shift, d);
        HalveShift(d, shift);
        div.ShiftRight(1);
        shift := shift - 1;
      }
      PowZero(2);
      DivModUnique(n, d, Val(), num.Val());
      return false;
    }

    /** One round of the long division: `this` is the quotient so far. */
    method DivideStep(num: BaseUint, div: BaseUint, shift: nat, ghost d: int)
      requires Valid() && num.Valid() && div.Valid() && num.pn.Length == div.pn.Length == pn.Length
      requires pn != num.pn && pn != div.pn && num.pn != div.pn && shift / 32 < pn.Length
      requires d > 0 && div.Val() == d * Pow(2, shift) && 0 <= num.Val() < d * Pow(2, shift + 1)
      requires LowClear(pn[..], shift + 1)
      modifies pn, num.pn
      ensures Valid() && num.Valid() && LowClear(pn[..], shift)
      ensures 0 <= num.Val() < d * Pow(2, shift)
      ensures num.Val() + Val() * d == old(num.Val() + Val() * d)
    {
      hide Value, Pow, LowClear, BitOr;
      PowSucc(2, shift);
      LowClearLess(pn[..], shift);
      ghost var q := Val();
      QuotientStep(q, d, Pow(2, shift));
      ValueBound(num.pn[..], LIMB);
      MulMono(0, d, Pow(2, shift));
      var c := num.CompareTo(div);
      if c >= 0 {
        NoBorrow(num.Val(), div.Val(), Modulus(pn.Length));
        num.SubAssign(div);
        SetBit(pn[..], shift);
        ghost var before := pn[..];
        pn[shift / 32] := BitOr(pn[shift / 32], Pow(2, shift % 32));
        assert pn[..] == before[shift / 32 := BitOr(before[shift / 32], Pow(2, shift % 32))];
        ClearIsDigits(pn[..], shift);
      }
    }
  }

  // ---------- Shifts ----------

  // What a limb shifted left by s leaves in its own place and spills into the next.
  function Lo(x: int, s: nat): int { (x * Pow(2, s)) % LIMB }
  function Hi(x: int, s: nat): int
    requires s < 32
  {
    if s == 0 then 0 else x / Pow(2, 32 - s)
  }

  function Spill(x: seq<int>, s: nat, i: nat): int
    requires s < 32 && i <= |x|
  {
    if i == 0 then 0 else Hi(x[i - 1], s)
  }

  lemma LimbShift(x: int, s: nat)
    requires 0 <= x < LIMB && s < 32
    ensures x * Pow(2, s) == Lo(x, s) + Hi(x, s) * LIMB
    ensures 0 <= Lo(x, s) < LIMB && Lo(x, s) % Pow(2, s) == 0
    ensures 0 <= Hi(x, s) < Pow(2, s) <= LIMB
  {
    hide Pow;
    LimbIsPower();
    PowAdd(2, s, 32 - s);
    PowMono(2, s, 32);
    if s == 0 { PowZero(2); }
    LimbShiftBy(x, Pow(2, s), Pow(2, 32 - s));
  }

  lemma PowZero(b: nat)
    ensures Pow(b, 0) == 1
  {
  }

  lemma LimbShiftBy(x: int, p: nat, q: nat)
    requires 0 <= x < LIMB && p > 0 && q > 0 && p * q == LIMB
    ensures (x * p) % LIMB == x % q * p && (x * p) % LIMB % p == 0
    ensures x * p == (x * p) % LIMB + x / q * LIMB
    ensures 0 <= x / q < p
  {
    var h, r := x / q, x % q;
    assert x == h * q + r;
    ShiftParts(h, r, p, q);
    DivModUnique(x * p, LIMB, h, r * p);
    DivModUnique(r * p, p, r, 0);
    if h >= p { MulMono(p, h, q); }
  }

  lemma ShiftParts(h: int, r: int, p: nat, q: int)
    requires 0 <= r < q && p > 0
    ensures (h * q + r) * p == h * (p * q) + r * p && 0 <= r * p < p * q
  {
    assert (h * q + r) * p == h * q * p + r * p;
    assert h * q * p == h * (p * q);
    MulStrict(r, q, p);
    MulMono(0, r, p);
  }

  /** The first e limbs have been shifted to positions from k on; what they spill is in
      the cell above and the rest is still zero. */
  ghost predicate ShiftedTo(limbs: seq<int>, x: seq<int>, k: nat, s: nat, e: nat) {
    && |limbs| == |x| && s < 32 && e + k <= |x|
    && (forall t :: e + k < t < |limbs| ==> limbs[t] == 0)
    && (e + k < |limbs| ==> limbs[e + k] == Spill(x, s, e))
    && Value(limbs[..e + k], LIMB) + Spill(x, s, e) * Pow(LIMB, e + k) == Value(x[..e], LIMB) * Pow(2, s) * Pow(LIMB, k)
  }

  lemma ShiftStart(limbs: seq<int>, k: nat)
    requires forall t :: 0 <= t < |limbs| ==> limbs[t] == 0
    ensures forall x: seq<int>, s: nat :: k <= |limbs| == |x| && s < 32 ==> ShiftedTo(limbs, x, k, s, 0)
  {
    if k <= |limbs| {
      ValueZeros(limbs[..k], LIMB);
      forall x: seq<int>, s: nat | |limbs| == |x| && s < 32 ensures ShiftedTo(limbs, x, k, s, 0) {
        assert x[..0] == [];
        assert Value(x[..0], LIMB) * Pow(2, s) == 0;
      }
    }
  }

  // What the two cells touched for limb i hold before and after.
  lemma ShiftCells(limbs: seq<int>, x: seq<int>, k: nat, s: nat, i: nat)
    requires i + k < |x| && Digits(x, LIMB) && ShiftedTo(limbs, x, k, s, i)
    ensures limbs[i + k] >= 0 && Lo(x[i], s) >= 0 &&
             BitOr(limbs[i + k], Lo(x[i], s)) == Lo(x[i], s) + Spill(x, s, i) < LIMB
    ensures i + k + 1 < |x| ==> limbs[i + k + 1] == 0 && 0 <= Hi(x[i], s) < LIMB && BitOr(0, Hi(x[i], s)) == Hi(x[i], s)
  {
    hide Value, Pow, BitOr;
    LimbShift(x[i], s);
    if i > 0 { LimbShift(x[i - 1], s); } else { PowPositive(s); }
    BitOrDisjoint(Lo(x[i], s), Spill(x, s, i), s);
    BitOrZero(Hi(x[i], s));
    LoFits(x[i], s, Spill(x, s, i));
  }

  lemma PowPositive(s: nat)
    ensures Pow(2, s) > 0
  {
  }

  // Lo is a multiple of 2^s below 2^32, so adding less than 2^s does not overflow.
  lemma LoFits(x: int, s: nat, c: int)
    requires 0 <= x < LIMB && s < 32 && 0 <= c < Pow(2, s)
    ensures Lo(x, s) + c < LIMB
  {
    hide Pow;
    LimbIsPower();
    PowAdd(2, s, 32 - s);
    LoFitsBy(x, Pow(2, s), Pow(2, 32 - s));
  }

  lemma LoFitsBy(x: int, p: nat, q: nat)
    requires 0 <= x < LIMB && p > 0 && q > 0 && p * q == LIMB
    ensures (x * p) % LIMB + p <= LIMB
  {
    LimbShiftBy(x, p, q);
    MulMono(x % q, q - 1, p);
    assert (q - 1) * p == p * q - p;
  }

  lemma ShiftStep(before: seq<int>, after: seq<int>, x: seq<int>, k: nat, s: nat, i: nat)
    requires |before| == |after| && i + k < |x| && ShiftedTo(before, x, k, s, i) && Digits(x, LIMB)
    requires forall t :: 0 <= t < |x| && t != i + k && t != i + k + 1 ==> after[t] == before[t]
    requires after[i + k] == Lo(x[i], s) + Spill(x, s, i)
    requires i + k + 1 < |x| ==> after[i + k + 1] == Hi(x[i], s)
    ensures ShiftedTo(after, x, k, s, i + 1)
  {
    hide Value, Pow;
    assert after[..i + k] == before[..i + k];
    ValueSnoc(after, i + k, LIMB);
    ValueSnoc(x, i, LIMB);
    assert x[..i + 1][i] == x[i];
    LimbShift(x[i], s);
    PowAdd(LIMB, i, k);
    PowSucc(LIMB, i + k);
    ShiftAlgebra(Lo(x[i], s), Hi(x[i], s), Spill(x, s, i), Pow(LIMB, i), Pow(LIMB, k), Pow(2, s), x[i],
        Value(x[..i], LIMB));
  }

  lemma ShiftAlgebra(lo: int, hi: int, c: int, pi: int, pk: int, ps: int, d: int, v: int)
    requires d * ps == lo + hi * LIMB
    ensures (lo + c) * (pi * pk) + hi * (LIMB * (pi * pk)) + (v * ps * pk - c * (pi * pk)) == (v + d * pi) * ps * pk
  {
    var q := pi * pk;
    assert (lo + c) * q == lo * q + c * q;
    assert hi * (LIMB * q) == (hi * LIMB) * q;
    assert (lo + hi * LIMB) * q == lo * q + (hi * LIMB) * q;
    assert (v + d * pi) * ps == v * ps + d * ps * pi;
    assert (v * ps + d * ps * pi) * pk == v * ps * pk + d * ps * pi * pk;
    assert d * ps * pi * pk == (d * ps) * q;
  }

  lemma ShiftDone(limbs: seq<int>, x: seq<int>, k: nat, s: nat, shift: nat)
    requires |limbs| == |x| && Digits(limbs, LIMB) && Digits(x, LIMB) && s < 32 && shift == 32 * k + s
    requires k > |x| ==> forall t :: 0 <= t < |x| ==> limbs[t] == 0
    requires k <= |x| ==> ShiftedTo(limbs, x, k, s, |x| - k)
    ensures Value(limbs, LIMB) == (Value(x, LIMB) * Pow(2, shift)) % Modulus(|x|)
  {
    hide Value, Pow, ShiftedTo, Modulus;
    ShiftPower(k, s);
    var carry;
    if k <= |x| { carry := ShiftCarry(limbs, x, k, s); } else { carry := ShiftAllOut(limbs, x, k, s); }
    Truncated(limbs, Value(x, LIMB) * (Pow(LIMB, k) * Pow(2, s)), carry);
  }

  lemma ShiftPower(k: nat, s: nat)
    ensures Pow(2, 32 * k + s) == Pow(LIMB, k) * Pow(2, s)
  {
    hide Pow;
    LimbIsPower();
    PowMul(2, 32, k);
    PowAdd(2, 32 * k, s);
  }

  lemma ShiftCarry(limbs: seq<int>, x: seq<int>, k: nat, s: nat) returns (carry: int)
    requires k <= |x| && ShiftedTo(limbs, x, k, s, |x| - k)
    ensures Value(x, LIMB) * (Pow(LIMB, k) * Pow(2, s)) == Value(limbs, LIMB) + carry * Modulus(|x|)
  {
    hide Value, Pow;
    var w := |x|;
    assert limbs[..w - k + k] == limbs;
    ValueSplit(x, w - k, LIMB);
    PowAdd(LIMB, w - k, k);
    var top := Value(x[w - k..], LIMB);
    OverTop(Value(x[..w - k], LIMB), top, Pow(LIMB, w - k), Pow(LIMB, k), Pow(2, s));
    var spill := Spill(x, s, w - k);
    carry := spill + top * Pow(2, s);
    Distribute2(spill, top * Pow(2, s), Modulus(w));
  }

  lemma Distribute2(a: int, b: int, m: int)
    ensures (a + b) * m == a * m + b * m
  {
  }

  lemma ShiftAllOut(limbs: seq<int>, x: seq<int>, k: nat, s: nat) returns (carry: int)
    requires |limbs| == |x| < k && forall t :: 0 <= t < |x| ==> limbs[t] == 0
    ensures Value(x, LIMB) * (Pow(LIMB, k) * Pow(2, s)) == Value(limbs, LIMB) + carry * Modulus(|x|)
  {
    hide Value, Pow;
    ValueZeros(limbs, LIMB);
    PowAdd(LIMB, |x|, k - |x|);
    var a, b, c, m := Value(x, LIMB), Pow(LIMB, k - |x|), Pow(2, s), Modulus(|x|);
    carry := a * b * c;
    assert a * (m * b * c) == (a * b * c) * m;
  }

  lemma OverTop(v: int, top: int, pw: int, pk: int, ps: int)
    ensures (v + pw * top) * (pk * ps) == v * ps * pk + top * ps * (pw * pk)
  {
    assert (v + pw * top) * (pk * ps) == v * (pk * ps) + pw * top * (pk * ps);
    assert v * (pk * ps) == v * ps * pk;
    assert pw * top * (pk * ps) == top * ps * (pw * pk);
  }

  lemma SumStep(before: seq<int>, after: seq<int>, x: seq<int>, y: seq<int>, i: nat, n: int)
    requires |before| == |after| == |x| == |y| && i < |x|
    requires after == before[i := n % LIMB] && n >= x[i] + y[i]
    requires Value(before[..i], LIMB) + (n - x[i] - y[i]) * Pow(LIMB, i) == Value(x[..i], LIMB) + Value(y[..i], LIMB)
    ensures Value(after[..i + 1], LIMB) + n / LIMB * Pow(LIMB, i + 1) ==
             Value(x[..i + 1], LIMB) + Value(y[..i + 1], LIMB)
  {
    assert after[..i] == before[..i];
    ValueSnoc(after, i, LIMB);
    ValueSnoc(x, i, LIMB);
    ValueSnoc(y, i, LIMB);
    CarryOut(n, Pow(LIMB, i));
    var p := Pow(LIMB, i);
    assert (n - x[i] - y[i]) * p == n * p - x[i] * p - y[i] * p;
  }

  // A limb and its carry weigh as much as the number they come from.
  lemma CarryOut(n: int, p: int)
    ensures (n % LIMB) * p + (n / LIMB) * (LIMB * p) == n * p
  {
    var q, r := n / LIMB, n % LIMB;
    assert n == q * LIMB + r;
    assert (q * LIMB + r) * p == q * (LIMB * p) + r * p;
  }

  // ---------- Increment and negation ----------

  lemma IncStep(before: seq<int>, after: seq<int>, x: seq<int>, i: nat)
    requires |before| == |after| == |x| && i < |x| && after == before[i := (x[i] + 1) % LIMB] && 0 <= x[i] < LIMB
    requires Value(before[..i], LIMB) + Pow(LIMB, i) == Value(x[..i], LIMB) + 1
    ensures Value(after[..i + 1], LIMB) + (if after[i] == 0 then 1 else 0) * Pow(LIMB, i + 1) ==
             Value(x[..i + 1], LIMB) + 1
  {
    assert after[..i] == before[..i];
    ValueSnoc(after, i, LIMB);
    ValueSnoc(x, i, LIMB);
    CarryOut(x[i] + 1, Pow(LIMB, i));
    assert (x[i] + 1) / LIMB == if after[i] == 0 then 1 else 0;
    assert (x[i] + 1) * Pow(LIMB, i) == x[i] * Pow(LIMB, i) + Pow(LIMB, i);
  }

  lemma FinishInc(limbs: seq<int>, x: seq<int>, i: nat)
    requires |limbs| == |x| && i < |x| && limbs[i + 1..] == x[i + 1..] && Digits(limbs, LIMB)
    requires limbs[i] != 0 || i == |x| - 1
    requires Value(limbs[..i + 1], LIMB) + (if limbs[i] == 0 then 1 else 0) * Pow(LIMB, i + 1) ==
              Value(x[..i + 1], LIMB) + 1
    ensures Value(limbs, LIMB) == (Value(x, LIMB) + 1) % Modulus(|x|)
  {
    hide Value, Pow;
    ValueSplit(limbs, i + 1, LIMB);
    ValueSplit(x, i + 1, LIMB);
    if limbs[i] != 0 {
      Truncated(limbs, Value(x, LIMB) + 1, 0);
    } else {
      Truncated(limbs, Value(x, LIMB) + 1, 1);
    }
  }

  lemma DecStart(x: seq<int>)
    ensures Value(x[..0], LIMB) == 0 && Pow(LIMB, 0) == 1
  {
  }

  lemma DecStep(before: seq<int>, after: seq<int>, x: seq<int>, i: nat)
    requires |before| == |after| == |x| && i < |x| && after == before[i := (x[i] - 1) % LIMB] && 0 <= x[i] < LIMB
    requires Value(before[..i], LIMB) - Pow(LIMB, i) == Value(x[..i], LIMB) - 1
    ensures Value(after[..i + 1], LIMB) - (if after[i] == LIMB - 1 then 1 else 0) * Pow(LIMB, i + 1) ==
             Value(x[..i + 1], LIMB) - 1
  {
    hide Value, Pow;
    assert after[..i] == before[..i];
    ValueSnoc(after, i, LIMB);
    ValueSnoc(x, i, LIMB);
    PowSucc(LIMB, i);
    var p := Pow(LIMB, i);
    if x[i] == 0 {
      assert after[i] == LIMB - 1;
      assert (LIMB - 1) * p == LIMB * p - p;
    } else {
      assert after[i] == x[i] - 1;
      assert (x[i] - 1) * p == x[i] * p - p;
    }
  }

  lemma FinishDec(limbs: seq<int>, x: seq<int>, i: nat)
    requires |limbs| == |x| && i < |x| && limbs[i + 1..] == x[i + 1..] && Digits(limbs, LIMB)
    requires limbs[i] != LIMB - 1 || i == |x| - 1
    requires Value(limbs[..i + 1], LIMB) - (if limbs[i] == LIMB - 1 then 1 else 0) * Pow(LIMB, i + 1) ==
              Value(x[..i + 1], LIMB) - 1
    ensures Value(limbs, LIMB) == (Value(x, LIMB) - 1) % Modulus(|x|)
  {
    hide Value, Pow;
    ValueSplit(limbs, i + 1, LIMB);
    ValueSplit(x, i + 1, LIMB);
    if limbs[i] != LIMB - 1 {
      Truncated(limbs, Value(x, LIMB) - 1, 0);
    } else {
      assert limbs[i + 1..] == [] == x[i + 1..];
      Truncated(limbs, Value(x, LIMB) - 1, -1);
    }
  }

  lemma {:induction false} Complement(x: seq<int>, y: seq<int>)
    requires |x| == |y| && Digits(x, LIMB) && forall i :: 0 <= i < |x| ==> y[i] == LIMB - 1 - x[i]
    ensures Digits(y, LIMB) && Value(y, LIMB) == Modulus(|x|) - 1 - Value(x, LIMB)
  {
    if x != [] {
      Complement(x[1..], y[1..]);
      var v, m := Value(x[1..], LIMB), Modulus(|x| - 1);
      assert LIMB * (m - 1 - v) == LIMB * m - LIMB - LIMB * v;
    }
  }

  lemma NegateMod(v: int, m: int)
    requires m > 0
    ensures (m - 1 - v + 1) % m == (-v) % m
  {
    ModShift(-v, 1, m);
  }

  lemma ModShift(v: int, k: int, m: int)
    requires m > 0
    ensures (v + k * m) % m == v % m
  {
    DivModUnique(v + k * m, m, v / m + k, v % m);
  }

  lemma AddMod(a: int, b: int, m: int)
    requires m > 0
    ensures (a + b % m) % m == (a + b) % m
  {
    assert b == b / m * m + b % m;
    ModShift(a + b % m, b / m, m);
  }

  // ---------- Multiplication ----------

  // No 64-bit overflow: carry + limb + limb * limb.
  lemma LimbProduct(a: int, b: int, carry: int, limb: int)
    requires 0 <= a < LIMB && 0 <= b < LIMB && 0 <= carry < LIMB && 0 <= limb < LIMB
    ensures 0 <= a * b && carry + limb + a * b < U64 && (carry + limb + a * b) / LIMB < LIMB
  {
    MulMono(0, a, b);
    MulMono(a, LIMB - 1, b);
    MulMono(b, LIMB - 1, LIMB - 1);
  }

  lemma ScaleStep(before: seq<int>, after: seq<int>, x: seq<int>, c: int, i: nat, n: int)
    requires |before| == |after| == |x| && i < |x| && after == before[i := n % LIMB]
    requires Value(before[..i], LIMB) + (n - c * x[i]) * Pow(LIMB, i) == c * Value(x[..i], LIMB)
    ensures Value(after[..i + 1], LIMB) + n / LIMB * Pow(LIMB, i + 1) == c * Value(x[..i + 1], LIMB)
  {
    assert after[..i] == before[..i];
    ValueSnoc(after, i, LIMB);
    ValueSnoc(x, i, LIMB);
    var p := Pow(LIMB, i);
    CarryOut(n, p);
    Distribute(n, c, x[i], p, Value(x[..i], LIMB));
  }

  lemma Distribute(n: int, c: int, d: int, p: int, v: int)
    ensures (n - c * d) * p == n * p - c * (d * p)
    ensures c * (v + d * p) == c * v + c * (d * p)
  {
  }

  lemma RowStart(p0: seq<int>, c: int, j: nat)
    requires j <= |p0|
    ensures Value([], LIMB) == 0
    ensures Value(p0[..j], LIMB) + 0 * Pow(LIMB, j) == Value(p0[..j], LIMB) + c * Value([], LIMB) * Pow(LIMB, j)
  {
    assert c * Value([], LIMB) == 0;
  }

  lemma RowStep(before: seq<int>, after: seq<int>, p0: seq<int>, c: int, y: seq<int>, i: nat, j: nat, carry: int,
      n: int)
    requires |before| == |after| == |p0| == |y| && i + j < |y|
    requires after == before[i + j := n % LIMB] && n == carry + p0[i + j] + c * y[i]
    requires Value(before[..i + j], LIMB) + carry * Pow(LIMB, i + j) ==
              Value(p0[..i + j], LIMB) + c * Value(y[..i], LIMB) * Pow(LIMB, j)
    ensures Value(after[..i + j + 1], LIMB) + n / LIMB * Pow(LIMB, i + j + 1) ==
            Value(p0[..i + j + 1], LIMB) + c * Value(y[..i + 1], LIMB) * Pow(LIMB, j)
  {
    assert after[..i + j] == before[..i + j];
    ValueSnoc(after, i + j, LIMB);
    ValueSnoc(p0, i + j, LIMB);
    ValueSnoc(y, i, LIMB);
    PowAdd(LIMB, i, j);
    CarryOut(n, Pow(LIMB, i + j));
    RowAlgebra(c, y[i], Value(y[..i], LIMB), Pow(LIMB, i), Pow(LIMB, j), carry, p0[i + j]);
  }

  lemma RowAlgebra(c: int, d: int, v: int, pi: int, pj: int, carry: int, limb: int)
    ensures c * (v + d * pi) * pj == c * v * pj + c * d * (pi * pj)
    ensures (carry + limb + c * d) * (pi * pj) == carry * (pi * pj) + limb * (pi * pj) + c * d * (pi * pj)
  {
    assert c * (v + d * pi) == c * v + c * d * pi;
    assert (c * v + c * d * pi) * pj == c * v * pj + c * d * pi * pj;
    assert c * d * pi * pj == c * d * (pi * pj);
  }

  /** After row j the limbs hold x[..j+1] * y up to multiples of the modulus. */
  lemma RowDone(p0: seq<int>, p: seq<int>, x: seq<int>, y: seq<int>, j: nat, carry: int, over: int) returns (over': int)
    requires |p0| == |p| == |x| == |y| && j < |x|
    requires Value(p0, LIMB) + over * Modulus(|x|) == Value(x[..j], LIMB) * Value(y, LIMB)
    requires Value(p, LIMB) + carry * Modulus(|x|) == Value(p0, LIMB) + x[j] * Value(y[..|x| - j], LIMB) * Pow(LIMB, j)
    ensures Value(p, LIMB) + over' * Modulus(|x|) == Value(x[..j + 1], LIMB) * Value(y, LIMB)
  {
    var w := |x|;
    ValueSnoc(x, j, LIMB);
    ValueSplit(y, w - j, LIMB);
    PowAdd(LIMB, w - j, j);
    var lo, hi := Value(y[..w - j], LIMB), Value(y[w - j..], LIMB);
    over' := over + carry + x[j] * hi;
    RowSum(Value(x[..j], LIMB), x[j], Pow(LIMB, j), lo, hi, Pow(LIMB, w - j));
    SplitOver(over, carry, x[j] * hi, Modulus(w));
  }

  lemma RowSum(v: int, d: int, pj: int, lo: int, hi: int, pk: int)
    ensures (v + d * pj) * (lo + pk * hi) == v * (lo + pk * hi) + d * lo * pj + d * hi * (pk * pj)
  {
    var t := lo + pk * hi;
    assert (v + d * pj) * t == v * t + d * pj * t;
    assert d * pj * t == d * pj * lo + d * pj * (pk * hi);
    assert d * pj * lo == d * lo * pj;
    assert d * pj * (pk * hi) == d * hi * (pk * pj);
  }

  lemma SplitOver(a: int, b: int, c: int, m: int)
    ensures (a + b + c) * m == a * m + b * m + c * m
  {
  }

  // ---------- Right shift ----------

  /** The limbs of x from k on, m of them, divided by 2^s. */
  ghost predicate ShiftedDown(limbs: seq<int>, x: seq<int>, k: nat, s: nat, m: nat) {
    && |limbs| == |x| && s < 32 && 1 <= m && m + k <= |x|
    && (forall t :: m <= t < |limbs| ==> limbs[t] == 0)
    && limbs[m - 1] == x[k + m - 1] / Pow(2, s)
    && Value(limbs[..m], LIMB) == Value(x[k..k + m], LIMB) / Pow(2, s)
  }

  // The low part of limb k+m goes on top of what limb k+m-1 left.
  lemma DownCells(limbs: seq<int>, x: seq<int>, k: nat, s: nat, m: nat)
    requires m + k < |x| && Digits(x, LIMB) && ShiftedDown(limbs, x, k, s, m) && 0 < s
    ensures var lo := (x[k + m] * Pow(2, 32 - s)) % LIMB;
            limbs[m - 1] >= 0 && BitOr(limbs[m - 1], lo) == limbs[m - 1] + lo < LIMB
  {
    hide Value, Pow, BitOr;
    var v := x[k + m - 1];
    LimbShift(v, 32 - s);
    LimbShift(x[k + m], 32 - s);
    BitOrDisjoint(Lo(x[k + m], 32 - s), v / Pow(2, s), 32 - s);
    LoFits(x[k + m], 32 - s, v / Pow(2, s));
  }

  lemma DownTop(limbs: seq<int>, x: seq<int>, k: nat, s: nat, m: nat)
    requires m + k < |x| && |limbs| == |x| && Digits(x, LIMB) && s < 32
    requires m == 0 ==> limbs[0] == 0
    requires m > 0 ==> ShiftedDown(limbs, x, k, s, m)
    ensures limbs[m] == 0 && 0 <= x[k + m] / Pow(2, s) < LIMB
    ensures BitOr(0, x[k + m] / Pow(2, s)) == x[k + m] / Pow(2, s)
  {
    hide Value, Pow, BitOr;
    var v, p := x[k + m], Pow(2, s);
    BitOrZero(v / p);
    DivAtMost(v, p);
  }

  lemma DivAtMost(v: nat, p: nat)
    requires p > 0
    ensures 0 <= v / p <= v
  {
    var q := v / p;
    assert q * p <= v;
    MulMono(1, p, q);
  }

  lemma DownStep(before: seq<int>, after: seq<int>, x: seq<int>, k: nat, s: nat, m: nat)
    requires |before| == |after| == |x| && m + k < |x| && Digits(x, LIMB) && s < 32
    requires m == 0 ==> forall t :: 0 <= t < |x| ==> before[t] == 0
    requires m > 0 ==> ShiftedDown(before, x, k, s, m)
    requires after[m] == x[k + m] / Pow(2, s)
    requires m > 0 ==> after[m - 1] == before[m - 1] + if s == 0 then 0 else (x[k + m] * Pow(2, 32 - s)) % LIMB
    requires forall t :: 0 <= t < |x| && t != m && t != m - 1 ==> after[t] == before[t]
    ensures ShiftedDown(after, x, k, s, m + 1)
  {
    hide Value, Pow;
    if m == 0 {
      assert after[..1] == [after[0]] && x[k..k + 1] == [x[k]];
      ValueOne(after[0], LIMB);
      ValueOne(x[k], LIMB);
    } else {
      DownValue(before, after, x, k, s, m);
    }
  }

  lemma DownValue(before: seq<int>, after: seq<int>, x: seq<int>, k: nat, s: nat, m: nat)
    requires |before| == |after| == |x| && 0 < m && m + k < |x| && Digits(x, LIMB) && ShiftedDown(before, x, k, s, m)
    requires after[m] == x[k + m] / Pow(2, s)
    requires after[m - 1] == before[m - 1] + if s == 0 then 0 else (x[k + m] * Pow(2, 32 - s)) % LIMB
    requires forall t :: 0 <= t < |x| && t != m && t != m - 1 ==> after[t] == before[t]
    ensures Value(after[..m + 1], LIMB) == Value(x[k..k + m + 1], LIMB) / Pow(2, s)
  {
    hide Value, Pow;
    var v := x[k + m];
    assert after[..m - 1] == before[..m - 1];
    ValueSnoc(after, m, LIMB);
    ValueSnoc(after, m - 1, LIMB);
    ValueSnoc(before, m - 1, LIMB);
    var low := x[k..];
    assert low[..m] == x[k..k + m] && low[..m + 1] == x[k..k + m + 1] && low[m] == v;
    ValueSnoc(low, m, LIMB);
    PowSucc(LIMB, m - 1);
    if s == 0 {
      PowZero(2);
    } else {
      LimbShift(v, 32 - s);
      LimbIsPower();
      PowAdd(2, s, 32 - s);
      DownAlgebra(Value(low[..m], LIMB), v, Pow(2, s), Pow(2, 32 - s), Pow(LIMB, m - 1));
      var lo := (v * Pow(2, 32 - s)) % LIMB;
      assert (before[m - 1] + lo) * Pow(LIMB, m - 1) == before[m - 1] * Pow(LIMB, m - 1) + lo * Pow(LIMB, m - 1);
    }
  }

  lemma DownAlgebra(t: int, v: int, p: nat, q: nat, u: int)
    requires p > 0 && p * q == LIMB && v * q == (v * q) % LIMB + v / p * LIMB
    ensures (t + v * (LIMB * u)) / p == t / p + (v * q) % LIMB * u + v / p * (LIMB * u)
  {
    var lo, hi := (v * q) % LIMB, v / p;
    assert v * (LIMB * u) == v * (p * q * u) == (v * q * u) * p;
    assert v * q * u == (lo + hi * LIMB) * u == lo * u + hi * (LIMB * u);
    assert t == t / p * p + t % p;
    var r := t / p + v * q * u;
    assert r * p == t / p * p + (v * q * u) * p;
    DivModUnique(t + v * (LIMB * u), p, r, t % p);
  }

  lemma DownDone(limbs: seq<int>, x: seq<int>, k: nat, s: nat, shift: nat)
    requires |limbs| == |x| && Digits(x, LIMB) && s < 32 && shift == 32 * k + s
    requires |x| <= k ==> forall t :: 0 <= t < |x| ==> limbs[t] == 0
    requires |x| > k ==> ShiftedDown(limbs, x, k, s, |x| - k)
    ensures Value(limbs, LIMB) == Value(x, LIMB) / Pow(2, shift)
  {
    hide Value, Pow, ShiftedDown;
    ShiftPower(k, s);
    if |x| <= k { DownAllOut(limbs, x, k, Pow(2, s)); } else { DownRest(limbs, x, k, s); }
  }

  lemma DownAllOut(limbs: seq<int>, x: seq<int>, k: nat, q: nat)
    requires |limbs| == |x| <= k && Digits(x, LIMB) && q > 0 && forall t :: 0 <= t < |x| ==> limbs[t] == 0
    ensures Pow(LIMB, k) * q > 0 && Value(limbs, LIMB) == Value(x, LIMB) / (Pow(LIMB, k) * q)
  {
    hide Value, Pow;
    ValueZeros(limbs, LIMB);
    ValueBound(x, LIMB);
    PowMono(LIMB, |x|, k);
    MulMono(1, q, Pow(LIMB, k));
    DivModUnique(Value(x, LIMB), Pow(LIMB, k) * q, 0, Value(x, LIMB));
  }

  lemma DownRest(limbs: seq<int>, x: seq<int>, k: nat, s: nat)
    requires |limbs| == |x| > k && Digits(x, LIMB) && s < 32 && ShiftedDown(limbs, x, k, s, |x| - k)
    ensures Pow(LIMB, k) * Pow(2, s) > 0 && Value(limbs, LIMB) == Value(x, LIMB) / (Pow(LIMB, k) * Pow(2, s))
  {
    hide Value, Pow;
    ValueHighZeros(limbs, |x| - k, LIMB);
    assert x[k..k + (|x| - k)] == x[k..];
    DivideBelow(x, k, Pow(2, s));
  }

  lemma DivideBelow(x: seq<int>, k: nat, q: nat)
    requires k <= |x| && Digits(x, LIMB) && q > 0
    ensures Pow(LIMB, k) * q > 0 && Value(x, LIMB) / (Pow(LIMB, k) * q) == Value(x[k..], LIMB) / q
  {
    hide Value, Pow;
    ValueSplit(x, k, LIMB);
    ValueBound(x[..k], LIMB);
    NestedDivision(Value(x[..k], LIMB), Value(x[k..], LIMB), Pow(LIMB, k), q);
  }

  lemma NestedDivision(lo: int, hi: int, p: nat, q: nat)
    requires p > 0 && q > 0 && 0 <= lo < p
    ensures p * q > 0 && (lo + p * hi) / (p * q) == hi / q
  {
    MulStrict(0, q, p);
    var d, r := hi / q, hi % q;
    assert hi == d * q + r;
    assert p * hi == d * (p * q) + p * r;
    MulMono(0, r, p);
    MulMono(r, q - 1, p);
    assert p * (q - 1) == p * q - p;
    DivModUnique(lo + p * hi, p * q, d, lo + p * r);
  }

  // ---------- Comparison and length ----------

  lemma TopDecides(x: seq<int>, y: seq<int>, i: nat)
    requires |x| == |y| && i < |x| && Digits(x, LIMB) && Digits(y, LIMB) && x[i] < y[i]
    requires forall t :: i < t < |x| ==> x[t] == y[t]
    ensures Value(x, LIMB) < Value(y, LIMB)
  {
    hide Value, Pow;
    assert x[i + 1..] == y[i + 1..];
    ValueSplit(x, i + 1, LIMB);
    ValueSplit(y, i + 1, LIMB);
    ValueSnoc(x, i, LIMB);
    ValueSnoc(y, i, LIMB);
    ValueBound(x[..i], LIMB);
    ValueBound(y[..i], LIMB);
    MulMono(x[i] + 1, y[i], Pow(LIMB, i));
    assert (x[i] + 1) * Pow(LIMB, i) == x[i] * Pow(LIMB, i) + Pow(LIMB, i);
  }

  lemma BitClear(v: nat, p: nat)
    requires p > 0 && v < 2 * p && v / p % 2 != 1
    ensures v < p
  {
    var q := v / p;
    assert v == q * p + v % p;
    if q >= 2 { MulMono(2, q, p); }
    assert q == 0;
  }

  lemma BitsFound(x: seq<int>, pos: nat, bits: nat)
    requires Digits(x, LIMB) && pos < |x| && bits <= 31 && forall t :: pos < t < |x| ==> x[t] == 0
    requires x[pos] < Pow(2, bits + 1)
    requires if bits == 0 then x[pos] != 0 else x[pos] / Pow(2, bits) % 2 == 1
    ensures Pow(2, 32 * pos + bits) <= Value(x, LIMB) < Pow(2, 32 * pos + bits + 1)
  {
    hide Value, Pow;
    var v := x[pos];
    if bits == 0 { PowZero(2); } else { DivPositive(v, Pow(2, bits)); }
    ShiftPower(pos, bits);
    ShiftPower(pos, bits + 1);
    ValueSplit(x, pos + 1, LIMB);
    ValueZeros(x[pos + 1..], LIMB);
    ValueSnoc(x, pos, LIMB);
    ValueBound(x[..pos], LIMB);
    var p := Pow(LIMB, pos);
    MulMono(Pow(2, bits), v, p);
    MulMono(v + 1, Pow(2, bits + 1), p);
    assert (v + 1) * p == v * p + p;
  }

  lemma DivPositive(v: nat, p: nat)
    requires p > 0 && v / p % 2 == 1
    ensures p <= v
  {
    var q := v / p;
    assert v == q * p + v % p;
    MulMono(1, q, p);
  }

  // ---------- Division ----------

  lemma QuotientZero(n: int, d: int, numBits: nat, divBits: nat)
    requires divBits > numBits && Pow(2, divBits - 1) <= d && 0 <= n
    requires if numBits == 0 then n == 0 else n < Pow(2, numBits)
    ensures d > 0 && n / d == 0
  {
    hide Pow;
    PowMono(2, numBits, divBits - 1);
    DivModUnique(n, d, 0, n);
  }

  lemma AlignFits(n: int, d: int, numBits: nat, divBits: nat, width: nat)
    requires 0 < divBits <= numBits <= 32 * width && 0 <= n < Pow(2, numBits)
    requires Pow(2, divBits - 1) <= d < Pow(2, divBits)
    ensures (d * Pow(2, numBits - divBits)) % Modulus(width) == d * Pow(2, numBits - divBits)
    ensures n < d * Pow(2, numBits - divBits + 1)
  {
    hide Pow;
    var shift := numBits - divBits;
    ShiftPower(width, 0);
    PowZero(2);
    PowMono(2, numBits, 32 * width);
    PowAdd(2, divBits, shift);
    MulStrict(d, Pow(2, divBits), Pow(2, shift));
    MulMono(0, d, Pow(2, shift));
    DivModUnique(d * Pow(2, shift), Modulus(width), 0, d * Pow(2, shift));
    PowAdd(2, divBits - 1, shift + 1);
    MulMono(Pow(2, divBits - 1), d, Pow(2, shift + 1));
  }

  lemma NoBorrow(a: int, b: int, m: int)
    requires 0 <= b <= a < m
    ensures (a - b) % m == a - b
  {
    DivModUnique(a - b, m, 0, a - b);
  }

  lemma QuotientStep(q: int, d: int, p: int)
    ensures (q + p) * d == q * d + d * p && d * (2 * p) - d * p == d * p
  {
  }

  lemma HalveShift(d: int, shift: nat)
    ensures shift >= 1 ==> d * Pow(2, shift) / Pow(2, 1) == d * Pow(2, shift - 1)
    ensures Pow(2, 1) == 2
  {
    hide Pow;
    PowSucc(2, 0);
    PowZero(2);
    if shift >= 1 {
      PowSucc(2, shift - 1);
      var p := Pow(2, shift - 1);
      assert d * (2 * p) == (d * p) * 2;
      DivModUnique(d * (2 * p), 2, d * p, 0);
    }
  }

  /** All bits below n are zero. */
  ghost predicate LowClear(limbs: seq<int>, n: nat) {
    && Digits(limbs, LIMB)
    && (forall x :: 0 <= x < |limbs| && 32 * x + 32 <= n ==> limbs[x] == 0)
    && (forall x :: 0 <= x < |limbs| && 32 * x < n < 32 * x + 32 ==> limbs[x] % Pow(2, n - 32 * x) == 0)
  }

  lemma ClearIsDigits(limbs: seq<int>, n: nat)
    requires LowClear(limbs, n)
    ensures Digits(limbs, LIMB)
  {
  }

  lemma ZeroLowClear(limbs: seq<int>, n: nat)
    requires forall x :: 0 <= x < |limbs| ==> limbs[x] == 0
    ensures LowClear(limbs, n)
  {
    hide Pow;
    forall x | 0 <= x < |limbs| && 32 * x < n < 32 * x + 32 ensures limbs[x] % Pow(2, n - 32 * x) == 0 {
      ZeroMod(Pow(2, n - 32 * x));
    }
  }

  lemma ZeroMod(p: nat)
    requires p > 0
    ensures 0 % p == 0
  {
    DivModUnique(0, p, 0, 0);
  }

  // The limb that holds bit n has no bits below or at it.
  lemma LimbClear(limbs: seq<int>, n: nat)
    requires LowClear(limbs, n + 1) && n / 32 < |limbs|
    ensures limbs[n / 32] % Pow(2, n % 32 + 1) == 0
  {
    hide Pow;
    var q, r := n / 32, n % 32;
    if r == 31 {
      assert 32 * q + 32 <= n + 1;
      ZeroMod(Pow(2, r + 1));
    } else {
      assert 32 * q < n + 1 < 32 * q + 32 && n + 1 - 32 * q == r + 1;
    }
  }

  lemma LowClearLess(limbs: seq<int>, n: nat)
    requires LowClear(limbs, n + 1)
    ensures LowClear(limbs, n)
  {
    hide Pow;
    forall x | 0 <= x < |limbs| && 32 * x < n < 32 * x + 32 ensures limbs[x] % Pow(2, n - 32 * x) == 0 {
      LimbClear(limbs, n);
      PowSucc(2, n % 32);
      HalfModulus(limbs[x], Pow(2, n % 32));
    }
  }

  lemma HalfModulus(v: nat, p: nat)
    requires p > 0 && v % (2 * p) == 0
    ensures v % p == 0
  {
    var q := v / (2 * p);
    assert v == q * (2 * p) == (2 * q) * p;
    DivModUnique(v, p, 2 * q, 0);
  }

  /** Setting a bit that is clear, with all below it clear too, adds its weight. */
  lemma SetBit(limbs: seq<int>, n: nat)
    requires LowClear(limbs, n + 1) && n / 32 < |limbs|
    ensures limbs[n / 32] >= 0
    ensures var after := limbs[n / 32 := BitOr(limbs[n / 32], Pow(2, n % 32))];
            && LowClear(after, n)
            && Value(after, LIMB) == Value(limbs, LIMB) + Pow(2, n)
  {
    hide Pow, Value, BitOr;
    var q, r := n / 32, n % 32;
    var v, p := limbs[q], Pow(2, r);
    LimbClear(limbs, n);
    PowSucc(2, r);
    BitOrDisjoint(v, p, r + 1);
    LimbIsPower();
    PowAdd(2, r + 1, 31 - r);
    RoomForBit(v, p, Pow(2, 31 - r));
    var after := limbs[q := v + p];
    ReplaceLimb(limbs, after, q);
    ShiftPower(q, r);
    assert Pow(LIMB, q) * p == p * Pow(LIMB, q);
    BitLowClear(limbs, after, n);
  }

  lemma RoomForBit(v: nat, p: nat, k: nat)
    requires p > 0 && v < LIMB && v % (2 * p) == 0 && 2 * p * k == LIMB
    ensures v + p < LIMB && (v + p) % p == 0
  {
    var q := v / (2 * p);
    assert v == q * (2 * p);
    if q >= k { MulMono(k, q, 2 * p); }
    MulMono(q + 1, k, 2 * p);
    assert (q + 1) * (2 * p) == v + 2 * p;
    assert v + p == (2 * q + 1) * p;
    DivModUnique(v + p, p, 2 * q + 1, 0);
  }

  lemma ReplaceLimb(before: seq<int>, after: seq<int>, i: nat)
    requires |before| == |after| && i < |before| && after == before[i := after[i]]
    ensures Value(after, LIMB) == Value(before, LIMB) + (after[i] - before[i]) * Pow(LIMB, i)
  {
    hide Value, Pow;
    assert after[..i] == before[..i] && after[i + 1..] == before[i + 1..];
    ValueSplit(before, i + 1, LIMB);
    ValueSplit(after, i + 1, LIMB);
    ValueSnoc(before, i, LIMB);
    ValueSnoc(after, i, LIMB);
    assert (after[i] - before[i]) * Pow(LIMB, i) == after[i] * Pow(LIMB, i) - before[i] * Pow(LIMB, i);
  }

  lemma BitLowClear(limbs: seq<int>, after: seq<int>, n: nat)
    requires LowClear(limbs, n + 1) && n / 32 < |limbs| == |after| && 0 <= after[n / 32] < LIMB
    requires after == limbs[n / 32 := after[n / 32]] && after[n / 32] % Pow(2, n % 32) == 0
    ensures LowClear(after, n)
  {
    hide Pow;
    forall x | 0 <= x < |after| && 32 * x < n < 32 * x + 32 ensures after[x] % Pow(2, n - 32 * x) == 0 {
      assert x == n / 32 && n - 32 * x == n % 32;
    }
  }
}
