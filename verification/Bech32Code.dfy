/** The Bech32 checksum as a linear code (PolyMod in src/bech32.cpp). */
module Bech32Code {
  // States of the checksum hold six symbols of five bits.
  const STATES: bv32 := 0x4000_0000

  // Addition of polynomials over GF(32), packed and by the symbol.
  function Plus(c: bv32, d: bv32): bv32 { c ^ d }
  function PlusSymbol(v: bv8, w: bv8): bv8 { v ^ w }

  predicate Has(c0: bv32, mask: bv32) { c0 & mask != 0 }

  // One conditional addition of {mask} * k(x).
  function AddIf(c: bv32, c0: bv32, mask: bv32, k: bv32): bv32 {
    if Has(c0, mask) then Plus(c, k) else c
  }

  // c1 * x^5 + ... + c5 * x + v
  function Shifted(c: bv32, v: bv8): bv32 {
    ((c & 0x1ff_ffff) << 5) ^ (v as bv32)
  }

  /** One round of PolyMod: c(x) * x + v mod g(x). */
  function Step(c: bv32, v: bv8): bv32 {
    var c0 := c >> 25;
    var c1 := AddIf(Shifted(c, v), c0, 1, 0x3b6a_57b2);
    var c2 := AddIf(c1, c0, 2, 0x2650_8e6d);
    var c3 := AddIf(c2, c0, 4, 0x1ea1_19fa);
    var c4 := AddIf(c3, c0, 8, 0x3d42_33dd);
    AddIf(c4, c0, 16, 0x2a14_62b3)
  }

  function Run(c: bv32, v: seq<bv8>): bv32
    decreases |v|
  {
    if v == [] then c else Run(Step(c, v[0]), v[1..])
  }

  /** The loop of PolyMod. */
  method PolyMod(v: seq<bv8>) returns (c: bv32)
    ensures c == Run(1, v)
  {
    hide Step;
    c := 1;
    for i := 0 to |v|
      invariant Run(1, v) == Run(c, v[i..])
    {
      c := Step(c, v[i]);
      assert v[i..][1..] == v[i + 1..];
    }
    assert v[|v|..] == [];
  }

  lemma {:induction false} RunAppend(c: bv32, v: seq<bv8>, w: seq<bv8>)
    ensures Run(c, v + w) == Run(Run(c, v), w)
    decreases |v|
  {
    hide Step;
    if v == [] {
      assert v + w == w;
    } else {
      assert (v + w)[1..] == v[1..] + w;
      RunAppend(Step(c, v[0]), v[1..], w);
    }
  }

  // ---------- Linearity ----------

  predicate OneBit(mask: bv32) {
    mask == 1 || mask == 2 || mask == 4 || mask == 8 || mask == 16
  }

  lemma HasLinear(a: bv32, b: bv32, mask: bv32)
    requires OneBit(mask)
    ensures Has(Plus(a, b), mask) <==> Has(a, mask) != Has(b, mask)
  {
    if mask == 1 { assert (a ^ b) & 1 != 0 <==> (a & 1 != 0) != (b & 1 != 0); }
    else if mask == 2 { assert (a ^ b) & 2 != 0 <==> (a & 2 != 0) != (b & 2 != 0); }
    else if mask == 4 { assert (a ^ b) & 4 != 0 <==> (a & 4 != 0) != (b & 4 != 0); }
    else if mask == 8 { assert (a ^ b) & 8 != 0 <==> (a & 8 != 0) != (b & 8 != 0); }
    else { assert (a ^ b) & 16 != 0 <==> (a & 16 != 0) != (b & 16 != 0); }
  }

  lemma XorAssociative(c: bv32, d: bv32, e: bv32)
    ensures c ^ (d ^ e) == (c ^ d) ^ e
  {
  }

  lemma PlusAssociative(c: bv32, d: bv32, e: bv32)
    ensures Plus(c, Plus(d, e)) == Plus(Plus(c, d), e)
  {
    XorAssociative(c, d, e);
  }

  lemma PlusCommutes(c: bv32, d: bv32)
    ensures Plus(c, d) == Plus(d, c)
  {
  }

  lemma PlusZero(c: bv32)
    ensures Plus(c, 0) == c && Plus(c, c) == 0
  {
  }

  lemma PlusFacts(c: bv32, d: bv32, k: bv32)
    ensures Plus(Plus(c, k), d) == Plus(Plus(c, d), k) && Plus(c, Plus(d, k)) == Plus(Plus(c, d), k)
    ensures Plus(Plus(c, k), Plus(d, k)) == Plus(c, d)
  {
    hide Plus;
    PlusAssociative(c, d, k);
    PlusAssociative(c, k, d);
    PlusCommutes(k, d);
    PlusAssociative(Plus(c, k), d, k);
    PlusAssociative(Plus(c, d), k, k);
    PlusZero(k);
    PlusZero(Plus(c, d));
  }

  lemma AddIfLinear(c: bv32, d: bv32, a: bv32, b: bv32, mask: bv32, k: bv32)
    requires OneBit(mask)
    ensures AddIf(Plus(c, d), Plus(a, b), mask, k) == Plus(AddIf(c, a, mask, k), AddIf(d, b, mask, k))
  {
    hide Has, OneBit, Plus;
    HasLinear(a, b, mask);
    PlusFacts(c, d, k);
  }

  lemma ShiftedLinear(c: bv32, d: bv32, v: bv8, w: bv8)
    ensures Shifted(Plus(c, d), PlusSymbol(v, w)) == Plus(Shifted(c, v), Shifted(d, w))
    ensures Plus(c, d) >> 25 == Plus(c >> 25, d >> 25)
  {
  }

  lemma StepLinear(c: bv32, d: bv32, v: bv8, w: bv8)
    ensures Step(Plus(c, d), PlusSymbol(v, w)) == Plus(Step(c, v), Step(d, w))
  {
    hide AddIf, Shifted, Plus, PlusSymbol;
    ShiftedLinear(c, d, v, w);
    var a, b := c >> 25, d >> 25;
    var c0, d0 := Shifted(c, v), Shifted(d, w);
    AddIfLinear(c0, d0, a, b, 1, 0x3b6a_57b2);
    var c1, d1 := AddIf(c0, a, 1, 0x3b6a_57b2), AddIf(d0, b, 1, 0x3b6a_57b2);
    AddIfLinear(c1, d1, a, b, 2, 0x2650_8e6d);
    var c2, d2 := AddIf(c1, a, 2, 0x2650_8e6d), AddIf(d1, b, 2, 0x2650_8e6d);
    AddIfLinear(c2, d2, a, b, 4, 0x1ea1_19fa);
    var c3, d3 := AddIf(c2, a, 4, 0x1ea1_19fa), AddIf(d2, b, 4, 0x1ea1_19fa);
    AddIfLinear(c3, d3, a, b, 8, 0x3d42_33dd);
    var c4, d4 := AddIf(c3, a, 8, 0x3d42_33dd), AddIf(d3, b, 8, 0x3d42_33dd);
    AddIfLinear(c4, d4, a, b, 16, 0x2a14_62b3);
  }

  lemma AddIfRange(c: bv32, c0: bv32, mask: bv32, k: bv32)
    requires c < STATES && k < STATES
    ensures AddIf(c, c0, mask, k) < STATES
  {
    hide Has;
  }

  lemma ShiftedRange(c: bv32, v: bv8)
    ensures Shifted(c, v) < STATES
  {
  }

  lemma StepRange(c: bv32, v: bv8)
    ensures Step(c, v) < STATES
  {
    hide AddIf, Shifted;
    var c0 := c >> 25;
    var d0 := Shifted(c, v);
    ShiftedRange(c, v);
    AddIfRange(d0, c0, 1, 0x3b6a_57b2);
    var d1 := AddIf(d0, c0, 1, 0x3b6a_57b2);
    AddIfRange(d1, c0, 2, 0x2650_8e6d);
    var d2 := AddIf(d1, c0, 2, 0x2650_8e6d);
    AddIfRange(d2, c0, 4, 0x1ea1_19fa);
    var d3 := AddIf(d2, c0, 4, 0x1ea1_19fa);
    AddIfRange(d3, c0, 8, 0x3d42_33dd);
    var d4 := AddIf(d3, c0, 8, 0x3d42_33dd);
    AddIfRange(d4, c0, 16, 0x2a14_62b3);
  }

  lemma StepInjective(c: bv32)
    requires c < STATES && c != 0
    ensures Step(c, 0) != 0
  {
  }

  function Sum(v: seq<bv8>, w: seq<bv8>): seq<bv8>
    requires |v| == |w|
  {
    seq(|v|, i requires 0 <= i < |v| => PlusSymbol(v[i], w[i]))
  }

  /** PolyMod's loop is linear in its start state and its input together. */
  lemma {:induction false} RunLinear(c: bv32, d: bv32, v: seq<bv8>, w: seq<bv8>)
    requires |v| == |w|
    ensures Run(Plus(c, d), Sum(v, w)) == Plus(Run(c, v), Run(d, w))
    decreases |v|
  {
    hide Step, Plus, PlusSymbol;
    if v != [] {
      StepLinear(c, d, v[0], w[0]);
      assert Sum(v, w)[1..] == Sum(v[1..], w[1..]);
      RunLinear(Step(c, v[0]), Step(d, w[0]), v[1..], w[1..]);
    }
  }

  // ---------- Bursts ----------

  predicate Symbols(v: seq<bv8>) {
    forall i :: 0 <= i < |v| ==> v[i] < 32
  }

  predicate AllZero(v: seq<bv8>) {
    forall i :: 0 <= i < |v| ==> v[i] == 0
  }

  // The bound on a state that has taken k symbols since zero.
  function Capacity(k: nat): bv32 {
    if k == 0 then 1 else if k == 1 then 0x20 else if k == 2 then 0x400 else if k == 3 then 0x8000
    else if k == 4 then 0x10_0000 else if k == 5 then 0x200_0000 else STATES
  }

  lemma AddIfNothing(c: bv32, mask: bv32, k: bv32)
    ensures AddIf(c, 0, mask, k) == c
  {
  }

  // With the top symbol zero, a step is a shift.
  lemma StepIsShift(c: bv32, v: bv8)
    requires c < 0x200_0000
    ensures Step(c, v) == Shifted(c, v)
  {
    hide AddIf, Shifted;
    assert c >> 25 == 0;
    var d := Shifted(c, v);
    AddIfNothing(d, 1, 0x3b6a_57b2);
    AddIfNothing(d, 2, 0x2650_8e6d);
    AddIfNothing(d, 4, 0x1ea1_19fa);
    AddIfNothing(d, 8, 0x3d42_33dd);
    AddIfNothing(d, 16, 0x2a14_62b3);
  }

  lemma ShiftGrows(c: bv32, v: bv8)
    requires c < 0x200_0000 && v < 32
    ensures Shifted(c, v) == 0 <==> c == 0 && v == 0
    ensures c < 1 ==> Shifted(c, v) < 0x20
    ensures c < 0x20 ==> Shifted(c, v) < 0x400
    ensures c < 0x400 ==> Shifted(c, v) < 0x8000
    ensures c < 0x8000 ==> Shifted(c, v) < 0x10_0000
    ensures c < 0x10_0000 ==> Shifted(c, v) < 0x200_0000
    ensures Shifted(c, v) < STATES
  {
  }

  lemma SmallStep(c: bv32, v: bv8, k: nat)
    requires k < 6 && c < Capacity(k) && v < 32
    ensures Step(c, v) < Capacity(k + 1) && (Step(c, v) == 0 <==> c == 0 && v == 0)
  {
    hide Step, Shifted;
    assert c < 0x200_0000;
    StepIsShift(c, v);
    ShiftGrows(c, v);
  }

  /** Six symbols from zero do not cancel. */
  lemma {:induction false} BurstNonzero(c: bv32, v: seq<bv8>, k: nat)
    requires k + |v| <= 6 && c < Capacity(k) && Symbols(v)
    ensures Run(c, v) < STATES && (Run(c, v) == 0 <==> c == 0 && AllZero(v))
    decreases |v|
  {
    hide Step;
    if v == [] {
      CapacityBound(k);
    } else {
      SmallStep(c, v[0], k);
      BurstNonzero(Step(c, v[0]), v[1..], k + 1);
      assert AllZero(v) <==> v[0] == 0 && AllZero(v[1..]) by {
        assert AllZero(v[1..]) ==> forall i :: 1 <= i < |v| ==> v[1..][i - 1] == v[i];
      }
    }
  }

  lemma CapacityBound(k: nat)
    ensures Capacity(k) <= STATES
  {
  }

  /** A difference never fades over equal symbols. */
  lemma {:induction false} ZerosKeep(c: bv32, v: seq<bv8>)
    requires c < STATES && AllZero(v)
    ensures Run(c, v) == 0 <==> c == 0
    decreases |v|
  {
    hide Step;
    if v != [] {
      StepRange(c, 0);
      if c != 0 { StepInjective(c); } else { ZeroStep(); }
      ZerosKeep(Step(c, 0), v[1..]);
    }
  }

  lemma ZeroStep()
    ensures Step(0, 0) == 0
  {
  }

  /** A difference pattern confined to six consecutive symbols and not zero there has a non-zero remainder. */
  lemma BurstDetected(e: seq<bv8>, i: nat, j: nat)
    requires i <= j <= |e| && j - i <= 6 && Symbols(e)
    requires AllZero(e[..i]) && AllZero(e[j..]) && !AllZero(e[i..j])
    ensures Run(0, e) != 0
  {
    hide Step, Run;
    assert e == e[..i] + (e[i..j] + e[j..]);
    RunAppend(0, e[..i], e[i..j] + e[j..]);
    RunAppend(Run(0, e[..i]), e[i..j], e[j..]);
    ZerosKeep(0, e[..i]);
    BurstNonzero(0, e[i..j], 0);
    ZerosKeep(Run(0, e[i..j]), e[j..]);
  }
}
