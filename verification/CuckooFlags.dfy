/** Bit-packed collection flags (bit_packed_atomic_flags in src/cuckoocache.h). */
module CuckooFlags {
  // 1 << (s & 7)
  function Mask(s: int): bv8
    requires 0 <= s < 8
  {
    if s == 0 then 1 else if s == 1 then 2 else if s == 2 then 4 else if s == 3 then 8
    else if s == 4 then 16 else if s == 5 then 32 else if s == 6 then 64 else 128
  }

  predicate OneBit(m: bv8) {
    m == 1 || m == 2 || m == 4 || m == 8 || m == 16 || m == 32 || m == 64 || m == 128
  }

  predicate Has(b: bv8, m: bv8) { m & b != 0 }
  function With(b: bv8, m: bv8): bv8 { b | m }
  function Without(b: bv8, m: bv8): bv8 { b & !m }

  lemma BitLaws(b: bv8, m: bv8, k: bv8)
    requires OneBit(m) && OneBit(k)
    ensures Has(With(b, m), k) <==> k == m || Has(b, k)
    ensures Has(Without(b, m), k) <==> k != m && Has(b, k)
    ensures Has(0xff, k)
  {
  }

  lemma MaskLaws(s: int, t: int)
    requires 0 <= s < 8 && 0 <= t < 8
    ensures OneBit(Mask(s)) && (Mask(s) == Mask(t) <==> s == t)
  {
  }

  function IsSet(mem: seq<bv8>, s: int): bool
    requires 0 <= s < 8 * |mem|
  {
    Has(mem[s / 8], Mask(s % 8))
  }

  class BitPackedFlags {
    const mem: array<bv8>

    ghost function Flag(s: int): bool
      requires 0 <= s < 8 * mem.Length
      reads mem
    {
      IsSet(mem[..], s)
    }

    /** All flags are set. */
    constructor (size: nat)
      ensures fresh(mem) && size <= 8 * mem.Length
      ensures forall s :: 0 <= s < 8 * mem.Length ==> Flag(s)
    {
      mem := new bv8[(size + 7) / 8];
      new;
      for i := 0 to mem.Length
        invariant forall k :: 0 <= k < i ==> mem[k] == 0xff
      {
        mem[i] := 0xff;
      }
      forall s | 0 <= s < 8 * mem.Length ensures Flag(s) {
        MaskLaws(s % 8, 0);
        BitLaws(0, 1, Mask(s % 8));
      }
    }

    method BitSet(s: int)
      requires 0 <= s < 8 * mem.Length
      modifies mem
      ensures forall t :: 0 <= t < 8 * mem.Length ==> Flag(t) == (t == s || old(Flag(t)))
    {
      hide Has, With, Mask;
      ghost var was := mem[..];
      mem[s / 8] := With(mem[s / 8], Mask(s % 8));
      forall t | 0 <= t < 8 * mem.Length ensures Flag(t) == (t == s || IsSet(was, t)) {
        MaskLaws(s % 8, t % 8);
        MaskLaws(t % 8, s % 8);
        BitLaws(was[s / 8], Mask(s % 8), Mask(t % 8));
      }
    }

    method BitUnset(s: int)
      requires 0 <= s < 8 * mem.Length
      modifies mem
      ensures forall t :: 0 <= t < 8 * mem.Length ==> Flag(t) == (t != s && old(Flag(t)))
    {
      hide Has, Without, Mask;
      ghost var was := mem[..];
      mem[s / 8] := Without(mem[s / 8], Mask(s % 8));
      forall t | 0 <= t < 8 * mem.Length ensures Flag(t) == (t != s && IsSet(was, t)) {
        MaskLaws(s % 8, t % 8);
        MaskLaws(t % 8, s % 8);
        BitLaws(was[s / 8], Mask(s % 8), Mask(t % 8));
      }
    }

    method BitIsSet(s: int) returns (r: bool)
      requires 0 <= s < 8 * mem.Length
      ensures r == Flag(s)
    {
      r := Has(mem[s / 8], Mask(s % 8));
    }
  }
}
