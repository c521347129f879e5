/** Up to three errors within a window of 1023 symbols are detected (src/bech32.cpp): three consecutive powers of an
    element of order 1023 in GF(1024) are roots of the generator, so the code is a BCH code. */
module Bech32Distance {
  import opened Gf1024
  import opened Bech32Code
  import opened Bech32Spec

  // ---------- Three consecutive roots ----------

  /** GF(32), which the symbols are in, as part of GF(1024). */
  function Embed(s: bv10): bv10 {
    (s & 1) ^ (((s >> 1) & 1) * 0x00e) ^ (((s >> 2) & 1) * 0x054) ^ (((s >> 3) & 1) * 0x358) ^ (((s >> 4) & 1) * 0x0bf)
  }

  lemma EmbedLinear(s: bv10, t: bv10)
    ensures Embed(Add(s, t)) == Add(Embed(s), Embed(t)) && Embed(0) == 0
  {
  }

  lemma EmbedZero(s: bv10)
    requires s < 32 && Embed(s) == 0
    ensures s == 0
  {
  }

  // The roots x^24, x^25 and x^26.
  const FIRST_ROOT: nat := 24

  function Root(j: nat, w: bv10): bv10 {
    var z := Turn16(Turn8(w));
    if j == 0 then z else if j == 1 then Times(z) else Turn2(z)
  }

  lemma RootIsTurn(j: nat, w: bv10)
    requires j < 3
    ensures Root(j, w) == Turn(FIRST_ROOT + j, w)
  {
    hide Turn, Times, Turn2, Turn8, Turn16;
    TurnIs8(w);
    TurnIs16(Turn8(w));
    TurnAdd(16, 8, w);
    var z := Turn16(Turn8(w));
    TurnSmall(z);
    TurnAdd(j, 24, w);
    assert j + 24 == FIRST_ROOT + j;
    assert Turn(0, z) == z by { TurnNone(z); }
  }

  lemma TurnNone(w: bv10)
    ensures Turn(0, w) == w
  {
  }

  lemma RootLinear(j: nat, w: bv10, v: bv10)
    requires j < 3
    ensures Root(j, Add(w, v)) == Add(Root(j, w), Root(j, v)) && Root(j, 0) == 0
  {
    hide Turn, Add, Root;
    RootIsTurn(j, w);
    RootIsTurn(j, v);
    RootIsTurn(j, Add(w, v));
    RootIsTurn(j, 0);
    TurnLinear(FIRST_ROOT + j, w, v);
    TurnZero(FIRST_ROOT + j, 0);
  }

  // The six symbols of a state.
  function Symbol0(c: bv32): bv10 { (c & 31) as bv10 }
  function Symbol1(c: bv32): bv10 { ((c >> 5) & 31) as bv10 }
  function Symbol2(c: bv32): bv10 { ((c >> 10) & 31) as bv10 }
  function Symbol3(c: bv32): bv10 { ((c >> 15) & 31) as bv10 }
  function Symbol4(c: bv32): bv10 { ((c >> 20) & 31) as bv10 }
  function Symbol5(c: bv32): bv10 { ((c >> 25) & 31) as bv10 }

  // One round of Horner's rule.
  function Next(j: nat, acc: bv10, s: bv10): bv10 { Add(Root(j, acc), Embed(s)) }

  function Horner(j: nat, s5: bv10, s4: bv10, s3: bv10, s2: bv10, s1: bv10, s0: bv10): bv10 {
    Next(j, Next(j, Next(j, Next(j, Next(j, Embed(s5), s4), s3), s2), s1), s0)
  }

  /** The polynomial packed in a state, at a root. */
  function At(j: nat, c: bv32): bv10 {
    Horner(j, Symbol5(c), Symbol4(c), Symbol3(c), Symbol2(c), Symbol1(c), Symbol0(c))
  }

  lemma NextLinear(j: nat, a: bv10, b: bv10, s: bv10, t: bv10)
    requires j < 3
    ensures Next(j, Add(a, b), Add(s, t)) == Add(Next(j, a, s), Next(j, b, t))
  {
    hide Add, Root, Embed;
    RootLinear(j, a, b);
    EmbedLinear(s, t);
    AddFour(Root(j, a), Root(j, b), Embed(s), Embed(t));
  }

  lemma AddFour(a: bv10, b: bv10, s: bv10, t: bv10)
    ensures Add(Add(a, b), Add(s, t)) == Add(Add(a, s), Add(b, t))
  {
    assert (a ^ b) ^ (s ^ t) == (a ^ s) ^ (b ^ t);
  }

  // The symbols of a sum, one by one.
  lemma Symbol0Linear(c: bv32, d: bv32)
    ensures Symbol0(Plus(c, d)) == Add(Symbol0(c), Symbol0(d))
  {
  }

  lemma Symbol1Linear(c: bv32, d: bv32)
    ensures Symbol1(Plus(c, d)) == Add(Symbol1(c), Symbol1(d))
  {
  }

  lemma Symbol2Linear(c: bv32, d: bv32)
    ensures Symbol2(Plus(c, d)) == Add(Symbol2(c), Symbol2(d))
  {
  }

  lemma Symbol3Linear(c: bv32, d: bv32)
    ensures Symbol3(Plus(c, d)) == Add(Symbol3(c), Symbol3(d))
  {
  }

  lemma Symbol4Linear(c: bv32, d: bv32)
    ensures Symbol4(Plus(c, d)) == Add(Symbol4(c), Symbol4(d))
  {
  }

  lemma Symbol5Linear(c: bv32, d: bv32)
    ensures Symbol5(Plus(c, d)) == Add(Symbol5(c), Symbol5(d))
  {
  }

  lemma AtLinear(j: nat, c: bv32, d: bv32)
    requires j < 3
    ensures At(j, Plus(c, d)) == Add(At(j, c), At(j, d))
  {
    hide Add, Plus, Symbol0, Symbol1, Symbol2, Symbol3, Symbol4, Symbol5, Embed, Next;
    Symbol0Linear(c, d);
    Symbol1Linear(c, d);
    Symbol2Linear(c, d);
    Symbol3Linear(c, d);
    Symbol4Linear(c, d);
    Symbol5Linear(c, d);
    EmbedLinear(Symbol5(c), Symbol5(d));
    var c5, d5 := Embed(Symbol5(c)), Embed(Symbol5(d));
    NextLinear(j, c5, d5, Symbol4(c), Symbol4(d));
    var c4, d4 := Next(j, c5, Symbol4(c)), Next(j, d5, Symbol4(d));
    NextLinear(j, c4, d4, Symbol3(c), Symbol3(d));
    var c3, d3 := Next(j, c4, Symbol3(c)), Next(j, d4, Symbol3(d));
    NextLinear(j, c3, d3, Symbol2(c), Symbol2(d));
    var c2, d2 := Next(j, c3, Symbol2(c)), Next(j, d3, Symbol2(d));
    NextLinear(j, c2, d2, Symbol1(c), Symbol1(d));
    var c1, d1 := Next(j, c2, Symbol1(c)), Next(j, d2, Symbol1(d));
    NextLinear(j, c1, d1, Symbol0(c), Symbol0(d));
  }

  lemma ShiftedSymbols(c: bv32, v: bv8)
    requires c < 0x200_0000 && v < 32
    ensures Symbol0(Shifted(c, v)) == v as bv10 && Symbol5(c) == 0
    ensures Symbol1(Shifted(c, v)) == Symbol0(c) && Symbol2(Shifted(c, v)) == Symbol1(c)
    ensures Symbol3(Shifted(c, v)) == Symbol2(c) && Symbol4(Shifted(c, v)) == Symbol3(c)
    ensures Symbol5(Shifted(c, v)) == Symbol4(c)
  {
  }

  lemma NextFromZero(j: nat, s: bv10)
    requires j < 3
    ensures Next(j, Embed(0), s) == Embed(s)
  {
    hide Add, Root, Embed;
    EmbedLinear(0, 0);
    RootLinear(j, 0, 0);
    AddFacts(Embed(s), 0);
    AddFacts(0, Embed(s));
  }

  lemma HornerShifted(j: nat, s4: bv10, s3: bv10, s2: bv10, s1: bv10, s0: bv10, v: bv10)
    requires j < 3
    ensures Horner(j, s4, s3, s2, s1, s0, v) == Next(j, Horner(j, 0, s4, s3, s2, s1, s0), v)
  {
    hide Next, Embed;
    NextFromZero(j, s4);
  }

  lemma AtShifted(j: nat, c: bv32, v: bv8)
    requires j < 3 && c < 0x200_0000 && v < 32
    ensures At(j, Shifted(c, v)) == Next(j, At(j, c), v as bv10)
  {
    hide Shifted, Symbol0, Symbol1, Symbol2, Symbol3, Symbol4, Symbol5, Next, Horner;
    ShiftedSymbols(c, v);
    HornerShifted(j, Symbol4(c), Symbol3(c), Symbol2(c), Symbol1(c), Symbol0(c), v as bv10);
  }

  // ---------- A step of the checksum is a step of Horner's rule ----------

  predicate RootHolds(j: nat, c: bv32) { At(j, Step(c, 0)) == Root(j, At(j, c)) }

  lemma RootHoldsPlus(j: nat, c: bv32, d: bv32)
    requires j < 3 && RootHolds(j, c) && RootHolds(j, d)
    ensures RootHolds(j, Plus(c, d))
  {
    hide Step, At, Root, Plus, PlusSymbol, Add;
    StepLinear(c, d, 0, 0);
    NoSymbol();
    AtLinear(j, Step(c, 0), Step(d, 0));
    AtLinear(j, c, d);
    RootLinear(j, At(j, c), At(j, d));
  }

  lemma NoSymbol()
    ensures PlusSymbol(0, 0) == 0
  {
  }

  /** The five multiples of x^6 modulo the generator that PolyMod adds have the values of x^6 at the three roots. */
  lemma GeneratorHasRoots(j: nat)
    requires j < 3
    ensures RootHolds(j, 0) && RootHolds(j, 0x200_0000) && RootHolds(j, 0x400_0000)
    ensures RootHolds(j, 0x800_0000) && RootHolds(j, 0x1000_0000) && RootHolds(j, 0x2000_0000)
  {
    if j == 0 {
    } else if j == 1 {
    } else {
    }
  }

  lemma TopBits(c: bv32)
    requires c < STATES && c & 0x1ff_ffff == 0
    ensures c == Plus(Plus(Plus(Plus(c & 0x200_0000, c & 0x400_0000), c & 0x800_0000), c & 0x1000_0000),
                      c & 0x2000_0000)
    ensures c & 0x200_0000 == 0 || c & 0x200_0000 == 0x200_0000
    ensures c & 0x400_0000 == 0 || c & 0x400_0000 == 0x400_0000
    ensures c & 0x800_0000 == 0 || c & 0x800_0000 == 0x800_0000
    ensures c & 0x1000_0000 == 0 || c & 0x1000_0000 == 0x1000_0000
    ensures c & 0x2000_0000 == 0 || c & 0x2000_0000 == 0x2000_0000
  {
  }

  lemma TopHolds(j: nat, c: bv32)
    requires j < 3 && c < STATES && c & 0x1ff_ffff == 0
    ensures RootHolds(j, c)
  {
    hide RootHolds, Plus;
    TopBits(c);
    GeneratorHasRoots(j);
    var b0, b1, b2, b3, b4 := c & 0x200_0000, c & 0x400_0000, c & 0x800_0000, c & 0x1000_0000, c & 0x2000_0000;
    RootHoldsPlus(j, b0, b1);
    RootHoldsPlus(j, Plus(b0, b1), b2);
    RootHoldsPlus(j, Plus(Plus(b0, b1), b2), b3);
    RootHoldsPlus(j, Plus(Plus(Plus(b0, b1), b2), b3), b4);
  }

  lemma TopAndRest(c: bv32, v: bv8)
    requires c < STATES
    ensures var top, low := c & 0x3e00_0000, c & 0x1ff_ffff;
            && c == Plus(low, top) && v == PlusSymbol(v, 0)
            && low < 0x200_0000 && top < STATES && top & 0x1ff_ffff == 0
  {
  }

  lemma StepAt(j: nat, c: bv32, v: bv8)
    requires j < 3 && c < STATES && v < 32
    ensures At(j, Step(c, v)) == Next(j, At(j, c), v as bv10)
  {
    hide Step, Shifted, At, Root, Embed, Plus, PlusSymbol, Add;
    TopAndRest(c, v);
    var top, low := c & 0x3e00_0000, c & 0x1ff_ffff;
    StepLinear(low, top, v, 0);
    StepIsShift(low, v);
    AtLinear(j, Step(low, v), Step(top, 0));
    AtShifted(j, low, v);
    TopHolds(j, top);
    AtLinear(j, low, top);
    RootLinear(j, At(j, low), At(j, top));
    AddSwap(Root(j, At(j, low)), Root(j, At(j, top)), Embed(v as bv10));
  }

  lemma AddSwap(a: bv10, b: bv10, c: bv10)
    ensures Add(Add(a, c), b) == Add(Add(a, b), c)
  {
  }

  // ---------- Runs ----------

  function Value(j: nat, acc: bv10, v: seq<bv8>): bv10
    decreases |v|
  {
    if v == [] then acc else Value(j, Next(j, acc, v[0] as bv10), v[1..])
  }

  lemma {:induction false} RunAt(j: nat, c: bv32, v: seq<bv8>)
    requires j < 3 && c < STATES && Symbols(v)
    ensures At(j, Run(c, v)) == Value(j, At(j, c), v)
    decreases |v|
  {
    hide Step, At, Next;
    if v != [] {
      StepAt(j, c, v[0]);
      StepRange(c, v[0]);
      RunAt(j, Step(c, v[0]), v[1..]);
    }
  }

  lemma {:induction false} ValueAppend(j: nat, acc: bv10, v: seq<bv8>, w: seq<bv8>)
    ensures Value(j, acc, v + w) == Value(j, Value(j, acc, v), w)
    decreases |v|
  {
    hide Next;
    if v == [] {
      assert v + w == w;
    } else {
      assert (v + w)[1..] == v[1..] + w;
      ValueAppend(j, Next(j, acc, v[0] as bv10), v[1..], w);
    }
  }

  lemma NextZero(j: nat, acc: bv10)
    requires j < 3
    ensures Next(j, acc, 0) == Turn(FIRST_ROOT + j, acc)
  {
    hide Turn, Root, Embed, Add;
    RootIsTurn(j, acc);
    EmbedLinear(0, 0);
    AddFacts(Root(j, acc), 0);
  }

  lemma {:induction false} ValueOfZeros(j: nat, acc: bv10, v: seq<bv8>)
    requires j < 3 && AllZero(v)
    ensures Value(j, acc, v) == Turn((FIRST_ROOT + j) * |v|, acc)
    decreases |v|
  {
    hide Next, Turn;
    if v == [] {
      TurnNone(acc);
    } else {
      NextZero(j, acc);
      var next := Turn(FIRST_ROOT + j, acc);
      ValueOfZeros(j, next, v[1..]);
      TurnAdd((FIRST_ROOT + j) * |v[1..]|, FIRST_ROOT + j, acc);
      assert (FIRST_ROOT + j) * |v[1..]| + (FIRST_ROOT + j) == (FIRST_ROOT + j) * |v|;
    }
  }

  /** One symbol and equal symbols after it. */
  lemma ValueOfOne(j: nat, acc: bv10, s: bv8, v: seq<bv8>)
    requires j < 3 && AllZero(v)
    ensures Value(j, acc, [s] + v) ==
            Add(Turn((FIRST_ROOT + j) * (|v| + 1), acc), Turn((FIRST_ROOT + j) * |v|, Embed(s as bv10)))
  {
    hide Turn, Root, Embed, Add, Value;
    var r := FIRST_ROOT + j;
    var e := Embed(s as bv10);
    ValueHead(j, acc, s, v);
    ValueOfZeros(j, Next(j, acc, s as bv10), v);
    RootIsTurn(j, acc);
    TurnLinear(r * |v|, Turn(r, acc), e);
    TurnAdd(r * |v|, r, acc);
    assert r * |v| + r == r * (|v| + 1);
  }

  lemma ValueHead(j: nat, acc: bv10, s: bv8, v: seq<bv8>)
    ensures Value(j, acc, [s] + v) == Value(j, Next(j, acc, s as bv10), v)
  {
    hide Next;
    assert ([s] + v)[1..] == v;
  }

  // ---------- Three errors ----------

  lemma SplitSum(p: bv10, q: bv10, a: bv10, b: bv10)
    requires Add(Add(p, q), Add(a, b)) == 0
    ensures Add(p, a) == Add(q, b)
  {
    hide Add;
    AddFour(p, q, a, b);
    AddFacts(Add(p, a), Add(q, b));
  }

  lemma SameRest(x: bv10, y: bv10, w: bv10)
    requires Add(x, w) == Add(y, w)
    ensures x == y
  {
  }

  /** (X + W)(X + W) = X^2 + W^2 for powers of x. */
  lemma SquareOfSum(m: nat, n: nat, u: bv10, v: bv10)
    requires v == Add(Turn(m, u), Turn(n, u))
    ensures Add(Turn(m, v), Turn(n, v)) == Add(Turn(2 * m, u), Turn(2 * n, u))
  {
    hide Turn, Add;
    TurnLinear(m, Turn(m, u), Turn(n, u));
    TurnLinear(n, Turn(m, u), Turn(n, u));
    TurnDoubled(m, u, Turn(m, u));
    TurnDoubled(n, u, Turn(n, u));
    TurnsCommute(m, n, u);
    CrossTerms(Turn(2 * m, u), Turn(m, Turn(n, u)), Turn(2 * n, u));
  }

  lemma TurnsCommute(m: nat, n: nat, u: bv10)
    ensures Turn(m, Turn(n, u)) == Turn(n, Turn(m, u))
  {
    hide Turn;
    TurnAdd(m, n, u);
    TurnAdd(n, m, u);
    assert m + n == n + m;
  }

  lemma CrossTerms(a: bv10, b: bv10, c: bv10)
    ensures Add(Add(a, b), Add(b, c)) == Add(a, c)
  {
    assert (a ^ b) ^ (b ^ c) == a ^ c;
  }

  // What the j-th root says of three errors.
  predicate Balanced(j: nat, m1: nat, u1: bv10, m2: nat, u2: bv10, m3: nat, u3: bv10) {
    Add(Add(Turn(j * m1, u1), Turn(j * m2, u2)), Turn(j * m3, u3)) == 0
  }

  /** With u3 replaced by u1 + u2. */
  lemma BalancedPairs(j: nat, m1: nat, u1: bv10, m2: nat, u2: bv10, m3: nat, u3: bv10)
    requires Balanced(j, m1, u1, m2, u2, m3, u3) && u3 == Add(u1, u2)
    ensures Add(Turn(j * m1, u1), Turn(j * m3, u1)) == Add(Turn(j * m2, u2), Turn(j * m3, u2))
  {
    hide Turn, Add;
    TurnLinear(j * m3, u1, u2);
    SplitSum(Turn(j * m1, u1), Turn(j * m2, u2), Turn(j * m3, u1), Turn(j * m3, u2));
  }

  /** A Vandermonde system over three different powers has no solution but zero. */
  lemma OnlyZero(m1: nat, u1: bv10, m2: nat, u2: bv10, m3: nat, u3: bv10)
    requires m3 < m2 < m1 < m3 + 1023
    requires forall j: nat :: j < 3 ==> Balanced(j, m1, u1, m2, u2, m3, u3)
    ensures u1 == u2 == u3 == 0
  {
    hide Turn, Add, Balanced;
    assert Balanced(0, m1, u1, m2, u2, m3, u3);
    assert Balanced(1, m1, u1, m2, u2, m3, u3);
    assert Balanced(2, m1, u1, m2, u2, m3, u3);
    ThirdIsSum(m1, u1, m2, u2, m3, u3);
    BalancedPairs(1, m1, u1, m2, u2, m3, u3);
    BalancedPairs(2, m1, u1, m2, u2, m3, u3);
    var v := Add(Turn(m1, u1), Turn(m3, u1));
    assert v == Add(Turn(m2, u2), Turn(m3, u2));
    SquareOfSum(m1, m3, u1, v);
    SquareOfSum(m2, m3, u2, v);
    SameRest(Turn(m1, v), Turn(m2, v), Turn(m3, v));
    PowersDiffer(m1, m2, v);
    AddFacts(Turn(m1, u1), Turn(m3, u1));
    PowersDiffer(m1, m3, u1);
    AddFacts(Turn(m2, u2), Turn(m3, u2));
    PowersDiffer(m2, m3, u2);
    AddFacts(0, 0);
  }

  lemma ThirdIsSum(m1: nat, u1: bv10, m2: nat, u2: bv10, m3: nat, u3: bv10)
    requires Balanced(0, m1, u1, m2, u2, m3, u3)
    ensures u3 == Add(u1, u2)
  {
    hide Turn, Add;
    assert 0 * m1 == 0 && 0 * m2 == 0 && 0 * m3 == 0;
    TurnNone(u1);
    TurnNone(u2);
    TurnNone(u3);
    AddFacts(Add(u1, u2), u3);
  }

  /** The places of three symbols a, b, c between stretches of zeros. */
  function Pattern(z1: seq<bv8>, a: bv8, z2: seq<bv8>, b: bv8, z3: seq<bv8>, c: bv8, z4: seq<bv8>): seq<bv8> {
    z1 + (([a] + z2) + (([b] + z3) + ([c] + z4)))
  }

  lemma PatternValue(j: nat, z1: seq<bv8>, a: bv8, z2: seq<bv8>, b: bv8, z3: seq<bv8>, c: bv8, z4: seq<bv8>)
    requires j < 3 && AllZero(z1) && AllZero(z2) && AllZero(z3) && AllZero(z4)
    ensures var r := FIRST_ROOT + j;
            Value(j, 0, Pattern(z1, a, z2, b, z3, c, z4)) ==
            Add(Add(Turn(r * (|z2| + |z3| + |z4| + 2), Embed(a as bv10)),
                    Turn(r * (|z3| + |z4| + 1), Embed(b as bv10))),
                Turn(r * |z4|, Embed(c as bv10)))
  {
    hide Turn, Embed, Add, Value;
    var r := FIRST_ROOT + j;
    var ea, eb := Embed(a as bv10), Embed(b as bv10);
    ValueAppend(j, 0, z1, ([a] + z2) + (([b] + z3) + ([c] + z4)));
    ValueOfZeros(j, 0, z1);
    TurnZero(r * |z1|, 0);
    ValueAppend(j, 0, [a] + z2, ([b] + z3) + ([c] + z4));
    ValueOfOne(j, 0, a, z2);
    TurnZero(r * (|z2| + 1), 0);
    var v2 := Turn(r * |z2|, ea);
    AddFacts(0, v2);
    AddFacts(v2, 0);
    ValueAppend(j, v2, [b] + z3, [c] + z4);
    ValueOfOne(j, v2, b, z3);
    TurnAdd(r * (|z3| + 1), r * |z2|, ea);
    var v3 := Value(j, v2, [b] + z3);
    ValueOfOne(j, v3, c, z4);
    TurnLinear(r * (|z4| + 1), Turn(r * (|z3| + 1), v2), Turn(r * |z3|, eb));
    TurnAdd(r * (|z4| + 1), r * (|z3| + 1) + r * |z2|, ea);
    TurnAdd(r * (|z4| + 1), r * |z3|, eb);
    assert r * (|z4| + 1) + (r * (|z3| + 1) + r * |z2|) == r * (|z2| + |z3| + |z4| + 2);
    assert r * (|z4| + 1) + r * |z3| == r * (|z3| + |z4| + 1);
  }

  lemma AtZero(j: nat)
    requires j < 3
    ensures At(j, 0) == 0
  {
  }

  /** A difference in at most three symbols within 1023 has a non-zero remainder. */
  lemma ThreeDetected(z1: seq<bv8>, a: bv8, z2: seq<bv8>, b: bv8, z3: seq<bv8>, c: bv8, z4: seq<bv8>)
    requires AllZero(z1) && AllZero(z2) && AllZero(z3) && AllZero(z4) && a < 32 && b < 32 && c < 32
    requires |z2| + |z3| + 2 < 1023 && Run(0, Pattern(z1, a, z2, b, z3, c, z4)) == 0
    ensures a == 0 && b == 0 && c == 0
  {
    hide Turn, Embed, Add, Value, Run, At, Balanced;
    var m1, m2, m3 := |z2| + |z3| + |z4| + 2, |z3| + |z4| + 1, |z4|;
    var ea, eb, ec := Embed(a as bv10), Embed(b as bv10), Embed(c as bv10);
    forall j: nat | j < 3
      ensures Balanced(j, m1, Turn(FIRST_ROOT * m1, ea), m2, Turn(FIRST_ROOT * m2, eb), m3, Turn(FIRST_ROOT * m3, ec))
    {
      PatternSymbols(z1, a, z2, b, z3, c, z4);
      RunAt(j, 0, Pattern(z1, a, z2, b, z3, c, z4));
      AtZero(j);
      PatternValue(j, z1, a, z2, b, z3, c, z4);
      BalancedAt(j, m1, ea, m2, eb, m3, ec);
    }
    OnlyZero(m1, Turn(FIRST_ROOT * m1, ea), m2, Turn(FIRST_ROOT * m2, eb), m3, Turn(FIRST_ROOT * m3, ec));
    TurnZero(FIRST_ROOT * m1, ea);
    TurnZero(FIRST_ROOT * m2, eb);
    TurnZero(FIRST_ROOT * m3, ec);
    SymbolNotZero(a);
    SymbolNotZero(b);
    SymbolNotZero(c);
  }

  lemma SymbolNotZero(s: bv8)
    requires s < 32 && Embed(s as bv10) == 0
    ensures s == 0
  {
    hide Embed;
    assert s as bv10 < 32;
    EmbedZero(s as bv10);
  }

  lemma PatternSymbols(z1: seq<bv8>, a: bv8, z2: seq<bv8>, b: bv8, z3: seq<bv8>, c: bv8, z4: seq<bv8>)
    requires AllZero(z1) && AllZero(z2) && AllZero(z3) && AllZero(z4) && a < 32 && b < 32 && c < 32
    ensures Symbols(Pattern(z1, a, z2, b, z3, c, z4))
  {
  }

  lemma BalancedAt(j: nat, m1: nat, ea: bv10, m2: nat, eb: bv10, m3: nat, ec: bv10)
    requires Add(Add(Turn((FIRST_ROOT + j) * m1, ea), Turn((FIRST_ROOT + j) * m2, eb)),
                 Turn((FIRST_ROOT + j) * m3, ec)) == 0
    ensures Balanced(j, m1, Turn(FIRST_ROOT * m1, ea), m2, Turn(FIRST_ROOT * m2, eb), m3, Turn(FIRST_ROOT * m3, ec))
  {
    hide Turn, Add;
    TurnAdd(j * m1, FIRST_ROOT * m1, ea);
    TurnAdd(j * m2, FIRST_ROOT * m2, eb);
    TurnAdd(j * m3, FIRST_ROOT * m3, ec);
    assert j * m1 + FIRST_ROOT * m1 == (FIRST_ROOT + j) * m1;
    assert j * m2 + FIRST_ROOT * m2 == (FIRST_ROOT + j) * m2;
    assert j * m3 + FIRST_ROOT * m3 == (FIRST_ROOT + j) * m3;
  }

  /** With the same part, two value sequences of one length that both verify and differ in at most three symbols
      less than 1023 apart are equal. */
  lemma ThreeErrors(hrp: string, x: seq<bv8>, y: seq<bv8>, i: nat, j: nat, k: nat)
    requires |x| == |y| && i <= j <= k < |x| && k - i < 1023 && Symbols(x) && Symbols(y)
    requires forall p :: 0 <= p < |x| && p != i && p != j && p != k ==> x[p] == y[p]
    requires VerifyChecksum(hrp, x) && VerifyChecksum(hrp, y)
    ensures x == y
  {
    hide Run, ExpandHRP;
    ThreeAfter(ExpandHRP(hrp), x, y, i, j, k);
  }

  lemma ThreeAfter(e: seq<bv8>, x: seq<bv8>, y: seq<bv8>, i: nat, j: nat, k: nat)
    requires |x| == |y| && i <= j <= k < |x| && k - i < 1023 && Symbols(x) && Symbols(y)
    requires forall p :: 0 <= p < |x| && p != i && p != j && p != k ==> x[p] == y[p]
    requires Run(1, e + x) == Run(1, e + y)
    ensures x == y
  {
    hide Run;
    if i < j < k {
      ThreePlaces(e, x, y, i, j, k);
    } else if k - i < 6 {
      assert x[..i] == y[..i] && x[k + 1..] == y[k + 1..];
      BurstAfter(e, x, y, i, k + 1);
    } else {
      ThreePlaces(e, x, y, i, i + 1, k);
    }
  }

  lemma ThreePlaces(e: seq<bv8>, x: seq<bv8>, y: seq<bv8>, i: nat, j: nat, k: nat)
    requires |x| == |y| && i < j < k < |x| && k - i < 1023 && Symbols(x) && Symbols(y)
    requires forall p :: 0 <= p < |x| && p != i && p != j && p != k ==> x[p] == y[p]
    requires Run(1, e + x) == Run(1, e + y)
    ensures x == y
  {
    hide Run, Plus, Sum, Symbols, AllZero, Pattern;
    RunLinear(1, 1, e + x, e + y);
    PlusZero(1);
    PlusZero(Run(1, e + x));
    var d := Sum(e + x, e + y);
    var p, q, r := |e| + i, |e| + j, |e| + k;
    forall t: nat | t < |e + x| ensures Differs(e, x, y, d, t) {
      DifferenceAt(e, x, y, t);
    }
    assert |d| == |e| + |x| by { DifferenceLength(e + x, e + y); }
    ZerosOutside(e, x, y, d, i, j, k);
    PatternOf(d, p, q, r);
    ThreeDetected(d[..p], d[p], d[p + 1..q], d[q], d[q + 1..r], d[r], d[r + 1..]);
    EqualSymbols(e, x, y, d, i, j, k);
  }

  // Whether the sum of two words shows where they differ.
  predicate Differs(e: seq<bv8>, x: seq<bv8>, y: seq<bv8>, d: seq<bv8>, t: nat) {
    t < |d| && t < |e| + |x| && |x| == |y| && (d[t] == 0 <==> (e + x)[t] == (e + y)[t]) && (t >= |e| ==> d[t] < 32)
  }

  lemma DifferenceAt(e: seq<bv8>, x: seq<bv8>, y: seq<bv8>, t: nat)
    requires |x| == |y| && t < |e| + |x| && Symbols(x) && Symbols(y)
    ensures Differs(e, x, y, Sum(e + x, e + y), t)
  {
    hide PlusSymbol;
    PlusSymbolFacts((e + x)[t], (e + y)[t]);
  }

  lemma DifferenceLength(x: seq<bv8>, y: seq<bv8>)
    requires |x| == |y|
    ensures |Sum(x, y)| == |x|
  {
  }

  lemma ZerosOutside(e: seq<bv8>, x: seq<bv8>, y: seq<bv8>, d: seq<bv8>, i: nat, j: nat, k: nat)
    requires |x| == |y| && i < j < k < |x| && |d| == |e| + |x|
    requires forall p :: 0 <= p < |x| && p != i && p != j && p != k ==> x[p] == y[p]
    requires forall t: nat :: t < |d| ==> Differs(e, x, y, d, t)
    ensures var p, q, r := |e| + i, |e| + j, |e| + k;
            && AllZero(d[..p]) && AllZero(d[p + 1..q]) && AllZero(d[q + 1..r]) && AllZero(d[r + 1..])
            && d[p] < 32 && d[q] < 32 && d[r] < 32
  {
    hide Differs;
    var p, q, r := |e| + i, |e| + j, |e| + k;
    forall t: nat | t < |d| && t != p && t != q && t != r ensures d[t] == 0 {
      SameThere(e, x, y, d, t);
    }
    assert Differs(e, x, y, d, p) && Differs(e, x, y, d, q) && Differs(e, x, y, d, r);
    SmallThere(e, x, y, d, p);
    SmallThere(e, x, y, d, q);
    SmallThere(e, x, y, d, r);
  }

  lemma SmallThere(e: seq<bv8>, x: seq<bv8>, y: seq<bv8>, d: seq<bv8>, t: nat)
    requires Differs(e, x, y, d, t) && t >= |e|
    ensures d[t] < 32
  {
  }

  lemma SameThere(e: seq<bv8>, x: seq<bv8>, y: seq<bv8>, d: seq<bv8>, t: nat)
    requires Differs(e, x, y, d, t) && (t >= |e| ==> x[t - |e|] == y[t - |e|])
    ensures d[t] == 0
  {
  }

  lemma EqualSymbols(e: seq<bv8>, x: seq<bv8>, y: seq<bv8>, d: seq<bv8>, i: nat, j: nat, k: nat)
    requires |x| == |y| && i < j < k < |x| && |d| == |e| + |x|
    requires forall p :: 0 <= p < |x| && p != i && p != j && p != k ==> x[p] == y[p]
    requires forall t: nat :: t < |d| ==> Differs(e, x, y, d, t)
    requires d[|e| + i] == 0 && d[|e| + j] == 0 && d[|e| + k] == 0
    ensures x == y
  {
    assert Differs(e, x, y, d, |e| + i) && Differs(e, x, y, d, |e| + j) && Differs(e, x, y, d, |e| + k);
  }

  lemma PatternOf(d: seq<bv8>, p: nat, q: nat, r: nat)
    requires p < q < r < |d|
    ensures d == Pattern(d[..p], d[p], d[p + 1..q], d[q], d[q + 1..r], d[r], d[r + 1..])
  {
    assert d[r..] == [d[r]] + d[r + 1..];
    assert d[q..] == ([d[q]] + d[q + 1..r]) + d[r..];
    assert d[p..] == ([d[p]] + d[p + 1..q]) + d[q..];
    assert d == d[..p] + d[p..];
  }
}
