/** Bech32 strings on values (src/bech32.cpp): character set, checksum, and what Encode and
    Decode compute. */
module Bech32Spec {
  import opened Basics
  import opened Bech32Code

  // ---------- Characters ----------

  function Charset(): (r: string)
    ensures |r| == 32
  {
    "qpzry9x8" + "gf2tvdw0" + "s3jn54kh" + "ce6mua7l"
  }

  // The reverse table by rows of sixteen codes; the letter rows occur twice.
  function RowDigits(): (r: seq<int>)
    ensures |r| == 16
  {
    [15, -1, 10, 17, 21, 20, 26, 30, 7, 5, -1, -1, -1, -1, -1, -1]
  }

  function RowA(): (r: seq<int>)
    ensures |r| == 16
  {
    [-1, 29, -1, 24, 13, 25, 9, 8, 23, -1, 18, 22, 31, 27, 19, -1]
  }

  function RowP(): (r: seq<int>)
    ensures |r| == 16
  {
    [1, 0, 3, 16, 11, 28, 12, 14, 6, 4, 2, -1, -1, -1, -1, -1]
  }

  function Blank(): (r: seq<int>)
    ensures |r| == 16 && forall i :: 0 <= i < 16 ==> r[i] == -1
  {
    [-1, -1, -1, -1, -1, -1, -1, -1, -1, -1, -1, -1, -1, -1, -1, -1]
  }

  function CharsetRev(): (r: seq<int>)
    ensures |r| == 128
  {
    Blank() + Blank() + Blank() + RowDigits() + RowA() + RowP() + RowA() + RowP()
  }

  predicate Printable(c: char) { 33 as char <= c <= 126 as char }
  predicate IsLower(c: char) { 'a' <= c <= 'z' }
  predicate IsUpper(c: char) { 'A' <= c <= 'Z' }

  function LowerCase(c: char): char {
    if IsUpper(c) then (c - 'A') + 'a' else c
  }

  function Rev(c: char): int {
    if !Printable(c) then -1 else CharsetRev()[c as int]
  }

  function CharOf(v: bv8): char {
    if v < 32 then Charset()[v as int] else '\0'
  }

  lemma DigitRow(i: int)
    requires 0 <= i < 16
    ensures var v := RowDigits()[i]; v == -1 || (0 <= v < 32 && Charset()[v] == '0' + i as char)
  {
  }

  lemma ARow(i: int)
    requires 0 <= i < 16
    ensures var v := RowA()[i]; v == -1 || (i > 0 && 0 <= v < 32 && Charset()[v] == '`' + i as char)
  {
  }

  lemma PRow(i: int)
    requires 0 <= i < 16
    ensures var v := RowP()[i]; v == -1 || (i <= 10 && 0 <= v < 32 && Charset()[v] == 'p' + i as char)
  {
  }

  lemma CharsetRows(v: int)
    requires 0 <= v < 32
    ensures var c := Charset()[v] as int;
            if c < 64 then 48 <= c < 64 && RowDigits()[c - 48] == v
            else if c < 112 then 96 <= c < 112 && RowA()[c - 96] == v
            else c < 128 && RowP()[c - 112] == v
  {
  }

  lemma RevRow(c: char)
    requires Printable(c)
    ensures var n := c as int;
            Rev(c) == if n < 48 then -1 else if n < 64 then RowDigits()[n - 48] else if n < 80 then RowA()[n - 64]
                      else if n < 96 then RowP()[n - 80] else if n < 112 then RowA()[n - 96] else RowP()[n - 112]
  {
    hide Blank, RowDigits, RowA, RowP;
  }

  /** The two tables agree: a character decodes to v exactly when its lower case is the v-th of the set. */
  lemma RevMeaning(c: char, v: bv8)
    requires v < 32
    ensures Rev(c) == v as int <==> LowerCase(c) == CharOf(v)
    ensures Printable(CharOf(v)) && CharOf(v) != '1' && !IsUpper(CharOf(v))
    ensures -1 <= Rev(c) < 32
  {
    hide Rev, Charset, RowDigits, RowA, RowP;
    CharsetRows(v as int);
    if Printable(c) {
      RevRow(c);
      RevFound(c);
      if LowerCase(c) == CharOf(v) { RevAgain(c, v); }
    } else {
      RevNone(c);
    }
    NoOne(v as int);
  }

  lemma RevNone(c: char)
    requires !Printable(c)
    ensures Rev(c) == -1 && LowerCase(c) == c
  {
  }

  lemma RevFound(c: char)
    requires Printable(c)
    ensures Rev(c) == -1 || (0 <= Rev(c) < 32 && Charset()[Rev(c)] == LowerCase(c))
  {
    hide Rev, Charset, RowDigits, RowA, RowP;
    RevRow(c);
    var n := c as int;
    if 48 <= n < 64 { DigitRow(n - 48); }
    else if 64 <= n < 80 { ARow(n - 64); }
    else if 80 <= n < 96 { PRow(n - 80); }
    else if 96 <= n < 112 { ARow(n - 96); }
    else if 112 <= n { PRow(n - 112); }
  }

  lemma RevAgain(c: char, v: bv8)
    requires v < 32 && Printable(c) && LowerCase(c) == CharOf(v)
    ensures Rev(c) == v as int
  {
    hide Rev, Charset, RowDigits, RowA, RowP;
    CharsetRows(v as int);
    RevRow(c);
  }

  lemma NoOne(v: int)
    requires 0 <= v < 32
    ensures Charset()[v] != '1' && !IsUpper(Charset()[v]) && Printable(Charset()[v])
  {
  }

  // ---------- Checksums ----------

  // The unsigned byte of a character, in a high and a low part of at most five bits.
  function HighBits(c: char): bv8 { (c as int % 256 / 32) as bv8 }
  function LowBits(c: char): bv8 { (c as int % 32) as bv8 }

  /** The two parts make up the byte. */
  lemma BitsOfByte(c: char)
    ensures HighBits(c) as int * 32 + LowBits(c) as int == c as int % 256
    ensures HighBits(c) < 8 && LowBits(c) < 32 && LowBits(c) as int < 32
  {
    hide HighBits, LowBits;
    HighPart(c);
    LowPart(c);
    assert c as int % 32 == c as int % 256 % 32;
  }

  lemma HighPart(c: char)
    ensures HighBits(c) as int == c as int % 256 / 32 && HighBits(c) < 8
  {
    SmallByte(c as int % 256 / 32);
  }

  lemma LowPart(c: char)
    ensures LowBits(c) as int == c as int % 32 && LowBits(c) < 32
  {
    SmallByte(c as int % 32);
  }

  lemma SmallByte(n: int)
    requires 0 <= n < 32
    ensures (n as bv8) as int == n && (n as bv8) < 32 && (n < 8 ==> (n as bv8) < 8)
  {
  }

  function ExpandHRP(hrp: string): (e: seq<bv8>)
    ensures |e| == 2 * |hrp| + 1
  {
    seq(|hrp|, i requires 0 <= i < |hrp| => HighBits(hrp[i])) + [0]
    + seq(|hrp|, i requires 0 <= i < |hrp| => LowBits(hrp[i]))
  }

  const SIX_ZEROES: seq<bv8> := [0, 0, 0, 0, 0, 0]

  function Group(mod: bv32): (r: bv8)
    ensures r < 32
  {
    (mod & 31) as bv8
  }

  /** The six symbols of a state, highest first. */
  function Groups(mod: bv32): (r: seq<bv8>)
    ensures |r| == 6
  {
    [Group(mod >> 25), Group(mod >> 20), Group(mod >> 15), Group(mod >> 10), Group(mod >> 5), Group(mod)]
  }

  function FlipOne(m: bv32): bv32 { m ^ 1 }

  function Checksum(hrp: string, values: seq<bv8>): (r: seq<bv8>)
    ensures |r| == 6
  {
    Groups(FlipOne(Run(1, ExpandHRP(hrp) + values + SIX_ZEROES)))
  }

  lemma GroupsAreSymbols(m: bv32)
    ensures Symbols(Groups(m))
  {
    hide Group;
  }

  predicate VerifyChecksum(hrp: string, values: seq<bv8>) {
    Run(1, ExpandHRP(hrp) + values) == 1
  }

  function Down(x: bv32): bv32 { x >> 5 }

  lemma GroupShift(x: bv32)
    requires x < STATES
    ensures Shifted(Down(x), Group(x)) == x && Down(x) < 0x200_0000
  {
  }

  lemma StepOfGroup(x: bv32)
    requires x < STATES
    ensures Step(Down(x), Group(x)) == x
  {
    hide Step, Shifted, Down, Group;
    GroupShift(x);
    StepIsShift(Down(x), Group(x));
  }

  lemma ShiftsByFive(m: bv32)
    requires m < STATES
    ensures Down(m >> 25) == 0 && Down(m >> 20) == m >> 25 && Down(m >> 15) == m >> 20
    ensures Down(m >> 10) == m >> 15 && Down(m >> 5) == m >> 10 && Down(m) == m >> 5
    ensures m >> 25 < STATES && m >> 20 < STATES && m >> 15 < STATES && m >> 10 < STATES && m >> 5 < STATES
  {
  }

  lemma PackSix(x: seq<bv32>, g: seq<bv8>)
    requires |x| == |g| == 6 && Down(x[0]) == 0
    requires forall i :: 0 <= i < 6 ==> x[i] < STATES && g[i] == Group(x[i])
    requires forall i :: 0 < i < 6 ==> Down(x[i]) == x[i - 1]
    ensures Run(0, g) == x[5]
  {
    hide Step, Group, Run, Down;
    forall i | 0 <= i < 6 ensures Step(Down(x[i]), g[i]) == x[i] {
      StepOfGroup(x[i]);
    }
    RunSix(0, g);
  }

  /** Run from zero, the symbols of a state pack to that state. */
  lemma GroupsPack(m: bv32)
    requires m < STATES
    ensures Run(0, Groups(m)) == m
  {
    hide Step, Group, Run, Down;
    ShiftsByFive(m);
    PackSix([m >> 25, m >> 20, m >> 15, m >> 10, m >> 5, m], Groups(m));
  }

  lemma RunSix(c: bv32, g: seq<bv8>)
    requires |g| == 6
    ensures Run(c, g) == Step(Step(Step(Step(Step(Step(c, g[0]), g[1]), g[2]), g[3]), g[4]), g[5])
  {
    hide Step;
    var c1 := Step(c, g[0]);
    var c2 := Step(c1, g[1]);
    var c3 := Step(c2, g[2]);
    assert Run(c, g) == Run(c1, g[1..]);
    assert g[1..][1..] == g[2..] && Run(c1, g[1..]) == Run(c2, g[2..]);
    assert g[2..][1..] == g[3..] && Run(c2, g[2..]) == Run(c3, g[3..]);
    var c4 := Step(c3, g[3]);
    var c5 := Step(c4, g[4]);
    assert g[3..][1..] == g[4..] && Run(c3, g[3..]) == Run(c4, g[4..]);
    assert g[4..][1..] == g[5..] && Run(c4, g[4..]) == Run(c5, g[5..]);
    assert g[5..][1..] == [];
    assert Run(c5, g[5..]) == Step(c5, g[5]);
  }

  lemma {:induction false} RunRange(c: bv32, v: seq<bv8>)
    requires c < STATES
    ensures Run(c, v) < STATES
    decreases |v|
  {
    hide Step;
    if v != [] {
      StepRange(c, v[0]);
      RunRange(Step(c, v[0]), v[1..]);
    }
  }

  /** Appending the created checksum passes verification, whatever the part and the values. */
  lemma ChecksumVerifies(hrp: string, values: seq<bv8>)
    ensures VerifyChecksum(hrp, values + Checksum(hrp, values))
  {
    hide Step, Run, Plus, Groups, ExpandHRP, FlipOne;
    var pre := ExpandHRP(hrp) + values;
    var c := Run(1, pre);
    var m := Run(1, pre + SIX_ZEROES);
    var g := Groups(FlipOne(m));
    assert ExpandHRP(hrp) + (values + g) == pre + g;
    RunAppend(1, pre, g);
    RunAppend(1, pre, SIX_ZEROES);
    RunRange(1, pre + SIX_ZEROES);
    Flipped(m);
    GroupsPack(FlipOne(m));
    RunLinear(c, 0, SIX_ZEROES, g);
    PlusZero(c);
    SumZeroes(g);
  }

  lemma Flipped(m: bv32)
    ensures m < STATES ==> FlipOne(m) < STATES
    ensures Plus(m, FlipOne(m)) == 1
  {
  }

  lemma SumZeroes(g: seq<bv8>)
    requires |g| == 6
    ensures Sum(SIX_ZEROES, g) == g
  {
  }

  /** With the same part, two value sequences of one length that both verify and differ only within
      six consecutive symbols are equal. */
  lemma BurstErrors(hrp: string, x: seq<bv8>, y: seq<bv8>, i: nat, j: nat)
    requires |x| == |y| && i <= j <= |x| && j - i <= 6 && Symbols(x) && Symbols(y)
    requires x[..i] == y[..i] && x[j..] == y[j..]
    requires VerifyChecksum(hrp, x) && VerifyChecksum(hrp, y)
    ensures x == y
  {
    hide Run, ExpandHRP;
    BurstAfter(ExpandHRP(hrp), x, y, i, j);
  }

  lemma BurstAfter(e: seq<bv8>, x: seq<bv8>, y: seq<bv8>, i: nat, j: nat)
    requires |x| == |y| && i <= j <= |x| && j - i <= 6 && Symbols(x) && Symbols(y)
    requires x[..i] == y[..i] && x[j..] == y[j..] && Run(1, e + x) == Run(1, e + y)
    ensures x == y
  {
    hide Step, Run, Plus, PlusSymbol;
    RunLinear(1, 1, e + x, e + y);
    PlusZero(1);
    PlusZero(Run(1, e + x));
    var d := Sum(e + x, e + y);
    DifferenceSymbols(e, x, y, i, j);
    if x != y {
      BurstDetected(d, |e| + i, |e| + j);
    }
  }

  lemma PlusSymbolFacts(v: bv8, w: bv8)
    ensures PlusSymbol(v, w) == 0 <==> v == w
    ensures v < 32 && w < 32 ==> PlusSymbol(v, w) < 32
  {
  }

  lemma DifferenceSymbols(e: seq<bv8>, x: seq<bv8>, y: seq<bv8>, i: nat, j: nat)
    requires |x| == |y| && i <= j <= |x| && Symbols(x) && Symbols(y)
    requires x[..i] == y[..i] && x[j..] == y[j..]
    ensures var d := Sum(e + x, e + y);
            && Symbols(d) && AllZero(d[..|e| + i]) && AllZero(d[|e| + j..])
            && (x != y ==> !AllZero(d[|e| + i..|e| + j]))
  {
    hide PlusSymbol;
    var d := Sum(e + x, e + y);
    forall k | 0 <= k < |d| ensures d[k] < 32 && (d[k] == 0 <==> (e + x)[k] == (e + y)[k]) {
      PlusSymbolFacts((e + x)[k], (e + y)[k]);
    }
    forall k | 0 <= k < i || j <= k < |x| ensures x[k] == y[k] {
      assert k < i ==> x[..i][k] == y[..i][k];
      assert k >= j ==> x[j..][k - j] == y[j..][k - j];
    }
    if x != y {
      var k :| 0 <= k < |x| && x[k] != y[k];
      assert d[|e| + i..|e| + j][k - i] == d[|e| + k];
    }
  }
}
