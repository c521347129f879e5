/** Where skip pointers lead (src/chain.cpp), and how many steps a walk along them takes. */
module SkipList {
  import opened Numbers

  // ---------- Skip heights ----------

  /** n & (n - 1); for 0 the second operand is all ones. */
  function InvertLowestOne(n: nat): (r: nat)
    ensures r <= n && (n > 0 ==> r < n)
  {
    if n == 0 then 0 else BitAnd(n, n - 1)
  }

  function GetSkipHeight(height: nat): (r: nat)
    ensures height > 0 ==> r < height
  {
    if height < 2 then 0
    else if height % 2 == 1 then InvertLowestOne(InvertLowestOne(height - 1)) + 1
    else InvertLowestOne(height)
  }

  /** It clears exactly the lowest one-bit. */
  lemma {:induction false} ClearsLowestOne(k: nat, m: nat)
    ensures InvertLowestOne((2 * m + 1) * Pow(2, k)) == 2 * m * Pow(2, k)
  {
    hide InvertLowestOne;
    var p := Pow(2, k);
    if k == 0 {
      ClearsOdd(m);
    } else {
      ClearsLowestOne(k - 1, m);
      var n := (2 * m + 1) * Pow(2, k - 1);
      DoubledTwice(m, Pow(2, k - 1));
      EvenStep(n);
    }
  }

  lemma DoubledTwice(m: nat, p: nat)
    requires p > 0
    ensures (2 * m + 1) * (2 * p) == 2 * ((2 * m + 1) * p) && 2 * m * (2 * p) == 2 * (2 * m * p) && (2 * m + 1) * p > 0
  {
    MulMono(1, 2 * m + 1, p);
  }

  lemma ClearsOdd(m: nat)
    ensures InvertLowestOne(2 * m + 1) == 2 * m
  {
    BitAndSelf(m);
  }

  lemma EvenStep(n: nat)
    requires n > 0
    ensures InvertLowestOne(2 * n) == 2 * InvertLowestOne(n)
  {
  }

  lemma {:induction false} BitAndSelf(m: nat)
    ensures BitAnd(m, m) == m && BitAnd(2 * m + 1, 2 * m) == 2 * m
  {
    if m > 0 { BitAndSelf(m / 2); }
  }

  // ---------- One-bits ----------

  function Ones(n: nat): nat {
    if n == 0 then 0 else Ones(n / 2) + n % 2
  }

  lemma {:induction false} OnesCleared(n: nat)
    requires n > 0
    ensures Ones(InvertLowestOne(n)) == Ones(n) - 1
  {
    hide InvertLowestOne, Ones;
    var m := n / 2;
    OnesDigit(m);
    if n % 2 == 1 {
      ClearsOdd(m);
    } else {
      OnesCleared(m);
      EvenStep(m);
      OnesDigit(InvertLowestOne(m));
    }
  }

  lemma OnesDigit(n: nat)
    ensures Ones(2 * n) == Ones(n) && Ones(2 * n + 1) == Ones(n) + 1
  {
  }

  lemma {:induction false} OnesBound(n: nat, d: nat)
    requires n < Pow(2, d)
    ensures Ones(n) <= d && (d > 0 && n % 2 == 0 ==> Ones(n) < d)
  {
    if n > 0 { OnesBound(n / 2, d - 1); }
  }

  /** Clearing a bit below position d leaves everything from d on alone. */
  lemma {:induction false} ClearsLocally(a: nat, d: nat, x: nat)
    requires 0 < x < Pow(2, d)
    ensures InvertLowestOne(a * Pow(2, d) + x) == a * Pow(2, d) + InvertLowestOne(x)
  {
    hide InvertLowestOne;
    var p := a * Pow(2, d - 1);
    assert a * Pow(2, d) == 2 * p;
    if x % 2 == 1 {
      ClearsOdd(x / 2);
      ClearsOdd(p + x / 2);
    } else {
      ClearsLocally(a, d - 1, x / 2);
      EvenStep(x / 2);
      EvenStep(p + x / 2);
    }
  }

  // ---------- The walk ----------

  /** The height GetAncestor goes to next on its way from h to g. */
  function Next(h: nat, g: nat): (r: nat)
    requires h > g
    ensures g <= r < h
  {
    var skip, skipPrev := GetSkipHeight(h), GetSkipHeight(h - 1);
    if skip == g || (skip > g && !(skipPrev < skip - 2 && skipPrev >= g)) then skip else h - 1
  }

  function Steps(h: nat, g: nat): nat {
    if h <= g then 0 else 1 + Steps(Next(h, g), g)
  }

  // An odd multiple of 2^d.
  function Base(q: nat, d: nat): (b: nat)
    ensures b >= Pow(2, d) > 0
  {
    MulMono(1, 2 * q + 1, Pow(2, d));
    (2 * q + 1) * Pow(2, d)
  }

  lemma BaseFacts(q: nat, d: nat)
    ensures InvertLowestOne(Base(q, d)) == Base(q, d) - Pow(2, d)
    ensures d > 0 ==> Base(q, d) % 2 == 0 && Pow(2, d) % 2 == 0
  {
    hide InvertLowestOne, Pow;
    ClearsLowestOne(d, q);
    assert (2 * q + 1) * Pow(2, d) == 2 * q * Pow(2, d) + Pow(2, d);
    if d > 0 { BaseEven(q, d); }
  }

  lemma BaseEven(q: nat, d: nat)
    requires d > 0
    ensures Base(q, d) % 2 == 0 && Pow(2, d) % 2 == 0
  {
    hide Pow;
    PowSucc(2, d - 1);
    DoubledTwice(q, Pow(2, d - 1));
  }

  lemma BaseLocal(q: nat, d: nat, x: nat)
    requires 0 < x < Pow(2, d)
    ensures InvertLowestOne(Base(q, d) + x) == Base(q, d) + InvertLowestOne(x)
  {
    ClearsLocally(2 * q + 1, d, x);
  }

  /** Twice clearing from base + x, for an even x with fewer or more than two ones. */
  lemma ClearedTwice(q: nat, d: nat, x: nat)
    requires d > 0 && x < Pow(2, d)
    ensures var c := InvertLowestOne(InvertLowestOne(Base(q, d) + x));
            if Ones(x) >= 2
            then c == Base(q, d) + InvertLowestOne(InvertLowestOne(x)) &&
                Ones(InvertLowestOne(InvertLowestOne(x))) == Ones(x) - 2
            else c <= Base(q, d) - Pow(2, d)
  {
    hide InvertLowestOne, Base, Pow;
    BaseFacts(q, d);
    if x > 0 {
      BaseLocal(q, d, x);
      OnesCleared(x);
      var y := InvertLowestOne(x);
      OnesZero(y);
      if y > 0 {
        BaseLocal(q, d, y);
        OnesCleared(y);
      }
    }
  }

  lemma {:induction false} OnesZero(n: nat)
    ensures Ones(n) == 0 <==> n == 0
  {
    if n > 1 { OnesZero(n / 2); }
  }

  // ---------- Parity decides ----------

  lemma SkipFromEven(h: nat)
    requires h >= 2 && h % 2 == 0
    ensures GetSkipHeight(h) == InvertLowestOne(h)
  {
  }

  lemma SkipFromOdd(h: nat)
    requires h >= 2 && h % 2 == 1
    ensures GetSkipHeight(h) == InvertLowestOne(InvertLowestOne(h - 1)) + 1
  {
  }

  /** From an odd height the skip is taken unless it goes too far. */
  lemma OddNext(h: nat, g: nat)
    requires h > g && h % 2 == 1 && h > 1
    ensures Next(h, g) == if GetSkipHeight(h) >= g then GetSkipHeight(h) else h - 1
  {
    hide InvertLowestOne;
  }

  /** From an even height too, unless the skip one below is better, which is then taken next. */
  lemma EvenNext(h: nat, g: nat)
    requires h > g && h % 2 == 0 && GetSkipHeight(h) > g
    ensures || Next(h, g) == GetSkipHeight(h)
            || (&& Next(h, g) == h - 1 && g <= GetSkipHeight(h - 1) < GetSkipHeight(h) - 2
                && Steps(h, g) == 2 + Steps(GetSkipHeight(h - 1), g))
  {
    hide InvertLowestOne;
    if Next(h, g) != GetSkipHeight(h) { OddNext(h - 1, g); }
  }

  lemma {:induction false} ClearsEven(n: nat)
    requires n % 2 == 0
    ensures InvertLowestOne(n) % 2 == 0
  {
    hide InvertLowestOne;
    if n > 0 { EvenStep(n / 2); }
  }

  lemma ClearsEight(m: nat)
    requires m > 0
    ensures InvertLowestOne(8 * m) <= 8 * m - 8
    ensures InvertLowestOne(InvertLowestOne(8 * m - 2)) == 8 * m - 8
  {
    hide InvertLowestOne;
    EvenStep(4 * m);
    EvenStep(2 * m);
    EvenStep(m);
    EvenStep(4 * m - 1);
    ClearsOdd(2 * m - 1);
    EvenStep(2 * (2 * m - 1));
    EvenStep(2 * m - 1);
    ClearsOdd(m - 1);
  }

  lemma OnesTwoLess(x: nat)
    requires x >= 2 && x % 2 == 0 && x % 8 != 0
    ensures Ones(x - 2) <= Ones(x)
  {
    hide Ones;
    var y := x / 2;
    OnesDigit(y);
    OnesDigit(y - 1);
    if y % 2 == 1 { OnesDigit((y - 1) / 2); } else { OnesTwoLessQuarter((y - 2) / 4, y); }
  }

  lemma OnesTwoLessQuarter(m: nat, y: nat)
    requires y == 4 * m + 2
    ensures Ones(y - 1) == Ones(y)
  {
    hide Ones;
    OnesDigit(m);
    OnesDigit(2 * m);
    OnesDigit(2 * m + 1);
  }

  /** When the skip one below is better it has fewer ones: x is no multiple of 8 then. */
  lemma BetterSkip(q: nat, d: nat, x: nat)
    requires d > 0 && 0 < x < Pow(2, d) && x % 2 == 0
    requires Base(q, d) <= GetSkipHeight(Base(q, d) + x - 1) < GetSkipHeight(Base(q, d) + x) - 2
    ensures var y := GetSkipHeight(Base(q, d) + x - 1) - Base(q, d); y % 2 == 1 && Ones(y) < Ones(x) && y < x
  {
    hide InvertLowestOne, GetSkipHeight, Base, Pow, Ones;
    BaseFacts(q, d);
    SkipFromEven(Base(q, d) + x);
    SkipFromOdd(Base(q, d) + x - 1);
    ClearedTwice(q, d, x - 2);
    BaseLocal(q, d, x);
    var z := InvertLowestOne(InvertLowestOne(x - 2));
    ClearsEven(x - 2);
    ClearsEven(InvertLowestOne(x - 2));
    OnesDigit(z / 2);
    assert GetSkipHeight(Base(q, d) + x - 1) == Base(q, d) + z + 1;
    if x % 8 == 0 { ClearsEight(x / 8); } else { OnesTwoLess(x); }
  }

  // ---------- The bound ----------

  // 1 + 2 + ... + b
  function Triangle(b: nat): nat { if b == 0 then 0 else Triangle(b - 1) + b }

  lemma StepsNext(h: nat, g: nat)
    requires h > g
    ensures Steps(h, g) == 1 + Steps(Next(h, g), g)
  {
  }

  // What a position with n ones above an even base costs at most, on top of the part below the base.
  function EvenCost(n: nat): nat { if n <= 1 then n + 1 else n + 2 }

  /** From base + x, x even, to a height within 2^d below base: the ones of x go one by one, or the skip one below
      takes over, and then a lower part is left. */
  lemma {:induction false} EvenSteps(q: nat, d: nat, x: nat, g: nat)
    requires d > 0 && x < Pow(2, d) && x % 2 == 0 && Base(q, d) - Pow(2, d) <= g < Base(q, d)
    ensures Steps(Base(q, d) + x, g) <= Triangle(d) + EvenCost(Ones(x))
    decreases d, 2, x
  {
    hide InvertLowestOne, GetSkipHeight, Next, Steps, Base, Pow, Ones, Triangle;
    var h := Base(q, d) + x;
    BaseFacts(q, d);
    SkipFromEven(h);
    StepsNext(h, g);
    OnesZero(x);
    if x == 0 {
      BelowBase(q, d, Next(h, g), g);
    } else {
      BaseLocal(q, d, x);
      OnesCleared(x);
      EvenNext(h, g);
      if Next(h, g) == GetSkipHeight(h) {
        ClearsEven(x);
        EvenSteps(q, d, InvertLowestOne(x), g);
      } else if GetSkipHeight(h - 1) < Base(q, d) {
        BelowBase(q, d, GetSkipHeight(h - 1), g);
      } else {
        BetterSkip(q, d, x);
        OnesZero(GetSkipHeight(h - 1) - Base(q, d));
        OddSteps(q, d, GetSkipHeight(h - 1) - Base(q, d), g);
      }
    }
  }

  lemma {:induction false} OddSteps(q: nat, d: nat, x: nat, g: nat)
    requires d > 0 && x < Pow(2, d) && x % 2 == 1 && Base(q, d) - Pow(2, d) <= g < Base(q, d)
    ensures Steps(Base(q, d) + x, g) <= Triangle(d) + Ones(x) / 2 + 2
    decreases d, 2, x
  {
    hide InvertLowestOne, GetSkipHeight, Next, Steps, Base, Pow, Ones, Triangle;
    var h := Base(q, d) + x;
    BaseFacts(q, d);
    SkipFromOdd(h);
    StepsNext(h, g);
    OddNext(h, g);
    OnesDigit(x / 2);
    ClearedTwice(q, d, x - 1);
    if Ones(x - 1) >= 2 {
      var y := InvertLowestOne(InvertLowestOne(x - 1));
      ClearsEven(x - 1);
      ClearsEven(InvertLowestOne(x - 1));
      OnesDigit(y / 2);
      ClearedLess(x - 1);
      OddSteps(q, d, y + 1, g);
    } else if GetSkipHeight(h) >= g {
      BelowBase(q, d, GetSkipHeight(h), g);
    } else {
      EvenSteps(q, d, x - 1, g);
    }
  }

  lemma ClearedLess(n: nat)
    requires Ones(n) >= 2
    ensures InvertLowestOne(InvertLowestOne(n)) < n
  {
    hide InvertLowestOne;
    OnesZero(n);
  }

  lemma BelowBase(q: nat, d: nat, h: nat, g: nat)
    requires Base(q, d) - Pow(2, d) <= g <= h < Base(q, d)
    ensures Steps(h, g) <= Triangle(d)
    decreases d, 1, 0
  {
    hide Steps, Triangle, Pow;
    var low := 2 * q * Pow(2, d);
    assert Base(q, d) == low + Pow(2, d);
    BlockSteps(2 * q, d, h - low, g - low);
  }

  lemma TriangleNext(b: nat)
    requires b > 0
    ensures Triangle(b) == Triangle(b - 1) + b
  {
  }

  /** Heights that agree from bit b on are at most 1 + 2 + ... + b steps apart. */
  lemma {:induction false} BlockSteps(a: nat, b: nat, x: nat, y: nat)
    requires y <= x < Pow(2, b)
    ensures Steps(a * Pow(2, b) + x, a * Pow(2, b) + y) <= Triangle(b)
    decreases b, 0, 0
  {
    hide Steps, Triangle, Base;
    if b == 0 {
      NoSteps(a * Pow(2, b));
    } else {
      var p := Pow(2, b - 1);
      assert a * Pow(2, b) == 2 * a * p;
      assert (2 * a + 1) * p == 2 * a * p + p;
      TriangleNext(b);
      if x < p {
        BlockSteps(2 * a, b - 1, x, y);
      } else if y >= p {
        BlockSteps(2 * a + 1, b - 1, x - p, y - p);
      } else {
        CrossSteps(a, b - 1, x - p, y);
      }
    }
  }

  lemma NoSteps(h: nat)
    ensures Steps(h, h) == 0
  {
  }

  // From above an odd multiple of 2^d to below it.
  lemma CrossSteps(q: nat, d: nat, x: nat, y: nat)
    requires x < Pow(2, d) && y < Pow(2, d)
    ensures Steps((2 * q + 1) * Pow(2, d) + x, 2 * q * Pow(2, d) + y) <= Triangle(d) + d + 1
    decreases d, 3, 0
  {
    hide Steps, Next, Ones, Triangle;
    var g := 2 * q * Pow(2, d) + y;
    assert Base(q, d) == 2 * q * Pow(2, d) + Pow(2, d);
    OnesBound(x, d);
    if d == 0 {
      StepsNext(Base(q, d) + x, g);
      NoSteps(g);
    } else if x % 2 == 0 {
      EvenSteps(q, d, x, g);
    } else {
      OddSteps(q, d, x, g);
    }
  }

  /** A walk between heights below 2^b takes at most b (b + 1) / 2 steps. */
  lemma StepsBound(h: nat, g: nat, b: nat)
    requires g <= h < Pow(2, b)
    ensures Steps(h, g) <= Triangle(b) == b * (b + 1) / 2
  {
    hide Steps, Triangle, Pow;
    BlockSteps(0, b, h, g);
    TriangleClosed(b);
  }

  lemma StepsBounds(h: nat, g: nat)
    requires g <= h
    ensures forall b: nat :: h < Pow(2, b) ==> Steps(h, g) <= Triangle(b)
  {
    hide Steps, Triangle, Pow;
    forall b: nat | h < Pow(2, b) ensures Steps(h, g) <= Triangle(b) {
      StepsBound(h, g, b);
    }
  }

  lemma {:induction false} TriangleClosed(b: nat)
    ensures Triangle(b) == b * (b + 1) / 2
  {
    if b > 0 {
      TriangleClosed(b - 1);
      assert b * (b + 1) == (b - 1) * b + 2 * b;
    }
  }
}
