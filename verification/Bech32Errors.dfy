/** What the checksum of src/bech32.cpp detects: its minimum distance over whole words, the human-readable part
    included, and what that means for the strings a user types. */
module Bech32Errors {
  import opened Basics
  import opened Bech32Code
  import opened Bech32Spec
  import opened Bech32Distance
  import opened Bech32

  // ---------- Words ----------

  /** The places where two words differ. */
  function Places(u: seq<bv8>, v: seq<bv8>): set<int>
    requires |u| == |v|
  {
    set t | 0 <= t < |u| && u[t] != v[t]
  }

  lemma NoMore<T>(s: set<T>, x: T, n: nat)
    requires |s| <= n + 1 && x in s
    ensures |s - {x}| <= n
  {
  }

  /** At most three places, in order; one may stand for several. */
  lemma ThreeCover(s: set<int>) returns (i: int, j: int, k: int)
    requires s != {} && |s| <= 3
    ensures i in s && j in s && k in s && i <= j <= k && forall t :: t in s ==> t == i || t == j || t == k
  {
    i := Member(s);
    NoMore(s, i, 2);
    j, k := i, i;
    if s - {i} != {} {
      j := Member(s - {i});
      NoMore(s - {i}, j, 1);
      if s - {i} - {j} != {} {
        k := Member(s - {i} - {j});
        NoMore(s - {i} - {j}, k, 0);
        assert s - {i} - {j} - {k} == {};
      }
    }
    assert forall t :: t in s ==> t == i || t == j || t == k;
    if j < i { i, j := j, i; }
    if k < j { j, k := k, j; }
    if j < i { i, j := j, i; }
  }

  /** Different words of at most 1023 symbols with the same remainder differ in at least four places. */
  lemma MinimumDistance(u: seq<bv8>, v: seq<bv8>)
    requires |u| == |v| <= 1023 && Symbols(u) && Symbols(v) && Run(1, u) == Run(1, v)
    ensures u == v || |Places(u, v)| >= 4
  {
    hide Run;
    if u != v && |Places(u, v)| < 4 {
      var t :| 0 <= t < |u| && u[t] != v[t];
      assert t in Places(u, v);
      var i, j, k := ThreeCover(Places(u, v));
      assert [] + u == u && [] + v == v;
      forall p | 0 <= p < |u| && p != i && p != j && p != k ensures u[p] == v[p] {
        assert p !in Places(u, v);
      }
      ThreeAfter([], u, v, i, j, k);
    }
  }

  // ---------- The human-readable part ----------

  predicate SameByte(c: char, d: char) { c as int % 256 == d as int % 256 }

  lemma ExpandedSymbols(hrp: string)
    ensures Symbols(ExpandHRP(hrp))
  {
    hide HighBits, LowBits;
    forall i | 0 <= i < |hrp| ensures HighBits(hrp[i]) < 32 && LowBits(hrp[i]) < 32 {
      BitsOfByte(hrp[i]);
    }
  }

  /** Expansion keeps the bytes apart, in two places each. */
  lemma ExpandedAt(h: string, g: string, i: nat)
    requires |h| == |g| && i < |h|
    ensures var d, e, j := ExpandHRP(h), ExpandHRP(g), |h| + 1 + i;
            (SameByte(h[i], g[i]) <==> d[i] == e[i] && d[j] == e[j]) && d[|h|] == e[|h|]
  {
    hide HighBits, LowBits;
    BitsOfByte(h[i]);
    BitsOfByte(g[i]);
    SameBits(h[i], g[i]);
  }

  lemma SameBits(c: char, d: char)
    ensures SameByte(c, d) ==> HighBits(c) == HighBits(d) && LowBits(c) == LowBits(d)
  {
    if SameByte(c, d) { assert c as int % 32 == d as int % 32; }
  }

  lemma {:induction false} SameExpansion(h: string, g: string, x: seq<bv8>, y: seq<bv8>)
    requires |h| == |g| && |x| == |y| && ExpandHRP(h) + x == ExpandHRP(g) + y
    ensures x == y && forall i :: 0 <= i < |h| ==> SameByte(h[i], g[i])
  {
    hide ExpandHRP, SameByte;
    var n := 2 * |h| + 1;
    var u, v := ExpandHRP(h) + x, ExpandHRP(g) + y;
    assert x == u[n..] && y == v[n..] && ExpandHRP(h) == u[..n] && ExpandHRP(g) == v[..n];
    forall i | 0 <= i < |h| ensures SameByte(h[i], g[i]) {
      ExpandedAt(h, g, i);
    }
  }

  /** Two verified pairs of one shape whose words have at most 1023 symbols are the same or differ in four symbols. */
  lemma VerifiedDistance(h: string, g: string, x: seq<bv8>, y: seq<bv8>)
    requires |h| == |g| && |x| == |y| && 2 * |h| + 1 + |x| <= 1023 && Symbols(x) && Symbols(y)
    requires VerifyChecksum(h, x) && VerifyChecksum(g, y)
    ensures || (x == y && forall i :: 0 <= i < |h| ==> SameByte(h[i], g[i]))
            || |Places(ExpandHRP(h) + x, ExpandHRP(g) + y)| >= 4
  {
    hide Run, ExpandHRP, Symbols, SameByte, Places;
    var u, v := ExpandHRP(h) + x, ExpandHRP(g) + y;
    WordSymbols(h, x);
    WordSymbols(g, y);
    MinimumDistance(u, v);
    if u == v { SameExpansion(h, g, x, y); }
  }

  lemma WordSymbols(h: string, x: seq<bv8>)
    requires Symbols(x)
    ensures Symbols(ExpandHRP(h) + x)
  {
    hide ExpandHRP;
    ExpandedSymbols(h);
  }

  /** A wrong byte in the part, even with a wrong symbol among the values, is detected. */
  lemma PartErrors(h: string, g: string, x: seq<bv8>, y: seq<bv8>, p: nat, q: nat)
    requires |h| == |g| && |x| == |y| && p < |h| && q < |x| && 2 * |h| + 1 + q - p < 1023
    requires forall i :: 0 <= i < |h| && i != p ==> SameByte(h[i], g[i])
    requires forall i :: 0 <= i < |x| && i != q ==> x[i] == y[i]
    requires Symbols(x) && Symbols(y) && VerifyChecksum(h, x) && VerifyChecksum(g, y)
    ensures x == y && SameByte(h[p], g[p])
  {
    hide Run, ExpandHRP, Symbols, SameByte;
    var u, v := ExpandHRP(h) + x, ExpandHRP(g) + y;
    WordSymbols(h, x);
    WordSymbols(g, y);
    var i, j, k := p, |h| + 1 + p, 2 * |h| + 1 + q;
    forall t | 0 <= t < |u| && t != i && t != j && t != k ensures u[t] == v[t] {
      if t < |h| { ExpandedAt(h, g, t); }
      else if t == |h| { ExpandedAt(h, g, p); }
      else if t < 2 * |h| + 1 { ExpandedAt(h, g, t - |h| - 1); }
    }
    assert [] + u == u && [] + v == v;
    ThreeAfter([], u, v, i, j, k);
    SameExpansion(h, g, x, y);
  }

  // ---------- Strings ----------

  /** What an accepted string holds: in lower case its part, the separator and the characters of verified symbols. */
  lemma DecodedWord(s: string) returns (hrp: string, w: seq<bv8>)
    requires Decoded(s).Some?
    ensures Lowered(s) == hrp + "1" + Chars(w) && Symbols(w) && VerifyChecksum(hrp, w) && Plain(hrp)
    ensures LastOne(s) == |hrp|
  {
    hide VerifyChecksum, Checksum, CharOf, Rev, LowerCase, AnyLower, AnyUpper;
    var (h, values) := Decoded(s).value;
    hrp, w := h, values + Checksum(h, values);
    DecodedIsEncoded(s, h, values);
    ChecksumVerifies(h, values);
    ChecksumSymbols(h, values);
    assert |hrp| == LastOne(s);
  }

  lemma CharacterApart(v: bv8, w: bv8)
    requires v < 32 && w < 32
    ensures CharOf(v) == CharOf(w) ==> v == w
  {
    hide Rev, CharOf;
    var c := CharOf(v);
    RevMeaning(c, v);
    RevMeaning(c, w);
    if CharOf(v) == CharOf(w) {
      LowerOfLower(c);
      assert v as int == w as int;
    }
  }

  lemma LowerOfLower(c: char)
    requires !IsUpper(c)
    ensures LowerCase(c) == c
  {
  }

  /** Two accepted strings of one length with the separator at the same place that differ, apart from case, in at most
      one character before it and one after it, are the same apart from case. */
  lemma TypingErrors(s: string, t: string, p: nat, q: nat)
    requires Decoded(s).Some? && Decoded(t).Some? && |s| == |t| && LastOne(s) == LastOne(t)
    requires p < LastOne(s) < q < |s| && LastOne(s) + q - p < 1023
    requires forall i :: 0 <= i < |s| && i != p && i != q ==> LowerCase(s[i]) == LowerCase(t[i])
    ensures Lowered(s) == Lowered(t)
  {
    hide VerifyChecksum, CharOf, Rev, LowerCase, LastOne, Decoded, SameByte, Plain;
    var h, x := DecodedWord(s);
    var g, y := DecodedWord(t);
    var n := |h|;
    SameCharacters(s, t, h, x, g, y, p, q);
    PartErrors(h, g, x, y, p, q - n - 1);
    PlainByte(h, g, p);
    assert h == g;
  }

  lemma PlainByte(h: string, g: string, p: nat)
    requires Plain(h) && Plain(g) && p < |h| && p < |g| && SameByte(h[p], g[p])
    ensures h[p] == g[p]
  {
  }

  lemma SameCharacters(s: string, t: string, h: string, x: seq<bv8>, g: string, y: seq<bv8>, p: nat, q: nat)
    requires Lowered(s) == h + "1" + Chars(x) && Lowered(t) == g + "1" + Chars(y) && |s| == |t| && |h| == |g|
    requires Symbols(x) && Symbols(y) && p < |h| < q < |s|
    requires forall i :: 0 <= i < |s| && i != p && i != q ==> LowerCase(s[i]) == LowerCase(t[i])
    ensures |x| == |y| == |s| - |h| - 1
    ensures forall i :: 0 <= i < |h| && i != p ==> h[i] == g[i] && SameByte(h[i], g[i])
    ensures forall i :: 0 <= i < |x| && i != q - |h| - 1 ==> x[i] == y[i]
  {
    hide LowerCase, CharOf;
    var a, b, n := h + "1" + Chars(x), g + "1" + Chars(y), |h|;
    assert |Lowered(s)| == |a| && |Lowered(t)| == |b|;
    forall i | 0 <= i < |s| && i != p && i != q ensures a[i] == b[i] {
      assert Lowered(s)[i] == a[i] && Lowered(t)[i] == b[i];
    }
    forall i | 0 <= i < n && i != p ensures h[i] == g[i] {
      assert a[i] == h[i] && b[i] == g[i];
    }
    forall i | 0 <= i < |x| && i != q - n - 1 ensures x[i] == y[i] {
      assert a[n + 1 + i] == CharOf(x[i]) && b[n + 1 + i] == CharOf(y[i]);
      CharacterApart(x[i], y[i]);
    }
  }
}
