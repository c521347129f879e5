/** Base58 on values (src/base58.cpp): big-endian digits, the alphabet, C strings with
    surrounding spaces, and the two conversions as functions of their input. */
module Base58Spec {
  import opened Basics
  import opened Numbers

  // ---------- Big-endian digits ----------

  function Big(ds: seq<int>, b: int): int {
    if ds == [] then 0 else Big(ds[..|ds| - 1], b) * b + ds[|ds| - 1]
  }

  lemma LastDigit(v: nat, b: nat)
    requires v > 0 && b > 1
    ensures 0 <= v / b < v && 0 <= v % b < b && v == v / b * b + v % b
  {
    var q := v / b;
    assert v == q * b + v % b;
    if q < 0 {
      MulMono(q, -1, b);
    } else if q > 0 {
      MulStrict(1, b, q);
    }
  }

  /** The digits of v without leading zeroes. */
  function ToBase(v: nat, b: nat): (ds: seq<int>)
    requires b > 1
    ensures Digits(ds, b) && (ds == [] || ds[0] != 0)
  {
    if v == 0 then [] else LastDigit(v, b); ToBase(v / b, b) + [v % b]
  }

  lemma {:induction false} BigOfToBase(v: nat, b: nat)
    requires b > 1
    ensures Big(ToBase(v, b), b) == v
  {
    if v != 0 {
      LastDigit(v, b);
      BigOfToBase(v / b, b);
      BigSnoc(ToBase(v / b, b), v % b, b);
    }
  }

  lemma BigSnoc(ds: seq<int>, d: int, b: int)
    ensures Big(ds + [d], b) == Big(ds, b) * b + d
  {
    assert (ds + [d])[..|ds|] == ds;
  }

  lemma {:induction false} BigBound(ds: seq<int>, b: nat)
    requires Digits(ds, b) && b > 1
    ensures 0 <= Big(ds, b) < Pow(b, |ds|)
    ensures ds != [] && ds[0] != 0 ==> Big(ds, b) > 0
  {
    if ds != [] {
      var hi, d := Big(ds[..|ds| - 1], b), ds[|ds| - 1];
      BigBound(ds[..|ds| - 1], b);
      DigitBound(hi, d, Pow(b, |ds| - 1), b);
    }
  }

  lemma DigitBound(hi: int, d: int, p: int, b: nat)
    requires 0 <= hi < p && 0 <= d < b
    ensures 0 <= hi * b + d < b * p && (hi > 0 || d > 0 ==> hi * b + d > 0)
  {
    MulMono(0, hi, b);
    MulMono(hi + 1, p, b);
    assert (hi + 1) * b == hi * b + b;
    if hi > 0 { MulMono(1, hi, b); }
  }

  lemma {:induction false} ToBaseOfBig(ds: seq<int>, b: nat)
    requires b > 1 && Digits(ds, b) && (ds == [] || ds[0] != 0)
    ensures Big(ds, b) >= 0 && ToBase(Big(ds, b), b) == ds
  {
    BigBound(ds, b);
    if ds != [] {
      var init, d := ds[..|ds| - 1], ds[|ds| - 1];
      ToBaseOfBig(init, b);
      DivModUnique(Big(ds, b), b, Big(init, b), d);
      assert ds == init + [d];
    }
  }

  lemma {:induction false} BigAppend(s: seq<int>, t: seq<int>, b: nat)
    ensures Big(s + t, b) == Big(s, b) * Pow(b, |t|) + Big(t, b)
  {
    if t == [] {
      assert s + t == s;
    } else {
      var init, d := t[..|t| - 1], t[|t| - 1];
      assert (s + t)[..|s + t| - 1] == s + init;
      BigAppend(s, init, b);
      HornerStep(Big(s, b), Pow(b, |init|), Big(init, b), b);
    }
  }

  lemma HornerStep(x: int, p: int, y: int, b: int)
    ensures (x * p + y) * b == x * (b * p) + y * b
  {
    assert (x * p) * b == x * (b * p);
  }

  lemma {:induction false} BigZeros(ds: seq<int>, b: nat)
    requires forall i :: 0 <= i < |ds| ==> ds[i] == 0
    ensures Big(ds, b) == 0
  {
    if ds != [] { BigZeros(ds[..|ds| - 1], b); }
  }

  /** Leading zeroes do not count. */
  lemma BigLeadingZeros(ds: seq<int>, k: nat, b: nat)
    requires k <= |ds| && forall i :: 0 <= i < k ==> ds[i] == 0
    ensures Big(ds, b) == Big(ds[k..], b)
  {
    assert ds == ds[..k] + ds[k..];
    BigAppend(ds[..k], ds[k..], b);
    BigZeros(ds[..k], b);
  }

  // ---------- Between bases, leading zeroes kept ----------

  function Zeros(ds: seq<int>): (z: nat)
    ensures z <= |ds| && (z == |ds| || ds[z] != 0)
    ensures forall i :: 0 <= i < z ==> ds[i] == 0
  {
    if ds == [] || ds[0] != 0 then 0 else 1 + Zeros(ds[1..])
  }

  function Repeat<T>(n: nat, x: T): (s: seq<T>)
    ensures |s| == n && forall i :: 0 <= i < n ==> s[i] == x
  {
    seq(n, _ => x)
  }

  /** One zero digit for each leading zero, then the number in the other base. */
  function Convert(ds: seq<int>, from: nat, to: nat): (r: seq<int>)
    requires from > 1 && to > 1 && Digits(ds, from)
    ensures Digits(r, to)
  {
    BigBound(ds, from);
    Repeat(Zeros(ds), 0) + ToBase(Big(ds, from), to)
  }

  lemma ZerosUnique(ds: seq<int>, z: nat)
    requires z <= |ds| && (z == |ds| || ds[z] != 0) && forall i :: 0 <= i < z ==> ds[i] == 0
    ensures Zeros(ds) == z
  {
    hide Zeros;
  }

  /** Converting back undoes the conversion, leading zeroes included. */
  lemma ConvertBack(ds: seq<int>, from: nat, to: nat)
    requires from > 1 && to > 1 && Digits(ds, from)
    ensures Convert(Convert(ds, from, to), to, from) == ds
  {
    hide Zeros, ToBase, Big;
    BigBound(ds, from);
    var z, v := Zeros(ds), Big(ds, from);
    var c := Convert(ds, from, to);
    var n := ToBase(v, to);
    ZerosUnique(c, z);
    assert c[z..] == n;
    BigLeadingZeros(c, z, to);
    BigOfToBase(v, to);
    BigLeadingZeros(ds, z, from);
    ToBaseOfBig(ds[z..], from);
    assert ds == Repeat(z, 0) + ds[z..];
  }

  // ---------- The alphabet ----------

  // The run of digits, then the letters without I, O and l.
  const ALPHABET := "123456789" + "ABCDEFGH" + "JKLMN" + "PQRSTUVWXYZ" + "abcdefghijk" + "mnopqrstuvwxyz"

  predicate Increasing(s: string) {
    forall i, j :: 0 <= i < j < |s| ==> s[i] < s[j]
  }

  lemma JoinIncreasing(s: string, t: string)
    requires Increasing(s) && Increasing(t) && (s != [] && t != [] ==> s[|s| - 1] < t[0])
    ensures Increasing(s + t)
  {
  }

  lemma LettersIncreasing()
    ensures Increasing("ABCDEFGH" + "JKLMN" + "PQRSTUVWXYZ")
  {
    JoinIncreasing("ABCDEFGH", "JKLMN");
    JoinIncreasing("ABCDEFGH" + "JKLMN", "PQRSTUVWXYZ");
  }

  lemma LowerIncreasing()
    ensures Increasing("abcdefghijk" + "mnopqrstuvwxyz")
  {
    JoinIncreasing("abcdefghijk", "mnopqrstuvwxyz");
  }

  lemma AlphabetIncreasing()
    ensures |ALPHABET| == 58 && Increasing(ALPHABET) && ALPHABET[0] == '1'
  {
    LettersIncreasing();
    LowerIncreasing();
    JoinIncreasing("123456789", "ABCDEFGH" + "JKLMN" + "PQRSTUVWXYZ");
    JoinIncreasing("123456789" + ("ABCDEFGH" + "JKLMN" + "PQRSTUVWXYZ"), "abcdefghijk" + "mnopqrstuvwxyz");
    assert ALPHABET == "123456789" + ("ABCDEFGH" + "JKLMN" + "PQRSTUVWXYZ") + ("abcdefghijk" + "mnopqrstuvwxyz");
  }

  /** The position of c in s, or -1 (strchr). */
  function IndexIn(s: string, c: char): (i: int)
    ensures -1 <= i < |s|
    ensures i >= 0 ==> s[i] == c
    ensures i == -1 <==> c !in s
  {
    if s == [] then -1
    else if s[0] == c then 0
    else var i := IndexIn(s[1..], c); if i == -1 then -1 else i + 1
  }

  function DigitOf(c: char): (d: int)
    ensures -1 <= d < 58
  {
    AlphabetIncreasing();
    IndexIn(ALPHABET, c)
  }

  function CharOf(d: int): char
    requires 0 <= d < 58
  {
    AlphabetIncreasing();
    ALPHABET[d]
  }

  lemma DigitOfCharOf(d: int)
    requires 0 <= d < 58
    ensures DigitOf(CharOf(d)) == d
    ensures !IsSpace(CharOf(d)) && CharOf(d) != '\0'
    ensures d == 0 <==> CharOf(d) == '1'
  {
    AlphabetIncreasing();
    var i := IndexIn(ALPHABET, CharOf(d));
    assert ALPHABET[i] == ALPHABET[d];
    if d > 0 { assert ALPHABET[0] < ALPHABET[d]; }
  }

  lemma CharOfDigitOf(c: char)
    requires DigitOf(c) != -1
    ensures CharOf(DigitOf(c)) == c
  {
    hide IndexIn;
  }

  function ToChars(ds: seq<int>): string
    requires Digits(ds, 58)
  {
    seq(|ds|, i requires 0 <= i < |ds| => CharOf(ds[i]))
  }

  predicate AllDigits(w: string) {
    forall i :: 0 <= i < |w| ==> DigitOf(w[i]) != -1
  }

  function ToDigits(w: string): (ds: seq<int>)
    requires AllDigits(w)
    ensures Digits(ds, 58)
  {
    seq(|w|, i requires 0 <= i < |w| => DigitOf(w[i]))
  }

  lemma CharsAndDigits(ds: seq<int>)
    requires Digits(ds, 58)
    ensures AllDigits(ToChars(ds)) && ToDigits(ToChars(ds)) == ds
    ensures forall i :: 0 <= i < |ds| ==> !IsSpace(ToChars(ds)[i]) && ToChars(ds)[i] != '\0'
  {
    hide DigitOf, CharOf;
    forall i | 0 <= i < |ds|
      ensures DigitOf(ToChars(ds)[i]) == ds[i] && !IsSpace(ToChars(ds)[i]) && ToChars(ds)[i] != '\0'
    {
      DigitOfCharOf(ds[i]);
    }
  }

  lemma DigitsAndChars(w: string)
    requires AllDigits(w)
    ensures ToChars(ToDigits(w)) == w
  {
    hide DigitOf, CharOf;
    forall i | 0 <= i < |w| ensures ToChars(ToDigits(w))[i] == w[i] {
      CharOfDigitOf(w[i]);
    }
  }

  // ---------- C strings ----------

  // isspace in the C locale.
  predicate IsSpace(c: char) { c == ' ' || '\t' <= c <= '\r' }

  predicate AllSpace(s: string) {
    forall i :: 0 <= i < |s| ==> IsSpace(s[i])
  }

  /** What a C function sees of s: everything before the first NUL. */
  function CString(s: string): (c: string)
    ensures |c| <= |s| && c == s[..|c|] && (|c| == |s| || s[|c|] == '\0')
    ensures forall i :: 0 <= i < |c| ==> s[i] != '\0'
  {
    if s == [] || s[0] == '\0' then [] else [s[0]] + CString(s[1..])
  }

  lemma CStringUnique(s: string, n: nat)
    requires n <= |s| && (n == |s| || s[n] == '\0') && forall i :: 0 <= i < n ==> s[i] != '\0'
    ensures CString(s) == s[..n]
  {
    hide CString;
  }

  function Spaces(s: string): (n: nat)
    ensures n <= |s| && (n == |s| || !IsSpace(s[n])) && forall i :: 0 <= i < n ==> IsSpace(s[i])
  {
    if s == [] || !IsSpace(s[0]) then 0 else 1 + Spaces(s[1..])
  }

  /** The length of the leading part without spaces. */
  function WordLength(s: string): (n: nat)
    ensures n <= |s| && (n == |s| || IsSpace(s[n])) && forall i :: 0 <= i < n ==> !IsSpace(s[i])
  {
    if s == [] || IsSpace(s[0]) then 0 else 1 + WordLength(s[1..])
  }

  // ---------- The two conversions ----------

  function Encoded(bytes: seq<int>): string
    requires Digits(bytes, 256)
  {
    ToChars(Convert(bytes, 256, 58))
  }

  function Decoded(s: string): (r: Option<seq<int>>)
    ensures r.Some? ==> Digits(r.value, 256)
  {
    var c := CString(s);
    var t := c[Spaces(c)..];
    var w := t[..WordLength(t)];
    if !AllDigits(w) || !AllSpace(t[|w|..]) then None
    else Some(Convert(ToDigits(w), 58, 256))
  }

  ghost predicate Surrounded(c: string, w: string, before: string, after: string) {
    AllSpace(before) && AllSpace(after) && c == before + w + after
  }

  /** The decoder accepts exactly the encoder's strings, with any spaces around them. */
  lemma DecodeMeaning(s: string, bytes: seq<int>)
    requires Digits(bytes, 256)
    ensures Decoded(s) == Some(bytes) <==>
            exists before, after :: Surrounded(CString(s), Encoded(bytes), before, after)
  {
    if Decoded(s) == Some(bytes) {
      DecodedIsEncoded(s, bytes);
    }
    forall before, after | Surrounded(CString(s), Encoded(bytes), before, after)
      ensures Decoded(s) == Some(bytes)
    {
      EncodedDecodes(s, bytes, before, after);
    }
  }

  lemma DecodedIsEncoded(s: string, bytes: seq<int>)
    requires Digits(bytes, 256) && Decoded(s) == Some(bytes)
    ensures exists before, after :: Surrounded(CString(s), Encoded(bytes), before, after)
  {
    hide Convert, ToDigits, ToChars, CString, Spaces, WordLength, AllDigits, IsSpace, Digits;
    var c := CString(s);
    var before := c[..Spaces(c)];
    var t := c[Spaces(c)..];
    var w, after := t[..WordLength(t)], t[WordLength(t)..];
    ConvertBack(ToDigits(w), 58, 256);
    DigitsAndChars(w);
    assert c == before + w + after;
    assert Surrounded(c, Encoded(bytes), before, after);
  }

  lemma EncodedDecodes(s: string, bytes: seq<int>, before: string, after: string)
    requires Digits(bytes, 256) && Surrounded(CString(s), Encoded(bytes), before, after)
    ensures Decoded(s) == Some(bytes)
  {
    hide Convert, ToDigits, ToChars, CString, Spaces, WordLength;
    var ds := Convert(bytes, 256, 58);
    var c, w := CString(s), ToChars(ds);
    CharsAndDigits(ds);
    ConvertBack(bytes, 256, 58);
    SplitSurrounded(c, w, before, after);
  }

  lemma SplitSurrounded(c: string, w: string, before: string, after: string)
    requires Surrounded(c, w, before, after) && forall i :: 0 <= i < |w| ==> !IsSpace(w[i])
    ensures var t := c[Spaces(c)..]; t[..WordLength(t)] == w && AllSpace(t[|w|..])
  {
    hide Spaces, WordLength, IsSpace;
    SpacesUnique(c, if w == [] then |c| else |before|);
    var t := c[Spaces(c)..];
    if w != [] {
      assert t == w + after;
      WordLengthUnique(t, |w|);
    }
  }

  lemma SpacesUnique(s: string, n: nat)
    requires n <= |s| && (n == |s| || !IsSpace(s[n])) && forall i :: 0 <= i < n ==> IsSpace(s[i])
    ensures Spaces(s) == n
  {
    hide Spaces, IsSpace;
  }

  lemma WordLengthUnique(s: string, n: nat)
    requires n <= |s| && (n == |s| || IsSpace(s[n])) && forall i :: 0 <= i < n ==> !IsSpace(s[i])
    ensures WordLength(s) == n
  {
    hide WordLength, IsSpace;
  }

  /** Decoding what was encoded. */
  lemma DecodeOfEncode(bytes: seq<int>)
    requires Digits(bytes, 256)
    ensures Decoded(Encoded(bytes)) == Some(bytes)
  {
    hide CString, Convert;
    var w := Encoded(bytes);
    CharsAndDigits(Convert(bytes, 256, 58));
    CStringUnique(w, |w|);
    assert w == [] + w + [];
    EncodedDecodes(w, bytes, [], []);
  }

  // ---------- With a checksum ----------

  ghost predicate ByteHash(hash: seq<int> -> seq<int>) {
    forall b :: |hash(b)| == 32 && Digits(hash(b), 256)
  }

  function EncodedCheck(bytes: seq<int>, hash: seq<int> -> seq<int>): string
    requires Digits(bytes, 256) && ByteHash(hash)
  {
    Encoded(bytes + hash(bytes)[..4])
  }

  function DecodedCheck(s: string, hash: seq<int> -> seq<int>): (r: Option<seq<int>>)
    requires ByteHash(hash)
    ensures r.Some? ==> Digits(r.value, 256)
  {
    var d := Decoded(s);
    if d.None? || |d.value| < 4 then None
    else
      var n := |d.value| - 4;
      if hash(d.value[..n])[..4] == d.value[n..] then Some(d.value[..n]) else None
  }

  /** The checked decoder accepts exactly the checked encoder's strings. */
  lemma DecodeCheckMeaning(s: string, bytes: seq<int>, hash: seq<int> -> seq<int>)
    requires Digits(bytes, 256) && ByteHash(hash)
    ensures DecodedCheck(s, hash) == Some(bytes) <==>
            exists before, after :: Surrounded(CString(s), EncodedCheck(bytes, hash), before, after)
  {
    hide Decoded, Encoded, CString;
    var full := bytes + hash(bytes)[..4];
    DecodeMeaning(s, full);
    assert full[..|full| - 4] == bytes && full[|full| - 4..] == hash(bytes)[..4];
    assert Decoded(s) == Some(full) ==> DecodedCheck(s, hash) == Some(bytes);
    if DecodedCheck(s, hash) == Some(bytes) {
      assert Decoded(s).value == full;
      assert Decoded(s) == Some(full);
      assert EncodedCheck(bytes, hash) == Encoded(full);
    }
  }
}
