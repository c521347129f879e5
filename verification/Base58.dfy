/** EncodeBase58 and DecodeBase58 on in-place digit buffers (src/base58.cpp). */
module Base58 {
  import opened Basics
  import opened Numbers
  import opened Base58Spec

  // ---------- The digit buffer ----------

  /** The inner loop of both directions: buf = buf * factor + digit, from the last digit up,
      over the digits in use and as far as the carry reaches. */
  method MultiplyAdd(buf: array<int>, length: nat, base: nat, factor: nat, digit: nat) returns (carry: nat, used: nat)
    requires base > 1 && Digits(buf[..], base) && length <= buf.Length
    requires forall k :: 0 <= k < buf.Length - length ==> buf[k] == 0
    modifies buf
    ensures Digits(buf[..], base) && used <= buf.Length
    ensures forall k :: 0 <= k < buf.Length - used ==> buf[k] == 0
    ensures Big(buf[..], base) + carry * Pow(base, buf.Length) == factor * old(Big(buf[..], base)) + digit
  {
    hide Pow, Big;
    var size := buf.Length;
    ghost var was := buf[..];
    carry, used := digit, 0;
    SuffixStart(was, base);
    while (carry != 0 || used < length) && used < size
      invariant used <= size && Digits(buf[..], base)
      invariant forall k :: 0 <= k < size - used ==> buf[k] == was[k]
      invariant Big(buf[..][size - used..], base) + carry * Pow(base, used) ==
                  factor * Big(was[size - used..], base) + digit
    {
      ghost var before := buf[..];
      var at := size - 1 - used;
      carry := carry + factor * buf[at];
      ghost var total := carry;
      SplitCarry(total, base);
      buf[at] := carry % base;
      carry := carry / base;
      MultiplyStep(before, buf[..], was, used, base, factor, total, digit);
      used := used + 1;
    }
    WholeNumber(buf[..], was, length, used, base);
    Replace(Big(buf[..][size - used..], base), Big(buf[..], base), carry, Pow(base, used), Pow(base, size),
            factor, Big(was[size - used..], base), Big(was, base), digit);
  }

  lemma SuffixStart(was: seq<int>, base: nat)
    ensures Big(was[|was|..], base) == 0 && Pow(base, 0) == 1
  {
  }

  lemma SplitCarry(n: nat, base: nat)
    requires base > 1
    ensures 0 <= n % base < base && n / base >= 0 && n == n / base * base + n % base
  {
    if n > 0 { LastDigit(n, base); } else { DivModUnique(0, base, 0, 0); }
  }

  lemma MultiplyStep(before: seq<int>, after: seq<int>, was: seq<int>, used: nat, base: nat, factor: nat, total: nat,
      digit: nat)
    requires base > 1 && |before| == |after| == |was| && used < |was|
    requires var at := |was| - 1 - used; after == before[at := total % base] && before[at] == was[at]
    requires var at := |was| - 1 - used;
             Big(before[at + 1..], base) + (total - factor * was[at]) * Pow(base, used) ==
                 factor * Big(was[at + 1..], base) + digit
    ensures var at := |was| - 1 - used;
            Big(after[at..], base) + total / base * Pow(base, used + 1) == factor * Big(was[at..], base) + digit
  {
    hide Pow, Big;
    var at := |was| - 1 - used;
    var p := Pow(base, used);
    BigCons(after, at, base);
    BigCons(was, at, base);
    assert after[at + 1..] == before[at + 1..];
    SplitCarry(total, base);
    PowSucc(base, used);
    StepAlgebra(total / base, total % base, base, p, factor, was[at], Big(before[at + 1..], base),
        Big(was[at + 1..], base), digit);
  }

  lemma StepAlgebra(q: int, r: int, b: int, p: int, f: int, d: int, lo: int, lo': int, digit: int)
    requires lo + (q * b + r - f * d) * p == f * lo' + digit
    ensures r * p + lo + q * (b * p) == f * (d * p + lo') + digit
  {
    assert (q * b + r - f * d) * p == q * (b * p) + r * p - f * (d * p);
  }

  lemma BigCons(s: seq<int>, at: nat, b: nat)
    requires at < |s|
    ensures Big(s[at..], b) == s[at] * Pow(b, |s| - 1 - at) + Big(s[at + 1..], b)
  {
    assert s[at..] == [s[at]] + s[at + 1..];
    BigAppend([s[at]], s[at + 1..], b);
    assert Big([s[at]], b) == s[at] by { assert [s[at]][..0] == []; }
  }

  // Digits above the ones in use are still zero, so the suffix is the whole number.
  lemma WholeNumber(after: seq<int>, was: seq<int>, length: nat, used: nat, base: nat)
    requires |after| == |was| && used <= |was| && length <= |was| && (used == |was| || used >= length)
    requires forall k :: 0 <= k < |was| - length ==> was[k] == 0
    requires forall k :: 0 <= k < |was| - used ==> after[k] == was[k]
    ensures Big(after, base) == Big(after[|was| - used..], base)
    ensures Big(was, base) == Big(was[|was| - used..], base)
    ensures forall k :: 0 <= k < |was| - used ==> after[k] == 0
  {
    hide Big;
    forall k | 0 <= k < |was| - used ensures was[k] == 0 && after[k] == 0 {}
    BigLeadingZeros(after, |was| - used, base);
    BigLeadingZeros(was, |was| - used, base);
  }

  lemma Replace(x: int, x': int, carry: int, p: int, p': int, f: int, y: int, y': int, digit: int)
    requires x == x' && y == y' && (carry == 0 || p == p')
    requires x + carry * p == f * y + digit
    ensures x' + carry * p' == f * y' + digit
  {
  }

  // ---------- The buffers are large enough ----------

  lemma PowScaled(b: nat, n: nat, size: nat, num: nat, den: nat, c: nat)
    requires b > 1 && c > 1 && den > 0 && num * n <= den * size && Pow(b, num) >= Pow(c, den)
    ensures Pow(b, size) >= Pow(c, n)
  {
    hide Pow;
    Commutes(size, den);
    Commutes(n, den);
    if Pow(b, size) < Pow(c, n) {
      PowBaseStrict(Pow(b, size), Pow(c, n), den);
      PowMul(b, size, den);
      PowMul(c, n, den);
      PowMono(b, num * n, den * size);
      PowMul(b, num, n);
      PowBaseMono(Pow(c, den), Pow(b, num), n);
      PowMul(c, den, n);
    }
  }

  lemma Commutes(a: nat, b: nat)
    ensures a * b == b * a
  {
  }

  // log(256) / log(58) < 11 / 8 < 1.38
  lemma EncodeSizeEnough(n: nat)
    ensures Pow(58, n * 138 / 100 + 1) >= Pow(256, n)
  {
    hide Pow;
    Compare58();
    PowScaled(58, n, n * 138 / 100 + 1, 11, 8, 256);
  }

  lemma Compare58()
    ensures Pow(58, 11) >= Pow(256, 8)
  {
    hide Pow;
    Cube(58);
    PowAdd(58, 3, 3);
    PowAdd(58, 6, 3);
    PowAdd(58, 9, 2);
    Square(58);
    Fourth256();
    PowAdd(256, 4, 4);
  }

  // log(58) / log(256) < 52 / 71 < 0.733
  lemma DecodeSizeEnough(n: nat)
    ensures Pow(256, n * 733 / 1000 + 1) >= Pow(58, n)
  {
    hide Pow;
    Compare256();
    PowScaled(256, n, n * 733 / 1000 + 1, 52, 71, 58);
  }

  // 58^72 <= 58 * 256^52, with 58^72 = (58^8)^9 and 256^52 = (256^4)^13.
  lemma Compare256()
    ensures Pow(256, 52) >= Pow(58, 71)
  {
    hide Pow;
    var y := 128063081718016;
    Square(58);
    PowAdd(58, 2, 2);
    PowAdd(58, 4, 4);
    assert Pow(58, 8) == y;
    PowMul(58, 8, 9);
    Ninth(y);
    Fourth256();
    var z := 0x1_0000_0000;
    PowMul(256, 4, 13);
    Thirteenth(z);
    PowSucc(58, 71);
    assert (y * y * y) * (y * y * y) * (y * y * y) <= 58 * ((z * z * z) * (z * z * z) * (z * z * z) * (z * z * z) * z);
  }

  lemma Square(b: nat)
    ensures Pow(b, 2) == b * b
  {
    assert Pow(b, 1) == b;
  }

  lemma Cube(b: nat)
    ensures Pow(b, 3) == b * b * b
  {
    Square(b);
    assert Pow(b, 3) == b * (b * b);
  }

  lemma Ninth(b: nat)
    ensures Pow(b, 9) == (b * b * b) * (b * b * b) * (b * b * b)
  {
    hide Pow;
    Cube(b);
    PowAdd(b, 3, 3);
    PowAdd(b, 6, 3);
  }

  lemma Thirteenth(b: nat)
    ensures Pow(b, 13) == (b * b * b) * (b * b * b) * (b * b * b) * (b * b * b) * b
  {
    hide Pow;
    Cube(b);
    Ninth(b);
    PowAdd(b, 9, 3);
    PowAdd(b, 12, 1);
    One(b);
  }

  lemma One(b: nat)
    ensures Pow(b, 1) == b
  {
  }

  lemma Fourth256()
    ensures Pow(256, 4) == 0x1_0000_0000
  {
    Square(256);
    PowAdd(256, 2, 2);
  }

  // ---------- Decoding ----------

  method StringLength(s: string) returns (n: nat)
    ensures n <= |s| && s[..n] == CString(s)
  {
    n := 0;
    while n < |s| && s[n] != '\0'
      invariant n <= |s| && forall i :: 0 <= i < n ==> s[i] != '\0'
    {
      n := n + 1;
    }
    CStringUnique(s, n);
  }

  method SkipSpaces(c: string, start: nat) returns (p: nat)
    requires start <= |c|
    ensures start <= p <= |c| && (p == |c| || !IsSpace(c[p])) && forall i :: start <= i < p ==> IsSpace(c[i])
  {
    p := start;
    while p < |c| && IsSpace(c[p])
      invariant start <= p <= |c| && forall i :: start <= i < p ==> IsSpace(c[i])
    {
      p := p + 1;
    }
  }

  /** The characters up to the next space, as a number in the buffer; `bad` is set at one outside the alphabet. */
  method ReadDigits(c: string, first: nat, b256: array<int>)
    returns (p: nat, length: nat, bad: bool, ghost digits: seq<int>)
    requires first <= |c| && b256.Length == (|c| - first) * 733 / 1000 + 1
    requires forall k :: 0 <= k < b256.Length ==> b256[k] == 0
    modifies b256
    ensures first <= p <= |c| && forall i :: first <= i < p ==> !IsSpace(c[i]) && DigitOf(c[i]) != -1
    ensures bad ==> p < |c| && !IsSpace(c[p]) && DigitOf(c[p]) == -1
    ensures !bad ==> (p == |c| || IsSpace(c[p])) && length <= b256.Length && Digits(b256[..], 256)
    ensures !bad ==> forall k :: 0 <= k < b256.Length - length ==> b256[k] == 0
    ensures |digits| == p - first && forall i :: 0 <= i < |digits| ==> digits[i] == DigitOf(c[first + i])
    ensures !bad ==> Big(b256[..], 256) == Big(digits, 58)
  {
    hide Pow, Big, IsSpace, DigitOf;
    p, length, bad, digits := first, 0, false, [];
    BufferStart(b256[..], digits, 0, 256, 58);
    while p < |c| && !IsSpace(c[p])
      invariant first <= p <= |c| && length <= b256.Length && Digits(b256[..], 256)
      invariant forall k :: 0 <= k < b256.Length - length ==> b256[k] == 0
      invariant forall i :: first <= i < p ==> !IsSpace(c[i]) && DigitOf(c[i]) != -1
      invariant |digits| == p - first && Digits(digits, 58)
      invariant forall i :: 0 <= i < |digits| ==> digits[i] == DigitOf(c[first + i])
      invariant Big(b256[..], 256) == Big(digits, 58)
    {
      var ch := DigitOf(c[p]);
      if ch == -1 {
        bad := true;
        return;
      }
      BigSnoc(digits, ch, 58);
      digits := digits + [ch];
      var carry;
      carry, length := MultiplyAdd(b256, length, 256, 58, ch);
      DecodeSizeEnough(|c| - first);
      NoCarry(b256[..], 256, carry, digits, |c| - first, 58);
      assert carry == 0;
      p := p + 1;
    }
  }

  /** DecodeBase58: no value stands for the false return. The buffer never overflows. */
  method Decode(s: string) returns (r: Option<seq<int>>)
    ensures r == Decoded(s)
  {
    hide Pow, Big, Zeros, Spaces, WordLength, CString, IsSpace, DigitOf, Convert;
    var n := StringLength(s);
    var c := s[..n];
    var p := SkipSpaces(c, 0);
    SpacesUnique(c, p);
    var start := p;
    // Skip and count leading '1's.
    var zeroes: nat, length: nat := 0, 0;
    while p < n && c[p] == '1'
      invariant start <= p <= n && zeroes == p - start
      invariant forall i :: start <= i < p ==> c[i] == '1'
    {
      zeroes := zeroes + 1;
      p := p + 1;
    }
    var size := (n - p) * 733 / 1000 + 1;
    var b256 := new int[size](_ => 0);
    ghost var first := p;
    OneIsZero();
    var bad;
    ghost var digits;
    p, length, bad, digits := ReadDigits(c, p, b256);
    if bad {
      BadCharacter(s, start, p);
      return None;
    }
    ghost var stop := p;
    p := SkipSpaces(c, p);
    if p < n {
      BadTail(s, start, stop, p);
      return None;
    }
    var it := SkipZeros(b256, length);
    GoodString(s, start, first, stop, digits);
    ghost var word := ToDigits(c[start..stop]);
    assert word[zeroes..] == digits;
    CanonicalDigits(b256[..], it, 256, word, zeroes, 58);
    r := Some(Repeat(zeroes, 0) + b256[it..]);
  }

  lemma BadCharacter(s: string, start: nat, p: nat)
    requires var c := CString(s);
             && Spaces(c) == start <= p < |c| && DigitOf(c[p]) == -1
             && forall i :: start <= i <= p ==> !IsSpace(c[i])
    ensures Decoded(s) == None
  {
    hide Spaces, WordLength, CString, IsSpace, DigitOf, Convert;
    var t := CString(s)[start..];
    assert t[p - start] == CString(s)[p];
    assert WordLength(t) > p - start;
  }

  ghost predicate WordAt(c: string, start: nat, stop: nat) {
    && Spaces(c) == start <= stop <= |c|
    && (stop == |c| || IsSpace(c[stop]))
    && forall i :: start <= i < stop ==> !IsSpace(c[i])
  }

  lemma WordFound(c: string, start: nat, stop: nat)
    requires WordAt(c, start, stop)
    ensures var t := c[Spaces(c)..]; t[..WordLength(t)] == c[start..stop] && t[WordLength(t)..] == c[stop..]
  {
    hide Spaces, WordLength, IsSpace;
    WordLengthUnique(c[start..], stop - start);
  }

  lemma BadTail(s: string, start: nat, stop: nat, p: nat)
    requires var c := CString(s); WordAt(c, start, stop) && stop <= p < |c| && !IsSpace(c[p])
    ensures Decoded(s) == None
  {
    hide Spaces, WordLength, CString, IsSpace, DigitOf, Convert;
    var c := CString(s);
    WordFound(c, start, stop);
    assert c[stop..][p - stop] == c[p];
  }

  lemma GoodString(s: string, start: nat, first: nat, stop: nat, digits: seq<int>)
    requires var c := CString(s);
             && WordAt(c, start, stop) && start <= first <= stop && |digits| == stop - first
             && (forall i :: start <= i < first ==> c[i] == '1') && (first == |c| || c[first] != '1')
             && (forall i :: start <= i < stop ==> DigitOf(c[i]) != -1)
             && (forall i :: 0 <= i < |digits| ==> digits[i] == DigitOf(c[first + i]))
             && AllSpace(c[stop..])
    ensures var w := CString(s)[start..stop];
            && AllDigits(w) && Decoded(s) == Some(Convert(ToDigits(w), 58, 256))
            && ToDigits(w)[first - start..] == digits && Zeros(ToDigits(w)) == first - start
  {
    hide Spaces, WordLength, CString, IsSpace, DigitOf, Convert, Zeros;
    var c := CString(s);
    WordFound(c, start, stop);
    var w := c[start..stop];
    OneIsZero();
    var ds := ToDigits(w);
    if first < stop {
      CharOfDigitOf(c[first]);
      OnlyOneIsZero(c[first]);
      assert ds[first - start] == DigitOf(c[first]);
    }
    ZerosUnique(ds, first - start);
  }

  lemma OnlyOneIsZero(ch: char)
    requires DigitOf(ch) != -1 && ch != '1'
    ensures DigitOf(ch) != 0
  {
    CharOfDigitOf(ch);
    AlphabetIncreasing();
  }

  lemma OneIsZero()
    ensures DigitOf('1') == 0 && !IsSpace('1')
  {
    AlphabetIncreasing();
    DigitOfCharOf(0);
  }

  // ---------- Encoding ----------

  /** EncodeBase58. The buffer never overflows, so the asserted carry is always zero. */
  method Encode(bytes: seq<int>) returns (str: string)
    requires Digits(bytes, 256)
    ensures str == Encoded(bytes)
  {
    hide Pow, Big, Zeros;
    // Skip and count leading zeroes.
    var zeroes: nat, length: nat := 0, 0;
    while zeroes < |bytes| && bytes[zeroes] == 0
      invariant zeroes <= |bytes| && forall i :: 0 <= i < zeroes ==> bytes[i] == 0
    {
      zeroes := zeroes + 1;
    }
    ZerosUnique(bytes, zeroes);
    var size := (|bytes| - zeroes) * 138 / 100 + 1;
    var b58 := new int[size](_ => 0);
    var p := zeroes;
    BufferStart(b58[..], bytes, zeroes, 58, 256);
    while p < |bytes|
      invariant zeroes <= p <= |bytes| && length <= size && Digits(b58[..], 58)
      invariant forall k :: 0 <= k < size - length ==> b58[k] == 0
      invariant Big(b58[..], 58) == Big(bytes[zeroes..p], 256)
    {
      var carry;
      AppendDigit(bytes, zeroes, p, 256);
      carry, length := MultiplyAdd(b58, length, 58, 256, bytes[p]);
      EncodeSizeEnough(|bytes| - zeroes);
      NoCarry(b58[..], 58, carry, bytes[zeroes..p + 1], |bytes| - zeroes, 256);
      assert carry == 0;
      p := p + 1;
    }
    var it := SkipZeros(b58, length);
    assert bytes[zeroes..p] == bytes[zeroes..];
    CanonicalDigits(b58[..], it, 58, bytes, zeroes, 256);
    str := Translate(zeroes, b58, it);
  }

  method Translate(zeroes: nat, b58: array<int>, start: nat) returns (str: string)
    requires Digits(b58[..], 58) && start <= b58.Length
    ensures str == ToChars(Repeat(zeroes, 0) + b58[start..])
  {
    hide CharOf;
    str := Repeat(zeroes, CharOf(0));
    for it := start to b58.Length
      invariant str == ToChars(Repeat(zeroes, 0) + b58[start..it])
    {
      str := str + [CharOf(b58[it])];
    }
    assert b58[start..b58.Length] == b58[start..];
  }

  method SkipZeros(buf: array<int>, length: nat) returns (it: nat)
    requires length <= buf.Length && forall k :: 0 <= k < buf.Length - length ==> buf[k] == 0
    ensures it <= buf.Length && (it == buf.Length || buf[it] != 0)
    ensures forall k :: 0 <= k < it ==> buf[k] == 0
  {
    it := buf.Length - length;
    while it < buf.Length && buf[it] == 0
      invariant it <= buf.Length && forall k :: 0 <= k < it ==> buf[k] == 0
    {
      it := it + 1;
    }
  }

  lemma BufferStart(buf: seq<int>, ds: seq<int>, z: nat, to: nat, from: nat)
    requires z <= |ds| && forall k :: 0 <= k < |buf| ==> buf[k] == 0
    ensures Big(buf, to) == 0 == Big(ds[z..z], from)
  {
    BigZeros(buf, to);
  }

  lemma AppendDigit(ds: seq<int>, z: nat, p: nat, b: nat)
    requires z <= p < |ds|
    ensures Big(ds[z..p + 1], b) == b * Big(ds[z..p], b) + ds[p]
  {
    assert ds[z..p + 1] == ds[z..p] + [ds[p]];
    BigSnoc(ds[z..p], ds[p], b);
  }

  // A number below from^n fits a buffer of that capacity.
  lemma NoCarry(buf: seq<int>, to: nat, carry: nat, ds: seq<int>, n: nat, from: nat)
    requires to > 1 && from > 1 && Digits(buf, to) && Digits(ds, from) && |ds| <= n
    requires Big(buf, to) + carry * Pow(to, |buf|) == Big(ds, from)
    requires Pow(to, |buf|) >= Pow(from, n)
    ensures carry == 0
  {
    hide Pow, Big;
    BigBound(buf, to);
    BigBound(ds, from);
    PowMono(from, |ds|, n);
    if carry > 0 { MulMono(1, carry, Pow(to, |buf|)); }
  }

  lemma CanonicalDigits(buf: seq<int>, it: nat, to: nat, ds: seq<int>, z: nat, from: nat)
    requires to > 1 && from > 1 && Digits(buf, to) && Digits(ds, from) && z == Zeros(ds)
    requires it <= |buf| && (it == |buf| || buf[it] != 0) && forall k :: 0 <= k < it ==> buf[k] == 0
    requires Big(buf, to) == Big(ds[z..], from)
    ensures Convert(ds, from, to) == Repeat(z, 0) + buf[it..]
  {
    hide Pow, Big, Zeros;
    BigLeadingZeros(buf, it, to);
    BigLeadingZeros(ds, z, from);
    ToBaseOfBig(buf[it..], to);
  }
}
