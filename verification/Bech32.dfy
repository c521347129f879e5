/** bech32::Encode and bech32::Decode (src/bech32.cpp). */
module Bech32 {
  import opened Basics
  import opened Bech32Code
  import opened Bech32Spec

  // ---------- Strings as functions of their parts ----------

  function Chars(values: seq<bv8>): string {
    seq(|values|, i requires 0 <= i < |values| => CharOf(values[i]))
  }

  function Lowered(s: string): string {
    seq(|s|, i requires 0 <= i < |s| => LowerCase(s[i]))
  }

  function Reversed(s: string): (r: seq<bv8>)
    requires forall i :: 0 <= i < |s| ==> Rev(s[i]) != -1
    ensures Symbols(r)
  {
    seq(|s|, i requires 0 <= i < |s| => SymbolOf(s[i]))
  }

  function SymbolOf(c: char): (v: bv8)
    requires Rev(c) != -1
    ensures v < 32 && v as int == Rev(c)
  {
    RevMeaning(c, 0);
    SmallSymbol(Rev(c));
    Rev(c) as bv8
  }

  lemma SmallSymbol(n: int)
    requires 0 <= n < 32
    ensures (n as bv8) < 32 && (n as bv8) as int == n
  {
  }

  lemma RevAll(s: string)
    ensures forall i :: 0 <= i < |s| ==> -1 <= Rev(s[i]) < 32
  {
    hide Rev;
    forall i | 0 <= i < |s| ensures -1 <= Rev(s[i]) < 32 {
      RevMeaning(s[i], 0);
    }
  }

  predicate AllPrintable(s: string) { forall i :: 0 <= i < |s| ==> Printable(s[i]) }
  predicate AnyLower(s: string) { exists i :: 0 <= i < |s| && IsLower(s[i]) }
  predicate AnyUpper(s: string) { exists i :: 0 <= i < |s| && IsUpper(s[i]) }

  /** The last position of '1', or -1 (rfind). */
  function LastOne(s: string): (p: int)
    ensures -1 <= p < |s| && (p >= 0 ==> s[p] == '1') && forall i :: p < i < |s| ==> s[i] != '1'
  {
    if s == [] then -1 else if s[|s| - 1] == '1' then |s| - 1 else LastOne(s[..|s| - 1])
  }

  function Encoded(hrp: string, values: seq<bv8>): string {
    if Symbols(values) then hrp + "1" + Chars(values + Checksum(hrp, values)) else ""
  }

  function Decoded(s: string): Option<(string, seq<bv8>)> {
    var pos := LastOne(s);
    if !AllPrintable(s) || (AnyLower(s) && AnyUpper(s)) then None
    else if |s| > 1023 || pos == -1 || pos == 0 || pos + 7 > |s| then None
    else if exists i :: pos < i < |s| && Rev(s[i]) == -1 then None
    else
      var values, hrp := Reversed(s[pos + 1..]), Lowered(s[..pos]);
      if VerifyChecksum(hrp, values) then Some((hrp, values[..|values| - 6])) else None
  }

  // ---------- What the decoder accepts ----------

  predicate Plain(hrp: string) {
    hrp != [] && AllPrintable(hrp) && !AnyUpper(hrp)
  }

  /** The decoder accepts exactly the strings whose lower case is an encoding of the result, in one case,
      with a plain human-readable part and at most 1023 characters. */
  lemma DecodeMeaning(s: string, hrp: string, values: seq<bv8>)
    ensures Decoded(s) == Some((hrp, values)) <==>
            && Plain(hrp) && Symbols(values) && |s| <= 1023 && !(AnyLower(s) && AnyUpper(s))
            && Lowered(s) == Encoded(hrp, values)
  {
    if Decoded(s) == Some((hrp, values)) {
      DecodedIsEncoded(s, hrp, values);
    }
    if Plain(hrp) && Symbols(values) && |s| <= 1023 && !(AnyLower(s) && AnyUpper(s)) &&
        Lowered(s) == Encoded(hrp, values) {
      EncodedDecodes(s, hrp, values);
    }
  }

  lemma DecodedIsEncoded(s: string, hrp: string, values: seq<bv8>)
    requires Decoded(s) == Some((hrp, values))
    ensures Plain(hrp) && Symbols(values) && |s| <= 1023 && !(AnyLower(s) && AnyUpper(s))
    ensures Lowered(s) == Encoded(hrp, values)
  {
    hide VerifyChecksum, Rev, LowerCase, Checksum, CharOf, LastOne, AnyLower;
    var pos := LastOne(s);
    var head, tail := s[..pos], s[pos + 1..];
    var w := Reversed(tail);
    var n := |w| - 6;
    assert w == values + w[n..];
    LowerIsPlain(head);
    SymbolsOfReversed(tail);
    ChecksumUnique(hrp, values, w[n..]);
    LoweredParts(s, pos);
  }

  lemma LowerIsPlain(head: string)
    requires AllPrintable(head)
    ensures AllPrintable(Lowered(head)) && !AnyUpper(Lowered(head))
  {
  }

  /** A verified tail is the checksum of what precedes it. */
  lemma ChecksumUnique(hrp: string, values: seq<bv8>, tail: seq<bv8>)
    requires |tail| == 6 && Symbols(values + tail) && VerifyChecksum(hrp, values + tail)
    ensures tail == Checksum(hrp, values) && Symbols(values)
  {
    hide VerifyChecksum, Checksum;
    var c := Checksum(hrp, values);
    var x, y := values + tail, values + c;
    ChecksumVerifies(hrp, values);
    ChecksumSymbols(hrp, values);
    assert forall i :: 0 <= i < |values| ==> values[i] == x[i];
    var n := |values|;
    assert x[..n] == y[..n] && x[n + 6..] == y[n + 6..];
    BurstErrors(hrp, x, y, n, n + 6);
    assert tail == x[n..] && c == y[n..];
  }

  lemma ChecksumSymbols(hrp: string, values: seq<bv8>)
    ensures Symbols(Checksum(hrp, values))
  {
    hide Groups, Run, FlipOne, ExpandHRP;
    GroupsAreSymbols(FlipOne(Run(1, ExpandHRP(hrp) + values + SIX_ZEROES)));
  }

  // Characters that decode are, in lower case, the characters of their values.
  lemma SymbolsOfReversed(t: string)
    requires forall i :: 0 <= i < |t| ==> Rev(t[i]) != -1
    ensures Lowered(t) == Chars(Reversed(t))
  {
    hide Rev, LowerCase, CharOf;
    var r := Reversed(t);
    RevAll(t);
    forall i | 0 <= i < |t| ensures LowerCase(t[i]) == CharOf(r[i]) {
      RevMeaning(t[i], r[i]);
    }
  }

  lemma LoweredParts(s: string, pos: nat)
    requires pos < |s| && s[pos] == '1'
    ensures Lowered(s) == Lowered(s[..pos]) + "1" + Lowered(s[pos + 1..])
  {
  }

  lemma EncodedDecodes(s: string, hrp: string, values: seq<bv8>)
    requires Plain(hrp) && Symbols(values) && |s| <= 1023 && !(AnyLower(s) && AnyUpper(s))
    requires Lowered(s) == Encoded(hrp, values)
    ensures Decoded(s) == Some((hrp, values))
  {
    hide VerifyChecksum, Rev, LowerCase, Checksum, CharOf, LastOne, AnyLower, AnyUpper, Printable, IsUpper;
    var w := values + Checksum(hrp, values);
    var pos := |hrp|;
    ChecksumSymbols(hrp, values);
    assert Symbols(w);
    ChecksumVerifies(hrp, values);
    CharacterFacts(s, hrp, w);
    assert LastOne(s) == pos;
    assert Reversed(s[pos + 1..]) == w;
    assert Lowered(s[..pos]) == hrp;
    assert w[..|w| - 6] == values;
  }

  lemma CharacterFacts(s: string, hrp: string, w: seq<bv8>)
    requires AllPrintable(hrp) && Symbols(w) && Lowered(s) == hrp + "1" + Chars(w)
    ensures |s| == |hrp| + 1 + |w| && AllPrintable(s) && s[|hrp|] == '1'
    ensures forall i :: |hrp| < i < |s| ==> s[i] != '1' && Rev(s[i]) == w[i - |hrp| - 1] as int
    ensures forall i :: 0 <= i < |hrp| ==> LowerCase(s[i]) == hrp[i]
  {
    hide Rev, CharOf;
    var low := hrp + "1" + Chars(w);
    assert |Lowered(s)| == |low|;
    forall i | 0 <= i < |s| ensures LowerCase(s[i]) == low[i] {
      assert Lowered(s)[i] == low[i];
    }
    forall i | |hrp| < i < |s| ensures s[i] != '1' && Rev(s[i]) == w[i - |hrp| - 1] as int && Printable(s[i]) {
      RevMeaning(s[i], w[i - |hrp| - 1]);
      assert low[i] == CharOf(w[i - |hrp| - 1]);
      LowerCaseFacts(s[i]);
    }
    forall i | 0 <= i <= |hrp| ensures Printable(s[i]) && (i == |hrp| ==> s[i] == '1') {
      LowerCaseFacts(s[i]);
    }
  }

  lemma LowerCaseFacts(c: char)
    ensures Printable(LowerCase(c)) ==> Printable(c)
    ensures LowerCase(c) == '1' <==> c == '1'
  {
  }

  /** Decoding an encoding gives it back exactly for plain parts, five-bit values and at most 1023 characters. */
  lemma DecodeOfEncode(hrp: string, values: seq<bv8>)
    ensures Decoded(Encoded(hrp, values)) == Some((hrp, values)) <==>
            Plain(hrp) && Symbols(values) && |hrp| + |values| + 7 <= 1023
  {
    hide Decoded, Checksum, CharOf;
    var s := Encoded(hrp, values);
    DecodeMeaning(s, hrp, values);
    if Plain(hrp) && Symbols(values) {
      EncodingIsLower(hrp, values);
    }
  }

  lemma EncodingIsLower(hrp: string, values: seq<bv8>)
    requires Plain(hrp) && Symbols(values)
    ensures !AnyUpper(Encoded(hrp, values)) && Lowered(Encoded(hrp, values)) == Encoded(hrp, values)
  {
    hide Checksum, CharOf, Rev;
    var w := values + Checksum(hrp, values);
    ChecksumSymbols(hrp, values);
    assert Symbols(w);
    var s := Encoded(hrp, values);
    forall i | 0 <= i < |s| ensures !IsUpper(s[i]) {
      if i > |hrp| {
        assert s[i] == CharOf(w[i - |hrp| - 1]);
        RevMeaning('q', w[i - |hrp| - 1]);
      }
    }
  }

  /** Re-encoding what was decoded gives the lower-case form of the string. */
  lemma EncodeOfDecode(s: string)
    requires Decoded(s).Some?
    ensures var (hrp, values) := Decoded(s).value; Encoded(hrp, values) == Lowered(s)
  {
    hide Decoded, Encoded;
    var (hrp, values) := Decoded(s).value;
    DecodeMeaning(s, hrp, values);
  }

  // ---------- The loops ----------

  method ExpandPart(hrp: string) returns (ret: array<bv8>)
    ensures fresh(ret) && ret[..] == ExpandHRP(hrp)
  {
    hide HighBits, LowBits;
    ret := new bv8[|hrp| * 2 + 1](_ => 0);
    for i := 0 to |hrp|
      invariant forall k :: 0 <= k < i ==> ret[k] == HighBits(hrp[k]) && ret[k + |hrp| + 1] == LowBits(hrp[k])
    {
      ret[i] := HighBits(hrp[i]);
      ret[i + |hrp| + 1] := LowBits(hrp[i]);
    }
    ret[|hrp|] := 0;
  }

  method CreateChecksum(hrp: string, values: seq<bv8>) returns (ret: seq<bv8>)
    ensures ret == Checksum(hrp, values)
  {
    hide Run, ExpandHRP;
    var e := ExpandPart(hrp);
    var mod := PolyMod(e[..] + values + SIX_ZEROES);
    mod := FlipOne(mod);
    ret := Groups(mod);
  }

  method Encode(hrp: string, values: seq<bv8>) returns (ret: string)
    ensures ret == Encoded(hrp, values)
  {
    hide Checksum, CharOf;
    var checksum := CreateChecksum(hrp, values);
    ChecksumSymbols(hrp, values);
    var combined := values + checksum;
    ret := hrp + "1";
    for i := 0 to |combined|
      invariant forall k :: 0 <= k < i ==> combined[k] < 32
      invariant ret == hrp + "1" + Chars(combined[..i])
    {
      if combined[i] >= 32 {
        assert i < |values|;
        return "";
      }
      ret := ret + [CharOf(combined[i])];
    }
    assert combined[..|combined|] == combined;
    assert Symbols(values) by { assert forall k :: 0 <= k < |values| ==> values[k] == combined[k]; }
  }

  method Scan(s: string) returns (printable: bool, lower: bool, upper: bool)
    ensures printable == AllPrintable(s)
    ensures printable ==> lower == AnyLower(s) && upper == AnyUpper(s)
  {
    hide Printable, IsLower, IsUpper;
    lower, upper := false, false;
    for i := 0 to |s|
      invariant AllPrintable(s[..i]) && lower == AnyLower(s[..i]) && upper == AnyUpper(s[..i])
    {
      if !Printable(s[i]) { return false, lower, upper; }
      ScanStep(s, i);
      if IsLower(s[i]) { lower := true; }
      if IsUpper(s[i]) { upper := true; }
    }
    assert s[..|s|] == s;
    printable := true;
  }

  method ReverseData(s: string, start: nat) returns (r: Option<seq<bv8>>)
    requires start <= |s|
    ensures r.None? <==> exists i :: start <= i < |s| && Rev(s[i]) == -1
    ensures r.Some? ==> r.value == Reversed(s[start..])
  {
    hide Rev;
    var values := [];
    RevAll(s);
    for i := start to |s|
      invariant forall k :: start <= k < i ==> Rev(s[k]) != -1
      invariant |values| == i - start && forall k :: start <= k < i ==> values[k - start] == SymbolOf(s[k])
    {
      var rev := Rev(s[i]);
      if rev == -1 { return None; }
      values := values + [SymbolOf(s[i])];
    }
    return Some(values);
  }

  method LowerPart(s: string, n: nat) returns (hrp: string)
    requires n <= |s|
    ensures hrp == Lowered(s[..n])
  {
    hide LowerCase;
    hrp := "";
    for i := 0 to n
      invariant hrp == Lowered(s[..i])
    {
      hrp := hrp + [LowerCase(s[i])];
    }
  }

  method Decode(s: string) returns (r: Option<(string, seq<bv8>)>)
    ensures r == Decoded(s)
  {
    hide VerifyChecksum, Rev, LastOne, AllPrintable, AnyLower, AnyUpper, Reversed, Lowered;
    var printable, lower, upper := Scan(s);
    if !printable || (lower && upper) { return None; }
    var pos := LastOne(s);
    if |s| > 1023 || pos == -1 || pos == 0 || pos + 7 > |s| { return None; }
    var values := ReverseData(s, pos + 1);
    if values.None? { return None; }
    ReversedLength(s[pos + 1..]);
    var hrp := LowerPart(s, pos);
    var ok := Verify(hrp, values.value);
    if !ok { return None; }
    return Some((hrp, values.value[..|values.value| - 6]));
  }

  lemma ReversedLength(t: string)
    requires forall i :: 0 <= i < |t| ==> Rev(t[i]) != -1
    ensures |Reversed(t)| == |t|
  {
    hide Rev;
  }

  method Verify(hrp: string, values: seq<bv8>) returns (ok: bool)
    ensures ok == VerifyChecksum(hrp, values)
  {
    hide Run, ExpandHRP;
    var e := ExpandPart(hrp);
    var c := PolyMod(e[..] + values);
    ok := c == 1;
  }

  lemma ScanStep(s: string, i: nat)
    requires i < |s|
    ensures AnyLower(s[..i + 1]) == (AnyLower(s[..i]) || IsLower(s[i]))
    ensures AnyUpper(s[..i + 1]) == (AnyUpper(s[..i]) || IsUpper(s[i]))
  {
    hide IsLower, IsUpper;
    assert s[..i + 1] == s[..i] + [s[i]];
    assert s[..i + 1][i] == s[i];
    assert forall k :: 0 <= k < i ==> s[..i][k] == s[..i + 1][k];
  }
}
