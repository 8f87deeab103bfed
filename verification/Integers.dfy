/** Conversion between integers and text, in unsigned words of 16, 32 or 64 bits. */
module Integers {
  import opened Basics
  import opened Escape

  datatype Word = Word16 | Word32 | Word64

  function Modulus(w: Word): nat {
    match w
    case Word16 => 0x1_0000
    case Word32 => 0x1_0000_0000
    case Word64 => 0x1_0000_0000_0000_0000
  }

  predicate IsBlank(c: char) {
    c == ' ' || c == '\t' || c == '\r' || c == '\n'
  }

  function CharAt(s: string, k: nat): char {
    if k < |s| then s[k] else '\0'
  }

  predicate IsDigitOf(c: char, base: nat) {
    if base == 16 then IsHexDigit(c) else IsDigit(c)
  }

  // The meaning of the text.

  /** The number a string of digits stands for. */
  function Value(ds: string, base: nat): nat {
    if ds == "" then 0
    else Value(ds[..|ds| - 1], base) * base + (if IsHexDigit(ds[|ds| - 1]) then DigitValue(ds[|ds| - 1]) else 0)
  }

  /** The first position from k on that is not a blank, or not the character c, or not a digit. */
  function BlankEnd(s: string, k: nat): (e: nat)
    requires k <= |s|
    ensures k <= e <= |s|
    decreases |s| - k
  {
    if k < |s| && IsBlank(s[k]) then BlankEnd(s, k + 1) else k
  }

  function DigitsEnd(s: string, k: nat, base: nat): (e: nat)
    requires k <= |s|
    ensures k <= e <= |s| && forall m :: k <= m < e ==> IsDigitOf(s[m], base)
    decreases |s| - k
  {
    if k < |s| && IsDigitOf(s[k], base) then DigitsEnd(s, k + 1, base) else k
  }

  function SignEnd(s: string): (k: nat)
    ensures k <= |s|
  {
    var b := BlankEnd(s, 0);
    if CharAt(s, b) == '+' || CharAt(s, b) == '-' then (if b < |s| then b + 1 else b) else b
  }

  predicate IsHex(s: string) {
    var k := SignEnd(s);
    CharAt(s, k) == '0' && (CharAt(s, k + 1) == 'x' || CharAt(s, k + 1) == 'X')
  }

  function DigitsBegin(s: string): (k: nat)
    ensures k <= |s|
  {
    if IsHex(s) && SignEnd(s) + 2 <= |s| then SignEnd(s) + 2 else SignEnd(s)
  }

  function Magnitude(s: string): nat {
    var base := if IsHex(s) then 16 else 10;
    Value(s[DigitsBegin(s)..DigitsEnd(s, DigitsBegin(s), base)], base)
  }

  predicate IsNegative(s: string) {
    CharAt(s, BlankEnd(s, 0)) == '-'
  }

  /** The number the text stands for, however many digits it has. */
  function NumberOf(s: string): int {
    if IsNegative(s) then -(Magnitude(s) as int) else Magnitude(s)
  }

  function Clamp(n: int, low: int, high: int): int {
    if n < low then low else if n > high then high else n
  }

  // Powers and bounds.

  function Pow(b: nat, n: nat): nat {
    if n == 0 then 1 else b * Pow(b, n - 1)
  }

  lemma {:induction false} PowPositive(b: nat, n: nat)
    requires 0 < b
    ensures 0 < Pow(b, n)
  {
    if 0 < n {
      PowPositive(b, n - 1);
      Times(b, 1, Pow(b, n - 1));
    }
  }

  lemma Times(a: nat, b: nat, p: nat)
    requires b <= a
    ensures b * p <= a * p
  {
  }

  lemma {:induction false} PowGrows(b: nat, m: nat, n: nat)
    requires 0 < b && m <= n
    ensures 0 < Pow(b, m) <= Pow(b, n)
  {
    PowPositive(b, m);
    if m < n {
      PowGrows(b, m, n - 1);
      Times(b, 1, Pow(b, n - 1));
    }
  }

  lemma Regroup(lead: nat, base: nat, p: nat)
    ensures lead * (base * p) == (lead * p) * base
  {
  }

  lemma {:induction false} ValueBounds(ds: string, base: nat)
    requires (base == 10 || base == 16) && ds != "" && forall k :: 0 <= k < |ds| ==> IsDigitOf(ds[k], base)
    ensures IsHexDigit(ds[0]) && DigitValue(ds[0]) < base
    ensures var x, p := DigitValue(ds[0]) * Pow(base, |ds| - 1), Pow(base, |ds| - 1);
            x <= Value(ds, base) < x + p
  {
    var n := |ds|;
    assert IsDigitOf(ds[0], base) && IsDigitOf(ds[n - 1], base);
    if n == 1 {
      assert ds[..0] == "";
    } else {
      var rest := ds[..n - 1];
      ValueBounds(rest, base);
      LeadBounds(DigitValue(ds[0]), base, Pow(base, n - 2), Value(rest, base), DigitValue(ds[n - 1]));
      assert Pow(base, n - 1) == base * Pow(base, n - 2);
      assert Value(ds, base) == Value(rest, base) * base + DigitValue(ds[n - 1]);
    }
  }

  lemma LeadBounds(lead: nat, base: nat, p: nat, v: nat, digit: nat)
    requires (base == 10 || base == 16) && lead * p <= v < lead * p + p && digit < base
    ensures lead * (base * p) <= v * base + digit < lead * (base * p) + base * p
  {
    Regroup(lead, base, p);
    Appended(lead * p, p, v, base, digit);
  }

  lemma Appended(x: nat, p: nat, v: nat, base: nat, digit: nat)
    requires (base == 10 || base == 16) && x <= v < x + p && digit < base
    ensures x * base <= v * base + digit < x * base + base * p
  {
    if base == 10 {
    } else {
    }
  }

  /** The accumulator may be reduced at every step. */
  lemma ModStep(v: nat, base: nat, digit: nat, w: Word)
    requires base == 10 || base == 16
    ensures ((v % Modulus(w)) * base + digit) % Modulus(w) == (v * base + digit) % Modulus(w)
  {
    ModTimesPlus(v, base, digit, Modulus(w));
  }

  lemma ModTimesPlus(v: nat, base: nat, digit: nat, m: nat)
    requires 0 < m
    ensures ((v % m) * base + digit) % m == (v * base + digit) % m
  {
    var q, r := v / m, v % m;
    assert v == m * q + r;
    Spread(m, q, r, base);
    ModPlus(r * base + digit, q * base, m);
  }

  lemma Spread(m: nat, q: nat, r: nat, base: nat)
    ensures (m * q + r) * base == m * (q * base) + r * base
  {
  }

  function HexDigits(w: Word): nat {
    match w case Word16 => 4 case Word32 => 8 case Word64 => 16
  }

  lemma HexPowers(w: Word)
    ensures Pow(16, HexDigits(w)) == Modulus(w)
  {
    assert Pow(16, 4) == 0x1_0000;
    assert Pow(16, 8) == 0x1_0000_0000;
    assert Pow(16, 16) == 0x1_0000_0000_0000_0000;
  }

  /** With the leading zeros gone, a hexadecimal number fits exactly if it has at most two digits for every byte of the word. */
  lemma HexFits(ds: string, w: Word)
    requires (forall k :: 0 <= k < |ds| ==> IsHexDigit(ds[k])) && (ds != "" ==> ds[0] != '0')
    ensures Value(ds, 16) < Modulus(w) <==> |ds| <= HexDigits(w)
  {
    HexPowers(w);
    if ds != "" {
      ValueBounds(ds, 16);
      var lead, p := DigitValue(ds[0]), Pow(16, |ds| - 1);
      Times(lead, 1, p);
      Times(15, lead, p);
      if |ds| <= HexDigits(w) { PowGrows(16, |ds|, HexDigits(w)); } else { PowGrows(16, HexDigits(w), |ds| - 1); }
    }
  }

  function MaxDigits(w: Word): nat {
    match w case Word16 => 5 case Word32 => 10 case Word64 => 20
  }

  function MaxLead(w: Word): char {
    match w case Word16 => '6' case Word32 => '4' case Word64 => '1'
  }

  /** The overflow test of string_to_integer: the number of digits, the leading one, and the high bit of what is left. */
  predicate Overflows(ds: string, result: nat, w: Word) {
    |ds| >= MaxDigits(w) &&
    !(|ds| == MaxDigits(w) && (ds[0] < MaxLead(w) || (ds[0] == MaxLead(w) && result >= Modulus(w) / 2)))
  }

  /** The test is exact: it fails for precisely the numbers that do not fit, although the accumulator has wrapped around. */
  lemma OverflowIsExact(ds: string, w: Word)
    requires (forall k :: 0 <= k < |ds| ==> IsDigit(ds[k])) && (ds != "" ==> ds[0] != '0')
    ensures Overflows(ds, Value(ds, 10) % Modulus(w), w) <==> Value(ds, 10) >= Modulus(w)
  {
    var n := MaxDigits(w);
    DecimalPowers(w);
    if ds != "" {
      ValueBounds(ds, 10);
      var lead, p, v := DigitValue(ds[0]), Pow(10, |ds| - 1), Value(ds, 10);
      Times(lead, 1, p);
      Times(9, lead, p);
      if |ds| < n {
        PowGrows(10, |ds|, n - 1);
      } else if |ds| > n {
        PowGrows(10, n, |ds| - 1);
      } else {
        LeadDecides(v, lead, w);
      }
    }
  }

  function MaxPower(w: Word): nat {
    match w case Word16 => 10000 case Word32 => 1000000000 case Word64 => 10000000000000000000
  }

  lemma DecimalPowers(w: Word)
    ensures Pow(10, MaxDigits(w) - 1) == MaxPower(w) <= Modulus(w) < Pow(10, MaxDigits(w))
  {
    assert Pow(10, 4) == 10000 && Pow(10, 5) == 100000;
    assert Pow(10, 9) == 1000000000 && Pow(10, 10) == 10000000000;
    assert Pow(10, 19) == 10000000000000000000 && Pow(10, 20) == 100000000000000000000;
  }

  /** When the number of digits is the largest that may fit. */
  lemma LeadDecides(v: nat, lead: nat, w: Word)
    requires 1 <= lead <= 9 && lead * MaxPower(w) <= v < lead * MaxPower(w) + MaxPower(w)
    ensures var l := DigitValue(MaxLead(w));
            v >= Modulus(w) <==> !(lead < l || (lead == l && v % Modulus(w) >= Modulus(w) / 2))
  {
  }

  // string_to_integer

  lemma {:induction false} ZerosDrop(z: string, ds: string, base: nat)
    requires forall k :: 0 <= k < |z| ==> z[k] == '0'
    ensures Value(z + ds, base) == Value(ds, base)
  {
    if ds == "" {
      assert z + ds == z;
      if z != "" {
        ZerosDrop(z[..|z| - 1], "", base);
        assert z[..|z| - 1] + "" == z[..|z| - 1];
      }
    } else {
      assert (z + ds)[..|z + ds| - 1] == z + ds[..|ds| - 1];
      ZerosDrop(z, ds[..|ds| - 1], base);
    }
  }

  /** Leading zeros are digits that do not count. */
  lemma {:induction false} ZerosSkipped(s: string, b: nat, start: nat, base: nat)
    requires b <= start <= |s| && (forall k :: b <= k < start ==> s[k] == '0') && (base == 10 || base == 16)
    ensures DigitsEnd(s, b, base) == DigitsEnd(s, start, base)
    ensures Value(s[b..DigitsEnd(s, b, base)], base) == Value(s[start..DigitsEnd(s, start, base)], base)
    decreases start - b
  {
    if b < start {
      ZerosSkipped(s, b + 1, start, base);
      var e := DigitsEnd(s, b, base);
      assert s[b..e] == [s[b]] + s[b + 1..e];
      ZerosDrop([s[b]], s[b + 1..e], base);
    }
  }

  method SkipZeros(s: string, b: nat) returns (start: nat)
    requires b <= |s|
    ensures b <= start <= |s| && CharAt(s, start) != '0' && forall k :: b <= k < start ==> s[k] == '0'
  {
    start := b;
    while CharAt(s, start) == '0'
      invariant b <= start <= |s| && forall k :: b <= k < start ==> s[k] == '0'
      decreases |s| - start
    {
      start := start + 1;
    }
  }

  /** result * base + digit, in a word */
  function TimesPlus(result: nat, base: nat, digit: nat, w: Word): nat {
    (result * base + digit) % Modulus(w)
  }

  lemma AccumulateStep(s: string, start: nat, e: nat, base: nat, w: Word)
    requires start <= e < |s| && (base == 10 || base == 16) && IsDigitOf(s[e], base)
    ensures Value(s[start..e + 1], base) % Modulus(w)
            == TimesPlus(Value(s[start..e], base) % Modulus(w), base, DigitValue(s[e]), w)
  {
    var ds := s[start..e + 1];
    assert ds[..|ds| - 1] == s[start..e] && ds[|ds| - 1] == s[e] && IsHexDigit(s[e]);
    ModStep(Value(s[start..e], base), base, DigitValue(s[e]), w);
  }

  /** The accumulation loop, in either base; the word wraps around. */
  method Accumulate(s: string, start: nat, base: nat, w: Word) returns (e: nat, result: nat)
    requires start <= |s| && (base == 10 || base == 16)
    ensures e == DigitsEnd(s, start, base) && result == Value(s[start..e], base) % Modulus(w)
  {
    e, result := start, 0;
    while e < |s| && IsDigitOf(s[e], base)
      invariant start <= e <= |s| && DigitsEnd(s, e, base) == DigitsEnd(s, start, base)
      invariant result == Value(s[start..e], base) % Modulus(w)
    {
      AccumulateStep(s, start, e, base, w);
      result := TimesPlus(result, base, DigitValue(s[e]), w);
      e := e + 1;
    }
  }

  /** string_to_integer: for any text, the number it stands for, clamped to the range of the target type. */
  method StringToInteger(s: string, minneg: nat, maxpos: nat, w: Word) returns (r: nat)
    requires minneg < Modulus(w) && maxpos < Modulus(w)
    ensures r == Clamp(NumberOf(s), -(minneg as int), maxpos) % Modulus(w)
  {
    var k, negative := SkipSign(s);
    var hex := CharAt(s, k) == '0' && (CharAt(s, k + 1) == 'x' || CharAt(s, k + 1) == 'X');
    var overflow, result := ReadMagnitude(s, if hex then k + 2 else k, if hex then 16 else 10, w);
    ghost var n := NumberOf(s);
    assert n == if negative then -(Magnitude(s) as int) else Magnitude(s);
    r := Limit(negative, overflow, result, Magnitude(s), n, minneg, maxpos, w);
  }

  method SkipSign(s: string) returns (k: nat, negative: bool)
    ensures k == SignEnd(s) && negative == IsNegative(s)
  {
    k := 0;
    while k < |s| && IsBlank(s[k])
      invariant k <= |s| && BlankEnd(s, k) == BlankEnd(s, 0)
    {
      k := k + 1;
    }
    negative := CharAt(s, k) == '-';
    if CharAt(s, k) == '+' || CharAt(s, k) == '-' {
      k := k + 1;
    }
  }

  /** The last two returns of string_to_integer. */
  method Limit(negative: bool, overflow: bool, result: nat, ghost v: nat, ghost n: int, minneg: nat, maxpos: nat, w: Word)
    returns (r: nat)
    requires minneg < Modulus(w) && maxpos < Modulus(w) && n == if negative then -(v as int) else v
    requires (overflow <==> v >= Modulus(w)) && (!overflow ==> result == v)
    ensures r == Clamp(n, -(minneg as int), maxpos) % Modulus(w)
  {
    if negative {
      r := (if overflow || result > minneg then Modulus(w) - minneg else Modulus(w) - result) % Modulus(w);
      Negated(if overflow || result > minneg then minneg else result, w);
    } else {
      r := if overflow || result > maxpos then maxpos else result;
    }
  }

  /** The digits, with their leading zeros skipped: whether the number fits and, if so, which one it is. */
  method ReadMagnitude(s: string, k: nat, base: nat, w: Word) returns (overflow: bool, result: nat)
    requires k <= |s| && (base == 10 || base == 16)
    ensures var v := Value(s[k..DigitsEnd(s, k, base)], base);
            (overflow <==> v >= Modulus(w)) && (!overflow ==> result == v)
  {
    var start := SkipZeros(s, k);
    ZerosSkipped(s, k, start, base);
    var e;
    e, result := Accumulate(s, start, base, w);
    if base == 16 {
      overflow := e - start > HexDigits(w);
      HexFits(s[start..e], w);
    } else {
      overflow := Overflows(s[start..e], result, w);
      OverflowIsExact(s[start..e], w);
    }
  }

  lemma Negated(n: nat, w: Word)
    requires n < Modulus(w)
    ensures (Modulus(w) - n) % Modulus(w) == (-(n as int)) % Modulus(w)
  {
  }

  // integer_to_string

  function Decimal(n: nat): (s: string)
    ensures s != ""
  {
    if n < 10 then [(48 + n) as char] else Decimal(n / 10) + [(48 + n % 10) as char]
  }

  /** The text of a number. */
  function TextOf(n: int): string {
    if n < 0 then "-" + Decimal(-n) else "" + Decimal(n)
  }

  lemma {:induction false} DecimalValue(n: nat)
    ensures Value(Decimal(n), 10) == n && forall k :: 0 <= k < |Decimal(n)| ==> IsDigit(Decimal(n)[k])
  {
    if n < 10 {
      assert Decimal(n)[..0] == "";
    } else {
      DecimalValue(n / 10);
      assert Decimal(n)[..|Decimal(n)| - 1] == Decimal(n / 10);
    }
  }

  lemma {:induction false} AllDigits(s: string, k: nat)
    requires k <= |s| && forall m :: k <= m < |s| ==> IsDigit(s[m])
    ensures DigitsEnd(s, k, 10) == |s|
    decreases |s| - k
  {
    if k < |s| { AllDigits(s, k + 1); }
  }

  /** The text of a number stands for that number. */
  lemma TextReads(n: int)
    ensures NumberOf(TextOf(n)) == n
  {
    var m: nat := if n < 0 then -n else n;
    DecimalValue(m);
    SignedReads(if n < 0 then "-" else "", Decimal(m));
  }

  lemma SignedReads(sign: string, ds: string)
    requires (sign == "" || sign == "-") && ds != "" && forall k :: 0 <= k < |ds| ==> IsDigit(ds[k])
    ensures IsNegative(sign + ds) <==> sign == "-"
    ensures Magnitude(sign + ds) == Value(ds, 10)
  {
    var s, k := sign + ds, |sign|;
    SignEnds(sign, ds);
    AllDigits(s, k);
    assert s[k..|s|] == ds;
  }

  lemma SignEnds(sign: string, ds: string)
    requires (sign == "" || sign == "-") && ds != "" && forall k :: 0 <= k < |ds| ==> IsDigit(ds[k])
    ensures forall m :: |sign| <= m < |sign + ds| ==> IsDigit((sign + ds)[m])
    ensures BlankEnd(sign + ds, 0) == 0 && SignEnd(sign + ds) == |sign| && !IsHex(sign + ds)
    ensures IsNegative(sign + ds) <==> sign == "-"
  {
    var s, k := sign + ds, |sign|;
    assert forall m :: k <= m < |s| ==> s[m] == ds[m - k];
  }

  lemma {:induction false} DecimalLength(n: nat, m: nat)
    requires n < Pow(10, m) && 0 < m
    ensures |Decimal(n)| <= m
  {
    if 10 <= n {
      assert Pow(10, m) == 10 * Pow(10, m - 1);
      if m > 1 { DecimalLength(n / 10, m - 1); }
    }
  }

  /** integer_to_string: the digits are written backwards, from the end of the buffer. */
  method IntegerToString(a: array<char>, end: nat, value: nat, negative: bool, w: Word) returns (begin: nat)
    requires value < Modulus(w) && MaxDigits(w) < end <= a.Length
    modifies a
    ensures begin <= end
    ensures a[begin..end] == if negative then "-" + Decimal((Modulus(w) - value) % Modulus(w)) else Decimal(value)
  {
    var rest := if negative then (Modulus(w) - value) % Modulus(w) else value;
    ghost var n := rest;
    DecimalPowers(w);
    DecimalLength(n, MaxDigits(w));
    var result := WriteDigits(a, end, rest, MaxDigits(w));
    ghost var was := a[result..end];
    a[result - 1] := '-';
    assert a[result..end] == was && a[result - 1..end] == "-" + was;
    begin := if negative then result - 1 else result;
  }

  /** The do-while loop of integer_to_string. */
  method WriteDigits(a: array<char>, end: nat, n: nat, room: nat) returns (result: nat)
    requires |Decimal(n)| <= room < end <= a.Length
    modifies a
    ensures 0 < result <= end && a[result..end] == Decimal(n)
  {
    var rest := n;
    result := end - 1;
    a[result] := (48 + rest % 10) as char;
    rest := rest / 10;
    assert a[result..end] == [(48 + n % 10) as char];
    while rest != 0
      invariant 0 < result < end
      invariant rest == 0 ==> a[result..end] == Decimal(n)
      invariant rest != 0 ==> Decimal(n) == Decimal(rest) + a[result..end]
      decreases rest
    {
      assert |Decimal(n)| == |Decimal(rest)| + (end - result);
      ghost var was := a[result..end];
      ghost var high := Decimal(rest / 10);
      result := result - 1;
      a[result] := (48 + rest % 10) as char;
      assert a[result..end] == [a[result]] + was;
      assert 10 <= rest ==> high + [a[result]] + was == high + ([a[result]] + was);
      rest := rest / 10;
    }
  }

  /** A number in the range of a word, and the word it is stored in. */
  lemma StoredWord(n: int, w: Word)
    requires -(Modulus(w) as int) < n < Modulus(w)
    ensures n % Modulus(w) == if n < 0 then n + Modulus(w) else n
    ensures n < 0 ==> (Modulus(w) - n % Modulus(w)) % Modulus(w) == -n
  {
    match w
    case Word16 =>
    case Word32 =>
    case Word64 =>
  }

  lemma TextIs(n: int, m: nat)
    requires m == if n < 0 then -n else n
    ensures TextOf(n) == if n < 0 then "-" + Decimal(m) else Decimal(m)
  {
    assert "" + Decimal(m) == Decimal(m);
  }

  /** Setting a value and getting it again: what integer_to_string leaves in its buffer of 64 characters,
      string_to_integer turns back into the same word, for every number in range, the least one included. */
  method ConvertBack(n: int, minneg: nat, maxpos: nat, w: Word) returns (r: nat)
    requires minneg < Modulus(w) && maxpos < Modulus(w) && -(minneg as int) <= n <= maxpos
    ensures r == n % Modulus(w)
  {
    var a := new char[64];
    var value := n % Modulus(w);
    StoredWord(n, w);
    ghost var m: nat := if n < 0 then -n else n;
    var begin := WriteNumber(a, value, n < 0, w, m);
    TextReads(n);
    TextIs(n, m);
    r := StringToInteger(a[begin..64], minneg, maxpos, w);
  }

  /** integer_to_string into a buffer of 64 characters; m is the magnitude of the number. */
  method WriteNumber(a: array<char>, value: nat, negative: bool, w: Word, ghost m: nat) returns (begin: nat)
    requires a.Length == 64 && value < Modulus(w)
    requires m == if negative then (Modulus(w) - value) % Modulus(w) else value
    modifies a
    ensures begin <= 64 && a[begin..64] == if negative then "-" + Decimal(m) else Decimal(m)
  {
    begin := IntegerToString(a, 64, value, negative, w);
  }
}
