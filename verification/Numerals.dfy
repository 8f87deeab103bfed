/** Numbers as they are spelled, in base 10 and 16: what the readers of integers and of character references make of them. */
module Numerals {
  import opened Basics
  import opened Escape
  import opened Integers

  /** c is the digit v, in either case. */
  predicate DigitIs(c: char, v: nat)
    requires v < 16
  {
    c == "0123456789abcdef"[v] || c == "0123456789ABCDEF"[v]
  }

  /** ds spells n, perhaps with zeros in front. */
  predicate Spells(ds: string, n: nat, base: nat)
    requires 0 < base <= 16
  {
    if ds == "" then n == 0
    else DigitIs(ds[|ds| - 1], n % base) && Spells(ds[..|ds| - 1], n / base, base)
  }

  function Digits16(): string { "0123456789" + "abcdef" + "ABCDEF" }

  function DigitsIn(base: nat): string { if base == 16 then Digits16() else "0123456789" }

  lemma DigitCodes(c: char, v: nat)
    requires v < 16
    ensures DigitIs(c, v) <==> IsHexDigit(c) && DigitValue(c) == v
    ensures DigitIs(c, v) && v < 10 ==> IsDigit(c)
  {
  }

  lemma DigitsAre(c: char, base: nat)
    requires base == 10 || base == 16
    ensures c in DigitsIn(base) <==> IsDigitOf(c, base)
  {
  }

  lemma {:induction false} SpelledValue(ds: string, n: nat, base: nat)
    requires (base == 10 || base == 16) && Spells(ds, n, base)
    ensures Value(ds, base) == n && forall k :: 0 <= k < |ds| ==> IsDigitOf(ds[k], base)
  {
    if ds != "" {
      DigitCodes(ds[|ds| - 1], n % base);
      SpelledValue(ds[..|ds| - 1], n / base, base);
    }
  }

  // string_to_integer

  predicate Blank(s: string) {
    forall k :: 0 <= k < |s| ==> s[k] in " \t\r\n"
  }

  /** The text ends, or goes on with something that is no digit in this base. */
  predicate EndsNumber(rest: string, base: nat) {
    rest == "" || rest[0] !in DigitsIn(base)
  }

  function BaseOf(prefix: string): (base: nat)
    ensures base == 10 || base == 16
  {
    if prefix == "" then 10 else 16
  }

  lemma {:induction false} BlankEndIs(s: string, k: nat, e: nat)
    requires k <= e <= |s| && (forall m :: k <= m < e ==> IsBlank(s[m])) && (e < |s| ==> !IsBlank(s[e]))
    ensures BlankEnd(s, k) == e
    decreases e - k
  {
    if k < e { BlankEndIs(s, k + 1, e); }
  }

  lemma {:induction false} DigitsEndIs(s: string, k: nat, e: nat, base: nat)
    requires k <= e <= |s| && (forall m :: k <= m < e ==> IsDigitOf(s[m], base)) && (e < |s| ==> !IsDigitOf(s[e], base))
    ensures DigitsEnd(s, k, base) == e
    decreases e - k
  {
    if k < e { DigitsEndIs(s, k + 1, e, base); }
  }

  /** White space, a sign, a prefix, digits and whatever follows. */
  predicate IsNumber(blanks: string, sign: string, prefix: string, ds: string, n: nat, rest: string) {
    && Blank(blanks) && sign in ["", "+", "-"] && prefix in ["", "0x", "0X"]
    && Spells(ds, n, BaseOf(prefix)) && EndsNumber(rest, BaseOf(prefix))
    && (prefix == "" ==> ds != "" && !(ds == "0" && rest != "" && rest[0] in "xX"))
  }

  /** It is read as this number, however many digits it has. */
  lemma NumberReads(blanks: string, sign: string, prefix: string, ds: string, n: nat, rest: string)
    requires IsNumber(blanks, sign, prefix, ds, n, rest)
    ensures NumberOf(blanks + sign + prefix + ds + rest) == if sign == "-" then -(n as int) else n
  {
    var s, base := blanks + sign + prefix + ds + rest, BaseOf(prefix);
    var b := |blanks|;
    var k := b + |sign|;
    var p := k + |prefix|;
    var e := p + |ds|;
    SpelledValue(ds, n, base);
    Layout(blanks, sign, prefix, ds, rest, s);
    Begins(blanks, sign, prefix, ds, n, rest, s);
    if rest != "" { DigitsAre(rest[0], base); }
    DigitsEndIs(s, p, e, base);
    assert s[p..e] == ds;
  }

  /** The sign and the prefix are found. */
  lemma Begins(blanks: string, sign: string, prefix: string, ds: string, n: nat, rest: string, s: string)
    requires IsNumber(blanks, sign, prefix, ds, n, rest) && s == blanks + sign + prefix + ds + rest
    requires forall k :: 0 <= k < |ds| ==> IsDigitOf(ds[k], BaseOf(prefix))
    ensures SignEnd(s) == |blanks| + |sign| && IsNegative(s) == (sign == "-")
    ensures IsHex(s) == (prefix != "") && DigitsBegin(s) == |blanks| + |sign| + |prefix|
  {
    var b := |blanks|;
    Layout(blanks, sign, prefix, ds, rest, s);
    if prefix == "" { assert IsDigitOf(ds[0], 10); }
    BlankEndIs(s, 0, b);
    HexMark(prefix, ds, rest, s, b + |sign|);
  }

  lemma HexMark(prefix: string, ds: string, rest: string, s: string, k: nat)
    requires prefix in ["", "0x", "0X"] && k + |prefix + ds + rest| == |s| && s[k..] == prefix + ds + rest
    requires forall m :: 0 <= m < |ds| ==> IsDigitOf(ds[m], BaseOf(prefix))
    requires prefix == "" ==> ds != "" && !(ds == "0" && rest != "" && rest[0] in "xX")
    ensures CharAt(s, k) == '0' && (CharAt(s, k + 1) == 'x' || CharAt(s, k + 1) == 'X') <==> prefix != ""
  {
    var t := prefix + ds + rest;
    assert |t| > 0 ==> s[k] == t[0];
    assert |t| > 1 ==> s[k + 1] == t[1];
    if prefix == "" {
      assert t[0] == ds[0] && IsDigitOf(ds[0], 10);
      if |ds| > 1 { assert t[1] == ds[1] && IsDigitOf(ds[1], 10); }
      else if rest != "" { assert t[1] == rest[0] && ds == [ds[0]]; }
    }
  }

  /** Where the parts of the text are. */
  lemma Layout(blanks: string, sign: string, prefix: string, ds: string, rest: string, s: string)
    requires s == blanks + sign + prefix + ds + rest
    ensures var b := |blanks|; var k := b + |sign|; var p := k + |prefix|; var e := p + |ds|;
            && |s| == e + |rest|
            && (forall m :: 0 <= m < b ==> s[m] == blanks[m])
            && (forall m :: b <= m < k ==> s[m] == sign[m - b])
            && (forall m :: k <= m < p ==> s[m] == prefix[m - k])
            && (forall m :: p <= m < e ==> s[m] == ds[m - p])
            && (forall m :: e <= m < |s| ==> s[m] == rest[m - e])
  {
  }

  /** string_to_integer gives that number, clamped. */
  method ReadNumber(blanks: string, sign: string, prefix: string, ds: string, ghost n: nat, rest: string, minneg: nat, maxpos: nat, w: Word)
    returns (r: nat)
    requires IsNumber(blanks, sign, prefix, ds, n, rest) && minneg < Modulus(w) && maxpos < Modulus(w)
    ensures sign != "-" ==> r == if n <= maxpos then n else maxpos
    ensures sign == "-" ==> r == (if n <= minneg then -(n as int) else -(minneg as int)) % Modulus(w)
  {
    NumberReads(blanks, sign, prefix, ds, n, rest);
    r := StringToInteger(blanks + sign + prefix + ds + rest, minneg, maxpos, w);
  }

  // strconv_escape

  /** The accumulator after some digits. */
  function Accumulated(ds: string, base: nat): nat
    requires forall k :: 0 <= k < |ds| ==> IsHexDigit(ds[k])
  {
    if ds == "" then 0 else WithDigit(base, Accumulated(ds[..|ds| - 1], base), ds[|ds| - 1])
  }

  lemma {:induction false} AccumulatedIs(ds: string, n: nat, base: nat)
    requires (base == 10 || base == 16) && Spells(ds, n, base) && forall k :: 0 <= k < |ds| ==> IsHexDigit(ds[k])
    ensures Accumulated(ds, base) == n % 0x1_0000_0000
  {
    if ds != "" {
      var front, v := ds[..|ds| - 1], n / base;
      AccumulatedIs(front, v, base);
      OneMore(ds[|ds| - 1], v, n % base, n, base);
    }
  }

  lemma OneMore(c: char, v: nat, digit: nat, n: nat, base: nat)
    requires (base == 10 || base == 16) && digit < base && DigitIs(c, digit) && n == v * base + digit
    ensures IsHexDigit(c) && WithDigit(base, v % 0x1_0000_0000, c) == n % 0x1_0000_0000
  {
    DigitCodes(c, digit);
    ModTimesPlus(v, base, digit, 0x1_0000_0000);
  }

  lemma {:induction false} DigitsRead(ds: string, t: string, base: nat)
    requires (base == 10 || base == 16) && forall k :: 0 <= k < |ds| ==> IsDigitOf(ds[k], base)
    ensures forall k :: 0 <= k < |ds| ==> IsHexDigit(ds[k])
    ensures var r := Digits(t, base, Accumulated(ds, base)); Digits(ds + t, base, 0) == Reading(|ds| + r.n, r.out)
  {
    assert forall k :: 0 <= k < |ds| ==> IsDigitOf(ds[k], base) ==> IsHexDigit(ds[k]);
    if ds == "" {
      assert ds + t == t;
    } else {
      var front, c := ds[..|ds| - 1], ds[|ds| - 1];
      assert ds + t == front + ([c] + t) && ([c] + t)[1..] == t;
      DigitsRead(front, [c] + t, base);
    }
  }

  /** A numeric reference stands for its number, which wraps around at 2^32, in UTF-8. */
  lemma HexReference(ds: string, n: nat, rest: string)
    requires ds != "" && Spells(ds, n, 16)
    ensures Reference("&#x" + ds + ";" + rest) == Reading(4 + |ds|, Some(Utf8(n % 0x1_0000_0000)))
  {
    var t := ds + (";" + rest);
    NumeralFront(ds, n, 16, t);
    NumeralRead(ds, n, 16, ";" + rest);
    Assoc("&#x" + ds, ";", rest);
    Assoc("&#x", ds, ";" + rest);
    NumericIs("&#x" + t, true, t);
  }

  lemma DecimalReference(ds: string, n: nat, rest: string)
    requires ds != "" && Spells(ds, n, 10)
    ensures Reference("&#" + ds + ";" + rest) == Reading(3 + |ds|, Some(Utf8(n % 0x1_0000_0000)))
  {
    var t := ds + (";" + rest);
    NumeralFront(ds, n, 10, t);
    NumeralRead(ds, n, 10, ";" + rest);
    Assoc("&#" + ds, ";", rest);
    Assoc("&#", ds, ";" + rest);
    assert ("&#" + t)[2] == t[0];
    NumericIs("&#" + t, false, t);
  }

  lemma NumeralFront(ds: string, n: nat, base: nat, t: string)
    requires (base == 10 || base == 16) && ds != "" && Spells(ds, n, base) && ds <= t
    ensures (forall k :: 0 <= k < |ds| ==> IsDigitOf(ds[k], base)) && t != "" && IsDigitOf(t[0], base)
  {
    SpelledValue(ds, n, base);
    assert t[0] == ds[0];
  }

  /** A reference that begins like a numeric one stands for what its digits do. */
  lemma NumericIs(s: string, hex: bool, t: string)
    requires |s| > 2 && s[0] == '&' && s[1] == '#' && (s[2] == 'x' <==> hex)
    requires t == s[if hex then 3 else 2..] && t != "" && t[0] != ';'
    ensures var r := Digits(t, if hex then 16 else 10, 0); Reference(s) == Reading((if hex then 3 else 2) + r.n, r.out)
  {
  }

  lemma NumeralRead(ds: string, n: nat, base: nat, t: string)
    requires (base == 10 || base == 16) && Spells(ds, n, base) && (forall k :: 0 <= k < |ds| ==> IsDigitOf(ds[k], base))
    requires t != "" && t[0] == ';'
    ensures Digits(ds + t, base, 0) == Reading(|ds| + 1, Some(Utf8(n % 0x1_0000_0000)))
  {
    DigitsRead(ds, t, base);
    AccumulatedIs(ds, n, base);
  }

  /** Four of the five named references, section 4.6 of XML 1.0... */
  lemma NamedReferences(rest: string)
    ensures Reference("&lt;" + rest) == Reading(4, Some("<"))
    ensures Reference("&gt;" + rest) == Reading(4, Some(">"))
    ensures Reference("&amp;" + rest) == Reading(5, Some("&"))
    ensures Reference("&quot;" + rest) == Reading(6, Some("\""))
  {
    CommonFull("&lt;", rest);
    CommonFull("&gt;", rest);
    CommonFull("&amp;", rest);
    CommonFull("&quot;", rest);
  }

  /** ... and the fifth, which begins like another one. */
  lemma Apostrophe(rest: string)
    ensures Reference("&apos;" + rest) == Reading(6, Some("'"))
  {
    var s := "&apos;" + rest;
    CommonFull("&apos;", rest);
    assert s[1..][1..][0] == 'p' && "&amp;"[1..][1..][0] == 'm';
    assert Common(s[1..][1..], "&amp;"[1..][1..]) == 0;
    assert Common(s[1..], "&amp;"[1..]) == 1;
    assert Common(s, "&amp;") == 2;
  }

  /** The references of sections 4.1 and 4.6 of XML 1.0, and what they stand for. */
  ghost predicate IsReference(u: string, out: string) {
    || (u == "&lt;" && out == "<")
    || (u == "&gt;" && out == ">")
    || (u == "&amp;" && out == "&")
    || (u == "&quot;" && out == "\"")
    || (u == "&apos;" && out == "'")
    || (exists ds, n: nat :: ds != "" && Spells(ds, n, 10) && u == "&#" + ds + ";" && out == Utf8(n % 0x1_0000_0000))
    || (exists ds, n: nat :: ds != "" && Spells(ds, n, 16) && u == "&#x" + ds + ";" && out == Utf8(n % 0x1_0000_0000))
  }

  /** They and nothing else are replaced. */
  lemma OnlyReferences(s: string)
    requires s != "" && s[0] == '&'
    ensures Reference(s).out.Some? <==> exists u, out :: u <= s && IsReference(u, out)
    ensures Reference(s).out.Some? ==> IsReference(s[..Reference(s).n], Reference(s).out.value)
  {
    var r := Reference(s);
    if r.out.Some? {
      if |s| > 1 && s[1] == '#' { NumericForm(s); } else { NamedForm(s); }
      assert s[..r.n] <= s;
    }
    if u, out :| u <= s && IsReference(u, out) {
      Replaced(u, s[|u|..], out);
      assert u + s[|u|..] == s;
    }
  }

  lemma Replaced(u: string, rest: string, out: string)
    requires IsReference(u, out)
    ensures u != "" && u[0] == '&' && Reference(u + rest) == Reading(|u|, Some(out))
  {
    if ds, n: nat :| ds != "" && Spells(ds, n, 10) && u == "&#" + ds + ";" && out == Utf8(n % 0x1_0000_0000) {
      DecimalReference(ds, n, rest);
    } else if ds, n: nat :| ds != "" && Spells(ds, n, 16) && u == "&#x" + ds + ";" && out == Utf8(n % 0x1_0000_0000) {
      HexReference(ds, n, rest);
    } else {
      NamedReferences(rest);
      Apostrophe(rest);
    }
  }

  lemma NamedForm(s: string)
    requires s != "" && s[0] == '&' && !(|s| > 1 && s[1] == '#') && Reference(s).out.Some?
    ensures IsReference(s[..Reference(s).n], Reference(s).out.value)
  {
    CommonPart(s, "&lt;");
    CommonPart(s, "&gt;");
    CommonPart(s, "&amp;");
    CommonPart(s, "&quot;");
    CommonPart(s, "&apos;");
  }

  lemma {:induction false} CommonPart(s: string, w: string)
    ensures forall k :: 0 <= k < Common(s, w) ==> s[k] == w[k]
    ensures Common(s, w) == |w| ==> s[..|w|] == w
  {
    if s != "" && w != "" && s[0] == w[0] {
      CommonPart(s[1..], w[1..]);
      forall k | 0 <= k < Common(s, w) ensures s[k] == w[k] {
        if 0 < k { assert s[1..][k - 1] == w[1..][k - 1]; }
      }
    }
  }

  lemma NumericForm(s: string)
    requires |s| > 1 && s[0] == '&' && s[1] == '#' && Reference(s).out.Some?
    ensures IsReference(s[..Reference(s).n], Reference(s).out.value)
  {
    if |s| > 2 && s[2] == 'x' {
      var m := DigitsStop(s[3..], 16, 0);
      var ds, rest := s[3..][..m], s[3..][m + 1..];
      var n := SpelledBy(ds, 16);
      assert s == "&#x" + ds + ";" + rest;
      HexForm(s, ds, n, rest);
    } else {
      var m := DigitsStop(s[2..], 10, 0);
      var ds, rest := s[2..][..m], s[2..][m + 1..];
      var n := SpelledBy(ds, 10);
      assert s == "&#" + ds + ";" + rest;
      DecimalForm(s, ds, n, rest);
    }
  }

  lemma HexForm(s: string, ds: string, n: nat, rest: string)
    requires s == "&#x" + ds + ";" + rest && ds != "" && Spells(ds, n, 16)
    ensures Reference(s).out.Some? && IsReference(s[..Reference(s).n], Reference(s).out.value)
  {
    HexReference(ds, n, rest);
    assert s[..4 + |ds|] == "&#x" + ds + ";";
  }

  lemma DecimalForm(s: string, ds: string, n: nat, rest: string)
    requires s == "&#" + ds + ";" + rest && ds != "" && Spells(ds, n, 10)
    ensures Reference(s).out.Some? && IsReference(s[..Reference(s).n], Reference(s).out.value)
  {
    DecimalReference(ds, n, rest);
    assert s[..3 + |ds|] == "&#" + ds + ";";
  }

  lemma {:induction false} DigitsStop(t: string, base: nat, v: nat) returns (m: nat)
    requires (base == 10 || base == 16) && Digits(t, base, v).out.Some?
    ensures Digits(t, base, v).n == m + 1 <= |t| && t[m] == ';' && forall k :: 0 <= k < m ==> IsDigitOf(t[k], base)
  {
    if t[0] == ';' {
      m := 0;
    } else {
      m := DigitsStop(t[1..], base, WithDigit(base, v, t[0]));
      m := m + 1;
    }
  }

  /** Any row of digits spells a number. */
  lemma {:induction false} SpelledBy(ds: string, base: nat) returns (n: nat)
    requires (base == 10 || base == 16) && forall k :: 0 <= k < |ds| ==> IsDigitOf(ds[k], base)
    ensures Spells(ds, n, base)
  {
    if ds == "" {
      return 0;
    }
    var front := SpelledBy(ds[..|ds| - 1], base);
    var v := DigitValue(ds[|ds| - 1]);
    DigitCodes(ds[|ds| - 1], v);
    n := front * base + v;
    assert n % base == v && n / base == front;
  }

  /** What looks like a reference and is none stays, and the search for the next one goes on behind it. */
  lemma NothingSkipped(s: string)
    requires s != "" && s[0] == '&' && Reference(s).out.None?
    ensures forall k :: 1 <= k < Reference(s).n ==> s[k] != '&'
  {
    if |s| > 1 && s[1] == '#' {
      var base, t := if |s| > 2 && s[2] == 'x' then 16 else 10, if |s| > 2 && s[2] == 'x' then s[3..] else s[2..];
      if Head(t) != ';' { DigitsSkipped(t, base, 0); }
    } else {
      CommonPart(s, "&lt;");
      CommonPart(s, "&gt;");
      CommonPart(s, "&amp;");
      CommonPart(s, "&quot;");
      CommonPart(s, "&apos;");
    }
  }

  lemma {:induction false} DigitsSkipped(t: string, base: nat, v: nat)
    requires (base == 10 || base == 16) && Digits(t, base, v).out.None?
    ensures '&' !in t[..Digits(t, base, v).n]
  {
    if t != "" && IsDigitOf(t[0], base) {
      DigitsSkipped(t[1..], base, WithDigit(base, v, t[0]));
      assert t[..Digits(t, base, v).n] == [t[0]] + t[1..][..Digits(t, base, v).n - 1];
    }
  }

  /** Byte k of the UTF-8 form of a number holds six of its bits, or what the lead byte has room for, behind its mark (section 3
      of RFC 3629). */
  predicate IsUtf8(u: string, v: nat)
  {
    && 1 <= |u| <= 4 && (forall k :: 1 <= k < |u| ==> 0x80 <= u[k] as int < 0xC0)
    && var x := u[0] as int;
       match |u|
       case 1 => v == x < 0x80
       case 2 => 0xC0 <= x < 0xE0 && v == (x - 0xC0) * 0x40 + Tail(u, 1) && 0x80 <= v
       case 3 => 0xE0 <= x < 0xF0 && v == (x - 0xE0) * 0x1000 + Tail(u, 2) && 0x800 <= v
       case _ => 0xF0 <= x < 0xF8 && v == (x - 0xF0) * 0x40000 + Tail(u, 3) && 0x10000 <= v
  }

  /** The number in the first n bytes behind the lead byte. */
  function Tail(u: string, n: nat): int
    requires n < |u|
  {
    if n == 0 then 0 else Tail(u, n - 1) * 0x40 + (u[n] as int - 0x80)
  }

  lemma Utf8Is(v: nat)
    requires v < 0x11_0000
    ensures IsUtf8(Utf8(v), v)
  {
    if v < 0x80 {
      assert Utf8(v) == [v as char];
    } else if v < 0x800 {
      TwoBytes(v);
    } else if v < 0x10000 {
      ThreeBytes(v);
    } else {
      FourBytes(v);
    }
  }

  lemma TwoBytes(v: nat)
    requires 0x80 <= v < 0x800
    ensures IsUtf8(Utf8(v), v)
  {
    assert Tail(Utf8(v), 1) == v % 0x40;
  }

  lemma ThreeBytes(v: nat)
    requires 0x800 <= v < 0x10000
    ensures IsUtf8(Utf8(v), v)
  {
    var u := Utf8(v);
    Sextets(v);
    assert Tail(u, 1) == v / 0x40 % 0x40;
    assert Tail(u, 2) == Tail(u, 1) * 0x40 + v % 0x40;
  }

  lemma FourBytes(v: nat)
    requires 0x10000 <= v < 0x11_0000
    ensures IsUtf8(Utf8(v), v)
  {
    var u := Utf8(v);
    Sextets(v);
    assert Tail(u, 1) == v / 0x1000 % 0x40;
    assert Tail(u, 2) == Tail(u, 1) * 0x40 + v / 0x40 % 0x40;
    assert Tail(u, 3) == Tail(u, 2) * 0x40 + v % 0x40;
  }

  /** Four digits in base 64. */
  lemma Sextets(v: nat)
    ensures v == ((v / 0x40000 * 0x40 + v / 0x1000 % 0x40) * 0x40 + v / 0x40 % 0x40) * 0x40 + v % 0x40
  {
    assert v / 0x40 / 0x40 == v / 0x1000 && v / 0x1000 / 0x40 == v / 0x40000;
  }
}
