/**
 Character references: escaping on output, and unescaping in place through a moving gap.
 A character is a byte of UTF-8 text.
 */
module Escape {
  import opened Basics

  // Unescaping, as a function of the text up to its terminator.

  function Head(s: string): char {
    if s == "" then '\0' else s[0]
  }

  predicate IsDigit(c: char) {
    '0' <= c <= '9'
  }

  predicate IsHexDigit(c: char) {
    IsDigit(c) || 'a' <= c <= 'f' || 'A' <= c <= 'F'
  }

  function DigitValue(c: char): nat
    requires IsHexDigit(c)
  {
    if IsDigit(c) then c as int - '0' as int
    else if 'a' <= c then c as int - 'a' as int + 10
    else c as int - 'A' as int + 10
  }

  /** Bytes read, and what they stand for; nothing if they are not a reference after all. */
  datatype Reading = Reading(n: nat, out: Option<string>)

  function WithDigit(base: nat, v: nat, c: char): nat
    requires IsHexDigit(c)
  {
    Scaled(base, v, DigitValue(c)) % 0x1_0000_0000
  }

  /** One digit more, in base 16 or 10. */
  function Scaled(base: nat, v: nat, digit: nat): nat {
    (if base == 16 then 16 * v else 10 * v) + digit
  }

  /** The digits of a numeric reference and the semicolon; the value wraps around at 2^32. */
  function Digits(s: string, base: nat, v: nat): (r: Reading)
    ensures r.n <= |s|
  {
    if s != "" && (if base == 16 then IsHexDigit(s[0]) else IsDigit(s[0])) then
      var rest := Digits(s[1..], base, WithDigit(base, v, s[0]));
      Reading(rest.n + 1, rest.out)
    else if Head(s) == ';' then Reading(1, Some(Utf8(v)))
    else Reading(0, None)
  }

  /** utf8_writer::any, for any 32-bit value */
  function Utf8(v: nat): (r: string)
    ensures 1 <= |r| <= 4
  {
    if v < 0x80 then [v as char]
    else if v < 0x800 then [(0xC0 + v / 0x40 % 0x40) as char, (0x80 + v % 0x40) as char]
    else if v < 0x10000 then [(0xE0 + v / 0x1000 % 0x10) as char, (0x80 + v / 0x40 % 0x40) as char, (0x80 + v % 0x40) as char]
    else [LeadByte(v / 0x40000) as char, (0x80 + v / 0x1000 % 0x40) as char, (0x80 + v / 0x40 % 0x40) as char, (0x80 + v % 0x40) as char]
  }

  /** 0xF0 | x in eight bits: the low four bits of x are added, the others are set or cut off. */
  function LeadByte(x: nat): (r: nat)
    ensures r < 256
  {
    0xF0 + x % 0x10
  }

  /** The length of the longest prefix that s and w have in common. */
  function Common(s: string, w: string): (n: nat)
    ensures n <= |s| && n <= |w|
  {
    if s == "" || w == "" || s[0] != w[0] then 0 else 1 + Common(s[1..], w[1..])
  }

  /** What strconv_escape makes of the text from an ampersand on. */
  function Reference(s: string): (r: Reading)
    requires s != "" && s[0] == '&'
    ensures 1 <= r.n <= |s|
  {
    if |s| > 1 && s[1] == '#' then
      var hex := |s| > 2 && s[2] == 'x';
      var k := if hex then 3 else 2;
      var digits := Digits(s[k..], if hex then 16 else 10, 0);
      if Head(s[k..]) == ';' then Reading(k, None) else Reading(k + digits.n, digits.out)
    else if |s| > 1 && s[1] == 'a' then
      if Common(s, "&amp;") == 5 then Reading(5, Some("&"))
      else if Common(s, "&apos;") == 6 then Reading(6, Some("'"))
      else Reading(if Common(s, "&amp;") > 2 then Common(s, "&amp;") else if Common(s, "&apos;") > 2 then Common(s, "&apos;") else 2, None)
    else if |s| > 1 && s[1] == 'g' then Word(s, "&gt;", '>')
    else if |s| > 1 && s[1] == 'l' then Word(s, "&lt;", '<')
    else if |s| > 1 && s[1] == 'q' then Word(s, "&quot;", '"')
    else Reading(1, None)
  }

  function Word(s: string, w: string, c: char): (r: Reading)
    requires |s| > 1 && |w| > 1 && s[0] == w[0] && s[1] == w[1]
    ensures 2 <= r.n <= |s|
  {
    assert Common(s, w) == 2 + Common(s[1..][1..], w[1..][1..]);
    Reading(Common(s, w), if Common(s, w) == |w| then Some([c]) else None)
  }

  /** Text with its references replaced; what looks like one but is not stays as it is. */
  function Unescape(t: string): string {
    if t == "" then ""
    else if t[0] == '&' then
      var r := Reference(t);
      (if r.out.Some? then r.out.value else t[..r.n]) + Unescape(t[r.n..])
    else [t[0]] + Unescape(t[1..])
  }

  // Escaping

  /** ctx_special_pcdata and ctx_special_attr */
  predicate IsSpecial(c: char, attribute: bool) {
    || (c as int < 32 && c != '\t' && (attribute || (c != '\r' && c != '\n')))
    || c == '&' || c == '<' || c == '>' || (attribute && c == '"')
  }

  function EscapedChar(c: char, attribute: bool): string {
    if !IsSpecial(c, attribute) then [c]
    else if c == '&' then "&amp;"
    else if c == '<' then "&lt;"
    else if c == '>' then "&gt;"
    else if c == '"' then "&quot;"
    else ['&', '#', (c as int / 10 + 48) as char, (c as int % 10 + 48) as char, ';']
  }

  function Escaped(s: string, attribute: bool): string {
    if s == "" then "" else EscapedChar(s[0], attribute) + Escaped(s[1..], attribute)
  }

  lemma Assoc(a: string, b: string, c: string)
    ensures (a + b) + c == a + (b + c)
  {
  }

  lemma {:induction false} EscapedStep(s: string, k: nat, attribute: bool)
    requires k < |s|
    ensures Escaped(s[k..], attribute) == EscapedChar(s[k], attribute) + Escaped(s[k + 1..], attribute)
  {
    assert s[k..][1..] == s[k + 1..];
  }

  /** A run of plain characters is written as it is. */
  lemma {:induction false} EscapedRun(s: string, i: nat, j: nat, attribute: bool)
    requires i <= j <= |s| && forall k :: i <= k < j ==> !IsSpecial(s[k], attribute)
    ensures Escaped(s[i..], attribute) == s[i..j] + Escaped(s[j..], attribute)
    decreases j - i
  {
    if i < j {
      EscapedStep(s, i, attribute);
      EscapedRun(s, i + 1, j, attribute);
      assert EscapedChar(s[i], attribute) == [s[i]];
      Assoc([s[i]], s[i + 1..j], Escaped(s[j..], attribute));
      assert s[i..j] == [s[i]] + s[i + 1..j];
    } else {
      assert s[i..j] == "";
    }
  }

  method ScanPlain(s: string, k0: nat, attribute: bool) returns (k: nat)
    requires k0 <= |s|
    ensures k0 <= k <= |s| && (k < |s| ==> IsSpecial(s[k], attribute))
    ensures forall m :: k0 <= m < k ==> !IsSpecial(s[m], attribute)
  {
    k := k0;
    while k < |s| && !IsSpecial(s[k], attribute)
      invariant k0 <= k <= |s| && forall m :: k0 <= m < k ==> !IsSpecial(s[m], attribute)
    {
      k := k + 1;
    }
  }

  method WriteSpecial(c: char) returns (e: string)
    requires IsSpecial(c, true) && c != '\0'
    ensures e == EscapedChar(c, true)
  {
    if c == '&' {
      e := "&amp;";
    } else if c == '<' {
      e := "&lt;";
    } else if c == '>' {
      e := "&gt;";
    } else if c == '"' {
      e := "&quot;";
    } else {
      var ch := c as int;
      assert ch < 32;
      e := ['&', '#', (ch / 10 + 48) as char, (ch % 10 + 48) as char, ';'];
    }
  }

  /** text_output_escaped: runs of plain characters are written in one piece. */
  method TextOutputEscaped(s: string, attribute: bool) returns (out: string)
    requires '\0' !in s
    ensures out == Escaped(s, attribute)
  {
    var k := 0;
    out := "";
    while k < |s|
      invariant k <= |s| && out + Escaped(s[k..], attribute) == Escaped(s, attribute)
    {
      var prev := k;
      k := ScanPlain(s, prev, attribute);
      EscapedRun(s, prev, k, attribute);
      Assoc(out, s[prev..k], Escaped(s[k..], attribute));
      out := out + s[prev..k];
      if k < |s| {
        EscapedStep(s, k, attribute);
        assert s[k] in s;
        var e := WriteSpecial(s[k]);
        Assoc(out, e, Escaped(s[k + 1..], attribute));
        out := out + e;
        k := k + 1;
      }
    }
  }

  lemma CommonFull(w: string, rest: string)
    ensures Common(w + rest, w) == |w|
  {
    if w != "" {
      assert (w + rest)[1..] == w[1..] + rest;
      CommonFull(w[1..], rest);
    }
  }

  lemma NumericReads(c: char, rest: string)
    requires c as int < 32
    ensures var e := ['&', '#', (c as int / 10 + 48) as char, (c as int % 10 + 48) as char, ';'];
            Reference(e + rest) == Reading(5, Some([c]))
  {
    var t, u := (c as int / 10 + 48) as char, (c as int % 10 + 48) as char;
    var s := ['&', '#', t, u, ';'] + rest;
    assert s[2..] == [t, u, ';'] + rest;
    assert ([t, u, ';'] + rest)[1..] == [u, ';'] + rest;
    assert ([u, ';'] + rest)[1..] == [';'] + rest;
    assert Digits([';'] + rest, 10, c as int) == Reading(1, Some([c]));
    assert WithDigit(10, c as int / 10, u) == c as int && WithDigit(10, 0, t) == c as int / 10;
    assert Digits([u, ';'] + rest, 10, c as int / 10) == Reading(2, Some([c]));
    assert Digits([t, u, ';'] + rest, 10, 0) == Reading(3, Some([c]));
  }

  /** What the printer writes for one character reads back as that character. */
  lemma EscapedCharReads(c: char, attribute: bool, rest: string)
    requires IsSpecial(c, attribute)
    ensures var e := EscapedChar(c, attribute);
            e[0] == '&' && Reference(e + rest) == Reading(|e|, Some([c]))
  {
    if c as int < 32 {
      NumericReads(c, rest);
    } else {
      CommonFull(EscapedChar(c, attribute), rest);
    }
  }

  lemma UnescapeStep(c: char, attribute: bool, rest: string)
    ensures Unescape(EscapedChar(c, attribute) + rest) == [c] + Unescape(rest)
  {
    var e := EscapedChar(c, attribute);
    assert (e + rest)[|e|..] == rest;
    if IsSpecial(c, attribute) { EscapedCharReads(c, attribute, rest); }
  }

  /** Round trip: escaped text, whatever follows it, unescapes to itself. */
  lemma {:induction false} UnescapeEscaped(s: string, attribute: bool, rest: string)
    ensures Unescape(Escaped(s, attribute) + rest) == s + Unescape(rest)
  {
    if s == "" {
      assert Escaped(s, attribute) + rest == rest;
    } else {
      Assoc(EscapedChar(s[0], attribute), Escaped(s[1..], attribute), rest);
      UnescapeStep(s[0], attribute, Escaped(s[1..], attribute) + rest);
      UnescapeEscaped(s[1..], attribute, rest);
      assert s == [s[0]] + s[1..];
      Assoc([s[0]], s[1..], Unescape(rest));
    }
  }

  /** Escaped text contains no character that would end the text or the attribute value early. */
  lemma {:induction false} EscapedIsSafe(s: string, attribute: bool)
    ensures '<' !in Escaped(s, attribute) && (attribute ==> '"' !in Escaped(s, attribute))
    ensures '\0' !in Escaped(s, attribute)
    ensures s != "" ==> Escaped(s, attribute) != ""
  {
    if s != "" { EscapedIsSafe(s[1..], attribute); }
  }

  lemma EscapeRoundTrip(s: string, attribute: bool)
    ensures Unescape(Escaped(s, attribute)) == s
  {
    UnescapeEscaped(s, attribute, "");
    assert Escaped(s, attribute) + "" == Escaped(s, attribute) && s + "" == s;
  }

  // CDATA sections

  predicate EndsAt(s: string, k: nat) {
    k + 2 < |s| && s[k] == ']' && s[k + 1] == ']' && s[k + 2] == '>'
  }

  /** The first place from k on where "]]>" stands; |s| if there is none. */
  function EndOfCdata(s: string, k: nat): (e: nat)
    requires k <= |s|
    ensures k <= e <= |s| && (e < |s| ==> EndsAt(s, e)) && forall m :: k <= m < e ==> !EndsAt(s, m)
    decreases |s| - k
  {
    if k == |s| || EndsAt(s, k) then k else EndOfCdata(s, k + 1)
  }

  /** The pieces text_output_cdata puts into sections of their own, from position k on. */
  function Sections(s: string, k: nat): seq<string>
    requires k <= |s|
    decreases |s| - k
  {
    var e := EndOfCdata(s, k);
    if e == |s| then [s[k..]] else [s[k..e + 2]] + Sections(s, e + 2)
  }

  function Join(pieces: seq<string>): string {
    if pieces == [] then "" else pieces[0] + Join(pieces[1..])
  }

  function Wrap(piece: string): string {
    "<![CDATA[" + piece + "]]>"
  }

  function WrapAll(pieces: seq<string>): string {
    if pieces == [] then "" else Wrap(pieces[0]) + WrapAll(pieces[1..])
  }

  lemma WrapStep(s: string, k: nat)
    requires k <= |s|
    ensures var e := EndOfCdata(s, k);
            WrapAll(Sections(s, k)) == if e == |s| then Wrap(s[k..e]) else Wrap(s[k..e + 2]) + WrapAll(Sections(s, e + 2))
  {
    var e := EndOfCdata(s, k);
    if e == |s| {
      assert s[k..e] == s[k..] && WrapAll([s[k..]]) == Wrap(s[k..]) + "" == Wrap(s[k..]);
    } else {
      assert ([s[k..e + 2]] + Sections(s, e + 2))[1..] == Sections(s, e + 2);
    }
  }

  lemma SectionOut(s: string, k: nat, e: nat, out: string, total: string)
    requires k <= |s| && e == EndOfCdata(s, k) && out + WrapAll(Sections(s, k)) == total
    ensures e == |s| ==> out + Wrap(s[k..e]) == total
    ensures e < |s| ==> out + Wrap(s[k..e + 2]) + WrapAll(Sections(s, e + 2)) == total
  {
    WrapStep(s, k);
    if e < |s| {
      Assoc(out, Wrap(s[k..e + 2]), WrapAll(Sections(s, e + 2)));
    }
  }

  method FindCdataEnd(s: string, k0: nat) returns (k: nat)
    requires k0 <= |s|
    ensures k == EndOfCdata(s, k0)
  {
    k := k0;
    while k < |s| && !EndsAt(s, k)
      invariant k <= |s| && EndOfCdata(s, k) == EndOfCdata(s, k0)
    {
      k := k + 1;
    }
  }

  /** text_output_cdata: at least one section, and the `>` of a "]]>" always starts a new one. */
  method TextOutputCdata(s: string) returns (out: string)
    ensures out == WrapAll(Sections(s, 0))
  {
    out := "";
    var k := 0;
    while true
      invariant k <= |s| && out + WrapAll(Sections(s, k)) == WrapAll(Sections(s, 0))
      decreases |s| - k
    {
      var prev := k;
      k := FindCdataEnd(s, prev);
      SectionOut(s, prev, k, out, WrapAll(Sections(s, 0)));
      var more := k < |s|;
      if more {
        k := k + 2;
      }
      out := out + Wrap(s[prev..k]);
      if !more {
        return;
      }
    }
  }

  /** Splitting loses nothing... */
  lemma {:induction false} SectionsJoin(s: string, k: nat)
    requires k <= |s|
    ensures Join(Sections(s, k)) == s[k..]
    decreases |s| - k
  {
    var e := EndOfCdata(s, k);
    SectionsStep(s, k, e);
    if e < |s| {
      SectionsJoin(s, e + 2);
      assert s[k..] == s[k..e + 2] + s[e + 2..];
    }
  }

  lemma SectionsStep(s: string, k: nat, e: nat)
    requires k <= |s| && e == EndOfCdata(s, k)
    ensures Join(Sections(s, k)) == if e == |s| then s[k..] else s[k..e + 2] + Join(Sections(s, e + 2))
  {
    if e < |s| {
      JoinFirst(s[k..e + 2], Sections(s, e + 2));
    } else {
      JoinFirst(s[k..], []);
      assert [s[k..]] + [] == [s[k..]] && s[k..] + "" == s[k..];
    }
  }

  lemma JoinFirst(piece: string, pieces: seq<string>)
    ensures Join([piece] + pieces) == piece + Join(pieces)
  {
    assert ([piece] + pieces)[1..] == pieces;
  }

  /** ... and each piece is read back as it is: the first "]]>" after its start is the one that was written to end it. */
  lemma {:induction false} SectionReads(s: string, k: nat, i: nat, rest: string)
    requires k <= |s| && i < |Sections(s, k)|
    ensures var p := Sections(s, k)[i]; EndOfCdata(p + "]]>" + rest, 0) == |p|
    decreases |s| - k
  {
    var e := EndOfCdata(s, k);
    if e < |s| && 0 < i {
      SectionReads(s, e + 2, i - 1, rest);
    } else {
      var p := Sections(s, k)[i];
      var t := p + "]]>" + rest;
      forall m | 0 <= m < |p| ensures !EndsAt(t, m) {
        assert m + 2 < |p| ==> t[m] == s[k + m] && t[m + 1] == s[k + m + 1] && t[m + 2] == s[k + m + 2];
        assert m + 2 < |p| ==> !EndsAt(s, k + m);
        assert t[|p|] == ']' && t[|p| + 1] == ']';
      }
      assert EndsAt(t, |p|);
    }
  }
}
