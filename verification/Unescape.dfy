/**
 Unescaping in place.  A `gap` is the stretch of stale bytes between what has been decoded and
 the read cursor; it is moved along rather than closed after every reference.  The results
 agree with the function `Unescape`.
 */
module UnescapeInPlace {
  import opened Basics
  import opened Guard
  import opened Escape

  /** The decoded text `out` starts at begin and reaches up to the read cursor s, with the gap left out. */
  ghost predicate Held(buf: seq<char>, begin: nat, end: int, size: nat, s: nat, out: string) {
    && (if end == -1 then size == 0 && begin <= s <= |buf| else begin + size <= end <= s <= |buf|)
    && |out| == s - begin - size
    && forall k {:trigger out[k]} :: 0 <= k < |out| ==> out[k] == buf[if begin + k < end - size then begin + k else begin + k + size]
  }

  /** The bytes from the cursor on are still the original ones. */
  ghost predicate Untouched(was: seq<char>, now: seq<char>, begin: nat, s: nat) {
    && |now| == |was|
    && forall k :: 0 <= k < |was| && (k < begin || s <= k) ==> now[k] == was[k]
  }

  method MoveDown(a: array<char>, to: nat, from: nat, end: nat)
    requires to <= from <= end <= a.Length
    modifies a
    ensures forall k :: to <= k < to + (end - from) ==> a[k] == old(a[k + (from - to)])
    ensures forall k :: 0 <= k < to || to + (end - from) <= k < a.Length ==> a[k] == old(a[k])
  {
    var t, f := to, from;
    while f < end
      invariant from <= f <= end && t - to == f - from
      invariant forall k :: to <= k < t ==> a[k] == old(a[k + (from - to)])
      invariant forall k :: 0 <= k < to || t <= k < a.Length ==> a[k] == old(a[k])
    {
      a[t] := a[f];
      t, f := t + 1, f + 1;
    }
  }

  class Gap {
    /** The end of the gap, -1 while there is none, and its size. */
    var end: int
    var size: nat

    constructor ()
      ensures end == -1 && size == 0
    {
      end, size := -1, 0;
    }

    /** gap::push: skips `count` bytes at s; a gap there was before is closed up to s first. */
    method Push(a: array<char>, s: nat, count: nat, ghost begin: nat, ghost out: string) returns (next: nat)
      requires Held(a[..], begin, end, size, s, out) && s + count <= a.Length
      modifies this, a
      ensures next == s + count && Held(a[..], begin, end, size, next, out)
      ensures Untouched(old(a[..]), a[..], begin, s)
    {
      if end != -1 {
        MoveDown(a, end - size, end, s);
      }
      next := s + count;
      end := next;
      size := size + count;
    }

    /** gap::flush: closes the gap; the decoded text then ends at r. */
    method Flush(a: array<char>, s: nat, ghost begin: nat, ghost out: string) returns (r: nat)
      requires Held(a[..], begin, end, size, s, out)
      modifies a
      ensures begin <= r <= s && a[begin..r] == out
      ensures Untouched(old(a[..]), a[..], begin, s)
    {
      if end == -1 {
        assert a[begin..s] == out;
        return s;
      }
      MoveDown(a, end - size, end, s);
      assert a[begin..s - size] == out;
      return s - size;
    }
  }

  /** Reading on without change. */
  lemma HeldOn(buf: seq<char>, begin: nat, end: int, size: nat, s: nat, out: string, n: nat)
    requires Held(buf, begin, end, size, s, out) && s + n <= |buf|
    ensures Held(buf, begin, end, size, s + n, out + buf[s..s + n])
  {
  }

  /** The decoded text does not depend on the bytes from the cursor on. */
  lemma HeldStays(was: seq<char>, now: seq<char>, begin: nat, end: int, size: nat, s: nat, out: string)
    requires Held(was, begin, end, size, s, out) && |now| == |was| && forall k :: 0 <= k < s ==> now[k] == was[k]
    ensures Held(now, begin, end, size, s, out)
  {
  }

  /** The text t stands at s and ends before a character that belongs to no reference. */
  ghost predicate TextAt(buf: seq<char>, s: nat, t: string) {
    && s + |t| < |buf| && IsEnd(buf[s + |t|])
    && forall k {:trigger t[k]} :: 0 <= k < |t| ==> t[k] == buf[s + k]
  }

  predicate IsEnd(c: char) {
    c == '\0' || c == '<' || c == '"' || c == '\''
  }

  lemma TextChar(buf: seq<char>, s: nat, t: string, k: nat)
    requires TextAt(buf, s, t) && k <= |t|
    ensures s + k < |buf|
    ensures if k < |t| then buf[s + k] == t[k] else IsEnd(buf[s + k])
    ensures TextAt(buf, s + k, t[k..])
  {
    var u := t[k..];
    assert forall m {:trigger u[m]} :: 0 <= m < |u| ==> u[m] == t[k + m];
  }

  lemma {:induction false} CommonIs(s: string, w: string, n: nat)
    requires n <= |s| && n <= |w| && (forall k :: 0 <= k < n ==> s[k] == w[k])
    requires n == |w| || n == |s| || s[n] != w[n]
    ensures Common(s, w) == n
  {
    if 0 < n { CommonIs(s[1..], w[1..], n - 1); }
  }

  /** The rest of a named reference: as far as the text agrees with the word w, of which k characters are known to agree. */
  method MatchWord(a: array<char>, s: nat, w: string, k0: nat, ghost t: string) returns (n: nat)
    requires TextAt(a[..], s, t) && k0 <= |t| && k0 <= |w| && (forall k :: 0 <= k < k0 ==> t[k] == w[k])
    requires forall k :: 0 <= k < |w| ==> !IsEnd(w[k])
    ensures n == Common(t, w)
  {
    n := k0;
    TextChar(a[..], s, t, n);
    while n < |w| && a[s + n] == w[n]
      invariant k0 <= n <= |t| && n <= |w| && forall k :: 0 <= k < n ==> t[k] == w[k]
      invariant s + n < a.Length && (if n < |t| then a[s + n] == t[n] else IsEnd(a[s + n]))
    {
      n := n + 1;
      TextChar(a[..], s, t, n);
    }
    CommonIs(t, w, n);
  }

  lemma DigitsStep(t: string, base: nat, n: nat, v: nat)
    requires n <= |t|
    ensures n < |t| && (if base == 16 then IsHexDigit(t[n]) else IsDigit(t[n])) ==>
              var rest := Digits(t[n + 1..], base, WithDigit(base, v, t[n]));
              Digits(t[n..], base, v) == Reading(rest.n + 1, rest.out)
    ensures n == |t| || !(if base == 16 then IsHexDigit(t[n]) else IsDigit(t[n])) ==>
              Digits(t[n..], base, v) == if n < |t| && t[n] == ';' then Reading(1, Some(Utf8(v))) else Reading(0, None)
  {
    if n < |t| { assert t[n..][0] == t[n] && t[n..][1..] == t[n + 1..]; }
  }

  /** n digits have been read, with this value so far. */
  ghost predicate Reads(t: string, base: nat, n: nat, v: nat) {
    && n <= |t| && v < 0x1_0000_0000
    && Digits(t, base, 0) == Reading(n + Digits(t[n..], base, v).n, Digits(t[n..], base, v).out)
    && (n == 0 ==> v == 0) && (n == 1 ==> v < 16) && (n == 2 ==> v < 256) && (n == 3 ==> v < 4096)
  }

  lemma ReadsNext(t: string, base: nat, n: nat, v: nat)
    requires Reads(t, base, n, v) && (base == 10 || base == 16) && n < |t|
    requires if base == 16 then IsHexDigit(t[n]) else IsDigit(t[n])
    ensures Reads(t, base, n + 1, WithDigit(base, v, t[n]))
  {
    DigitsStep(t, base, n, v);
  }

  predicate IsDigitOf(base: nat, c: char) {
    if base == 16 then IsHexDigit(c) else IsDigit(c)
  }

  /** A digit more. */
  lemma ReadsOn(t: string, base: nat, n: nat, v: nat, ch: char, n': nat, v': nat)
    requires Reads(t, base, n, v) && (base == 10 || base == 16)
    requires (if n < |t| then ch == t[n] else IsEnd(ch)) && IsDigitOf(base, ch)
    requires n' == n + 1 && v' == Scaled(base, v, DigitValue(ch)) % 0x1_0000_0000
    ensures Reads(t, base, n', v') && n < |t|
  {
    ReadsNext(t, base, n, v);
  }

  /** No more digits. */
  lemma ReadsEnd(t: string, base: nat, n: nat, v: nat, ch: char)
    requires Reads(t, base, n, v) && (base == 10 || base == 16)
    requires (if n < |t| then ch == t[n] else IsEnd(ch)) && !IsDigitOf(base, ch)
    ensures ch == ';' ==> n < |t| && Digits(t, base, 0) == Reading(n + 1, Some(Utf8(v)))
    ensures ch == ';' ==> (v >= 0x80 ==> 2 <= n) && (v >= 0x800 ==> 3 <= n) && (v >= 0x10000 ==> 4 <= n)
    ensures ch != ';' ==> Digits(t, base, 0) == Reading(n, None)
  {
    DigitsStep(t, base, n, v);
  }

  lemma NoDigits(t: string, base: nat)
    ensures Reads(t, base, 0, 0)
  {
    assert t[0..] == t;
  }

  /** The digits of a numeric reference, in either base; the accumulator is 32 bits wide. */
  method ReadDigits(a: array<char>, s0: nat, base: nat, ghost t: string) returns (n: nat, ok: bool, ucsc: nat)
    requires TextAt(a[..], s0, t) && (base == 10 || base == 16)
    ensures n <= |t| && (ok ==> Digits(t, base, 0) == Reading(n, Some(Utf8(ucsc))))
    ensures !ok ==> Digits(t, base, 0) == Reading(n, None)
    ensures ucsc < 0x1_0000_0000
    ensures ok ==> 0 < n && (ucsc >= 0x80 ==> 3 <= n) && (ucsc >= 0x800 ==> 4 <= n) && (ucsc >= 0x10000 ==> 5 <= n)
  {
    n, ucsc := 0, 0;
    NoDigits(t, base);
    TextChar(a[..], s0, t, n);
    while IsDigitOf(base, a[s0 + n])
      invariant Reads(t, base, n, ucsc) && s0 + n < a.Length
      invariant if n < |t| then a[s0 + n] == t[n] else IsEnd(a[s0 + n])
      decreases |t| - n
    {
      var ch := a[s0 + n];
      ghost var n0, v0 := n, ucsc;
      n, ucsc := n + 1, Scaled(base, ucsc, DigitValue(ch)) % 0x1_0000_0000;
      ReadsOn(t, base, n0, v0, ch, n, ucsc);
      TextChar(a[..], s0, t, n);
    }
    var ch := a[s0 + n];
    ReadsEnd(t, base, n, ucsc, ch);
    ok := ch == ';';
    if ok {
      n := n + 1;
    }
  }

  /** utf8_writer::any; the result is the number of bytes written. */
  method WriteUtf8(a: array<char>, s: nat, v: nat) returns (m: nat)
    requires v < 0x1_0000_0000 && s + |Utf8(v)| <= a.Length
    modifies a
    ensures m == |Utf8(v)| && a[s..s + m] == Utf8(v)
    ensures forall k :: 0 <= k < s || s + m <= k < a.Length ==> a[k] == old(a[k])
  {
    if v < 0x80 {
      a[s] := v as char;
      m := 1;
    } else if v < 0x800 {
      a[s] := (0xC0 + v / 0x40 % 0x40) as char;
      a[s + 1] := (0x80 + v % 0x40) as char;
      m := 2;
    } else if v < 0x10000 {
      a[s] := (0xE0 + v / 0x1000 % 0x10) as char;
      a[s + 1] := (0x80 + v / 0x40 % 0x40) as char;
      a[s + 2] := (0x80 + v % 0x40) as char;
      m := 3;
    } else {
      a[s] := LeadByte(v / 0x40000) as char;
      a[s + 1] := (0x80 + v / 0x1000 % 0x40) as char;
      a[s + 2] := (0x80 + v / 0x40 % 0x40) as char;
      a[s + 3] := (0x80 + v % 0x40) as char;
      m := 4;
    }
  }

  /** What remains to be done once a reference of n bytes has been recognized: its text is written over it, the rest skipped. */
  method Replace(a: array<char>, g: Gap, s: nat, written: nat, n: nat, ghost was: seq<char>, ghost begin: nat, ghost out: string)
    returns (next: nat)
    requires Held(was, begin, g.end, g.size, s, out) && |was| == a.Length
    requires written <= n && s + n <= a.Length && forall k :: 0 <= k < s || s + written <= k < a.Length ==> a[k] == was[k]
    modifies a, g
    ensures next == s + n && Held(a[..], begin, g.end, g.size, next, out + old(a[s..s + written]))
    ensures Untouched(was, a[..], begin, next)
  {
    HeldStays(was, a[..], begin, g.end, g.size, s, out);
    HeldOn(a[..], begin, g.end, g.size, s, out, written);
    next := g.Push(a, s + written, n - written, begin, out + a[s..s + written]);
  }

  /** A reference to a single ASCII character. */
  method ReplaceByChar(a: array<char>, g: Gap, s: nat, c: char, n: nat, ghost begin: nat, ghost out: string) returns (next: nat)
    requires Held(a[..], begin, g.end, g.size, s, out) && 0 < n && s + n <= a.Length
    modifies a, g
    ensures next == s + n && Held(a[..], begin, g.end, g.size, next, out + [c])
    ensures Untouched(old(a[..]), a[..], begin, next)
  {
    ghost var was := a[..];
    a[s] := c;
    assert a[s..s + 1] == [c];
    next := Replace(a, g, s, 1, n, was, begin, out);
  }

  method ReplaceByUtf8(a: array<char>, g: Gap, s: nat, ucsc: nat, n: nat, ghost begin: nat, ghost out: string) returns (next: nat)
    requires Held(a[..], begin, g.end, g.size, s, out) && ucsc < 0x1_0000_0000 && |Utf8(ucsc)| <= n && s + n <= a.Length
    modifies a, g
    ensures next == s + n && Held(a[..], begin, g.end, g.size, next, out + Utf8(ucsc))
    ensures Untouched(old(a[..]), a[..], begin, next)
  {
    ghost var was := a[..];
    var m := WriteUtf8(a, s, ucsc);
    next := Replace(a, g, s, m, n, was, begin, out);
  }

  /** What strconv_escape leaves behind: the cursor beyond what was read, the decoded text extended. */
  ghost predicate Decoded(was: seq<char>, now: seq<char>, begin: nat, end: int, size: nat, s: nat, out: string, t: string, r: Reading, next: nat)
    requires r.n <= |t|
  {
    && next == s + r.n
    && Held(now, begin, end, size, next, out + if r.out.Some? then r.out.value else t[..r.n])
    && Untouched(was, now, begin, next)
  }

  /** A text that is no reference is left alone. */
  lemma NotDecoded(buf: seq<char>, begin: nat, end: int, size: nat, s: nat, out: string, t: string, r: Reading)
    requires Held(buf, begin, end, size, s, out) && TextAt(buf, s, t) && r.n <= |t| && r.out.None?
    ensures Decoded(buf, buf, begin, end, size, s, out, t, r, s + r.n)
  {
    HeldOn(buf, begin, end, size, s, out, r.n);
    assert buf[s..s + r.n] == t[..r.n];
  }

  /** A numeric reference is never shorter than the bytes it stands for, even if its value wrapped around. */
  lemma ReferenceFits(v: nat, n: nat)
    requires 0 < n && (v >= 0x80 ==> 3 <= n) && (v >= 0x800 ==> 4 <= n) && (v >= 0x10000 ==> 5 <= n)
    ensures |Utf8(v)| <= n
  {
  }

  method EscapeNumeric(a: array<char>, g: Gap, s: nat, ghost t: string, ghost begin: nat, ghost out: string) returns (next: nat)
    requires Held(a[..], begin, g.end, g.size, s, out) && TextAt(a[..], s, t) && |t| > 1 && t[0] == '&' && t[1] == '#'
    modifies a, g
    ensures Decoded(old(a[..]), a[..], begin, g.end, g.size, s, out, t, Reference(t), next)
  {
    TextChar(a[..], s, t, 2);
    var hex := a[s + 2] == 'x';
    var k := if hex then 3 else 2;
    TextChar(a[..], s, t, k);
    if a[s + k] == ';' {
      NotDecoded(a[..], begin, g.end, g.size, s, out, t, Reference(t));
      return s + k;
    }
    var n, ok, ucsc := ReadDigits(a, s + k, if hex then 16 else 10, t[k..]);
    if !ok {
      NotDecoded(a[..], begin, g.end, g.size, s, out, t, Reference(t));
      return s + k + n;
    }
    assert Reference(t) == Reading(k + n, Some(Utf8(ucsc)));
    ReferenceFits(ucsc, n);
    next := ReplaceByUtf8(a, g, s, ucsc, k + n, begin, out);
  }

  method EscapeNamed(a: array<char>, g: Gap, s: nat, w: string, c: char, ghost t: string, ghost begin: nat, ghost out: string)
    returns (next: nat, ok: bool)
    requires Held(a[..], begin, g.end, g.size, s, out) && TextAt(a[..], s, t) && |t| > 1 && |w| > 1 && t[..2] == w[..2]
    requires forall k :: 0 <= k < |w| ==> !IsEnd(w[k])
    modifies a, g
    ensures ok <==> Common(t, w) == |w|
    ensures Decoded(old(a[..]), a[..], begin, g.end, g.size, s, out, t,
                    Reading(Common(t, w), if ok then Some([c]) else None), next)
  {
    assert t[0] == w[0] && t[1] == w[1] by { assert t[..2][0] == t[0] && t[..2][1] == t[1] && w[..2][0] == w[0] && w[..2][1] == w[1]; }
    var n := MatchWord(a, s, w, 2, t);
    ok := n == |w|;
    if ok {
      next := ReplaceByChar(a, g, s, c, n, begin, out);
    } else {
      NotDecoded(a[..], begin, g.end, g.size, s, out, t, Reading(n, None));
      next := s + n;
    }
  }

  /** strconv_escape: reads the reference at s and decodes it in place. */
  method StrconvEscape(a: array<char>, g: Gap, s: nat, ghost t: string, ghost begin: nat, ghost out: string) returns (next: nat)
    requires Held(a[..], begin, g.end, g.size, s, out) && TextAt(a[..], s, t) && t != "" && t[0] == '&'
    modifies a, g
    ensures Decoded(old(a[..]), a[..], begin, g.end, g.size, s, out, t, Reference(t), next)
  {
    TextChar(a[..], s, t, 1);
    var c, ok := a[s + 1], false;
    if c == '#' {
      next := EscapeNumeric(a, g, s, t, begin, out);
    } else if c == 'a' {
      TextChar(a[..], s, t, 2);
      AmpOrApos(t);
      if a[s + 2] == 'm' {
        next, ok := EscapeNamed(a, g, s, "&amp;", '&', t, begin, out);
      } else if a[s + 2] == 'p' {
        next, ok := EscapeNamed(a, g, s, "&apos;", '\'', t, begin, out);
      } else {
        NotDecoded(a[..], begin, g.end, g.size, s, out, t, Reference(t));
        next := s + 2;
      }
    } else if c == 'g' {
      next, ok := EscapeNamed(a, g, s, "&gt;", '>', t, begin, out);
    } else if c == 'l' {
      next, ok := EscapeNamed(a, g, s, "&lt;", '<', t, begin, out);
    } else if c == 'q' {
      next, ok := EscapeNamed(a, g, s, "&quot;", '"', t, begin, out);
    } else {
      NotDecoded(a[..], begin, g.end, g.size, s, out, t, Reference(t));
      next := s + 1;
    }
  }

  /** Which of the two words the third character picks. */
  lemma AmpOrApos(t: string)
    requires |t| > 1 && t[0] == '&' && t[1] == 'a'
    ensures |t| > 2 && t[2] == 'm' ==> Common(t, "&amp;") > 2 && Common(t, "&apos;") == 2
    ensures |t| > 2 && t[2] == 'p' ==> Common(t, "&apos;") > 2 && Common(t, "&amp;") == 2
    ensures |t| == 2 || (t[2] != 'm' && t[2] != 'p') ==> Common(t, "&amp;") == 2 && Common(t, "&apos;") == 2
  {
    CommonTwo(t, "&amp;");
    CommonTwo(t, "&apos;");
  }

  lemma CommonTwo(t: string, w: string)
    requires |t| > 1 && |w| > 2 && t[0] == w[0] && t[1] == w[1]
    ensures if |t| > 2 && t[2] == w[2] then Common(t, w) > 2 else Common(t, w) == 2
  {
    assert t[1..][0] == t[1] && w[1..][0] == w[1];
    assert t[1..][1..] == t[2..] && w[1..][1..] == w[2..];
    assert Common(t[1..], w[1..]) == 1 + Common(t[2..], w[2..]);
    assert w[2..][0] == w[2] && (|t| > 2 ==> t[2..][0] == t[2]);
  }

  lemma UnescapeReference(t: string)
    requires t != "" && t[0] == '&'
    ensures var r := Reference(t); Unescape(t) == (if r.out.Some? then r.out.value else t[..r.n]) + Unescape(t[r.n..])
  {
  }

  /** Text t is being decoded; u is what is left of it at s, `out` what has been decoded. */
  ghost predicate Decoding(buf: seq<char>, was: seq<char>, begin: nat, end: int, size: nat, s: nat, out: string, u: string, t: string) {
    && begin <= s && s + |u| == begin + |t|
    && forall k :: Unfold(k) ==>
      && Untouched(was, buf, begin, s) && TextAt(buf, s, u)
      && Held(buf, begin, end, size, s, out)
      && out + Unescape(u) == Unescape(t)
  }

  lemma Peek(buf: seq<char>, was: seq<char>, begin: nat, end: int, size: nat, s: nat, out: string, u: string, t: string)
    requires Decoding(buf, was, begin, end, size, s, out, u, t)
    ensures Held(buf, begin, end, size, s, out) && TextAt(buf, s, u) && s + |u| < |was| == |buf| && buf[s + |u|] == was[s + |u|]
    ensures u != "" ==> buf[s] == u[0]
    ensures u == "" ==> out == Unescape(t) && Untouched(was, buf, begin, s)
  {
    assert Unfold(0);
    TextChar(buf, s, u, 0);
    if u == "" { assert out + Unescape(u) == out; }
  }

  lemma DecodePlain(buf: seq<char>, was: seq<char>, begin: nat, end: int, size: nat, s: nat, out: string, u: string, t: string)
    requires Decoding(buf, was, begin, end, size, s, out, u, t) && u != "" && u[0] != '&'
    ensures Decoding(buf, was, begin, end, size, s + 1, out + [u[0]], u[1..], t)
  {
    assert Unfold(0);
    HeldOn(buf, begin, end, size, s, out, 1);
    TextChar(buf, s, u, 0);
    TextChar(buf, s, u, 1);
    assert buf[s..s + 1] == [u[0]];
    Assoc(out, [u[0]], Unescape(u[1..]));
  }

  lemma DecodeReference(buf: seq<char>, now: seq<char>, was: seq<char>, begin: nat, end0: int, size0: nat, end: int, size: nat,
                        s: nat, out: string, u: string, t: string, next: nat)
    requires Decoding(buf, was, begin, end0, size0, s, out, u, t) && u != "" && u[0] == '&'
    requires Decoded(buf, now, begin, end, size, s, out, u, Reference(u), next)
    ensures var r := Reference(u);
            Decoding(now, was, begin, end, size, next, out + (if r.out.Some? then r.out.value else u[..r.n]), u[r.n..], t)
  {
    assert Unfold(0);
    var r := Reference(u);
    var more := if r.out.Some? then r.out.value else u[..r.n];
    ReferenceKeeps(out, u, r, more, Unescape(t));
    UntouchedTwice(was, buf, now, begin, s, next);
    TextBehind(buf, now, begin, s, u, r.n, next);
  }

  lemma UntouchedTwice(was: seq<char>, buf: seq<char>, now: seq<char>, begin: nat, s: nat, next: nat)
    requires s <= next && Untouched(was, buf, begin, s) && Untouched(buf, now, begin, next)
    ensures Untouched(was, now, begin, next)
  {
  }

  lemma TextBehind(buf: seq<char>, now: seq<char>, begin: nat, s: nat, u: string, n: nat, next: nat)
    requires TextAt(buf, s, u) && n <= |u| && next == s + n && Untouched(buf, now, begin, next)
    ensures TextAt(now, next, u[n..])
  {
    var v := u[n..];
    assert now[next + |v|] == buf[s + |u|];
    forall k | 0 <= k < |v| ensures v[k] == now[next + k] {
      assert u[n + k] == buf[s + (n + k)];
    }
  }

  lemma ReferenceKeeps(out: string, u: string, r: Reading, more: string, total: string)
    requires u != "" && u[0] == '&' && r == Reference(u) && more == (if r.out.Some? then r.out.value else u[..r.n])
    requires out + Unescape(u) == total
    ensures out + more + Unescape(u[r.n..]) == total
  {
    UnescapeReference(u);
    Assoc(out, more, Unescape(u[r.n..]));
  }

  /** The loop shared by strconv_pcdata and parse_simple: up to the terminator, decoding references on the way. */
  method DecodeText(a: array<char>, g: Gap, begin: nat, stop: char, ghost t: string) returns (s: nat)
    requires g.end == -1 && g.size == 0 && TextAt(a[..], begin, t)
    requires stop !in t && '\0' !in t && (a[begin + |t|] == stop || a[begin + |t|] == '\0')
    modifies a, g
    ensures s == begin + |t| && Held(a[..], begin, g.end, g.size, s, Unescape(t))
    ensures Untouched(old(a[..]), a[..], begin, s)
  {
    s := begin;
    ghost var was, out, u := a[..], "", t;
    assert Decoding(a[..], was, begin, g.end, g.size, s, out, u, t) by {
      assert out + Unescape(u) == Unescape(t);
    }
    Peek(a[..], was, begin, g.end, g.size, s, out, u, t);
    while a[s] != stop && a[s] != '\0'
      invariant Decoding(a[..], was, begin, g.end, g.size, s, out, u, t)
      invariant stop !in u && '\0' !in u && s + |u| < a.Length && a[s + |u|] == was[begin + |t|]
      invariant u != "" ==> a[s] == u[0]
      decreases |u|
    {
      s, out, u := DecodeNext(a, g, s, was, begin, out, u, t);
    }
    FirstIn(u);
    Peek(a[..], was, begin, g.end, g.size, s, out, u, t);
  }

  /** One round of that loop: a reference, or a character that stands for itself. */
  method DecodeNext(a: array<char>, g: Gap, s: nat, ghost was: seq<char>, ghost begin: nat, ghost out: string, ghost u: string, ghost t: string)
    returns (next: nat, ghost out': string, ghost u': string)
    requires Decoding(a[..], was, begin, g.end, g.size, s, out, u, t) && u != "" && s < a.Length && a[s] == u[0]
    modifies a, g
    ensures Decoding(a[..], was, begin, g.end, g.size, next, out', u', t)
    ensures |u'| < |u| && (forall c <- u' :: c in u) && next + |u'| == s + |u| < a.Length
    ensures |was| == a.Length && a[next + |u'|] == was[s + |u|] && (u' != "" ==> a[next] == u'[0])
  {
    Peek(a[..], was, begin, g.end, g.size, s, out, u, t);
    ghost var before, end, size := a[..], g.end, g.size;
    if a[s] == '&' {
      next := StrconvEscape(a, g, s, u, begin, out);
      DecodeReference(before, a[..], was, begin, end, size, g.end, g.size, s, out, u, t, next);
      ghost var r := Reference(u);
      out', u' := out + (if r.out.Some? then r.out.value else u[..r.n]), u[r.n..];
    } else {
      DecodePlain(a[..], was, begin, g.end, g.size, s, out, u, t);
      out', u' := out + [u[0]], u[1..];
      next := s + 1;
    }
    Peek(a[..], was, begin, g.end, g.size, next, out', u', t);
  }

  lemma FirstIn(u: string)
    ensures u == "" || u[0] in u
  {
  }

  lemma SpansText(buf: seq<char>, begin: nat, t: string)
    requires begin + |t| < |buf| && buf[begin..begin + |t|] == t && buf[begin + |t|] in "\0<\"'"
    ensures TextAt(buf, begin, t)
  {
    assert forall k :: 0 <= k < |t| ==> t[k] == buf[begin..begin + |t|][k];
  }

  /** strconv_pcdata with escapes only: the text is decoded and terminated; the cursor is behind the `<`, or at the end. */
  method StrconvPcdata(a: array<char>, begin: nat, ghost t: string) returns (next: nat)
    requires begin + |t| < a.Length && a[begin..begin + |t|] == t && '<' !in t && '\0' !in t
    requires a[begin + |t|] == '<' || a[begin + |t|] == '\0'
    modifies a
    ensures |Unescape(t)| <= |t|
    ensures a[begin..begin + |Unescape(t)|] == Unescape(t) && a[begin + |Unescape(t)|] == '\0'
    ensures next == begin + |t| + if old(a[begin + |t|]) == '<' then 1 else 0
    ensures forall k :: 0 <= k < a.Length && (k < begin || begin + |t| < k) ==> a[k] == old(a[k])
  {
    SpansText(a[..], begin, t);
    next := DecodePcdata(a, begin, t);
  }

  method DecodePcdata(a: array<char>, begin: nat, ghost t: string) returns (next: nat)
    requires TextAt(a[..], begin, t) && '<' !in t && '\0' !in t && (a[begin + |t|] == '<' || a[begin + |t|] == '\0')
    modifies a
    ensures |Unescape(t)| <= |t|
    ensures a[begin..begin + |Unescape(t)|] == Unescape(t) && a[begin + |Unescape(t)|] == '\0'
    ensures next == begin + |t| + if old(a[begin + |t|]) == '<' then 1 else 0
    ensures forall k :: 0 <= k < a.Length && (k < begin || begin + |t| < k) ==> a[k] == old(a[k])
  {
    var g := new Gap();
    var s := DecodeText(a, g, begin, '<', t);
    var open := a[s] == '<';
    Terminate(a, g, begin, s, Unescape(t));
    next := if open then s + 1 else s;
  }

  /** Closes the gap and ends the decoded text with a zero. */
  method Terminate(a: array<char>, g: Gap, begin: nat, s: nat, ghost out: string)
    requires Held(a[..], begin, g.end, g.size, s, out) && s < a.Length
    modifies a
    ensures begin + |out| <= s && a[begin..begin + |out|] == out && a[begin + |out|] == '\0'
    ensures forall k :: 0 <= k < a.Length && (k < begin || s < k) ==> a[k] == old(a[k])
  {
    ghost var was := a[..];
    var end := g.Flush(a, s, begin, out);
    ghost var now := a[..];
    assert |a[begin..end]| == end - begin;
    a[end] := '\0';
    assert a[begin..end] == now[begin..end];
  }

  /** parse_simple with escapes: an attribute value up to its closing quote; nothing when the quote is missing. */
  method ParseSimple(a: array<char>, begin: nat, quote: char, ghost t: string) returns (next: Option<nat>)
    requires begin + |t| < a.Length && a[begin..begin + |t|] == t && quote !in t && '\0' !in t && (quote == '"' || quote == '\'')
    requires a[begin + |t|] == quote || a[begin + |t|] == '\0'
    modifies a
    ensures next == if old(a[begin + |t|]) == quote then Some(begin + |t| + 1) else None
    ensures next.Some? ==>
      && |Unescape(t)| <= |t|
      && a[begin..begin + |Unescape(t)|] == Unescape(t) && a[begin + |Unescape(t)|] == '\0'
    ensures forall k :: 0 <= k < a.Length && (k < begin || begin + |t| < k) ==> a[k] == old(a[k])
  {
    SpansText(a[..], begin, t);
    next := DecodeValue(a, begin, quote, t);
  }

  method DecodeValue(a: array<char>, begin: nat, quote: char, ghost t: string) returns (next: Option<nat>)
    requires TextAt(a[..], begin, t) && quote !in t && '\0' !in t && (quote == '"' || quote == '\'')
    requires a[begin + |t|] == quote || a[begin + |t|] == '\0'
    modifies a
    ensures next == if old(a[begin + |t|]) == quote then Some(begin + |t| + 1) else None
    ensures next.Some? ==>
      && |Unescape(t)| <= |t|
      && a[begin..begin + |Unescape(t)|] == Unescape(t) && a[begin + |Unescape(t)|] == '\0'
    ensures forall k :: 0 <= k < a.Length && (k < begin || begin + |t| < k) ==> a[k] == old(a[k])
  {
    var g := new Gap();
    var s := DecodeText(a, g, begin, quote, t);
    if a[s] != quote {
      return None;
    }
    Terminate(a, g, begin, s, Unescape(t));
    next := Some(s + 1);
  }
}
