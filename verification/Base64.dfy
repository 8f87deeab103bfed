// Base64 as in b64_ntop.h and b64_pton.h: the encoder over three-byte groups, the four-state
// decoder that ORs partial bytes into its target, its length-only twin, and the reference text
// they all answer to (section 4 of RFC 4648).
module Base64 {
  import opened Basics

  type Byte = bv8

  const NUL: Byte := 0
  const PAD: Byte := 61

  const SPECIAL: Byte := 0xf0
  const END: Byte := 0xfd
  const SPACE: Byte := 0xfe
  const INVALID: Byte := 0xff

  /** isspace in the C locale. */
  predicate IsSpace(c: Byte) { c == 32 || 9 <= c <= 13 }

  /** The alphabet, by the ranges of table 1 of RFC 4648. */
  function Letter(v: Byte): Byte
    requires v < 64
  {
    if v < 26 then v + 65
    else if v < 52 then v + 71
    else if v < 62 then v - 4
    else if v == 62 then 43
    else 47
  }

  /** The value of a letter; 64 for every other character. */
  function ValueOf(c: Byte): (v: Byte)
    ensures v <= 64
    ensures v < 64 ==> Letter(v) == c && c != PAD && c != NUL && !IsSpace(c)
  {
    if 65 <= c <= 90 then c - 65
    else if 97 <= c <= 122 then c - 71
    else if 48 <= c <= 57 then c + 4
    else if c == 43 then 62
    else if c == 47 then 63
    else 64
  }

  predicate IsLetter(c: Byte) { ValueOf(c) < 64 }

  lemma LetterValue(v: Byte)
    requires v < 64
    ensures ValueOf(Letter(v)) == v
  {
  }

  // ---------------------------------------------------------------- the reverse map

  /** What the reverse map holds before the letters are filled in. */
  function Unlettered(c: Byte): Byte {
    if c == NUL || c == PAD then END else if IsSpace(c) then SPACE else INVALID
  }

  function Reverse(c: Byte): Byte {
    if IsLetter(c) then ValueOf(c) else Unlettered(c)
  }

  /** A byte as an index. */
  function At(c: Byte): (i: nat)
    ensures i < 256
  {
    c as int
  }

  ghost predicate Mapped(rmap: array<Byte>)
    reads rmap
  {
    rmap.Length == 256 && forall c: Byte :: rmap[At(c)] == Reverse(c)
  }

  lemma ByteIndex(i: nat, c: Byte)
    requires i < 256
    ensures At(c) == i <==> c == i as Byte
  {
    if c == i as Byte {
      assert c as int == i;
    }
  }

  lemma SameIndex(c: Byte, d: Byte)
    ensures At(c) == At(d) <==> c == d
  {
  }

  method InitializeReverseMap(rmap: array<Byte>)
    requires rmap.Length == 256
    modifies rmap
    ensures Mapped(rmap)
  {
    rmap[0] := END;
    for i := 1 to 256
      invariant forall c: Byte :: At(c) < i ==> rmap[At(c)] == Unlettered(c)
    {
      var ch := i as Byte;
      forall c: Byte ensures At(c) == i <==> c == ch { ByteIndex(i, c); }
      if IsSpace(ch) {
        rmap[i] := SPACE;
      } else if ch == PAD {
        rmap[i] := END;
      } else {
        rmap[i] := INVALID;
      }
    }
    var v: Byte := 0;
    while v < 64
      invariant v <= 64
      invariant forall c: Byte ::
        rmap[At(c)] == if ValueOf(c) < v then ValueOf(c) else Unlettered(c)
      decreases 64 - v
    {
      LetterValue(v);
      forall c: Byte ensures At(c) == At(Letter(v)) <==> c == Letter(v) { SameIndex(c, Letter(v)); }
      rmap[At(Letter(v))] := v;
      v := v + 1;
    }
  }

  // ---------------------------------------------------------------- bytes and sextets

  function First(a: Byte): (v: Byte) ensures v < 64 { a >> 2 }

  function Second(a: Byte, b: Byte): (v: Byte) ensures v < 64 { ((a & 3) << 4) + (b >> 4) }

  function Third(b: Byte, c: Byte): (v: Byte) ensures v < 64 { ((b & 15) << 2) + (c >> 6) }

  function Fourth(c: Byte): (v: Byte) ensures v < 64 { c & 63 }

  function High(u: Byte, v: Byte): Byte { (u << 2) | (v >> 4) }

  function Middle(v: Byte, w: Byte): Byte { ((v & 15) << 4) | (w >> 2) }

  function Low(w: Byte, x: Byte): Byte { ((w & 3) << 6) | x }

  lemma Unpacked(a: Byte, b: Byte, c: Byte)
    ensures High(First(a), Second(a, b)) == a
    ensures Middle(Second(a, b), Third(b, c)) == b
    ensures Low(Third(b, c), Fourth(c)) == c
    ensures Second(a, 0) & 15 == 0 && Third(b, 0) & 3 == 0
  {
  }

  lemma Packed(u: Byte, v: Byte, w: Byte, x: Byte)
    requires u < 64 && v < 64 && w < 64 && x < 64
    ensures First(High(u, v)) == u
    ensures Second(High(u, v), Middle(v, w)) == v
    ensures Third(Middle(v, w), Low(w, x)) == w
    ensures Fourth(Low(w, x)) == x
    ensures v & 15 == 0 ==> Second(High(u, v), 0) == v
    ensures w & 3 == 0 ==> Third(Middle(v, w), 0) == w
  {
  }

  // ---------------------------------------------------------------- the reference text

  function Group(a: Byte, b: Byte, c: Byte): seq<Byte> {
    [Letter(First(a)), Letter(Second(a, b)), Letter(Third(b, c)), Letter(Fourth(c))]
  }

  function OneByte(a: Byte): seq<Byte> { [Letter(First(a)), Letter(Second(a, 0)), PAD, PAD] }

  function TwoBytes(a: Byte, b: Byte): seq<Byte> {
    [Letter(First(a)), Letter(Second(a, b)), Letter(Third(b, 0)), PAD]
  }

  /** The canonical text of some bytes. */
  function Encode(s: seq<Byte>): seq<Byte> {
    if s == [] then []
    else if |s| == 1 then OneByte(s[0])
    else if |s| == 2 then TwoBytes(s[0], s[1])
    else Group(s[0], s[1], s[2]) + Encode(s[3..])
  }

  function Letters(t: seq<Byte>): (n: nat)
    ensures n <= 4 && n <= |t|
    ensures forall k :: 0 <= k < n ==> IsLetter(t[k])
    ensures n < 4 && n < |t| ==> !IsLetter(t[n])
  {
    if |t| == 0 || !IsLetter(t[0]) then 0
    else if |t| == 1 || !IsLetter(t[1]) then 1
    else if |t| == 2 || !IsLetter(t[2]) then 2
    else if |t| == 3 || !IsLetter(t[3]) then 3
    else 4
  }

  function Prepend<T>(a: seq<T>, o: Option<seq<T>>): Option<seq<T>> {
    match o
    case None => None
    case Some(b) => Some(a + b)
  }

  /** What a text without white space stands for: whole groups, then at most one padded group. A
      strict reading wants the padded group's spare bits to be zero. */
  function Decode(t: seq<Byte>, strict: bool := true): Option<seq<Byte>> {
    if t == [] then Some([])
    else if |t| < 4 then None
    else
      var u, v, w, x := ValueOf(t[0]), ValueOf(t[1]), ValueOf(t[2]), ValueOf(t[3]);
      if Letters(t) == 4 then Prepend([High(u, v), Middle(v, w), Low(w, x)], Decode(t[4..], strict))
      else if Letters(t) == 2 && t[2..] == [PAD, PAD] && (strict ==> v & 15 == 0) then Some([High(u, v)])
      else if Letters(t) == 3 && t[3..] == [PAD] && (strict ==> w & 3 == 0) then Some([High(u, v), Middle(v, w)])
      else None
  }

  lemma {:induction false} RoundTrip(s: seq<Byte>)
    ensures Decode(Encode(s)) == Some(s)
  {
    if |s| == 1 {
      LetterValue(First(s[0]));
      LetterValue(Second(s[0], 0));
      Unpacked(s[0], 0, 0);
      var t := Encode(s);
      assert Letters(t) == 2 && t[2..] == [PAD, PAD];
      assert s == [s[0]];
    } else if |s| == 2 {
      LetterValue(First(s[0]));
      LetterValue(Second(s[0], s[1]));
      LetterValue(Third(s[1], 0));
      Unpacked(s[0], s[1], 0);
      var t := Encode(s);
      assert Letters(t) == 3 && t[3..] == [PAD];
      assert s == [s[0], s[1]];
    } else if |s| >= 3 {
      LetterValue(First(s[0]));
      LetterValue(Second(s[0], s[1]));
      LetterValue(Third(s[1], s[2]));
      LetterValue(Fourth(s[2]));
      Unpacked(s[0], s[1], s[2]);
      RoundTrip(s[3..]);
      assert Encode(s)[4..] == Encode(s[3..]);
      Regroup(s);
    }
  }

  lemma Regroup(s: seq<Byte>)
    requires |s| >= 3
    ensures s == [s[0], s[1], s[2]] + s[3..]
  {
  }

  /** Only canonical text is accepted: each byte sequence has exactly one text. */
  lemma {:induction false} DecodeIsInjective(t: seq<Byte>, s: seq<Byte>)
    ensures Decode(t) == Some(s) <==> t == Encode(s)
  {
    RoundTrip(s);
    if Decode(t) == Some(s) {
      OnlyCanonical(t);
    }
  }

  lemma {:induction false} OnlyCanonical(t: seq<Byte>)
    requires Decode(t).Some?
    ensures Encode(Decode(t).value) == t
  {
    if t != [] {
      var u, v, w, x := ValueOf(t[0]), ValueOf(t[1]), ValueOf(t[2]), ValueOf(t[3]);
      if Letters(t) == 4 {
        Packed(u, v, w, x);
        OnlyCanonical(t[4..]);
        var s := Decode(t).value;
        assert s[3..] == Decode(t[4..]).value;
        assert t == [t[0], t[1], t[2], t[3]] + t[4..];
      } else if Letters(t) == 2 {
        Packed(u, v, 0, 0);
        assert t == [t[0], t[1]] + t[2..];
      } else {
        Packed(u, v, w, 0);
        assert t == [t[0], t[1], t[2]] + t[3..];
      }
    }
  }

  lemma {:induction false} EncodedLength(s: seq<Byte>)
    ensures |Encode(s)| == 4 * ((|s| + 2) / 3)
  {
    if |s| >= 3 {
      EncodedLength(s[3..]);
    }
  }

  // ---------------------------------------------------------------- the alphabet written out

  /** Table 1 of RFC 4648. */
  function Alphabet(): (a: string)
    ensures |a| == 64
  {
    FirstHalf() + SecondHalf()
  }

  function FirstHalf(): (h: string)
    ensures |h| == 32
  {
    "ABCDEFGH" + "IJKLMNOP" + "QRSTUVWX" + "YZabcdef"
  }

  function SecondHalf(): (h: string)
    ensures |h| == 32
  {
    "ghijklmn" + "opqrstuv" + "wxyz0123" + "456789+/"
  }

  lemma FirstCodes(n: nat)
    requires n < 32
    ensures FirstHalf()[n] as int == if n < 26 then n + 65 else n + 71
  {
  }

  lemma SecondCodes(n: nat)
    requires n < 32
    ensures SecondHalf()[n] as int == if n < 20 then n + 103 else if n < 30 then n + 28 else if n == 30 then 43 else 47
  {
  }

  /** The ranges are the alphabet. */
  lemma LetterIsInAlphabet(v: Byte)
    requires v < 64
    ensures At(Letter(v)) == Alphabet()[At(v)] as int
  {
    var n := At(v);
    if n < 32 { FirstCodes(n); } else { SecondCodes(n - 32); }
    assert At(Letter(v)) == if n < 26 then n + 65 else if n < 52 then n + 71 else if n < 62 then n - 4 else if n == 62 then 43 else 47;
  }

  function Wide(s: seq<Byte>, i: nat): bv32 { if i < |s| then s[i] as bv32 else 0 }

  /** Three bytes of the input, with zeros behind its end, as one big-endian number. */
  function Number(s: seq<Byte>, g: nat): bv32 {
    Join(Wide(s, g), Wide(s, g + 1), Wide(s, g + 2))
  }

  function Join(a: bv32, b: bv32, c: bv32): bv32 { (a << 16) | (b << 8) | c }

  /** Six of 24 bits, the highest ones first. */
  function SixBits(n: bv32, j: nat): bv32 {
    (if j == 0 then n >> 18 else if j == 1 then n >> 12 else if j == 2 then n >> 6 else n) & 63
  }

  /** The k-th six bits of the input. */
  function Sextet(s: seq<Byte>, k: nat): (v: nat)
    ensures v < 64
  {
    var v := SixBits(Number(s, k / 4 * 3), k % 4);
    v as int
  }

  /** Character k of the encoding: a letter while there are bits left, and then a pad. */
  function Character(s: seq<Byte>, k: nat): char {
    if 6 * k < 8 * |s| then Alphabet()[Sextet(s, k)] else '='
  }

  lemma SextetsOf(a: Byte, b: Byte, c: Byte)
    ensures var n := Join(a as bv32, b as bv32, c as bv32);
            && First(a) as bv32 == SixBits(n, 0) && Second(a, b) as bv32 == SixBits(n, 1)
            && Third(b, c) as bv32 == SixBits(n, 2) && Fourth(c) as bv32 == SixBits(n, 3)
  {
  }

  lemma SameNumber(v: Byte, n: bv32)
    requires v as bv32 == n
    ensures At(v) == n as int
  {
  }

  lemma WideFront(s: seq<Byte>, a: Byte, b: Byte, c: Byte)
    requires s != [] && a == s[0] && b == (if |s| > 1 then s[1] else 0) && c == if |s| > 2 then s[2] else 0
    ensures Number(s, 0) == Join(a as bv32, b as bv32, c as bv32)
  {
  }

  /** The first four sextets. */
  lemma FirstSextets(s: seq<Byte>, k: nat)
    requires s != [] && k < 4
    ensures var b, c := if |s| > 1 then s[1] else 0, if |s| > 2 then s[2] else 0;
            Sextet(s, k) == At(if k == 0 then First(s[0]) else if k == 1 then Second(s[0], b) else if k == 2 then Third(b, c) else Fourth(c))
  {
    var b, c := if |s| > 1 then s[1] else 0, if |s| > 2 then s[2] else 0;
    SextetsOf(s[0], b, c);
    var n := Number(s, 0);
    WideFront(s, s[0], b, c);
    if k == 0 { SameNumber(First(s[0]), SixBits(n, k)); }
    else if k == 1 { SameNumber(Second(s[0], b), SixBits(n, k)); }
    else if k == 2 { SameNumber(Third(b, c), SixBits(n, k)); }
    else { SameNumber(Fourth(c), SixBits(n, k)); }
  }

  lemma SameJoin(a: bv32, b: bv32, c: bv32, a': bv32, b': bv32, c': bv32)
    requires a == a' && b == b' && c == c'
    ensures Join(a, b, c) == Join(a', b', c')
  {
  }

  lemma WideLater(s: seq<Byte>, i: nat, i': nat)
    requires |s| >= 3 && i == i' + 3
    ensures Wide(s, i) == Wide(s[3..], i')
  {
  }

  lemma NumberLater(s: seq<Byte>, g: nat, g': nat)
    requires |s| >= 3 && g == g' + 3
    ensures Number(s, g) == Number(s[3..], g')
  {
    WideLater(s, g, g');
    WideLater(s, g + 1, g' + 1);
    WideLater(s, g + 2, g' + 2);
    SameJoin(Wide(s, g), Wide(s, g + 1), Wide(s, g + 2), Wide(s[3..], g'), Wide(s[3..], g' + 1), Wide(s[3..], g' + 2));
  }

  lemma LaterSextets(s: seq<Byte>, k: nat, k': nat)
    requires |s| >= 3 && k == k' + 4
    ensures Sextet(s, k) == Sextet(s[3..], k') && Character(s, k) == Character(s[3..], k')
  {
    NumberLater(s, k / 4 * 3, k' / 4 * 3);
    assert k % 4 == k' % 4;
  }

  /** Every character of the encoding is the alphabet at its six bits of the input. */
  lemma {:induction false} EncodedCharacter(s: seq<Byte>, k: nat)
    requires k < |Encode(s)|
    ensures At(Encode(s)[k]) == Character(s, k) as int
  {
    if k >= 4 {
      LaterSextets(s, k, k - 4);
      EncodedCharacter(s[3..], k - 4);
    } else {
      FirstSextets(s, k);
      var b, c := if |s| > 1 then s[1] else 0, if |s| > 2 then s[2] else 0;
      LetterIsInAlphabet(First(s[0]));
      LetterIsInAlphabet(Second(s[0], b));
      LetterIsInAlphabet(Third(b, c));
      LetterIsInAlphabet(Fourth(c));
    }
  }

  lemma EncodedCharacters(s: seq<Byte>)
    ensures forall k :: 0 <= k < |Encode(s)| ==> At(Encode(s)[k]) == Character(s, k) as int
  {
    forall k | 0 <= k < |Encode(s)| ensures At(Encode(s)[k]) == Character(s, k) as int {
      EncodedCharacter(s, k);
    }
  }

  /** A text is accepted as these bytes exactly if it is spelled like that. */
  lemma DecodesIffSpelled(t: seq<Byte>, s: seq<Byte>)
    ensures Decode(t) == Some(s) <==>
            |t| == 4 * ((|s| + 2) / 3) && forall k :: 0 <= k < |t| ==> At(t[k]) == Character(s, k) as int
  {
    DecodeIsInjective(t, s);
    EncodedLength(s);
    EncodedCharacters(s);
    if |t| == |Encode(s)| && forall k :: 0 <= k < |t| ==> At(t[k]) == Character(s, k) as int {
      forall k | 0 <= k < |t| ensures t[k] == Encode(s)[k] {
        SameIndex(t[k], Encode(s)[k]);
      }
    }
  }

  /** Tab, line feed, vertical tab, form feed, carriage return and space. */
  lemma SpaceCodes(c: Byte)
    ensures IsSpace(c) <==> At(c) in [9, 10, 11, 12, 13, 32]
  {
  }

  /** The reverse map inverts the alphabet. */
  lemma MapInverts(rmap: array<Byte>, v: Byte)
    requires Mapped(rmap) && v < 64
    ensures Alphabet()[At(v)] as int < 256 && rmap[Alphabet()[At(v)] as int] == v
  {
    LetterIsInAlphabet(v);
    LetterValue(v);
    assert rmap[At(Letter(v))] == v;
  }

  // ---------------------------------------------------------------- b64_ntop

  lemma EncodeGroup(src: seq<Byte>, i: nat)
    requires i + 2 < |src|
    ensures Encode(src[i..]) == Group(src[i], src[i + 1], src[i + 2]) + Encode(src[i + 3..])
    ensures Encode(src[i..])[4..] == Encode(src[i + 3..])
  {
    assert src[i..][3..] == src[i + 3..];
  }

  /** Four characters appended to the target. */
  method Append(target: array<Byte>, at: nat, quad: seq<Byte>, ghost text: seq<Byte>) returns (datalength: nat)
    requires |quad| == 4 && at + 4 <= target.Length
    requires Written(text, target, at) && at + 4 <= |text| && text[at..at + 4] == quad
    modifies target
    ensures datalength == at + 4 && Written(text, target, datalength)
    ensures forall k :: at + 4 <= k < target.Length ==> target[k] == old(target[k])
  {
    datalength := at;
    assert quad[0] == text[at] && quad[1] == text[at + 1] && quad[2] == text[at + 2] && quad[3] == text[at + 3];
    target[datalength], datalength := quad[0], datalength + 1;
    target[datalength], datalength := quad[1], datalength + 1;
    target[datalength], datalength := quad[2], datalength + 1;
    target[datalength], datalength := quad[3], datalength + 1;
  }

  /** The text from a place on is what a group, or the padded end, and the rest of the bytes give. */
  lemma TextOfGroup(text: seq<Byte>, at: nat, src: seq<Byte>, i: nat)
    requires at <= |text| && i + 2 < |src| && text[at..] == Encode(src[i..])
    ensures at + 4 <= |text| && text[at + 4..] == Encode(src[i + 3..])
    ensures text[at..at + 4] == Group(src[i], src[i + 1], src[i + 2])
  {
    EncodeGroup(src, i);
    assert text[at..][4..] == text[at + 4..] && text[at..][..4] == text[at..at + 4];
  }

  function PaddedEnding(src: seq<Byte>, i: nat): (quad: seq<Byte>)
    requires |src| - 2 <= i < |src|
    ensures |quad| == 4
  {
    if |src| - i == 1 then OneByte(src[i]) else TwoBytes(src[i], src[i + 1])
  }

  lemma TextOfEnd(text: seq<Byte>, at: nat, src: seq<Byte>, i: nat)
    requires at <= |text| && |src| - 2 <= i < |src| && text[at..] == Encode(src[i..])
    ensures |text| == at + 4 && text[at..at + 4] == PaddedEnding(src, i)
  {
    assert text[at..at + 4] == text[at..];
  }

  /** What has been written so far is the front of the text. */
  ghost predicate Written(text: seq<Byte>, target: array<Byte>, at: nat)
    reads target
  {
    at <= target.Length && at <= |text| && forall k :: 0 <= k < at ==> target[k] == text[k]
  }

  /** The first loop of b64_ntop: as many groups of three bytes as there are. */
  method EncodeGroups(src: seq<Byte>, target: array<Byte>, ghost text: seq<Byte>) returns (ok: bool, datalength: nat, i: nat)
    requires text == Encode(src)
    modifies target
    ensures !ok ==> target.Length < |text|
    ensures ok ==> i <= |src| <= i + 2 && Written(text, target, datalength) && text[datalength..] == Encode(src[i..])
    ensures forall k :: datalength <= k < target.Length ==> target[k] == old(target[k])
  {
    ok, datalength, i := true, 0, 0;
    while 2 < |src| - i
      invariant i <= |src| && Written(text, target, datalength)
      invariant text[datalength..] == Encode(src[i..])
      invariant forall k :: datalength <= k < target.Length ==> target[k] == old(target[k])
    {
      var a, b, c := src[i], src[i + 1], src[i + 2];
      TextOfGroup(text, datalength, src, i);
      i := i + 3;
      if datalength + 4 > target.Length {
        ok := false;
        return;
      }
      datalength := Append(target, datalength, Group(a, b, c), text);
    }
  }

  /** The one or two bytes that are left over, padded to a group. */
  method EncodeEnd(src: seq<Byte>, target: array<Byte>, at: nat, i: nat, ghost text: seq<Byte>) returns (ok: bool, datalength: nat)
    requires i <= |src| <= i + 2 && Written(text, target, at) && text[at..] == Encode(src[i..])
    modifies target
    ensures !ok ==> target.Length < |text|
    ensures ok ==> datalength == |text| && Written(text, target, datalength)
    ensures ok ==> forall k :: datalength <= k < target.Length ==> target[k] == old(target[k])
  {
    ok, datalength := true, at;
    if i != |src| {
      TextOfEnd(text, datalength, src, i);
      if datalength + 4 > target.Length {
        return false, datalength;
      }
      datalength := Append(target, datalength, PaddedEnding(src, i), text);
    } else {
      assert text[datalength..] == [];
    }
  }

  method Encoder(src: seq<Byte>, target: array<Byte>) returns (r: int)
    modifies target
    ensures r == -1 <==> target.Length < 4 * ((|src| + 2) / 3) + 1
    ensures r != -1 ==> r == |Encode(src)| < target.Length
    ensures r != -1 ==> target[..r] == Encode(src) && target[r] == NUL
    ensures forall k :: 0 <= k < r ==> At(target[k]) == Character(src, k) as int
    ensures r != -1 ==> target[r + 1..] == old(target[r + 1..])
  {
    ghost var text := Encode(src);
    EncodedLength(src);
    EncodedCharacters(src);
    var ok, datalength, i := EncodeGroups(src, target, text);
    if !ok {
      return -1;
    }
    ok, datalength := EncodeEnd(src, target, datalength, i, text);
    if !ok || datalength >= target.Length {
      return -1;
    }
    target[datalength] := NUL;
    return datalength;
  }

  // ---------------------------------------------------------------- b64_pton

  /** A C string inside the reverse map's signed range, without its terminator. */
  ghost predicate Text(s: seq<Byte>) {
    forall k :: 0 <= k < |s| ==> 0 < s[k] < 128
  }

  /** The character at a position of a NUL-terminated string. */
  function CharAt(s: seq<Byte>, i: nat): Byte
    requires i <= |s|
  {
    if i < |s| then s[i] else NUL
  }

  function Strip(s: seq<Byte>): (t: seq<Byte>)
    ensures |t| <= |s|
  {
    if s == [] then [] else (if IsSpace(s[0]) then [] else [s[0]]) + Strip(s[1..])
  }

  lemma StripAt(s: seq<Byte>, i: nat)
    requires i < |s|
    ensures IsSpace(s[i]) ==> Strip(s[i..]) == Strip(s[i + 1..])
    ensures !IsSpace(s[i]) ==> Strip(s[i..]) == [s[i]] + Strip(s[i + 1..])
  {
    assert s[i..][1..] == s[i + 1..];
  }

  /** Room the decoder wants: a padded last group also uses the byte after its result. */
  function Needed(n: nat): nat { if n % 3 == 0 then n else n + 1 }

  /** The outcome of the decoder on text t with `size` bytes of room. */
  ghost predicate Outcome(t: seq<Byte>, size: nat, r: int) {
    && (r == -1 <==> Decode(t).None? || size < Needed(|Decode(t).value|))
    && (r != -1 ==> r == |Decode(t).value|)
  }

  /** The target while `done` bytes are finished and the letters `part` are pending. */
  ghost predicate Partial(target: array<Byte>, done: seq<Byte>, part: seq<Byte>)
    reads target
  {
    && |part| <= 3
    && target.Length >= |done| + |part|
    && (forall k :: 0 <= k < |done| ==> target[k] == done[k])
    && PartialGroup(target, |done|, part)
  }

  ghost predicate PartialGroup(target: array<Byte>, n: nat, part: seq<Byte>)
    requires |part| <= 3 && n + |part| <= target.Length
    reads target
  {
    && (|part| == 1 ==> target[n] == ValueOf(part[0]) << 2)
    && (|part| >= 2 ==> target[n] == High(ValueOf(part[0]), ValueOf(part[1])))
    && (|part| == 2 ==> target[n + 1] == (ValueOf(part[1]) & 15) << 4)
    && (|part| == 3 ==> target[n + 1] == Middle(ValueOf(part[1]), ValueOf(part[2])))
    && (|part| == 3 ==> target[n + 2] == (ValueOf(part[2]) & 3) << 6)
  }

  /** Room a state wants for its letter, from the start of the group. */
  function Room(state: nat): nat { if state < 3 then state + 1 else 3 }

  /** The bytes a state has finished within its group. */
  function Finished(state: nat): nat { if state <= 1 then 0 else state - 1 }

  // What the next significant character decides.

  /** The three bytes of a full group. */
  function Three(q: seq<Byte>): seq<Byte>
    requires |q| == 4
  {
    var u, v, w, x := ValueOf(q[0]), ValueOf(q[1]), ValueOf(q[2]), ValueOf(q[3]);
    [High(u, v), Middle(v, w), Low(w, x)]
  }

  /** What two or three letters and a pad stand for, given what follows the pad. */
  function PadTail(part: seq<Byte>, rest: seq<Byte>, strict: bool): Option<seq<Byte>>
    requires 2 <= |part| <= 3
  {
    var u, v := ValueOf(part[0]), ValueOf(part[1]);
    if |part| == 2 then
      if rest == [PAD] && (strict ==> v & 15 == 0) then Some([High(u, v)]) else None
    else
      var w := ValueOf(part[2]);
      if rest == [] && (strict ==> w & 3 == 0) then Some([High(u, v), Middle(v, w)]) else None
  }

  lemma {:induction false} PadDecides(part: seq<Byte>, rest: seq<Byte>, strict: bool)
    requires Letters(part) == |part| <= 3
    ensures Decode(part, strict) == if part == [] then Some([]) else None
    ensures |part| <= 1 ==> Decode(part + [PAD] + rest, strict).None?
    ensures |part| >= 2 ==> Decode(part + [PAD] + rest, strict) == PadTail(part, rest, strict)
  {
    var t := part + [PAD] + rest;
    assert t[|part|] == PAD;
    assert |t| >= 4 ==> Letters(t) == |part|;
    if |part| == 2 {
      assert t[2..] == [PAD] + rest;
      assert rest == [PAD] ==> t[2..] == [PAD, PAD];
      assert t[2..] == [PAD, PAD] ==> t[2..][1..] == rest;
    } else if |part| == 3 {
      assert t[3..] == [PAD] + rest;
    }
  }

  lemma BadDecides(part: seq<Byte>, c: Byte, rest: seq<Byte>, strict: bool)
    requires Letters(part) == |part| <= 3
    requires !IsLetter(c) && c != PAD
    ensures Decode(part + [c] + rest, strict).None?
  {
    var t := part + [c] + rest;
    assert t[|part|] == c;
    assert |t| >= 4 ==> Letters(t) == |part|;
  }

  lemma {:induction false} LetterDecides(part: seq<Byte>, c: Byte, rest: seq<Byte>, strict: bool)
    requires Letters(part) == |part| <= 3 && IsLetter(c)
    ensures Decode(part + [c] + rest, strict).Some? ==>
      |Decode(part + [c] + rest, strict).value| >= (if |part| <= 1 then 1 else |part|)
    ensures |part| == 3 ==> Decode(part + [c] + rest, strict) == Prepend(Three(part + [c]), Decode(rest, strict))
  {
    var t := part + [c] + rest;
    assert t[..|part| + 1] == part + [c];
    assert forall k :: 0 <= k < |part| ==> t[k] == part[k];
    if |part| == 3 {
      assert t[4..] == rest;
    }
  }

  function Tail(state: nat): seq<Byte> { if state == 2 then [PAD] else [] }

  lemma StripEnd(s: seq<Byte>, i: nat)
    requires i <= |s| && (i < |s| ==> !IsSpace(s[i]))
    ensures Strip(s[i..]) == if i < |s| then [s[i]] + Strip(s[i + 1..]) else []
  {
    if i < |s| {
      StripAt(s, i);
    }
  }

  /** The position of the first character that is not white space. */
  method SkipSpaces(src: seq<Byte>, from: nat, rmap: array<Byte>) returns (i: nat)
    requires from <= |src| && Text(src) && Mapped(rmap)
    ensures from <= i <= |src| && (i < |src| ==> !IsSpace(src[i]))
    ensures Strip(src[from..]) == Strip(src[i..])
  {
    i := from;
    while CharAt(src, i) != NUL
      invariant from <= i <= |src|
      invariant Strip(src[from..]) == Strip(src[i..])
      decreases |src| - i
    {
      if rmap[At(src[i])] != SPACE {
        return;
      }
      StripAt(src, i);
      i := i + 1;
    }
  }

  /** The characters after the first pad: in state 2 another pad, and otherwise only white space. */
  method TrailingPad(src: seq<Byte>, from: nat, state: nat, rmap: array<Byte>) returns (ok: bool)
    requires from <= |src| && Text(src) && Mapped(rmap)
    ensures ok <==> Strip(src[from..]) == Tail(state)
  {
    var i := SkipSpaces(src, from, rmap);
    StripEnd(src, i);
    if state == 2 {
      if CharAt(src, i) != PAD {
        assert Strip(src[i..]) != [] ==> Strip(src[i..])[0] == src[i];
        return false;
      }
      i := SkipSpaces(src, i + 1, rmap);
      StripEnd(src, i);
    }
    return CharAt(src, i) == NUL;
  }

  /** Finished bytes in front of what is still to be read. */
  ghost predicate Pending(src: seq<Byte>, i: nat, done: seq<Byte>, part: seq<Byte>, strict: bool)
    requires i <= |src|
  {
    && Letters(part) == |part| <= 3
    && |done| % 3 == 0
    && Decode(Strip(src), strict) == Prepend(done, Decode(part + Strip(src[i..]), strict))
  }

  lemma PendingStart(src: seq<Byte>, strict: bool)
    ensures Pending(src, 0, [], [], strict)
  {
    assert src[0..] == src && [] + Strip(src) == Strip(src);
    if Decode(Strip(src), strict).Some? {
      assert [] + Decode(Strip(src), strict).value == Decode(Strip(src), strict).value;
    }
  }

  lemma PrependTwice<T>(a: seq<T>, b: seq<T>, o: Option<seq<T>>)
    ensures Prepend(a, Prepend(b, o)) == Prepend(a + b, o)
  {
    if o.Some? {
      assert a + (b + o.value) == a + b + o.value;
    }
  }

  lemma AtCharacter(src: seq<Byte>, i: nat, part: seq<Byte>)
    requires i < |src| && !IsSpace(src[i])
    ensures part + Strip(src[i..]) == part + [src[i]] + Strip(src[i + 1..])
  {
    StripAt(src, i);
  }

  /** Reading one more letter: what is pending afterwards. */
  lemma PendingLetter(src: seq<Byte>, i: nat, done: seq<Byte>, part: seq<Byte>, strict: bool)
    requires i < |src| && Pending(src, i, done, part, strict) && IsLetter(src[i])
    ensures |part| < 3 ==> Pending(src, i + 1, done, part + [src[i]], strict)
    ensures |part| == 3 ==> Pending(src, i + 1, done + Three(part + [src[i]]), [], strict)
  {
    var c := src[i];
    var rest := Strip(src[i + 1..]);
    AtCharacter(src, i, part);
    LetterKept(part, c);
    if |part| == 3 {
      LetterDecides(part, c, rest, strict);
      PrependTwice(done, Three(part + [c]), Decode(rest, strict));
      NextGroup(|done|);
      assert [] + rest == rest;
    }
  }

  /** Reading one more letter: the room the result will want. */
  lemma PendingRoom(src: seq<Byte>, i: nat, done: seq<Byte>, part: seq<Byte>, size: nat)
    requires i < |src| && Pending(src, i, done, part, true) && IsLetter(src[i]) && size < |done| + Room(|part|)
    ensures Outcome(Strip(src), size, -1)
  {
    AtCharacter(src, i, part);
    LetterDecides(part, src[i], Strip(src[i + 1..]), true);
    if Decode(Strip(src)).Some? {
      RoomNeeded(|done|, |part|, |Decode(Strip(src)).value|);
    }
  }

  lemma PendingBad(src: seq<Byte>, i: nat, done: seq<Byte>, part: seq<Byte>, strict: bool)
    requires i < |src| && Pending(src, i, done, part, strict)
    requires !IsLetter(src[i]) && !IsSpace(src[i]) && (src[i] == PAD ==> |part| <= 1)
    ensures Decode(Strip(src), strict).None?
  {
    AtCharacter(src, i, part);
    if src[i] == PAD {
      PadDecides(part, Strip(src[i + 1..]), strict);
    } else {
      BadDecides(part, src[i], Strip(src[i + 1..]), strict);
    }
  }

  lemma PendingEnd(src: seq<Byte>, done: seq<Byte>, part: seq<Byte>, strict: bool)
    requires Pending(src, |src|, done, part, strict)
    ensures Decode(Strip(src), strict) == if part == [] then Some(done) else None
  {
    PadDecides(part, [], strict);
    assert part + [] == part && done + [] == done;
  }

  lemma LetterKept(part: seq<Byte>, c: Byte)
    requires Letters(part) == |part| <= 3 && IsLetter(c)
    ensures Letters(part + [c]) == |part| + 1
  {
  }

  lemma NextGroup(n: nat)
    requires n % 3 == 0
    ensures (n + 3) % 3 == 0 && Needed(n) == n && Needed(n + 1) == n + 2 && Needed(n + 2) == n + 3
  {
  }

  lemma RoomNeeded(done: nat, part: nat, n: nat)
    requires done % 3 == 0 && part <= 3
    requires n >= done + if part <= 1 then 1 else part
    ensures done + Room(part) <= Needed(n)
  {
  }

  /** The switch of the decoder: ORs one letter into the target. */
  method Step(target: array<Byte>, state: nat, tarindex: nat, ofs: Byte, ghost done: seq<Byte>,
              ghost part: seq<Byte>, ghost ch: Byte) returns (ok: bool, state': nat, tarindex': nat)
    requires state == |part| <= 3 && tarindex == |done| + Finished(state)
    requires Partial(target, done, part) && IsLetter(ch) && ofs == ValueOf(ch)
    modifies target
    ensures ok <==> |done| + Room(state) <= target.Length
    ensures ok && state < 3 ==>
      state' == state + 1 && tarindex' == |done| + Finished(state') && Partial(target, done, part + [ch])
    ensures ok && state == 3 ==>
      state' == 0 && tarindex' == |done| + 3 && Partial(target, done + Three(part + [ch]), [])
  {
    ok, state', tarindex' := true, 0, tarindex;
    match state {
      case 0 =>
        if tarindex >= target.Length {
          ok := false;
          return;
        }
        target[tarindex] := ofs << 2;
        state' := 1;
      case 1 =>
        ok := SecondLetter(target, tarindex, ofs, done, part, ch);
        tarindex', state' := tarindex + 1, 2;
      case 2 =>
        ok := ThirdLetter(target, tarindex, ofs, done, part, ch);
        tarindex', state' := tarindex + 1, 3;
      case 3 =>
        ok := FourthLetter(target, tarindex, ofs, done, part, ch);
        tarindex' := tarindex + 1;
    }
  }

  method SecondLetter(target: array<Byte>, tarindex: nat, ofs: Byte, ghost done: seq<Byte>, ghost part: seq<Byte>, ghost ch: Byte)
    returns (ok: bool)
    requires |part| == 1 && tarindex == |done| && Partial(target, done, part) && IsLetter(ch) && ofs == ValueOf(ch)
    modifies target
    ensures ok <==> tarindex + 1 < target.Length
    ensures ok ==> Partial(target, done, part + [ch])
  {
    if tarindex + 1 >= target.Length {
      return false;
    }
    target[tarindex] := target[tarindex] | (ofs >> 4);
    target[tarindex + 1] := (ofs & 15) << 4;
    return true;
  }

  method ThirdLetter(target: array<Byte>, tarindex: nat, ofs: Byte, ghost done: seq<Byte>, ghost part: seq<Byte>, ghost ch: Byte)
    returns (ok: bool)
    requires |part| == 2 && tarindex == |done| + 1 && Partial(target, done, part) && IsLetter(ch) && ofs == ValueOf(ch)
    modifies target
    ensures ok <==> tarindex + 1 < target.Length
    ensures ok ==> Partial(target, done, part + [ch])
  {
    if tarindex + 1 >= target.Length {
      return false;
    }
    target[tarindex] := target[tarindex] | (ofs >> 2);
    target[tarindex + 1] := (ofs & 3) << 6;
    return true;
  }

  method FourthLetter(target: array<Byte>, tarindex: nat, ofs: Byte, ghost done: seq<Byte>, ghost part: seq<Byte>, ghost ch: Byte)
    returns (ok: bool)
    requires |part| == 3 && tarindex == |done| + 2 && Partial(target, done, part) && IsLetter(ch) && ofs == ValueOf(ch)
    modifies target
    ensures ok <==> tarindex < target.Length
    ensures ok ==> Partial(target, done + Three(part + [ch]), [])
  {
    if tarindex >= target.Length {
      return false;
    }
    target[tarindex] := target[tarindex] | ofs;
    return true;
  }

  /** The verdict on a padded end: the spare bits sit alone in the byte at tarindex. */
  lemma PaddedEnd(target: array<Byte>, done: seq<Byte>, part: seq<Byte>, rest: seq<Byte>)
    requires Partial(target, done, part) && |done| % 3 == 0 && |part| >= 2 && Letters(part) == |part|
    ensures var t, n := Prepend(done, Decode(part + [PAD] + rest)), |done| + |part| - 1;
            && n < target.Length
            && (target[n] != 0 || rest != Tail(|part|) ==> t.None?)
            && (target[n] == 0 && rest == Tail(|part|) ==> t == Some(target[..n]) && Needed(n) <= target.Length)
  {
    PadDecides(part, rest, true);
    NextGroup(|done|);
    if rest == Tail(|part|) && target[|done| + |part| - 1] == 0 {
      SpareBits(ValueOf(part[|part| - 1]));
      var t := Prepend(done, Decode(part + [PAD] + rest)).value;
      assert t == target[..|done| + |part| - 1];
    } else {
      SpareBits(ValueOf(part[|part| - 1]));
    }
  }

  lemma SpareBits(v: Byte)
    ensures (v & 15) << 4 == 0 <==> v & 15 == 0
    ensures (v & 3) << 6 == 0 <==> v & 3 == 0
  {
  }

  /** The checks once the letters have ended at position i with NUL or a pad. */
  method Finish(src: seq<Byte>, i: nat, ch: Byte, state: nat, tarindex: nat, target: array<Byte>,
                rmap: array<Byte>, ghost done: seq<Byte>, ghost part: seq<Byte>) returns (r: int)
    requires Text(src) && Mapped(rmap) && i <= |src| && ch == CharAt(src, i)
    requires ch == PAD || ch == NUL
    requires state == |part| && tarindex == |done| + Finished(state)
    requires Pending(src, i, done, part, true) && Partial(target, done, part)
    ensures Outcome(Strip(src), target.Length, r)
    ensures r != -1 ==> Decode(Strip(src)) == Some(target[..r])
  {
    if ch == PAD {
      if state <= 1 {
        PendingBad(src, i, done, part, true);
        return -1;
      }
      AtCharacter(src, i, part);
      PaddedEnd(target, done, part, Strip(src[i + 1..]));
      var ok := TrailingPad(src, i + 1, state, rmap);
      if !ok || target[tarindex] != 0 {
        return -1;
      }
    } else {
      PendingEnd(src, done, part, true);
      NextGroup(|done|);
      if state != 0 {
        return -1;
      }
      assert done == target[..tarindex];
    }
    return tarindex;
  }

  method Decoder(src: seq<Byte>, target: array<Byte>, rmap: array<Byte>) returns (tarindex: int)
    requires Text(src) && Mapped(rmap) && rmap != target
    modifies target
    ensures Outcome(Strip(src), target.Length, tarindex)
    ensures tarindex != -1 ==> Decode(Strip(src)) == Some(target[..tarindex])
  {
    var state := 0;
    tarindex := 0;
    var i := 0;
    ghost var done: seq<Byte>, part: seq<Byte> := [], [];
    var ch: Byte;
    PendingStart(src, true);
    while true
      invariant i <= |src| && state == |part| && tarindex == |done| + Finished(state)
      invariant Pending(src, i, done, part, true)
      invariant Partial(target, done, part)
      invariant Mapped(rmap)
      decreases |src| - i
    {
      ch := CharAt(src, i);
      var ofs := rmap[At(ch)];
      if ofs >= SPECIAL {
        if ofs == SPACE {
          StripAt(src, i);
          i := i + 1;
          continue;
        }
        if ofs == END {
          break;
        }
        PendingBad(src, i, done, part, true);
        return -1;
      }
      var ok;
      ok, state, tarindex := Step(target, state, tarindex, ofs, done, part, ch);
      if !ok {
        PendingRoom(src, i, done, part, target.Length);
        return -1;
      }
      PendingLetter(src, i, done, part, true);
      i := i + 1;
      part := part + [ch];
      if |part| == 4 {
        done, part := done + Three(part), [];
      }
    }
    tarindex := Finish(src, i, ch, state, tarindex, target, rmap, done, part);
  }

  // ---------------------------------------------------------------- b64_pton_len

  method LengthOnly(src: seq<Byte>, rmap: array<Byte>) returns (tarindex: int)
    requires Text(src) && Mapped(rmap)
    ensures tarindex == match Decode(Strip(src), false) case None => -1 case Some(s) => |s|
  {
    var state := 0;
    tarindex := 0;
    var i := 0;
    ghost var done: seq<Byte>, part: seq<Byte> := [], [];
    var ch: Byte;
    PendingStart(src, false);
    while true
      invariant i <= |src| && state == |part| && tarindex == |done| + Finished(state)
      invariant Pending(src, i, done, part, false)
      decreases |src| - i
    {
      ch := CharAt(src, i);
      var ofs := rmap[At(ch)];
      if ofs >= SPECIAL {
        if ofs == SPACE {
          StripAt(src, i);
          i := i + 1;
          continue;
        }
        if ofs == END {
          break;
        }
        PendingBad(src, i, done, part, false);
        return -1;
      }
      PendingLetter(src, i, done, part, false);
      if |part| < 3 {
        part := part + [src[i]];
      } else {
        done, part := done + Three(part + [src[i]]), [];
      }
      match state {
        case 0 =>
          state := 1;
        case 1 =>
          tarindex := tarindex + 1;
          state := 2;
        case 2 =>
          tarindex := tarindex + 1;
          state := 3;
        case 3 =>
          tarindex := tarindex + 1;
          state := 0;
      }
      i := i + 1;
    }
    tarindex := LengthEnd(src, i, ch, state, tarindex, rmap, done, part);
  }

  /** Its checks once the letters have ended at position i with NUL or a pad. */
  method LengthEnd(src: seq<Byte>, i: nat, ch: Byte, state: nat, tarindex: nat, rmap: array<Byte>,
                   ghost done: seq<Byte>, ghost part: seq<Byte>) returns (r: int)
    requires Text(src) && Mapped(rmap) && i <= |src| && ch == CharAt(src, i)
    requires ch == PAD || ch == NUL
    requires state == |part| && tarindex == |done| + Finished(state) && Pending(src, i, done, part, false)
    ensures r == match Decode(Strip(src), false) case None => -1 case Some(s) => |s|
  {
    if ch == PAD {
      if state <= 1 {
        PendingBad(src, i, done, part, false);
        return -1;
      }
      AtCharacter(src, i, part);
      PadDecides(part, Strip(src[i + 1..]), false);
      var ok := TrailingPad(src, i + 1, state, rmap);
      if !ok {
        return -1;
      }
    } else {
      PendingEnd(src, done, part, false);
      if state != 0 {
        return -1;
      }
    }
    return tarindex;
  }

  /** The bits of the last letter that lie past the last whole byte. */
  function Spare(t: seq<Byte>): Byte {
    if |t| >= 4 && t[|t| - 1] == PAD then
      if t[|t| - 2] == PAD then ValueOf(t[|t| - 3]) & 15 else ValueOf(t[|t| - 2]) & 3
    else 0
  }

  /** The length-only decoder accepts more than the decoder: exactly the texts with spare bits set. */
  lemma {:induction false} LengthAgrees(t: seq<Byte>)
    ensures Decode(t).Some? <==> Decode(t, false).Some? && Spare(t) == 0
    ensures Decode(t).Some? ==> Decode(t, false) == Decode(t)
  {
    if |t| >= 4 && Letters(t) == 4 {
      LengthAgrees(t[4..]);
      if |t| >= 8 {
        assert Spare(t) == Spare(t[4..]);
      } else if |t| > 4 {
        assert Decode(t[4..]).None? && Decode(t[4..], false).None?;
      }
    }
  }

  /** "QR==": the length-only decoder announces one byte, the decoder finds the spare bit and refuses. */
  lemma SpareBitRefused()
    ensures var t: seq<Byte> := [81, 82, PAD, PAD]; Decode(t, false) == Some([65]) && Decode(t).None?
  {
    var t: seq<Byte> := [81, 82, PAD, PAD];
    assert Letters(t) == 2 && t[2..] == [PAD, PAD];
    assert High(ValueOf(81), ValueOf(82)) == 65;
  }

  /** So a buffer of the announced length plus one byte always holds the decoded bytes. */
  lemma AnnouncedRoom(t: seq<Byte>)
    requires Decode(t).Some?
    ensures Decode(t, false).Some? && Needed(|Decode(t).value|) <= |Decode(t, false).value| + 1
  {
    LengthAgrees(t);
  }

  /** Decoding what the encoder wrote, with white space strewn in anywhere, gives the bytes back in
      any target one byte longer than they are. */
  lemma EncodedText(s: seq<Byte>, src: seq<Byte>, size: nat)
    requires Strip(src) == Encode(s) && size >= |s| + 1
    ensures Outcome(Strip(src), size, |s|) && Decode(Strip(src)) == Some(s)
  {
    RoundTrip(s);
  }

  lemma LetterIsText(v: Byte)
    requires v < 64
    ensures 0 < Letter(v) < 128 && !IsSpace(Letter(v))
  {
  }

  lemma {:induction false} EncodedIsText(s: seq<Byte>)
    ensures Text(Encode(s)) && Strip(Encode(s)) == Encode(s)
  {
    forall v: Byte | v < 64 ensures 0 < Letter(v) < 128 && !IsSpace(Letter(v)) { LetterIsText(v); }
    var q := if |s| == 0 then [] else if |s| == 1 then OneByte(s[0]) else if |s| == 2 then TwoBytes(s[0], s[1])
             else Group(s[0], s[1], s[2]);
    var rest := if |s| >= 3 then s[3..] else [];
    assert Encode(s) == q + Encode(rest);
    if |s| >= 3 {
      EncodedIsText(rest);
    }
    StripGroup(q, Encode(rest));
  }

  lemma {:induction false} StripGroup(q: seq<Byte>, t: seq<Byte>)
    requires forall k :: 0 <= k < |q| ==> !IsSpace(q[k])
    ensures Strip(q + t) == q + Strip(t)
  {
    if q == [] {
      assert q + t == t;
    } else {
      assert (q + t)[1..] == q[1..] + t;
      StripGroup(q[1..], t);
      assert q == [q[0]] + q[1..];
    }
  }

  /** Encoding into a buffer and decoding that text into one of the announced length plus one byte
      gives the bytes back. */
  method EncodeAndDecode(src: seq<Byte>, rmap: array<Byte>) returns (back: seq<Byte>)
    requires Mapped(rmap)
    ensures back == src
  {
    EncodedLength(src);
    EncodedIsText(src);
    RoundTrip(src);
    LengthAgrees(Encode(src));
    var text := new Byte[4 * ((|src| + 2) / 3) + 1];
    var length := Encoder(src, text);
    var announced := LengthOnly(text[..length], rmap);
    var target := new Byte[announced + 1];
    EncodedText(src, text[..length], target.Length);
    var size := Decoder(text[..length], target, rmap);
    back := target[..size];
  }
}
