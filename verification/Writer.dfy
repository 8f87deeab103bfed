// The buffered writer (xml_buffered_writer) and the UTF-8 decoder behind it: text written in pieces
// comes out as one conversion of the whole text, however the buffer cuts it.
module Writer {
  type Byte = bv8

  /** The encodings with their own branch in convert_buffer_output, and the native one. */
  datatype Encoding = Utf8 | Utf16 | Utf32 | Latin1

  const CAPACITY: nat := 2048

  /** Bytes per unit of an encoding. */
  function UnitSize(e: Encoding): nat {
    match e
    case Utf8 => 1
    case Utf16 => 2
    case Utf32 => 4
    case Latin1 => 1
  }

  // ---------------------------------------------------------------- writers

  /** What a writer puts out for a code point below U+10000. */
  function Low(e: Encoding, ch: bv32): seq<bv32> {
    match e
    case Utf8 =>
      if ch < 0x80 then [ch & 0xff]
      else if ch < 0x800 then [0xC0 | (ch >> 6), 0x80 | (ch & 0x3F)]
      else [0xE0 | (ch >> 12), 0x80 | ((ch >> 6) & 0x3F), 0x80 | (ch & 0x3F)]
    case Utf16 => [ch & 0xffff]
    case Utf32 => [ch]
    case Latin1 => [if ch > 255 then 63 else ch]
  }

  /** What a writer puts out for a code point in a four-byte sequence. */
  function High(e: Encoding, ch: bv32): seq<bv32> {
    match e
    case Utf8 =>
      [0xF0 | (ch >> 18), 0x80 | ((ch >> 12) & 0x3F), 0x80 | ((ch >> 6) & 0x3F), 0x80 | (ch & 0x3F)]
    case Utf16 => [(0xD800 + ((ch - 0x10000) >> 10)) & 0xffff, (0xDC00 + ((ch - 0x10000) & 0x3ff)) & 0xffff]
    case Utf32 => [ch]
    case Latin1 => [63]
  }

  // ---------------------------------------------------------------- the decoder

  predicate Continues(b: Byte) { b & 0xc0 == 0x80 }

  /** The length of the sequence at the front, or 0 if there is none. */
  function Size(s: seq<Byte>): (n: nat)
    requires s != []
    ensures n <= 4 && n <= |s|
    ensures forall k :: 1 <= k < n ==> Continues(s[k])
  {
    if s[0] < 0x80 then 1
    else if 0xC0 <= s[0] < 0xE0 && |s| >= 2 && Continues(s[1]) then 2
    else if 0xE0 <= s[0] < 0xF0 && |s| >= 3 && Continues(s[1]) && Continues(s[2]) then 3
    else if 0xF0 <= s[0] < 0xF8 && |s| >= 4 && Continues(s[1]) && Continues(s[2]) && Continues(s[3]) then 4
    else 0
  }

  function Bits(b: Byte): bv32 { (b & 0x3f) as bv32 }

  function Two(a: Byte, b: Byte): bv32 { ((a & 0x3f) as bv32 << 6) | Bits(b) }

  function Three(a: Byte, b: Byte, c: Byte): bv32 {
    ((a & 0x1f) as bv32 << 12) | (Bits(b) << 6) | Bits(c)
  }

  function Four(a: Byte, b: Byte, c: Byte, d: Byte): bv32 {
    ((a & 0x0f) as bv32 << 18) | (Bits(b) << 12) | (Bits(c) << 6) | Bits(d)
  }

  /** The units for the sequence at the front; none when there is no sequence. */
  function Emit(e: Encoding, s: seq<Byte>): seq<bv32>
    requires s != []
  {
    match Size(s)
    case 1 => Low(e, s[0] as bv32)
    case 2 => Low(e, Two(s[0], s[1]))
    case 3 => Low(e, Three(s[0], s[1], s[2]))
    case 4 => High(e, Four(s[0], s[1], s[2], s[3]))
    case _ => []
  }

  /** The whole text converted; bytes that start no sequence are dropped one by one. */
  function Convert(e: Encoding, s: seq<Byte>): seq<bv32> {
    if s == [] then []
    else if Size(s) == 0 then Convert(e, s[1..])
    else Emit(e, s) + Convert(e, s[Size(s)..])
  }

  /** Nothing is dropped: the text is whole sequences end to end. */
  predicate WellFormed(s: seq<Byte>) {
    s == [] || (Size(s) > 0 && WellFormed(s[Size(s)..]))
  }

  // ---------------------------------------------------------------- byte order

  /** endian_swap for 16 bits */
  function Swap16(x: bv32): bv32 { (((x & 0xff) << 8) | (x >> 8)) & 0xffff }

  /** endian_swap for 32 bits */
  function Swap32(x: bv32): bv32 {
    ((x & 0xff) << 24) | ((x & 0xff00) << 8) | ((x & 0xff0000) >> 8) | (x >> 24)
  }

  function SwapUnit(e: Encoding, swap: bool, x: bv32): bv32 {
    if !swap then x
    else
      match e
      case Utf16 => Swap16(x)
      case Utf32 => Swap32(x)
      case _ => x
  }

  function SwapAll(e: Encoding, swap: bool, u: seq<bv32>): (r: seq<bv32>)
    ensures |r| == |u|
    ensures forall k :: 0 <= k < |u| ==> r[k] == SwapUnit(e, swap, u[k])
  {
    seq(|u|, k requires 0 <= k < |u| => SwapUnit(e, swap, u[k]))
  }

  /** What a text becomes in an encoding, in the byte order of the machine or swapped. */
  function Encoded(e: Encoding, swap: bool, s: seq<Byte>): seq<bv32> {
    SwapAll(e, swap, Convert(e, s))
  }

  lemma SwapJoin(e: Encoding, swap: bool, a: seq<bv32>, b: seq<bv32>)
    ensures SwapAll(e, swap, a + b) == SwapAll(e, swap, a) + SwapAll(e, swap, b)
  {
  }

  lemma SwapBack(x: bv32)
    ensures x < 0x10000 ==> Swap16(Swap16(x)) == x
    ensures Swap32(Swap32(x)) == x
  {
  }

  // Section 3 of RFC 3629: how the bits of a code point are spread over its bytes.

  lemma OneByte(x: bv7)
    ensures Emit(Utf32, [x as Byte]) == [x as bv32] && Low(Utf8, x as bv32) == [x as bv32]
  {
  }

  lemma TwoBytes(x: bv5, y: bv6)
    ensures var ch := (x as bv32 << 6) | y as bv32;
            && Emit(Utf32, [0xC0 | x as Byte, 0x80 | y as Byte]) == [ch]
            && (0x80 <= ch ==> Low(Utf8, ch) == [0xC0 | x as bv32, 0x80 | y as bv32])
  {
  }

  lemma ThreeBytes(x: bv4, y: bv6, z: bv6)
    ensures var ch := (x as bv32 << 12) | (y as bv32 << 6) | z as bv32;
            && Emit(Utf32, [0xE0 | x as Byte, 0x80 | y as Byte, 0x80 | z as Byte]) == [ch]
            && (0x800 <= ch ==> Low(Utf8, ch) == [0xE0 | x as bv32, 0x80 | y as bv32, 0x80 | z as bv32])
  {
  }

  lemma FourBytes(x: bv3, y: bv6, z: bv6, w: bv6)
    ensures var ch := (x as bv32 << 18) | (y as bv32 << 12) | (z as bv32 << 6) | w as bv32;
            && Emit(Utf32, [0xF0 | x as Byte, 0x80 | y as Byte, 0x80 | z as Byte, 0x80 | w as Byte]) == [ch]
            && High(Utf8, ch) == [0xF0 | x as bv32, 0x80 | y as bv32, 0x80 | z as bv32, 0x80 | w as bv32]
  {
  }

  /** Section 2.1 of RFC 2781: the upper ten bits come first. */
  lemma SurrogatePair(ch: bv32, upper: bv10, lower: bv10)
    ensures ch < 0x10000 ==> Low(Utf16, ch) == [ch]
    ensures High(Utf16, 0x10000 + ((upper as bv32 << 10) | lower as bv32)) == [0xD800 | upper as bv32, 0xDC00 | lower as bv32]
  {
  }

  /** The bytes of a unit in the opposite order. */
  lemma BytesSwapped(a: Byte, b: Byte, c: Byte, d: Byte)
    ensures Swap16((a as bv32 << 8) | b as bv32) == (b as bv32 << 8) | a as bv32
    ensures Swap32((a as bv32 << 24) | (b as bv32 << 16) | (c as bv32 << 8) | d as bv32)
            == (d as bv32 << 24) | (c as bv32 << 16) | (b as bv32 << 8) | a as bv32
  {
  }

  /** Only the units of UTF-16 and UTF-32 have an order of bytes. */
  lemma ByteOrder(e: Encoding, s: seq<Byte>)
    ensures Encoded(e, false, s) == Convert(e, s)
    ensures e.Utf8? || e.Latin1? ==> Encoded(e, true, s) == Convert(e, s)
    ensures e.Utf16? ==> |Encoded(e, true, s)| == |Convert(e, s)|
                         && forall k :: 0 <= k < |Convert(e, s)| ==> Encoded(e, true, s)[k] == Swap16(Convert(e, s)[k])
    ensures e.Utf32? ==> |Encoded(e, true, s)| == |Convert(e, s)|
                         && forall k :: 0 <= k < |Convert(e, s)| ==> Encoded(e, true, s)[k] == Swap32(Convert(e, s)[k])
  {
  }

  // ---------------------------------------------------------------- cutting a text

  lemma SizeOfFront(a: seq<Byte>, b: seq<Byte>)
    requires a != [] && Size(a) > 0
    ensures Size(a + b) == Size(a)
    ensures forall e :: Emit(e, a + b) == Emit(e, a)
  {
    var t := a + b;
    assert forall k :: 0 <= k < |a| ==> t[k] == a[k];
  }

  /** Converting is a homomorphism once the first part is whole. */
  lemma {:induction false} ConvertJoin(e: Encoding, a: seq<Byte>, b: seq<Byte>)
    requires WellFormed(a)
    ensures Convert(e, a + b) == Convert(e, a) + Convert(e, b)
  {
    if a == [] {
      assert a + b == b;
    } else {
      var n := Size(a);
      SizeOfFront(a, b);
      assert (a + b)[n..] == a[n..] + b;
      ConvertJoin(e, a[n..], b);
      JoinThree(Emit(e, a), Convert(e, a[n..]), Convert(e, b));
    }
  }

  lemma JoinThree(x: seq<bv32>, y: seq<bv32>, z: seq<bv32>)
    ensures x + (y + z) == x + y + z
  {
  }

  lemma {:induction false} WellFormedJoin(a: seq<Byte>, b: seq<Byte>)
    requires WellFormed(a)
    ensures WellFormed(a + b) <==> WellFormed(b)
  {
    if a == [] {
      assert a + b == b;
    } else {
      var n := Size(a);
      SizeOfFront(a, b);
      assert (a + b)[n..] == a[n..] + b;
      WellFormedJoin(a[n..], b);
    }
  }

  /** A well-formed text may be cut in front of any byte that does not continue a sequence. */
  lemma {:induction false} CutBeforeLead(a: seq<Byte>, b: seq<Byte>)
    requires WellFormed(a + b)
    requires b != [] ==> !Continues(b[0])
    ensures WellFormed(a) && WellFormed(b)
  {
    if a == [] {
      assert a + b == b;
    } else if b == [] {
      assert a + b == a;
    } else {
      var t := a + b;
      var n := Size(t);
      assert t[|a|] == b[0];
      assert n <= |a|;
      assert forall k :: 0 <= k < |a| ==> a[k] == t[k];
      assert t[n..] == a[n..] + b;
      CutBeforeLead(a[n..], b);
    }
  }

  /** Bytes the decoder consumes at once at the front. */
  function Taken(s: seq<Byte>): (n: nat)
    requires s != []
    ensures 1 <= n <= |s|
  {
    if Size(s) == 0 then 1 else Size(s)
  }

  /** The decoder does not read across position k. */
  predicate Boundary(s: seq<Byte>, k: nat)
    requires k <= |s|
  {
    k == 0 || (Taken(s) <= k && Boundary(s[Taken(s)..], k - Taken(s)))
  }

  lemma BoundaryIsWhole(s: seq<Byte>, k: nat)
    requires WellFormed(s) && k <= |s|
    ensures Boundary(s, k) <==> WellFormed(s[..k])
  {
    if 0 < k {
      var n := Size(s);
      SizeOfPart(s, k);
      if n <= k {
        assert s[..k][n..] == s[n..][..k - n];
        BoundaryIsWhole(s[n..], k - n);
      }
    }
  }

  /** A text cut off after k bytes starts with the same sequence, or with one that is cut in two. */
  lemma SizeOfPart(s: seq<Byte>, k: nat)
    requires 0 < k <= |s|
    ensures Size(s[..k]) == if Taken(s) <= k then Size(s) else 0
    ensures Taken(s) <= k ==> forall e :: Emit(e, s[..k]) == Emit(e, s)
  {
    var t := s[..k];
    assert forall m :: 0 <= m < k ==> t[m] == s[m];
  }

  /** Bytes that continue a sequence convert to nothing where none has begun. */
  lemma {:induction false} StrayBytes(e: Encoding, s: seq<Byte>, n: nat)
    requires n <= |s| && forall k :: 0 <= k < n ==> Continues(s[k])
    ensures Convert(e, s) == Convert(e, s[n..])
  {
    if n == 0 {
      assert s[0..] == s;
    } else {
      var t := s[1..];
      assert Size(s) == 0;
      assert forall k :: 0 <= k < n - 1 ==> t[k] == s[k + 1];
      StrayBytes(e, t, n - 1);
      assert t[n - 1..] == s[n..];
    }
  }

  lemma EmitSome(e: Encoding, s: seq<Byte>)
    requires s != [] && Size(s) > 0
    ensures |Emit(e, s)| > 0
  {
  }

  /** Cut inside a sequence, that sequence is lost, and nothing else. */
  lemma SequenceIsLost(e: Encoding, s: seq<Byte>, k: nat)
    requires k <= |s| && 0 < k < Taken(s)
    ensures Convert(e, s[..k]) == [] && Convert(e, s[k..]) == Convert(e, s[Size(s)..])
  {
    var n, front, rest := Size(s), s[..k], s[k..];
    SizeOfPart(s, k);
    assert front[1..] == s[1..k];
    assert forall m :: 0 <= m < k - 1 ==> front[1..][m] == s[m + 1];
    StrayBytes(e, front[1..], k - 1);
    assert front[1..][k - 1..] == [];
    assert forall m :: 0 <= m < n - k ==> rest[m] == s[m + k];
    StrayBytes(e, rest, n - k);
    assert rest[n - k..] == s[n..];
  }

  /** Past the sequence at the front, both sides go on alike. */
  lemma CutLater(e: Encoding, s: seq<Byte>, k: nat)
    requires s != [] && Taken(s) <= k <= |s|
    ensures var n := Taken(s);
            && s[n..][k - n..] == s[k..]
            && Convert(e, s[..k]) == Emit(e, s) + Convert(e, s[n..][..k - n])
            && Convert(e, s) == Emit(e, s) + Convert(e, s[n..])
  {
    SizeOfPart(s, k);
    assert s[..k][Taken(s)..] == s[Taken(s)..][..k - Taken(s)];
    assert Size(s) == 0 ==> Emit(e, s) == [];
  }

  /** Two parts of a text convert to the conversion of the text exactly if no sequence is cut in two;
      otherwise something is missing. */
  lemma {:induction false} CutIsExact(e: Encoding, s: seq<Byte>, k: nat)
    requires k <= |s|
    ensures Boundary(s, k) ==> Convert(e, s[..k]) + Convert(e, s[k..]) == Convert(e, s)
    ensures !Boundary(s, k) ==> |Convert(e, s[..k])| + |Convert(e, s[k..])| < |Convert(e, s)|
  {
    if k == 0 {
      assert s[..0] == [] && s[0..] == s;
    } else if k < Taken(s) {
      SequenceIsLost(e, s, k);
      EmitSome(e, s);
    } else {
      var rest, m := s[Taken(s)..], k - Taken(s);
      CutLater(e, s, k);
      CutIsExact(e, rest, m);
      JoinThree(Emit(e, s), Convert(e, rest[..m]), Convert(e, s[k..]));
    }
  }

  /** No four bytes in a row continue a sequence. */
  lemma {:induction false} NoLongTail(s: seq<Byte>, k: nat)
    requires WellFormed(s) && k + 4 <= |s|
    ensures exists j :: k <= j < k + 4 && !Continues(s[j])
  {
    var n := Size(s);
    if k == 0 {
      assert !Continues(s[0]);
    } else if n <= k {
      NoLongTail(s[n..], k - n);
      var j :| k - n <= j < k - n + 4 && !Continues(s[n..][j]);
      assert !Continues(s[n + j]);
    } else {
      assert s[n..] != [];
      assert !Continues(s[n..][0]);
      assert !Continues(s[n]);
    }
  }

  // ---------------------------------------------------------------- methods

  method Put(dest: array<bv32>, at: nat, units: seq<bv32>) returns (end: nat)
    requires at + |units| <= dest.Length
    modifies dest
    ensures end == at + |units|
    ensures dest[..end] == old(dest[..at]) + units
    ensures dest[end..] == old(dest[end..])
  {
    end := at;
    for k := 0 to |units|
      invariant end == at + k
      invariant dest[..end] == old(dest[..at]) + units[..k]
      invariant dest[end..] == old(dest[end..])
    {
      dest[end] := units[k];
      end := end + 1;
    }
  }

  /** The first i bytes of the data have been converted to the front of the destination. */
  ghost predicate Converted(e: Encoding, data: seq<Byte>, i: nat, dest: array<bv32>, end: nat)
    reads dest
  {
    && end <= i <= |data| <= dest.Length
    && dest[..end] + Convert(e, data[i..]) == Convert(e, data)
  }

  lemma EmitSize(e: Encoding, s: seq<Byte>)
    requires s != [] && e != Utf8 && Size(s) > 0
    ensures |Emit(e, s)| <= Size(s)
  {
  }

  method PutSequence(e: Encoding, data: seq<Byte>, i: nat, n: nat, dest: array<bv32>, at: nat, units: seq<bv32>)
    returns (end: nat, next: nat)
    requires e != Utf8 && i < |data| && Converted(e, data, i, dest, at)
    requires n == Size(data[i..]) > 0 && units == Emit(e, data[i..])
    modifies dest
    ensures next == i + n && Converted(e, data, next, dest, end)
  {
    next := i + n;
    EmitSize(e, data[i..]);
    ghost var done := dest[..at];
    assert data[i..][n..] == data[next..];
    assert done + (units + Convert(e, data[next..])) == done + units + Convert(e, data[next..]);
    end := Put(dest, at, units);
  }

  lemma AsciiIsLow(e: Encoding, data: seq<Byte>, i: nat)
    requires i < |data| && data[i] < 0x80
    ensures Size(data[i..]) == 1 && Emit(e, data[i..]) == Low(e, data[i] as bv32)
  {
  }

  method PutAscii(e: Encoding, data: seq<Byte>, i: nat, dest: array<bv32>, at: nat) returns (end: nat, next: nat)
    requires e != Utf8 && i < |data| && Converted(e, data, i, dest, at) && data[i] < 0x80
    modifies dest
    ensures next == i + 1 && Converted(e, data, next, dest, end)
  {
    AsciiIsLow(e, data, i);
    end, next := PutSequence(e, data, i, 1, dest, at, Low(e, data[i] as bv32));
  }

  method PutLonger(e: Encoding, data: seq<Byte>, i: nat, n: nat, dest: array<bv32>, at: nat)
    returns (end: nat, next: nat)
    requires e != Utf8 && i < |data| && Converted(e, data, i, dest, at) && n == Size(data[i..]) > 1
    modifies dest
    ensures next == i + n && Converted(e, data, next, dest, end)
  {
    var ch :=
      if n == 2 then Two(data[i], data[i + 1])
      else if n == 3 then Three(data[i], data[i + 1], data[i + 2])
      else Four(data[i], data[i + 1], data[i + 2], data[i + 3]);
    end, next := PutSequence(e, data, i, n, dest, at, if n == 4 then High(e, ch) else Low(e, ch));
  }

  lemma ConvertedSkip(e: Encoding, data: seq<Byte>, i: nat, dest: array<bv32>, end: nat)
    requires i < |data| && Converted(e, data, i, dest, end) && Size(data[i..]) == 0
    ensures Converted(e, data, i + 1, dest, end)
  {
    assert data[i..][1..] == data[i + 1..];
  }

  lemma AsciiBlock(a: Byte, b: Byte, c: Byte, d: Byte)
    ensures (a | b | c | d) & 0x80 == 0 <==> a < 0x80 && b < 0x80 && c < 0x80 && d < 0x80
  {
  }

  lemma SizeAt(data: seq<Byte>, i: nat)
    requires i < |data|
    ensures var n, m, lead := Size(data[i..]), |data| - i, data[i];
            && (lead < 0x80 <==> n == 1)
            && (0xC0 <= lead < 0xE0 && m >= 2 && Continues(data[i + 1]) <==> n == 2)
            && (0xE0 <= lead < 0xF0 && m >= 3 && Continues(data[i + 1]) && Continues(data[i + 2]) <==> n == 3)
            && ((0xF0 <= lead < 0xF8 && m >= 4 && Continues(data[i + 1]) && Continues(data[i + 2])
                 && Continues(data[i + 3])) <==> n == 4)
  {
    var s := data[i..];
    assert s[0] == data[i];
    assert |s| >= 2 ==> s[1] == data[i + 1];
    assert |s| >= 3 ==> s[2] == data[i + 2];
    assert |s| >= 4 ==> s[3] == data[i + 3];
  }

  /** A sequence of several bytes, or one byte dropped. */
  method PutRest(e: Encoding, data: seq<Byte>, from: nat, dest: array<bv32>, at: nat) returns (end: nat, i: nat)
    requires e != Utf8 && from < |data| && Converted(e, data, from, dest, at) && data[from] >= 0x80
    modifies dest
    ensures from < i && Converted(e, data, i, dest, end)
  {
    end, i := at, from;
    var lead := data[i];
    SizeAt(data, i);
    if 0xC0 <= lead < 0xE0 && |data| - i >= 2 && Continues(data[i + 1]) {
      end, i := PutLonger(e, data, i, 2, dest, end);
    } else if 0xE0 <= lead < 0xF0 && |data| - i >= 3 && Continues(data[i + 1]) && Continues(data[i + 2]) {
      end, i := PutLonger(e, data, i, 3, dest, end);
    } else if 0xF0 <= lead < 0xF8 && |data| - i >= 4 && Continues(data[i + 1]) && Continues(data[i + 2])
              && Continues(data[i + 3]) {
      end, i := PutLonger(e, data, i, 4, dest, end);
    } else {
      ConvertedSkip(e, data, i, dest, end);
      i := i + 1;
    }
  }

  /** The fast path: four bytes at a time while none has its high bit set. */
  method AsciiBlocks(data: seq<Byte>, from: nat, dest: array<bv32>, at: nat, e: Encoding)
    returns (end: nat, i: nat)
    requires e != Utf8 && Converted(e, data, from, dest, at)
    modifies dest
    ensures from <= i && Converted(e, data, i, dest, end)
  {
    end, i := at, from;
    while |data| - i >= 4 && (data[i] | data[i + 1] | data[i + 2] | data[i + 3]) & 0x80 == 0
      invariant from <= i && Converted(e, data, i, dest, end)
      decreases |data| - i
    {
      AsciiBlock(data[i], data[i + 1], data[i + 2], data[i + 3]);
      end, i := PutAscii(e, data, i, dest, end);
      end, i := PutAscii(e, data, i, dest, end);
      end, i := PutAscii(e, data, i, dest, end);
      end, i := PutAscii(e, data, i, dest, end);
    }
  }

  /** utf8_decoder::process with a writer as traits: a loop with a fast path over aligned blocks of
      ASCII. `address` is where the data starts in memory. */
  method Process(data: seq<Byte>, address: nat, dest: array<bv32>, e: Encoding) returns (end: nat)
    requires e != Utf8 && |data| <= dest.Length
    modifies dest
    ensures end <= |data|
    ensures dest[..end] == Convert(e, data)
  {
    end := 0;
    var i := 0;
    assert data[0..] == data && dest[..0] + Convert(e, data) == Convert(e, data);
    while i < |data|
      invariant Converted(e, data, i, dest, end)
    {
      var lead := data[i];
      if lead < 0x80 {
        end, i := PutAscii(e, data, i, dest, end);
        if (address + i) % 4 == 0 {
          end, i := AsciiBlocks(data, i, dest, end, e);
        }
      } else {
        end, i := PutRest(e, data, i, dest, end);
      }
    }
    assert data[i..] == [];
  }

  /** The loop of convert_buffer_output_generic that swaps the bytes of every unit. */
  method SwapInPlace(dest: array<bv32>, end: nat, e: Encoding, swap: bool)
    requires end <= dest.Length
    modifies dest
    ensures dest[..end] == SwapAll(e, swap, old(dest[..end]))
  {
    for i := 0 to end
      invariant forall k :: 0 <= k < i ==> dest[k] == SwapUnit(e, swap, old(dest[k]))
      invariant forall k :: i <= k < end ==> dest[k] == old(dest[k])
    {
      dest[i] := SwapUnit(e, swap, dest[i]);
    }
  }

  /** convert_buffer_output_generic */
  method ConvertBuffer(data: seq<Byte>, address: nat, dest: array<bv32>, e: Encoding, swap: bool) returns (end: nat)
    requires e != Utf8 && |data| <= dest.Length
    modifies dest
    ensures end <= |data| && dest[..end] == Encoded(e, swap, data)
  {
    end := Process(data, address, dest, e);
    if swap {
      SwapInPlace(dest, end, e, swap);
    }
  }

  // ---------------------------------------------------------------- transcoding there and back

  function Wide(b: Byte): bv32 { b as bv32 }

  function Widen(s: seq<Byte>): (u: seq<bv32>)
    ensures |u| == |s|
    ensures forall k :: 0 <= k < |s| ==> u[k] == Wide(s[k])
  {
    seq(|s|, k requires 0 <= k < |s| => Wide(s[k]))
  }

  /** utf16_decoder on the units as numbers */
  function ReadUtf16(e: Encoding, u: seq<bv32>): seq<bv32> {
    if u == [] then []
    else if u[0] < 0xD800 || 0xE000 <= u[0] < 0x10000 then Low(e, u[0]) + ReadUtf16(e, u[1..])
    else if 0xD800 <= u[0] < 0xDC00 && |u| >= 2 && 0xDC00 <= u[1] < 0xE000 then
      High(e, 0x10000 + ((u[0] & 0x3ff) << 10) + (u[1] & 0x3ff)) + ReadUtf16(e, u[2..])
    else ReadUtf16(e, u[1..])
  }

  /** utf32_decoder on the units as numbers */
  function ReadUtf32(e: Encoding, u: seq<bv32>): seq<bv32> {
    if u == [] then []
    else (if u[0] < 0x10000 then Low(e, u[0]) else High(e, u[0])) + ReadUtf32(e, u[1..])
  }

  /** utf16_decoder, for units in the byte order of the machine or swapped. */
  function FromUtf16(e: Encoding, swap: bool, u: seq<bv32>): seq<bv32> {
    ReadUtf16(e, SwapAll(Utf16, swap, u))
  }

  /** utf32_decoder */
  function FromUtf32(e: Encoding, swap: bool, u: seq<bv32>): seq<bv32> {
    ReadUtf32(e, SwapAll(Utf32, swap, u))
  }

  lemma SwapTwice(e: Encoding, swap: bool, u: seq<bv32>)
    requires e == Utf16 ==> forall k :: 0 <= k < |u| ==> u[k] < 0x10000
    ensures SwapAll(e, swap, SwapAll(e, swap, u)) == u
  {
    forall k | 0 <= k < |u| ensures SwapUnit(e, swap, SwapUnit(e, swap, u[k])) == u[k] {
      SwapBack(u[k]);
    }
  }

  /** Units of UTF-16 have 16 bits. */
  lemma {:induction false} Units16(s: seq<Byte>)
    ensures forall k :: 0 <= k < |Convert(Utf16, s)| ==> Convert(Utf16, s)[k] < 0x10000
  {
    if s != [] {
      Units16(s[Taken(s)..]);
      EmitUnits16(s);
    }
  }

  lemma EmitUnits16(s: seq<Byte>)
    requires s != []
    ensures forall k :: 0 <= k < |Emit(Utf16, s)| ==> Emit(Utf16, s)[k] < 0x10000
  {
    match Size(s)
    case 1 => LowUnit16(s[0] as bv32);
    case 2 => LowUnit16(Two(s[0], s[1]));
    case 3 => LowUnit16(Three(s[0], s[1], s[2]));
    case 4 => HighUnits16(Four(s[0], s[1], s[2], s[3]));
    case _ =>
  }

  lemma LowUnit16(ch: bv32)
    ensures |Low(Utf16, ch)| == 1 && Low(Utf16, ch)[0] < 0x10000
  {
  }

  lemma HighUnits16(ch: bv32)
    ensures |High(Utf16, ch)| == 2 && High(Utf16, ch)[0] < 0x10000 && High(Utf16, ch)[1] < 0x10000
  {
  }

  /** UTF-8 as section 3 of RFC 3629 has it: shortest forms, no surrogates, nothing past U+10FFFF. */
  predicate Proper(s: seq<Byte>) {
    s == [] || (ProperFront(s) && Proper(s[Size(s)..]))
  }

  predicate ProperFront(s: seq<Byte>)
    requires s != []
  {
    match Size(s)
    case 1 => true
    case 2 => 0x80 <= Two(s[0], s[1])
    case 3 => var ch := Three(s[0], s[1], s[2]); 0x800 <= ch && !(0xD800 <= ch < 0xE000)
    case 4 => 0x10000 <= Four(s[0], s[1], s[2], s[3]) <= 0x10FFFF
    case _ => false
  }

  lemma TwoBack(a: Byte, b: Byte)
    requires 0xC0 <= a < 0xE0 && Continues(b) && 0x80 <= Two(a, b)
    ensures Two(a, b) < 0x800 && Low(Utf8, Two(a, b)) == [Wide(a), Wide(b)]
  {
  }

  lemma ThreeBack(a: Byte, b: Byte, c: Byte)
    requires 0xE0 <= a < 0xF0 && Continues(b) && Continues(c) && 0x800 <= Three(a, b, c)
    ensures Three(a, b, c) < 0x10000 && Low(Utf8, Three(a, b, c)) == [Wide(a), Wide(b), Wide(c)]
  {
  }

  lemma FourBack(a: Byte, b: Byte, c: Byte, d: Byte)
    requires 0xF0 <= a < 0xF8 && Continues(b) && Continues(c) && Continues(d)
    ensures High(Utf8, Four(a, b, c, d)) == [Wide(a), Wide(b), Wide(c), Wide(d)]
  {
  }

  predicate IsPair(p: seq<bv32>, ch: bv32) {
    && |p| == 2 && 0xD800 <= p[0] < 0xDC00 && 0xDC00 <= p[1] < 0xE000
    && 0x10000 + ((p[0] & 0x3ff) << 10) + (p[1] & 0x3ff) == ch
  }

  /** Surrogate pairs invert: section 2 of RFC 2781. */
  lemma PairBack(ch: bv32)
    requires 0x10000 <= ch <= 0x10FFFF
    ensures IsPair(High(Utf16, ch), ch)
  {
    var d := ch - 0x10000;
    Halves(d);
    Surrogate(d >> 10);
    Surrogate(d & 0x3ff);
  }

  lemma Halves(d: bv32)
    requires d < 0x100000
    ensures d >> 10 < 0x400 && ((d >> 10) << 10) + (d & 0x3ff) == d
  {
  }

  lemma Surrogate(h: bv32)
    requires h < 0x400
    ensures 0xD800 <= (0xD800 + h) & 0xffff < 0xDC00 && ((0xD800 + h) & 0xffff) & 0x3ff == h
    ensures 0xDC00 <= (0xDC00 + h) & 0xffff < 0xE000 && ((0xDC00 + h) & 0xffff) & 0x3ff == h
  {
  }

  lemma {:induction false} ProperIsWellFormed(s: seq<Byte>)
    requires Proper(s)
    ensures WellFormed(s)
  {
    if s != [] {
      ProperIsWellFormed(s[Size(s)..]);
    }
  }

  lemma {:induction false} ProperJoin(a: seq<Byte>, b: seq<Byte>)
    requires Proper(a) && Proper(b)
    ensures Proper(a + b)
  {
    if a == [] {
      assert a + b == b;
    } else {
      var n := Size(a);
      SizeOfFront(a, b);
      assert (a + b)[n..] == a[n..] + b;
      assert (a + b)[..n] == a[..n];
      ProperJoin(a[n..], b);
    }
  }

  /** A proper sequence written as UTF-8 again is itself. */
  lemma FrontBack(s: seq<Byte>)
    requires s != [] && ProperFront(s)
    ensures Emit(Utf8, s) == Widen(s[..Size(s)])
  {
    var n := Size(s);
    if n == 1 {
      assert Wide(s[0]) & 0xff == Wide(s[0]);
      assert s[..1] == [s[0]];
    } else if n == 2 {
      TwoBack(s[0], s[1]);
      assert s[..2] == [s[0], s[1]];
    } else if n == 3 {
      ThreeBack(s[0], s[1], s[2]);
      assert s[..3] == [s[0], s[1], s[2]];
    } else {
      FourBack(s[0], s[1], s[2], s[3]);
      assert s[..4] == [s[0], s[1], s[2], s[3]];
    }
  }

  lemma LowStep(e: Encoding, ch: bv32, rest: seq<bv32>)
    requires ch < 0xD800 || 0xE000 <= ch < 0x10000
    ensures ReadUtf16(e, Low(Utf16, ch) + rest) == Low(e, ch) + ReadUtf16(e, rest)
    ensures ReadUtf32(e, Low(Utf32, ch) + rest) == Low(e, ch) + ReadUtf32(e, rest)
  {
    assert ch & 0xffff == ch;
    assert (Low(Utf16, ch) + rest)[1..] == rest == (Low(Utf32, ch) + rest)[1..];
  }

  lemma PairStep(e: Encoding, p: seq<bv32>, ch: bv32, rest: seq<bv32>)
    requires IsPair(p, ch)
    ensures ReadUtf16(e, p + rest) == High(e, ch) + ReadUtf16(e, rest)
  {
    assert (p + rest)[2..] == rest;
  }

  lemma HighStep(e: Encoding, ch: bv32, rest: seq<bv32>)
    requires 0x10000 <= ch <= 0x10FFFF
    ensures ReadUtf16(e, High(Utf16, ch) + rest) == High(e, ch) + ReadUtf16(e, rest)
  {
    PairBack(ch);
    PairStep(e, High(Utf16, ch), ch, rest);
  }

  lemma HighStep32(e: Encoding, ch: bv32, rest: seq<bv32>)
    requires 0x10000 <= ch
    ensures ReadUtf32(e, High(Utf32, ch) + rest) == High(e, ch) + ReadUtf32(e, rest)
  {
    assert ([ch] + rest)[1..] == rest;
  }

  /** The code point of a proper sequence is what its writers are given. */
  lemma FrontStep(e: Encoding, s: seq<Byte>, rest16: seq<bv32>, rest32: seq<bv32>)
    requires s != [] && ProperFront(s)
    ensures ReadUtf16(e, Emit(Utf16, s) + rest16) == Emit(e, s) + ReadUtf16(e, rest16)
    ensures ReadUtf32(e, Emit(Utf32, s) + rest32) == Emit(e, s) + ReadUtf32(e, rest32)
  {
    if Size(s) == 4 {
      HighStep(e, Four(s[0], s[1], s[2], s[3]), rest16);
      HighStep32(e, Four(s[0], s[1], s[2], s[3]), rest32);
    } else {
      var ch := if Size(s) == 1 then s[0] as bv32 else if Size(s) == 2 then Two(s[0], s[1]) else Three(s[0], s[1], s[2]);
      assert ch < 0x10000;
      LowStep(e, ch, rest16);
      LowStep(e, ch, rest32);
    }
  }

  lemma {:induction false} Retranscoding(e: Encoding, s: seq<Byte>)
    requires Proper(s)
    ensures ReadUtf16(e, Convert(Utf16, s)) == Convert(e, s)
    ensures ReadUtf32(e, Convert(Utf32, s)) == Convert(e, s)
  {
    if s != [] {
      var rest := s[Size(s)..];
      Retranscoding(e, rest);
      FrontStep(e, s, Convert(Utf16, rest), Convert(Utf32, rest));
    }
  }

  /** Through UTF-16 or UTF-32 of either byte order and on to any encoding is the same as going there directly. */
  lemma Transcoding(e: Encoding, swap: bool, s: seq<Byte>)
    requires Proper(s)
    ensures FromUtf16(e, swap, Encoded(Utf16, swap, s)) == Convert(e, s)
    ensures FromUtf32(e, swap, Encoded(Utf32, swap, s)) == Convert(e, s)
  {
    Retranscoding(e, s);
    Units16(s);
    SwapTwice(Utf16, swap, Convert(Utf16, s));
    SwapTwice(Utf32, swap, Convert(Utf32, s));
  }

  /** Latin-1 has the code points up to 255 as they are, and a question mark for every other one. */
  lemma {:induction false} Latin1Is(s: seq<Byte>)
    requires Proper(s)
    ensures |Convert(Latin1, s)| == |Convert(Utf32, s)|
    ensures forall k :: 0 <= k < |Convert(Utf32, s)| ==>
              Convert(Latin1, s)[k] == if Convert(Utf32, s)[k] < 256 then Convert(Utf32, s)[k] else '?' as bv32
  {
    if s != [] {
      Latin1Is(s[Size(s)..]);
      FrontIsLatin1(s);
    }
  }

  lemma FrontIsLatin1(s: seq<Byte>)
    requires s != [] && ProperFront(s)
    ensures |Emit(Latin1, s)| == |Emit(Utf32, s)| == 1
    ensures Emit(Latin1, s)[0] == if Emit(Utf32, s)[0] < 256 then Emit(Utf32, s)[0] else '?' as bv32
  {
  }

  /** And back to UTF-8 is the identity. */
  lemma {:induction false} BackToUtf8(s: seq<Byte>)
    requires Proper(s)
    ensures Convert(Utf8, s) == Widen(s)
  {
    if s != [] {
      var rest := s[Size(s)..];
      BackToUtf8(rest);
      FrontBack(s);
      WidenJoin(s[..Size(s)], rest);
      assert s == s[..Size(s)] + rest;
    }
  }

  lemma WidenJoin(a: seq<Byte>, b: seq<Byte>)
    ensures Widen(a + b) == Widen(a) + Widen(b)
  {
  }
}
