// xml_buffered_writer: a buffer of 2048 characters in front of an output that may need conversion.
module BufferedWriter {
  import opened Writer

  ghost predicate Good(e: Encoding, s: seq<Byte>) { e == Utf8 || WellFormed(s) }

  /** What the output receives for a text: the text itself in the native encoding. */
  function Delivered(e: Encoding, swap: bool, s: seq<Byte>): seq<bv32> {
    if e == Utf8 then Widen(s) else Encoded(e, swap, s)
  }

  lemma GoodJoin(e: Encoding, a: seq<Byte>, b: seq<Byte>)
    requires Good(e, a) && Good(e, b)
    ensures Good(e, a + b)
  {
    if e != Utf8 { WellFormedJoin(a, b); }
  }

  function Joined(pieces: seq<seq<Byte>>): seq<Byte> {
    if pieces == [] then [] else Joined(pieces[..|pieces| - 1]) + pieces[|pieces| - 1]
  }

  /** What the output receives for several pieces. */
  function DeliveredAll(e: Encoding, swap: bool, pieces: seq<seq<Byte>>): seq<bv32> {
    if pieces == [] then [] else DeliveredAll(e, swap, pieces[..|pieces| - 1]) + Delivered(e, swap, pieces[|pieces| - 1])
  }

  /** No piece ends inside a sequence of the text they make up. */
  predicate CutWhole(pieces: seq<seq<Byte>>) {
    pieces == [] || (CutWhole(pieces[..|pieces| - 1]) && CutAt(Joined(pieces), |Joined(pieces[..|pieces| - 1])|))
  }

  predicate CutAt(s: seq<Byte>, k: nat) { k <= |s| && Boundary(s, k) }

  /** Pieces convert to the conversion of their text exactly if no sequence is cut in two; otherwise
      something is missing. */
  lemma {:induction false} PiecesAreExact(e: Encoding, swap: bool, pieces: seq<seq<Byte>>)
    requires e != Utf8
    ensures CutWhole(pieces) ==> DeliveredAll(e, swap, pieces) == Encoded(e, swap, Joined(pieces))
    ensures !CutWhole(pieces) ==> |DeliveredAll(e, swap, pieces)| < |Encoded(e, swap, Joined(pieces))|
  {
    if pieces != [] {
      var front, last := pieces[..|pieces| - 1], pieces[|pieces| - 1];
      var s, k := Joined(pieces), |Joined(front)|;
      assert s[..k] == Joined(front) && s[k..] == last;
      PiecesAreExact(e, swap, front);
      CutIsExact(e, s, k);
      SwapJoin(e, swap, Convert(e, s[..k]), Convert(e, s[k..]));
    }
  }

  /** In a well-formed text, that is if each piece is well-formed. */
  lemma {:induction false} WholePieces(pieces: seq<seq<Byte>>)
    ensures (forall k :: 0 <= k < |pieces| ==> WellFormed(pieces[k])) <==> WellFormed(Joined(pieces)) && CutWhole(pieces)
  {
    if pieces != [] {
      var front, last := pieces[..|pieces| - 1], pieces[|pieces| - 1];
      var s, k := Joined(pieces), |Joined(front)|;
      assert s[..k] == Joined(front) && s[k..] == last;
      WholePieces(front);
      LastPiece(front, last, s, k);
      assert forall m :: 0 <= m < |front| ==> front[m] == pieces[m];
    }
  }

  lemma LastPiece(front: seq<seq<Byte>>, last: seq<Byte>, s: seq<Byte>, k: nat)
    requires s == Joined(front) + last && k == |Joined(front)|
    ensures WellFormed(Joined(front)) && WellFormed(last) <==> WellFormed(s) && CutAt(s, k)
  {
    assert s[..k] == Joined(front);
    if WellFormed(Joined(front)) { WellFormedJoin(Joined(front), last); }
    if WellFormed(s) { BoundaryIsWhole(s, k); }
  }

  /** What was delivered is the conversion of the pieces. */
  ghost predicate Faithful(e: Encoding, swap: bool, clean: bool, pieces: seq<seq<Byte>>, flushed: seq<Byte>, output: seq<bv32>) {
    && flushed == Joined(pieces) && output == DeliveredAll(e, swap, pieces)
    && (clean ==> forall k :: 0 <= k < |pieces| ==> Good(e, pieces[k]))
    && (e != Utf8 ==> forall k :: 0 <= k < |pieces| ==> |pieces[k]| <= CAPACITY)
  }

  lemma FaithfulStep(e: Encoding, swap: bool, clean: bool, pieces: seq<seq<Byte>>, flushed: seq<Byte>, output: seq<bv32>,
                     data: seq<Byte>)
    requires Faithful(e, swap, clean, pieces, flushed, output)
    requires (clean ==> Good(e, data)) && (e != Utf8 ==> |data| <= CAPACITY)
    ensures Faithful(e, swap, clean, pieces + [data], flushed + data, output + Delivered(e, swap, data))
  {
    var more := pieces + [data];
    assert more[..|more| - 1] == pieces;
  }

  lemma {:induction false} NativePieces(swap: bool, pieces: seq<seq<Byte>>)
    ensures DeliveredAll(Utf8, swap, pieces) == Widen(Joined(pieces))
  {
    if pieces != [] {
      NativePieces(swap, pieces[..|pieces| - 1]);
      WidenJoin(Joined(pieces[..|pieces| - 1]), pieces[|pieces| - 1]);
    }
  }

  /** A piece, unless there is nothing to deliver. */
  function Piece(data: seq<Byte>): seq<seq<Byte>> {
    if data == [] then [] else [data]
  }

  /** get_valid_length: how much of the data to deliver so that its last sequence is whole. */
  method ValidLength(data: seq<Byte>, length: nat) returns (r: nat)
    requires length <= |data|
    ensures r <= length && (length < 5 ==> r == 0) && (length >= 5 ==> length - 4 <= r)
    ensures forall k :: r < k < length && length >= 5 ==> Continues(data[k])
    ensures r < length && length >= 5 ==> !Continues(data[r])
    ensures r == length && length >= 5 ==> forall k :: length - 4 <= k < length ==> Continues(data[k])
  {
    if length < 5 {
      return 0;
    }
    for i := 1 to 5
      invariant forall k :: length - i < k < length ==> Continues(data[k])
    {
      var ch := data[length - i];
      if !Continues(ch) {
        return length - i;
      }
    }
    return length;
  }

  lemma Rejoined(s: seq<Byte>, data: seq<Byte>, r: nat)
    requires r <= |data|
    ensures s + data[..r] + data[r..] == s + data
  {
    assert data == data[..r] + data[r..];
  }

  /** What ValidLength picks is whole, and so is what follows it. */
  lemma WholeChunk(data: seq<Byte>, length: nat, r: nat)
    requires WellFormed(data) && r <= length <= |data| && (length < 5 ==> r == 0)
    requires length >= 5 && r < length ==> !Continues(data[r])
    requires length >= 5 && r == length ==> forall k :: length - 4 <= k < length ==> Continues(data[k])
    ensures WellFormed(data[..r]) && WellFormed(data[r..])
  {
    if length >= 5 && r == length {
      NoLongTail(data, length - 4);
    }
    assert data == data[..r] + data[r..];
    if length < 5 {
      assert data[r..] == data;
    } else {
      CutBeforeLead(data[..r], data[r..]);
    }
  }

  class BufferedWriter {
    const encoding: Encoding
    /** The encoding has the other byte order than the machine. */
    const swap: bool
    const buffer: array<Byte>
    const scratch: array<bv32>
    var bufsize: nat
    /** What the output has received. */
    var output: seq<bv32>
    /** The text behind the output, in the pieces it was delivered in. */
    ghost var pieces: seq<seq<Byte>>
    ghost var flushed: seq<Byte>
    /** Every text written so far was well-formed. */
    ghost var clean: bool

    ghost predicate Consistent()
      reads this
    {
      && buffer.Length == CAPACITY && scratch.Length == CAPACITY && bufsize <= CAPACITY
      && Faithful(encoding, swap, clean, pieces, flushed, output)
    }

    ghost predicate Valid()
      reads this, buffer
    {
      Consistent() && (clean ==> Good(encoding, buffer[..bufsize]))
    }

    /** Everything written so far. */
    ghost function Written(): seq<Byte>
      requires Valid()
      reads this, buffer
    {
      flushed + buffer[..bufsize]
    }

    constructor (e: Encoding, swap: bool)
      ensures Valid() && fresh(buffer) && fresh(scratch) && encoding == e && this.swap == swap && Written() == [] && clean && output == []
      ensures bufsize == 0 && flushed == [] && pieces == []
    {
      encoding, this.swap := e, swap;
      buffer := new Byte[CAPACITY];
      scratch := new bv32[CAPACITY];
      bufsize, output, pieces, flushed, clean := 0, [], [], [], true;
    }

    /** convert_buffer_output into the scratch union of 4 * CAPACITY bytes, which always suffices. */
    method ConvertPiece(data: seq<Byte>) returns (units: seq<bv32>)
      requires encoding != Utf8 && |data| <= CAPACITY == scratch.Length
      modifies scratch
      ensures units == Encoded(encoding, swap, data) && |units| * UnitSize(encoding) <= 4 * CAPACITY
    {
      var address: nat := *;
      var end := ConvertBuffer(data, address, scratch, encoding, swap);
      units := scratch[..end];
    }

    /** What the output receives for a piece. */
    method UnitsOf(data: seq<Byte>) returns (units: seq<bv32>)
      requires encoding != Utf8 ==> |data| <= CAPACITY == scratch.Length
      modifies scratch
      ensures units == Delivered(encoding, swap, data)
    {
      if encoding == Utf8 {
        units := Widen(data);
      } else {
        units := ConvertPiece(data);
      }
    }

    /** flush(data, size): one piece to the output. */
    method Deliver(data: seq<Byte>)
      requires Consistent() && (clean ==> Good(encoding, data))
      requires encoding != Utf8 ==> |data| <= CAPACITY
      modifies `output, `pieces, `flushed, scratch
      ensures Consistent() && flushed == old(flushed) + data && pieces == old(pieces) + Piece(data)
    {
      if |data| == 0 {
        return;
      }
      var units := UnitsOf(data);
      FaithfulStep(encoding, swap, clean, pieces, flushed, output, data);
      output, flushed, pieces := output + units, flushed + data, pieces + [data];
    }

    method Flush()
      requires Valid()
      modifies this, scratch
      ensures Valid() && bufsize == 0 && Written() == old(Written()) && clean == old(clean)
      ensures flushed == old(Written()) && pieces == old(pieces) + Piece(old(buffer[..bufsize]))
    {
      Deliver(buffer[..bufsize]);
      bufsize := 0;
    }

    /** write_direct: flush, deliver what is too large in pieces, and keep the rest. */
    method WriteDirect(data: seq<Byte>)
      requires Valid() && (clean ==> Good(encoding, data))
      modifies this, buffer, scratch
      ensures Valid() && Written() == old(Written()) + data && clean == old(clean)
      ensures |data| <= CAPACITY ==>
                flushed == old(Written()) && buffer[..bufsize] == data && pieces == old(pieces) + Piece(old(buffer[..bufsize]))
    {
      Flush();
      var rest := data;
      if |rest| > CAPACITY {
        rest := DeliverLarge(data);
      }
      Store(rest);
      assert buffer[..bufsize] == [] + rest == rest;
    }

    /** What is too large for the buffer: at once in the native encoding, and otherwise in pieces. */
    method DeliverLarge(data: seq<Byte>) returns (rest: seq<Byte>)
      requires Consistent() && (clean ==> Good(encoding, data))
      modifies `output, `pieces, `flushed, scratch
      ensures Consistent() && |rest| <= CAPACITY && (clean ==> Good(encoding, rest))
      ensures flushed + rest == old(flushed) + data
    {
      if encoding == Utf8 {
        Deliver(data);
        rest := [];
      } else {
        rest := DeliverChunks(data);
      }
    }

    /** The loop of write_direct: pieces of at most the capacity, each ending where a sequence ends. */
    method DeliverChunks(data: seq<Byte>) returns (rest: seq<Byte>)
      requires Consistent() && encoding != Utf8 && (clean ==> Good(encoding, data))
      modifies `output, `pieces, `flushed, scratch
      ensures Consistent() && |rest| <= CAPACITY && (clean ==> Good(encoding, rest))
      ensures flushed + rest == old(flushed) + data
    {
      rest := data;
      while |rest| > CAPACITY
        invariant Consistent() && (clean ==> Good(encoding, rest))
        invariant flushed + rest == old(flushed) + data
        decreases |rest|
      {
        var chunk := ValidLength(rest, CAPACITY);
        if clean {
          WholeChunk(rest, CAPACITY, chunk);
        }
        Rejoined(flushed, rest, chunk);
        Deliver(rest[..chunk]);
        rest := rest[chunk..];
      }
    }

    /** memcpy behind the buffered text. */
    method Store(data: seq<Byte>)
      requires Consistent() && bufsize + |data| <= CAPACITY
      requires clean ==> Good(encoding, buffer[..bufsize]) && Good(encoding, data)
      modifies `bufsize, buffer
      ensures Valid() && Written() == old(Written()) + data && buffer[..bufsize] == old(buffer[..bufsize]) + data
    {
      for k := 0 to |data|
        invariant bufsize == old(bufsize)
        invariant buffer[..bufsize] == old(buffer[..bufsize])
        invariant buffer[bufsize..bufsize + k] == data[..k]
      {
        buffer[bufsize + k] := data[k];
      }
      ghost var kept := buffer[..bufsize];
      if clean {
        GoodJoin(encoding, kept, data);
      }
      bufsize := bufsize + |data|;
      assert buffer[..bufsize] == kept + data;
      assert flushed + (kept + data) == flushed + kept + data;
    }

    method WriteBuffer(data: seq<Byte>)
      requires Valid()
      modifies this, buffer, scratch
      ensures Valid() && Written() == old(Written()) + data && clean == (old(clean) && Good(encoding, data))
      ensures old(bufsize) + |data| <= CAPACITY ==>
                flushed == old(flushed) && pieces == old(pieces) && buffer[..bufsize] == old(buffer[..bufsize]) + data
      ensures old(bufsize) + |data| > CAPACITY >= |data| ==>
                flushed == old(Written()) && buffer[..bufsize] == data && pieces == old(pieces) + Piece(old(buffer[..bufsize]))
    {
      clean := clean && Good(encoding, data);
      if bufsize + |data| <= CAPACITY {
        Store(data);
      } else {
        WriteDirect(data);
      }
    }

    /** Copies what fits of a text behind the buffered text, without moving its end. */
    method Fill(data: seq<Byte>) returns (offset: nat, i: nat)
      requires Valid()
      modifies buffer
      ensures Valid() && i <= |data| && offset == bufsize + i <= CAPACITY && (offset < CAPACITY ==> i == |data|)
      ensures buffer[..bufsize] == old(buffer[..bufsize])
      ensures forall k :: 0 <= k < i ==> buffer[bufsize + k] == data[k]
    {
      offset, i := bufsize, 0;
      while i < |data| && offset < CAPACITY
        invariant i <= |data| && offset == bufsize + i <= CAPACITY
        invariant buffer[..bufsize] == old(buffer[..bufsize])
        invariant forall k :: 0 <= k < i ==> buffer[bufsize + k] == data[k]
      {
        buffer[offset] := data[i];
        offset, i := offset + 1, i + 1;
      }
    }

    /** write_string on the text before its NUL: fills the buffer, and when that may have split a
        sequence goes back to where the last one began. */
    method WriteString(data: seq<Byte>)
      requires Valid()
      modifies this, buffer, scratch
      ensures Valid() && Written() == old(Written()) + data && clean == (old(clean) && Good(encoding, data))
    {
      clean := clean && Good(encoding, data);
      var offset, i := Fill(data);
      ghost var kept := buffer[..bufsize];
      if offset < CAPACITY {
        Keep(offset, kept, data);
      } else {
        BackUp(data, offset, i, kept);
      }
    }

    /** The buffer is full: it keeps the front of the text up to a place where a sequence begins. */
    method BackUp(data: seq<Byte>, offset: nat, i: nat, ghost kept: seq<Byte>)
      requires Valid() && i <= |data| && offset == bufsize + i <= CAPACITY && kept == buffer[..bufsize]
      requires forall k :: 0 <= k < i ==> buffer[bufsize + k] == data[k]
      requires clean ==> Good(encoding, data)
      modifies this, buffer, scratch
      ensures Valid() && Written() == old(Written()) + data && clean == old(clean)
    {
      var length := offset - bufsize;
      var r := ValidLength(data, length);
      var extra := length - r;
      if clean && encoding != Utf8 {
        WholeChunk(data, length, r);
      }
      Keep(offset - extra, kept, data[..r]);
      Rejoined(old(Written()), data, r);
      var rest := data[i - extra..];
      assert rest == data[r..];
      WriteDirect(rest);
    }

    /** Moves the end of the buffered text forward over bytes that are already in place. */
    method Keep(offset: nat, ghost kept: seq<Byte>, ghost more: seq<Byte>)
      requires Valid() && offset == bufsize + |more| <= CAPACITY && kept == buffer[..bufsize]
      requires forall k :: 0 <= k < |more| ==> buffer[bufsize + k] == more[k]
      requires clean ==> Good(encoding, more)
      modifies `bufsize
      ensures Valid() && bufsize == offset && Written() == old(Written()) + more
    {
      if clean {
        GoodJoin(encoding, kept, more);
      }
      assert buffer[..offset] == kept + more;
      bufsize := offset;
      assert flushed + (kept + more) == flushed + kept + more;
    }

    /** The write overloads for one to six characters. */
    method WriteChars(data: seq<Byte>)
      requires Valid() && 1 <= |data| <= 6
      modifies this, buffer, scratch
      ensures Valid() && Written() == old(Written()) + data && clean == (old(clean) && Good(encoding, data))
    {
      clean := clean && Good(encoding, data);
      if bufsize > CAPACITY - |data| {
        Flush();
      }
      Store(data);
    }
  }

  /** After a flush, the output is the conversion of everything written exactly if no sequence was cut
      in two between deliveries: for well-formed text, if every piece is well-formed. */
  lemma OutputIsExact(w: BufferedWriter)
    requires w.Valid() && w.bufsize == 0 && w.encoding != Utf8
    ensures w.output == Encoded(w.encoding, w.swap, w.Written()) <==> CutWhole(w.pieces)
    ensures WellFormed(w.Written()) ==>
              (w.output == Encoded(w.encoding, w.swap, w.Written()) <==> forall k :: 0 <= k < |w.pieces| ==> WellFormed(w.pieces[k]))
  {
    assert w.Written() == w.flushed;
    PiecesAreExact(w.encoding, w.swap, w.pieces);
    WholePieces(w.pieces);
  }

  /** If every write was whole, so is every piece, and the output is the conversion of everything written. */
  lemma WholeOutput(w: BufferedWriter)
    requires w.Valid() && w.clean && w.bufsize == 0
    ensures w.output == Delivered(w.encoding, w.swap, w.Written())
    ensures Joined(w.pieces) == w.Written() && forall k :: 0 <= k < |w.pieces| ==> Good(w.encoding, w.pieces[k])
  {
    assert w.Written() == w.flushed;
    if w.encoding == Utf8 {
      NativePieces(w.swap, w.pieces);
    } else {
      PiecesAreExact(w.encoding, w.swap, w.pieces);
      WholePieces(w.pieces);
    }
  }

  /** The write overloads, each with its text. */
  datatype Call = Buffer(text: seq<Byte>) | String(text: seq<Byte>) | Chars(text: seq<Byte>)

  function Text(calls: seq<Call>): seq<Byte> {
    if calls == [] then [] else Text(calls[..|calls| - 1]) + calls[|calls| - 1].text
  }

  /** Writes of UTF-8 text, the overloads for single characters with one to six of them. */
  predicate ProperCalls(calls: seq<Call>) {
    forall c <- calls :: Proper(c.text) && (c.Chars? ==> 1 <= |c.text| <= 6)
  }

  lemma {:induction false} ProperText(calls: seq<Call>)
    requires ProperCalls(calls)
    ensures Proper(Text(calls))
  {
    if calls != [] {
      ProperText(calls[..|calls| - 1]);
      ProperJoin(Text(calls[..|calls| - 1]), calls[|calls| - 1].text);
    }
  }

  /** Any run of writes of UTF-8 text and a flush: the output is the conversion of the whole text, and
      decoding it gives the text back. */
  method Run(e: Encoding, swap: bool, calls: seq<Call>) returns (w: BufferedWriter)
    requires ProperCalls(calls)
    ensures fresh(w) && w.Valid() && w.encoding == e && w.swap == swap && w.Written() == Text(calls)
    ensures w.output == Delivered(e, swap, Text(calls))
    ensures e == Utf16 ==> FromUtf16(Utf8, swap, w.output) == Widen(Text(calls))
    ensures e == Utf32 ==> FromUtf32(Utf8, swap, w.output) == Widen(Text(calls))
  {
    w := new BufferedWriter(e, swap);
    for k := 0 to |calls|
      invariant fresh(w) && fresh(w.buffer) && fresh(w.scratch)
      invariant w.Valid() && w.encoding == e && w.swap == swap && w.clean && w.Written() == Text(calls[..k])
    {
      var text := calls[k].text;
      ProperIsWellFormed(text);
      assert calls[..k + 1][..k] == calls[..k];
      match calls[k]
      case Buffer(_) => w.WriteBuffer(text);
      case String(_) => w.WriteString(text);
      case Chars(_) => w.WriteChars(text);
    }
    assert calls[..|calls|] == calls;
    w.Flush();
    WholeOutput(w);
    ProperText(calls);
    Transcoding(Utf8, swap, Text(calls));
    BackToUtf8(Text(calls));
  }

  function Letters(n: nat): (s: seq<Byte>)
    ensures |s| == n && forall k :: 0 <= k < n ==> s[k] == 0x61
  {
    seq(n, k => 0x61)
  }

  lemma {:induction false} LettersAreWhole(s: seq<Byte>)
    requires forall k :: 0 <= k < |s| ==> s[k] == 0x61
    ensures WellFormed(s)
  {
    if s != [] {
      assert Size(s) == 1;
      LettersAreWhole(s[1..]);
    }
  }

  /** Letters, and a sequence of two bytes that a full buffer cuts in two. */
  lemma SplitText(text: seq<Byte>)
    requires forall k :: 0 <= k < |text| ==> text[k] == 0x61
    ensures WellFormed(text + [0xC3] + [0xA9]) && !WellFormed(text + [0xC3])
  {
    LettersAreWhole(text);
    WellFormedJoin(text, [0xC3, 0xA9]);
    WellFormedJoin(text, [0xC3]);
    assert Size([0xC3, 0xA9]) == 2 && [0xC3, 0xA9][2..] == [];
    assert text + [0xC3] + [0xA9] == text + [0xC3, 0xA9];
  }

  /** The first of two bytes of one sequence fills the buffer, and the second is written by itself: both are lost. */
  method SplitSequence(swap: bool) returns (w: BufferedWriter)
    ensures fresh(w) && w.Valid() && w.bufsize == 0 && w.encoding == Utf32 && w.swap == swap
    ensures w.Written() == Letters(2047) + [0xC3] + [0xA9] && WellFormed(w.Written())
    ensures w.pieces == [Letters(2047) + [0xC3], [0xA9]]
    ensures w.output != Encoded(Utf32, swap, w.Written())
  {
    var first, second := Letters(2047) + [0xC3], [0xA9];
    w := new BufferedWriter(Utf32, swap);
    w.WriteBuffer(first);
    assert w.buffer[..w.bufsize] == [] + first == first;
    w.WriteBuffer(second);
    w.Flush();
    TwoPieces(first, second);
    SplitText(Letters(2047));
    SplitIsLost(w, first, second);
  }

  lemma TwoPieces(first: seq<Byte>, second: seq<Byte>)
    requires first != [] && second != []
    ensures [] + Piece(first) + Piece(second) == [first, second]
  {
  }

  lemma SplitIsLost(w: BufferedWriter, first: seq<Byte>, second: seq<Byte>)
    requires w.Valid() && w.bufsize == 0 && w.encoding != Utf8 && w.pieces == [first, second]
    requires WellFormed(w.Written()) && !WellFormed(first)
    ensures w.output != Encoded(w.encoding, w.swap, w.Written())
  {
    OutputIsExact(w);
    assert w.pieces[0] == first;
  }
}
