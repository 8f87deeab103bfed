/**
 xml_parser::parse: the last character of the buffer is overwritten with a zero and passed along,
 which makes no difference to the document that comes of it, nor to whether one does.
 */
module ParseBuffer {
  import opened Basics
  import opened Shape
  import opened Dom
  import opened XPathData
  import opened Escape
  import opened Printer
  import opened Parser

  /** What a text parses to when nothing was overwritten: the zero stands behind it. */
  function ParseWhole(s: string, st: State): Parsed {
    ParseContent(s, st, '\0')
  }

  /** The parse without the last character c comes to the same, but for a `<` that was overwritten. */
  predicate Agrees(cut: Parsed, whole: Parsed, c: char) {
    if c != '<' && cut.Done? then whole == cut else whole.Failed?
  }

  lemma SpaceEnd(u: string, c: char)
    ensures SkipSpace(u + [c]) ==
            if SkipSpace(u) != "" then SkipSpace(u) + [c] else if IsSpace(c) then "" else [c]
  {
    if u == "" {
      assert u + [c] == [c];
    } else {
      assert (u + [c])[1..] == u[1..] + [c];
      if IsSpace(u[0]) { SpaceEnd(u[1..], c); }
    }
  }

  lemma NameEndsAt(u: string, c: char)
    ensures NameEnd(u + [c]) == NameEnd(u) + if NameEnd(u) == |u| && IsSymbol(c) then 1 else 0
  {
    if u == "" {
      assert u + [c] == [c];
    } else {
      assert (u + [c])[1..] == u[1..] + [c];
      if IsSymbol(u[0]) { NameEndsAt(u[1..], c); }
    }
  }

  lemma FindEnd(u: string, x: char, c: char)
    ensures Find(u + [c], x) == Find(u, x) + if Find(u, x) == |u| && c != x then 1 else 0
  {
    if u == "" {
      assert u + [c] == [c];
    } else {
      assert (u + [c])[1..] == u[1..] + [c];
      if u[0] != x { FindEnd(u[1..], x, c); }
    }
  }

  /** Behind the sign of a tag that is no more than one character, there is nothing to parse. */
  lemma LoneTag(c: char, st: State)
    ensures ParseTag([c], st, '\0').Failed?
  {
    assert [c][1..] == "";
  }

  lemma ContentEnd(t: string, c: char, st: State)
    ensures Agrees(ParseContent(t, st, c), ParseWhole(t + [c], st), c)
    decreases |t|, 2
  {
    var s := t + [c];
    assert s[1..] == if t == "" then "" else t[1..] + [c];
    if t == "" {
      assert s == [c] && s[1..] == "";
      FindEnd("", '<', c);
      assert c == '<' ==> ParseTag("", st, '\0').Failed?;
    } else if t[0] == '<' {
      TagEnd(t[1..], c, st);
    } else {
      TextEnd(t, c, st);
    }
  }

  lemma TextEnd(t: string, c: char, st: State)
    requires t != "" && t[0] != '<'
    ensures Agrees(ParseContent(t, st, c), ParseWhole(t + [c], st), c)
    decreases |t|, 0
  {
    var s, p := t + [c], Find(t, '<');
    FindEnd(t, '<', c);
    if p < |t| {
      assert s[..p] == t[..p] && s[p + 1..] == t[p + 1..] + [c];
      var st' := if st.cursor != 0 then PushText(st, Unescape(t[..p])) else st;
      assert p + 1 == |t| ==> s[p + 1..] == [c];
      LoneTag(c, st');
      TagEnd(t[p + 1..], c, st');
    } else if c == '<' {
      assert s[p + 1..] == "";
      assert ParseTag("", st, '\0').Failed?;
    } else {
      assert Find(s, '<') == |s|;
    }
  }

  lemma TagEnd(t: string, c: char, st: State)
    ensures Agrees(ParseTag(t, st, c), ParseTag(t + [c], st, '\0'), c)
    decreases |t|, 1
  {
    var s := t + [c];
    LoneTag(c, st);
    if t == "" {
      assert s == [c];
    } else if IsStart(t[0]) {
      StartEnd(t, c, st);
    } else if t[0] == '/' {
      assert s[1..] == t[1..] + [c];
      EndTagEnd(t[1..], c, st);
    }
  }

  lemma StartEnd(t: string, c: char, st: State)
    requires t != "" && IsStart(t[0])
    ensures Agrees(ParseTag(t, st, c), ParseTag(t + [c], st, '\0'), c)
    decreases |t|, 0
  {
    var s, n := t + [c], NameEnd(t);
    NameEndsAt(t, c);
    assert s[..n] == t[..n];
    var st' := Push(st, NewElement(t[..n]));
    if n < |t| {
      assert s[n + 1..] == t[n + 1..] + [c];
      ContentEnd(t[n + 1..], c, st');
      AttributesEnd(t[n + 1..], c, st');
      EmptyEnd(t[n + 1..], c, st');
    } else if !IsSymbol(c) {
      assert s[n + 1..] == "";
    }
  }

  lemma EmptyEnd(t: string, c: char, st: State)
    ensures Agrees(EmptyElement(t, st, c), EmptyElement(t + [c], st, '\0'), c)
    decreases |t|, 2
  {
    var s := t + [c];
    if t == "" {
      assert s == [c] && s[1..] == "";
    } else {
      assert s[1..] == t[1..] + [c];
      ContentEnd(t[1..], c, Pop(st));
    }
  }

  lemma EndTagEnd(t: string, c: char, st: State)
    ensures Agrees(ParseEnd(t, st, c), ParseEnd(t + [c], st, '\0'), c)
    decreases |t|, 2
  {
    var s, m := t + [c], NameEnd(t);
    NameEndsAt(t, c);
    assert s[..m] == t[..m];
    assert s[m..] == t[m..] + [c];
    SpaceEnd(t[m..], c);
    if CursorName(st).None? {
    } else if NameEnd(s) == m {
      var r := SkipSpace(t[m..]);
      assert r != "" ==> (r + [c])[1..] == r[1..] + [c];
      assert [c][1..] == "";
      if r != "" { ContentEnd(r[1..], c, Pop(st)); }
    } else {
      assert t[m..] == "" && s[m + 1..] == "" && s[..m + 1] == s;
    }
  }

  lemma AttributesEnd(t: string, c: char, st: State)
    ensures Agrees(ParseAttributes(t, st, c), ParseAttributes(t + [c], st, '\0'), c)
    decreases |t|, 3
  {
    var r := SkipSpace(t);
    SpaceEnd(t, c);
    if r == "" {
      assert [c][1..] == "";
      LoneAttribute(c);
    } else if IsStart(r[0]) {
      OneAttributeEnd(r, c);
      var cut, whole := ReadAttribute(r), ReadAttribute(r + [c]);
      if cut.Some? && whole.Some? {
        AttributesEnd(cut.value.rest, c, AddAttribute(st, cut.value.a));
      }
    } else {
      assert (r + [c])[1..] == r[1..] + [c];
      EmptyEnd(r[1..], c, st);
      ContentEnd(r[1..], c, st);
    }
  }

  lemma LoneAttribute(c: char)
    ensures ReadAttribute([c]).None?
  {
    assert [c][NameEnd([c])..] == if IsSymbol(c) then "" else [c];
    assert [c][1..] == "";
  }

  /** An attribute is read the same, but for a closing quote or a letter at the very end. */
  lemma OneAttributeEnd(r: string, c: char)
    requires r != "" && IsStart(r[0])
    ensures var cut, whole := ReadAttribute(r), ReadAttribute(r + [c]);
            && (cut.None? && whole.Some? ==> whole.value.rest == "")
            && (cut.Some? && whole.Some? ==> whole.value == Read(cut.value.a, cut.value.rest + [c]))
            && (cut.Some? && whole.None? ==> cut.value.rest == "" && IsStart(c))
  {
    var n := NameEnd(r);
    NameEndsAt(r, c);
    var s := r + [c];
    if NameEnd(s) == n {
      assert s[..n] == r[..n] && s[n..] == r[n..] + [c];
      EqualsEnd(r[n..], c);
      var v := AfterEquals(r[n..]);
      if v.Some? { QuotedEnd(v.value, c); }
      LoneQuote(c);
    } else {
      assert r[n..] == "" && s[n + 1..] == "";
    }
  }

  lemma LoneQuote(c: char)
    ensures Quoted([c]).None?
  {
    assert [c][1..] == "";
  }

  lemma EqualsEnd(x: string, c: char)
    ensures var cut, whole := AfterEquals(x), AfterEquals(x + [c]);
            && (cut.None? && whole.Some? ==> whole.value == "")
            && (cut.Some? ==> whole.Some? && (whole.value == cut.value + [c] || (cut.value == "" && whole.value == "")))
  {
    var s := x + [c];
    if x == "" {
      assert s == [c] && s[1..] == "";
    } else {
      assert s[1..] == x[1..] + [c];
      SpaceEnd(x[1..], c);
      var u := if IsSpace(x[0]) then SkipSpace(x[1..]) else x;
      assert [c][1..] == "";
      if u != "" {
        assert (u + [c])[1..] == u[1..] + [c];
        SpaceEnd(u[1..], c);
      }
    }
  }

  lemma QuotedEnd(v: string, c: char)
    ensures var cut, whole := Quoted(v), Quoted(v + [c]);
            && (cut.None? && whole.Some? ==> whole.value.1 == "")
            && (cut.Some? && whole.Some? ==> whole.value == (cut.value.0, cut.value.1 + [c]))
            && (cut.Some? && whole.None? ==> cut.value.1 == "" && IsStart(c))
  {
    var s := v + [c];
    if v == "" {
      assert s == [c];
      LoneQuote(c);
    } else {
      var e := Find(v[1..], v[0]);
      assert s[1..] == v[1..] + [c];
      FindEnd(v[1..], v[0], c);
      if e < |v| - 1 {
        assert s[e + 2..] == v[e + 2..] + [c] && s[1..e + 1] == v[1..e + 1];
      } else if c == v[0] {
        assert s[e + 2..] == "";
      }
    }
  }

  // xml_parser::parse

  /** The document a buffer is parsed into: nothing but its root. */
  function Empty(): State {
    State(Doc([0], [Content(NodeType.Document, None, None, [])]), 0)
  }

  /** parse_skip_bom */
  function SkipBom(s: string): string {
    if |s| >= 3 && s[0] as int == 0xEF && s[1] as int == 0xBB && s[2] as int == 0xBF then s[3..] else s
  }

  /** A byte order mark that is cut short is text outside of all elements. */
  lemma BomEnd(t: string, c: char)
    ensures Agrees(ParseContent(SkipBom(t), Empty(), c), ParseWhole(SkipBom(t + [c]), Empty()), c)
  {
    var s := t + [c];
    if |t| != 2 || SkipBom(s) == s {
      assert SkipBom(s) == SkipBom(t) + [c];
      ContentEnd(SkipBom(t), c, Empty());
    } else {
      assert SkipBom(s) == "";
      assert Find(t[1..], '<') == 1 && Find(t, '<') == 2;
      assert ParseContent(t, Empty(), c) == Done(Empty());
    }
  }

  predicate IsTopElement(doc: Doc, k: nat)
    requires |doc.d| == |doc.nodes| && k < |doc.d|
  {
    Parent(doc.d, k) == 0 && doc.nodes[k].kind == Element
  }

  ghost predicate HasTopElement(doc: Doc) {
    |doc.d| == |doc.nodes| && exists k :: 0 <= k < |doc.d| && IsTopElement(doc, k)
  }

  datatype Load = Loaded(doc: Doc) | BadText(status: Status) | NoDocumentElement

  ghost function OutcomeOf(r: Parsed): Load {
    match r
    case Failed(status) => BadText(status)
    case Done(st) => if HasTopElement(st.doc) then Loaded(st.doc) else NoDocumentElement
  }

  /** has_element_node_siblings, from the first child of the root. */
  method HasElementNodeSiblings(doc: Doc) returns (b: bool)
    requires ValidDoc(doc)
    ensures b == HasTopElement(doc)
  {
    var d := doc.d;
    var k := FirstChild(d, 0);
    if 1 < |d| { ParentDepth(d, 1); }
    assert k == -1 ==> |d| == 1 by { AppendSlot(d, 0); NxtIs(d, 1, d[0], |d|); }
    while k != -1
      invariant -1 <= k < |d| && (k != -1 ==> 0 < k && Parent(d, k) == 0)
      invariant forall j :: 0 <= j < (if k == -1 then |d| else k) ==> !IsTopElement(doc, j)
      decreases if k == -1 then 0 else |d| - k
    {
      if doc.nodes[k].kind == Element {
        assert IsTopElement(doc, k);
        return true;
      }
      SiblingsApart(d, k);
      k := NextSibling(d, k);
    }
    return false;
  }

  /** A zero-terminated string: what stands before the first zero. */
  function CString(s: string): (t: string)
    ensures '\0' !in t && t <= s && (t != s ==> s[|t|] == '\0')
  {
    if s == "" || s[0] == '\0' then "" else [s[0]] + CString(s[1..])
  }

  /** What the parser sees of a buffer: everything before the first zero, and the last character, which it is told. */
  function Visible(buffer: string): (s: string)
    ensures '\0' !in buffer ==> s == buffer
  {
    if buffer == "" then "" else CString(buffer[..|buffer| - 1]) + [buffer[|buffer| - 1]]
  }

  /** Parsing a buffer comes to what its text, behind a byte order mark, parses to; error codes may differ. */
  method Parse(buffer: string) returns (r: Load)
    ensures var whole := ParseWhole(SkipBom(Visible(buffer)), Empty());
            if whole.Failed? then r.BadText? else r == OutcomeOf(whole)
  {
    if |buffer| == 0 {
      return NoDocumentElement;
    }
    var t, endch := CString(buffer[..|buffer| - 1]), buffer[|buffer| - 1];
    BomEnd(t, endch);
    var cut := ParseTree(SkipBom(t), Empty(), endch);
    match cut {
      case Failed(status) => r := BadText(status);
      case Done(st) =>
        if endch == '<' {
          return BadText(UnrecognizedTag);
        }
        var b := HasElementNodeSiblings(st.doc);
        r := if b then Loaded(st.doc) else NoDocumentElement;
    }
  }
}
