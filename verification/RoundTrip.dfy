/** Printing a tree of elements, attributes and text, and parsing the result, gives the tree back. */
module RoundTrip {
  import opened Basics
  import opened Shape
  import opened Dom
  import opened XPathData
  import opened Axes
  import opened Escape
  import opened Printer
  import opened Parser
  import opened ParseBuffer

  predicate ValidName(name: string) {
    name != "" && IsStart(name[0]) && forall k :: 0 <= k < |name| ==> IsSymbol(name[k])
  }

  predicate PrintableAttribute(a: Attribute) {
    a.name.Some? && ValidName(a.name.value) && a.value.Some? && '\0' !in a.value.value
  }

  predicate PrintableElement(node: Content) {
    && node.kind == Element && node.name.Some? && ValidName(node.name.value) && node.value == None
    && forall k :: 0 <= k < |node.attributes| ==> PrintableAttribute(node.attributes[k])
  }

  predicate PrintableText(node: Content) {
    && node.kind == Pcdata && node.name == None && node.attributes == []
    && node.value.Some? && node.value.value != "" && '\0' !in node.value.value
  }

  /** Node k can be printed: text is a non-empty leaf inside of an element, and no two texts are neighbours. */
  predicate PrintableNode(doc: Doc, k: nat)
    requires 0 < k < |doc.d| == |doc.nodes|
  {
    var next := NextSibling(doc.d, k);
    || PrintableElement(doc.nodes[k])
    || (PrintableText(doc.nodes[k]) && FirstChild(doc.d, k) == -1 && 1 < doc.d[k]
        && (next != -1 ==> 0 <= next < |doc.d| && doc.nodes[next].kind == Element))
  }

  ghost predicate Printable(doc: Doc) {
    && ValidDoc(doc) && doc.nodes[0].kind == NodeType.Document && doc.nodes[0].name == None
    && forall k :: 0 < k < |doc.d| ==> PrintableNode(doc, k)
  }

  /** The state of the parser when the first k nodes have been read and c is open. */
  function At(doc: Doc, k: nat, c: nat): State
    requires k <= |doc.d| == |doc.nodes|
  {
    State(Doc(doc.d[..k], doc.nodes[..k]), c)
  }

  lemma {:induction false} NameEnds(name: string, rest: string)
    requires forall k :: 0 <= k < |name| ==> IsSymbol(name[k])
    requires rest == "" || !IsSymbol(rest[0])
    ensures NameEnd(name + rest) == |name|
  {
    if name == "" {
      assert name + rest == rest;
    } else {
      assert (name + rest)[1..] == name[1..] + rest;
      NameEnds(name[1..], rest);
    }
  }

  lemma {:induction false} FindBehind(s: string, c: char, rest: string)
    requires c !in s
    ensures Find(s + [c] + rest, c) == |s|
  {
    if s != "" {
      assert (s + [c] + rest)[1..] == s[1..] + [c] + rest;
      FindBehind(s[1..], c, rest);
    }
  }

  // Attributes

  function AddAll(st: State, attributes: seq<Attribute>): State
    decreases |attributes|
  {
    if attributes == [] then st else AddAll(AddAttribute(st, attributes[0]), attributes[1..])
  }

  /** The text of an attribute, cut up the way the parser reads it. */
  lemma AttributeShape(a: Attribute, more: string)
    requires PrintableAttribute(a)
    ensures AttributeText(a) + more
            == " " + (a.name.value + ("=" + ("\"" + (Escaped(a.value.value, true) + ("\"" + more)))))
  {
    var name, value := a.name.value, Escaped(a.value.value, true);
    Assoc(" " + name + "=\"" + value, "\"", more);
    Assoc(" " + name + "=\"", value, "\"" + more);
    Assoc(" " + name, "=\"", value + ("\"" + more));
    Assoc(" ", name, "=\"" + (value + ("\"" + more)));
    assert "=\"" + (value + ("\"" + more)) == "=" + ("\"" + (value + ("\"" + more)));
  }

  lemma OneAttribute(a: Attribute, more: string)
    requires PrintableAttribute(a) && (more == "" || !IsStart(more[0]))
    ensures var r := a.name.value + ("=" + ("\"" + (Escaped(a.value.value, true) + ("\"" + more))));
            r != "" && IsStart(r[0]) && ReadAttribute(r) == Some(Read(a, more))
  {
    var name, value := a.name.value, Escaped(a.value.value, true);
    var v := "\"" + (value + ("\"" + more));
    var u := "=" + v;
    NameEnds(name, u);
    AfterEqualsIs(u, v);
    QuotedIs(a.value.value, more);
    EscapeRoundTrip(a.value.value, true);
    ReadAttributeIs(name + u, name, u, v, value, more);
  }

  lemma QuotedIs(text: string, more: string)
    requires more == "" || !IsStart(more[0])
    ensures Quoted("\"" + (Escaped(text, true) + ("\"" + more))) == Some((Escaped(text, true), more))
  {
    var value := Escaped(text, true);
    EscapedIsSafe(text, true);
    FindBehind(value, '"', more);
    Assoc(value, ['"'], more);
    QuotedFound(value, more, "\"" + (value + ("\"" + more)));
  }

  lemma QuotedFound(value: string, more: string, v: string)
    requires v == "\"" + (value + ("\"" + more)) && (more == "" || !IsStart(more[0]))
    requires Find(value + ("\"" + more), '"') == |value|
    ensures Quoted(v) == Some((value, more))
  {
    QuotedParts(value, more, v);
  }

  lemma QuotedParts(value: string, more: string, v: string)
    requires v == "\"" + (value + ("\"" + more))
    ensures |v| == |value| + 2 + |more|
    ensures v[1..] == value + ("\"" + more) && v[1..|value| + 1] == value && v[|value| + 2..] == more
  {
  }

  lemma AfterEqualsIs(u: string, v: string)
    requires u == "=" + v && v != "" && v[0] == '"'
    ensures AfterEquals(u) == Some(v)
  {
    assert u[1..] == v;
  }

  lemma SpaceBefore(s: string, st: State, endch: char)
    ensures ParseAttributes(" " + s, st, endch) == ParseAttributes(s, st, endch)
  {
    assert (" " + s)[1..] == s;
  }

  lemma {:induction false} AttributesParse(attributes: seq<Attribute>, tail: string, st: State, endch: char)
    requires forall k :: 0 <= k < |attributes| ==> PrintableAttribute(attributes[k])
    requires tail != "" && !IsStart(tail[0]) && !IsSpace(tail[0])
    ensures ParseAttributes(AttributesText(attributes) + tail, st, endch) == ParseAttributes(tail, AddAll(st, attributes), endch)
    decreases |attributes|
  {
    if attributes == [] {
      assert AttributesText(attributes) + tail == tail;
    } else {
      var a, rest := attributes[0], AttributesText(attributes[1..]) + tail;
      var r := a.name.value + ("=" + ("\"" + (Escaped(a.value.value, true) + ("\"" + rest))));
      Assoc(AttributeText(a), AttributesText(attributes[1..]), tail);
      AttributeShape(a, rest);
      SpaceBefore(r, st, endch);
      RestStarts(attributes, tail);
      OneAttribute(a, rest);
      AttributeRead(r, a, rest, st, endch);
      AttributesParse(attributes[1..], tail, AddAttribute(st, a), endch);
    }
  }

  lemma RestStarts(attributes: seq<Attribute>, tail: string)
    requires attributes != [] && tail != "" && !IsStart(tail[0])
    ensures var rest := AttributesText(attributes[1..]) + tail; rest != "" && !IsStart(rest[0])
  {
    if |attributes| == 1 {
      assert AttributesText(attributes[1..]) + tail == tail;
    }
  }

  lemma AttributeRead(r: string, a: Attribute, rest: string, st: State, endch: char)
    requires r != "" && IsStart(r[0]) && ReadAttribute(r) == Some(Read(a, rest))
    ensures ParseAttributes(r, st, endch) == ParseAttributes(rest, AddAttribute(st, a), endch)
  {
    assert SkipSpace(r) == r;
  }

  lemma {:induction false} AddedAll(st: State, attributes: seq<Attribute>)
    requires st.cursor < |st.doc.nodes|
    ensures var node := st.doc.nodes[st.cursor];
            AddAll(st, attributes)
            == st.(doc := st.doc.(nodes := st.doc.nodes[st.cursor := node.(attributes := node.attributes + attributes)]))
    decreases |attributes|
  {
    var node := st.doc.nodes[st.cursor];
    if attributes == [] {
      assert node.attributes + attributes == node.attributes;
    } else {
      AddedAll(AddAttribute(st, attributes[0]), attributes[1..]);
      assert node.attributes + attributes == node.attributes + [attributes[0]] + attributes[1..];
    }
  }

  // Tags

  /** An opening tag, up to the end of its attributes, pushes the element. */
  lemma OpeningParses(doc: Doc, k: nat, c: nat, tail: string, endch: char)
    requires ValidDoc(doc) && 0 < k < |doc.d| && Parent(doc.d, k) == c && PrintableElement(doc.nodes[k])
    requires tail != "" && (tail[0] == '>' || tail[0] == '/')
    ensures var node := doc.nodes[k];
            ParseContent("<" + node.name.value + AttributesText(node.attributes) + tail, At(doc, k, c), endch)
            == if tail[0] == '>' then ParseContent(tail[1..], At(doc, k + 1, k), endch)
               else EmptyElement(tail[1..], At(doc, k + 1, k), endch)
  {
    var node := doc.nodes[k];
    var name, text := node.name.value, AttributesText(node.attributes);
    var st := At(doc, k, c);
    var st' := Push(st, NewElement(name));
    Assoc("<" + name, text, tail);
    Assoc("<", name, text + tail);
    assert ("<" + (name + (text + tail)))[1..] == name + (text + tail);
    Pushed(doc, k, c, node);
    if node.attributes == [] {
      assert text + tail == tail;
      StartTag(name, tail, st, endch);
      assert NewElement(name) == node && st' == At(doc, k + 1, k);
    } else {
      TextStarts(node.attributes, tail);
      StartTag(name, text + tail, st, endch);
      SpaceBefore((text + tail)[1..], st', endch);
      AttributesParse(node.attributes, tail, st', endch);
      AddedAll(st', node.attributes);
      assert AddAll(st', node.attributes) == At(doc, k + 1, k);
      assert ParseAttributes(tail, At(doc, k + 1, k), endch)
          == if tail[0] == '>' then ParseContent(tail[1..], At(doc, k + 1, k), endch)
             else EmptyElement(tail[1..], At(doc, k + 1, k), endch);
    }
  }

  lemma TextStarts(attributes: seq<Attribute>, tail: string)
    requires attributes != []
    ensures var s := AttributesText(attributes) + tail; s != "" && s[0] == ' ' && s == " " + s[1..]
  {
  }

  /** The name of an element and the character behind it. */
  lemma StartTag(name: string, more: string, st: State, endch: char)
    requires ValidName(name) && more != "" && (more[0] == '>' || more[0] == '/' || more[0] == ' ')
    ensures var st' := Push(st, NewElement(name));
            ParseTag(name + more, st, endch)
            == if more[0] == '>' then ParseContent(more[1..], st', endch)
               else if more[0] == ' ' then ParseAttributes(more[1..], st', endch)
               else EmptyElement(more[1..], st', endch)
  {
    var s := name + more;
    NameEnds(name, more);
    assert s[..|name|] == name && s[|name| + 1..] == more[1..];
  }

  lemma Pushed(doc: Doc, k: nat, c: nat, node: Content)
    requires ValidDoc(doc) && 0 < k < |doc.d| && Parent(doc.d, k) == c && node == doc.nodes[k]
    ensures var st' := Push(At(doc, k, c), node.(attributes := []));
            st'.cursor == k && st'.doc.nodes[k := node] == doc.nodes[..k + 1] && st'.doc.d == doc.d[..k + 1]
    ensures [] + node.attributes == node.attributes
  {
    ParentDepth(doc.d, k);
    assert doc.d[..k + 1] == doc.d[..k] + [doc.d[k]];
    assert doc.nodes[..k + 1] == doc.nodes[..k] + [doc.nodes[k]];
  }

  /** Closing the element k leads back to its parent. */
  lemma Popped(doc: Doc, k: nat, e: nat)
    requires ValidDoc(doc) && 0 < k < e <= |doc.d|
    ensures 0 <= Parent(doc.d, k) && Pop(At(doc, e, k)) == At(doc, e, Parent(doc.d, k))
  {
    ParentDepth(doc.d, k);
    LastSpec(doc.d, k, doc.d[k] as int - 1);
    LastIs(doc.d[..e], k, doc.d[k] as int - 1, Parent(doc.d, k));
  }

  lemma ClosingParses(doc: Doc, k: nat, e: nat, rest: string, endch: char)
    requires ValidDoc(doc) && 0 < k < e <= |doc.d| && PrintableElement(doc.nodes[k])
    ensures ParseContent(Closing(doc.nodes[k]) + rest, At(doc, e, k), endch)
            == ParseContent(rest, Pop(At(doc, e, k)), endch)
  {
    var name := doc.nodes[k].name.value;
    var s := name + (">" + rest);
    Assoc("</" + name, ">", rest);
    Assoc("</", name, ">" + rest);
    assert ("</" + s)[1..] == "/" + s && ("/" + s)[1..] == s;
    assert ParseTag("/" + s, At(doc, e, k), endch) == ParseEnd(s, At(doc, e, k), endch);
    EndParses(name, rest, At(doc, e, k), endch);
  }

  lemma EndParses(name: string, rest: string, st: State, endch: char)
    requires ValidName(name) && CursorName(st) == Some(name)
    ensures ParseEnd(name + (">" + rest), st, endch) == ParseContent(rest, Pop(st), endch)
  {
    var s := name + (">" + rest);
    NameEnds(name, ">" + rest);
    assert s[..|name|] == name;
    assert s[|name|..] == ">" + rest && (">" + rest)[1..] == rest;
  }

  lemma TextParses(doc: Doc, k: nat, c: nat, rest: string, endch: char)
    requires ValidDoc(doc) && 0 < k < |doc.d| && Parent(doc.d, k) == c && 0 < c && PrintableText(doc.nodes[k])
    requires 1 < |rest| && rest[0] == '<'
    ensures ParseContent(Simple(doc.nodes[k]) + rest, At(doc, k, c), endch) == ParseContent(rest, At(doc, k + 1, c), endch)
  {
    var text := doc.nodes[k].value.value;
    var e := Escaped(text, false);
    var s := e + rest;
    EscapedIsSafe(text, false);
    assert e[0] in e;
    assert s == e + ['<'] + rest[1..];
    FindBehind(e, '<', rest[1..]);
    assert s[..|e|] == e && s[|e| + 1..] == rest[1..];
    EscapeRoundTrip(text, false);
    Pushed(doc, k, c, doc.nodes[k]);
    assert doc.nodes[k] == NewText(text);
    assert doc.nodes[..k + 1] == doc.nodes[..k] + [doc.nodes[k]];
  }

  /** The text of an element with children, cut up the way the parser reads it. */
  lemma ElementShape(doc: Doc, k: nat, rest: string)
    requires ValidDoc(doc) && k < |doc.d| && PrintableElement(doc.nodes[k]) && FirstChild(doc.d, k) != -1
    ensures var node := doc.nodes[k];
            Render(doc, k) + rest
            == "<" + node.name.value + AttributesText(node.attributes)
               + (">" + (RenderList(doc, k + 1, End(doc.d, k)) + (Closing(node) + rest)))
  {
    var node := doc.nodes[k];
    var start, list := "<" + node.name.value + AttributesText(node.attributes), RenderList(doc, k + 1, End(doc.d, k));
    Assoc(start + ">" + list, Closing(node), rest);
    Assoc(start + ">", list, Closing(node) + rest);
    Assoc(start, ">", list + (Closing(node) + rest));
  }

  lemma EmptyParses(doc: Doc, k: nat, c: nat, rest: string, endch: char)
    requires ValidDoc(doc) && 0 < k < |doc.d| && Parent(doc.d, k) == c && PrintableElement(doc.nodes[k])
    ensures ParseContent(Opening(doc.nodes[k], false) + rest, At(doc, k, c), endch) == ParseContent(rest, At(doc, k + 1, c), endch)
  {
    var node := doc.nodes[k];
    OpeningParses(doc, k, c, "/>" + rest, endch);
    assert ("/>" + rest)[1..] == ">" + rest && (">" + rest)[1..] == rest;
    Assoc("<" + node.name.value + AttributesText(node.attributes), "/>", rest);
    Popped(doc, k, k + 1);
  }

  // Trees

  /** The text of a subtree parses to the subtree. */
  lemma {:induction false} NodeParses(doc: Doc, k: nat, rest: string, endch: char)
    requires Printable(doc) && 0 < k < |doc.d|
    requires doc.nodes[k].kind == Pcdata ==> 1 < |rest| && rest[0] == '<'
    ensures var c := Parent(doc.d, k);
            && 0 <= c
            && ParseContent(Render(doc, k) + rest, At(doc, k, c), endch)
               == ParseContent(rest, At(doc, End(doc.d, k), c), endch)
    decreases |doc.d| - k, 0
  {
    var d, c, e, node := doc.d, Parent(doc.d, k), End(doc.d, k), doc.nodes[k];
    ParentDepth(d, k);
    AppendSlot(d, k);
    assert PrintableNode(doc, k);
    if node.kind == Pcdata {
      TextParses(doc, k, c, rest, endch);
    } else if FirstChild(d, k) == -1 {
      EmptyParses(doc, k, c, rest, endch);
    } else {
      LastChildParent(d, k);
      ListParses(doc, k + 1, k, Closing(node) + rest, endch);
      ElementParses(doc, k, c, e, rest, endch);
    }
  }

  /** An element with children parses once the list of its children does. */
  lemma ElementParses(doc: Doc, k: nat, c: nat, e: nat, rest: string, endch: char)
    requires Printable(doc) && 0 < k < |doc.d| && c == Parent(doc.d, k) && e == End(doc.d, k)
    requires doc.nodes[k].kind != Pcdata && FirstChild(doc.d, k) != -1
    requires var after := Closing(doc.nodes[k]) + rest;
             ParseContent(RenderList(doc, k + 1, e) + after, At(doc, k + 1, k), endch) ==
             ParseContent(after, At(doc, e, k), endch)
    ensures ParseContent(Render(doc, k) + rest, At(doc, k, c), endch) == ParseContent(rest, At(doc, e, c), endch)
  {
    var node := doc.nodes[k];
    var inner := RenderList(doc, k + 1, e) + (Closing(node) + rest);
    ParentDepth(doc.d, k);
    AppendSlot(doc.d, k);
    assert PrintableNode(doc, k);
    OpeningParses(doc, k, c, ">" + inner, endch);
    assert (">" + inner)[1..] == inner;
    ElementShape(doc, k, rest);
    LastChildParent(doc.d, k);
    ClosingParses(doc, k, e, rest, endch);
    Popped(doc, k, e);
  }

  /** The text of the children of c from k on parses to them. */
  lemma {:induction false} ListParses(doc: Doc, k: nat, c: nat, rest: string, endch: char)
    requires Printable(doc) && c < |doc.d| && c < k <= End(doc.d, c) && (k < End(doc.d, c) ==> Parent(doc.d, k) == c)
    requires c == 0 || (1 < |rest| && rest[0] == '<')
    ensures ParseContent(RenderList(doc, k, End(doc.d, c)) + rest, At(doc, k, c), endch)
            == ParseContent(rest, At(doc, End(doc.d, c), c), endch)
    decreases |doc.d| - k, 1
  {
    var d, e := doc.d, End(doc.d, c);
    if k == e {
      assert "" + rest == rest;
    } else {
      var next := End(d, k);
      var more := RenderList(doc, next, e) + rest;
      NextInside(d, c, k);
      ParentDepth(d, k);
      if next < e { NextChild(d, k); }
      ListStarts(doc, k, c, rest);
      NodeParses(doc, k, more, endch);
      Assoc(Render(doc, k), RenderList(doc, next, e), rest);
      ListParses(doc, next, c, rest, endch);
    }
  }

  /** Behind a child comes the next one, or the end of the list. */
  lemma NextChild(d: Depths, k: nat)
    requires WellFormed(d) && 0 < k < |d| && 0 <= Parent(d, k) && End(d, k) < End(d, Parent(d, k))
    ensures NextSibling(d, k) == End(d, k) && Parent(d, End(d, k)) == Parent(d, k)
  {
    var c, n := Parent(d, k), End(d, k);
    ParentDepth(d, k);
    NxtSpec(d, k + 1, d[k]);
    NextInside(d, c, n);
    NextThenPrev(d, k);
  }

  /** What follows a text starts with a tag. */
  lemma ListStarts(doc: Doc, k: nat, c: nat, rest: string)
    requires Printable(doc) && c < |doc.d| && c < k < End(doc.d, c) && Parent(doc.d, k) == c && End(doc.d, k) <= End(doc.d, c)
    requires c == 0 || (1 < |rest| && rest[0] == '<')
    ensures doc.nodes[k].kind == Pcdata ==>
              var more := RenderList(doc, End(doc.d, k), End(doc.d, c)) + rest; 1 < |more| && more[0] == '<'
  {
    var next, e := End(doc.d, k), End(doc.d, c);
    assert PrintableNode(doc, k);
    ParentDepth(doc.d, k);
    if doc.nodes[k].kind == Pcdata {
      if next == e {
        assert RenderList(doc, next, e) + rest == rest;
      } else {
        NextChild(doc.d, k);
        assert PrintableNode(doc, next);
        assert 1 < |Render(doc, next)| && Render(doc, next)[0] == '<';
      }
    }
  }

  /**
   Print then parse is the identity: a document of elements with valid names, attributes and
   non-empty, non-adjacent text, printed without indentation, parses to itself.
   */
  lemma PrintThenParse(doc: Doc, endch: char)
    requires Printable(doc)
    ensures ParseContent(Render(doc, 0), State(Doc([0], [doc.nodes[0]]), 0), endch) == Done(State(doc, 0))
  {
    var d, n := doc.d, |doc.d|;
    NxtIs(d, 1, d[0], n);
    if 1 < n { ParentDepth(d, 1); }
    ListParses(doc, 1, 0, "", endch);
    assert Render(doc, 0) + "" == Render(doc, 0) == RenderList(doc, 1, n);
    assert doc.d[..1] == [0] && doc.nodes[..1] == [doc.nodes[0]];
    assert doc.d[..n] == doc.d && doc.nodes[..n] == doc.nodes;
  }

  /** What was printed begins with a tag. */
  lemma PrintedStarts(doc: Doc)
    requires Printable(doc) && 1 < |doc.d|
    ensures Render(doc, 0) != "" && Render(doc, 0)[0] == '<'
    ensures IsTopElement(doc, 1)
  {
    NxtIs(doc.d, 1, doc.d[0], |doc.d|);
    ParentDepth(doc.d, 1);
    assert PrintableNode(doc, 1);
    assert Render(doc, 1)[0] == '<';
  }

  lemma {:induction false} EscapedHasNoZero(s: string, attribute: bool)
    requires '\0' !in s
    ensures '\0' !in Escaped(s, attribute)
  {
    if s != "" {
      assert s[0] in s && forall c :: c in s[1..] ==> c in s;
      EscapedHasNoZero(s[1..], attribute);
    }
  }

  lemma AttributeHasNoZero(a: Attribute)
    requires PrintableAttribute(a)
    ensures '\0' !in AttributeText(a)
  {
    EscapedHasNoZero(a.value.value, true);
    assert forall c :: c in a.name.value ==> IsSymbol(c);
  }

  lemma {:induction false} AttributesHaveNoZero(attributes: seq<Attribute>)
    requires forall k :: 0 <= k < |attributes| ==> PrintableAttribute(attributes[k])
    ensures '\0' !in AttributesText(attributes)
  {
    if attributes != [] {
      AttributeHasNoZero(attributes[0]);
      AttributesHaveNoZero(attributes[1..]);
    }
  }

  lemma ElementHasNoZero(node: Content)
    requires PrintableElement(node)
    ensures '\0' !in Opening(node, true) && '\0' !in Opening(node, false) && '\0' !in Closing(node)
  {
    assert forall c :: c in node.name.value ==> IsSymbol(c);
    AttributesHaveNoZero(node.attributes);
  }

  /** What is written for a printable document holds no zero. */
  lemma {:induction false} PrintedHasNoZero(doc: Doc, k: nat, e: nat)
    requires Printable(doc) && 0 < k && e <= |doc.d|
    ensures '\0' !in RenderList(doc, k, e)
    decreases |doc.d| - k
  {
    if k < e {
      assert PrintableNode(doc, k);
      PrintedHasNoZero(doc, End(doc.d, k), e);
      PrintedHasNoZero(doc, k + 1, End(doc.d, k));
      if PrintableElement(doc.nodes[k]) {
        ElementHasNoZero(doc.nodes[k]);
      } else {
        EscapedHasNoZero(doc.nodes[k].value.value, false);
      }
    }
  }

  /**
   The same for the pointers in the heap and a whole run of the two loops: what node_output writes
   for a document with at least one element, xml_parser::parse reads back as the same document.
   */
  method PrintAndParse(root: XmlNode, ghost order: seq<XmlNode>, ghost d: Depths) returns (r: Load)
    requires Linked(order, d) && 1 < |order| && order[0] == root && Printable(DocOf(order, d))
    requires ContentOf(root) == Empty().doc.nodes[0]
    ensures r == Loaded(DocOf(order, d))
  {
    var text := NodeOutput(root, order, d, 0);
    ghost var doc := DocOf(order, d);
    PrintThenParse(doc, '\0');
    PrintedStarts(doc);
    PrintedHasNoZero(doc, 1, |doc.d|);
    NxtIs(doc.d, 1, doc.d[0], |doc.d|);
    assert [doc.nodes[0]] == Empty().doc.nodes;
    r := Parse(text);
  }
}
