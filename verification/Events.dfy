/**
 What a text means as XML: a lexer that knows nothing of nesting cuts it into events, the events must
 be balanced, and the document is then read off them.  The parser does exactly that.
 */
module Events {
  import opened Basics
  import opened Shape
  import opened Dom
  import opened XPathData
  import opened Escape
  import opened Printer
  import opened Parser
  import opened ParseBuffer
  import opened RoundTrip

  datatype Event =
    | Opened(name: string, attributes: seq<Attribute>)
    | Whole(name: string, attributes: seq<Attribute>)
    | Closed(name: string)
    | Text(text: string)

  /** What follows a name in an opening tag, up to its end. */
  datatype TagRest = TagRest(attributes: seq<Attribute>, whole: bool, rest: string)

  function Before(e: Event, more: Option<seq<Event>>): Option<seq<Event>> {
    match more
    case None => None
    case Some(es) => Some([e] + es)
  }

  /** The events of a text, if its tags are tags. */
  function Lex(s: string): Option<seq<Event>>
    decreases |s|, 1
  {
    if s == "" then Some([])
    else if s[0] == '<' then LexTag(s[1..])
    else
      var p := Find(s, '<');
      if p == |s| then Some([Text(s)]) else Before(Text(s[..p]), LexTag(s[p + 1..]))
  }

  function LexTag(s: string): Option<seq<Event>>
    decreases |s|, 0
  {
    if s == "" then None
    else if s[0] == '/' then
      var m := NameEnd(s[1..]);
      var r := SkipSpace(s[1..][m..]);
      if r == "" || r[0] != '>' then None else Before(Closed(s[1..][..m]), Lex(r[1..]))
    else if IsStart(s[0]) then
      var n := NameEnd(s);
      match LexRest(s[n..])
      case None => None
      case Some(t) => Before(if t.whole then Whole(s[..n], t.attributes) else Opened(s[..n], t.attributes), Lex(t.rest))
    else None
  }

  function LexRest(s: string): (t: Option<TagRest>)
    ensures t.Some? ==> |t.value.rest| < |s|
  {
    if s == "" then None
    else if IsSpace(s[0]) then LexAttributes(s[1..])
    else LexEnd(s)
  }

  /** The end of an opening tag. */
  function LexEnd(s: string): (t: Option<TagRest>)
    ensures t.Some? ==> |t.value.rest| < |s|
  {
    if s != "" && s[0] == '>' then Some(TagRest([], false, s[1..]))
    else if |s| > 1 && s[0] == '/' && s[1] == '>' then Some(TagRest([], true, s[2..]))
    else None
  }

  function LexAttributes(s: string): (t: Option<TagRest>)
    ensures t.Some? ==> |t.value.rest| < |s|
    decreases |s|
  {
    var r := SkipSpace(s);
    if r != "" && IsStart(r[0]) then
      match ReadAttribute(r)
      case None => None
      case Some(read) =>
        match LexAttributes(read.rest)
        case None => None
        case Some(t) => Some(t.(attributes := [read.a] + t.attributes))
    else LexEnd(r)
  }

  /** Every closing tag has the name of the innermost open element, and in the end none is open. */
  predicate Balanced(es: seq<Event>, stack: seq<string>) {
    if es == [] then stack == []
    else
      match es[0]
      case Opened(name, _) => Balanced(es[1..], [name] + stack)
      case Closed(name) => stack != [] && stack[0] == name && Balanced(es[1..], stack[1..])
      case _ => Balanced(es[1..], stack)
  }

  datatype Placed = Placed(depth: nat, node: Content)

  /** The nodes the events stand for, when h elements are open: text outside of all elements is dropped. */
  function Outline(es: seq<Event>, h: nat): seq<Placed> {
    if es == [] then []
    else
      match es[0]
      case Opened(name, attributes) => [Placed(h + 1, Content(Element, Some(name), None, attributes))] + Outline(es[1..], h + 1)
      case Whole(name, attributes) => [Placed(h + 1, Content(Element, Some(name), None, attributes))] + Outline(es[1..], h)
      case Closed(_) => Outline(es[1..], if h == 0 then 0 else h - 1)
      case Text(text) => (if h == 0 then [] else [Placed(h + 1, NewText(Unescape(text)))]) + Outline(es[1..], h)
  }

  /** The nodes of a document with their depths. */
  function PlacedOf(doc: Doc): seq<Placed>
    requires |doc.nodes| == |doc.d|
  {
    seq(|doc.d|, k requires 0 <= k < |doc.d| => Placed(doc.d[k], doc.nodes[k]))
  }

  /** The elements from c up to the root have these names. */
  predicate Open(doc: Doc, c: nat, stack: seq<string>)
    decreases |stack|
  {
    && c < |doc.d| && c < |doc.nodes|
    && if stack == [] then c == 0 && doc.nodes[0].name == None
       else doc.nodes[c].name == Some(stack[0]) && 0 <= Parent(doc.d, c) < c && Open(doc, Parent(doc.d, c), stack[1..])
  }

  ghost predicate Inside(st: State, stack: seq<string>) {
    ValidState(st) && Open(st.doc, st.cursor, stack)
  }

  lemma {:induction false} OpenDepth(doc: Doc, c: nat, stack: seq<string>)
    requires ValidDoc(doc) && Open(doc, c, stack)
    ensures doc.d[c] == |stack|
  {
    if stack != [] {
      ParentDepth(doc.d, c);
      OpenDepth(doc, Parent(doc.d, c), stack[1..]);
    }
  }

  /** More nodes behind a document leave the open elements as they are. */
  lemma {:induction false} OpenStays(doc: Doc, c: nat, stack: seq<string>, more: Doc)
    requires |doc.d| <= |more.d| && |doc.nodes| <= |more.nodes| && more.d[..|doc.d|] == doc.d
    requires forall k :: 0 <= k < |doc.nodes| ==> more.nodes[k].name == doc.nodes[k].name
    requires Open(doc, c, stack)
    ensures Open(more, c, stack)
    decreases |stack|
  {
    if stack != [] {
      LastSpec(doc.d, c, doc.d[c] as int - 1);
      LastIs(more.d, c, doc.d[c] as int - 1, Parent(doc.d, c));
      OpenStays(doc, Parent(doc.d, c), stack[1..], more);
    }
  }

  // The parts of a tag

  /** White space, and the characters of names: letters, digits, `_`, `:`, `-`, `.` and all that are not ASCII. */
  lemma CharacterClasses(c: char)
    ensures IsSpace(c) <==> c in " \t\r\n"
    ensures IsStart(c) <==> 'a' <= c <= 'z' || 'A' <= c <= 'Z' || c in "_:" || 128 <= c as int
    ensures IsSymbol(c) <==> IsStart(c) || c in "0123456789-."
  {
  }

  predicate Symbols(s: string) { forall k :: 0 <= k < |s| ==> IsSymbol(s[k]) }

  predicate Blanks(s: string) { forall k :: 0 <= k < |s| ==> IsSpace(s[k]) }

  /** A name ends where its characters do. */
  lemma {:induction false} NameIs(s: string, n: nat)
    requires n <= |s|
    ensures NameEnd(s) == n <==> Symbols(s[..n]) && (n < |s| ==> !IsSymbol(s[n]))
  {
    if s != "" && IsSymbol(s[0]) {
      if 0 < n {
        NameIs(s[1..], n - 1);
        assert s[..n] == [s[0]] + s[1..][..n - 1];
      }
    } else if 0 < n {
      assert s[..n][0] == s[0];
    }
  }

  lemma {:induction false} SpaceIs(s: string, n: nat)
    requires n <= |s|
    ensures SkipSpace(s) == s[n..] <==> Blanks(s[..n]) && (n < |s| ==> !IsSpace(s[n]))
  {
    if s != "" && IsSpace(s[0]) {
      if 0 < n {
        SpaceIs(s[1..], n - 1);
        var t := s[1..][..n - 1];
        assert s[..n] == [s[0]] + t && s[1..][n - 1..] == s[n..];
        assert Blanks(s[..n]) <==> Blanks(t) by {
          assert forall k :: 0 <= k < |t| ==> t[k] == s[..n][k + 1];
        }
      } else {
        assert |SkipSpace(s)| < |s[0..]|;
      }
    } else if 0 < n {
      assert s[..n][0] == s[0];
    }
  }

  /** name = "value", with white space around the equals sign and either quote. */
  predicate Spelled(r: string, name: string, before: string, behind: string, q: char, v: string, rest: string) {
    && r == name + (before + ("=" + (behind + ([q] + (v + ([q] + rest))))))
    && Symbols(name) && Blanks(before) && Blanks(behind) && q in "\"'" && q !in v
    && (rest == "" || !IsStart(rest[0]))
  }

  lemma Front(a: string, b: string)
    ensures (a + b)[..|a|] == a && (a + b)[|a|..] == b
  {
  }

  lemma QuotedFits(t: string, q: char, v: string, rest: string)
    requires t == [q] + (v + ([q] + rest)) && q in "\"'" && q !in v && (rest == "" || !IsStart(rest[0]))
    ensures Quoted(t) == Some((v, rest))
  {
    FindBehind(v, q, rest);
    Assoc(v, [q], rest);
    assert t[1..] == v + ([q] + rest);
    assert t[1..|v| + 1] == v && t[|v| + 2..] == rest;
  }

  lemma EqualsFits(u: string, before: string, behind: string, t: string)
    requires u == before + ("=" + (behind + t)) && Blanks(before) && Blanks(behind) && t != "" && !IsSpace(t[0])
    ensures AfterEquals(u) == Some(t)
  {
    Front(before, "=" + (behind + t));
    SpaceIs(u, |before|);
    Front(behind, t);
    SpaceIs(behind + t, |behind|);
    Front("=", behind + t);
  }

  /** An attribute is read exactly from a text of that form: its name, and its value with the references decoded. */
  lemma AttributeFits(r: string, name: string, before: string, behind: string, q: char, v: string, rest: string)
    requires Spelled(r, name, before, behind, q, v, rest)
    ensures ReadAttribute(r) == Some(Read(Attribute(Some(name), Some(Unescape(v))), rest))
  {
    var t := [q] + (v + ([q] + rest));
    var u := before + ("=" + (behind + t));
    Front(name, u);
    NameIs(r, |name|);
    EqualsFits(u, before, behind, t);
    QuotedFits(t, q, v, rest);
  }

  lemma QuotedSplit(t: string) returns (q: char)
    requires Quoted(t).Some?
    ensures var (v, rest) := Quoted(t).value;
            t == [q] + (v + ([q] + rest)) && q in "\"'" && q !in v && (rest == "" || !IsStart(rest[0]))
  {
    q := t[0];
    var e := Find(t[1..], q);
    FindIs(t[1..], q);
    assert t[1..] == t[1..e + 1] + ([q] + t[e + 2..]);
    assert t[1..][..e] == t[1..e + 1];
  }

  lemma EqualsSplit(u: string) returns (before: string, behind: string)
    requires AfterEquals(u).Some?
    ensures u == before + ("=" + (behind + AfterEquals(u).value)) && Blanks(before) && Blanks(behind)
  {
    var n := SkipIs(u);
    var w := u[n..];
    var m := SkipIs(w[1..]);
    before, behind := u[..n], w[1..][..m];
    assert u == before + w && w[1..] == behind + w[1..][m..];
    assert w == "=" + w[1..];
  }

  lemma AttributeParts(r: string) returns (before: string, behind: string, q: char, v: string)
    requires ReadAttribute(r).Some?
    ensures var read := ReadAttribute(r).value;
            && read.a.name.Some? && Spelled(r, read.a.name.value, before, behind, q, v, read.rest)
            && read.a.value == Some(Unescape(v))
  {
    var n := NameEnd(r);
    NameIs(r, n);
    before, behind := EqualsSplit(r[n..]);
    var t := AfterEquals(r[n..]).value;
    q := QuotedSplit(t);
    v := Quoted(t).value.0;
    assert r == r[..n] + r[n..];
  }

  lemma {:induction false} SkipIs(s: string) returns (n: nat)
    ensures n <= |s| && s[n..] == SkipSpace(s) && Blanks(s[..n])
  {
    n := 0;
    if s != "" && IsSpace(s[0]) {
      var m := SkipIs(s[1..]);
      n := m + 1;
      BlanksMore(s, m, n);
    }
  }

  lemma BlanksMore(s: string, m: nat, n: nat)
    requires s != "" && IsSpace(s[0]) && n == m + 1 && n <= |s| && Blanks(s[1..][..m])
    ensures Blanks(s[..n]) && s[n..] == s[1..][m..]
  {
    forall k | 0 <= k < n ensures IsSpace(s[..n][k]) {
      if 0 < k { assert s[..n][k] == s[1..][..m][k - 1]; }
    }
  }

  lemma {:induction false} FindIs(s: string, c: char)
    ensures c !in s[..Find(s, c)] && (Find(s, c) < |s| ==> s[Find(s, c)] == c)
  {
    if s != "" && s[0] != c {
      FindIs(s[1..], c);
      assert s[..Find(s, c)] == [s[0]] + s[1..][..Find(s[1..], c)];
    }
  }

  /** A closing tag with any other name than that of the innermost open element is refused. */
  lemma OtherNameRefused(st: State, name: string, other: string, rest: string, endch: char)
    requires CursorName(st) == Some(name) && other != name && Symbols(other)
    requires rest != "" && (IsSpace(rest[0]) || rest[0] == '>')
    ensures ParseContent("</" + other + rest, st, endch) == Failed(EndElementMismatch)
  {
    var s := other + rest;
    Front(other, rest);
    NameIs(s, |other|);
    assert "</" + other + rest == "</" + s && ("</" + s)[1..] == "/" + s && ("/" + s)[1..] == s;
    assert other <= name ==> |other| < |name|;
    assert ParseEnd(s, st, endch) == Failed(EndElementMismatch);
    assert ParseTag("/" + s, st, endch) == ParseEnd(s, st, endch);
  }

  // The state of the parser

  lemma ElementPushed(st: State, stack: seq<string>, name: string, attributes: seq<Attribute>)
    requires Inside(st, stack)
    ensures var now := AddAll(Push(st, NewElement(name)), attributes);
            && Inside(now, [name] + stack)
            && PlacedOf(now.doc) == PlacedOf(st.doc) + [Placed(|stack| + 1, Content(Element, Some(name), None, attributes))]
  {
    var pushed := Push(st, NewElement(name));
    PushKeeps(st, NewElement(name));
    AddedAll(pushed, attributes);
    var now := AddAll(pushed, attributes);
    assert [] + attributes == attributes;
    OpenDepth(st.doc, st.cursor, stack);
    LastOpen(st, NewElement(name), pushed);
    OpenStays(st.doc, st.cursor, stack, now.doc);
    assert ([name] + stack)[1..] == stack;
  }

  /** The parent of a node pushed is the cursor. */
  lemma LastOpen(st: State, node: Content, now: State)
    requires ValidState(st) && now == Push(st, node)
    ensures Parent(now.doc.d, now.cursor) == st.cursor && now.doc.d[..|st.doc.d|] == st.doc.d
  {
    var d, c := st.doc.d, st.cursor;
    NxtSpec(d, c + 1, d[c]);
    LastIs(now.doc.d, |d|, d[c], c);
  }

  lemma TextPushed(st: State, stack: seq<string>, text: string)
    requires Inside(st, stack)
    ensures var now := PushText(st, text);
            Inside(now, stack) && PlacedOf(now.doc) == PlacedOf(st.doc) + [Placed(|stack| + 1, NewText(text))]
  {
    var now := PushText(st, text);
    PushKeeps(st, NewText(text));
    OpenDepth(st.doc, st.cursor, stack);
    OpenStays(st.doc, st.cursor, stack, now.doc);
  }

  lemma ElementPopped(st: State, stack: seq<string>)
    requires Inside(st, stack) && stack != []
    ensures Inside(Pop(st), stack[1..]) && Pop(st).doc == st.doc && st.cursor != 0
  {
    PopKeeps(st);
  }

  // The parser

  lemma {:induction false} AttributesLexed(s: string, st: State)
    ensures match LexAttributes(s)
            case None => ParseAttributes(s, st, '\0').Failed?
            case Some(t) =>
              var now := AddAll(st, t.attributes);
              ParseAttributes(s, st, '\0') == ParseContent(t.rest, if t.whole then Pop(now) else now, '\0')
    decreases |s|
  {
    var r := SkipSpace(s);
    if r != "" && IsStart(r[0]) {
      var read := ReadAttribute(r);
      if read.Some? {
        AttributesLexed(read.value.rest, AddAttribute(st, read.value.a));
      }
    }
  }

  /** The same for everything behind the name. */
  lemma RestLexed(s: string, st: State)
    requires IsStart(Head(s)) && s != ""
    ensures var n := NameEnd(s);
            var now := Push(st, NewElement(s[..n]));
            match LexRest(s[n..])
            case None => ParseTag(s, st, '\0').Failed?
            case Some(t) =>
              ParseTag(s, st, '\0') == ParseContent(t.rest, if t.whole then Pop(AddAll(now, t.attributes)) else AddAll(now, t.attributes), '\0')
  {
    var n := NameEnd(s);
    if n < |s| {
      assert s[n..][0] == s[n] && s[n..][1..] == s[n + 1..];
      AttributesLexed(s[n + 1..], Push(st, NewElement(s[..n])));
      if n + 1 < |s| { assert s[n..][1] == s[n + 1] && s[n..][2..] == s[n + 1..][1..]; }
    }
  }

  /** The parser accepts a text exactly if it has events and they are balanced, and builds what they stand for. */
  ghost predicate Built(r: Parsed, es: Option<seq<Event>>, st: State, stack: seq<string>)
    requires |st.doc.nodes| == |st.doc.d|
  {
    && (r.Done? <==> es.Some? && Balanced(es.value, stack))
    && (r.Done? ==>
          && r.st.cursor == 0 && ValidState(r.st)
          && PlacedOf(r.st.doc) == PlacedOf(st.doc) + Outline(es.value, |stack|))
  }

  /** What an event adds to the document, and which elements are open after it. */
  ghost predicate Follows(e: Event, st: State, stack: seq<string>, now: State, stack': seq<string>)
    requires |st.doc.nodes| == |st.doc.d| && |now.doc.nodes| == |now.doc.d|
  {
    match e
    case Opened(name, attributes) =>
      stack' == [name] + stack
      && PlacedOf(now.doc) == PlacedOf(st.doc) + [Placed(|stack| + 1, Content(Element, Some(name), None, attributes))]
    case Whole(name, attributes) =>
      stack' == stack
      && PlacedOf(now.doc) == PlacedOf(st.doc) + [Placed(|stack| + 1, Content(Element, Some(name), None, attributes))]
    case Closed(name) => stack != [] && stack[0] == name && stack' == stack[1..] && now.doc == st.doc
    case Text(text) =>
      stack' == stack
      && PlacedOf(now.doc) == PlacedOf(st.doc) + if stack == [] then [] else [Placed(|stack| + 1, NewText(Unescape(text)))]
  }

  lemma BuiltBefore(r: Parsed, e: Event, es: Option<seq<Event>>, st: State, stack: seq<string>, now: State, stack': seq<string>)
    requires |st.doc.nodes| == |st.doc.d| && |now.doc.nodes| == |now.doc.d|
    requires Built(r, es, now, stack') && Follows(e, st, stack, now, stack')
    ensures Built(r, Before(e, es), st, stack)
  {
    if es.Some? {
      assert ([e] + es.value)[1..] == es.value;
    }
  }

  lemma {:induction false} ContentBuilt(s: string, st: State, stack: seq<string>)
    requires Inside(st, stack)
    ensures Built(ParseContent(s, st, '\0'), Lex(s), st, stack)
    decreases |s|, 2
  {
    assert PlacedOf(st.doc) + [] == PlacedOf(st.doc);
    if s != "" && s[0] == '<' {
      TagBuilt(s[1..], st, stack);
    } else if s != "" {
      TextBuilt(s, st, stack);
    }
  }

  lemma {:induction false} TextBuilt(s: string, st: State, stack: seq<string>)
    requires Inside(st, stack) && s != "" && s[0] != '<'
    ensures Built(ParseContent(s, st, '\0'), Lex(s), st, stack)
    decreases |s|, 1
  {
    var now := TextFollows(s[..Find(s, '<')], st, stack);
    var r, es := TextPiece(s, st, stack, now);
    StillBuilt(r, ParseContent(s, st, '\0'), es, st, stack);
  }

  lemma {:induction false} TextPiece(s: string, st: State, stack: seq<string>, now: State) returns (r: Parsed, es: Option<seq<Event>>)
    requires Inside(st, stack) && s != "" && s[0] != '<'
    requires var text := s[..Find(s, '<')];
             && now == (if st.cursor == 0 then st else PushText(st, Unescape(text)))
             && Inside(now, stack) && Follows(Text(text), st, stack, now, stack)
    ensures es == Lex(s) && Built(r, es, st, stack)
    ensures r == ParseContent(s, st, '\0') || (r.Failed? && ParseContent(s, st, '\0').Failed?)
    decreases |s|, 0
  {
    var p := Find(s, '<');
    TextContent(s, st, now);
    TextLex(s);
    if p < |s| {
      r := ParseTag(s[p + 1..], now, '\0');
      es := Before(Text(s[..p]), LexTag(s[p + 1..]));
      TagBuilt(s[p + 1..], now, stack);
      BuiltBefore(r, Text(s[..p]), LexTag(s[p + 1..]), st, stack, now, stack);
    } else {
      r, es := Finish(now), Before(Text(s), Some([]));
      BuiltBefore(r, Text(s), Some([]), st, stack, now, stack);
    }
  }

  lemma StillBuilt(r: Parsed, now: Parsed, es: Option<seq<Event>>, st: State, stack: seq<string>)
    requires |st.doc.nodes| == |st.doc.d|
    requires Built(r, es, st, stack) && (now == r || (now.Failed? && r.Failed?))
    ensures Built(now, es, st, stack)
  {
  }

  /** Behind text the parser goes on with a tag, if there is one; a `<` at the very end is refused either way. */
  lemma TextContent(s: string, st: State, now: State)
    requires s != "" && s[0] != '<' && now == if st.cursor == 0 then st else PushText(st, Unescape(s[..Find(s, '<')]))
    ensures var p := Find(s, '<');
            var r := ParseContent(s, st, '\0');
            if p == |s| then s[..p] == s && r == Finish(now)
            else r == ParseTag(s[p + 1..], now, '\0') || (r.Failed? && ParseTag(s[p + 1..], now, '\0').Failed?)
  {
  }

  lemma TextLex(s: string)
    requires s != "" && s[0] != '<'
    ensures var p := Find(s, '<');
            Lex(s) == if p == |s| then Before(Text(s), Some([])) else Before(Text(s[..p]), LexTag(s[p + 1..]))
  {
    assert [Text(s)] + [] == [Text(s)];
  }

  lemma TextFollows(text: string, st: State, stack: seq<string>) returns (now: State)
    requires Inside(st, stack)
    ensures now == if st.cursor == 0 then st else PushText(st, Unescape(text))
    ensures Inside(now, stack) && Follows(Text(text), st, stack, now, stack)
  {
    now := if stack == [] then st else PushText(st, Unescape(text));
    TextPushed(st, stack, Unescape(text));
    assert PlacedOf(st.doc) + [] == PlacedOf(st.doc);
  }

  lemma {:induction false} TagBuilt(s: string, st: State, stack: seq<string>)
    requires Inside(st, stack)
    ensures Built(ParseTag(s, st, '\0'), LexTag(s), st, stack)
    decreases |s|, 0
  {
    if s != "" && s[0] == '/' {
      EndBuilt(s[1..], st, stack);
      assert s == "/" + s[1..];
    } else if s != "" && IsStart(s[0]) {
      StartBuilt(s, st, stack);
    }
  }

  lemma {:induction false} StartBuilt(s: string, st: State, stack: seq<string>)
    requires Inside(st, stack) && s != "" && IsStart(s[0])
    ensures Built(ParseTag(s, st, '\0'), LexTag(s), st, stack)
    decreases |s|, 0, 0
  {
    var n := NameEnd(s);
    RestLexed(s, st);
    var t := LexRest(s[n..]);
    if t.Some? {
      var name, attributes, rest := s[..n], t.value.attributes, t.value.rest;
      var now := AddAll(Push(st, NewElement(name)), attributes);
      ElementPushed(st, stack, name, attributes);
      if t.value.whole {
        ElementPopped(now, [name] + stack);
        assert ([name] + stack)[1..] == stack;
        ContentBuilt(rest, Pop(now), stack);
        BuiltBefore(ParseContent(rest, Pop(now), '\0'), Whole(name, attributes), Lex(rest), st, stack, Pop(now), stack);
      } else {
        ContentBuilt(rest, now, [name] + stack);
        BuiltBefore(ParseContent(rest, now, '\0'), Opened(name, attributes), Lex(rest), st, stack, now, [name] + stack);
      }
    }
  }

  lemma {:induction false} EndBuilt(s: string, st: State, stack: seq<string>)
    requires Inside(st, stack)
    ensures Built(ParseEnd(s, st, '\0'), LexTag("/" + s), st, stack)
    decreases |s|, 2
  {
    var m := NameEnd(s);
    var r := SkipSpace(s[m..]);
    assert ("/" + s)[1..] == s;
    if stack != [] {
      ElementPopped(st, stack);
      if r != "" && r[0] == '>' && s[..m] == stack[0] {
        ContentBuilt(r[1..], Pop(st), stack[1..]);
        BuiltBefore(ParseContent(r[1..], Pop(st), '\0'), Closed(s[..m]), Lex(r[1..]), st, stack, Pop(st), stack[1..]);
      }
    }
  }

  // Buffers

  /** Any text in a buffer whose last character stands apart, as parse_tree gets it. */
  lemma TreeBuilt(t: string, c: char, st: State, stack: seq<string>)
    requires Inside(st, stack) && c != '<'
    ensures Built(ParseContent(t, st, c), Lex(t + [c]), st, stack)
  {
    ContentBuilt(t + [c], st, stack);
    ContentEnd(t, c, st);
  }

  lemma EmptyIsInside()
    ensures Inside(Empty(), []) && PlacedOf(Empty().doc) == [Placed(0, Content(NodeType.Document, None, None, []))]
  {
  }

  predicate HasElement(es: seq<Event>) {
    exists k :: 0 <= k < |es| && (es[k].Opened? || es[k].Whole?)
  }

  predicate IsTop(p: Placed) { p.depth == 1 && p.node.kind == Element }

  lemma {:induction false} OutlineTops(es: seq<Event>)
    ensures HasElement(es) <==> exists p :: p in Outline(es, 0) && IsTop(p)
  {
    if es != [] {
      var rest := es[1..];
      if es[0].Opened? || es[0].Whole? {
        assert IsTop(Outline(es, 0)[0]);
      } else {
        OutlineTops(rest);
        assert Outline(es, 0) == Outline(rest, 0);
        if HasElement(es) {
          var k :| 0 <= k < |es| && (es[k].Opened? || es[k].Whole?);
          assert rest[k - 1] == es[k];
        }
        if HasElement(rest) {
          var k :| 0 <= k < |rest| && (rest[k].Opened? || rest[k].Whole?);
          assert es[k + 1] == rest[k];
        }
      }
    }
  }

  lemma TopElements(doc: Doc, es: seq<Event>, root: Content)
    requires ValidDoc(doc) && PlacedOf(doc) == [Placed(0, root)] + Outline(es, 0)
    ensures HasTopElement(doc) <==> HasElement(es)
  {
    OutlineTops(es);
    var ps, rest := PlacedOf(doc), Outline(es, 0);
    if HasTopElement(doc) {
      var k :| 0 <= k < |doc.d| && IsTopElement(doc, k);
      ParentDepth(doc.d, k);
      assert ps[k] == rest[k - 1] && rest[k - 1] in rest && IsTop(ps[k]);
    }
    if HasElement(es) {
      var p :| p in rest && IsTop(p);
      var k :| 0 <= k < |rest| && rest[k] == p;
      assert ps[k + 1] == p;
      ParentDepth(doc.d, k + 1);
      assert IsTopElement(doc, k + 1);
    }
  }

  /** xml_parser::parse: it accepts a buffer exactly if its text has balanced events, loads it exactly if an element is among
      them, and the document is the one they stand for. */
  method ParseEvents(buffer: string) returns (r: Load)
    ensures var es := Lex(SkipBom(Visible(buffer)));
            && (r.BadText? <==> es.None? || !Balanced(es.value, []))
            && (r.Loaded? <==> es.Some? && Balanced(es.value, []) && HasElement(es.value))
            && (r.Loaded? ==>
                  && |r.doc.nodes| == |r.doc.d|
                  && PlacedOf(r.doc) == [Placed(0, Content(NodeType.Document, None, None, []))] + Outline(es.value, 0))
  {
    ghost var s := SkipBom(Visible(buffer));
    EmptyIsInside();
    ContentBuilt(s, Empty(), []);
    r := Parse(buffer);
    ghost var whole := ParseWhole(s, Empty());
    if whole.Done? {
      TopElements(whole.st.doc, Lex(s).value, Content(NodeType.Document, None, None, []));
    }
  }
}
