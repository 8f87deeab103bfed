/**
 Parsing elements, attributes and text (flags parse_escapes | parse_ws_pcdata).  The document is
 built in document order: a new node always goes behind all others, one level below the cursor.
 Text is given without its terminating zero; `endch` is the last character of the buffer, which
 the caller overwrote with that zero.
 */
module Parser {
  import opened Basics
  import opened Shape
  import opened Dom
  import opened XPathData
  import opened Escape
  import opened Printer

  predicate IsSpace(c: char) {
    c == ' ' || c == '\t' || c == '\r' || c == '\n'
  }

  /** ct_start_symbol */
  predicate IsStart(c: char) {
    'a' <= c <= 'z' || 'A' <= c <= 'Z' || c == '_' || c == ':' || c as int >= 128
  }

  /** ct_symbol */
  predicate IsSymbol(c: char) {
    IsStart(c) || IsDigit(c) || c == '-' || c == '.'
  }

  /** The document so far, and the position of the node whose children are being read. */
  datatype State = State(doc: Doc, cursor: nat)

  /** The cursor is the last node or above it, so that new children of the cursor come last. */
  ghost predicate ValidState(st: State) {
    ValidDoc(st.doc) && st.cursor < |st.doc.d| && End(st.doc.d, st.cursor) == |st.doc.d|
  }

  /** xml_parse_status; OtherMarkup stands for whatever comes of a tag that begins with `?` or `!`. */
  datatype Status = BadStartElement | BadAttribute | EndElementMismatch | BadEndElement | BadPi | UnrecognizedTag | OtherMarkup

  datatype Parsed = Done(st: State) | Failed(status: Status)

  function Level(st: State): nat {
    if st.cursor < |st.doc.d| then st.doc.d[st.cursor] else 0
  }

  /** PUGI__PUSHNODE: the new node becomes the cursor. */
  function Push(st: State, node: Content): State {
    State(Doc(st.doc.d + [Level(st) + 1], st.doc.nodes + [node]), |st.doc.d|)
  }

  /** PUGI__POPNODE */
  function Pop(st: State): State {
    if st.cursor < |st.doc.d| && 0 <= Parent(st.doc.d, st.cursor) then st.(cursor := Parent(st.doc.d, st.cursor)) else st
  }

  function NewElement(name: string): Content {
    Content(Element, Some(name), None, [])
  }

  function NewText(text: string): Content {
    Content(Pcdata, None, Some(text), [])
  }

  /** Text becomes a node of its own, which is popped right away. */
  function PushText(st: State, text: string): State {
    Push(st, NewText(text)).(cursor := st.cursor)
  }

  /** append_new_attribute to the element at the cursor */
  function AddAttribute(st: State, a: Attribute): State {
    if st.cursor < |st.doc.nodes| then
      var node := st.doc.nodes[st.cursor];
      st.(doc := st.doc.(nodes := st.doc.nodes[st.cursor := node.(attributes := node.attributes + [a])]))
    else st
  }

  /** The name of the element at the cursor; a document has none. */
  function CursorName(st: State): Option<string> {
    if st.cursor < |st.doc.nodes| then st.doc.nodes[st.cursor].name else None
  }

  function NameEnd(s: string): (n: nat)
    ensures n <= |s|
  {
    if s != "" && IsSymbol(s[0]) then 1 + NameEnd(s[1..]) else 0
  }

  function SkipSpace(s: string): (r: string)
    ensures |r| <= |s|
  {
    if s != "" && IsSpace(s[0]) then SkipSpace(s[1..]) else s
  }

  function Tail(s: string): (r: string)
    ensures |r| <= |s| && (s != "" ==> |r| == |s| - 1)
  {
    if s == "" then "" else s[1..]
  }

  // The parser as a function of the rest of the text.

  /** The end of the input. */
  function Finish(st: State): Parsed {
    if st.cursor != 0 then Failed(EndElementMismatch) else Done(st)
  }

  /** The main loop of parse_tree; text that is kept swallows the `<` behind it, and may end the input with it. */
  function ParseContent(s: string, st: State, endch: char): Parsed
    decreases |s|, 1
  {
    if s == "" then Finish(st)
    else if s[0] == '<' then ParseTag(s[1..], st, endch)
    else
      var t := Find(s, '<');
      var st' := if st.cursor != 0 then PushText(st, Unescape(s[..t])) else st;
      if t == |s| || (st.cursor != 0 && t + 1 == |s|) then Finish(st') else ParseTag(s[t + 1..], st', endch)
  }

  /** LOC_TAG: behind a `<`. */
  function ParseTag(s: string, st: State, endch: char): Parsed
    decreases |s|, 0
  {
    if s == "" then Failed(if endch == '?' then BadPi else UnrecognizedTag)
    else if IsStart(s[0]) then
      var n := NameEnd(s);
      var st' := Push(st, NewElement(s[..n]));
      if n == |s| then (if endch == '>' then Finish(st') else Failed(BadStartElement))
      else
        var r := s[n + 1..];
        if s[n] == '>' then ParseContent(r, st', endch)
        else if IsSpace(s[n]) then ParseAttributes(r, st', endch)
        else if s[n] == '/' then EmptyElement(r, st', endch)
        else Failed(BadStartElement)
    else if s[0] == '/' then ParseEnd(s[1..], st, endch)
    else if s[0] == '?' || s[0] == '!' then Failed(OtherMarkup)
    else Failed(UnrecognizedTag)
  }

  /** Behind the slash of an empty element. */
  function EmptyElement(s: string, st: State, endch: char): Parsed
    decreases |s|, 2
  {
    if s == "" then (if endch == '>' then Finish(Pop(st)) else Failed(BadStartElement))
    else if s[0] == '>' then ParseContent(s[1..], Pop(st), endch)
    else Failed(BadStartElement)
  }

  /** A closing tag, behind its slash: the name must be that of the element at the cursor. */
  function ParseEnd(s: string, st: State, endch: char): Parsed
    decreases |s|, 0
  {
    var m := NameEnd(s);
    match CursorName(st)
    case None => Failed(EndElementMismatch)
    case Some(name) =>
      if !(s[..m] <= name) then Failed(EndElementMismatch)
      else if m < |name| then Failed(if m == |s| && name[m..] == [endch] then BadEndElement else EndElementMismatch)
      else
        var r := SkipSpace(s[m..]);
        if r == "" then (if endch == '>' then Finish(Pop(st)) else Failed(BadEndElement))
        else if r[0] == '>' then ParseContent(r[1..], Pop(st), endch)
        else Failed(BadEndElement)
  }

  /** LOC_ATTRIBUTES */
  function ParseAttributes(s: string, st: State, endch: char): Parsed
    decreases |s|, 3
  {
    var r := SkipSpace(s);
    if r == "" then (if endch == '>' then Finish(st) else Failed(BadStartElement))
    else if IsStart(r[0]) then
      match ReadAttribute(r)
      case None => Failed(BadAttribute)
      case Some(read) => ParseAttributes(read.rest, AddAttribute(st, read.a), endch)
    else if r[0] == '/' then EmptyElement(r[1..], st, endch)
    else if r[0] == '>' then ParseContent(r[1..], st, endch)
    else Failed(BadStartElement)
  }

  datatype Read = Read(a: Attribute, rest: string)

  /** Behind an attribute name: what follows the equals sign, with space around it skipped. */
  function AfterEquals(r: string): (v: Option<string>)
    ensures v.Some? ==> |v.value| < |r|
  {
    var u := if r != "" && IsSpace(r[0]) then SkipSpace(r[1..]) else r;
    if u == "" || u[0] != '=' then None else Some(SkipSpace(u[1..]))
  }

  /** A quoted value and what follows it; another attribute may not follow without a space. */
  function Quoted(v: string): (q: Option<(string, string)>)
    ensures q.Some? ==> |q.value.1| < |v|
  {
    if v == "" || (v[0] != '"' && v[0] != '\'') then None
    else
      var e := Find(v[1..], v[0]);
      if e == |v| - 1 then None
      else if v[e + 2..] != "" && IsStart(v[e + 2..][0]) then None
      else Some((v[1..e + 1], v[e + 2..]))
  }

  /** One attribute: name, equals sign, quoted value. */
  function ReadAttribute(r: string): (read: Option<Read>)
    ensures read.Some? ==> |read.value.rest| < |r|
  {
    var n := NameEnd(r);
    match AfterEquals(r[n..])
    case None => None
    case Some(v) =>
      match Quoted(v)
      case None => None
      case Some(q) => Some(Read(Attribute(Some(r[..n]), Some(Unescape(q.0))), q.1))
  }

  // The parser as the loops of parse_tree.

  method ScanName(s: string, k: nat) returns (e: nat)
    requires k <= |s|
    ensures k <= e <= |s| && e == k + NameEnd(s[k..])
  {
    e := k;
    while e < |s| && IsSymbol(s[e])
      invariant k <= e <= |s| && e + NameEnd(s[e..]) == k + NameEnd(s[k..])
    {
      assert s[e..][1..] == s[e + 1..];
      e := e + 1;
    }
  }

  method ScanSpace(s: string, k: nat) returns (e: nat)
    requires k <= |s|
    ensures k <= e <= |s| && s[e..] == SkipSpace(s[k..])
  {
    e := k;
    while e < |s| && IsSpace(s[e])
      invariant k <= e <= |s| && SkipSpace(s[e..]) == SkipSpace(s[k..])
    {
      assert s[e..][1..] == s[e + 1..];
      e := e + 1;
    }
  }

  method ScanFor(s: string, k: nat, c: char) returns (e: nat)
    requires k <= |s|
    ensures k <= e <= |s| && e == k + Find(s[k..], c)
  {
    e := k;
    while e < |s| && s[e] != c
      invariant k <= e <= |s| && e + Find(s[e..], c) == k + Find(s[k..], c)
    {
      assert s[e..][1..] == s[e + 1..];
      e := e + 1;
    }
  }

  lemma PushKeeps(st: State, node: Content)
    requires ValidState(st)
    ensures ValidState(Push(st, node)) && ValidState(Push(st, node).(cursor := st.cursor))
  {
    var d, d' := st.doc.d, Push(st, node).doc.d;
    AppendSlot(d, st.cursor);
    assert d' == Graft(d, |d|, [0], d[st.cursor] + 1);
    GraftWellFormed(d, |d|, [0], d[st.cursor] + 1, d');
    NxtSpec(d, st.cursor + 1, d[st.cursor]);
    NxtIs(d', st.cursor + 1, d'[st.cursor], |d'|);
  }

  lemma PopKeeps(st: State)
    requires ValidState(st)
    ensures ValidState(Pop(st))
  {
    if 0 <= Parent(st.doc.d, st.cursor) {
      if 0 < st.cursor { ParentDepth(st.doc.d, st.cursor); }
      NextInside(st.doc.d, Parent(st.doc.d, st.cursor), st.cursor);
    }
  }

  lemma AddKeeps(st: State, a: Attribute)
    requires ValidState(st)
    ensures ValidState(AddAttribute(st, a))
  {
  }

  /** Where a part of the loop leaves off. */
  datatype Outcome = Next(k: nat, st: State) | Error(status: Status)

  /** What the rest of the text parses to, if a part of the loop has this outcome. */
  function Continue(s: string, outcome: Outcome, endch: char): Parsed
    requires outcome.Next? ==> outcome.k <= |s|
  {
    match outcome
    case Next(k, st) => ParseContent(s[k..], st, endch)
    case Error(status) => Failed(status)
  }

  /** The outcome is a valid state, not before position k. */
  ghost predicate ValidOutcome(s: string, k: nat, outcome: Outcome) {
    outcome.Next? ==> k <= outcome.k <= |s| && ValidState(outcome.st)
  }

  lemma AtEnd(s: string, st: State, endch: char)
    ensures Continue(s, Next(|s|, st), endch) == Finish(st)
  {
  }

  method ReadEmptyElement(s: string, k: nat, st: State, endch: char) returns (outcome: Outcome)
    requires k <= |s| && ValidState(st)
    ensures ValidOutcome(s, k, outcome) && Continue(s, outcome, endch) == EmptyElement(s[k..], st, endch)
  {
    PopKeeps(st);
    AtEnd(s, Pop(st), endch);
    if k == |s| {
      outcome := if endch == '>' then Next(k, Pop(st)) else Error(BadStartElement);
    } else if s[k] == '>' {
      assert s[k..][1..] == s[k + 1..];
      outcome := Next(k + 1, Pop(st));
    } else {
      outcome := Error(BadStartElement);
    }
  }

  method ReadEquals(s: string, k: nat) returns (v: Option<nat>)
    requires k <= |s|
    ensures v.None? ==> AfterEquals(s[k..]).None?
    ensures v.Some? ==> k < v.value <= |s| && AfterEquals(s[k..]) == Some(s[v.value..])
  {
    var u := k;
    if k < |s| && IsSpace(s[k]) {
      assert s[k..][1..] == s[k + 1..];
      u := ScanSpace(s, k + 1);
    }
    if u == |s| || s[u] != '=' {
      return None;
    }
    assert s[u..][1..] == s[u + 1..];
    var e := ScanSpace(s, u + 1);
    v := Some(e);
  }

  method ReadQuoted(s: string, v: nat) returns (e: Option<nat>)
    requires v <= |s|
    ensures e.None? ==> Quoted(s[v..]).None?
    ensures e.Some? ==> v < e.value < |s| && Quoted(s[v..]) == Some((s[v + 1..e.value], s[e.value + 1..]))
  {
    if v == |s| || (s[v] != '"' && s[v] != '\'') {
      return None;
    }
    ghost var w := s[v..];
    assert w[1..] == s[v + 1..];
    var q := ScanFor(s, v + 1, s[v]);
    if q == |s| {
      return None;
    }
    assert w[q - v + 1..] == s[q + 1..] && w[1..q - v] == s[v + 1..q];
    if q + 1 < |s| && IsStart(s[q + 1]) {
      return None;
    }
    e := Some(q);
  }

  lemma ReadAttributeIs(r: string, name: string, u: string, v: string, text: string, rest: string)
    requires |name| == NameEnd(r) && r == name + u && AfterEquals(u) == Some(v) && Quoted(v) == Some((text, rest))
    ensures ReadAttribute(r) == Some(Read(Attribute(Some(name), Some(Unescape(text))), rest))
  {
    assert r[..|name|] == name && r[|name|..] == u;
  }

  lemma ReadAttributeFails(r: string, name: string, u: string)
    requires |name| == NameEnd(r) && r == name + u
    requires match AfterEquals(u) case None => true case Some(v) => Quoted(v).None?
    ensures ReadAttribute(r).None?
  {
    assert r[|name|..] == u;
  }

  /** The equals sign and the value, behind a name. */
  method ReadValue(s: string, n: nat, name: string, ghost r: string) returns (read: Option<Read>, k: nat)
    requires n <= |s| && |name| == NameEnd(r) && r == name + s[n..]
    ensures read == ReadAttribute(r)
    ensures read.Some? ==> n < k <= |s| && read.value.rest == s[k..]
  {
    k := n;
    var v := ReadEquals(s, n);
    if v.None? {
      ReadAttributeFails(r, name, s[n..]);
      return None, n;
    }
    var e := ReadQuoted(s, v.value);
    if e.None? {
      ReadAttributeFails(r, name, s[n..]);
      return None, n;
    }
    k := e.value + 1;
    var text, rest := s[v.value + 1..e.value], s[k..];
    ReadAttributeIs(r, name, s[n..], s[v.value..], text, rest);
    read := Some(Read(Attribute(Some(name), Some(Unescape(text))), rest));
  }

  method ReadOneAttribute(s: string, k0: nat) returns (read: Option<Read>, k: nat)
    requires k0 < |s|
    ensures read == ReadAttribute(s[k0..])
    ensures read.Some? ==> k0 < k <= |s| && read.value.rest == s[k..]
  {
    var n := ScanName(s, k0);
    assert s[k0..] == s[k0..n] + s[n..];
    read, k := ReadValue(s, n, s[k0..n], s[k0..]);
  }

  method ReadAttributes(s: string, k0: nat, st0: State, endch: char) returns (outcome: Outcome)
    requires k0 <= |s| && ValidState(st0)
    ensures ValidOutcome(s, k0, outcome) && Continue(s, outcome, endch) == ParseAttributes(s[k0..], st0, endch)
  {
    var k, st := k0, st0;
    while true
      invariant k0 <= k <= |s| && ValidState(st)
      invariant ParseAttributes(s[k..], st, endch) == ParseAttributes(s[k0..], st0, endch)
      decreases |s| - k
    {
      var r := ScanSpace(s, k);
      AtEnd(s, st, endch);
      if r == |s| {
        return if endch == '>' then Next(r, st) else Error(BadStartElement);
      }
      if IsStart(s[r]) {
        var read, next := ReadOneAttribute(s, r);
        if read.None? {
          return Error(BadAttribute);
        }
        AddKeeps(st, read.value.a);
        k, st := next, AddAttribute(st, read.value.a);
      } else {
        assert s[r..][1..] == s[r + 1..];
        if s[r] == '/' {
          outcome := ReadEmptyElement(s, r + 1, st, endch);
        } else if s[r] == '>' {
          outcome := Next(r + 1, st);
        } else {
          outcome := Error(BadStartElement);
        }
        return;
      }
    }
  }

  method ReadEnd(s: string, k: nat, st: State, endch: char) returns (outcome: Outcome)
    requires k <= |s| && ValidState(st)
    ensures ValidOutcome(s, k, outcome) && Continue(s, outcome, endch) == ParseEnd(s[k..], st, endch)
  {
    var cursorName := CursorName(st);
    if cursorName.None? {
      return Error(EndElementMismatch);
    }
    var name := cursorName.value;
    var m := ScanName(s, k);
    ghost var u := s[k..];
    assert u[..m - k] == s[k..m] && u[m - k..] == s[m..];
    if !(s[k..m] <= name) {
      return Error(EndElementMismatch);
    }
    if m - k < |name| {
      return Error(if m == |s| && name[m - k..] == [endch] then BadEndElement else EndElementMismatch);
    }
    PopKeeps(st);
    AtEnd(s, Pop(st), endch);
    var r := ScanSpace(s, m);
    if r == |s| {
      return if endch == '>' then Next(r, Pop(st)) else Error(BadEndElement);
    }
    if s[r] != '>' {
      return Error(BadEndElement);
    }
    assert s[r..][1..] == s[r + 1..];
    return Next(r + 1, Pop(st));
  }

  method ReadTag(s: string, k: nat, st: State, endch: char) returns (outcome: Outcome)
    requires k <= |s| && ValidState(st)
    ensures ValidOutcome(s, k, outcome) && Continue(s, outcome, endch) == ParseTag(s[k..], st, endch)
  {
    if k == |s| {
      return Error(if endch == '?' then BadPi else UnrecognizedTag);
    }
    if IsStart(s[k]) {
      outcome := ReadStart(s, k, st, endch);
    } else if s[k] == '/' {
      assert s[k..][1..] == s[k + 1..];
      outcome := ReadEnd(s, k + 1, st, endch);
    } else if s[k] == '?' || s[k] == '!' {
      outcome := Error(OtherMarkup);
    } else {
      outcome := Error(UnrecognizedTag);
    }
  }

  /** What comes of a start tag is decided by the character behind its name. */
  lemma StartTagIs(u: string, n: nat, st: State, st': State, endch: char)
    requires u != "" && IsStart(u[0]) && n == NameEnd(u) && st' == Push(st, NewElement(u[..n]))
    ensures ParseTag(u, st, endch) ==
            if n == |u| then (if endch == '>' then Finish(st') else Failed(BadStartElement))
            else if u[n] == '>' then ParseContent(u[n + 1..], st', endch)
            else if IsSpace(u[n]) then ParseAttributes(u[n + 1..], st', endch)
            else if u[n] == '/' then EmptyElement(u[n + 1..], st', endch)
            else Failed(BadStartElement)
  {
  }

  method ReadStart(s: string, k: nat, st: State, endch: char) returns (outcome: Outcome)
    requires k < |s| && ValidState(st) && IsStart(s[k])
    ensures ValidOutcome(s, k, outcome) && Continue(s, outcome, endch) == ParseTag(s[k..], st, endch)
  {
    var n := ScanName(s, k);
    var st' := Push(st, NewElement(s[k..n]));
    PushKeeps(st, NewElement(s[k..n]));
    AtEnd(s, st', endch);
    ghost var u := s[k..];
    assert u[..n - k] == s[k..n];
    StartTagIs(u, n - k, st, st', endch);
    if n == |s| {
      return if endch == '>' then Next(n, st') else Error(BadStartElement);
    }
    assert u[n - k + 1..] == s[n + 1..] && u[n - k] == s[n];
    if s[n] == '>' {
      outcome := Next(n + 1, st');
    } else if IsSpace(s[n]) {
      outcome := ReadAttributes(s, n + 1, st', endch);
    } else if s[n] == '/' {
      outcome := ReadEmptyElement(s, n + 1, st', endch);
    } else {
      outcome := Error(BadStartElement);
    }
  }

  /** Text up to the next tag; it is kept unless it stands outside of all elements. */
  method ReadText(s: string, k: nat, st0: State) returns (t: nat, st: State)
    requires k <= |s| && ValidState(st0)
    ensures k <= t <= |s| && t == k + Find(s[k..], '<') && ValidState(st)
    ensures st == if st0.cursor != 0 then PushText(st0, Unescape(s[k..][..t - k])) else st0
  {
    t := ScanFor(s, k, '<');
    st := st0;
    assert s[k..][..t - k] == s[k..t];
    if st.cursor != 0 {
      PushKeeps(st, NewText(Unescape(s[k..t])));
      st := PushText(st, Unescape(s[k..t]));
    }
  }

  /** parse_tree; whatever the text, what has been built is a tree. */
  method ParseTree(s: string, st0: State, endch: char) returns (r: Parsed)
    requires ValidState(st0)
    ensures r == ParseContent(s, st0, endch)
    ensures r.Done? ==> ValidState(r.st)
  {
    var k, st := 0, st0;
    assert s[0..] == s;
    while k < |s|
      invariant k <= |s| && ValidState(st)
      invariant ParseContent(s[k..], st, endch) == ParseContent(s, st0, endch)
    {
      ghost var u, k0 := s[k..], k;
      if s[k] == '<' {
        k := k + 1;
      } else {
        var t;
        t, st := ReadText(s, k, st);
        if t == |s| || (st.cursor != 0 && t + 1 == |s|) {
          return Finish(st);
        }
        k := t + 1;
      }
      assert u[k - k0..] == s[k..];
      assert ParseTag(s[k..], st, endch) == ParseContent(s, st0, endch);
      var outcome := ReadTag(s, k, st, endch);
      match outcome {
        case Error(status) => return Failed(status);
        case Next(next, state) => k, st := next, state;
      }
    }
    return Finish(st);
  }
}
