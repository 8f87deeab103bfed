/**
 Serialization of a tree without indentation (format_raw): the reference rendering, by recursion
 over subtrees, and the loop of node_output, which follows parent and sibling pointers instead.
 */
module Printer {
  import opened Basics
  import opened Guard
  import opened Shape
  import opened Dom
  import opened XPathData
  import opened Axes
  import opened Escape

  // Each guarded definition below has its own number.
  const WRITING: nat := 1
  const WRITTEN: nat := 2

  const ANONYMOUS := ":anonymous"

  function NameText(name: Option<string>): string {
    if name.Some? then name.value else ANONYMOUS
  }

  function AttributeText(a: Attribute): string {
    " " + NameText(a.name) + "=\"" + (if a.value.Some? then Escaped(a.value.value, true) else "") + "\""
  }

  /** node_output_attributes */
  function AttributesText(attributes: seq<Attribute>): string {
    if attributes == [] then "" else AttributeText(attributes[0]) + AttributesText(attributes[1..])
  }

  /** node_output_start for an element; without children and text it is closed right away. */
  function Opening(node: Content, hasChildren: bool): string {
    var name := NameText(node.name);
    var start := "<" + name + AttributesText(node.attributes);
    if node.value.None? then start + (if hasChildren then ">" else "/>")
    else start + ">" + Escaped(node.value.value, false) + (if hasChildren then "" else "</" + name + ">")
  }

  /** node_output_end */
  function Closing(node: Content): string {
    "</" + NameText(node.name) + ">"
  }

  /** The body of a comment: no "--", and no "-" at the end. */
  function CommentText(s: string): string {
    if s == "" then ""
    else if s[0] == '-' && (|s| == 1 || s[1] == '-') then "- " + CommentText(s[1..])
    else [s[0]] + CommentText(s[1..])
  }

  /** The value of a processing instruction: no "?>". */
  function PiText(s: string): string {
    if s == "" then ""
    else if s[0] == '?' && |s| > 1 && s[1] == '>' then "? >" + PiText(s[2..])
    else [s[0]] + PiText(s[1..])
  }

  /** node_output_simple */
  function Simple(node: Content): string {
    match node.kind
    case Pcdata => Escaped(NameOr(node.value), false)
    case Cdata => WrapAll(Sections(NameOr(node.value), 0))
    case Comment => "<!--" + CommentText(NameOr(node.value)) + "-->"
    case Pi => "<?" + NameText(node.name) + (if node.value.Some? then " " + PiText(node.value.value) else "") + "?>"
    case Declaration => "<?" + NameText(node.name) + AttributesText(node.attributes) + "?>"
    case Doctype => "<!DOCTYPE" + (if node.value.Some? then " " + node.value.value else "") + ">"
    case _ => ""
  }

  /** The text of the subtree of node i. */
  function Render(doc: Doc, i: nat): string
    requires |doc.nodes| == |doc.d| && i < |doc.d|
    decreases |doc.d| - i, 0
  {
    var node := doc.nodes[i];
    if node.kind == Element then
      if FirstChild(doc.d, i) == -1 then Opening(node, false)
      else Opening(node, true) + RenderList(doc, i + 1, End(doc.d, i)) + Closing(node)
    else if node.kind == NodeType.Document then RenderList(doc, i + 1, End(doc.d, i))
    else Simple(node)
  }

  /** The subtrees of the siblings from position k up to e. */
  function RenderList(doc: Doc, k: nat, e: nat): string
    requires |doc.nodes| == |doc.d| && e <= |doc.d|
    decreases |doc.d| - k, 1
  {
    if k >= e then "" else Render(doc, k) + RenderList(doc, End(doc.d, k), e)
  }

  /** What node_output still has to write after the subtree of p, when it is writing the subtree of i. */
  function After(doc: Doc, i: nat, p: nat): string
    requires ValidDoc(doc) && i <= p < |doc.d| && p < End(doc.d, i)
    decreases |doc.d| - End(doc.d, p), doc.d[p]
  {
    if p == i then ""
    else
      NextInside(doc.d, i, p); ParentInside(doc.d, i, p);
      var next := NextSibling(doc.d, p);
      if next != -1 then Render(doc, next) + After(doc, i, next)
      else
        EndOfLastChild(doc.d, p);
        var up := Parent(doc.d, p);
        (if doc.nodes[up].kind == Element then Closing(doc.nodes[up]) else "") + After(doc, i, up)
  }

  function Close(node: Content): string {
    if node.kind == Element then Closing(node) else ""
  }

  /** A child and what comes after it are the rest of the child list and what comes after the parent. */
  lemma {:induction false} AfterChild(doc: Doc, i: nat, k: nat)
    requires ValidDoc(doc) && i < k < |doc.d| && k < End(doc.d, i)
    ensures var up := Parent(doc.d, k);
            && i <= up < k && up < End(doc.d, i)
            && Render(doc, k) + After(doc, i, k)
               == RenderList(doc, k, End(doc.d, up)) + (Close(doc.nodes[up]) + After(doc, i, up))
    decreases |doc.d| - k
  {
    var d, up, next := doc.d, Parent(doc.d, k), NextSibling(doc.d, k);
    ParentInside(d, i, k);
    NextInside(d, i, k);
    ParentDepth(d, k);
    if up != i { NextInside(d, i, up); }
    NextInside(d, up, k);
    if next == -1 {
      EndOfLastChild(d, k);
      assert RenderList(doc, k, End(d, up)) == Render(doc, k) + "";
    } else {
      NextThenPrev(d, k);
      AfterChild(doc, i, next);
      Assoc(Render(doc, k), RenderList(doc, next, End(d, up)), Close(doc.nodes[up]) + After(doc, i, up));
    }
  }

  /** Going down to the first child. */
  lemma Descend(doc: Doc, i: nat, p: nat)
    requires ValidDoc(doc) && i <= p < |doc.d| && p < End(doc.d, i) && FirstChild(doc.d, p) != -1
    ensures p + 1 < End(doc.d, i)
    ensures Render(doc, p + 1) + After(doc, i, p + 1)
            == RenderList(doc, p + 1, End(doc.d, p)) + (Close(doc.nodes[p]) + After(doc, i, p))
  {
    FirstInside(doc.d, i, p);
    AfterChildOf(doc, i, p + 1, p);
  }

  /** The same with the parent named. */
  lemma AfterChildOf(doc: Doc, i: nat, k: nat, up: nat)
    requires ValidDoc(doc) && i <= up < k < |doc.d| && k < End(doc.d, i) && up == Parent(doc.d, k)
    ensures up < End(doc.d, i)
    ensures Render(doc, k) + After(doc, i, k) == RenderList(doc, k, End(doc.d, up)) + (Close(doc.nodes[up]) + After(doc, i, up))
  {
    AfterChild(doc, i, k);
  }

  lemma FirstInside(d: Depths, i: nat, p: nat)
    requires WellFormed(d) && i <= p < |d| && p < End(d, i) && FirstChild(d, p) != -1
    ensures p + 1 < |d| && Parent(d, p + 1) == p && p + 1 < End(d, i)
  {
    LastChildParent(d, p);
    LastChild(d, p);
    if p != i { NextInside(d, i, p); }
    NxtSpec(d, p + 1, d[p]);
  }

  /** `out` is what has been written, and the subtree of p comes next. */
  ghost predicate Writing(doc: Doc, i: nat, p: nat, out: string)
    requires ValidDoc(doc) && i < |doc.d|
  {
    && i <= p < |doc.d| && p < End(doc.d, i)
    && forall k :: Unfold(k) && k == WRITING ==> out + (Render(doc, p) + After(doc, i, p)) == Render(doc, i)
  }

  /** `out` is what has been written, including the subtree of p. */
  ghost predicate Written(doc: Doc, i: nat, p: nat, out: string)
    requires ValidDoc(doc) && i < |doc.d|
  {
    && i <= p < |doc.d| && p < End(doc.d, i)
    && forall k :: Unfold(k) && k == WRITTEN ==> out + After(doc, i, p) == Render(doc, i)
  }

  lemma WritingNode(doc: Doc, i: nat, p: nat, out: string)
    requires ValidDoc(doc) && i < |doc.d| && Writing(doc, i, p, out)
    ensures var node, hasChildren := doc.nodes[p], FirstChild(doc.d, p) != -1;
            && (node.kind == Element && hasChildren ==> Writing(doc, i, p + 1, out + Opening(node, true)))
            && (node.kind == Element && !hasChildren ==> Written(doc, i, p, out + Opening(node, false)))
            && (node.kind == NodeType.Document && hasChildren ==> Writing(doc, i, p + 1, out))
            && (node.kind == NodeType.Document && !hasChildren ==> Written(doc, i, p, out))
            && (node.kind != Element && node.kind != NodeType.Document ==> Written(doc, i, p, out + Simple(node)))
  {
    assert Unfold(WRITING) && Unfold(WRITTEN);
    var node, e := doc.nodes[p], End(doc.d, p);
    AppendSlot(doc.d, p);
    if FirstChild(doc.d, p) != -1 && (node.kind == Element || node.kind == NodeType.Document) {
      Descend(doc, i, p);
      var list, rest := RenderList(doc, p + 1, e), After(doc, i, p);
      Assoc(list, Close(node), rest);
      if node.kind == Element {
        Assoc(Opening(node, true), list, Closing(node));
        Assoc(Opening(node, true), list + Closing(node), rest);
        Assoc(out, Opening(node, true), (list + Closing(node)) + rest);
      } else {
        assert list + "" == list;
      }
    } else {
      var text := if node.kind == Element then Opening(node, false) else Simple(node);
      assert Render(doc, p) == text;
      Assoc(out, text, After(doc, i, p));
      assert out + "" == out;
    }
  }

  lemma WrittenNext(doc: Doc, i: nat, p: nat, out: string)
    requires ValidDoc(doc) && i < |doc.d| && Written(doc, i, p, out) && p != i
    ensures var next, up := NextSibling(doc.d, p), Parent(doc.d, p);
            if next != -1 then p < next < |doc.d| && Writing(doc, i, next, out)
            else i <= up < p && Written(doc, i, up, out + Close(doc.nodes[up]))
  {
    assert Unfold(WRITING) && Unfold(WRITTEN);
    var next, up := NextSibling(doc.d, p), Parent(doc.d, p);
    NextInside(doc.d, i, p);
    ParentInside(doc.d, i, p);
    if next == -1 {
      EndOfLastChild(doc.d, p);
      if up != i { NextInside(doc.d, i, up); } else { NxtSpec(doc.d, i + 1, doc.d[i]); }
      assert up < End(doc.d, i);
      assert After(doc, i, p) == Close(doc.nodes[up]) + After(doc, i, up);
      Assoc(out, Close(doc.nodes[up]), After(doc, i, up));
    } else {
      assert After(doc, i, p) == Render(doc, next) + After(doc, i, next);
    }
  }

  /** The inner loop of node_output: on to the next node, closing elements on the way up. */
  method ToNextNode(node0: XmlNode, root: XmlNode, out0: string, ghost order: seq<XmlNode>, ghost d: Depths, ghost i: nat, ghost p0: nat)
    returns (node: XmlNode, out: string, ghost p: nat)
    requires Linked(order, d) && i < |order| && order[i] == root && p0 < |order| && order[p0] == node0
    requires Written(DocOf(order, d), i, p0, out0)
    ensures if node == root then out == Render(DocOf(order, d), i)
            else p0 < p < |order| && node == order[p] && Writing(DocOf(order, d), i, p, out)
  {
    ghost var doc := DocOf(order, d);
    node, out, p := node0, out0, p0;
    while node != root
      invariant p <= p0 && node == order[p] && Written(doc, i, p, out) && End(d, p) == End(d, p0)
      decreases p
    {
      Position(order, p, i);
      LinksOfNode(order, d, p);
      WrittenNext(doc, i, p, out);
      NxtSpec(d, p0 + 1, d[p0]);
      if node.nextSibling != null {
        node := node.nextSibling;
        p := NextSibling(d, p);
        Position(order, p, i);
        return;
      }
      EndOfLastChild(d, p);
      node := node.parent;
      p := Parent(d, p);
      if node.kind == Element {
        out := out + Closing(ContentOf(node));
      } else {
        assert out + "" == out;
      }
    }
    Position(order, p, i);
    assert Unfold(WRITING) && Unfold(WRITTEN) && out + "" == out;
  }

  /** node_output with format_raw: the iterative traversal writes the reference rendering. */
  method NodeOutput(root: XmlNode, ghost order: seq<XmlNode>, ghost d: Depths, ghost i: nat) returns (out: string)
    requires Linked(order, d) && i < |order| && order[i] == root
    ensures out == Render(DocOf(order, d), i)
  {
    ghost var doc, p := DocOf(order, d), i;
    var node := root;
    out := "";
    NxtSpec(d, i + 1, d[i]);
    assert Render(doc, i) + "" == Render(doc, i);
    while true
      invariant 0 <= p < |order| && node == order[p] && Writing(doc, i, p, out)
      decreases |d| - p
    {
      LinksOfNode(order, d, p);
      WritingNode(doc, i, p, out);
      var hasChildren := node.firstChild != null;
      LeafEnd(d, p);
      if node.kind == Element {
        out := out + Opening(ContentOf(node), hasChildren);
      } else if node.kind != NodeType.Document {
        out := out + Simple(ContentOf(node));
      }
      if hasChildren && (node.kind == Element || node.kind == NodeType.Document) {
        node := node.firstChild;
        p := p + 1;
      } else {
        node, out, p := ToNextNode(node, root, out, order, d, i, p);
        if node == root {
          return;
        }
      }
    }
  }
}
