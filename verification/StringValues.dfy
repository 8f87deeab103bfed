/** The string value of a node (section 5 of XPath 1.0): the walk that collects it, and what it is. */
module StringValues {
  import opened Basics
  import opened Shape
  import opened Dom
  import opened XPathData
  import opened Axes

  function OwnText(node: Content): string {
    if node.kind in {Pcdata, Cdata} && node.value.Some? then node.value.value else ""
  }

  /** The texts in the subtree of node i, child by child. */
  function TextIn(doc: Doc, i: nat): string
    requires |doc.nodes| == |doc.d| && i < |doc.d|
    decreases |doc.d| - i, 0
  {
    OwnText(doc.nodes[i]) + TextsOf(doc, i + 1, End(doc.d, i))
  }

  /** The texts of the siblings from k up to e. */
  function TextsOf(doc: Doc, k: nat, e: nat): string
    requires |doc.nodes| == |doc.d| && e <= |doc.d|
    decreases |doc.d| - k, 1
  {
    if k >= e then "" else TextIn(doc, k) + TextsOf(doc, End(doc.d, k), e)
  }

  lemma {:induction false} TextJoin(nodes: seq<Content>, i: nat, k: nat, j: nat)
    requires i <= k <= j <= |nodes|
    ensures TextBetween(nodes, i, j) == TextBetween(nodes, i, k) + TextBetween(nodes, k, j)
    decreases k - i
  {
    if i < k { TextJoin(nodes, i + 1, k, j); }
  }

  /** Whole subtrees, from k up to e, hold what their texts are. */
  lemma {:induction false} TextsBetween(doc: Doc, k: nat, e: nat)
    requires ValidDoc(doc) && k <= e <= |doc.d| && forall j :: k <= j < e ==> End(doc.d, j) <= e
    ensures TextBetween(doc.nodes, k, e) == TextsOf(doc, k, e)
    decreases |doc.d| - k
  {
    if k < e {
      var m := End(doc.d, k);
      EndsInside(doc.d, k);
      TextsBetween(doc, k + 1, m);
      TextsBetween(doc, m, e);
      TextJoin(doc.nodes, k, m, e);
    }
  }

  lemma EndsInside(d: Depths, k: nat)
    requires WellFormed(d) && k < |d|
    ensures k < End(d, k) <= |d| && forall j :: k < j < End(d, k) ==> End(d, j) <= End(d, k)
  {
    forall j | k < j < End(d, k) ensures End(d, j) <= End(d, k) {
      NextInside(d, k, j);
    }
  }

  /** The string value of an element, and of the document, is that of its children one after the other; other nodes and
      attributes have their own value. */
  lemma StringValueIs(doc: Doc, i: nat)
    requires ValidDoc(doc) && i < |doc.d|
    ensures var node := doc.nodes[i];
            var own := if node.value.Some? then node.value.value else "";
            StringValue(doc, N(i)) ==
              if node.kind in {Element, NodeType.Document} then own + TextsOf(doc, i + 1, End(doc.d, i))
              else if node.kind in {Pcdata, Cdata, Comment, Pi} then own
              else ""
  {
    EndsInside(doc.d, i);
    TextsBetween(doc, i + 1, End(doc.d, i));
  }

  lemma AttributeValueIs(doc: Doc, i: nat, j: nat)
    requires i < |doc.nodes| && j < |doc.nodes[i].attributes|
    ensures var a := doc.nodes[i].attributes[j]; StringValue(doc, A(i, j)) == if a.value.Some? then a.value.value else ""
  {
  }

  /** string_value for a node. */
  method StringValueOf(n: XmlNode, ghost order: seq<XmlNode>, ghost d: Depths, ghost i: nat) returns (result: string)
    requires Linked(order, d) && i < |order| && order[i] == n
    ensures result == StringValue(DocOf(order, d), N(i))
  {
    ghost var doc := DocOf(order, d);
    match n.kind {
      case Pcdata => result := NameOr(n.value);
      case Cdata => result := NameOr(n.value);
      case Comment => result := NameOr(n.value);
      case Pi => result := NameOr(n.value);
      case Document => result := CollectText(n, order, d, i);
      case Element => result := CollectText(n, order, d, i);
      case _ => result := "";
    }
  }

  method CollectText(n: XmlNode, ghost order: seq<XmlNode>, ghost d: Depths, ghost i: nat) returns (result: string)
    requires Linked(order, d) && i < |order| && order[i] == n
    ensures result == NameOr(n.value) + TextBetween(Contents(order), i + 1, End(d, i))
  {
    ghost var nodes := Contents(order);
    LinksOfNode(order, d, i);
    LeafEnd(d, i);
    Position(order, i, i + 1);
    result := NameOr(n.value);
    ghost var total := result + TextBetween(nodes, i + 1, End(d, i));
    var cur := n.firstChild;
    ghost var c: nat := i + 1;
    while cur != null && cur != n
      invariant i < c <= End(d, i) && (cur == null || cur == n <==> c == End(d, i)) && (c < End(d, i) ==> cur == order[c])
      invariant result + TextBetween(nodes, c, End(d, i)) == total
      decreases End(d, i) - c
    {
      if cur.kind == Pcdata || cur.kind == Cdata {
        result := result + NameOr(cur.value);
      }
      cur := Onward(cur, n, order, d, c, i);
      Position(order, i, c + 1);
      c := c + 1;
    }
  }
}
