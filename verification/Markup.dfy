/** What printed text looks like, in the words of the XML grammar. */
module Markup {
  import opened Basics
  import opened Shape
  import opened Dom
  import opened Escape
  import opened Printer

  /** What stands for a character in text, and in the value of an attribute. */
  lemma WrittenAs(c: char)
    ensures EscapedChar('&', true) == EscapedChar('&', false) == "&amp;"
    ensures EscapedChar('<', true) == EscapedChar('<', false) == "&lt;"
    ensures EscapedChar('>', true) == EscapedChar('>', false) == "&gt;"
    ensures EscapedChar('"', true) == "&quot;" && EscapedChar('"', false) == "\""
    ensures ' ' <= c && c !in "&<>\"" ==> EscapedChar(c, true) == EscapedChar(c, false) == [c]
    ensures c < ' ' ==>
              && EscapedChar(c, true) == (if c == '\t' then [c] else CharacterReference(c))
              && EscapedChar(c, false) == if c in "\t\r\n" then [c] else CharacterReference(c)
  {
  }

  /** Two decimal digits between `&#` and a semicolon. */
  function CharacterReference(c: char): string
    requires c < ' '
  {
    var digits := "0123456789";
    "&#" + [digits[c as int / 10], digits[c as int % 10]] + ";"
  }

  /** Text is written character by character. */
  lemma {:induction false} EscapedJoin(s: string, t: string, attribute: bool)
    ensures Escaped(s + t, attribute) == Escaped(s, attribute) + Escaped(t, attribute)
  {
    if s == "" {
      assert s + t == t;
    } else {
      assert (s + t)[1..] == s[1..] + t;
      EscapedJoin(s[1..], t, attribute);
    }
  }

  ghost predicate Without(s: string, a: char, b: char) {
    forall k :: 0 <= k < |s| - 1 ==> !Pair(s, k, a, b)
  }

  predicate Pair(s: string, k: nat, a: char, b: char)
    requires k + 1 < |s|
  {
    s[k] == a && s[k + 1] == b
  }

  /** The text with its spaces left out. */
  function Solid(s: string): string {
    if s == "" then "" else (if s[0] == ' ' then "" else [s[0]]) + Solid(s[1..])
  }

  ghost predicate InComment(s: string) {
    Without(s, '-', '-') && (s != "" ==> s[|s| - 1] != '-')
  }

  /** A comment has no two hyphens in a row and none at its end; only spaces are added for that, and none if it needs none. */
  lemma CommentFits(s: string)
    ensures InComment(CommentText(s)) && Solid(CommentText(s)) == Solid(s)
    ensures InComment(s) ==> CommentText(s) == s
  {
    CommentIsSafe(s);
    CommentIsSolid(s);
    if InComment(s) { CommentIsKept(s); }
  }

  lemma {:induction false} CommentIsSafe(s: string)
    ensures InComment(CommentText(s)) && (s != "" ==> CommentText(s) != "" && CommentText(s)[0] == s[0])
  {
    if s != "" {
      var rest := CommentText(s[1..]);
      CommentIsSafe(s[1..]);
      if s[0] == '-' && (|s| == 1 || s[1] == '-') {
        Longer(' ', rest, '-', '-');
        Longer('-', [' '] + rest, '-', '-');
        assert "- " + rest == ['-'] + ([' '] + rest);
      } else {
        Longer(s[0], rest, '-', '-');
      }
    }
  }

  lemma Longer(c: char, s: string, a: char, b: char)
    ensures Without([c] + s, a, b) <==> Without(s, a, b) && !(c == a && s != "" && s[0] == b)
  {
    if Without([c] + s, a, b) {
      forall k | 0 <= k < |s| - 1 ensures !Pair(s, k, a, b) {
        assert !Pair([c] + s, k + 1, a, b);
      }
      assert s != "" ==> !Pair([c] + s, 0, a, b);
    } else {
      var k :| 0 <= k < |s| && Pair([c] + s, k, a, b);
      assert 0 < k ==> Pair(s, k - 1, a, b);
    }
  }

  lemma {:induction false} CommentIsSolid(s: string)
    ensures Solid(CommentText(s)) == Solid(s)
  {
    if s != "" {
      CommentIsSolid(s[1..]);
      var rest := CommentText(s[1..]);
      assert "- " + rest == ['-'] + ([' '] + rest);
      SolidStep('-', [' '] + rest);
      SolidStep(' ', rest);
      SolidStep(s[0], rest);
    }
  }

  lemma SolidStep(c: char, s: string)
    ensures Solid([c] + s) == (if c == ' ' then "" else [c]) + Solid(s)
  {
    assert ([c] + s)[1..] == s;
  }

  lemma {:induction false} CommentIsKept(s: string)
    requires InComment(s)
    ensures CommentText(s) == s
  {
    if s != "" {
      assert s == [s[0]] + s[1..];
      Longer(s[0], s[1..], '-', '-');
      CommentIsKept(s[1..]);
    }
  }

  /** A processing instruction does not hold its own end; only spaces are added for that, and none if it needs none. */
  lemma PiFits(s: string)
    ensures Without(PiText(s), '?', '>') && Solid(PiText(s)) == Solid(s)
    ensures Without(s, '?', '>') ==> PiText(s) == s
  {
    PiIsSafe(s);
    PiIsSolid(s);
    if Without(s, '?', '>') { PiIsKept(s); }
  }

  lemma {:induction false} PiIsSafe(s: string)
    ensures Without(PiText(s), '?', '>') && (s != "" ==> PiText(s) != "" && PiText(s)[0] == s[0])
    decreases |s|
  {
    if |s| > 1 && s[0] == '?' && s[1] == '>' {
      var rest := PiText(s[2..]);
      PiIsSafe(s[2..]);
      Longer('>', rest, '?', '>');
      Longer(' ', ['>'] + rest, '?', '>');
      Longer('?', [' '] + (['>'] + rest), '?', '>');
      assert "? >" + rest == ['?'] + ([' '] + (['>'] + rest));
    } else if s != "" {
      PiIsSafe(s[1..]);
      Longer(s[0], PiText(s[1..]), '?', '>');
    }
  }

  lemma {:induction false} PiIsSolid(s: string)
    ensures Solid(PiText(s)) == Solid(s)
    decreases |s|
  {
    if |s| > 1 && s[0] == '?' && s[1] == '>' {
      var rest := PiText(s[2..]);
      PiIsSolid(s[2..]);
      SolidStep('>', rest);
      SolidStep(' ', ['>'] + rest);
      SolidStep('?', [' '] + (['>'] + rest));
      assert "? >" + rest == ['?'] + ([' '] + (['>'] + rest));
      assert s[1..][1..] == s[2..];
    } else if s != "" {
      PiIsSolid(s[1..]);
      SolidStep(s[0], PiText(s[1..]));
    }
  }

  lemma {:induction false} PiIsKept(s: string)
    requires Without(s, '?', '>')
    ensures PiText(s) == s
  {
    if s != "" {
      assert s == [s[0]] + s[1..];
      Longer(s[0], s[1..], '?', '>');
      PiIsKept(s[1..]);
    }
  }

  lemma AttributeIs(name: string, value: string)
    ensures AttributesText([Attribute(Some(name), Some(value))]) == " " + name + "=\"" + Escaped(value, true) + "\""
  {
    var a := Attribute(Some(name), Some(value));
    assert [a][1..] == [] && AttributesText([a]) == AttributeText(a) + "" == AttributeText(a);
  }

  lemma TagsAre(name: string, attributes: seq<Attribute>, content: bool)
    ensures Opening(Content(Element, Some(name), None, attributes), content)
            == "<" + name + AttributesText(attributes) + if content then ">" else "/>"
    ensures Closing(Content(Element, Some(name), None, attributes)) == "</" + name + ">"
  {
  }

  lemma OtherNodesAre(name: string, value: string, attributes: seq<Attribute>)
    ensures Simple(Content(Comment, None, Some(value), [])) == "<!--" + CommentText(value) + "-->"
    ensures Simple(Content(Pi, Some(name), Some(value), [])) == "<?" + name + (" " + PiText(value)) + "?>"
    ensures Simple(Content(Declaration, Some(name), None, attributes)) == "<?" + name + AttributesText(attributes) + "?>"
    ensures Simple(Content(Doctype, None, Some(value), [])) == "<!DOCTYPE" + (" " + value) + ">"
    ensures EndOfCdata(value, 0) == |value| ==> Simple(Content(Cdata, None, Some(value), [])) == "<![CDATA[" + value + "]]>"
  {
    WrapStep(value, 0);
    assert value[0..|value|] == value;
  }
}
