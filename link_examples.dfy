/** The subtrees that the tests of pkg/link/parser_test.go walk, and what the extractor yields on
    them. Each subtree is numbered from its own root; the nodes of the document around it are
    left out. */
module LinkExamples {
  import opened Strings
  import opened Link
  import opened LinkTree

  /** `<a href="http://example.com"><span>Nested</span> Text</a>`: the subtree of the anchor that
      the test hands to getLinkText, the anchor at index 0. */
  const Nested: Tree := [
    Node(ElementNode, "a", [Attribute("", "href", "http://example.com")], [1, 3]),
    Node(ElementNode, "span", [], [2]),
    Node(TextNode, "Nested", [], []),
    Node(TextNode, " Text", [], [])
  ]

  const NestedEnds: seq<nat> := [4, 3, 3, 4]

  lemma NestedShape()
    ensures WellFormed(Nested) && Ordered(Nested)
  {
  }

  lemma NestedIsPreorder()
    ensures Preorder(Nested, NestedEnds)
  {
    NestedShape();
    assert Tiles(Nested, NestedEnds, 0);
  }

  /** The walk from the anchor: the anchor, the text after the span, the span, its text. */
  lemma NestedWalk()
    ensures Walk(Nested, [0], {}) == [0, 3, 1, 2]
  {
    NestedIsPreorder();
    WalkIsReversePreorder(Nested, NestedEnds, 0);
    assert RevPre(Nested, 1) == [1, 2];
    assert RevPre(Nested, 0) == [0, 3, 1, 2];
  }

  lemma NestedFirstText()
    ensures Selected(TextCollector, Nested, [0, 3]) == [3]
  {
    SelectedSnoc(TextCollector, Nested, [], 0);
    assert [] + [0] == [0];
    SelectedSnoc(TextCollector, Nested, [0], 3);
    assert [0] + [3] == [0, 3];
  }

  /** The text collector meets the text after the span before the text inside it. */
  lemma NestedTextNodes()
    ensures Found(TextCollector, Nested, 0) == [3, 2]
  {
    NestedWalk();
    NestedSecondText();
    SelectedSnoc(TextCollector, Nested, [0, 3, 1], 2);
    assert [0, 3, 1] + [2] == [0, 3, 1, 2];
  }

  lemma NestedSecondText()
    ensures Selected(TextCollector, Nested, [0, 3, 1]) == [3]
  {
    NestedFirstText();
    SelectedSnoc(TextCollector, Nested, [0, 3], 1);
    assert [0, 3] + [1] == [0, 3, 1];
  }

  /** The two trims the extractor performs on this document. */
  lemma NestedTrims()
    ensures TrimSpace(" Text") == "Text"
    ensures TrimSpace("Nested") == "Nested"
  {
    assert " Text"[1..5] == "Text";
    assert "Nested"[0..6] == "Nested";
  }

  /** getLinkText on the anchor: the text after the span comes first ("TextNested"). */
  lemma NestedLinkText()
    ensures LinkText(Nested, 0) == "TextNested"
    ensures LinkOf(Nested, 0) == HTMLLink("http://example.com", "TextNested")
  {
    NestedTextNodes();
    NestedEmitted();
    TextNested();
  }

  lemma TextNested()
    ensures "Text" + "Nested" == "TextNested"
  {
    assert ("Text" + "Nested")[..4] == "Text";
  }

  lemma NestedContributions()
    ensures Contribution(TextCollector, Nested[3]) == "Text"
    ensures Contribution(TextCollector, Nested[2]) == "Nested"
  {
    NestedTrims();
  }

  lemma NestedEmitted()
    ensures Emitted(TextCollector, Nested, [3, 2]) == "Text" + "Nested"
  {
    NestedContributions();
    EmittedPair(TextCollector, Nested, 3, 2);
  }

  /** `<p>This is a <span>test</span> text.</p>`: the subtree of the paragraph, at index 0. The test
      walks from the `html` element html.ParseFragment puts around it (with an empty `head` and a
      `body` holding the paragraph), which holds no other text node, so the text collected is
      the same. */
  const Para: Tree := [
    Node(ElementNode, "p", [], [1, 2, 4]),
    Node(TextNode, "This is a ", [], []),
    Node(ElementNode, "span", [], [3]),
    Node(TextNode, "test", [], []),
    Node(TextNode, " text.", [], [])
  ]

  const ParaEnds: seq<nat> := [5, 2, 4, 4, 5]

  lemma ParaShape()
    ensures WellFormed(Para) && Ordered(Para)
  {
  }

  lemma ParaIsPreorder()
    ensures Preorder(Para, ParaEnds)
  {
    ParaShape();
    assert Tiles(Para, ParaEnds, 0);
  }

  lemma ParaRevPre()
    requires Ordered(Para)
    ensures RevPre(Para, 0) == [0, 4, 2, 3, 1]
  {
    assert RevPre(Para, 2) == [2, 3];
    assert [1, 2, 4][..2] == [1, 2] && [1, 2][..1] == [1];
    assert Forest(Para, 0, [1, 2, 4]) == [4, 2, 3, 1];
  }

  /** The walk from the paragraph: its last child first, each child's subtree before the
      children to its left. */
  lemma ParaWalk()
    ensures Walk(Para, [0], {}) == [0, 4, 2, 3, 1]
  {
    ParaIsPreorder();
    WalkIsReversePreorder(Para, ParaEnds, 0);
    ParaRevPre();
  }

  lemma ParaFirstText()
    ensures Selected(TextCollector, Para, [0, 4]) == [4]
  {
    SelectedSnoc(TextCollector, Para, [], 0);
    assert [] + [0] == [0];
    SelectedSnoc(TextCollector, Para, [0], 4);
    assert [0] + [4] == [0, 4];
  }

  lemma ParaSecondText()
    ensures Selected(TextCollector, Para, [0, 4, 2, 3]) == [4, 3]
  {
    ParaFirstText();
    SelectedSnoc(TextCollector, Para, [0, 4], 2);
    assert [0, 4] + [2] == [0, 4, 2];
    SelectedSnoc(TextCollector, Para, [0, 4, 2], 3);
    assert [0, 4, 2] + [3] == [0, 4, 2, 3];
  }

  /** The text collector meets the text nodes last child first. */
  lemma ParaTextNodes()
    ensures Found(TextCollector, Para, 0) == [4, 3, 1]
  {
    ParaWalk();
    ParaSecondText();
    SelectedSnoc(TextCollector, Para, [0, 4, 2, 3], 1);
    assert [0, 4, 2, 3] + [1] == [0, 4, 2, 3, 1];
  }

  lemma ParaTrimFirst()
    ensures TrimSpace("This is a ") == "This is a"
  {
    assert SkipTrailing("This is a ", 0, 9) == 9;
    assert "This is a "[0..9] == "This is a";
  }

  lemma ParaTrimLast()
    ensures TrimSpace(" text.") == "text."
  {
    assert " text."[1..6] == "text.";
  }

  lemma ParaContributions()
    ensures Contribution(TextCollector, Para[4]) == "text."
    ensures Contribution(TextCollector, Para[3]) == "test"
    ensures Contribution(TextCollector, Para[1]) == "This is a"
  {
    ParaTrimFirst();
    ParaTrimLast();
    assert "test"[0..4] == "test";
  }

  lemma ParaEmittedFront()
    ensures Emitted(TextCollector, Para, [4, 3]) == "text." + "test"
  {
    ParaContributions();
    EmittedPair(TextCollector, Para, 4, 3);
  }

  lemma ParaEmitted()
    ensures Emitted(TextCollector, Para, [4, 3, 1]) == "text." + "test" + "This is a"
  {
    ParaContributions();
    ParaEmittedFront();
    EmittedSnoc(TextCollector, Para, [4, 3], 1);
    assert [4, 3] + [1] == [4, 3, 1];
  }

  /** What the text collector has written after a walk of the paragraph: the trimmed texts,
      last first, with nothing between them. */
  lemma ParaText()
    ensures LinkText(Para, 0) == "text." + "test" + "This is a"
  {
    ParaTextNodes();
    ParaEmitted();
  }
}
