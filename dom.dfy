/**
 * The converter's output as the popup sees it after parsing it into a
 * temporary element: a flat list of nodes in document order. Every `p` and
 * every `img` anywhere in the element's tree, table cells included, is a
 * node of its own, placed where it stands in document order; paragraphs
 * carry their `textContent`, images their `alt` attribute. `Other` stands
 * for a stretch of markup with no `p` and no `img` inside it, which the
 * popup's post-processing never inspects. `Paragraphs` and `Images` are
 * `querySelectorAll('p')` and `querySelectorAll('img')`: the matching
 * nodes, in document order.
 */
module Dom {

  datatype Node =
    | Paragraph(text: string)
    | Image(alt: string)
    | Other(markup: string)

  type Document = seq<Node>

  /** The `textContent` of every paragraph, in document order. */
  function Paragraphs(doc: Document): (ps: seq<string>)
    ensures |ps| <= |doc|
  {
    if doc == [] then []
    else
      var last := doc[|doc| - 1];
      Paragraphs(doc[..|doc| - 1]) + (if last.Paragraph? then [last.text] else [])
  }

  /** The `alt` of every image, in document order. */
  function Images(doc: Document): (alts: seq<string>)
    ensures |alts| <= |doc|
  {
    if doc == [] then []
    else
      var last := doc[|doc| - 1];
      Images(doc[..|doc| - 1]) + (if last.Image? then [last.alt] else [])
  }

  /** Every node that is not a paragraph, in document order. */
  function NonParagraphs(doc: Document): (rest: Document)
    ensures forall i :: 0 <= i < |rest| ==> !rest[i].Paragraph?
  {
    if doc == [] then []
    else
      var last := doc[|doc| - 1];
      NonParagraphs(doc[..|doc| - 1]) + (if last.Paragraph? then [] else [last])
  }

  /** The query of one concatenation is the concatenation of the queries. */
  lemma {:induction false} ParagraphsAppend(a: Document, b: Document)
    ensures Paragraphs(a + b) == Paragraphs(a) + Paragraphs(b)
    decreases |b|
  {
    if b == [] {
      assert a + b == a;
    } else {
      var b' := b[..|b| - 1];
      assert (a + b)[..|a + b| - 1] == a + b';
      ParagraphsAppend(a, b');
    }
  }

  lemma {:induction false} ImagesAppend(a: Document, b: Document)
    ensures Images(a + b) == Images(a) + Images(b)
    decreases |b|
  {
    if b == [] {
      assert a + b == a;
    } else {
      var b' := b[..|b| - 1];
      assert (a + b)[..|a + b| - 1] == a + b';
      ImagesAppend(a, b');
    }
  }

  lemma {:induction false} NonParagraphsAppend(a: Document, b: Document)
    ensures NonParagraphs(a + b) == NonParagraphs(a) + NonParagraphs(b)
    decreases |b|
  {
    if b == [] {
      assert a + b == a;
    } else {
      var b' := b[..|b| - 1];
      assert (a + b)[..|a + b| - 1] == a + b';
      NonParagraphsAppend(a, b');
    }
  }

  /**
   * The i-th paragraph of the query result sits at some node position p,
   * with exactly i paragraphs before it: the link between an index into the
   * static paragraph list and a node of the document.
   */
  lemma {:induction false} ParagraphPosition(doc: Document, i: nat) returns (p: nat)
    requires i < |Paragraphs(doc)|
    ensures p < |doc| && doc[p] == Paragraph(Paragraphs(doc)[i])
    ensures |Paragraphs(doc[..p])| == i
    decreases |doc|
  {
    var init := doc[..|doc| - 1];
    if i < |Paragraphs(init)| {
      p := ParagraphPosition(init, i);
      assert doc[..p] == init[..p];
    } else {
      p := |doc| - 1;
      assert doc[..p] == init;
    }
  }
}
