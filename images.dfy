/**
 * `handleImages`: every image of the converted document, in document order,
 * is replaced where it stands by a placeholder paragraph whose text names
 * the image by its `alt` attribute, or by its 1-based position among all
 * images when the attribute is empty.
 */
module Placeholders {
  import opened JsText
  import opened Dom

  /** What the placeholder text starts with. */
  const PlaceholderOpen: string := "[IMAGE PLACEHOLDER: "

  /** `img.alt || `Image ${index + 1}``, with `k` the 1-based position. */
  function Label(alt: string, k: nat): (name: string)
    ensures name != ""
    ensures alt != "" ==> name == alt
  {
    if alt != "" then alt else "Image " + NatToString(k)
  }

  /** The text of the placeholder paragraph named `name`. */
  function PlaceholderText(name: string): string
  {
    PlaceholderOpen + name + "]"
  }

  /** The paragraph that replaces the image with `alt` at 1-based position `k`. */
  function Placeholder(alt: string, k: nat): Node
  {
    Paragraph(PlaceholderText(Label(alt, k)))
  }

  /** The document after `handleImages`. */
  function Substitute(doc: Document): (r: Document)
    ensures |r| == |doc|
  {
    if doc == [] then []
    else
      var init := doc[..|doc| - 1];
      var last := doc[|doc| - 1];
      Substitute(init) + [if last.Image? then Placeholder(last.alt, |Images(init)| + 1) else last]
  }

  /** Substituting one node more: the node's image, if any, gets the next position. */
  lemma SubstitutePrefix(doc: Document, j: nat)
    requires j < |doc|
    ensures Substitute(doc[..j + 1]) ==
      Substitute(doc[..j]) + [if doc[j].Image? then Placeholder(doc[j].alt, |Images(doc[..j])| + 1) else doc[j]]
    ensures |Images(doc[..j + 1])| == |Images(doc[..j])| + (if doc[j].Image? then 1 else 0)
  {
    assert doc[..j + 1][..j] == doc[..j];
  }

  /**
   * `handleImages` over the node array: the `forEach` visits the images in
   * document order with `index` counting them from zero, and replaces each
   * in place by its placeholder paragraph.
   */
  method HandleImages(a: array<Node>)
    modifies a
    ensures a[..] == Substitute(old(a[..]))
  {
    ghost var doc := a[..];
    var index := 0;
    for j := 0 to a.Length
      invariant index == |Images(doc[..j])|
      invariant a[..j] == Substitute(doc[..j])
      invariant a[j..] == doc[j..]
    {
      var node := a[j];
      assert node == doc[j];
      SubstitutePrefix(doc, j);
      if node.Image? {
        var alt := Label(node.alt, index + 1);
        a[j] := Paragraph(PlaceholderText(alt));
        index := index + 1;
      }
      assert a[..j + 1] == a[..j] + [a[j]];
    }
    assert doc[..a.Length] == doc;
  }

  /**
   * Without an `alt` text the label is `Image ` followed by the position in
   * decimal, from which the position reads back.
   */
  lemma LabelNamesImage(alt: string, k: nat)
    ensures alt == "" ==> Label(alt, k)[..6] == "Image " && DecimalValue(Label(alt, k)[6..]) == k
  {
    if alt == "" {
      var s := Label(alt, k);
      assert s[6..] == NatToString(k);
      NatToStringRoundTrip(k);
    }
  }

  /** No image is left after substitution. */
  lemma {:induction false} SubstituteLeavesNoImages(doc: Document)
    ensures Images(Substitute(doc)) == []
  {
    if doc != [] {
      var init := doc[..|doc| - 1];
      var last := doc[|doc| - 1];
      var node := if last.Image? then Placeholder(last.alt, |Images(init)| + 1) else last;
      SubstituteLeavesNoImages(init);
      ImagesAppend(Substitute(init), [node]);
      assert Images([node]) == [];
    }
  }

  /** Substitution leaves a document without images as it is. */
  lemma {:induction false} SubstituteWithoutImages(doc: Document)
    requires Images(doc) == []
    ensures Substitute(doc) == doc
  {
    if doc != [] {
      var init := doc[..|doc| - 1];
      var last := doc[|doc| - 1];
      ImagesAppend(init, [last]);
      assert doc == init + [last];
      SubstituteWithoutImages(init);
    }
  }

  /** Running the substitution a second time changes nothing. */
  lemma SubstituteIdempotent(doc: Document)
    ensures Substitute(Substitute(doc)) == Substitute(doc)
  {
    SubstituteLeavesNoImages(doc);
    SubstituteWithoutImages(Substitute(doc));
  }

  /**
   * Node by node: the image at position `p`, the k-th image of the document
   * with `k` counted from one, becomes the placeholder for its `alt` and
   * `k`; every other node is unchanged.
   */
  lemma {:induction false} SubstituteAt(doc: Document, p: nat)
    requires p < |doc|
    ensures doc[p].Image? ==> Substitute(doc)[p] == Placeholder(doc[p].alt, |Images(doc[..p])| + 1)
    ensures !doc[p].Image? ==> Substitute(doc)[p] == doc[p]
  {
    var n := |doc| - 1;
    if p < n {
      assert doc[..n][..p] == doc[..p];
      SubstituteAt(doc[..n], p);
    }
  }

  /** The image at position `p` is entry `|Images(doc[..p])|` of the image list, counted from zero. */
  lemma ImageIndex(doc: Document, p: nat)
    requires p < |doc| && doc[p].Image?
    ensures |Images(doc[..p])| < |Images(doc)|
    ensures Images(doc)[|Images(doc[..p])|] == doc[p].alt
  {
    assert doc == doc[..p] + [doc[p]] + doc[p + 1..];
    ImagesAppend(doc[..p], [doc[p]]);
    ImagesAppend(doc[..p] + [doc[p]], doc[p + 1..]);
  }

  /** Every image becomes a paragraph: there are as many new paragraphs as there were images. */
  lemma {:induction false} SubstituteCountsPlaceholders(doc: Document)
    ensures |Paragraphs(Substitute(doc))| == |Paragraphs(doc)| + |Images(doc)|
  {
    if doc != [] {
      var init := doc[..|doc| - 1];
      var last := doc[|doc| - 1];
      var node := if last.Image? then Placeholder(last.alt, |Images(init)| + 1) else last;
      SubstituteCountsPlaceholders(init);
      ParagraphsAppend(Substitute(init), [node]);
      assert doc == init + [last];
      ParagraphsAppend(init, [last]);
      ImagesAppend(init, [last]);
    }
  }
}
