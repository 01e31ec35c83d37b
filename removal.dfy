/**
 * `removeMetadataSection`: deletes from the converted document every
 * paragraph, among the first fifteen of the original document, whose
 * trimmed text matches the metadata line pattern. The paragraph list is
 * taken once, before any removal, so its indices always refer to the
 * original paragraphs.
 */
module Removal {
  import opened Wrappers
  import opened JsText
  import opened Dom
  import opened Pattern
  import opened Extraction

  /**
   * Node `p` of `doc` is deleted: it is a paragraph, fewer than fifteen
   * paragraphs precede it, and its trimmed text is a metadata line.
   */
  predicate Removed(doc: Document, p: nat)
  {
    p < |doc| && doc[p].Paragraph? && |Paragraphs(doc[..p])| < ScanLimit && IsMetadataText(doc[p].text)
  }

  /** The elements of `xs` whose flag in `drop` is false, in order. */
  function Keep<T>(xs: seq<T>, drop: seq<bool>): (r: seq<T>)
    requires |drop| == |xs|
    ensures |r| <= |xs|
  {
    if xs == [] then []
    else
      var n := |xs| - 1;
      Keep(xs[..n], drop[..n]) + (if drop[n] then [] else [xs[n]])
  }

  /** Which nodes of `doc` removal deletes. */
  function DropMarks(doc: Document): (marks: seq<bool>)
    ensures |marks| == |doc|
  {
    seq(|doc|, p requires 0 <= p < |doc| => Removed(doc, p))
  }

  /** The document after removal: the nodes not deleted, in their original order. */
  function Strip(doc: Document): Document
  {
    Keep(doc, DropMarks(doc))
  }

  /** Which paragraph texts are metadata lines. */
  function MetadataMarks(ps: seq<string>): (marks: seq<bool>)
    ensures |marks| == |ps|
  {
    seq(|ps|, i requires 0 <= i < |ps| => IsMetadataText(ps[i]))
  }

  /** The paragraph texts that are not metadata lines, in order. */
  function KeptTexts(ps: seq<string>): seq<string>
  {
    Keep(ps, MetadataMarks(ps))
  }

  /** Keeping from one element more: the element is kept exactly when it is not dropped. */
  lemma KeepPrefix<T>(xs: seq<T>, drop: seq<bool>, j: nat)
    requires |drop| == |xs| && j < |xs|
    ensures Keep(xs[..j + 1], drop[..j + 1]) == Keep(xs[..j], drop[..j]) + (if drop[j] then [] else [xs[j]])
  {
    assert xs[..j + 1][..j] == xs[..j];
    assert drop[..j + 1][..j] == drop[..j];
  }

  /** Nothing is dropped from position `j` on, so the tail is kept whole. */
  lemma {:induction false} KeepTail<T>(xs: seq<T>, drop: seq<bool>, j: nat)
    requires |drop| == |xs| && j <= |xs|
    requires forall p :: j <= p < |xs| ==> !drop[p]
    ensures Keep(xs, drop) == Keep(xs[..j], drop[..j]) + xs[j..]
    decreases |xs|
  {
    if j < |xs| {
      var n := |xs| - 1;
      assert xs[..n][..j] == xs[..j] && drop[..n][..j] == drop[..j];
      KeepTail(xs[..n], drop[..n], j);
      assert xs[j..] == xs[..n][j..] + [xs[n]];
    } else {
      assert xs[..j] == xs && drop[..j] == drop;
    }
  }

  /** Removal of a node depends only on the document up to that node. */
  lemma DropMarksPrefix(doc: Document, j: nat)
    requires j <= |doc|
    ensures DropMarks(doc)[..j] == DropMarks(doc[..j])
  {
    forall p | 0 <= p < j
      ensures Removed(doc, p) == Removed(doc[..j], p)
    {
      assert doc[..j][..p] == doc[..p];
    }
  }

  /** A prefix never holds more paragraphs than a longer prefix. */
  lemma ParagraphsOfPrefix(doc: Document, j: nat, k: nat)
    requires j <= k <= |doc|
    ensures |Paragraphs(doc[..j])| <= |Paragraphs(doc[..k])|
  {
    assert doc[..k] == doc[..j] + doc[j..k];
    ParagraphsAppend(doc[..j], doc[j..k]);
  }

  /** Once fifteen paragraphs have been met, the rest of the document is kept as it is. */
  lemma StripBeyondWindow(doc: Document, j: nat)
    requires j <= |doc| && |Paragraphs(doc[..j])| >= ScanLimit
    ensures Strip(doc) == Strip(doc[..j]) + doc[j..]
  {
    var marks := DropMarks(doc);
    forall p | j <= p < |doc|
      ensures !marks[p]
    {
      ParagraphsOfPrefix(doc, j, p);
    }
    KeepTail(doc, marks, j);
    DropMarksPrefix(doc, j);
  }

  /**
   * One more node of the document: a paragraph met while fewer than fifteen
   * paragraphs precede it is deleted when its trimmed text matches, and
   * every other node is kept.
   */
  lemma StripStep(doc: Document, j: nat)
    requires j < |doc|
    ensures var node := doc[j];
            var seen := |Paragraphs(doc[..j])|;
            Strip(doc[..j + 1]) == Strip(doc[..j]) +
              (if node.Paragraph? && seen < ScanLimit && IsMetadataText(node.text) then [] else [node])
    ensures |Paragraphs(doc[..j + 1])| == |Paragraphs(doc[..j])| + (if doc[j].Paragraph? then 1 else 0)
  {
    var d := doc[..j + 1];
    assert d[..j] == doc[..j];
    DropMarksPrefix(d, j);
    KeepPrefix(d, DropMarks(d), j);
    assert d == doc[..j] + [doc[j]];
    ParagraphsAppend(doc[..j], [doc[j]]);
  }

  /** When the loop stops, the nodes it did not visit are kept as they are. */
  lemma StripStopped(doc: Document, j: nat)
    requires j <= |doc|
    requires j == |doc| || |Paragraphs(doc[..j])| >= ScanLimit
    ensures Strip(doc) == Strip(doc[..j]) + doc[j..]
  {
    if j < |doc| {
      StripBeyondWindow(doc, j);
    } else {
      assert doc[..j] == doc;
    }
  }

  /**
   * The removal loop. The static paragraph list is walked in document
   * order, with `seen` the index of the next paragraph in it; the loop stops
   * after the first `min(15, paragraphs.length)` paragraphs, and every
   * other node stays where it is.
   */
  method RemoveMetadataSection(doc: Document) returns (out: Document)
    ensures out == Strip(doc)
  {
    out := [];
    var seen := 0;
    var j := 0;
    while j < |doc| && seen < ScanLimit
      invariant j <= |doc|
      invariant seen == |Paragraphs(doc[..j])|
      invariant out == Strip(doc[..j])
    {
      var node := doc[j];
      var remove := false;
      if node.Paragraph? {
        var text := Trim(node.text);
        remove := MatchPattern(text).Some?;
        seen := seen + 1;
      }
      if !remove {
        out := out + [node];
      }
      StripStep(doc, j);
      j := j + 1;
    }
    StripStopped(doc, j);
    out := out + doc[j..];
  }

  /** Dropping only paragraphs leaves every other node, in order. */
  lemma {:induction false} KeepNonParagraphs(xs: Document, drop: seq<bool>)
    requires |drop| == |xs|
    requires forall p :: 0 <= p < |xs| && drop[p] ==> xs[p].Paragraph?
    ensures NonParagraphs(Keep(xs, drop)) == NonParagraphs(xs)
    decreases |xs|
  {
    if xs != [] {
      var n := |xs| - 1;
      var init := Keep(xs[..n], drop[..n]);
      KeepNonParagraphs(xs[..n], drop[..n]);
      assert xs == xs[..n] + [xs[n]];
      NonParagraphsAppend(xs[..n], [xs[n]]);
      if drop[n] {
        assert Keep(xs, drop) == init;
      } else {
        assert Keep(xs, drop) == init + [xs[n]];
        NonParagraphsAppend(init, [xs[n]]);
      }
    }
  }

  /**
   * Removal deletes paragraphs and nothing else: every other node is kept,
   * in its original order and with its content.
   */
  lemma StripKeepsNonParagraphs(doc: Document)
    ensures NonParagraphs(Strip(doc)) == NonParagraphs(doc)
  {
    KeepNonParagraphs(doc, DropMarks(doc));
  }

  /** Which paragraphs, by their index among the paragraphs, removal deletes. */
  function WindowMarks(ps: seq<string>): (marks: seq<bool>)
    ensures |marks| == |ps|
  {
    seq(|ps|, i requires 0 <= i < |ps| => i < ScanLimit && IsMetadataText(ps[i]))
  }

  /** Appending one element and its flag appends the element when it is kept. */
  lemma KeepSnoc<T>(xs: seq<T>, drop: seq<bool>, x: T, d: bool)
    requires |drop| == |xs|
    ensures Keep(xs + [x], drop + [d]) == Keep(xs, drop) + (if d then [] else [x])
  {
    assert (xs + [x])[..|xs|] == xs;
    assert (drop + [d])[..|xs|] == drop;
  }

  /** The flags of one more paragraph text extend the flags of the others. */
  lemma WindowMarksSnoc(ps: seq<string>, t: string)
    ensures WindowMarks(ps + [t]) == WindowMarks(ps) + [|ps| < ScanLimit && IsMetadataText(t)]
  {
  }

  /** One more node extends the paragraphs left by removal as the filter over the paragraph list says. */
  lemma ParagraphsKeptSnoc(pi: seq<string>, node: Node, dropped: bool)
    requires dropped == (node.Paragraph? && |pi| < ScanLimit && IsMetadataText(node.text))
    ensures var ps := pi + (if node.Paragraph? then [node.text] else []);
            Keep(pi, WindowMarks(pi)) + Paragraphs(if dropped then [] else [node]) == Keep(ps, WindowMarks(ps))
  {
    if node.Paragraph? {
      WindowMarksSnoc(pi, node.text);
      KeepSnoc(pi, WindowMarks(pi), node.text, dropped);
      if !dropped {
        assert Paragraphs([node]) == [node.text];
      }
    } else {
      assert pi + [] == pi;
      if !dropped {
        assert Paragraphs([node]) == [];
      }
    }
  }

  /** The paragraphs left by removal, as a filter over the paragraph list. */
  lemma {:induction false} StripParagraphsKept(doc: Document)
    ensures var ps := Paragraphs(doc);
            Paragraphs(Strip(doc)) == Keep(ps, WindowMarks(ps))
    decreases |doc|
  {
    if doc != [] {
      var n := |doc| - 1;
      var init, last := doc[..n], doc[n];
      var pi := Paragraphs(init);
      StripParagraphsKept(init);
      StripStep(doc, n);
      assert doc[..n + 1] == doc;
      var dropped := last.Paragraph? && |pi| < ScanLimit && IsMetadataText(last.text);
      var kept := if dropped then [] else [last];
      assert Strip(doc) == Strip(init) + kept;
      ParagraphsAppend(Strip(init), kept);
      ParagraphsKeptSnoc(pi, last, dropped);
    }
  }

  /**
   * Removal deletes exactly the metadata lines among the first fifteen
   * paragraphs: the paragraphs left are the window's non-metadata
   * paragraphs followed by every paragraph after the window, unchanged.
   */
  lemma StripParagraphs(doc: Document)
    ensures var ps := Paragraphs(doc);
            var n := |ScanWindow(doc)|;
            Paragraphs(Strip(doc)) == KeptTexts(ps[..n]) + ps[n..]
  {
    var ps := Paragraphs(doc);
    var n := |ScanWindow(doc)|;
    StripParagraphsKept(doc);
    KeepTail(ps, WindowMarks(ps), n);
    assert WindowMarks(ps)[..n] == MetadataMarks(ps[..n]);
  }

  /** The last entry that sets `f`, when some entry does. */
  lemma {:induction false} LastSetter(es: seq<Option<Entry>>, f: Field) returns (j: nat)
    requires exists i :: 0 <= i < |es| && SetsField(es[i], f)
    ensures j < |es| && SetsField(es[j], f)
    ensures forall i :: j < i < |es| ==> !SetsField(es[i], f)
  {
    var last := |es| - 1;
    if SetsField(es[last], f) {
      j := last;
    } else {
      var init := es[..last];
      var i :| 0 <= i < |es| && SetsField(es[i], f);
      assert SetsField(init[i], f);
      j := LastSetter(init, f);
    }
  }

  /**
   * Extraction and removal read the same paragraphs with the same pattern:
   * a field extraction fills comes from a paragraph that removal deletes,
   * and that paragraph is recognised as setting the field to that value.
   */
  lemma ExtractedFromRemoved(doc: Document, f: Field) returns (p: nat)
    requires Get(Extract(doc), f) != ""
    ensures Removed(doc, p)
    ensures Recognise(doc[p].text) == Some(Entry(f, Get(Extract(doc), f)))
  {
    var w := ScanWindow(doc);
    var es := Entries(w);
    if forall i :: 0 <= i < |es| ==> !SetsField(es[i], f) {
      UnsetFieldStaysEmpty(es, f);
      assert false;
    }
    var j := LastSetter(es, f);
    LastEntryWins(es, f, j);
    p := ParagraphPosition(doc, j);
    assert es[j] == Recognise(Paragraphs(doc)[j]);
    RecogniseIffMetadataText(doc[p].text);
  }

  /** `title:x` is a metadata line: the pattern is not vacuous. */
  lemma TitleLineIsMetadata()
    ensures IsMetadataText("title:x")
  {
    var t := "title:x";
    TrimOfTrimmed(t);
    assert t[6..] == "x";
    TrimOfTrimmed("x");
    assert KeyAt(t, TitleKey);
    LineRecognised(t, TitleKey, "x");
    RecogniseIffMetadataText(t);
  }

  /** Keeping nothing: when every flag drops, nothing is left. */
  lemma {:induction false} KeepAllDropped<T>(xs: seq<T>, drop: seq<bool>)
    requires |drop| == |xs|
    requires forall p :: 0 <= p < |xs| ==> drop[p]
    ensures Keep(xs, drop) == []
    decreases |xs|
  {
    if xs != [] {
      KeepAllDropped(xs[..|xs| - 1], drop[..|xs| - 1]);
    }
  }

  /** `n` paragraphs with the same text. */
  function Copies(t: string, n: nat): (doc: Document)
    ensures |doc| == n
  {
    seq(n, i => Paragraph(t))
  }

  /** Each copy is a paragraph, so the paragraph list of `n` copies has `n` entries. */
  lemma {:induction false} ParagraphsOfCopies(t: string, n: nat)
    ensures |Paragraphs(Copies(t, n))| == n
  {
    if n > 0 {
      ParagraphsOfCopies(t, n - 1);
      assert Copies(t, n)[..n - 1] == Copies(t, n - 1);
    }
  }

  /** A copy of a metadata line with fewer than fifteen copies before it is deleted. */
  lemma CopyDropped(t: string, n: nat, p: nat)
    requires IsMetadataText(t) && p < n && p < ScanLimit
    ensures DropMarks(Copies(t, n))[p]
  {
    var d := Copies(t, n);
    assert d[..p] == Copies(t, p);
    ParagraphsOfCopies(t, p);
    assert Removed(d, p);
  }

  /** Sixteen copies of a metadata line lose the first fifteen. */
  lemma StripCopies(t: string)
    requires IsMetadataText(t)
    ensures Strip(Copies(t, ScanLimit + 1)) == [Paragraph(t)]
  {
    var d := Copies(t, ScanLimit + 1);
    var marks := DropMarks(d);
    forall p | 0 <= p < ScanLimit
      ensures marks[p]
    {
      CopyDropped(t, ScanLimit + 1, p);
    }
    assert d[..ScanLimit] == Copies(t, ScanLimit);
    ParagraphsOfCopies(t, ScanLimit);
    StripBeyondWindow(d, ScanLimit);
    DropMarksPrefix(d, ScanLimit);
    KeepAllDropped(d[..ScanLimit], marks[..ScanLimit]);
    assert d[ScanLimit..] == [Paragraph(t)];
  }

  /**
   * Removal is not idempotent: sixteen copies of a metadata line lose the
   * first fifteen, and running removal again on what is left deletes the
   * sixteenth, which has moved into the window.
   */
  lemma StripNotIdempotent(t: string)
    requires IsMetadataText(t)
    ensures Strip(Copies(t, ScanLimit + 1)) == [Paragraph(t)]
    ensures Strip(Strip(Copies(t, ScanLimit + 1))) == []
  {
    StripCopies(t);
    var one: Document := [Paragraph(t)];
    assert Removed(one, 0) by {
      assert one[..0] == [];
    }
    KeepAllDropped(one, DropMarks(one));
  }
}
