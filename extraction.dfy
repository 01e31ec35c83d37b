/**
 * `extractMetadataFromContent`: the scan of the first paragraphs of the
 * converted document for `key: value` lines, filling a record of six string
 * fields that all start empty.
 */
module Extraction {
  import opened Wrappers
  import opened JsText
  import opened Dom
  import opened Pattern

  /** How many paragraphs, from the start of the document, are scanned. */
  const ScanLimit: nat := 15

  /** The metadata record; every field is the empty string until a line sets it. */
  datatype Metadata = Metadata(
    title: string,
    metaTitle: string,
    metaDescription: string,
    metaKeywords: string,
    canonicalUrl: string,
    publishAt: string)

  const NoMetadata: Metadata := Metadata("", "", "", "", "", "")

  /** Reads field `f` of the record. */
  function Get(md: Metadata, f: Field): string
  {
    match f
    case Title => md.title
    case MetaTitle => md.metaTitle
    case MetaDescription => md.metaDescription
    case MetaKeywords => md.metaKeywords
    case CanonicalUrl => md.canonicalUrl
    case PublishAt => md.publishAt
  }

  /** Assigns field `f` of the record, leaving the other five alone. */
  function Set(md: Metadata, f: Field, v: string): (r: Metadata)
    ensures Get(r, f) == v
    ensures forall g :: g != f ==> Get(r, g) == Get(md, g)
  {
    match f
    case Title => md.(title := v)
    case MetaTitle => md.(metaTitle := v)
    case MetaDescription => md.(metaDescription := v)
    case MetaKeywords => md.(metaKeywords := v)
    case CanonicalUrl => md.(canonicalUrl := v)
    case PublishAt => md.(publishAt := v)
  }

  /** One pass of the loop body, given what the paragraph's text was recognised as. */
  function Step(md: Metadata, e: Option<Entry>): Metadata
  {
    match e
    case None => md
    case Some(e) => Set(md, e.field, e.value)
  }

  /** The record after the loop body has run once for each of `es`, in order. */
  function Fold(es: seq<Option<Entry>>): Metadata
  {
    if es == [] then NoMetadata else Step(Fold(es[..|es| - 1]), es[|es| - 1])
  }

  /** Folding one more entry of `es` is one more pass of the loop body. */
  lemma FoldPrefix(es: seq<Option<Entry>>, i: nat)
    requires i < |es|
    ensures Fold(es[..i + 1]) == Step(Fold(es[..i]), es[i])
  {
    assert es[..i + 1][..i] == es[..i];
  }

  /** What each paragraph text is recognised as. */
  function Entries(ps: seq<string>): (es: seq<Option<Entry>>)
    ensures |es| == |ps|
  {
    seq(|ps|, i requires 0 <= i < |ps| => Recognise(ps[i]))
  }

  /** The paragraphs the loop visits: the first `min(15, paragraphs.length)`. */
  function ScanWindow(doc: Document): (w: seq<string>)
    ensures |w| <= ScanLimit && |w| <= |Paragraphs(doc)|
  {
    var ps := Paragraphs(doc);
    ps[..if ScanLimit < |ps| then ScanLimit else |ps|]
  }

  /** What `extractMetadataFromContent` returns for `doc`. */
  function Extract(doc: Document): Metadata
  {
    Fold(Entries(ScanWindow(doc)))
  }

  /** A recognised line that assigns field `f`. */
  predicate SetsField(e: Option<Entry>, f: Field)
  {
    e.Some? && e.value.field == f
  }

  /** A paragraph is recognised exactly when its trimmed text matches, as the field group 1 names. */
  lemma RecogniseUnfold(text: string)
    ensures Recognise(text).Some? == MatchPattern(Trim(text)).Some?
    ensures var m := MatchPattern(Trim(text));
            m.Some? ==> Recognise(text).value == Entry(FieldOfKey(LowerAsciiString(m.value.key)), Trim(m.value.value))
  {
  }

  /**
   * The body of the extraction loop for one paragraph: trims its text,
   * matches it, lowers group 1 and stores the trimmed group 2 in the field
   * the key names.
   */
  method ScanParagraph(md: Metadata, paragraph: string) returns (r: Metadata)
    ensures r == Step(md, Recognise(paragraph))
  {
    r := md;
    var text := Trim(paragraph);
    var m := MatchPattern(text);
    if m.Some? {
      var key := LowerAsciiString(m.value.key);
      var value := Trim(m.value.value);
      ghost var f := FieldOfKey(key);
      if key == "canonicalurl" {
        r := r.(canonicalUrl := value);
      } else if key == "metatitle" {
        r := r.(metaTitle := value);
      } else if key == "metadescription" {
        r := r.(metaDescription := value);
      } else if key == "metakeywords" {
        r := r.(metaKeywords := value);
      } else if key == "publishat" {
        r := r.(publishAt := value);
      } else {
        // `metadata[key]`: the only key left is "title"
        r := r.(title := value);
      }
      assert r == Set(md, f, value);
    }
    RecogniseUnfold(paragraph);
  }

  /**
   * `extractMetadataFromContent`: runs the loop body over the first
   * `min(15, paragraphs.length)` paragraphs, starting from the empty record.
   */
  method ExtractMetadataFromContent(doc: Document) returns (md: Metadata)
    ensures md == Extract(doc)
  {
    md := Metadata("", "", "", "", "", "");
    var paragraphs := Paragraphs(doc);
    var limit := if ScanLimit < |paragraphs| then ScanLimit else |paragraphs|;
    ghost var es := Entries(paragraphs[..limit]);
    var i := 0;
    while i < limit
      invariant 0 <= i <= limit == |es|
      invariant md == Fold(es[..i])
    {
      assert es[i] == Recognise(paragraphs[i]);
      md := ScanParagraph(md, paragraphs[i]);
      FoldPrefix(es, i);
      i := i + 1;
    }
    assert es[..limit] == es;
    assert paragraphs[..limit] == ScanWindow(doc);
  }

  /** A field no entry sets keeps its initial empty value. */
  lemma {:induction false} UnsetFieldStaysEmpty(es: seq<Option<Entry>>, f: Field)
    requires forall i :: 0 <= i < |es| ==> !SetsField(es[i], f)
    ensures Get(Fold(es), f) == ""
  {
    if es != [] {
      UnsetFieldStaysEmpty(es[..|es| - 1], f);
    }
  }

  /** Last match wins: a field holds the value of the last entry that sets it. */
  lemma {:induction false} LastEntryWins(es: seq<Option<Entry>>, f: Field, j: nat)
    requires j < |es| && SetsField(es[j], f)
    requires forall i :: j < i < |es| ==> !SetsField(es[i], f)
    ensures Get(Fold(es), f) == es[j].value.value
  {
    if j < |es| - 1 {
      LastEntryWins(es[..|es| - 1], f, j);
    }
  }

  /** A field no scanned paragraph sets is empty in the extracted record. */
  lemma UnsetFieldEmpty(doc: Document, f: Field)
    requires forall i :: 0 <= i < |ScanWindow(doc)| ==> !SetsField(Recognise(ScanWindow(doc)[i]), f)
    ensures Get(Extract(doc), f) == ""
  {
    UnsetFieldStaysEmpty(Entries(ScanWindow(doc)), f);
  }

  /**
   * Last match wins over the scanned window of a document: when paragraph
   * `j` of the window is the last one that sets field `f`, the extracted
   * record holds its value.
   */
  lemma LastMatchWins(doc: Document, f: Field, j: nat)
    requires j < |ScanWindow(doc)| && SetsField(Recognise(ScanWindow(doc)[j]), f)
    requires forall i :: j < i < |ScanWindow(doc)| ==> !SetsField(Recognise(ScanWindow(doc)[i]), f)
    ensures Get(Extract(doc), f) == Recognise(ScanWindow(doc)[j]).value.value
  {
    LastEntryWins(Entries(ScanWindow(doc)), f, j);
  }

  /** Entries whose values are trimmed and single-line fold to a record of such values. */
  lemma {:induction false} FoldValuesTrimmed(es: seq<Option<Entry>>, f: Field)
    requires forall i :: 0 <= i < |es| && es[i].Some? ==>
               IsTrimmed(es[i].value.value) && NoLineTerminator(es[i].value.value)
    ensures var v := Get(Fold(es), f);
            v == [] || (IsTrimmed(v) && NoLineTerminator(v))
  {
    if es != [] {
      FoldValuesTrimmed(es[..|es| - 1], f);
    }
  }

  /** Every extracted field is empty or a trimmed value without line terminators. */
  lemma ExtractedValuesTrimmed(doc: Document, f: Field)
    ensures var v := Get(Extract(doc), f);
            v == [] || (IsTrimmed(v) && NoLineTerminator(v))
  {
    var es := Entries(ScanWindow(doc));
    FoldValuesTrimmed(es, f);
  }

  /**
   * A line with either spelling of the canonical URL key, in any letter
   * case, sets `canonicalUrl` and no other field.
   */
  lemma CanonicalSpellingsAgree(md: Metadata, text: string, k: Key, v: string)
    requires k == CanonicalUrlKey || k == CanonicalURLKey
    requires IsMetadataLine(Trim(text), k, v)
    ensures Step(md, Recognise(text)) == md.(canonicalUrl := v)
  {
    LineRecognised(text, k, v);
  }

  /** The scanned window of a document with fifteen paragraphs ignores what follows. */
  lemma ScanWindowIgnoresTail(doc: Document, tail: Document)
    requires |Paragraphs(doc)| >= ScanLimit
    ensures ScanWindow(doc + tail) == ScanWindow(doc)
  {
    var ps, pt := Paragraphs(doc), Paragraphs(tail);
    ParagraphsAppend(doc, tail);
    assert (ps + pt)[..ScanLimit] == ps[..ScanLimit];
  }

  /**
   * Extraction depends only on the first fifteen paragraphs: appending
   * anything to a document that already has fifteen leaves it unchanged.
   */
  lemma ExtractIgnoresTail(doc: Document, tail: Document)
    requires |Paragraphs(doc)| >= ScanLimit
    ensures Extract(doc + tail) == Extract(doc)
  {
    ScanWindowIgnoresTail(doc, tail);
  }

  /**
   * Extraction depends only on the first fifteen paragraphs: documents
   * whose first fifteen paragraphs agree extract the same record, whatever
   * follows them.
   */
  lemma WindowDeterminesExtraction(d1: Document, d2: Document)
    requires |Paragraphs(d1)| >= ScanLimit && |Paragraphs(d2)| >= ScanLimit
    requires forall i :: 0 <= i < ScanLimit ==> Paragraphs(d1)[i] == Paragraphs(d2)[i]
    ensures Extract(d1) == Extract(d2)
  {
    assert ScanWindow(d1) == ScanWindow(d2);
  }
}
