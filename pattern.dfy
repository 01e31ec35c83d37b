/**
 * The metadata line pattern shared by extraction and removal,
 * `^(title|metaTitle|metaDescription|metaKeywords|canonicalUrl|canonicalURL|publishAt):\s*(.+)$`
 * with the `i` flag, written as a string predicate, and the normalisation of
 * a matched key onto one of the six metadata fields.
 */
module Pattern {
  import opened Wrappers
  import opened JsText

  /** The seven key alternatives of the pattern. */
  datatype Key =
    | TitleKey | MetaTitleKey | MetaDescriptionKey | MetaKeywordsKey
    | CanonicalUrlKey | CanonicalURLKey | PublishAtKey

  /** The alternatives in the order the pattern lists them. */
  const Alternatives: seq<Key> :=
    [TitleKey, MetaTitleKey, MetaDescriptionKey, MetaKeywordsKey, CanonicalUrlKey, CanonicalURLKey, PublishAtKey]

  /** How the pattern spells each alternative. */
  function Spelling(k: Key): string
  {
    match k
    case TitleKey => "title"
    case MetaTitleKey => "metaTitle"
    case MetaDescriptionKey => "metaDescription"
    case MetaKeywordsKey => "metaKeywords"
    case CanonicalUrlKey => "canonicalUrl"
    case CanonicalURLKey => "canonicalURL"
    case PublishAtKey => "publishAt"
  }

  /** Each alternative in lower case: what `toLowerCase` makes of any text it matches. */
  function Lowered(k: Key): string
  {
    match k
    case TitleKey => "title"
    case MetaTitleKey => "metatitle"
    case MetaDescriptionKey => "metadescription"
    case MetaKeywordsKey => "metakeywords"
    case CanonicalUrlKey => "canonicalurl"
    case CanonicalURLKey => "canonicalurl"
    case PublishAtKey => "publishat"
  }

  /** What the matched keys become under `toLowerCase`. */
  const LowerKeys: set<string> :=
    {"title", "metatitle", "metadescription", "metakeywords", "canonicalurl", "publishat"}

  /** The six fields of the metadata record. */
  datatype Field = Title | MetaTitle | MetaDescription | MetaKeywords | CanonicalUrl | PublishAt

  /** The property name of each field in the record the popup builds. */
  function FieldName(f: Field): string
  {
    match f
    case Title => "title"
    case MetaTitle => "metaTitle"
    case MetaDescription => "metaDescription"
    case MetaKeywords => "metaKeywords"
    case CanonicalUrl => "canonicalUrl"
    case PublishAt => "publishAt"
  }

  /** One recognised metadata line: which field it sets and to what. */
  datatype Entry = Entry(field: Field, value: string)

  /** The two capture groups of a successful match, as the text spells them. */
  datatype Groups = Groups(key: string, value: string)

  /** `Lowered` is the spelling in lower case, and lands in the six lowered names. */
  lemma SpellingLowered(k: Key)
    ensures LowerAsciiString(Spelling(k)) == Lowered(k) && Lowered(k) in LowerKeys
  {
  }

  /**
   * `t` begins with alternative `k` in any letter case, immediately followed
   * by a colon: under the `i` flag a text character matches a letter of the
   * pattern exactly when both fold to the same lower-case letter.
   */
  predicate KeyAt(t: string, k: Key)
  {
    var lw := Lowered(k);
    |lw| < |t| && t[|lw|] == ':' && forall i :: 0 <= i < |lw| ==> LowerAscii(t[i]) == lw[i]
  }

  /** The first alternative, from position `from` of the pattern on, that `t` begins with. */
  function FindKey(t: string, from: nat): (r: Option<Key>)
    requires from <= |Alternatives|
    ensures r.Some? ==> KeyAt(t, r.value)
    ensures r.None? ==> forall j :: from <= j < |Alternatives| ==> !KeyAt(t, Alternatives[j])
    decreases |Alternatives| - from
  {
    if from == |Alternatives| then None
    else if KeyAt(t, Alternatives[from]) then Some(Alternatives[from])
    else FindKey(t, from + 1)
  }

  lemma FindKeyNone(t: string, k: Key)
    requires FindKey(t, 0).None?
    ensures !KeyAt(t, k)
  {
    var j :| 0 <= j < |Alternatives| && Alternatives[j] == k;
  }

  /** The text a key test accepts, lowered, is that key's lower-case name. */
  lemma KeyAtLowered(t: string, k: Key)
    requires KeyAt(t, k)
    ensures LowerAsciiString(t[..|Lowered(k)|]) == Lowered(k)
  {
  }

  /**
   * Group 2 for the text after the colon: `\s*` takes as much space as it can
   * and gives it back one character at a time until `.+` reaches the end.
   */
  function CaptureValue(rest: string): Option<string>
  {
    var v := TrimStart(rest);
    if v != [] then
      if NoLineTerminator(v) then Some(v) else None
    else if rest != [] && !IsLineTerminator(rest[|rest| - 1]) then Some(rest[|rest| - 1..])
    else None
  }

  /** `t.match(metadataPattern)`: the capture groups, or None when `t` does not match. */
  function MatchPattern(t: string): (r: Option<Groups>)
    ensures r.Some? ==> LowerAsciiString(r.value.key) in LowerKeys
    ensures r.Some? ==> |r.value.key| + 1 + |r.value.value| <= |t| && r.value.value != []
  {
    match FindKey(t, 0)
    case None => None
    case Some(k) =>
      var n := |Lowered(k)|;
      match CaptureValue(t[n + 1..])
      case None => None
      case Some(v) =>
        KeyAtLowered(t, k);
        SpellingLowered(k);
        Some(Groups(t[..n], v))
  }

  /** A match is the first alternative that starts `t` and the group 2 captured after its colon. */
  lemma MatchPatternParts(t: string)
    requires MatchPattern(t).Some?
    ensures FindKey(t, 0).Some?
    ensures var k := FindKey(t, 0).value;
            var g := MatchPattern(t).value;
            g.key == t[..|Lowered(k)|] && LowerAsciiString(g.key) == Lowered(k)
            && CaptureValue(t[|Lowered(k)| + 1..]) == Some(g.value)
  {
    KeyAtLowered(t, FindKey(t, 0).value);
  }

  /**
   * The pattern's meaning, stated the way a backtracking matcher reads it:
   * alternative `k` matches the start of `t`, a colon follows, the text
   * between the colon and position `s` is all space (`\s*`), and the text from
   * `s` to the end is non-empty and holds no line terminator (`.+$`).
   */
  ghost predicate RegexMatchesAt(t: string, k: Key, s: int)
  {
    KeyAt(t, k) && |Lowered(k)| + 1 <= s < |t|
    && AllSpace(t[|Lowered(k)| + 1..s]) && NoLineTerminator(t[s..])
  }

  /** No alternative holds a colon, so a colon after a key ends it. */
  lemma LoweredHasNoColon(k: Key, j: int)
    requires 0 <= j < |Lowered(k)|
    ensures Lowered(k)[j] != ':'
  {
  }

  /** Two alternatives that both start `t` are the same key up to letter case. */
  lemma KeyAtUnique(t: string, k1: Key, k2: Key)
    requires KeyAt(t, k1) && KeyAt(t, k2)
    ensures Lowered(k1) == Lowered(k2)
  {
    var a, b := Lowered(k1), Lowered(k2);
    if |a| < |b| {
      LoweredHasNoColon(k2, |a|);
      assert false;
    } else if |b| < |a| {
      LoweredHasNoColon(k1, |b|);
      assert false;
    } else {
      assert forall j | 0 <= j < |a| :: a[j] == LowerAscii(t[j]) == b[j];
    }
  }

  /**
   * What group 2 takes is a non-empty tail of the text after the colon
   * without a line terminator, and what `\s*` skipped before it is space.
   */
  lemma CaptureValueShape(rest: string, v: string)
    requires CaptureValue(rest) == Some(v)
    ensures 0 < |v| <= |rest| && v == rest[|rest| - |v|..]
    ensures AllSpace(rest[..|rest| - |v|]) && NoLineTerminator(v)
  {
    TrimStartDropsSpace(rest);
    if TrimStart(rest) == [] {
      assert rest[..|rest|] == rest;
      assert forall i | 0 <= i < |rest| - 1 :: rest[..|rest| - 1][i] == rest[..|rest|][i];
    }
  }

  /**
   * Group 2 after a key of length `n`, in the backtracking reading: what
   * `\s*` skips is space, and what `.+` takes runs to the end without a line
   * terminator.
   */
  lemma CaptureValueSound(t: string, n: nat, v: string)
    requires n + 1 <= |t| && CaptureValue(t[n + 1..]) == Some(v)
    ensures n + 1 <= |t| - |v| < |t|
    ensures AllSpace(t[n + 1..|t| - |v|]) && NoLineTerminator(t[|t| - |v|..])
  {
    var rest := t[n + 1..];
    CaptureValueShape(rest, v);
    assert t[n + 1..|t| - |v|] == rest[..|rest| - |v|];
    assert t[|t| - |v|..] == v;
  }

  /** Every split the backtracking reading accepts is found, and `\s*` takes the longest. */
  lemma CaptureValueComplete(t: string, n: nat, s: int)
    requires n + 1 <= s < |t| && AllSpace(t[n + 1..s]) && NoLineTerminator(t[s..])
    ensures CaptureValue(t[n + 1..]).Some?
    ensures s <= |t| - |CaptureValue(t[n + 1..]).value|
  {
    var rest := t[n + 1..];
    var w := t[n + 1..s];
    var u := t[s..];
    assert rest == w + u;
    TrimStartOfSpacePrefix(w, u);
    var v := TrimStart(u);
    assert TrimStart(rest) == v;
    if v != [] {
      forall i | 0 <= i < |v|
        ensures !IsLineTerminator(v[i])
      {
        assert v[i] == u[|u| - |v| + i];
      }
      assert CaptureValue(rest) == Some(v);
    } else {
      assert rest[|rest| - 1] == u[|u| - 1];
      assert CaptureValue(rest) == Some(rest[|rest| - 1..]);
    }
  }

  /** On trimmed text group 2 is the text after the colon with leading space dropped. */
  lemma CaptureValueTrimmed(t: string, n: nat)
    requires IsTrimmed(t) && n + 1 <= |t| && CaptureValue(t[n + 1..]).Some?
    ensures var v := CaptureValue(t[n + 1..]).value;
            v == TrimStart(t[n + 1..]) && v != [] && IsTrimmed(v) && NoLineTerminator(v)
  {
    var rest := t[n + 1..];
    TrimStartDropsSpace(rest);
    assert rest[|rest| - 1] == t[|t| - 1];
  }

  /** Alternative `k` followed by a capturable group 2 is a match in the backtracking reading. */
  lemma RegexMatchesOfCapture(t: string, k: Key, v: string)
    requires KeyAt(t, k) && CaptureValue(t[|Lowered(k)| + 1..]) == Some(v)
    ensures RegexMatchesAt(t, k, |t| - |v|)
  {
    CaptureValueSound(t, |Lowered(k)|, v);
  }

  /**
   * Every match the function reports is a match in the backtracking reading:
   * group 2 is `v` and it starts where the backtracking reading splits `t`.
   */
  lemma MatchPatternSound(t: string) returns (k: Key, v: string)
    requires MatchPattern(t).Some?
    ensures v == MatchPattern(t).value.value
    ensures RegexMatchesAt(t, k, |t| - |v|)
  {
    MatchPatternParts(t);
    k := FindKey(t, 0).value;
    v := MatchPattern(t).value.value;
    RegexMatchesOfCapture(t, k, v);
  }

  /** Whichever alternative the text starts with, the match reports its group 2. */
  lemma MatchOfKey(t: string, k: Key, v: string)
    requires KeyAt(t, k) && CaptureValue(t[|Lowered(k)| + 1..]) == Some(v)
    ensures MatchPattern(t) == Some(Groups(t[..|Lowered(k)|], v))
    ensures LowerAsciiString(MatchPattern(t).value.key) == Lowered(k)
  {
    if FindKey(t, 0).None? {
      FindKeyNone(t, k);
      assert false;
    }
    KeyAtUnique(t, k, FindKey(t, 0).value);
    KeyAtLowered(t, k);
  }

  /**
   * Every match in the backtracking reading is found, with group 1 the same
   * key up to letter case, and the function's group 2 starts at the latest
   * possible split: `\s*` is greedy.
   */
  lemma MatchPatternComplete(t: string, k: Key, s: int)
    requires RegexMatchesAt(t, k, s)
    ensures MatchPattern(t).Some?
    ensures LowerAsciiString(MatchPattern(t).value.key) == Lowered(k)
    ensures s <= |t| - |MatchPattern(t).value.value|
  {
    CaptureValueComplete(t, |Lowered(k)|, s);
    MatchOfKey(t, k, CaptureValue(t[|Lowered(k)| + 1..]).value);
  }

  /**
   * The source's key normalisation, applied to `match[1].toLowerCase()`:
   * each lowered key is stored under the field whose property name it is,
   * once lowered.
   */
  function FieldOfKey(key: string): (r: Field)
    requires key in LowerKeys
    ensures LowerAsciiString(FieldName(r)) == key
  {
    if key == "canonicalurl" then (SpellingLowered(CanonicalUrlKey); CanonicalUrl)
    else if key == "metatitle" then (SpellingLowered(MetaTitleKey); MetaTitle)
    else if key == "metadescription" then (SpellingLowered(MetaDescriptionKey); MetaDescription)
    else if key == "metakeywords" then (SpellingLowered(MetaKeywordsKey); MetaKeywords)
    else if key == "publishat" then (SpellingLowered(PublishAtKey); PublishAt)
    // the remaining key is "title", stored under its own name
    else (SpellingLowered(TitleKey); Title)
  }

  /** The field an alternative sets, whatever letter case the text uses for it. */
  function FieldOf(k: Key): Field
  {
    SpellingLowered(k);
    FieldOfKey(Lowered(k))
  }

  /**
   * Normalisation is total over the seven alternatives and onto the six
   * fields: each field is set by the alternative spelled as its own property
   * name, and the only two alternatives that share a field are the two
   * spellings of the canonical URL key.
   */
  lemma FieldOfTotalAndOnto()
    ensures forall f: Field :: exists k :: Spelling(k) == FieldName(f) && FieldOf(k) == f
    ensures forall k1: Key, k2: Key :: FieldOf(k1) == FieldOf(k2) ==>
              k1 == k2 || (k1 in {CanonicalUrlKey, CanonicalURLKey} && k2 in {CanonicalUrlKey, CanonicalURLKey})
  {
    assert FieldOf(TitleKey) == Title && FieldOf(MetaTitleKey) == MetaTitle;
    assert FieldOf(MetaDescriptionKey) == MetaDescription && FieldOf(MetaKeywordsKey) == MetaKeywords;
    assert FieldOf(CanonicalUrlKey) == CanonicalUrl && FieldOf(CanonicalURLKey) == CanonicalUrl;
    assert FieldOf(PublishAtKey) == PublishAt;
    forall f: Field
      ensures exists k :: Spelling(k) == FieldName(f) && FieldOf(k) == f
    {
      match f
      case Title => assert Spelling(TitleKey) == FieldName(f) && FieldOf(TitleKey) == f;
      case MetaTitle => assert Spelling(MetaTitleKey) == FieldName(f) && FieldOf(MetaTitleKey) == f;
      case MetaDescription =>
        assert Spelling(MetaDescriptionKey) == FieldName(f) && FieldOf(MetaDescriptionKey) == f;
      case MetaKeywords => assert Spelling(MetaKeywordsKey) == FieldName(f) && FieldOf(MetaKeywordsKey) == f;
      case CanonicalUrl => assert Spelling(CanonicalUrlKey) == FieldName(f) && FieldOf(CanonicalUrlKey) == f;
      case PublishAt => assert Spelling(PublishAtKey) == FieldName(f) && FieldOf(PublishAtKey) == f;
    }
  }

  /**
   * On trimmed text group 2 is what is left after the colon once leading
   * space is dropped; it is non-empty, trimmed and free of line terminators.
   */
  lemma TrimmedMatchValue(t: string)
    requires IsTrimmed(t) && MatchPattern(t).Some?
    ensures FindKey(t, 0).Some?
    ensures MatchPattern(t).value.value == TrimStart(t[|Lowered(FindKey(t, 0).value)| + 1..])
    ensures var v := MatchPattern(t).value.value;
            v != [] && IsTrimmed(v) && NoLineTerminator(v) && Trim(v) == v
  {
    MatchPatternParts(t);
    CaptureValueTrimmed(t, |Lowered(FindKey(t, 0).value)|);
    TrimOfTrimmed(MatchPattern(t).value.value);
  }

  /** A paragraph's text as the loops see it: trimmed, then matched, then normalised. */
  function Recognise(text: string): (r: Option<Entry>)
    ensures r.Some? ==> r.value.value != [] && IsTrimmed(r.value.value)
                        && NoLineTerminator(r.value.value)
  {
    var t := Trim(text);
    match MatchPattern(t)
    case None => None
    case Some(g) =>
      TrimmedMatchValue(t);
      Some(Entry(FieldOfKey(LowerAsciiString(g.key)), Trim(g.value)))
  }

  /** `metadataPattern.test(text)` on the trimmed text, as the removal loop asks it. */
  predicate IsMetadataText(text: string)
  {
    MatchPattern(Trim(text)).Some?
  }

  /** Extraction and removal agree on which paragraphs are metadata lines. */
  lemma RecogniseIffMetadataText(text: string)
    ensures Recognise(text).Some? <==> IsMetadataText(text)
  {
  }

  /**
   * The pattern reduced to a hand-written test on trimmed text `t`: `t`
   * starts with alternative `k` (any letter case) and a colon, and what
   * follows once leading space is dropped is `v`, non-empty and without line
   * terminators.
   */
  ghost predicate IsMetadataLine(t: string, k: Key, v: string)
  {
    KeyAt(t, k) && v == TrimStart(t[|Lowered(k)| + 1..]) && v != [] && NoLineTerminator(v)
  }

  /** What a recognised paragraph passes: the hand-written test, with an alternative for its field. */
  lemma RecognisedLine(text: string) returns (k: Key, e: Entry)
    requires Recognise(text).Some?
    ensures Recognise(text) == Some(e)
    ensures IsMetadataLine(Trim(text), k, e.value) && FieldOf(k) == e.field
  {
    var t := Trim(text);
    e := Recognise(text).value;
    TrimmedMatchValue(t);
    MatchPatternParts(t);
    k := FindKey(t, 0).value;
  }

  /** Text passing the hand-written test is recognised, with the field of its alternative. */
  lemma LineRecognised(text: string, k: Key, v: string)
    requires IsMetadataLine(Trim(text), k, v)
    ensures Recognise(text) == Some(Entry(FieldOf(k), v))
  {
    var t := Trim(text);
    MatchOfKey(t, k, v);
    TrimmedMatchValue(t);
  }

  /**
   * A paragraph is recognised as setting field `f` to `v` exactly when its
   * trimmed text passes the hand-written test with an alternative for `f`.
   */
  lemma RecogniseCharacterised(text: string, f: Field, v: string)
    ensures Recognise(text) == Some(Entry(f, v)) <==>
            exists k :: IsMetadataLine(Trim(text), k, v) && FieldOf(k) == f
  {
    if Recognise(text) == Some(Entry(f, v)) {
      var k, e := RecognisedLine(text);
    }
    if k :| IsMetadataLine(Trim(text), k, v) && FieldOf(k) == f {
      LineRecognised(text, k, v);
    }
  }
}
