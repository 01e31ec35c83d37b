# Document post-processing of the DOCX-to-Strapi popup, in Dafny

The popup (`popup.js`) turns a word-processor document into a blog post for a
Strapi content API. Once the converter has produced the document's HTML, the
popup runs three steps on it:

- It scans the first fifteen paragraphs for `key: value` metadata lines and
  builds a record of six string fields (`extractMetadataFromContent`).
- It deletes those metadata paragraphs from the content
  (`removeMetadataSection`).
- It replaces every image by a placeholder paragraph (`handleImages`).

The popup then fills the form from the record. When the publish button is
clicked, it builds a POST request from the stored configuration and the
trimmed form values.

This project models those steps, the popup's two module-level variables and
the form, and proves what they guarantee. It has these modules:

- `JsText`: `String.prototype.trim` over the JavaScript white-space and
  line-terminator characters, ASCII lower case, and the decimal printing of
  numbers in template literals.
- `Dom`: the converted document as a flat list of nodes in document order.
  Every `p` and every `img` anywhere in the tree, table cells included, is a
  node of its own: a paragraph with its `textContent`, an image with its
  `alt`. `Other` stands for markup with no `p` and no `img` inside it.
  `Paragraphs` and `Images` are the two `querySelectorAll` queries.
- `Pattern`: the metadata pattern
  `/^(title|metaTitle|metaDescription|metaKeywords|canonicalUrl|canonicalURL|publishAt):\s*(.+)$/i`.
  It is written as a string function (`MatchPattern`) and proved equal to a
  reading of the regular expression with backtracking (`RegexMatchesAt`). The
  module also holds the normalisation of the lower-cased key onto a field.
- `Extraction`: the scan loop, as a method proved against the fold `Extract`.
- `Removal`: the removal loop, as a method proved against the filter `Strip`.
- `Placeholders`: the in-place image replacement over an array, proved
  against `Substitute`.
- `Publish`: form defaulting, the endpoint URL, the bearer header, the
  payload and the configuration error.
- `PopupState`: the class holding `parsedContent`, `extractedMetadata` and
  the form inputs, with the parse, publish-click and reset operations.

Some behaviour of the code is worth stating up front:

- Removal is not idempotent. Removal looks only at the first fifteen
  paragraphs of the document it is given. Paragraphs after those move into
  the window once earlier ones are deleted, so a second run can delete more
  (`Removal.StripNotIdempotent`).
- A metadata line separates its key from its value by `:` and nothing else
  (popup.js:136).
- The title comes only from a `title:` line (popup.js:136-159). No heading
  and no first paragraph ever supplies it.
- The request goes to `${strapiUrl}/api/${collectionType}s` (popup.js:240),
  one address and no other.
- The payload always carries the five text fields, even when they are empty
  (popup.js:222-231). `content` is always present, with `null` when nothing
  was parsed. `publishAt` is present only when it is non-empty once trimmed
  (popup.js:234-236).

## Model

| member | source | states |
|---|---|---|
| JsText.Trim | popup.js:139 | `trim` leaves no white space or line terminator at either end and never lengthens the text |
| JsText.TrimIsInfix | popup.js:139 | what `trim` removes is white space at the two ends; what it keeps is a contiguous piece of the input |
| JsText.TrimIdempotent | popup.js:144 | trimming a trimmed text changes nothing, so the second `trim` of a value is harmless |
| JsText.LowerAsciiString | popup.js:143 | `toLowerCase` over ASCII letters: the same length, each character lowered on its own |
| JsText.NatToStringRoundTrip | popup.js:194 | the decimal digits a template literal prints for an image position read back as that position |
| JsText.NatToStringInjective | popup.js:194 | different positions print differently |
| Dom.Paragraphs | popup.js:135 | `querySelectorAll('p')` read through `textContent`: the text of every paragraph node, in document order |
| Dom.Images | popup.js:192 | `querySelectorAll('img')` read through `alt`: the `alt` of every image node, in document order |
| Dom.ParagraphsAppend | popup.js:135 | the paragraph query over two consecutive parts of a document is the concatenation of the two queries |
| Dom.ImagesAppend | popup.js:192 | the image query over two consecutive parts of a document is the concatenation of the two queries |
| Dom.NonParagraphsAppend | popup.js:171-180 | the non-paragraph nodes of two consecutive parts are the concatenation of each part's |
| Dom.ParagraphPosition | popup.js:171-176 | entry `i` of the static paragraph list is a paragraph node with exactly `i` paragraphs before it |
| Pattern.SpellingLowered | popup.js:136-143 | `toLowerCase` of every key alternative is one of the six lower-case keys the if-chain tests |
| Pattern.KeyAt | popup.js:136 | the text begins with an alternative in any ASCII letter case, immediately followed by `:` |
| Pattern.FindKey | popup.js:136 | an alternative is reported only if the text starts with it, in any letter case, followed by `:`; no report means no alternative does |
| Pattern.CaptureValue | popup.js:136 | group 2 after the colon: greedy `\s*` over white space, then `.+` to the end, giving back one character when nothing else is left; no match when a line terminator remains |
| Pattern.MatchPattern | popup.js:136-140 | a match's group 1 lowers to one of the six keys; group 2 is non-empty and fits after the key and the colon |
| Pattern.KeyAtUnique | popup.js:136 | at most one alternative, up to letter case, can start a text and be followed by `:`, so group 1 is determined |
| Pattern.MatchPatternSound | popup.js:136 | every reported match is a match of the regular expression: key, colon, `\s*` over white space, `.+` to the end without line terminators |
| Pattern.MatchPatternComplete | popup.js:136 | whenever the regular expression matches, a match is reported with the same key, and group 2 starts where greedy `\s*` puts it |
| Pattern.CaptureValueTrimmed | popup.js:136-139 | on trimmed text, group 2 is what follows the colon with leading white space dropped: non-empty, trimmed, single-line |
| Pattern.FieldOfKey | popup.js:143-159 | each lower-cased key is stored under the field whose property name, lower-cased, is that key |
| Pattern.FieldOfTotalAndOnto | popup.js:143-159 | normalisation reaches every field from the alternative with the field's own name; two alternatives share a field only if both are the canonical URL spellings |
| Pattern.TrimmedMatchValue | popup.js:139-144 | on trimmed text, the stored value is the text after the key's colon with leading white space dropped; trimming it again changes nothing |
| Pattern.Recognise | popup.js:139-144 | a recognised paragraph yields a non-empty, trimmed, single-line value |
| Pattern.IsMetadataText | popup.js:177 | removal's `metadataPattern.test` on the trimmed paragraph text |
| Pattern.RecogniseIffMetadataText | popup.js:172-177 | extraction's `match` and removal's `test` accept the same paragraphs |
| Pattern.RecognisedLine | popup.js:136-159 | a recognised paragraph passes the hand-written test (alternative, colon, non-empty single-line remainder), with the field of that alternative |
| Pattern.LineRecognised | popup.js:136-159 | text passing the hand-written test is recognised, with the field of its alternative and the remainder as value |
| Pattern.RecogniseCharacterised | popup.js:136-159 | a paragraph sets field `f` to `v` exactly when its trimmed text passes the hand-written test with an alternative for `f` and remainder `v` |
| Extraction.Set | popup.js:147-158 | an assignment sets its one field and leaves the other five as they were |
| Extraction.FoldPrefix | popup.js:138-161 | one more iteration of the loop is one more step of the fold |
| Extraction.ScanWindow | popup.js:138 | the loop visits at most fifteen paragraphs and never more than there are |
| Extraction.ScanParagraph | popup.js:139-159 | the loop body stores the trimmed group 2 in the field the lower-cased group 1 names, and changes nothing when the text does not match |
| Extraction.Extract | popup.js:120-164 | the record `extractMetadataFromContent` returns: the recognised lines of the scanned paragraphs folded over the record of six empty fields; its properties are the lemmas below |
| Extraction.ExtractMetadataFromContent | popup.js:120-164 | the loop over the first `min(15, paragraphs.length)` paragraphs returns the fold of their recognised lines over the empty record |
| Extraction.UnsetFieldStaysEmpty | popup.js:121-128 | a field no recognised line sets keeps its initial `''` |
| Extraction.LastEntryWins | popup.js:138-161 | a field holds the value of the last recognised line that sets it |
| Extraction.UnsetFieldEmpty | popup.js:121-161 | a field no scanned paragraph sets is `''` in the returned record |
| Extraction.LastMatchWins | popup.js:138-161 | when several scanned paragraphs set one field, the record holds the value from the last of them |
| Extraction.FoldValuesTrimmed | popup.js:144 | folding trimmed single-line values yields fields that are empty or trimmed and single-line |
| Extraction.ExtractedValuesTrimmed | popup.js:144 | every returned field is `''` or a trimmed single-line value |
| Extraction.CanonicalSpellingsAgree | popup.js:136-148 | `canonicalUrl` and `canonicalURL`, in any letter case, both set `canonicalUrl` and no other field |
| Extraction.ScanWindowIgnoresTail | popup.js:138 | once a document has fifteen paragraphs, appending nodes leaves the scanned paragraphs unchanged |
| Extraction.ExtractIgnoresTail | popup.js:138 | once a document has fifteen paragraphs, appending nodes leaves the record unchanged |
| Extraction.WindowDeterminesExtraction | popup.js:138 | documents whose first fifteen paragraphs agree give the same record, whatever follows |
| Removal.Removed | popup.js:171-180 | a node is deleted exactly when it is a paragraph with fewer than fifteen paragraphs before it whose trimmed text passes the test |
| Removal.Strip | popup.js:171-180 | the document after removal: the nodes not deleted, in their original order; its properties are the lemmas below |
| Removal.DropMarksPrefix | popup.js:171-176 | whether a node is removed depends only on the document up to that node |
| Removal.StripBeyondWindow | popup.js:175 | once fifteen paragraphs have been passed, every later node is kept as it is |
| Removal.StripStep | popup.js:175-179 | a paragraph is deleted when fewer than fifteen paragraphs precede it and its trimmed text matches; every other node is kept |
| Removal.StripStopped | popup.js:175 | when the loop stops, the nodes it has not visited are kept as they are |
| Removal.RemoveMetadataSection | popup.js:167-183 | the removal loop returns the document without the metadata paragraphs of the window, all else in order |
| Removal.KeepNonParagraphs | popup.js:171-180 | deleting only paragraphs keeps every other node, in order |
| Removal.StripKeepsNonParagraphs | popup.js:171-180 | removal keeps every non-paragraph node, with its content and in its order |
| Removal.StripParagraphsKept | popup.js:171-180 | the paragraphs left are those of the paragraph list not both in the window and a metadata line, in order |
| Removal.StripParagraphs | popup.js:171-180 | the paragraphs left are the window's non-metadata paragraphs followed by every paragraph after the window, unchanged |
| Removal.ExtractedFromRemoved | popup.js:136-177 | every non-empty extracted field comes from a paragraph removal deletes, recognised with that field and value |
| Removal.TitleLineIsMetadata | popup.js:172 | `title:x` is a metadata line |
| Removal.StripCopies | popup.js:175-179 | of sixteen copies of a metadata line, removal keeps only the last |
| Removal.StripNotIdempotent | popup.js:171-180 | removal run twice can delete more than removal run once |
| Placeholders.Substitute | popup.js:192-202 | substitution replaces nodes one for one, keeping the document's length |
| Placeholders.SubstitutePrefix | popup.js:193-201 | one more node of the `forEach`: an image becomes the placeholder for the next position |
| Placeholders.HandleImages | popup.js:186-205 | the in-place replacement leaves the array holding the substituted document |
| Placeholders.Label | popup.js:194 | the label is never empty, and it is the `alt` text whenever that is non-empty |
| Placeholders.PlaceholderText | popup.js:196 | the placeholder text `[IMAGE PLACEHOLDER: label]` (the `<strong>` wrapper is left out) |
| Placeholders.LabelNamesImage | popup.js:194 | without an `alt` text the label is `Image ` and the 1-based position in decimal, which reads back |
| Placeholders.SubstituteLeavesNoImages | popup.js:192-202 | no image is left after substitution |
| Placeholders.SubstituteWithoutImages | popup.js:192 | a document without images is left as it is |
| Placeholders.SubstituteIdempotent | popup.js:192-202 | substituting twice is substituting once |
| Placeholders.SubstituteAt | popup.js:193-201 | the image at a position becomes the placeholder for its `alt` and its 1-based position among all images; every other node is unchanged |
| Placeholders.ImageIndex | popup.js:192-193 | the image at a position is the entry of the image list whose index is the number of images before it |
| Placeholders.SubstituteCountsPlaceholders | popup.js:195-201 | the output has as many more paragraphs as the input had images |
| Publish.FormFromMetadata | popup.js:108-113 | the form filled from a record, each input `field \|\| ''` and `metaTitle` falling back to `title`; its properties are in `FormDefaults` |
| Publish.FormDefaults | popup.js:108-113 | the form's `metaTitle` is `metaTitle` if non-empty, else `title`; it is empty only if both are; the other inputs copy their fields |
| Publish.PrepareRequest | popup.js:217-240 | the request fails with `Please configure Strapi settings first` exactly when the URL or the token is missing or empty; otherwise its body is the payload of the form |
| Publish.BuildPayload | popup.js:222-236 | the `data` object: the five inputs trimmed, the content, and `publishAt` only when its trimmed input is non-empty; its properties are the lemmas below |
| Publish.PayloadTrimmed | popup.js:222-235 | every payload string is trimmed; `publishAt` is present exactly when the trimmed input is non-empty, and then it is non-empty |
| Publish.PayloadIgnoresSurroundingSpace | popup.js:222-235 | white space around the inputs never reaches the payload |
| Publish.EndpointUrl | popup.js:240 | the URL splits back into the base URL, `/api/`, the printed collection type and the plural `s` |
| Publish.EndpointUrlInjective | popup.js:240 | over one base URL, different collection types give different endpoints |
| Publish.MissingCollectionType | popup.js:240 | a collection type that was never stored sends the request to `/api/undefineds` |
| Publish.BearerHeader | popup.js:245 | the `Authorization` value is `Bearer ` followed by the token, which reads back from it |
| Publish.ExtractedTrimmed | popup.js:144 | every field of an extracted record is trimmed |
| Publish.PayloadOfMetadata | popup.js:222-235 | the payload of a form filled from a trimmed record carries the record's values, `metaTitle` falling back to `title` |
| Publish.PublishSendsExtracted | popup.js:217-235 | publishing a parsed document without edits sends the extracted values, with `publishAt` present exactly when one was extracted |
| PopupState.Popup.constructor | popup.js:2-3 | the popup opens with nothing parsed and empty inputs |
| PopupState.Popup.ParseDocument | popup.js:94-113 | a parse stores the extracted record, the content after removal and substitution, and the form filled from the record |
| PopupState.Popup.PublishClicked | popup.js:217-240 | the publish handler, building the URL, the header and the payload, produces the request `PrepareRequest` describes |
| PopupState.Popup.Reset | popup.js:296-309 | reset clears both variables and every metadata input |
| PopupState.ParseThenPublish | popup.js:217-240 | a parse followed by a publish click fails exactly on a missing URL or token; otherwise it sends the extracted values and image-free content |

## Left out

- The DOCX-to-HTML conversion by `mammoth.convertToHtml` (popup.js:76-91) is a foreign library. Its output is the input `Document`.
- HTML parsing and serialisation through `innerHTML`, `querySelectorAll` and `textContent` are browser behaviour. The document is a flat list of nodes in document order.
  - The model does not capture nesting. An image inside a paragraph, as the converter emits it, is a node of its own here, and so is a paragraph inside a table cell. A paragraph's text and its removal are modelled apart from the images inside it. So when removal deletes a metadata paragraph that holds an image, the browser deletes the image with it and every later image gets a smaller `Image k` label; the model keeps that image and its label.
- Removal.RemoveMetadataSection: the source detaches nodes from a tree in place. The model returns the sequence of remaining nodes in their order. What detaching does to nodes nested inside a deleted paragraph is the nesting point above.
- Placeholders.HandleImages: the model leaves out three things.
  - It does not model the `<strong>` wrapper or the CSS styling of the placeholder (popup.js:196-200). The placeholder is a paragraph whose text is `[IMAGE PLACEHOLDER: label]`.
  - It does not model the unescaped injection of the `alt` text into `innerHTML`.
  - `textContent` of the placeholder is modelled as the label text. A label containing markup would parse differently in a browser.
- Case-insensitive matching folds only ASCII letters. JavaScript's `i` flag without the `u` flag never maps a non-ASCII character onto an ASCII one, so the key test is exact. `toLowerCase` is applied only to text that has already matched an ASCII key.
- The configuration load and save through `chrome.storage.local` (popup.js:30-52, 212-215) is an external store. Its result is the `Config` parameter.
- The `fetch` call, response parsing and error messages after it (popup.js:239-256) are network I/O. The model stops at the request. JSON encoding of the body is not modelled.
- Status messages, the loading indicator, the timer that hides a status message and the file input's name display (popup.js:55-72, 258-294) are display-only. `resetForm` (popup.js:296-310) is modelled only for the two variables and the six metadata inputs.
- PopupState.Popup.Reset: the model has the reset but not when it runs. After a successful publish a timer runs `resetForm` three seconds later (popup.js:265-267), and it also clears a document parsed during those three seconds. The file handler and the publish handler are asynchronous (popup.js:55-72, 208-215); the model runs each as one atomic step, so no interleaving of the two is modelled.
- The user's edits to the form between parse and publish are not modelled. `PublishClicked` takes whatever the form holds.
