/**
 * The popup's module-level state: the parsed content and the extracted
 * record, both `null` until a document is parsed, together with the values
 * of the six metadata inputs the parse fills and the publish handler reads.
 */
module PopupState {
  import opened Wrappers
  import opened JsText
  import opened Dom
  import opened Extraction
  import opened Removal
  import opened Placeholders
  import opened Publish

  class Popup {
    /** `parsedContent`: the processed document, `None` for `null`. */
    var parsedContent: Option<Document>
    /** `extractedMetadata`: the record of the last parse, `None` for `null`. */
    var extractedMetadata: Option<Metadata>
    /** The values of the metadata inputs. */
    var form: Form

    /** The popup as it opens: nothing parsed, every input empty. */
    constructor()
      ensures parsedContent == None && extractedMetadata == None && form == EmptyForm
    {
      parsedContent := None;
      extractedMetadata := None;
      form := EmptyForm;
    }

    /**
     * `parseDocxFile` after the conversion: extracts the record from the
     * converted document, removes the metadata paragraphs, replaces the
     * images, stores both results and fills the form from the record.
     */
    method ParseDocument(doc: Document)
      modifies this
      ensures extractedMetadata == Some(Extract(doc))
      ensures parsedContent == Some(Substitute(Strip(doc)))
      ensures form == FormFromMetadata(Extract(doc))
    {
      var md := ExtractMetadataFromContent(doc);
      extractedMetadata := Some(md);
      var content := RemoveMetadataSection(doc);
      var nodes := new Node[|content|](i requires 0 <= i < |content| => content[i]);
      assert nodes[..] == content;
      HandleImages(nodes);
      parsedContent := Some(nodes[..]);
      form := FormFromMetadata(md);
    }

    /**
     * The publish click handler up to `fetch`: fails when the URL or the
     * token is missing or empty, otherwise addresses the request to the
     * collection's endpoint with the bearer token and the payload built from
     * the inputs and the parsed content.
     */
    method PublishClicked(config: Config) returns (r: Result<Request, string>)
      ensures r == PrepareRequest(config, form, parsedContent)
    {
      if !Truthy(config.strapiUrl) || !Truthy(config.apiToken) {
        return Err(NotConfigured);
      }
      var url := EndpointUrl(config.strapiUrl.value, config.collectionType);
      var data := BuildPayload(form, parsedContent);
      r := Ok(Request(url, BearerHeader(config.apiToken.value), data));
    }

    /** `resetForm`: clears both globals and every metadata input. */
    method Reset()
      modifies this
      ensures parsedContent == None && extractedMetadata == None && form == EmptyForm
    {
      parsedContent := None;
      extractedMetadata := None;
      form := EmptyForm;
    }
  }

  /**
   * What a parse followed by a publish click, with the form left as the
   * parse filled it, sends: the configuration error when the URL or the
   * token is missing, and otherwise the extracted values as the payload and
   * the processed document, with no image left in it, as its content.
   */
  method ParseThenPublish(doc: Document, config: Config) returns (r: Result<Request, string>)
    ensures r.Err? <==> !Truthy(config.strapiUrl) || !Truthy(config.apiToken)
    ensures r.Err? ==> r.error == NotConfigured
    ensures r.Ok? ==> var md := Extract(doc);
            r.value.body == Payload(
              md.title, Some(Substitute(Strip(doc))), OrElse(md.metaTitle, md.title), md.metaDescription,
              md.metaKeywords, md.canonicalUrl,
              if md.publishAt != "" then Some(md.publishAt) else None)
    ensures r.Ok? ==> r.value.body.content.Some? && Images(r.value.body.content.value) == []
  {
    var popup := new Popup();
    popup.ParseDocument(doc);
    r := popup.PublishClicked(config);
    if r.Ok? {
      PublishSendsExtracted(doc, config, popup.parsedContent);
      SubstituteLeavesNoImages(Strip(doc));
    }
  }
}
