/**
 * The form the popup fills from the extracted record, and the POST request
 * the publish button sends to the content API: the endpoint URL built from
 * the stored configuration, the bearer header, and the `data` payload of
 * trimmed form values.
 */
module Publish {
  import opened Wrappers
  import opened JsText
  import opened Dom
  import opened Pattern
  import opened Extraction

  /** The values of the six metadata inputs of the form. */
  datatype Form = Form(
    title: string,
    metaTitle: string,
    metaDescription: string,
    metaKeywords: string,
    canonicalUrl: string,
    publishAt: string)

  /** The six inputs after a reset: all empty. */
  const EmptyForm: Form := Form("", "", "", "", "", "")

  /**
   * JavaScript's `a || b` on strings: the empty string is the only falsy
   * string, so `b` is taken exactly when `a` is empty.
   */
  function OrElse(a: string, b: string): (r: string)
  {
    if a != "" then a else b
  }

  /** How the form is populated after a document is parsed, with `metaTitle` falling back to `title`. */
  function FormFromMetadata(md: Metadata): Form
  {
    Form(
      OrElse(md.title, ""),
      OrElse(md.metaTitle, OrElse(md.title, "")),
      OrElse(md.metaDescription, ""),
      OrElse(md.metaKeywords, ""),
      OrElse(md.canonicalUrl, ""),
      OrElse(md.publishAt, ""))
  }

  /**
   * The three configuration values as `chrome.storage.local.get` hands
   * them over: `None` for a key that was never stored (`undefined`).
   */
  datatype Config = Config(strapiUrl: Option<string>, apiToken: Option<string>, collectionType: Option<string>)

  /** A stored value is truthy when it is present and not the empty string. */
  predicate Truthy(v: Option<string>)
  {
    v.Some? && v.value != ""
  }

  /** What a template literal prints for a stored value: `undefined` for a missing one. */
  function Interpolate(v: Option<string>): string
  {
    match v
    case None => "undefined"
    case Some(s) => s
  }

  /**
   * The endpoint `${strapiUrl}/api/${collectionType}s`: it splits back into
   * the base URL, `/api/`, the printed collection type and the plural `s`.
   */
  function EndpointUrl(base: string, collectionType: Option<string>): (url: string)
    ensures var n := |base| + 5;
            |url| == n + |Interpolate(collectionType)| + 1 &&
            url[..|base|] == base && url[|base|..n] == "/api/" &&
            url[n..|url| - 1] == Interpolate(collectionType) && url[|url| - 1] == 's'
  {
    var url := base + "/api/" + Interpolate(collectionType) + "s";
    assert url[|base| + 5..|url| - 1] == Interpolate(collectionType);
    url
  }

  /** The `Authorization` header value: the token reads back from it after the `Bearer ` scheme. */
  function BearerHeader(token: string): (h: string)
    ensures |h| == 7 + |token| && h[..7] == "Bearer " && h[7..] == token
  {
    "Bearer " + token
  }

  /**
   * The `data` object of the request body. `content` is the parsed document
   * (`null` when none was parsed); `publishAt` is `None` when the property
   * is absent.
   */
  datatype Payload = Payload(
    title: string,
    content: Option<Document>,
    metaTitle: string,
    metaDescription: string,
    metaKeywords: string,
    canonicalUrl: string,
    publishAt: Option<string>)

  /** The request the publish button sends with method POST and a JSON body. */
  datatype Request = Request(url: string, authorization: string, body: Payload)

  /** The error thrown when the configuration lacks the URL or the token. */
  const NotConfigured: string := "Please configure Strapi settings first"

  /** The payload: every form value trimmed, `publishAt` only when it is non-empty once trimmed. */
  function BuildPayload(form: Form, content: Option<Document>): Payload
  {
    var publishAt := Trim(form.publishAt);
    Payload(
      Trim(form.title),
      content,
      Trim(form.metaTitle),
      Trim(form.metaDescription),
      Trim(form.metaKeywords),
      Trim(form.canonicalUrl),
      if publishAt != "" then Some(publishAt) else None)
  }

  /**
   * The publish handler up to the `fetch` call: the configuration check,
   * then the payload and the request.
   */
  function PrepareRequest(config: Config, form: Form, content: Option<Document>): (r: Result<Request, string>)
    ensures r.Err? <==> !Truthy(config.strapiUrl) || !Truthy(config.apiToken)
    ensures r.Err? ==> r.error == NotConfigured
    ensures r.Ok? ==> r.value.body == BuildPayload(form, content)
  {
    if !Truthy(config.strapiUrl) || !Truthy(config.apiToken) then
      Err(NotConfigured)
    else
      Ok(Request(
        EndpointUrl(config.strapiUrl.value, config.collectionType),
        BearerHeader(config.apiToken.value),
        BuildPayload(form, content)))
  }

  /**
   * The form's `metaTitle` is the record's `metaTitle` when that is
   * non-empty and its `title` otherwise; it is empty only when both are.
   * The other five inputs hold the record's fields as they are.
   */
  lemma FormDefaults(md: Metadata)
    ensures var f := FormFromMetadata(md);
            (md.metaTitle != "" ==> f.metaTitle == md.metaTitle) &&
            (md.metaTitle == "" ==> f.metaTitle == md.title) &&
            (f.metaTitle == "" <==> md.metaTitle == "" && md.title == "") &&
            f.title == md.title && f.metaDescription == md.metaDescription &&
            f.metaKeywords == md.metaKeywords && f.canonicalUrl == md.canonicalUrl &&
            f.publishAt == md.publishAt
  {
  }

  /** Every string the payload carries is trimmed, and `publishAt` is present only when it is non-empty. */
  lemma PayloadTrimmed(form: Form, content: Option<Document>)
    ensures var p := BuildPayload(form, content);
            IsTrimmed(p.title) && IsTrimmed(p.metaTitle) && IsTrimmed(p.metaDescription) &&
            IsTrimmed(p.metaKeywords) && IsTrimmed(p.canonicalUrl) &&
            (p.publishAt.Some? ==> p.publishAt.value != "" && IsTrimmed(p.publishAt.value))
    ensures BuildPayload(form, content).publishAt.Some? <==> Trim(form.publishAt) != ""
  {
  }

  /** Every input trimmed. */
  function TrimForm(form: Form): Form
  {
    Form(Trim(form.title), Trim(form.metaTitle), Trim(form.metaDescription),
         Trim(form.metaKeywords), Trim(form.canonicalUrl), Trim(form.publishAt))
  }

  /** Surrounding space in the inputs never reaches the payload: trimming them first changes nothing. */
  lemma PayloadIgnoresSurroundingSpace(form: Form, content: Option<Document>)
    ensures BuildPayload(TrimForm(form), content) == BuildPayload(form, content)
  {
    TrimIdempotent(form.title);
    TrimIdempotent(form.metaTitle);
    TrimIdempotent(form.metaDescription);
    TrimIdempotent(form.metaKeywords);
    TrimIdempotent(form.canonicalUrl);
    TrimIdempotent(form.publishAt);
  }

  /** Over one base URL, distinct stored collection types give distinct endpoints. */
  lemma EndpointUrlInjective(base: string, c1: Option<string>, c2: Option<string>)
    requires EndpointUrl(base, c1) == EndpointUrl(base, c2)
    ensures Interpolate(c1) == Interpolate(c2)
  {
  }

  /** A collection type never stored prints as `undefined`, so the request goes to `/api/undefineds`. */
  lemma MissingCollectionType(base: string)
    ensures EndpointUrl(base, None) == base + "/api/undefineds"
  {
  }

  /** Every field of the record is trimmed. */
  predicate MetadataTrimmed(md: Metadata)
  {
    IsTrimmed(md.title) && IsTrimmed(md.metaTitle) && IsTrimmed(md.metaDescription) &&
    IsTrimmed(md.metaKeywords) && IsTrimmed(md.canonicalUrl) && IsTrimmed(md.publishAt)
  }

  /** Extraction stores trimmed values only. */
  lemma ExtractedTrimmed(doc: Document)
    ensures MetadataTrimmed(Extract(doc))
  {
    ExtractedValuesTrimmed(doc, Title);
    ExtractedValuesTrimmed(doc, MetaTitle);
    ExtractedValuesTrimmed(doc, MetaDescription);
    ExtractedValuesTrimmed(doc, MetaKeywords);
    ExtractedValuesTrimmed(doc, CanonicalUrl);
    ExtractedValuesTrimmed(doc, PublishAt);
  }

  /** The payload of a form filled from a trimmed record carries the record's values. */
  lemma PayloadOfMetadata(md: Metadata, content: Option<Document>)
    requires MetadataTrimmed(md)
    ensures BuildPayload(FormFromMetadata(md), content) == Payload(
              md.title, content, OrElse(md.metaTitle, md.title), md.metaDescription,
              md.metaKeywords, md.canonicalUrl,
              if md.publishAt != "" then Some(md.publishAt) else None)
  {
    TrimOfTrimmed(md.title);
    TrimOfTrimmed(md.metaTitle);
    TrimOfTrimmed(md.metaDescription);
    TrimOfTrimmed(md.metaKeywords);
    TrimOfTrimmed(md.canonicalUrl);
    TrimOfTrimmed(md.publishAt);
  }

  /**
   * A document parsed and published without edits to the form sends the
   * extracted values: each field as extracted (they are already trimmed),
   * `metaTitle` falling back to `title`, and `publishAt` exactly when one
   * was extracted.
   */
  lemma PublishSendsExtracted(doc: Document, config: Config, content: Option<Document>)
    requires Truthy(config.strapiUrl) && Truthy(config.apiToken)
    ensures var md := Extract(doc);
            var r := PrepareRequest(config, FormFromMetadata(md), content);
            r.Ok? &&
            r.value.body == Payload(
              md.title, content, OrElse(md.metaTitle, md.title), md.metaDescription,
              md.metaKeywords, md.canonicalUrl,
              if md.publishAt != "" then Some(md.publishAt) else None)
  {
    ExtractedTrimmed(doc);
    PayloadOfMetadata(Extract(doc), content);
  }
}
