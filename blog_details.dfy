/**
 * The blog detail fetcher (cei6/details/blogs_details.py): the two-attempt
 * retry decision of `_fetch_html`, over the responses the session would
 * return, and the field extraction of `parse_blog_detail`, over what its
 * tree queries return.
 */
module BlogDetails {
  import opened Wrappers
  import opened Text
  import Seqs

  // ----- _fetch_html -----

  /** A response: its status code and its decoded text. */
  datatype Response = Response(status: int, body: string)

  /** The statuses after which `_fetch_html` sleeps and tries again. */
  predicate Retryable(status: int)
  {
    status == 403 || status == 429 || status == 500 || status == 502 || status == 503
  }

  /** The statuses for which `raise_for_status` raises. */
  predicate IsHttpError(status: int)
  {
    400 <= status < 600
  }

  /** What `raise_for_status` raises. */
  const HttpError: string := "HTTPError"

  /**
   * What `_fetch_html` returns when attempt `i` gets `get(i)`, as written.
   * A status that is neither 200 nor an error (204, a 3xx without
   * redirect) raises nothing, so the loop goes on; two such statuses end in
   * the `return ""` meant never to be reached.
   */
  function FetchHtml(get: nat -> Response): Result<string>
  {
    var r0 := get(0);
    if r0.status == 200 then Ok(r0.body)
    else if !Retryable(r0.status) && IsHttpError(r0.status) then Err(HttpError)
    else
      var r1 := get(1);
      if r1.status == 200 then Ok(r1.body)
      else if IsHttpError(r1.status) then Err(HttpError)
      else Ok("")
  }

  /** When the first response settles the call, there is no second attempt. */
  predicate FirstAttemptDecides(get: nat -> Response)
  {
    get(0).status == 200 || (!Retryable(get(0).status) && IsHttpError(get(0).status))
  }

  /** `_fetch_html`: the `range(2)` loop, then the final `raise_for_status`; `calls` counts the GETs. */
  method FetchHtmlLoop(get: nat -> Response) returns (r: Result<string>, calls: nat)
    ensures r == FetchHtml(get)
    ensures 1 <= calls <= 2
    ensures calls == 1 <==> FirstAttemptDecides(get)
  {
    var resp := get(0);
    calls := 0;
    for attempt := 0 to 2
      invariant calls == attempt
      invariant attempt > 0 ==> resp == get(attempt - 1)
      invariant attempt > 0 ==> !FirstAttemptDecides(get)
      invariant attempt == 2 ==> get(1).status != 200 && !(!Retryable(get(1).status) && IsHttpError(get(1).status))
    {
      resp := get(attempt);
      calls := calls + 1;
      if resp.status == 200 {
        return Ok(resp.body), calls;
      }
      if Retryable(resp.status) {
        continue;
      }
      if IsHttpError(resp.status) {
        return Err(HttpError), calls;
      }
    }
    if IsHttpError(resp.status) {
      return Err(HttpError), calls;
    }
    return Ok(""), calls;
  }

  /**
   * The outcome of `_fetch_html`: the body of the first 200 response; a raise
   * at once on a non-retryable error; a raise after two retryable ones.
   */
  lemma FetchHtmlCases(get: nat -> Response)
    ensures get(0).status == 200 ==> FetchHtml(get) == Ok(get(0).body)
    ensures !Retryable(get(0).status) && IsHttpError(get(0).status) ==> FetchHtml(get).Err?
    ensures Retryable(get(0).status) && get(1).status == 200 ==> FetchHtml(get) == Ok(get(1).body)
    ensures Retryable(get(0).status) && Retryable(get(1).status) ==> FetchHtml(get).Err?
    ensures FetchHtml(get).Ok? && FetchHtml(get).value != [] ==>
      (get(0).status == 200 && FetchHtml(get).value == get(0).body) ||
      (get(1).status == 200 && FetchHtml(get).value == get(1).body)
  {
  }

  /** Two `204 No Content` responses come back as an empty page instead of a raise. */
  lemma NoContentTwiceIsEmptyPage(get: nat -> Response)
    requires get(0).status == 204 && get(1).status == 204
    ensures FetchHtml(get) == Ok("")
  {
  }

  /**
   * `_fetch_html` as its comments describe it: the trailing `return ""` is
   * never reached, so every call that does not end in a 200 raises.
   */
  function FetchHtmlChecked(get: nat -> Response): (r: Result<string>)
    ensures r.Ok? <==> get(0).status == 200 || (!FirstAttemptDecides(get) && get(1).status == 200)
    ensures r.Ok? && get(0).status == 200 ==> r.value == get(0).body
    ensures r.Ok? && get(0).status != 200 ==> r.value == get(1).body
  {
    var r0 := get(0);
    if r0.status == 200 then Ok(r0.body)
    else if !Retryable(r0.status) && IsHttpError(r0.status) then Err(HttpError)
    else
      var r1 := get(1);
      if r1.status == 200 then Ok(r1.body)
      else Err(HttpError)
  }

  /** The two readings agree except where the written one returns the empty page. */
  lemma FetchHtmlCheckedAgrees(get: nat -> Response)
    ensures FetchHtml(get) != FetchHtmlChecked(get) ==>
      FetchHtml(get) == Ok("") && !IsHttpError(get(1).status) && get(1).status != 200
  {
  }

  // ----- parse_blog_detail -----

  /** The first `<time>` in the header: its `datetime` attribute and its `get_text(strip=True)`. */
  datatype TimeElement = TimeElement(datetime: Option<string>, text: string)

  /**
   * The header (`.entry-meta`, else `<header>`): the texts of its author
   * links, its first `<time>`, and the text of its badge or category.
   */
  datatype Header = Header(authorLinks: seq<string>, time: Option<TimeElement>, badge: Option<string>)

  /**
   * What the queries of `parse_blog_detail` return: the title element's
   * text, the header, and, under the content root, the texts of the `<p>`
   * elements and the `href` of each `<a href>`, in document order.
   */
  datatype DetailPage = DetailPage(
    titleText: Option<string>,
    header: Option<Header>,
    paragraphTexts: seq<string>,
    hrefs: seq<string>)

  datatype BlogDetail = BlogDetail(
    contentType: string,
    url: string,
    title: string,
    datePublished: Option<string>,
    issue: Option<string>,
    authors: seq<string>,
    content: string,
    paragraphs: seq<string>,
    documents: seq<string>)

  /** The non-empty texts, in order, repeats included. */
  function NonEmptyTexts(xs: seq<string>): seq<string>
  {
    if xs == [] then []
    else
      var d := NonEmptyTexts(xs[..|xs| - 1]);
      var x := xs[|xs| - 1];
      if x != [] then d + [x] else d
  }

  lemma NonEmptyTextsSnoc(xs: seq<string>, x: string)
    ensures NonEmptyTexts(xs + [x]) == if x != [] then NonEmptyTexts(xs) + [x] else NonEmptyTexts(xs)
  {
    assert (xs + [x])[..|xs|] == xs;
  }

  /** The author loop and the paragraph loop: append each non-empty text. */
  method KeepNonEmpty(xs: seq<string>) returns (out: seq<string>)
    ensures out == NonEmptyTexts(xs)
  {
    out := [];
    for i := 0 to |xs|
      invariant out == NonEmptyTexts(xs[..i])
    {
      Seqs.PrefixSnoc(xs, i);
      NonEmptyTextsSnoc(xs[..i], xs[i]);
      if xs[i] != [] {
        out := out + [xs[i]];
      }
    }
    Seqs.PrefixAll(xs);
  }

  /** A document link: `href.lower().endswith(".pdf")`. */
  predicate IsPdf(href: string)
  {
    EndsWith(Lower(href), ".pdf")
  }

  /** The document links, as written in the page, in order, repeats included. */
  function PdfLinks(hrefs: seq<string>): seq<string>
  {
    if hrefs == [] then []
    else
      var d := PdfLinks(hrefs[..|hrefs| - 1]);
      var h := hrefs[|hrefs| - 1];
      if IsPdf(h) then d + [h] else d
  }

  lemma PdfLinksSnoc(hrefs: seq<string>, h: string)
    ensures PdfLinks(hrefs + [h]) == if IsPdf(h) then PdfLinks(hrefs) + [h] else PdfLinks(hrefs)
  {
    assert (hrefs + [h])[..|hrefs|] == hrefs;
  }

  /** The documents loop. */
  method CollectDocuments(hrefs: seq<string>) returns (documents: seq<string>)
    ensures documents == PdfLinks(hrefs)
  {
    documents := [];
    for i := 0 to |hrefs|
      invariant documents == PdfLinks(hrefs[..i])
    {
      Seqs.PrefixSnoc(hrefs, i);
      PdfLinksSnoc(hrefs[..i], hrefs[i]);
      if IsPdf(hrefs[i]) {
        documents := documents + [hrefs[i]];
      }
    }
    Seqs.PrefixAll(hrefs);
  }

  /** The date of the header: the `datetime` attribute, else the element's text. */
  function HeaderDate(h: Header): Option<string>
  {
    if h.time.None? then None
    else if h.time.value.datetime.Some? then h.time.value.datetime
    else Some(h.time.value.text)
  }

  /** What `parse_blog_detail(url)` returns for the page the fetch produced. */
  function BlogDetailOf(url: string, page: DetailPage): BlogDetail
  {
    var paras := NonEmptyTexts(page.paragraphTexts);
    BlogDetail(
      "blogs", url,
      if page.titleText.Some? then Strip(page.titleText.value) else "",
      if page.header.Some? then HeaderDate(page.header.value) else None,
      if page.header.Some? then page.header.value.badge else None,
      if page.header.Some? then NonEmptyTexts(page.header.value.authorLinks) else [],
      JoinWith(paras, "\n\n"),
      paras,
      PdfLinks(page.hrefs))
  }

  /** The extraction part of `parse_blog_detail`, with its three loops. */
  method ParseBlogDetail(url: string, page: DetailPage) returns (d: BlogDetail)
    ensures d == BlogDetailOf(url, page)
  {
    var title := if page.titleText.Some? then Strip(page.titleText.value) else "";
    var authors: seq<string> := [];
    var datePublished: Option<string> := None;
    var issue: Option<string> := None;
    if page.header.Some? {
      var header := page.header.value;
      authors := KeepNonEmpty(header.authorLinks);
      if header.time.Some? && header.time.value.datetime.Some? {
        datePublished := header.time.value.datetime;
      } else if header.time.Some? {
        datePublished := Some(header.time.value.text);
      }
      if header.badge.Some? {
        issue := header.badge;
      }
    }
    var paras := KeepNonEmpty(page.paragraphTexts);
    var content := JoinWith(paras, "\n\n");
    var documents := CollectDocuments(page.hrefs);
    d := BlogDetail("blogs", url, title, datePublished, issue, authors, content, paras, documents);
  }

  /** `parse_blog_detail(url)`: fetch, then extract; a raise in the fetch is the result. */
  function FetchBlogDetail(url: string, get: nat -> Response, parse: string -> DetailPage): (r: Result<BlogDetail>)
    ensures r.Ok? <==> FetchHtml(get).Ok?
    ensures r.Ok? ==> r.value.url == url && r.value.contentType == "blogs"
  {
    match FetchHtml(get)
    case Err(e) => Err(e)
    case Ok(html) => Ok(BlogDetailOf(url, parse(html)))
  }

  // ----- properties of the extraction -----

  lemma {:induction false} NonEmptyTextsMembers(xs: seq<string>)
    ensures forall x :: x in NonEmptyTexts(xs) <==> x in xs && x != []
    ensures |NonEmptyTexts(xs)| <= |xs|
  {
    if xs != [] {
      var p := xs[..|xs| - 1];
      NonEmptyTextsMembers(p);
      Seqs.MembersSnoc(xs);
    }
  }

  /** Removing nothing: a list with no empty text is kept as it is. */
  lemma {:induction false} NonEmptyTextsOfNonEmpty(xs: seq<string>)
    requires forall k :: 0 <= k < |xs| ==> xs[k] != []
    ensures NonEmptyTexts(xs) == xs
  {
    if xs != [] {
      NonEmptyTextsOfNonEmpty(xs[..|xs| - 1]);
      assert xs[..|xs| - 1] + [xs[|xs| - 1]] == xs;
    }
  }

  lemma JoinWithEmpty(ws: seq<string>, sep: string)
    requires forall k :: 0 <= k < |ws| ==> ws[k] != []
    ensures JoinWith(ws, sep) == [] <==> ws == []
  {
    if |ws| >= 2 {
      assert |JoinWith(ws, sep)| >= |ws[0]|;
    }
  }

  /**
   * `paragraphs` are exactly the non-empty `<p>` texts, in order;
   * `content` joins them with blank lines and is empty exactly when there
   * are none.
   */
  lemma ParagraphsAndContent(url: string, page: DetailPage)
    ensures var d := BlogDetailOf(url, page);
      d.paragraphs == NonEmptyTexts(page.paragraphTexts) &&
      (forall x :: x in d.paragraphs <==> x in page.paragraphTexts && x != []) &&
      d.content == JoinWith(d.paragraphs, "\n\n") &&
      (d.content == [] <==> forall k :: 0 <= k < |page.paragraphTexts| ==> page.paragraphTexts[k] == [])
  {
    var paras := NonEmptyTexts(page.paragraphTexts);
    NonEmptyTextsMembers(page.paragraphTexts);
    forall k | 0 <= k < |paras| ensures paras[k] != [] {
      assert paras[k] in paras;
    }
    JoinWithEmpty(paras, "\n\n");
    if paras == [] {
      forall k | 0 <= k < |page.paragraphTexts| ensures page.paragraphTexts[k] == [] {
        assert page.paragraphTexts[k] in page.paragraphTexts;
      }
    } else {
      assert paras[0] in page.paragraphTexts && paras[0] != [];
      var k :| 0 <= k < |page.paragraphTexts| && page.paragraphTexts[k] == paras[0];
    }
  }

  lemma {:induction false} PdfLinksMembers(hrefs: seq<string>)
    ensures forall h :: h in PdfLinks(hrefs) <==> h in hrefs && IsPdf(h)
  {
    if hrefs != [] {
      var p := hrefs[..|hrefs| - 1];
      PdfLinksMembers(p);
      Seqs.MembersSnoc(hrefs);
    }
  }

  /**
   * `documents` are the PDF hrefs exactly as written, so a relative link
   * stays relative, and a link given twice is listed twice.
   */
  lemma DocumentsAsWritten(url: string, page: DetailPage)
    ensures forall h :: h in BlogDetailOf(url, page).documents <==> h in page.hrefs && IsPdf(h)
    ensures PdfLinks(["/a.PDF", "/a.PDF"]) == ["/a.PDF", "/a.PDF"]
  {
    PdfLinksMembers(page.hrefs);
    assert Lower("/a.PDF") == "/a.pdf";
    assert ["/a.PDF", "/a.PDF"][..1] == ["/a.PDF"];
    assert ["/a.PDF"][..0] == [];
  }

  /**
   * The title is `""` without a title element, else its text stripped; the
   * `datetime` attribute wins over the `<time>` text, and without a header
   * every header field is empty.
   */
  lemma TitleDateAndHeader(url: string, page: DetailPage)
    ensures page.titleText.None? ==> BlogDetailOf(url, page).title == ""
    ensures page.titleText.Some? ==> BlogDetailOf(url, page).title == Strip(page.titleText.value)
    ensures page.header.Some? && page.header.value.time.Some? && page.header.value.time.value.datetime.Some? ==>
      BlogDetailOf(url, page).datePublished == page.header.value.time.value.datetime
    ensures page.header.None? ==>
      BlogDetailOf(url, page).datePublished.None? && BlogDetailOf(url, page).issue.None? &&
      BlogDetailOf(url, page).authors == []
  {
  }

  /** Author names are the non-empty link texts, in order, with repeats kept. */
  lemma DetailAuthors(url: string, page: DetailPage)
    requires page.header.Some?
    ensures forall x :: x in BlogDetailOf(url, page).authors <==> x in page.header.value.authorLinks && x != []
    ensures BlogDetailOf(url, page).authors == NonEmptyTexts(page.header.value.authorLinks)
  {
    NonEmptyTextsMembers(page.header.value.authorLinks);
  }
}
