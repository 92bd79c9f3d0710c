/**
 * The two card indexers, cei6/indexers/blogs_indexer.py and
 * cei6/indexers/opeds_indexer.py.  They are the same code apart from the
 * listing URL, the content type and the page cap, so one module serves both
 * with a `Listing` parameter.  A card is given by what its CSS selectors
 * return; a link's `text` is its `get_text(strip=True)`.
 */
module CardIndexers {
  import opened Wrappers
  import opened Text
  import opened Seqs
  import opened DateTimes
  import Common
  import opened Models
  import opened IndexersCommon

  datatype Listing = BlogListing | OpEdListing

  function ListingUrl(l: Listing): string
  {
    match l
    case BlogListing => "https://cei.org/blog/"
    case OpEdListing => "https://cei.org/opeds_articles/"
  }

  /** The site-relative form of the listing URL, used by the fallback link test. */
  function PathPrefix(l: Listing): string
  {
    match l
    case BlogListing => "/blog/"
    case OpEdListing => "/opeds_articles/"
  }

  function ContentType(l: Listing): string
  {
    match l
    case BlogListing => "blogs"
    case OpEdListing => "op_eds"
  }

  /** The slice taken at the end of the fetch. */
  function PageCap(l: Listing): nat
  {
    match l
    case BlogListing => 30
    case OpEdListing => 6
  }

  /** A `<time>` element: its `datetime` attribute and its `get_text(" ", strip=True)`. */
  datatype TimeElement = TimeElement(datetime: Option<string>, text: string)

  /**
   * What the helpers read from a card: the first `h2 a, h3 a, .entry-title a`
   * element, every `<a>` element in document order, the text of the first
   * category chip, every `<time>` element in document order, and the text of
   * the first `.posted-on, .entry-date` element.
   */
  datatype ArticleCard = ArticleCard(
    titleNode: Option<Link>,
    anchors: seq<Link>,
    category: Option<string>,
    times: seq<TimeElement>,
    posted: Option<string>)

  // ----- _parse_date -----

  /** The `strptime` formats tried after `fromisoformat` fails. */
  const FallbackFormats: seq<string> := ["%B %d, %Y %I:%M %p", "%B %d, %Y", "%Y-%m-%d"]

  /** `s.replace(a, b)` for one character. */
  function ReplaceChar(s: string, a: char, b: char): (r: string)
    ensures |r| == |s|
    ensures forall i :: 0 <= i < |s| ==> r[i] == if s[i] == a then b else s[i]
  {
    seq(|s|, i requires 0 <= i < |s| => if s[i] == a then b else s[i])
  }

  /**
   * What `_parse_date(text)` returns, for the library parsers `fromIso`
   * (`datetime.fromisoformat`) and `strptime`; each is `None` where the
   * library raises.
   */
  function ParseDate(text: Option<string>, fromIso: string -> Option<DateTime>,
                     strptime: (string, string) -> Option<DateTime>): Option<DateTime>
  {
    if text.None? || text.value == [] then None
    else
      var t := Strip(text.value);
      var iso := ReplaceChar(t, ' ', 'T');
      if fromIso(iso).Some? then fromIso(iso) else Common.FirstParse(t, FallbackFormats, strptime)
  }

  /** `_parse_date`: the ISO attempt, then the loop over the fallback formats. */
  method ParseDateLoop(text: Option<string>, fromIso: string -> Option<DateTime>,
                       strptime: (string, string) -> Option<DateTime>) returns (r: Option<DateTime>)
    ensures r == ParseDate(text, fromIso, strptime)
  {
    if text.None? || text.value == [] {
      return None;
    }
    var t := Strip(text.value);
    var iso := ReplaceChar(t, ' ', 'T');
    var dt := fromIso(iso);
    if dt.Some? {
      return dt;
    }
    var fmts := FallbackFormats;
    for i := 0 to |fmts|
      invariant forall j :: 0 <= j < i ==> strptime(t, fmts[j]).None?
    {
      dt := strptime(t, fmts[i]);
      if dt.Some? {
        Common.FirstParseAt(t, fmts, strptime, i);
        return dt;
      }
    }
    return None;
  }

  /**
   * `_parse_date` gives nothing for a missing or empty text and for a text
   * no parser accepts; otherwise the ISO reading of the stripped text with
   * spaces turned into `T` wins, then the first fallback format that parses
   * the stripped text.
   */
  lemma ParseDateCases(text: Option<string>, fromIso: string -> Option<DateTime>,
                       strptime: (string, string) -> Option<DateTime>)
    ensures text.None? || text.value == [] ==> ParseDate(text, fromIso, strptime).None?
    ensures text.Some? && text.value != [] ==>
      var t := Strip(text.value);
      (fromIso(ReplaceChar(t, ' ', 'T')).Some? ==>
         ParseDate(text, fromIso, strptime) == fromIso(ReplaceChar(t, ' ', 'T'))) &&
      (ParseDate(text, fromIso, strptime).None? <==>
         fromIso(ReplaceChar(t, ' ', 'T')).None? &&
         forall j :: 0 <= j < |FallbackFormats| ==> strptime(t, FallbackFormats[j]).None?)
  {
  }

  /** Format `i` decides when the ISO reading and every earlier format fail. */
  lemma ParseDateFallback(text: string, fromIso: string -> Option<DateTime>,
                          strptime: (string, string) -> Option<DateTime>, i: nat)
    requires text != [] && fromIso(ReplaceChar(Strip(text), ' ', 'T')).None?
    requires i < |FallbackFormats| && strptime(Strip(text), FallbackFormats[i]).Some?
    requires forall j :: 0 <= j < i ==> strptime(Strip(text), FallbackFormats[j]).None?
    ensures ParseDate(Some(text), fromIso, strptime) == strptime(Strip(text), FallbackFormats[i])
  {
    Common.FirstParseAt(Strip(text), FallbackFormats, strptime, i);
  }

  // ----- _extract_date -----

  function DatetimeTest(): TimeElement -> bool
  {
    (t: TimeElement) => t.datetime.Some?
  }

  /**
   * What `_extract_date(card)` returns.  `time[datetime]` only matches a
   * `<time>` with the attribute, so the second branch, which reads the
   * element's text, is never taken (see `ExtractDateIgnoresTimeText`).
   */
  function ExtractDate(card: ArticleCard, fromIso: string -> Option<DateTime>,
                       strptime: (string, string) -> Option<DateTime>): Option<DateTime>
  {
    match FindFirst(card.times, DatetimeTest())
    case Some(k) =>
      if card.times[k].datetime.Some? then ParseDate(card.times[k].datetime, fromIso, strptime)
      else ParseDate(Some(card.times[k].text), fromIso, strptime)
    case None =>
      if card.posted.Some? then ParseDate(card.posted, fromIso, strptime) else None
  }

  /** The first `datetime` attribute decides, whatever the posted-on text says. */
  lemma DatetimeAttributeWins(card: ArticleCard, fromIso: string -> Option<DateTime>,
                              strptime: (string, string) -> Option<DateTime>, k: nat)
    requires k < |card.times| && card.times[k].datetime.Some?
    requires forall j :: 0 <= j < k ==> card.times[j].datetime.None?
    ensures ExtractDate(card, fromIso, strptime) == ParseDate(card.times[k].datetime, fromIso, strptime)
  {
    assert DatetimeTest()(card.times[k]);
  }

  /** Without a `datetime` attribute the posted-on text is parsed; `<time>` texts are not read. */
  lemma PostedOnFallback(card: ArticleCard, fromIso: string -> Option<DateTime>,
                         strptime: (string, string) -> Option<DateTime>)
    requires forall j :: 0 <= j < |card.times| ==> card.times[j].datetime.None?
    ensures ExtractDate(card, fromIso, strptime) == ParseDate(card.posted, fromIso, strptime)
  {
  }

  /** Two cards that differ only in the texts of their `<time>` elements get the same date. */
  lemma ExtractDateIgnoresTimeText(c1: ArticleCard, c2: ArticleCard,
                                   fromIso: string -> Option<DateTime>,
                                   strptime: (string, string) -> Option<DateTime>)
    requires |c1.times| == |c2.times|
    requires forall j :: 0 <= j < |c1.times| ==> c1.times[j].datetime == c2.times[j].datetime
    requires c1.posted == c2.posted
    ensures ExtractDate(c1, fromIso, strptime) == ExtractDate(c2, fromIso, strptime)
  {
    var f1 := FindFirst(c1.times, DatetimeTest());
    var f2 := FindFirst(c2.times, DatetimeTest());
    if f1.Some? {
      FindFirstAt(c2.times, DatetimeTest(), f1.value);
    } else {
      FindFirstNone(c2.times, DatetimeTest());
    }
  }

  // ----- _extract_issue -----

  predicate IsIssueAnchor(a: Link)
  {
    a.href.Some? && Contains(a.href.value, "/issues/")
  }

  function IssueAnchorTest(): Link -> bool
  {
    a => IsIssueAnchor(a)
  }

  /** An element's text, `None` when it is empty. */
  function NonEmptyText(t: string): (r: Option<string>)
    ensures r.None? <==> t == []
    ensures r.Some? ==> r.value == t
  {
    if t == [] then None else Some(t)
  }

  /** What `_extract_issue(card)` returns. */
  function ExtractIssue(card: ArticleCard): (r: Option<string>)
    ensures r.Some? ==> r.value != []
  {
    match FindFirst(card.anchors, IssueAnchorTest())
    case Some(k) => NonEmptyText(card.anchors[k].text)
    case None => if card.category.Some? then NonEmptyText(card.category.value) else None
  }

  /**
   * The first `/issues/` link decides, even when its text is empty and a
   * category chip has text.
   */
  lemma IssueLinkDecides(card: ArticleCard, k: nat)
    requires k < |card.anchors| && IsIssueAnchor(card.anchors[k])
    requires forall j :: 0 <= j < k ==> !IsIssueAnchor(card.anchors[j])
    ensures ExtractIssue(card) == NonEmptyText(card.anchors[k].text)
  {
    assert IssueAnchorTest()(card.anchors[k]);
  }

  /** Without an `/issues/` link the category chip's text is the issue. */
  lemma CategoryFallback(card: ArticleCard)
    requires forall j :: 0 <= j < |card.anchors| ==> !IsIssueAnchor(card.anchors[j])
    ensures ExtractIssue(card) == if card.category.Some? then NonEmptyText(card.category.value) else None
  {
    FindFirstNone(card.anchors, IssueAnchorTest());
  }

  // ----- _extract_authors -----

  /** `a[href*="/experts/"], a[href*="/people/"], a[href*="/author/"], a[href*="/staff/"]` */
  predicate IsPersonLink(a: Link)
  {
    a.href.Some? &&
    (Contains(a.href.value, "/experts/") || Contains(a.href.value, "/people/") ||
     Contains(a.href.value, "/author/") || Contains(a.href.value, "/staff/"))
  }

  /** The non-empty texts of the person links, in document order, repeats included. */
  function PersonNames(anchors: seq<Link>): seq<string>
  {
    if anchors == [] then []
    else
      var d := PersonNames(anchors[..|anchors| - 1]);
      var a := anchors[|anchors| - 1];
      if IsPersonLink(a) && a.text != [] then d + [a.text] else d
  }

  lemma PersonNamesSnoc(anchors: seq<Link>, a: Link)
    ensures PersonNames(anchors + [a]) ==
      if IsPersonLink(a) && a.text != [] then PersonNames(anchors) + [a.text] else PersonNames(anchors)
  {
    assert (anchors + [a])[..|anchors|] == anchors;
  }

  /** What `_extract_authors(card)` returns. */
  function CardAuthorNames(card: ArticleCard): seq<string>
  {
    Dedup(PersonNames(card.anchors))
  }

  /** `_extract_authors`: collect the person-link texts, then de-duplicate with a `seen` set. */
  method ExtractAuthors(card: ArticleCard) returns (dedup: seq<string>)
    ensures dedup == CardAuthorNames(card)
  {
    var authors: seq<string> := [];
    for i := 0 to |card.anchors|
      invariant authors == PersonNames(card.anchors[..i])
    {
      var a := card.anchors[i];
      Seqs.PrefixSnoc(card.anchors, i);
      PersonNamesSnoc(card.anchors[..i], a);
      if IsPersonLink(a) && a.text != [] {
        authors := authors + [a.text];
      }
    }
    Seqs.PrefixAll(card.anchors);
    dedup := DedupWithSeen(authors);
  }

  lemma {:induction false} PersonNamesMembers(anchors: seq<Link>)
    ensures forall x :: x in PersonNames(anchors) <==>
      exists j :: 0 <= j < |anchors| && IsPersonLink(anchors[j]) && anchors[j].text != [] && anchors[j].text == x
  {
    if anchors != [] {
      var p := anchors[..|anchors| - 1];
      PersonNamesMembers(p);
      assert forall j :: 0 <= j < |p| ==> p[j] == anchors[j];
    }
  }

  /**
   * `_extract_authors`: pairwise distinct, non-empty texts of person links;
   * every person link with text is represented.
   */
  lemma CardAuthorNamesProperties(card: ArticleCard)
    ensures Distinct(CardAuthorNames(card))
    ensures forall x :: x in CardAuthorNames(card) <==>
      exists j :: 0 <= j < |card.anchors| && IsPersonLink(card.anchors[j]) &&
                  card.anchors[j].text != [] && card.anchors[j].text == x
  {
    DedupSpec(PersonNames(card.anchors));
    PersonNamesMembers(card.anchors);
    forall x {
      DedupMember(PersonNames(card.anchors), x);
    }
  }

  // ----- _extract_title_url -----

  /** `a[href^="<listing URL>"], a[href^="<path prefix>"]` */
  predicate IsListingLink(l: Listing, a: Link)
  {
    a.href.Some? && (StartsWith(a.href.value, ListingUrl(l)) || StartsWith(a.href.value, PathPrefix(l)))
  }

  function ListingLinkTest(l: Listing): Link -> bool
  {
    a => IsListingLink(l, a)
  }

  /** What `_extract_title_url(card)` returns: both parts or neither. */
  function ExtractTitleUrl(l: Listing, card: ArticleCard): (r: (Option<string>, Option<string>))
    ensures r.0.Some? <==> r.1.Some?
    ensures r.1.Some? ==> r.1.value != []
  {
    var a := card.titleNode;
    if a.Some? && a.value.href.Some? && a.value.href.value != [] then (Some(a.value.text), a.value.href)
    else match FindFirst(card.anchors, ListingLinkTest(l))
      case Some(k) =>
        var a2 := card.anchors[k];
        if a2.href.Some? && a2.href.value != [] then (Some(a2.text), a2.href) else (None, None)
      case None => (None, None)
  }

  /** A title node with a non-empty `href` decides. */
  lemma TitleNodeWins(l: Listing, card: ArticleCard)
    requires card.titleNode.Some? && card.titleNode.value.href.Some? && card.titleNode.value.href.value != []
    ensures ExtractTitleUrl(l, card) == (Some(card.titleNode.value.text), card.titleNode.value.href)
  {
  }

  /**
   * Otherwise, a title node without an `href` included, the first link into
   * the listing's path decides, and its URL starts with the listing URL or
   * the path prefix.
   */
  lemma ListingLinkFallback(l: Listing, card: ArticleCard, k: nat)
    requires card.titleNode.None? || card.titleNode.value.href.None? || card.titleNode.value.href.value == []
    requires k < |card.anchors| && IsListingLink(l, card.anchors[k])
    requires forall j :: 0 <= j < k ==> !IsListingLink(l, card.anchors[j])
    ensures ExtractTitleUrl(l, card) == (Some(card.anchors[k].text), card.anchors[k].href)
    ensures StartsWith(card.anchors[k].href.value, ListingUrl(l)) ||
            StartsWith(card.anchors[k].href.value, PathPrefix(l))
  {
    assert ListingLinkTest(l)(card.anchors[k]);
  }

  /** With neither, there is no title and no URL. */
  lemma NoTitleUrl(l: Listing, card: ArticleCard)
    requires card.titleNode.None? || card.titleNode.value.href.None? || card.titleNode.value.href.value == []
    requires forall j :: 0 <= j < |card.anchors| ==> !IsListingLink(l, card.anchors[j])
    ensures ExtractTitleUrl(l, card) == (None, None)
  {
    FindFirstNone(card.anchors, ListingLinkTest(l));
  }

  // ----- fetch_*_first_page -----

  /** A site-relative URL gets the site's origin in front. */
  function AbsoluteUrl(url: string): (r: string)
    ensures StartsWith(url, "http") ==> r == url
    ensures !StartsWith(url, "http") ==> r == "https://cei.org" + url
  {
    if StartsWith(url, "http") then url else "https://cei.org" + url
  }

  /** A card that yields an item: a non-empty title and a non-empty URL. */
  predicate Complete(l: Listing, card: ArticleCard)
  {
    var tu := ExtractTitleUrl(l, card);
    tu.0.Some? && tu.0.value != [] && tu.1.Some? && tu.1.value != []
  }

  function DateValueOf(d: Option<DateTime>): DateValue
  {
    if d.Some? then DateTimeValue(d.value) else NoDate
  }

  /** The item a complete card yields. */
  function CardItem(l: Listing, card: ArticleCard, fromIso: string -> Option<DateTime>,
                    strptime: (string, string) -> Option<DateTime>): ListingItem
    requires Complete(l, card)
  {
    var tu := ExtractTitleUrl(l, card);
    NewListingItem(ContentType(l), tu.0.value, AbsoluteUrl(tu.1.value),
                   DateValueOf(ExtractDate(card, fromIso, strptime)), ExtractIssue(card),
                   Some(AsEntries(CardAuthorNames(card))))
  }

  /** The complete cards, in card order, repeats included. */
  function CompleteCards(l: Listing, cards: seq<ArticleCard>): (r: seq<ArticleCard>)
    ensures forall k :: 0 <= k < |r| ==> Complete(l, r[k])
  {
    if cards == [] then []
    else
      var d := CompleteCards(l, cards[..|cards| - 1]);
      var c := cards[|cards| - 1];
      if Complete(l, c) then d + [c] else d
  }

  lemma CompleteCardsSnoc(l: Listing, cards: seq<ArticleCard>, c: ArticleCard)
    ensures CompleteCards(l, cards + [c]) ==
      if Complete(l, c) then CompleteCards(l, cards) + [c] else CompleteCards(l, cards)
  {
    assert (cards + [c])[..|cards|] == cards;
  }

  function ItemsOf(l: Listing, kept: seq<ArticleCard>, fromIso: string -> Option<DateTime>,
                   strptime: (string, string) -> Option<DateTime>): (items: seq<ListingItem>)
    requires forall k :: 0 <= k < |kept| ==> Complete(l, kept[k])
    ensures |items| == |kept|
    ensures forall k :: 0 <= k < |kept| ==> items[k] == CardItem(l, kept[k], fromIso, strptime)
  {
    seq(|kept|, k requires 0 <= k < |kept| => CardItem(l, kept[k], fromIso, strptime))
  }

  /** What `fetch_blogs_first_page()` / `fetch_op_eds_first_page()` return for the page's cards. */
  function FetchFirstPage(l: Listing, cards: seq<ArticleCard>, fromIso: string -> Option<DateTime>,
                          strptime: (string, string) -> Option<DateTime>): seq<ListingItem>
  {
    Take(ItemsOf(l, CompleteCards(l, cards), fromIso, strptime), PageCap(l))
  }

  /** The card loop, then the slice. */
  method FetchFirstPageLoop(l: Listing, cards: seq<ArticleCard>, fromIso: string -> Option<DateTime>,
                            strptime: (string, string) -> Option<DateTime>) returns (page: seq<ListingItem>)
    ensures page == FetchFirstPage(l, cards, fromIso, strptime)
  {
    var items: seq<ListingItem> := [];
    ghost var kept: seq<ArticleCard> := [];
    for i := 0 to |cards|
      invariant kept == CompleteCards(l, cards[..i])
      invariant items == ItemsOf(l, kept, fromIso, strptime)
    {
      var c := cards[i];
      Seqs.PrefixSnoc(cards, i);
      CompleteCardsSnoc(l, cards[..i], c);
      var (title, url) := ExtractTitleUrl(l, c);
      if url.None? || url.value == [] || title.None? || title.value == [] {
        continue;
      }
      var item := BuildItem(l, c, title.value, url.value, fromIso, strptime);
      ItemsOfSnoc(l, kept, c, fromIso, strptime);
      kept := kept + [c];
      items := items + [item];
    }
    Seqs.PrefixAll(cards);
    page := Take(items, PageCap(l));
  }

  /** The body of the card loop for a complete card. */
  method BuildItem(l: Listing, c: ArticleCard, title: string, url: string,
                   fromIso: string -> Option<DateTime>, strptime: (string, string) -> Option<DateTime>)
    returns (item: ListingItem)
    requires ExtractTitleUrl(l, c) == (Some(title), Some(url)) && title != []
    ensures Complete(l, c) && item == CardItem(l, c, fromIso, strptime)
  {
    var date := ExtractDate(c, fromIso, strptime);
    var issue := ExtractIssue(c);
    var authors := ExtractAuthors(c);
    item := NewListingItem(ContentType(l), title, AbsoluteUrl(url),
                           DateValueOf(date), issue, Some(AsEntries(authors)));
  }

  lemma ItemsOfSnoc(l: Listing, kept: seq<ArticleCard>, c: ArticleCard,
                    fromIso: string -> Option<DateTime>, strptime: (string, string) -> Option<DateTime>)
    requires forall k :: 0 <= k < |kept| ==> Complete(l, kept[k])
    requires Complete(l, c)
    ensures ItemsOf(l, kept + [c], fromIso, strptime) == ItemsOf(l, kept, fromIso, strptime) + [CardItem(l, c, fromIso, strptime)]
  {
  }

  // ----- properties of the fetch -----

  lemma {:induction false} CompleteCardsMembers(l: Listing, cards: seq<ArticleCard>)
    ensures forall c :: c in CompleteCards(l, cards) <==> c in cards && Complete(l, c)
  {
    if cards != [] {
      var p := cards[..|cards| - 1];
      CompleteCardsMembers(l, p);
      Seqs.MembersSnoc(cards);
    }
  }

  /**
   * The page holds at most the cap's worth of items, one per complete card
   * in card order; each has the listing's content type, an absolute URL and
   * a non-empty title.
   */
  lemma FetchFirstPageProperties(l: Listing, cards: seq<ArticleCard>, fromIso: string -> Option<DateTime>,
                                 strptime: (string, string) -> Option<DateTime>)
    ensures var page := FetchFirstPage(l, cards, fromIso, strptime);
      var kept := CompleteCards(l, cards);
      |page| == if |kept| < PageCap(l) then |kept| else PageCap(l)
    ensures var page := FetchFirstPage(l, cards, fromIso, strptime);
      var kept := CompleteCards(l, cards);
      forall k :: 0 <= k < |page| ==>
        page[k] == CardItem(l, kept[k], fromIso, strptime) &&
        page[k].contentType == ContentType(l) && page[k].title != [] && StartsWith(page[k].url, "http")
  {
    var page := FetchFirstPage(l, cards, fromIso, strptime);
    var kept := CompleteCards(l, cards);
    forall k | 0 <= k < |page|
      ensures page[k] == CardItem(l, kept[k], fromIso, strptime)
      ensures page[k].contentType == ContentType(l) && page[k].title != [] && StartsWith(page[k].url, "http")
    {
      assert page[k] == ItemsOf(l, kept, fromIso, strptime)[k];
      CardItemFields(l, kept[k], fromIso, strptime);
    }
  }

  /** The item of a complete card: the listing's content type, a title, an absolute URL. */
  lemma CardItemFields(l: Listing, c: ArticleCard, fromIso: string -> Option<DateTime>,
                       strptime: (string, string) -> Option<DateTime>)
    requires Complete(l, c)
    ensures var item := CardItem(l, c, fromIso, strptime);
      item.contentType == ContentType(l) && item.title != [] && StartsWith(item.url, "http")
  {
    AbsoluteUrlIsHttp(ExtractTitleUrl(l, c).1.value);
  }

  lemma AbsoluteUrlIsHttp(url: string)
    ensures StartsWith(AbsoluteUrl(url), "http")
  {
    if !StartsWith(url, "http") {
      assert ("https://cei.org" + url)[..4] == "http";
    }
  }

  /** A card is kept exactly when it is complete; nothing else is dropped before the cap. */
  lemma CompleteCardsExactly(l: Listing, cards: seq<ArticleCard>)
    ensures forall c :: c in CompleteCards(l, cards) <==> c in cards && Complete(l, c)
    ensures |CompleteCards(l, cards)| <= |cards|
  {
    CompleteCardsMembers(l, cards);
    CompleteCardsLength(l, cards);
  }

  lemma {:induction false} CompleteCardsLength(l: Listing, cards: seq<ArticleCard>)
    ensures |CompleteCards(l, cards)| <= |cards|
  {
    if cards != [] {
      CompleteCardsLength(l, cards[..|cards| - 1]);
    }
  }

  /** There is no de-duplication: the same card twice yields the same item twice. */
  lemma CompleteCardsTwice(l: Listing, c: ArticleCard)
    requires Complete(l, c)
    ensures CompleteCards(l, [c, c]) == [c, c]
  {
    assert [] + [c] == [c] && [c] + [c] == [c, c];
    CompleteCardsSnoc(l, [], c);
    CompleteCardsSnoc(l, [c], c);
  }

  lemma RepeatedCardRepeatsItem(l: Listing, c: ArticleCard, fromIso: string -> Option<DateTime>,
                                strptime: (string, string) -> Option<DateTime>)
    requires Complete(l, c)
    ensures FetchFirstPage(l, [c, c], fromIso, strptime) ==
      [CardItem(l, c, fromIso, strptime), CardItem(l, c, fromIso, strptime)]
  {
    var item := CardItem(l, c, fromIso, strptime);
    CompleteCardsTwice(l, c);
    assert [] + [c] == [c] && [c] + [c] == [c, c];
    ItemsOfSnoc(l, [], c, fromIso, strptime);
    ItemsOfSnoc(l, [c], c, fromIso, strptime);
    assert ItemsOf(l, [c, c], fromIso, strptime) == [] + [item] + [item];
    assert PageCap(l) >= 2;
  }
}
