/**
 * The studies indexer (cei6/indexers/studies_indexer.py): one item per
 * `article.default-card` card that links somewhere, built with the shared
 * card helpers of `IndexersCommon`.  `urljoin` is a parameter.
 */
module StudiesIndexer {
  import opened Wrappers
  import opened Text
  import opened Seqs
  import opened Models
  import opened IndexersCommon

  const ListingUrl: string := "https://cei.org/studies/"

  /** The prefix handed to `extract_title_and_url`. */
  const StudiesPrefix: string := "/studies/"

  /**
   * What `extract_date` raises on every call: it imports
   * `parse_listing_datetime` from cei6/models.py, which defines no such name.
   */
  const MissingParser: string := "ImportError: cannot import name 'parse_listing_datetime'"

  /** The `href` that `extract_title_and_url(card, "/studies/")` picks. */
  function Href(card: Card): string
  {
    TitleAndUrl(card, StudiesPrefix).1
  }

  /** A card that is not skipped. */
  predicate HasHref(card: Card)
  {
    Href(card) != []
  }

  // ----- _parse_listing as written -----

  /**
   * `_parse_listing` as written: the skipped cards cost nothing, but the
   * first card with a link reaches `extract_date`, which raises, so no
   * listing with a linked card yields items.
   */
  method ParseListingAsWritten(cards: seq<Card>, urljoin: (string, string) -> string)
    returns (r: Result<seq<ListingItem>>)
    ensures r == if NoneLinked(cards) then Ok([]) else Err(MissingParser)
  {
    var items: seq<ListingItem> := [];
    for i := 0 to |cards|
      invariant items == []
      invariant NoneLinked(cards[..i])
    {
      var title, href := ExtractTitleAndUrl(cards[i], StudiesPrefix);
      NoneLinkedSnoc(cards, i);
      if href == [] {
        continue;
      }
      NoneLinkedPrefix(cards, i + 1);
      var built := BuildItemAsWritten(cards[i], href, urljoin);
      return Err(built.error);
    }
    Seqs.PrefixAll(cards);
    return Ok(items);
  }

  /** No card links anywhere, so `_parse_listing` never reaches `extract_date`. */
  predicate NoneLinked(cards: seq<Card>)
  {
    forall k :: 0 <= k < |cards| ==> !HasHref(cards[k])
  }

  lemma NoneLinkedSnoc(cards: seq<Card>, i: nat)
    requires i < |cards|
    ensures NoneLinked(cards[..i + 1]) <==> NoneLinked(cards[..i]) && !HasHref(cards[i])
  {
    var longer, shorter := cards[..i + 1], cards[..i];
    if NoneLinked(shorter) && !HasHref(cards[i]) {
      forall k | 0 <= k < i + 1
        ensures !HasHref(longer[k])
      {
        if k < i {
          assert longer[k] == shorter[k];
        }
      }
    }
    if NoneLinked(longer) {
      assert longer[i] == cards[i];
      forall k | 0 <= k < i
        ensures !HasHref(shorter[k])
      {
        assert shorter[k] == longer[k];
      }
    }
  }

  /** A linked card in a prefix is a linked card of the whole listing. */
  lemma NoneLinkedPrefix(cards: seq<Card>, n: nat)
    requires n <= |cards|
    ensures NoneLinked(cards) ==> NoneLinked(cards[..n])
  {
  }

  /** The body of the card loop as written: `extract_date` raises after the URL, issue and authors. */
  method BuildItemAsWritten(card: Card, href: string, urljoin: (string, string) -> string)
    returns (r: Result<ListingItem>)
    ensures r.Err? && r.error == MissingParser
  {
    var url := Absolutize(ListingUrl, Some(href), urljoin);
    var issue := ExtractIssue(card);
    var authors := ExtractAuthors(card);
    return Err(MissingParser);
  }

  // ----- _parse_listing with a working date lookup -----

  /** `date_published` of a study: the text `extract_date` returns, stored as is. */
  function StudyDate(d: Option<string>): (v: DateValue)
    ensures d.None? ==> v == NoDate
    ensures d.Some? ==> v == DateString(d.value)
  {
    if d.Some? then DateString(d.value) else NoDate
  }

  /** The item of a card with a link; `extractDate` stands for a working `extract_date`. */
  function StudyItem(card: Card, urljoin: (string, string) -> string,
                     extractDate: Card -> Option<string>): ListingItem
  {
    var tu := TitleAndUrl(card, StudiesPrefix);
    var url := Absolutize(ListingUrl, Some(tu.1), urljoin);
    NewListingItem("studies", if tu.0 == [] then url else tu.0, url,
                   StudyDate(extractDate(card)), ExtractIssue(card), Some(AsEntries(CardAuthors(card))))
  }

  /** The cards with a link, in card order, repeats included. */
  function LinkedCards(cards: seq<Card>): (r: seq<Card>)
    ensures forall k :: 0 <= k < |r| ==> HasHref(r[k])
  {
    if cards == [] then []
    else
      var d := LinkedCards(cards[..|cards| - 1]);
      var c := cards[|cards| - 1];
      if HasHref(c) then d + [c] else d
  }

  lemma LinkedCardsSnoc(cards: seq<Card>, c: Card)
    ensures LinkedCards(cards + [c]) == if HasHref(c) then LinkedCards(cards) + [c] else LinkedCards(cards)
  {
    assert (cards + [c])[..|cards|] == cards;
  }

  /** What `_parse_listing` returns once `extract_date` works: no cap. */
  function ParseListing(cards: seq<Card>, urljoin: (string, string) -> string,
                        extractDate: Card -> Option<string>): seq<ListingItem>
  {
    if cards == [] then []
    else
      var d := ParseListing(cards[..|cards| - 1], urljoin, extractDate);
      var c := cards[|cards| - 1];
      if HasHref(c) then d + [StudyItem(c, urljoin, extractDate)] else d
  }

  lemma ParseListingSnoc(cards: seq<Card>, c: Card, urljoin: (string, string) -> string,
                         extractDate: Card -> Option<string>)
    ensures ParseListing(cards + [c], urljoin, extractDate) ==
      if HasHref(c) then ParseListing(cards, urljoin, extractDate) + [StudyItem(c, urljoin, extractDate)]
      else ParseListing(cards, urljoin, extractDate)
  {
    assert (cards + [c])[..|cards|] == cards;
  }

  /** The card loop of `_parse_listing`, with `extractDate` in place of `extract_date`. */
  method ParseListingLoop(cards: seq<Card>, urljoin: (string, string) -> string,
                          extractDate: Card -> Option<string>) returns (items: seq<ListingItem>)
    ensures items == ParseListing(cards, urljoin, extractDate)
  {
    items := [];
    for i := 0 to |cards|
      invariant items == ParseListing(cards[..i], urljoin, extractDate)
    {
      var card := cards[i];
      Seqs.PrefixSnoc(cards, i);
      ParseListingSnoc(cards[..i], card, urljoin, extractDate);
      var title, href := ExtractTitleAndUrl(card, StudiesPrefix);
      if href == [] {
        continue;
      }
      var item := BuildItem(card, title, href, urljoin, extractDate);
      items := items + [item];
    }
    Seqs.PrefixAll(cards);
  }

  /** The body of the card loop for a card with a link. */
  method BuildItem(card: Card, title: string, href: string, urljoin: (string, string) -> string,
                   extractDate: Card -> Option<string>) returns (item: ListingItem)
    requires (title, href) == TitleAndUrl(card, StudiesPrefix) && href != []
    ensures item == StudyItem(card, urljoin, extractDate)
  {
    var url := Absolutize(ListingUrl, Some(href), urljoin);
    var issue := ExtractIssue(card);
    var authors := ExtractAuthors(card);
    var date := extractDate(card);
    item := NewListingItem("studies", if title == [] then url else title, url,
                           StudyDate(date), issue, Some(AsEntries(authors)));
  }

  // ----- properties -----

  lemma {:induction false} LinkedCardsMembers(cards: seq<Card>)
    ensures forall c :: c in LinkedCards(cards) <==> c in cards && HasHref(c)
    ensures |LinkedCards(cards)| <= |cards|
  {
    if cards != [] {
      var p := cards[..|cards| - 1];
      LinkedCardsMembers(p);
      Seqs.MembersSnoc(cards);
    }
  }

  /** When every card links somewhere, every card yields an item, in card order. */
  lemma {:induction false} AllLinkedKept(cards: seq<Card>)
    requires forall k :: 0 <= k < |cards| ==> HasHref(cards[k])
    ensures LinkedCards(cards) == cards
  {
    if cards != [] {
      var p := cards[..|cards| - 1];
      AllLinkedKept(p);
      assert p + [cards[|cards| - 1]] == cards;
    }
  }

  /** The items are the linked cards' items, one for one and in card order. */
  lemma {:induction false} ParseListingIsMap(cards: seq<Card>, urljoin: (string, string) -> string,
                                             extractDate: Card -> Option<string>)
    ensures var items := ParseListing(cards, urljoin, extractDate);
      var kept := LinkedCards(cards);
      |items| == |kept| &&
      forall k :: 0 <= k < |kept| ==> items[k] == StudyItem(kept[k], urljoin, extractDate)
  {
    if cards != [] {
      var p := cards[..|cards| - 1];
      var c := cards[|cards| - 1];
      ParseListingIsMap(p, urljoin, extractDate);
      if HasHref(c) {
        LinkedItemsSnoc(ParseListing(p, urljoin, extractDate), LinkedCards(p), c, urljoin, extractDate);
      }
    }
  }

  lemma LinkedItemsSnoc(items: seq<ListingItem>, kept: seq<Card>, c: Card, urljoin: (string, string) -> string,
                extractDate: Card -> Option<string>)
    requires |items| == |kept|
    requires forall k :: 0 <= k < |kept| ==> items[k] == StudyItem(kept[k], urljoin, extractDate)
    ensures var longer := kept + [c];
      forall k :: 0 <= k < |longer| ==>
        (items + [StudyItem(c, urljoin, extractDate)])[k] == StudyItem(longer[k], urljoin, extractDate)
  {
    var longer := kept + [c];
    var x := StudyItem(c, urljoin, extractDate);
    forall k | 0 <= k < |longer|
      ensures (items + [x])[k] == StudyItem(longer[k], urljoin, extractDate)
    {
      if k < |kept| {
        assert (items + [x])[k] == items[k];
        assert longer[k] == kept[k];
      }
    }
  }

  /**
   * One item per linked card, in card order, every one a study whose URL is
   * the joined `href` and whose title is the card's title, or the URL when
   * the title is empty.
   */
  lemma ParseListingProperties(cards: seq<Card>, urljoin: (string, string) -> string,
                               extractDate: Card -> Option<string>)
    ensures var items := ParseListing(cards, urljoin, extractDate);
      var kept := LinkedCards(cards);
      |items| == |kept| &&
      forall k :: 0 <= k < |items| ==>
        StudyItemHas(kept[k], items[k], urljoin, extractDate)
  {
    ParseListingIsMap(cards, urljoin, extractDate);
    var kept := LinkedCards(cards);
    forall k | 0 <= k < |kept|
      ensures StudyItemHas(kept[k], StudyItem(kept[k], urljoin, extractDate), urljoin, extractDate)
    {
      StudyItemFields(kept[k], urljoin, extractDate);
    }
  }

  /** The fields of the item of one card with a link. */
  predicate StudyItemHas(card: Card, item: ListingItem, urljoin: (string, string) -> string,
                         extractDate: Card -> Option<string>)
  {
    item.contentType == "studies" &&
    item.url == urljoin(ListingUrl, Href(card)) &&
    ChosenLink(card, StudiesPrefix).Some? &&
    item.title == (var text := Collapse(ChosenLink(card, StudiesPrefix).value.text);
                   if text == [] then item.url else text) &&
    item.datePublished == StudyDate(extractDate(card)) &&
    item.issue == ExtractIssue(card)
  }

  lemma StudyItemFields(card: Card, urljoin: (string, string) -> string,
                        extractDate: Card -> Option<string>)
    requires HasHref(card)
    ensures StudyItemHas(card, StudyItem(card, urljoin, extractDate), urljoin, extractDate)
  {
  }

  /**
   * The listings on which `_parse_listing` as written raises are exactly the
   * ones on which a working `extract_date` yields items.
   */
  lemma AsWrittenFailsWhenItemsExist(cards: seq<Card>, urljoin: (string, string) -> string,
                                     extractDate: Card -> Option<string>)
    ensures !NoneLinked(cards) <==> ParseListing(cards, urljoin, extractDate) != []
  {
    ParseListingIsMap(cards, urljoin, extractDate);
    LinkedCardsMembers(cards);
    var kept := LinkedCards(cards);
    if !NoneLinked(cards) {
      var k :| 0 <= k < |cards| && HasHref(cards[k]);
      assert cards[k] in cards;
      assert cards[k] in kept;
    }
    if kept != [] {
      assert kept[0] in kept;
      var k :| 0 <= k < |cards| && cards[k] == kept[0];
    }
  }

  /**
   * The item keeps the card's authors as `extract_authors` found them,
   * dropping only the empty name a comma-only link produces.
   */
  lemma StudyAuthors(card: Card, urljoin: (string, string) -> string,
                     extractDate: Card -> Option<string>)
    ensures forall x :: x in StudyItem(card, urljoin, extractDate).authors <==>
      x in CardAuthors(card) && x != []
  {
    CardAuthorsClean(card);
    NormalizedCleanNames(CardAuthors(card));
  }
}
