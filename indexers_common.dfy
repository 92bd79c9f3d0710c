/**
 * The card helpers shared by the card indexers (cei6/indexers/common.py):
 * whitespace normalisation, the issue pill, the title link and the author
 * links of one listing card.  A card is given by what the CSS selectors
 * return; `get_text(" ", strip=True)` of an element is its `text`.
 */
module IndexersCommon {
  import opened Wrappers
  import opened Text
  import opened Seqs
  import Models

  /** An `<a>` element: its `href` attribute, if it has one, and its text. */
  datatype Link = Link(href: Option<string>, text: string)

  /**
   * What the helpers read from a card: the issue pill's text, the first
   * `h2 a, h3 a, .card-title a` element, every `<a>` element in document
   * order, and the texts of the by-line author links.
   */
  datatype Card = Card(
    pill: Option<string>,
    titleLink: Option<Link>,
    anchors: seq<Link>,
    authorLinks: seq<string>)

  /** `norm_space`: strip, then turn each whitespace run into one space. */
  function NormSpaceOf(s: Option<string>): (r: string)
    ensures s.None? ==> r == ""
    ensures Normalized(r)
    ensures s.Some? ==> r == Collapse(s.value)
  {
    NormSpaceIsCollapse(s.GetOr(""));
    NormSpace(s.GetOr(""))
  }

  /** `first_text`: the normalised text of an element, `""` for a missing one. */
  function FirstText(tag: Option<string>): (r: string)
    ensures Normalized(r)
    ensures tag.None? ==> r == ""
  {
    if tag.None? then "" else NormSpaceOf(tag)
  }

  /** `extract_issue`: the pill's normalised text, `None` when there is no pill or no text. */
  function ExtractIssue(card: Card): (r: Option<string>)
    ensures r.None? <==> card.pill.None? || Collapse(card.pill.value) == ""
    ensures r.Some? ==> r.value == Collapse(card.pill.value) && r.value != [] && Normalized(r.value)
  {
    var t := FirstText(card.pill);
    if t == [] then None else Some(t)
  }

  // ----- extract_title_and_url -----

  /** The fallback test: an `href` starting with `prefix` or with `"/" + prefix.strip("/")`. */
  predicate MatchesPrefix(prefix: string, a: Link)
  {
    a.href.Some? &&
    (StartsWith(a.href.value, prefix) || StartsWith(a.href.value, "/" + StripChar(prefix, '/')))
  }

  function PrefixTest(prefix: string): Link -> bool
  {
    a => MatchesPrefix(prefix, a)
  }

  /** The link the title and URL are taken from: the title node, else the first matching anchor. */
  function ChosenLink(card: Card, prefix: string): Option<Link>
  {
    if card.titleLink.Some? then card.titleLink
    else match FindFirst(card.anchors, PrefixTest(prefix))
      case None => None
      case Some(k) => Some(card.anchors[k])
  }

  /** What `extract_title_and_url(card, prefix)` returns. */
  function TitleAndUrl(card: Card, prefix: string): (string, string)
  {
    var a := ChosenLink(card, prefix);
    if a.None? then ("", "") else (FirstText(Some(a.value.text)), a.value.href.GetOr(""))
  }

  /** `extract_title_and_url`: the title node if present, else the loop that breaks at the first match. */
  method ExtractTitleAndUrl(card: Card, prefix: string) returns (title: string, url: string)
    ensures (title, url) == TitleAndUrl(card, prefix)
  {
    var a := card.titleLink;
    if a.None? {
      var alt := "/" + StripChar(prefix, '/');
      for i := 0 to |card.anchors|
        invariant a.None?
        invariant forall j :: 0 <= j < i ==> !MatchesPrefix(prefix, card.anchors[j])
      {
        var cand := card.anchors[i];
        if cand.href.Some? {
          var href := cand.href.value;
          if StartsWith(href, prefix) || StartsWith(href, alt) {
            assert PrefixTest(prefix)(cand);
            a := Some(cand);
            assert FindFirst(card.anchors, PrefixTest(prefix)) == Some(i);
            break;
          }
        }
      }
      if a.None? {
        assert FindFirst(card.anchors, PrefixTest(prefix)).None?;
      }
    }
    title := FirstText(if a.Some? then Some(a.value.text) else None);
    url := if a.Some? then a.value.href.GetOr("") else "";
  }

  /** A title node decides both results, whatever the other anchors are. */
  lemma TitleLinkPreferred(card: Card, prefix: string)
    requires card.titleLink.Some?
    ensures TitleAndUrl(card, prefix) ==
      (Collapse(card.titleLink.value.text), card.titleLink.value.href.GetOr(""))
  {
  }

  /**
   * Without a title node the first anchor in document order that passes the
   * prefix test decides, and its `href` is the URL.
   */
  lemma FallbackFirstMatch(card: Card, prefix: string, k: nat)
    requires card.titleLink.None?
    requires k < |card.anchors| && MatchesPrefix(prefix, card.anchors[k])
    requires forall j :: 0 <= j < k ==> !MatchesPrefix(prefix, card.anchors[j])
    ensures TitleAndUrl(card, prefix) == (Collapse(card.anchors[k].text), card.anchors[k].href.value)
    ensures StartsWith(TitleAndUrl(card, prefix).1, prefix) ||
            StartsWith(TitleAndUrl(card, prefix).1, "/" + StripChar(prefix, '/'))
  {
    assert PrefixTest(prefix)(card.anchors[k]);
  }

  /** With neither a title node nor a matching anchor, both results are empty. */
  lemma NoMatchingLink(card: Card, prefix: string)
    requires card.titleLink.None?
    requires forall j :: 0 <= j < |card.anchors| ==> !MatchesPrefix(prefix, card.anchors[j])
    ensures TitleAndUrl(card, prefix) == ("", "")
  {
  }

  // ----- extract_authors -----

  /**
   * The name one author link contributes: its normalised text with trailing
   * commas and whitespace removed, or nothing when the normalised text is
   * empty.  The test comes before the removal, so a text of commas only
   * contributes `""`.
   */
  function AuthorLinkNames(texts: seq<string>): seq<string>
  {
    if texts == [] then []
    else
      var d := AuthorLinkNames(texts[..|texts| - 1]);
      var name := FirstText(Some(texts[|texts| - 1]));
      if name == [] then d else d + [TrimTrailingCommas(name)]
  }

  lemma AuthorLinkNamesSnoc(texts: seq<string>, t: string)
    ensures AuthorLinkNames(texts + [t]) ==
      if FirstText(Some(t)) == [] then AuthorLinkNames(texts)
      else AuthorLinkNames(texts) + [TrimTrailingCommas(FirstText(Some(t)))]
  {
    assert (texts + [t])[..|texts|] == texts;
  }

  /** What `extract_authors(card)` returns. */
  function CardAuthors(card: Card): seq<string>
  {
    Dedup(AuthorLinkNames(card.authorLinks))
  }

  /** `extract_authors`: collect the cleaned link texts, then de-duplicate with a `seen` set. */
  method ExtractAuthors(card: Card) returns (uniq: seq<string>)
    ensures uniq == CardAuthors(card)
  {
    var authors := CollectAuthorLinkNames(card.authorLinks);
    uniq := DedupWithSeen(authors);
  }

  /** The first loop of `extract_authors`. */
  method CollectAuthorLinkNames(texts: seq<string>) returns (authors: seq<string>)
    ensures authors == AuthorLinkNames(texts)
  {
    authors := [];
    for i := 0 to |texts|
      invariant authors == AuthorLinkNames(texts[..i])
    {
      Seqs.PrefixSnoc(texts, i);
      AuthorLinkNamesSnoc(texts[..i], texts[i]);
      var name := FirstText(Some(texts[i]));
      if name != [] {
        name := TrimTrailingCommas(name);
        authors := authors + [name];
      }
    }
    Seqs.PrefixAll(texts);
  }

  /** `x` is `_normalize_author` of a link text that has some text. */
  predicate IsLinkName(texts: seq<string>, x: string)
  {
    exists t :: t in texts && Collapse(t) != [] && x == Models.NormalizeAuthor(t)
  }

  /** Each contributed name is `_normalize_author` of its link text, hence clean. */
  lemma {:induction false} AuthorLinkNamesSources(texts: seq<string>)
    ensures forall x :: x in AuthorLinkNames(texts) ==> Models.CleanName(x) && IsLinkName(texts, x)
  {
    if texts != [] {
      var p := texts[..|texts| - 1];
      var t := texts[|texts| - 1];
      AuthorLinkNamesSources(p);
      Seqs.PrefixLast(texts);
      AuthorLinkNamesSnoc(p, t);
      forall x | x in AuthorLinkNames(texts)
        ensures Models.CleanName(x) && IsLinkName(texts, x)
      {
        if x in AuthorLinkNames(p) {
          var u :| u in p && Collapse(u) != [] && x == Models.NormalizeAuthor(u);
          assert u in texts;
        } else {
          Models.NormalizeAuthorTrimsCollapse(t);
          assert x == Models.NormalizeAuthor(t) && t in texts;
        }
      }
    }
  }

  /** Every link with some text contributes its name. */
  lemma {:induction false} AuthorLinkNamesCover(texts: seq<string>)
    ensures forall t :: t in texts && Collapse(t) != [] ==> Models.NormalizeAuthor(t) in AuthorLinkNames(texts)
  {
    if texts != [] {
      var p := texts[..|texts| - 1];
      var t := texts[|texts| - 1];
      AuthorLinkNamesCover(p);
      Seqs.PrefixLast(texts);
      AuthorLinkNamesSnoc(p, t);
      forall u | u in texts && Collapse(u) != []
        ensures Models.NormalizeAuthor(u) in AuthorLinkNames(texts)
      {
        Models.NormalizeAuthorTrimsCollapse(u);
        if u != t {
          assert u in p;
        }
      }
    }
  }

  /**
   * `extract_authors`: pairwise distinct names, each `_normalize_author` of a
   * link with some text, every such link represented, in first-seen order.
   */
  lemma CardAuthorsProperties(card: Card)
    ensures Distinct(CardAuthors(card))
    ensures forall x :: x in CardAuthors(card) <==>
      exists t :: t in card.authorLinks && Collapse(t) != [] && x == Models.NormalizeAuthor(t)
    ensures forall i, j :: 0 <= i < j < |CardAuthors(card)| ==>
      FirstIndex(AuthorLinkNames(card.authorLinks), CardAuthors(card)[i]) <
      FirstIndex(AuthorLinkNames(card.authorLinks), CardAuthors(card)[j])
  {
    var a := AuthorLinkNames(card.authorLinks);
    DedupSpec(a);
    DedupOrder(a);
    AuthorLinkNamesSources(card.authorLinks);
    AuthorLinkNamesCover(card.authorLinks);
    forall x ensures x in CardAuthors(card) <==>
      exists t :: t in card.authorLinks && Collapse(t) != [] && x == Models.NormalizeAuthor(t)
    {
      DedupMember(a, x);
      if x in a {
        var k :| 0 <= k < |a| && a[k] == x;
      }
    }
  }

  /** Every name `extract_authors` returns is clean. */
  lemma CardAuthorsClean(card: Card)
    ensures forall x :: x in CardAuthors(card) ==> Models.CleanName(x)
  {
    AuthorLinkNamesSources(card.authorLinks);
    forall x | x in CardAuthors(card)
      ensures Models.CleanName(x)
    {
      DedupMember(AuthorLinkNames(card.authorLinks), x);
    }
  }

  /** A link whose text is only a comma yields the empty name: the emptiness test comes first. */
  lemma CommaOnlyAuthor()
    ensures AuthorLinkNames([","]) == [""]
  {
    assert !IsSpace(',');
    assert Strip(",") == ",";
    assert FirstText(Some(",")) == ",";
    assert [","][..0] == [];
  }

  /**
   * `absolutize(base, href)`: `urljoin(base, href or "")`, with `urljoin` a
   * parameter.  A missing `href` is joined as the empty reference.
   */
  function Absolutize(base: string, href: Option<string>, urljoin: (string, string) -> string): (r: string)
    ensures href.None? ==> r == urljoin(base, "")
    ensures href.Some? ==> r == urljoin(base, href.value)
  {
    urljoin(base, href.GetOr(""))
  }
}
