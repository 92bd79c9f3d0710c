/**
 * The anchor-scanning indexers of cei6/indexers/blogs.py, op_eds.py and
 * news_releases.py.  The three files hold the same helpers and the same
 * `fetch_first_page` loop; they differ in the section path, the
 * `source_type` and the title fallback chain, which `Section` selects.
 *
 * An anchor of the listing page is given by `urljoin(BASE, href)`, its
 * text, its `title` attribute and what the helpers read from its
 * `find_parent(["article", "li", "div"]) or soup` container.
 */
module PageListing {
  import opened Wrappers
  import opened Text
  import opened Seqs
  import opened Base

  const BaseUrl: string := "https://cei.org"

  const RowCap: nat := 30

  datatype Section = Blogs | OpEds | NewsReleases

  /** The path prefix `_looks_like_post` requires. */
  function SectionPrefix(s: Section): string
  {
    match s
    case Blogs => "/blog/"
    case OpEds => "/opeds_articles/"
    case NewsReleases => "/news_releases/"
  }

  function SourceType(s: Section): string
  {
    match s
    case Blogs => "blogs"
    case OpEds => "op_eds"
    case NewsReleases => "news_releases"
  }

  /** `_clean`: `""` for `None` or `""`, otherwise `" ".join(s.split())`. */
  function Clean(s: Option<string>): (r: string)
    ensures s.None? ==> r == ""
    ensures s.Some? ==> r == Collapse(s.value)
  {
    if s.None? || s.value == [] then "" else Collapse(s.value)
  }

  /** `_looks_like_post(href)` */
  predicate LooksLikePost(section: Section, href: string)
  {
    StartsWith(href, SectionPrefix(section)) &&
    !Contains(href, "/page/") &&
    !Contains(href, "posts_per_page") &&
    CountChar(href, '/') >= 3
  }

  /** The section's own index page is not a post: it has only two slashes. */
  lemma SectionIndexIsNotPost(section: Section)
    ensures !LooksLikePost(section, SectionPrefix(section))
  {
    match section
    case Blogs =>
      assert "/blog/" == "/" + "blog" + "/";
      TwoSlashes("blog");
    case OpEds =>
      assert "/opeds_articles/" == "/" + "opeds_articles" + "/";
      TwoSlashes("opeds_articles");
    case NewsReleases =>
      assert "/news_releases/" == "/" + "news_releases" + "/";
      TwoSlashes("news_releases");
  }

  lemma TwoSlashes(mid: string)
    requires '/' !in mid
    ensures CountChar("/" + mid + "/", '/') == 2
  {
    assert "/"[1..] == [];
    CountCharAppend("/" + mid, "/", '/');
    CountCharAppend("/", mid, '/');
    PlainCount(mid, '/');
  }

  lemma {:induction false} PlainCount(s: string, c: char)
    requires c !in s
    ensures CountChar(s, c) == 0
  {
    if s != [] {
      assert c !in s[1..];
      PlainCount(s[1..], c);
    }
  }

  lemma {:induction false} CountCharAppend(s: string, t: string, c: char)
    ensures CountChar(s + t, c) == CountChar(s, c) + CountChar(t, c)
  {
    if s != [] {
      assert (s + t)[1..] == s[1..] + t;
      CountCharAppend(s[1..], t, c);
    } else {
      assert s + t == t;
    }
  }

  // ----- what a container offers -----

  /** A `time[datetime]` element: its `datetime` attribute (possibly empty) and its text. */
  datatype TimeTag = TimeTag(datetime: string, text: string)

  /** An `a[href]` element: its `href` value and its `get_text(strip=True)`. */
  datatype Anchor = Anchor(href: string, text: string)

  /**
   * The parts of a container the helpers read: the first title holder's
   * text, the whole text (`get_text(" ", strip=True)`), the first
   * `time[datetime]`, the `a[href]` elements, the author-link texts and the
   * by-line element texts, each in document order.
   */
  datatype Container = Container(
    heading: Option<string>,
    fullText: string,
    time: Option<TimeTag>,
    links: seq<Anchor>,
    authorLinks: seq<string>,
    bylines: seq<string>)

  /** An anchor of the listing page. */
  datatype PageAnchor = PageAnchor(absUrl: string, text: string, titleAttr: Option<string>, container: Container)

  // ----- _find_issue -----

  predicate IsIssueLink(a: Anchor)
  {
    Contains(a.href, "/issues/") && Clean(Some(a.text)) != []
  }

  function IssueTest(): Anchor -> bool
  {
    a => IsIssueLink(a)
  }

  /** What `_find_issue(container)` returns. */
  function FindIssue(c: Container): string
  {
    match FindFirst(c.links, IssueTest())
    case None => ""
    case Some(k) => Clean(Some(c.links[k].text))
  }

  /** `_find_issue`: the loop over `a[href]` that returns at the first non-empty `/issues/` link. */
  method FindIssueLoop(c: Container) returns (issue: string)
    ensures issue == FindIssue(c)
  {
    for i := 0 to |c.links|
      invariant forall j :: 0 <= j < i ==> !IssueTest()(c.links[j])
    {
      var t := IssueOf(c.links[i]);
      if t != [] {
        FindFirstAt(c.links, IssueTest(), i);
        return t;
      }
    }
    FindFirstNone(c.links, IssueTest());
    return "";
  }

  /** The body of the `_find_issue` loop: the cleaned text of an `/issues/` link, `""` otherwise. */
  method IssueOf(a: Anchor) returns (t: string)
    ensures t != [] <==> IssueTest()(a)
    ensures t != [] ==> t == Clean(Some(a.text))
  {
    assert IssueTest()(a) == IsIssueLink(a);
    t := "";
    if Contains(a.href, "/issues/") {
      t := Clean(Some(a.text));
    }
  }

  /** `_find_issue` is the cleaned text of the first `/issues/` link with text, and non-empty then. */
  lemma FindIssueFirst(c: Container, k: nat)
    requires k < |c.links| && IsIssueLink(c.links[k])
    requires forall j :: 0 <= j < k ==> !IsIssueLink(c.links[j])
    ensures FindIssue(c) == Collapse(c.links[k].text) && FindIssue(c) != []
  {
    forall j | 0 <= j < k
      ensures !IssueTest()(c.links[j])
    {
      assert !IsIssueLink(c.links[j]);
    }
    assert IssueTest()(c.links[k]);
    FindFirstAt(c.links, IssueTest(), k);
  }

  /** `_find_issue` is `""` exactly when no `/issues/` link has text. */
  lemma FindIssueEmpty(c: Container)
    ensures FindIssue(c) == [] <==> forall j :: 0 <= j < |c.links| ==> !IsIssueLink(c.links[j])
  {
    var r := FindFirst(c.links, IssueTest());
    if r.Some? {
      assert IssueTest()(c.links[r.value]);
    }
  }

  // ----- _find_authors -----

  /** The non-empty `_clean`ed texts, in order. */
  function CleanedTexts(ts: seq<string>): seq<string>
  {
    if ts == [] then []
    else
      var d := CleanedTexts(ts[..|ts| - 1]);
      var t := Clean(Some(ts[|ts| - 1]));
      if t == [] then d else d + [t]
  }

  lemma CleanedTextsSnoc(ts: seq<string>, t: string)
    ensures CleanedTexts(ts + [t]) ==
      if Clean(Some(t)) == [] then CleanedTexts(ts) else CleanedTexts(ts) + [Clean(Some(t))]
  {
    assert (ts + [t])[..|ts|] == ts;
  }

  /** `t.lower() == "by"` */
  predicate IsBareBy(t: string)
  {
    Lower(t) == "by"
  }

  /** The pieces one by-line yields: "by " dropped, a bare "by" ignored, split on "," and " and ". */
  function BylinePieces(el: string): seq<string>
  {
    var t := StripBy(Clean(Some(el)));
    if t == [] || IsBareBy(t) then [] else CleanedTexts(Split(CommaOrSpacedAnd, t))
  }

  function BylineNames(els: seq<string>): seq<string>
  {
    if els == [] then [] else BylineNames(els[..|els| - 1]) + BylinePieces(els[|els| - 1])
  }

  lemma BylineNamesSnoc(els: seq<string>, el: string)
    ensures BylineNames(els + [el]) == BylineNames(els) + BylinePieces(el)
  {
    assert (els + [el])[..|els|] == els;
  }

  /**
   * What `_find_authors(container)` returns: the distinct cleaned link
   * texts, or, when there are none, the distinct by-line pieces.
   */
  function FindAuthors(c: Container): seq<string>
  {
    var fromLinks := CleanedTexts(c.authorLinks);
    if fromLinks != [] then Dedup(fromLinks) else Dedup(BylineNames(c.bylines))
  }

  /** `_find_authors`: the link loop, then the by-line loop when it found nothing. */
  method FindAuthorsLoop(c: Container) returns (names: seq<string>)
    ensures names == FindAuthors(c)
  {
    names := AddCleaned([], c.authorLinks, []);
    assert [] + CleanedTexts(c.authorLinks) == CleanedTexts(c.authorLinks);
    if names == [] {
      DedupSpec(CleanedTexts(c.authorLinks));
      names := BylineLoop(c.bylines);
    }
  }

  /** The by-line loop of `_find_authors`, which starts from no names. */
  method BylineLoop(els: seq<string>) returns (names: seq<string>)
    ensures names == Dedup(BylineNames(els))
  {
    names := [];
    for i := 0 to |els|
      invariant names == Dedup(BylineNames(els[..i]))
    {
      var el := els[i];
      Seqs.PrefixSnoc(els, i);
      BylineNamesSnoc(els[..i], el);
      names := AddBylinePieces(names, el, BylineNames(els[..i]));
    }
    Seqs.PrefixAll(els);
  }

  /** One by-line element: drop "by ", skip a bare "by", add the new pieces. */
  method AddBylinePieces(names: seq<string>, el: string, ghost before: seq<string>) returns (out: seq<string>)
    requires names == Dedup(before)
    ensures out == Dedup(before + BylinePieces(el))
  {
    var t := Clean(Some(el));
    t := StripBy(t);
    if t != [] && Lower(t) != "by" {
      var parts := Split(CommaOrSpacedAnd, t);
      out := AddCleaned(names, parts, before);
    } else {
      assert before + [] == before;
      out := names;
    }
  }

  /** Append each non-empty cleaned text that is not yet among `names`. */
  method AddCleaned(names: seq<string>, ts: seq<string>, ghost before: seq<string>) returns (out: seq<string>)
    requires names == Dedup(before)
    ensures out == Dedup(before + CleanedTexts(ts))
  {
    out := names;
    assert before + CleanedTexts(ts[..0]) == before;
    for j := 0 to |ts|
      invariant out == Dedup(before + CleanedTexts(ts[..j]))
    {
      out := AddCleanedText(out, ts, j, before);
    }
    Seqs.PrefixAll(ts);
  }

  /** The body of the inner loop: clean one text and append it unless empty or already present. */
  method AddCleanedText(names: seq<string>, ts: seq<string>, j: nat, ghost before: seq<string>)
    returns (out: seq<string>)
    requires j < |ts|
    requires names == Dedup(before + CleanedTexts(ts[..j]))
    ensures out == Dedup(before + CleanedTexts(ts[..j + 1]))
  {
    Seqs.PrefixSnoc(ts, j);
    CleanedTextsSnoc(ts[..j], ts[j]);
    var p := Clean(Some(ts[j]));
    if p == [] {
      return names;
    }
    ghost var acc := before + CleanedTexts(ts[..j]);
    assert before + CleanedTexts(ts[..j + 1]) == acc + [p];
    DedupSnoc(acc, p);
    out := names;
    if p !in out {
      out := out + [p];
    }
  }

  lemma {:induction false} CleanedTextsClean(ts: seq<string>)
    ensures forall k :: 0 <= k < |CleanedTexts(ts)| ==>
      CleanedTexts(ts)[k] != [] && Normalized(CleanedTexts(ts)[k])
    ensures (forall k :: 0 <= k < |ts| ==> ',' !in ts[k]) ==>
      forall k :: 0 <= k < |CleanedTexts(ts)| ==> ',' !in CleanedTexts(ts)[k]
    ensures forall x :: x in CleanedTexts(ts) <==> exists t :: t in ts && x == Collapse(t) && x != []
  {
    if ts != [] {
      var p := ts[..|ts| - 1];
      var t := ts[|ts| - 1];
      CleanedTextsClean(p);
      if ',' !in t {
        CollapseExclude(t, ',');
      }
      assert forall k :: 0 <= k < |p| ==> p[k] == ts[k];
      Seqs.MembersSnoc(ts);
    }
  }

  /** A by-line name: non-empty, whitespace-normalised and comma-free. */
  predicate IsBylineName(x: string)
  {
    x != [] && Normalized(x) && ',' !in x
  }

  lemma BylinePiecesClean(el: string)
    ensures forall x :: x in BylinePieces(el) ==> IsBylineName(x)
  {
    var t := StripBy(Clean(Some(el)));
    if !(t == [] || IsBareBy(t)) {
      var ps := CleanedTexts(Split(CommaOrSpacedAnd, t));
      CleanedTextsClean(Split(CommaOrSpacedAnd, t));
      forall x | x in ps ensures IsBylineName(x) {
        var k :| 0 <= k < |ps| && ps[k] == x;
      }
    }
  }

  /** Texts that are all blank give no names. */
  lemma {:induction false} CleanedTextsNone(ts: seq<string>)
    requires forall t :: t in ts ==> Collapse(t) == []
    ensures CleanedTexts(ts) == []
  {
    if ts != [] {
      assert ts[|ts| - 1] in ts;
      assert forall t :: t in ts[..|ts| - 1] ==> t in ts;
      CleanedTextsNone(ts[..|ts| - 1]);
    }
  }

  lemma {:induction false} BylineNamesClean(els: seq<string>)
    ensures forall x :: x in BylineNames(els) ==> IsBylineName(x)
  {
    if els != [] {
      BylineNamesClean(els[..|els| - 1]);
      BylinePiecesClean(els[|els| - 1]);
    }
  }

  /** `_find_authors`: pairwise distinct, non-empty, whitespace-normalised names. */
  lemma FindAuthorsClean(c: Container)
    ensures Distinct(FindAuthors(c))
    ensures forall k :: 0 <= k < |FindAuthors(c)| ==>
      FindAuthors(c)[k] != [] && Normalized(FindAuthors(c)[k])
  {
    var l := CleanedTexts(c.authorLinks);
    var b := BylineNames(c.bylines);
    var r := FindAuthors(c);
    if l != [] {
      CleanedTextsClean(c.authorLinks);
      DedupSpec(l);
      forall k | 0 <= k < |r| ensures r[k] != [] && Normalized(r[k]) {
        var j := FirstIndex(l, r[k]);
      }
    } else {
      BylineNamesClean(c.bylines);
      DedupSpec(b);
      assert forall k :: 0 <= k < |r| ==> IsBylineName(r[k]);
    }
  }

  /** When some author link has text, the names are exactly the link texts that have text. */
  lemma FindAuthorsFromLinks(c: Container)
    requires exists t :: t in c.authorLinks && Collapse(t) != []
    ensures forall x :: x in FindAuthors(c) <==> exists t :: t in c.authorLinks && x == Collapse(t) && x != []
  {
    var l := CleanedTexts(c.authorLinks);
    CleanedTextsClean(c.authorLinks);
    var t :| t in c.authorLinks && Collapse(t) != [];
    assert Collapse(t) in l;
    forall x ensures x in FindAuthors(c) <==> x in l {
      DedupMember(l, x);
    }
  }

  /**
   * Only when no author link has text are the by-line pieces used; they are
   * then the names, and none of them holds a comma.
   */
  lemma FindAuthorsFromBylines(c: Container)
    requires forall t :: t in c.authorLinks ==> Collapse(t) == []
    ensures forall x :: x in FindAuthors(c) <==> x in BylineNames(c.bylines)
    ensures forall x :: x in FindAuthors(c) ==> ',' !in x
  {
    var b := BylineNames(c.bylines);
    CleanedTextsNone(c.authorLinks);
    assert FindAuthors(c) == Dedup(b);
    BylineNamesClean(c.bylines);
    forall x ensures x in FindAuthors(c) <==> x in b {
      DedupMember(b, x);
    }
  }

  /** A bare "by" by-line (in any case) yields no name. */
  lemma BareByline(b: char, y: char)
    requires b in "bB" && y in "yY"
    ensures BylinePieces([b, y]) == []
  {
    assert Normalized([b, y]);
    CollapseNormalized([b, y]);
    assert DropSpaces([b, y]) == [b, y];
    assert Lower([b, y]) == "by";
  }

  // ----- fetch_first_page -----

  /** `abs_url.replace(BASE, "", 1)` on a URL that starts with `BASE`. */
  function PathOf(absUrl: string): string
    requires StartsWith(absUrl, BaseUrl)
  {
    absUrl[|BaseUrl|..]
  }

  /** The two `continue` tests other than the `seen` test. */
  predicate IsCandidate(section: Section, absUrl: string)
  {
    StartsWith(absUrl, BaseUrl) && LooksLikePost(section, PathOf(absUrl))
  }

  /** The title fallback chain of each file. */
  function Title(section: Section, a: PageAnchor): string
  {
    var t := Clean(Some(a.text));
    if t != [] then t
    else match section
      case Blogs =>
        var h := Clean(a.container.heading);
        if h != [] then h
        else
          var ta := Clean(a.titleAttr);
          if ta != [] then ta else a.absUrl
      case OpEds =>
        if a.container.heading.Some? then Clean(a.container.heading) else a.absUrl
      case NewsReleases =>
        var x := Clean(Some(Take(a.container.fullText, 140)));
        if x != [] then x else a.absUrl
  }

  /** The `<time>` date: the `datetime` attribute when non-empty, else the element's text. */
  function TimeDate(c: Container): string
  {
    match c.time
    case None => ""
    case Some(t) => if t.datetime != [] then Clean(Some(t.datetime)) else Clean(Some(t.text))
  }

  /** The row `fetch_first_page` appends for a kept anchor. */
  function MakeRow(section: Section, a: PageAnchor): IndexRow
  {
    IndexRow(SourceType(section), a.absUrl, Title(section, a), TimeDate(a.container),
             FindIssue(a.container), Some(FindAuthors(a.container)), "", "")
  }

  /** The body of the loop once an anchor is kept. */
  method BuildRow(section: Section, a: PageAnchor) returns (row: IndexRow)
    ensures row == MakeRow(section, a)
  {
    var c := a.container;
    var title := Clean(Some(a.text));
    if title == [] {
      match section {
        case Blogs =>
          title := Clean(c.heading);
          if title == [] {
            title := Clean(a.titleAttr);
            if title == [] {
              title := a.absUrl;
            }
          }
        case OpEds =>
          title := if c.heading.Some? then Clean(c.heading) else a.absUrl;
        case NewsReleases =>
          title := Clean(Some(Take(c.fullText, 140)));
          if title == [] {
            title := a.absUrl;
          }
      }
    }
    var date := "";
    if c.time.Some? && c.time.value.datetime != [] {
      date := Clean(Some(c.time.value.datetime));
    } else if c.time.Some? {
      date := Clean(Some(c.time.value.text));
    }
    var issue := FindIssueLoop(c);
    var authors := FindAuthorsLoop(c);
    row := IndexRow(SourceType(section), a.absUrl, title, date, issue, Some(authors), "", "");
  }

  /** The URLs of a sequence of anchors, in order. */
  function UrlsOf(anchors: seq<PageAnchor>): (us: seq<string>)
    ensures |us| == |anchors|
    ensures forall k :: 0 <= k < |anchors| ==> us[k] == anchors[k].absUrl
  {
    seq(|anchors|, k requires 0 <= k < |anchors| => anchors[k].absUrl)
  }

  /** The anchors the loop turns into rows: candidates whose URL no earlier kept anchor has. */
  function Kept(section: Section, anchors: seq<PageAnchor>): seq<PageAnchor>
  {
    if anchors == [] then []
    else
      var kept := Kept(section, anchors[..|anchors| - 1]);
      var a := anchors[|anchors| - 1];
      if IsCandidate(section, a.absUrl) && a.absUrl !in UrlsOf(kept) then kept + [a] else kept
  }

  lemma KeptSnoc(section: Section, anchors: seq<PageAnchor>, a: PageAnchor)
    ensures Kept(section, anchors + [a]) ==
      if IsCandidate(section, a.absUrl) && a.absUrl !in UrlsOf(Kept(section, anchors))
      then Kept(section, anchors) + [a]
      else Kept(section, anchors)
  {
    assert (anchors + [a])[..|anchors|] == anchors;
  }

  /** The rows of the kept anchors. */
  function RowsOf(section: Section, kept: seq<PageAnchor>): (rows: seq<IndexRow>)
    ensures |rows| == |kept|
    ensures forall k :: 0 <= k < |kept| ==> rows[k] == MakeRow(section, kept[k])
  {
    seq(|kept|, k requires 0 <= k < |kept| => MakeRow(section, kept[k]))
  }

  /** What `fetch_first_page()` returns for the page's anchors. */
  function FetchFirstPage(section: Section, anchors: seq<PageAnchor>): seq<IndexRow>
  {
    Take(RowsOf(section, Kept(section, anchors)), RowCap)
  }

  /** The loop of `fetch_first_page`, with its `seen` set, then `rows[:30]`. */
  method FetchFirstPageLoop(section: Section, anchors: seq<PageAnchor>) returns (result: seq<IndexRow>)
    ensures result == FetchFirstPage(section, anchors)
  {
    var seen: set<string> := {};
    var rows: seq<IndexRow> := [];
    ghost var kept: seq<PageAnchor> := [];
    for i := 0 to |anchors|
      invariant kept == Kept(section, anchors[..i])
      invariant rows == RowsOf(section, kept)
      invariant forall u :: u in seen <==> u in UrlsOf(kept)
    {
      var a := anchors[i];
      Seqs.PrefixSnoc(anchors, i);
      KeptSnoc(section, anchors[..i], a);
      var absUrl := a.absUrl;
      if !StartsWith(absUrl, BaseUrl) {
        continue;
      }
      var path := absUrl[|BaseUrl|..];
      if !LooksLikePost(section, path) {
        continue;
      }
      if absUrl in seen {
        continue;
      }
      seen := seen + {absUrl};
      var row := BuildRow(section, a);
      OfSnoc(section, kept, a);
      kept := kept + [a];
      rows := rows + [row];
    }
    Seqs.PrefixAll(anchors);
    result := Take(rows, RowCap);
  }

  lemma OfSnoc(section: Section, kept: seq<PageAnchor>, a: PageAnchor)
    ensures UrlsOf(kept + [a]) == UrlsOf(kept) + [a.absUrl]
    ensures RowsOf(section, kept + [a]) == RowsOf(section, kept) + [MakeRow(section, a)]
  {
  }

  // ----- properties of the scan -----

  /** The URLs of the anchors that pass the base and path tests, repeats included. */
  function CandidateUrls(section: Section, anchors: seq<PageAnchor>): seq<string>
  {
    if anchors == [] then []
    else
      var d := CandidateUrls(section, anchors[..|anchors| - 1]);
      var u := anchors[|anchors| - 1].absUrl;
      if IsCandidate(section, u) then d + [u] else d
  }

  /**
   * The kept URLs are exactly the first-seen de-duplication of the
   * candidate URLs: one row per post URL, in the order of first occurrence.
   */
  lemma {:induction false} KeptUrlsAreDedup(section: Section, anchors: seq<PageAnchor>)
    ensures UrlsOf(Kept(section, anchors)) == Dedup(CandidateUrls(section, anchors))
  {
    if anchors != [] {
      var p := anchors[..|anchors| - 1];
      var a := anchors[|anchors| - 1];
      var kept := Kept(section, p);
      KeptUrlsAreDedup(section, p);
      if IsCandidate(section, a.absUrl) {
        DedupSnoc(CandidateUrls(section, p), a.absUrl);
        OfSnoc(section, kept, a);
      }
    }
  }

  /** Every kept anchor is a candidate and one of the page's anchors. */
  lemma {:induction false} KeptFromAnchors(section: Section, anchors: seq<PageAnchor>)
    ensures forall k :: 0 <= k < |Kept(section, anchors)| ==>
      IsCandidate(section, Kept(section, anchors)[k].absUrl) && Kept(section, anchors)[k] in anchors
  {
    if anchors != [] {
      var p := anchors[..|anchors| - 1];
      KeptFromAnchors(section, p);
      Seqs.MembersSnoc(anchors);
      var kept := Kept(section, p);
      var r := Kept(section, anchors);
      assert forall k :: 0 <= k < |kept| ==> r[k] == kept[k];
    }
  }

  lemma {:induction false} CandidateUrlsCover(section: Section, anchors: seq<PageAnchor>)
    ensures forall i :: 0 <= i < |anchors| && IsCandidate(section, anchors[i].absUrl) ==>
      anchors[i].absUrl in CandidateUrls(section, anchors)
  {
    if anchors != [] {
      var p := anchors[..|anchors| - 1];
      var n := |p|;
      CandidateUrlsCover(section, p);
      forall i | 0 <= i < |anchors| && IsCandidate(section, anchors[i].absUrl)
        ensures anchors[i].absUrl in CandidateUrls(section, anchors)
      {
        if i < n {
          assert anchors[i] == p[i];
        }
      }
    }
  }

  /**
   * `fetch_first_page`: at most 30 rows, the first ones of the scan, with
   * pairwise distinct URLs.
   */
  lemma FetchFirstPageProperties(section: Section, anchors: seq<PageAnchor>)
    ensures |FetchFirstPage(section, anchors)| <= RowCap
    ensures FetchFirstPage(section, anchors) ==
      RowsOf(section, Kept(section, anchors))[..|FetchFirstPage(section, anchors)|]
    ensures forall i, j :: 0 <= i < j < |FetchFirstPage(section, anchors)| ==>
      FetchFirstPage(section, anchors)[i].url != FetchFirstPage(section, anchors)[j].url
  {
    var kept := Kept(section, anchors);
    var all := RowsOf(section, kept);
    var r := FetchFirstPage(section, anchors);
    KeptUrlsAreDedup(section, anchors);
    DedupSpec(CandidateUrls(section, anchors));
    forall i, j | 0 <= i < j < |r| ensures r[i].url != r[j].url {
      assert r[i] == all[i] && r[j] == all[j];
      assert UrlsOf(kept)[i] != UrlsOf(kept)[j];
    }
  }

  /**
   * Every row's URL is under `https://cei.org` with a path that looks like
   * a post; the rows are the section's, with `outlet` and `outlet_url` at
   * their defaults and an author list always present.
   */
  lemma FetchFirstPageRows(section: Section, anchors: seq<PageAnchor>)
    ensures forall k :: 0 <= k < |FetchFirstPage(section, anchors)| ==>
      var r := FetchFirstPage(section, anchors)[k];
      StartsWith(r.url, BaseUrl) && LooksLikePost(section, PathOf(r.url)) &&
      r.sourceType == SourceType(section) && r.outlet == "" && r.outletUrl == "" && r.authors.Some?
  {
    var kept := Kept(section, anchors);
    var all := RowsOf(section, kept);
    var r := FetchFirstPage(section, anchors);
    KeptFromAnchors(section, anchors);
    forall k | 0 <= k < |r|
      ensures StartsWith(r[k].url, BaseUrl) && LooksLikePost(section, PathOf(r[k].url))
    {
      assert r[k] == all[k];
    }
  }

  /** Below the cap, every candidate URL of the page has a row. */
  lemma FetchFirstPageComplete(section: Section, anchors: seq<PageAnchor>, i: nat)
    requires |Kept(section, anchors)| <= RowCap
    requires i < |anchors| && IsCandidate(section, anchors[i].absUrl)
    ensures exists k :: 0 <= k < |FetchFirstPage(section, anchors)| &&
                        FetchFirstPage(section, anchors)[k].url == anchors[i].absUrl
  {
    var kept := Kept(section, anchors);
    var u := anchors[i].absUrl;
    CandidateUrlsCover(section, anchors);
    assert u in CandidateUrls(section, anchors);
    KeptUrlsAreDedup(section, anchors);
    DedupMember(CandidateUrls(section, anchors), u);
    var k :| 0 <= k < |kept| && UrlsOf(kept)[k] == u;
    var rows := RowsOf(section, kept);
    assert FetchFirstPage(section, anchors) == rows;
    assert rows[k] == MakeRow(section, kept[k]);
  }

  /** Anchor `i` is the first one carrying its URL. */
  predicate FirstOfUrl(anchors: seq<PageAnchor>, i: int)
  {
    0 <= i < |anchors| && forall j :: 0 <= j < i ==> anchors[j].absUrl != anchors[i].absUrl
  }

  /** The row of a kept URL is built from the first anchor carrying it. */
  lemma {:induction false} FirstAnchorWins(section: Section, anchors: seq<PageAnchor>)
    ensures forall k :: 0 <= k < |Kept(section, anchors)| ==>
      exists i :: FirstOfUrl(anchors, i) && Kept(section, anchors)[k] == anchors[i]
  {
    if anchors != [] {
      var p := anchors[..|anchors| - 1];
      var a := anchors[|anchors| - 1];
      var n := |anchors| - 1;
      FirstAnchorWins(section, p);
      var kept := Kept(section, p);
      var r := Kept(section, anchors);
      forall k | 0 <= k < |r|
        ensures exists i :: FirstOfUrl(anchors, i) && r[k] == anchors[i]
      {
        if k < |kept| {
          assert r[k] == kept[k];
          var i :| FirstOfUrl(p, i) && kept[k] == p[i];
          assert forall j :: 0 <= j <= i ==> anchors[j] == p[j];
          assert FirstOfUrl(anchors, i) && r[k] == anchors[i];
        } else {
          assert r == kept + [a];
          forall j | 0 <= j < n ensures anchors[j].absUrl != a.absUrl {
            assert anchors[j] == p[j];
            if IsCandidate(section, p[j].absUrl) {
              SeenBefore(section, p, j);
            }
          }
          assert FirstOfUrl(anchors, n) && r[k] == anchors[n];
        }
      }
      assert forall k :: 0 <= k < |r| ==> exists i :: FirstOfUrl(anchors, i) && r[k] == anchors[i];
      assert r == Kept(section, anchors);
      assert forall k :: 0 <= k < |Kept(section, anchors)| ==>
        exists i :: FirstOfUrl(anchors, i) && Kept(section, anchors)[k] == anchors[i];
    } else {
      assert Kept(section, anchors) == [];
    }
  }

  /** A candidate URL that occurs among the anchors is a kept URL. */
  lemma SeenBefore(section: Section, anchors: seq<PageAnchor>, j: nat)
    requires j < |anchors| && IsCandidate(section, anchors[j].absUrl)
    ensures anchors[j].absUrl in UrlsOf(Kept(section, anchors))
  {
    CandidateUrlsCover(section, anchors);
    KeptUrlsAreDedup(section, anchors);
    DedupMember(CandidateUrls(section, anchors), anchors[j].absUrl);
  }

  /** Blog and news-release titles are never empty: each chain ends with the URL. */
  lemma TitleNonEmpty(section: Section, a: PageAnchor)
    requires section != OpEds
    requires StartsWith(a.absUrl, BaseUrl)
    ensures Title(section, a) != []
  {
  }

  /** An op-ed title falls back on a heading even when the heading has no text. */
  lemma OpEdTitleFromHeading(a: PageAnchor)
    requires Collapse(a.text) == [] && a.container.heading == Some("")
    ensures Title(OpEds, a) == []
  {
  }

  /** Only the first 140 characters of a news-release container feed its title. */
  lemma NewsTitleFromText(a: PageAnchor)
    requires Collapse(a.text) == []
    requires Collapse(Take(a.container.fullText, 140)) != []
    ensures Title(NewsReleases, a) == Collapse(Take(a.container.fullText, 140))
  {
  }
}
