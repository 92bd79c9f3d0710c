/**
 * Listing and detail records (cei6/models.py): author-name clean-up,
 * `ListingItem` construction and its dict form, and the JSON object form of
 * `DetailRecord`.
 */
module Models {
  import opened Wrappers
  import opened Text
  import opened Seqs
  import opened Json
  import opened DateTimes

  // ----- author names -----

  /** An element of the list given to `normalize_authors`: a `str` or some other object. */
  datatype Entry = Str(s: string) | NonStr

  /** A cleaned name: normalised whitespace and no trailing comma. */
  predicate CleanName(s: string)
  {
    Normalized(s) && (s == [] || s[|s| - 1] != ',')
  }

  /** `_normalize_author`: collapse whitespace, then drop trailing commas and spaces. */
  function NormalizeAuthor(name: string): (r: string)
    ensures CleanName(r)
  {
    var c := Strip(CollapseRuns(name));
    StripCollapseRuns(name);
    var r := TrimTrailingCommas(c);
    NormalizedPrefix(c, |r|);
    r
  }

  /** `_normalize_author` is `" ".join(name.split())` with trailing commas and spaces removed. */
  lemma NormalizeAuthorTrimsCollapse(name: string)
    ensures NormalizeAuthor(name) == TrimTrailingCommas(Collapse(name))
  {
    StripCollapseRuns(name);
  }

  /** Cleaning a cleaned name changes nothing. */
  lemma NormalizeAuthorOfClean(s: string)
    requires CleanName(s)
    ensures NormalizeAuthor(s) == s
  {
    NormalizeAuthorTrimsCollapse(s);
    CollapseNormalized(s);
    assert s == [] || !IsCommaOrSpace(s[|s| - 1]);
    TrimTrailingCommasNoop(s);
  }

  /** `_normalize_author` is idempotent. */
  lemma NormalizeAuthorIdempotent(s: string)
    ensures NormalizeAuthor(NormalizeAuthor(s)) == NormalizeAuthor(s)
  {
    NormalizeAuthorOfClean(NormalizeAuthor(s));
  }

  /**
   * The cleaned names of the string entries, in order, with the empty
   * ones dropped (before de-duplication).
   */
  function CleanedEntries(xs: seq<Entry>): (r: seq<string>)
    ensures forall k :: 0 <= k < |r| ==> r[k] != [] && CleanName(r[k])
  {
    if xs == [] then []
    else
      var p := xs[..|xs| - 1];
      var d := CleanedEntries(p);
      match xs[|xs| - 1]
      case NonStr => d
      case Str(s) =>
        var c := NormalizeAuthor(s);
        if c == [] then d else d + [c]
  }

  /**
   * A cleaned name comes from some string entry, and every string entry
   * whose cleaned name is non-empty contributes it.
   */
  lemma {:induction false} CleanedEntriesMembers(xs: seq<Entry>)
    ensures forall k :: 0 <= k < |CleanedEntries(xs)| ==>
      exists i :: 0 <= i < |xs| && xs[i].Str? && NormalizeAuthor(xs[i].s) == CleanedEntries(xs)[k]
    ensures forall i :: 0 <= i < |xs| && xs[i].Str? && NormalizeAuthor(xs[i].s) != [] ==>
      NormalizeAuthor(xs[i].s) in CleanedEntries(xs)
  {
    if xs != [] {
      var n := |xs|;
      var p := xs[..n - 1];
      var d := CleanedEntries(p);
      var r := CleanedEntries(xs);
      CleanedEntriesMembers(p);
      assert forall i :: 0 <= i < |p| ==> p[i] == xs[i];
      assert d <= r;
      forall k | 0 <= k < |r|
        ensures exists i :: 0 <= i < n && xs[i].Str? && NormalizeAuthor(xs[i].s) == r[k]
      {
        if k < |d| {
          assert r[k] == d[k];
          var i :| 0 <= i < |p| && p[i].Str? && NormalizeAuthor(p[i].s) == d[k];
          assert xs[i] == p[i];
        } else {
          assert xs[n - 1].Str? && NormalizeAuthor(xs[n - 1].s) == r[k];
        }
      }
      forall i | 0 <= i < n && xs[i].Str? && NormalizeAuthor(xs[i].s) != []
        ensures NormalizeAuthor(xs[i].s) in r
      {
        if i < n - 1 {
          assert p[i] == xs[i];
        }
      }
    } else {
      assert CleanedEntries(xs) == [];
    }
  }

  lemma CleanedEntriesSnoc(xs: seq<Entry>, s: string)
    ensures CleanedEntries(xs + [Str(s)]) ==
      if NormalizeAuthor(s) == [] then CleanedEntries(xs) else CleanedEntries(xs) + [NormalizeAuthor(s)]
  {
    assert (xs + [Str(s)])[..|xs|] == xs;
  }

  lemma CleanedEntriesSnocOther(xs: seq<Entry>)
    ensures CleanedEntries(xs + [NonStr]) == CleanedEntries(xs)
  {
    assert (xs + [NonStr])[..|xs|] == xs;
  }

  /** What `normalize_authors` returns. */
  function NormalizedAuthors(xs: seq<Entry>): seq<string>
  {
    Dedup(CleanedEntries(xs))
  }

  /**
   * `normalize_authors`: non-empty, cleaned, pairwise distinct names; a
   * name is present exactly when some string entry cleans to it.
   */
  lemma NormalizedAuthorsProperties(xs: seq<Entry>)
    ensures forall k :: 0 <= k < |NormalizedAuthors(xs)| ==>
      NormalizedAuthors(xs)[k] != [] && CleanName(NormalizedAuthors(xs)[k])
    ensures Distinct(NormalizedAuthors(xs))
    ensures forall k :: 0 <= k < |NormalizedAuthors(xs)| ==>
      exists i :: 0 <= i < |xs| && xs[i].Str? && NormalizeAuthor(xs[i].s) == NormalizedAuthors(xs)[k]
    ensures forall i :: 0 <= i < |xs| && xs[i].Str? && NormalizeAuthor(xs[i].s) != [] ==>
      NormalizeAuthor(xs[i].s) in NormalizedAuthors(xs)
  {
    var c := CleanedEntries(xs);
    var r := Dedup(c);
    CleanedEntriesMembers(xs);
    DedupSpec(c);
    forall k | 0 <= k < |r|
      ensures r[k] != [] && CleanName(r[k])
      ensures exists i :: 0 <= i < |xs| && xs[i].Str? && NormalizeAuthor(xs[i].s) == r[k]
    {
      var j := FirstIndex(c, r[k]);
    }
    forall i | 0 <= i < |xs| && xs[i].Str? && NormalizeAuthor(xs[i].s) != []
      ensures NormalizeAuthor(xs[i].s) in r
    {
      DedupMember(c, NormalizeAuthor(xs[i].s));
    }
  }

  /** The names come out in the order of their first cleaned occurrence. */
  lemma NormalizedAuthorsOrder(xs: seq<Entry>)
    ensures forall i, j :: 0 <= i < j < |NormalizedAuthors(xs)| ==>
      FirstIndex(CleanedEntries(xs), NormalizedAuthors(xs)[i]) <
      FirstIndex(CleanedEntries(xs), NormalizedAuthors(xs)[j])
  {
    DedupOrder(CleanedEntries(xs));
  }

  function AsEntries(names: seq<string>): (r: seq<Entry>)
    ensures |r| == |names|
    ensures forall i :: 0 <= i < |names| ==> r[i] == Str(names[i])
  {
    seq(|names|, i requires 0 <= i < |names| => Str(names[i]))
  }

  /** Normalising names that are already clean keeps exactly the non-empty ones. */
  lemma NormalizedCleanNames(names: seq<string>)
    requires forall x :: x in names ==> CleanName(x)
    ensures forall x :: x in NormalizedAuthors(AsEntries(names)) <==> x in names && x != []
  {
    var xs := AsEntries(names);
    var r := NormalizedAuthors(xs);
    NormalizedAuthorsProperties(xs);
    forall x | x in r
      ensures x in names && x != []
    {
      var k :| 0 <= k < |r| && r[k] == x;
      var i :| 0 <= i < |xs| && xs[i].Str? && NormalizeAuthor(xs[i].s) == x;
      assert names[i] in names;
      NormalizeAuthorOfClean(names[i]);
    }
    forall x | x in names && x != []
      ensures x in r
    {
      var i :| 0 <= i < |names| && names[i] == x;
      NormalizeAuthorOfClean(x);
      assert xs[i].Str? && NormalizeAuthor(xs[i].s) != [];
    }
  }

  lemma {:induction false} CleanedEntriesOfClean(names: seq<string>)
    requires forall k :: 0 <= k < |names| ==> names[k] != [] && CleanName(names[k])
    ensures CleanedEntries(AsEntries(names)) == names
  {
    if names != [] {
      var n := |names|;
      var p := names[..n - 1];
      var last := names[n - 1];
      CleanedEntriesOfClean(p);
      AsEntriesSnoc(names);
      NormalizeAuthorOfClean(last);
      CleanedEntriesSnoc(AsEntries(p), last);
      Seqs.PrefixLast(names);
    }
  }

  lemma AsEntriesSnoc(names: seq<string>)
    requires names != []
    ensures AsEntries(names) == AsEntries(names[..|names| - 1]) + [Str(names[|names| - 1])]
  {
  }

  /** `normalize_authors(normalize_authors(x)) == normalize_authors(x)` */
  lemma {:induction false} NormalizedAuthorsIdempotent(xs: seq<Entry>)
    ensures NormalizedAuthors(AsEntries(NormalizedAuthors(xs))) == NormalizedAuthors(xs)
  {
    var r := NormalizedAuthors(xs);
    NormalizedAuthorsProperties(xs);
    CleanedEntriesOfClean(r);
    DedupOfDistinct(r);
  }

  /** `normalize_authors`, with its `seen` set and `out` list. */
  method NormalizeAuthorsLoop(authors: seq<Entry>) returns (out: seq<string>)
    ensures out == NormalizedAuthors(authors)
  {
    out := [];
    var seen: set<string> := {};
    for i := 0 to |authors|
      invariant out == Dedup(CleanedEntries(authors[..i]))
      invariant forall x :: x in seen <==> x in out
    {
      Seqs.PrefixSnoc(authors, i);
      if !authors[i].Str? {
        CleanedEntriesSnocOther(authors[..i]);
        continue;
      }
      var clean := NormalizeAuthor(authors[i].s);
      CleanedEntriesSnoc(authors[..i], authors[i].s);
      if clean == [] {
        continue;
      }
      DedupSnoc(CleanedEntries(authors[..i]), clean);
      if clean !in seen {
        seen := seen + {clean};
        out := out + [clean];
      }
    }
    Seqs.PrefixAll(authors);
  }

  // ----- ListingItem -----

  /**
   * The `date_published` of a `ListingItem`: the field is annotated as a
   * `datetime`, but the studies indexer stores a string there.
   */
  datatype DateValue = NoDate | DateTimeValue(dt: DateTime) | DateString(text: string)

  datatype ListingItem = ListingItem(
    contentType: string,
    title: string,
    url: string,
    datePublished: DateValue,
    issue: Option<string>,
    authors: seq<string>)

  /**
   * `ListingItem(...)` followed by `__post_init__`: a missing author list
   * becomes `[]`, and the list is always passed through `normalize_authors`.
   */
  function NewListingItem(contentType: string, title: string, url: string,
                          datePublished: DateValue, issue: Option<string>,
                          authors: Option<seq<Entry>>): (it: ListingItem)
    ensures it.contentType == contentType && it.title == title && it.url == url
    ensures it.datePublished == datePublished && it.issue == issue
    ensures it.authors == NormalizedAuthors(authors.GetOr([]))
    ensures authors.None? ==> it.authors == []
    ensures Distinct(it.authors)
    ensures forall k :: 0 <= k < |it.authors| ==> it.authors[k] != [] && CleanName(it.authors[k])
  {
    var xs := authors.GetOr([]);
    NormalizedAuthorsProperties(xs);
    ListingItem(contentType, title, url, datePublished, issue, NormalizedAuthors(xs))
  }

  /** Building an item again from an item's own fields gives the same item. */
  lemma ListingItemRebuild(it: ListingItem, authors: Option<seq<Entry>>)
    requires it == NewListingItem(it.contentType, it.title, it.url, it.datePublished, it.issue, authors)
    ensures NewListingItem(it.contentType, it.title, it.url, it.datePublished, it.issue,
                           Some(AsEntries(it.authors))) == it
  {
    NormalizedAuthorsIdempotent(authors.GetOr([]));
  }

  /** The JSON value of `date_published` after `to_dict`. */
  function DateJson(d: DateValue): Json
  {
    match d
    case NoDate => JNull
    case DateTimeValue(dt) => JStr(IsoFormat(dt))
    case DateString(s) => JStr(s)
  }

  const ListingItemKeys: seq<string> :=
    ["content_type", "title", "url", "date_published", "issue", "authors"]

  /** `ListingItem.to_dict`: the dataclass fields in order, a datetime as its ISO text. */
  function ListingItemToDict(it: ListingItem): (d: seq<(string, Json)>)
    ensures Keys(d) == ListingItemKeys && Distinct(Keys(d))
    ensures Get(d, "url") == Some(JStr(it.url))
    ensures it.datePublished.DateTimeValue? ==>
      Get(d, "date_published") == Some(JStr(IsoFormat(it.datePublished.dt)))
    ensures it.datePublished.DateString? ==>
      Get(d, "date_published") == Some(JStr(it.datePublished.text))
    ensures it.datePublished.NoDate? ==> Get(d, "date_published") == Some(JNull)
  {
    var d := [("content_type", JStr(it.contentType)), ("title", JStr(it.title)),
              ("url", JStr(it.url)), ("date_published", DateJson(it.datePublished)),
              ("issue", OptStr(it.issue)), ("authors", StrList(it.authors))];
    assert Keys(d) == ListingItemKeys;
    assert Distinct(ListingItemKeys);
    GetAt(d, 2);
    GetAt(d, 3);
    d
  }

  /**
   * Reading a stored listing line back: what a consumer of the JSONL file
   * recovers from `to_dict`.  A date comes back as a string.
   */
  function ListingItemFromDict(d: seq<(string, Json)>): Option<ListingItem>
  {
    var ct := Get(d, "content_type");
    var ti := Get(d, "title");
    var u := Get(d, "url");
    var dp := Get(d, "date_published");
    var iss := Get(d, "issue");
    var au := Get(d, "authors");
    if ct.Some? && ct.value.JStr? && ti.Some? && ti.value.JStr? && u.Some? && u.value.JStr? &&
       dp.Some? && (dp.value.JStr? || dp.value.JNull?) &&
       iss.Some? && AsOptStr(iss.value).Some? && au.Some? && AsStrList(au.value).Some?
    then
      Some(ListingItem(ct.value.s, ti.value.s, u.value.s,
                       if dp.value.JNull? then NoDate else DateString(dp.value.s),
                       AsOptStr(iss.value).value, AsStrList(au.value).value))
    else None
  }

  /** Each key of `to_dict` holds its field's JSON value. */
  lemma ListingDictGets(it: ListingItem)
    ensures Get(ListingItemToDict(it), "content_type") == Some(JStr(it.contentType))
    ensures Get(ListingItemToDict(it), "title") == Some(JStr(it.title))
    ensures Get(ListingItemToDict(it), "url") == Some(JStr(it.url))
    ensures Get(ListingItemToDict(it), "date_published") == Some(DateJson(it.datePublished))
    ensures Get(ListingItemToDict(it), "issue") == Some(OptStr(it.issue))
    ensures Get(ListingItemToDict(it), "authors") == Some(StrList(it.authors))
  {
    var d := ListingItemToDict(it);
    assert Distinct(Keys(d));
    GetAt(d, 0);
    GetAt(d, 1);
    GetAt(d, 2);
    GetAt(d, 3);
    GetAt(d, 4);
    GetAt(d, 5);
  }

  /** Any dict holding an item's fields under the six keys reads back as that item. */
  lemma ListingFromDictOf(d: seq<(string, Json)>, it: ListingItem)
    requires Get(d, "content_type") == Some(JStr(it.contentType))
    requires Get(d, "title") == Some(JStr(it.title))
    requires Get(d, "url") == Some(JStr(it.url))
    requires Get(d, "date_published") == Some(DateJson(it.datePublished))
    requires Get(d, "issue") == Some(OptStr(it.issue))
    requires Get(d, "authors").Some? && AsStrList(Get(d, "authors").value) == Some(it.authors)
    ensures ListingItemFromDict(d) == Some(it.(datePublished := StoredDate(it.datePublished)))
  {
    var dp := Get(d, "date_published").value;
    var sd := if dp.JNull? then NoDate else DateString(dp.s);
    assert sd == StoredDate(it.datePublished);
    assert AsOptStr(Get(d, "issue").value).value == it.issue;
  }

  /** The stored form of a date: a datetime is kept as its ISO string. */
  function StoredDate(d: DateValue): DateValue
  {
    match d
    case DateTimeValue(dt) => DateString(IsoFormat(dt))
    case _ => d
  }

  /** `to_dict` loses nothing but the datetime type of `date_published`. */
  lemma ListingItemDictRoundTrip(it: ListingItem)
    ensures ListingItemFromDict(ListingItemToDict(it)) == Some(it.(datePublished := StoredDate(it.datePublished)))
  {
    ListingDictGets(it);
    StrListRoundTrip(it.authors);
    ListingFromDictOf(ListingItemToDict(it), it);
  }

  // ----- DetailRecord -----

  datatype DetailRecord = DetailRecord(
    contentType: string,
    url: string,
    title: Option<string>,
    datePublished: Option<string>,
    issue: Option<string>,
    authors: seq<string>,
    outlet: Option<string>,
    outletUrl: Option<string>,
    pdfLinks: seq<string>,
    paragraphs: seq<string>)

  const DetailRecordKeys: seq<string> :=
    ["content_type", "url", "title", "date_published", "issue", "authors",
     "outlet", "outlet_url", "pdf_links", "paragraphs"]

  /** `DetailRecord.to_json_obj`: all ten fields, `None` as null, tuples as lists. */
  function DetailToJsonObj(r: DetailRecord): (d: seq<(string, Json)>)
    ensures Keys(d) == DetailRecordKeys && Distinct(Keys(d))
    ensures Get(d, "url") == Some(JStr(r.url))
    ensures Get(d, "title") == Some(JNull) <==> r.title.None?
    ensures Get(d, "outlet") == Some(JNull) <==> r.outlet.None?
  {
    var d := [("content_type", JStr(r.contentType)), ("url", JStr(r.url)),
              ("title", OptStr(r.title)), ("date_published", OptStr(r.datePublished)),
              ("issue", OptStr(r.issue)), ("authors", StrList(r.authors)),
              ("outlet", OptStr(r.outlet)), ("outlet_url", OptStr(r.outletUrl)),
              ("pdf_links", StrList(r.pdfLinks)), ("paragraphs", StrList(r.paragraphs))];
    assert Keys(d) == DetailRecordKeys;
    assert Distinct(DetailRecordKeys);
    GetAt(d, 1);
    GetAt(d, 2);
    GetAt(d, 6);
    d
  }

  /** Reading a detail line back. */
  function DetailFromJsonObj(d: seq<(string, Json)>): Option<DetailRecord>
  {
    var ct := Get(d, "content_type");
    var u := Get(d, "url");
    var ti := Get(d, "title");
    var dp := Get(d, "date_published");
    var iss := Get(d, "issue");
    var au := Get(d, "authors");
    var ou := Get(d, "outlet");
    var oul := Get(d, "outlet_url");
    var pl := Get(d, "pdf_links");
    var pa := Get(d, "paragraphs");
    if ct.Some? && ct.value.JStr? && u.Some? && u.value.JStr? &&
       ti.Some? && AsOptStr(ti.value).Some? && dp.Some? && AsOptStr(dp.value).Some? &&
       iss.Some? && AsOptStr(iss.value).Some? && au.Some? && AsStrList(au.value).Some? &&
       ou.Some? && AsOptStr(ou.value).Some? && oul.Some? && AsOptStr(oul.value).Some? &&
       pl.Some? && AsStrList(pl.value).Some? && pa.Some? && AsStrList(pa.value).Some?
    then
      Some(DetailRecord(ct.value.s, u.value.s, AsOptStr(ti.value).value,
                        AsOptStr(dp.value).value, AsOptStr(iss.value).value,
                        AsStrList(au.value).value, AsOptStr(ou.value).value,
                        AsOptStr(oul.value).value, AsStrList(pl.value).value,
                        AsStrList(pa.value).value))
    else None
  }

  /** The first five keys of `to_json_obj` hold their fields' JSON values. */
  lemma DetailGetsHead(r: DetailRecord)
    ensures Get(DetailToJsonObj(r), "content_type") == Some(JStr(r.contentType))
    ensures Get(DetailToJsonObj(r), "url") == Some(JStr(r.url))
    ensures Get(DetailToJsonObj(r), "title") == Some(OptStr(r.title))
    ensures Get(DetailToJsonObj(r), "date_published") == Some(OptStr(r.datePublished))
    ensures Get(DetailToJsonObj(r), "issue") == Some(OptStr(r.issue))
  {
    var d := DetailToJsonObj(r);
    GetAt(d, 0);
    GetAt(d, 1);
    GetAt(d, 2);
    GetAt(d, 3);
    GetAt(d, 4);
  }

  /** The last five keys of `to_json_obj` hold their fields' JSON values. */
  lemma DetailGetsTail(r: DetailRecord)
    ensures Get(DetailToJsonObj(r), "authors") == Some(StrList(r.authors))
    ensures Get(DetailToJsonObj(r), "outlet") == Some(OptStr(r.outlet))
    ensures Get(DetailToJsonObj(r), "outlet_url") == Some(OptStr(r.outletUrl))
    ensures Get(DetailToJsonObj(r), "pdf_links") == Some(StrList(r.pdfLinks))
    ensures Get(DetailToJsonObj(r), "paragraphs") == Some(StrList(r.paragraphs))
  {
    var d := DetailToJsonObj(r);
    GetAt(d, 5);
    GetAt(d, 6);
    GetAt(d, 7);
    GetAt(d, 8);
    GetAt(d, 9);
  }

  /** Any dict holding a record's fields under the ten keys reads back as that record. */
  lemma DetailFromJsonObjOf(d: seq<(string, Json)>, r: DetailRecord)
    requires Get(d, "content_type") == Some(JStr(r.contentType))
    requires Get(d, "url") == Some(JStr(r.url))
    requires Get(d, "title") == Some(OptStr(r.title))
    requires Get(d, "date_published") == Some(OptStr(r.datePublished))
    requires Get(d, "issue") == Some(OptStr(r.issue))
    requires Get(d, "authors").Some? && AsStrList(Get(d, "authors").value) == Some(r.authors)
    requires Get(d, "outlet") == Some(OptStr(r.outlet))
    requires Get(d, "outlet_url") == Some(OptStr(r.outletUrl))
    requires Get(d, "pdf_links").Some? && AsStrList(Get(d, "pdf_links").value) == Some(r.pdfLinks)
    requires Get(d, "paragraphs").Some? && AsStrList(Get(d, "paragraphs").value) == Some(r.paragraphs)
    ensures DetailFromJsonObj(d) == Some(r)
  {
    assert AsOptStr(Get(d, "title").value).value == r.title;
    assert AsOptStr(Get(d, "date_published").value).value == r.datePublished;
    assert AsOptStr(Get(d, "issue").value).value == r.issue;
    assert AsOptStr(Get(d, "outlet").value).value == r.outlet;
    assert AsOptStr(Get(d, "outlet_url").value).value == r.outletUrl;
  }

  /** `to_json_obj` is lossless: every field, and the order of every tuple, comes back. */
  lemma DetailJsonRoundTrip(r: DetailRecord)
    ensures DetailFromJsonObj(DetailToJsonObj(r)) == Some(r)
  {
    var d := DetailToJsonObj(r);
    DetailGetsHead(r);
    DetailGetsTail(r);
    StrListRoundTrip(r.authors);
    StrListRoundTrip(r.pdfLinks);
    StrListRoundTrip(r.paragraphs);
    DetailFromJsonObjOf(d, r);
  }
}
