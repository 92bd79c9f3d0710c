/**
 * The row type of the page-listing indexers (cei6/indexers/base.py): its
 * defaults and its dict form.
 */
module Base {
  import opened Wrappers
  import opened Seqs
  import opened Json

  /** `IndexRow`; `authors` is `None` until an indexer supplies a list. */
  datatype IndexRow = IndexRow(
    sourceType: string,
    url: string,
    title: string,
    datePublished: string,
    issue: string,
    authors: Option<seq<string>>,
    outlet: string,
    outletUrl: string)

  /** `IndexRow(source_type, url, title)` with every defaulted field left out. */
  function NewIndexRow(sourceType: string, url: string, title: string): (r: IndexRow)
    ensures r.sourceType == sourceType && r.url == url && r.title == title
    ensures r.datePublished == "" && r.issue == "" && r.outlet == "" && r.outletUrl == ""
    ensures r.authors == None
  {
    IndexRow(sourceType, url, title, "", "", None, "", "")
  }

  const IndexRowKeys: seq<string> :=
    ["source_type", "url", "title", "date_published", "issue", "authors", "outlet", "outlet_url"]

  /** `IndexRow.to_dict`: `asdict` in field order, a missing author list as `[]`. */
  function IndexRowToDict(r: IndexRow): (d: seq<(string, Json)>)
    ensures Keys(d) == IndexRowKeys && Distinct(Keys(d))
  {
    var d := [("source_type", JStr(r.sourceType)), ("url", JStr(r.url)), ("title", JStr(r.title)),
              ("date_published", JStr(r.datePublished)), ("issue", JStr(r.issue)),
              ("authors", StrList(r.authors.GetOr([]))),
              ("outlet", JStr(r.outlet)), ("outlet_url", JStr(r.outletUrl))];
    assert Keys(d) == IndexRowKeys;
    assert Distinct(IndexRowKeys);
    d
  }

  /** The first four keys of `to_dict` hold their fields. */
  lemma IndexRowGetsHead(r: IndexRow)
    ensures Get(IndexRowToDict(r), "source_type") == Some(JStr(r.sourceType))
    ensures Get(IndexRowToDict(r), "url") == Some(JStr(r.url))
    ensures Get(IndexRowToDict(r), "title") == Some(JStr(r.title))
    ensures Get(IndexRowToDict(r), "date_published") == Some(JStr(r.datePublished))
  {
    var d := IndexRowToDict(r);
    GetAt(d, 0);
    GetAt(d, 1);
    GetAt(d, 2);
    GetAt(d, 3);
  }

  /** The last four keys of `to_dict` hold their fields; `None` authors read as `[]`. */
  lemma IndexRowGetsTail(r: IndexRow)
    ensures Get(IndexRowToDict(r), "issue") == Some(JStr(r.issue))
    ensures r.authors.None? ==> Get(IndexRowToDict(r), "authors") == Some(JArr([]))
    ensures r.authors.Some? ==> Get(IndexRowToDict(r), "authors") == Some(StrList(r.authors.value))
    ensures Get(IndexRowToDict(r), "outlet") == Some(JStr(r.outlet))
    ensures Get(IndexRowToDict(r), "outlet_url") == Some(JStr(r.outletUrl))
  {
    var d := IndexRowToDict(r);
    GetAt(d, 4);
    GetAt(d, 5);
    GetAt(d, 6);
    GetAt(d, 7);
    if r.authors.None? {
      assert StrList([]) == JArr([]);
    }
  }

  /** Reading a row's dict back; `authors` comes back as the list that was written. */
  function IndexRowFromDict(d: seq<(string, Json)>): Option<IndexRow>
  {
    var st := Get(d, "source_type");
    var u := Get(d, "url");
    var ti := Get(d, "title");
    var dp := Get(d, "date_published");
    var iss := Get(d, "issue");
    var au := Get(d, "authors");
    var o := Get(d, "outlet");
    var ou := Get(d, "outlet_url");
    if st.Some? && st.value.JStr? && u.Some? && u.value.JStr? && ti.Some? && ti.value.JStr? &&
       dp.Some? && dp.value.JStr? && iss.Some? && iss.value.JStr? &&
       au.Some? && AsStrList(au.value).Some? &&
       o.Some? && o.value.JStr? && ou.Some? && ou.value.JStr?
    then
      Some(IndexRow(st.value.s, u.value.s, ti.value.s, dp.value.s, iss.value.s,
                    AsStrList(au.value), o.value.s, ou.value.s))
    else None
  }

  /** `to_dict` keeps every field; the only change is `None` authors becoming `[]`. */
  lemma IndexRowDictRoundTrip(r: IndexRow)
    ensures IndexRowFromDict(IndexRowToDict(r)) == Some(r.(authors := Some(r.authors.GetOr([]))))
  {
    IndexRowGetsHead(r);
    IndexRowGetsTail(r);
    StrListRoundTrip(r.authors.GetOr([]));
  }

  /** A row built with the defaults serialises its defaulted fields as `""` and `[]`. */
  lemma NewIndexRowDict(sourceType: string, url: string, title: string)
    ensures var d := IndexRowToDict(NewIndexRow(sourceType, url, title));
      Get(d, "date_published") == Some(JStr("")) && Get(d, "issue") == Some(JStr("")) &&
      Get(d, "authors") == Some(JArr([])) &&
      Get(d, "outlet") == Some(JStr("")) && Get(d, "outlet_url") == Some(JStr(""))
  {
    IndexRowGetsHead(NewIndexRow(sourceType, url, title));
    IndexRowGetsTail(NewIndexRow(sourceType, url, title));
  }
}
