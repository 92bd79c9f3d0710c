# cei6 extraction and persistence core, in Dafny

`cei6` scrapes the listing and article pages of cei.org. It turns what it finds into records and appends them to one JSONL file per content type. This project models the part of it that is not HTML parsing or networking:

- **Text clean-up.** Whitespace collapsing, author-name normalisation and first-seen de-duplication.
- **Listing selection.** This covers the anchor-scanning indexers (blogs, op-eds, news releases) and the card indexers (blogs, op-eds, studies). They filter candidates, de-duplicate URLs (where the code does), pick titles from a fallback chain and cap the page.
- **The append-only store.** A file is a sequence of lines plus whether its text ends in a newline. A call appends the items whose URL the file does not yet hold. A record appended to a file whose last line lacks a newline lands on that line.
- **Record shapes.** `ListingItem`, `DetailRecord` and `IndexRow` and their dict/JSON forms.
- **Detail post-processing.** The two-attempt retry decision of the detail fetcher, the paragraph, content and PDF extraction, and the `max_details`-bounded batch loop.

The HTML tree queries become plain records. A card, say, is given by the texts and hrefs its CSS selectors return. Library calls that the code only delegates to are function-typed parameters: `datetime.fromisoformat`, `strptime`, `urljoin`, the HTTP `get` and the detail fetch. Mutating loops are methods with loop invariants. Each is proved equal to a reference function, and the properties of the source are lemmas about those functions. The store is a class whose `files` map is changed in place.

Modules, roughly one per source file:

| module | file | models |
|---|---|---|
| `Wrappers` | wrappers.dfy | `Option`, `Result` |
| `Seqs` | seqs.dfy | first-seen de-duplication (`Dedup`), first match (`FindFirst`), `xs[:n]` |
| `Text` | text.dfy | `str.isspace`, `strip`, `split`, `" ".join`, `re.sub(r"\s+", " ", …)`, the "by"-strip and the author splits |
| `DateTimes` | datetimes.dfy | `datetime` values and `isoformat()` |
| `Json` | json.dfy | JSON values, `dict.get` |
| `Models` | models.dfy | cei6/models.py |
| `Common` | common.dfy | cei6/common.py |
| `Storage` | storage.dfy | cei6/storage.py |
| `Base` | base.dfy | cei6/indexers/base.py |
| `IndexersCommon` | indexers_common.dfy | cei6/indexers/common.py |
| `PageListing` | page_listing.dfy | cei6/indexers/blogs.py, op_eds.py, news_releases.py |
| `CardIndexers` | card_indexers.dfy | cei6/indexers/blogs_indexer.py, opeds_indexer.py |
| `StudiesIndexer` | studies_indexer.dfy | cei6/indexers/studies_indexer.py |
| `BlogDetails` | blog_details.dfy | cei6/details/blogs_details.py |
| `DetailsBatch` | details_batch.dfy | cei6/details/__init__.py |

Features shared by sibling files are modelled once, with a selector parameter:

- `PageListing.Section` (blogs, op-eds, news releases) picks the path prefix, the `source_type` and the title fallback chain.
- `CardIndexers.Listing` (blogs, op-eds) picks the listing URL, the content type and the cap (30 or 6).

## Model

| member | source | states |
|---|---|---|
| Text.Collapse | cei6/common.py:14-15 | `" ".join(s.split())` yields a normalised string: no leading or trailing whitespace, and whitespace only as single spaces between non-space characters |
| Text.CollapseIdempotent | cei6/common.py:14-15 | `_normalize_spaces` applied twice equals applying it once |
| Text.CollapseNormalized | cei6/common.py:14-15 | a string that is already normalised is left unchanged by collapsing |
| Text.CollapseWords | cei6/common.py:14-15 | collapsing keeps the words of the input, in order (`Words(Collapse(s)) == Words(s)`) |
| Text.WordsOfJoin | cei6/common.py:14-15 | splitting the single-space join of non-empty, space-free words gives the words back |
| Text.JoinWordsOfNormalized | cei6/common.py:14-15 | a normalised string is the join of its own words, so it is the only normalised string with those words |
| Text.CollapseExclude | cei6/common.py:14-15 | a character other than `' '` that the input lacks is absent from the result too, so a comma-free input gives a comma-free result |
| Text.CollapseRuns | cei6/indexers/common.py:24 | `re.sub(r"\s+", " ", s)` is empty exactly when `s` is, begins and ends with whitespace exactly when `s` does, and every whitespace character in it is a plain space with no whitespace right after it; `_normalize_author` in cei6/models.py:12 applies the same substitution |
| Text.WordsCollapseRuns | cei6/indexers/common.py:24 | replacing whitespace runs by single spaces keeps the words |
| Text.NormSpaceIsCollapse | cei6/indexers/common.py:23-24 | `norm_space`'s strip-then-`re.sub` equals `" ".join(s.split())` from cei6/common.py:14-15 |
| Text.StripCollapseRuns | cei6/models.py:12 | `re.sub(r"\s+", " ", s).strip()` equals `" ".join(s.split())` |
| Text.Strip | cei6/common.py:43 | `str.strip()` leaves neither leading nor trailing whitespace |
| Text.WordsStrip | cei6/common.py:75 | `t.strip()` changes none of the words of `t` |
| Text.TrimTrailingCommas | cei6/models.py:14 | `re.sub(r"[,\s]+$", "", s)` returns a prefix of `s` that does not end in a comma or whitespace, and everything removed is commas and whitespace |
| Text.TrimTrailingCommasNoop | cei6/models.py:14 | trimming an already trimmed string changes nothing |
| Text.StripByPrefix | cei6/common.py:72 | leading whitespace, `by` in any case and the whitespace after it are removed, and nothing of the name that follows |
| Text.StripByNoop | cei6/common.py:72 | a string whose first non-whitespace character is not `b` or `B` is returned unchanged |
| Text.Split | cei6/common.py:73 | `re.split(r",\|\band\b", p)` gives at least one piece and no piece holds a comma; with the `",\| and "` pattern of cei6/indexers/blogs.py:57 no piece contains `" and "` either |
| Text.SplitNoSeparator | cei6/common.py:73 | a string in which the pattern matches nowhere splits into itself alone |
| Text.SplitPieces | cei6/common.py:73 | no piece of the split holds a match of the pattern anywhere |
| Text.SplitComma | cei6/common.py:73 | splitting `a + "," + b` gives the pieces of `a` followed by the pieces of `b`, for either pattern |
| Text.SplitWordAnd | cei6/common.py:73 | splitting `a + " and " + b` on `r",\|\band\b"` gives the pieces of `a + " "` followed by those of `" " + b`: the whole word `and` between spaces is a separator and the spaces stay in the pieces |
| Text.SplitWordAndExample | cei6/common.py:73 | `"X and Y,Z"`, for capitals X, Y and Z, splits into `"X "`, `" Y"` and `"Z"` |
| Text.NoSeparatorInPiece | cei6/common.py:73 | a stretch of text with no separator match holds no comma, and for the `" and "` pattern no `" and "` |
| Text.NoSpacedAnd | cei6/indexers/blogs.py:57 | a piece of the `",\| and "` split contains no `" and "` |
| Text.Lower | cei6/indexers/blogs.py:55 | `t.lower()` keeps the length and lowers each ASCII letter |
| Seqs.Dedup | cei6/models.py:26-28 | the first-seen de-duplication holds only elements of its input |
| Seqs.DedupSpec | cei6/models.py:26-28 | the `seen`-set filter yields no repetitions, exactly the input's elements, and no more than the input's length |
| Seqs.DedupMember | cei6/models.py:26-28 | an element is in the de-duplication exactly when it is in the input |
| Seqs.DedupOrder | cei6/models.py:26-28 | the de-duplication lists elements in the order of their first occurrence in the input |
| Seqs.DedupOfDistinct | cei6/models.py:26-28 | a list without repeats is its own de-duplication |
| Seqs.DedupIdempotent | cei6/models.py:26-28 | de-duplicating twice equals de-duplicating once |
| Seqs.DedupWithSeen | cei6/indexers/common.py:72-77 | the `seen`/`uniq` loop computes the first-seen de-duplication |
| Seqs.FindFirst | cei6/indexers/common.py:49-53 | a loop that stops at the first match finds the least matching index, and `None` exactly when nothing matches |
| Seqs.Take | cei6/indexers/blogs.py:115 | `rows[:n]` is the prefix of length `min(n, len(rows))` |
| DateTimes.IsoFormatMidnight | cei6/common.py:53 | a naive midnight `datetime` prints as its date followed by `T00:00:00` |
| Models.NormalizeAuthor | cei6/models.py:10-15 | `_normalize_author`, computed in the source's order (substitute whitespace runs, strip, drop trailing commas and spaces), gives a clean name: normalised whitespace and no trailing comma |
| Models.NormalizeAuthorTrimsCollapse | cei6/models.py:12-14 | the result equals `" ".join(name.split())` with trailing commas and spaces removed |
| Models.NormalizeAuthorOfClean | cei6/models.py:10-15 | a clean name is its own normalisation |
| Models.NormalizeAuthorIdempotent | cei6/models.py:10-15 | `_normalize_author` is idempotent |
| Models.CleanedEntries | cei6/models.py:20-25 | the cleaned string entries that survive the `isinstance` and emptiness tests are non-empty clean names |
| Models.CleanedEntriesMembers | cei6/models.py:20-25 | every kept name comes from a string entry, and every string entry with a non-empty cleaned name contributes it; non-strings contribute nothing |
| Models.NormalizeAuthorsLoop | cei6/models.py:17-29 | the `seen`/`out` loop returns the first-seen de-duplication of the cleaned non-empty string entries |
| Models.NormalizedAuthorsProperties | cei6/models.py:17-29 | `normalize_authors` returns non-empty, clean, pairwise distinct names, and a name is present exactly when some string entry cleans to it |
| Models.NormalizedAuthorsOrder | cei6/models.py:26-28 | the names come out in the order of their first cleaned occurrence |
| Models.NormalizedAuthorsIdempotent | cei6/models.py:17-29 | `normalize_authors(normalize_authors(x)) == normalize_authors(x)` |
| Models.NormalizedCleanNames | cei6/models.py:17-29 | normalising names that are already clean keeps exactly the non-empty ones |
| Models.NewListingItem | cei6/models.py:40-43 | an item keeps its five given fields; its stored authors are `normalize_authors` of the argument, with `authors=None` read as `[]`, so they are always distinct, non-empty, clean names |
| Models.ListingItemRebuild | cei6/models.py:40-43 | building an item again from its own fields gives the same item, because normalisation is idempotent |
| Models.ListingItemToDict | cei6/models.py:45-50 | `to_dict` has the six dataclass keys in order; a `datetime` date becomes its `isoformat()` string, a string date stays as is, no date is null |
| Models.ListingDictGets | cei6/models.py:45-50 | each key of `to_dict` holds its field's JSON value |
| Models.ListingItemDictRoundTrip | cei6/models.py:45-50 | reading `to_dict` back recovers every field; the only change is that a `datetime` date becomes its ISO string |
| Models.DetailToJsonObj | cei6/models.py:68-80 | `to_json_obj` has the ten field keys in declaration order with `url` holding the URL; `title` and `outlet` are null exactly when they are `None` |
| Models.DetailGetsHead | cei6/models.py:68-74 | the first five keys hold their fields (`None` as null) |
| Models.DetailGetsTail | cei6/models.py:75-79 | each tuple field becomes the list of its elements in order, and `outlet`/`outlet_url` become a string or null |
| Models.DetailJsonRoundTrip | cei6/models.py:68-80 | `to_json_obj` is lossless: every field and the order of every tuple can be read back |
| Common.FirstParse | cei6/common.py:50-55 | trying formats in order gives `None` exactly when all fail, and otherwise the value of the first that succeeds |
| Common.FirstParseAt | cei6/common.py:50-55 | when format `i` is the first that parses, its value is the result |
| Common.CoerceDatetimeStr | cei6/common.py:39-56 | the early-return format loop computes `CoerceDatetime`, of which the next rows state the cases |
| Common.CoerceEmpty | cei6/common.py:41-42 | `coerce_datetime_str("")` is `""` |
| Common.CoerceNoMatch | cei6/common.py:43-56 | when no format accepts the stripped input, the stripped input is returned |
| Common.CoerceFirstWins | cei6/common.py:44-55 | for a non-empty input, the `isoformat()` of the first format that accepts the stripped input is returned, whatever the later formats would give |
| Common.CoerceDateOnly | cei6/common.py:44-55 | a valid `YYYY-MM-DD` that only `%Y-%m-%d` accepts comes back with `T00:00:00` appended |
| Common.ParseDateOrRaw | cei6/common.py:59-60 | `parse_date_or_raw` equals `coerce_datetime_str` |
| Common.CleanAuthorsLoop | cei6/common.py:62-80 | the nested part/token loop with `name not in names` computes the first-seen de-duplication of all non-empty cleaned tokens |
| Common.AddPartNames | cei6/common.py:69-79 | one pass of the outer loop keeps `names` the first-seen de-duplication of all names so far, now including those of part `p` |
| Common.AddTokenNames | cei6/common.py:74-79 | the inner token loop keeps `names` the first-seen de-duplication of the names so far, now including the part's non-empty cleaned tokens |
| Common.AddToken | cei6/common.py:75-79 | one token extends the de-duplication by that token |
| Common.AddTokenStep | cei6/common.py:75-79 | one token is cleaned and appended unless it is empty or already present |
| Common.NonEmptyTokensClean | cei6/common.py:74-77 | the kept tokens are non-empty and whitespace-normalised, and comma-free when the tokens are |
| Common.PartNamesClean | cei6/common.py:72-77 | each part yields only non-empty, normalised, comma-free names |
| Common.AllNamesClean | cei6/common.py:69-79 | every name of every part is non-empty, normalised and comma-free |
| Common.CleanAuthorsArgs | cei6/common.py:64-66 | `clean_authors(None)` is `[]`, and a single string is read as a one-element list |
| Common.CleanAuthorsProperties | cei6/common.py:62-80 | `clean_authors` returns non-empty, whitespace-normalised, comma-free, pairwise distinct names; a name is present exactly when some part yields it |
| Common.CleanAuthorsOrder | cei6/common.py:78-79 | the names keep the order of their first occurrence |
| Common.CleanAuthorsBy | cei6/common.py:72-73 | a part `"By"` + whitespace + `name` yields the names of `name` alone: the prefix is dropped before splitting |
| Common.CleanAuthorsList | cei6/common.py:83-84 | `clean_authors_list` equals `clean_authors` |
| Storage.JsonlPathFor | cei6/storage.py:10-17 | the path is the content type wrapped in the fixed 20 characters of `outputs/index/` and `.jsonl` |
| Storage.JsonlPathForInjective | cei6/storage.py:15-17 | content types without `/` get different files |
| Storage.IndexStore.LoadExistingUrls | cei6/storage.py:19-37 | the set filled line by line holds exactly the string urls of the file's object lines; a missing file gives the empty set; blank, malformed and url-less lines add nothing |
| Storage.FilterNew | cei6/storage.py:47 | the comprehension keeps the items whose URL is not in `seen`, in order |
| Storage.NewItemsSpec | cei6/storage.py:47 | an item is kept exactly when it is one of the given items and its URL is not yet recorded; no more are kept than given |
| Storage.IndexStore.WriteIndexJsonl | cei6/storage.py:39-56 | the file at the content type's path becomes what `AppendNew` makes of its old state, one record per write, and the result is that count; no other file changes; with nothing new the store is unchanged |
| Storage.AppendNewLines | cei6/storage.py:47-56 | the count is the number of unseen items. With none, the file is unchanged. Otherwise it ends in a newline. If it already did, the old lines are a prefix followed by the unseen items' lines in input order. If the last line was open, the first record is merged into it |
| Storage.WriteOne | cei6/storage.py:54 | after one `write` the text ends in a newline. After a complete last line the record is a new line; after an open last line it is merged into that line |
| Storage.WriteLinesShape | cei6/storage.py:52-54 | after the loop the text ends in a newline. On a file that ended in one, the records follow the old lines in order; on an open file the first record is merged into the last line |
| Storage.AppendNewRecords | cei6/storage.py:46-56 | on a file whose text ends in a newline, every input URL is recorded after a call |
| Storage.NewItemsCover | cei6/storage.py:47-54 | every input item is either recorded already or among the lines written |
| Storage.NewItemsAllSeen | cei6/storage.py:49-50 | when every URL is already recorded, nothing passes the filter |
| Storage.AppendNewIdempotent | cei6/storage.py:46-56 | on a file whose text ends in a newline, repeating a call with the same items leaves the file unchanged and returns 0; a call that writes leaves the text ending in a newline |
| Storage.AppendNewSettles | cei6/storage.py:46-56 | on any file, the third of three identical calls writes nothing and returns 0 |
| Storage.AppendNewOne | cei6/storage.py:47-54 | a call with one item whose URL is not recorded writes exactly that record and returns 1 |
| Storage.UnterminatedLineMerges | cei6/storage.py:22-54 | a file whose only line `{"url": "A"}` lacks a newline: the record is appended onto that line, which then no longer parses, so neither URL is recorded and the next call writes the item again |
| Storage.SameUrlWrittenTwice | cei6/storage.py:47 | two items sharing a URL not yet in the file are both written and counted, because `seen` is not updated while filtering; on a file ending in a newline they become its two new last lines |
| Base.NewIndexRow | cei6/indexers/base.py:6-15 | `date_published`, `issue`, `outlet` and `outlet_url` default to `""` and `authors` to `None` |
| Base.IndexRowToDict | cei6/indexers/base.py:17-21 | the dict has exactly the eight dataclass field keys in order |
| Base.IndexRowGetsHead | cei6/indexers/base.py:17-18 | `source_type`, `url`, `title` and `date_published` hold their fields as strings |
| Base.IndexRowGetsTail | cei6/indexers/base.py:19-20 | `authors=None` is replaced by `[]`, and a given list is kept unchanged |
| Base.IndexRowDictRoundTrip | cei6/indexers/base.py:17-21 | `to_dict` keeps every field; the only change is `None` authors becoming `[]` |
| Base.NewIndexRowDict | cei6/indexers/base.py:11-21 | a row built with the defaults serialises them as `""` and `[]` |
| IndexersCommon.NormSpaceOf | cei6/indexers/common.py:23-24 | `norm_space(None)` is `""`; otherwise the result is normalised and equals `" ".join(s.split())` |
| IndexersCommon.FirstText | cei6/indexers/common.py:27-28 | `first_text` of a missing element is `""`; it is always normalised |
| IndexersCommon.ExtractIssue | cei6/indexers/common.py:31-37 | `None` exactly when the pill is absent or its text is blank; otherwise the pill's normalised, non-empty text |
| IndexersCommon.ExtractTitleAndUrl | cei6/indexers/common.py:40-56 | the title-node test and the fallback loop with `break` compute the chosen link's text and href |
| IndexersCommon.TitleLinkPreferred | cei6/indexers/common.py:46 | a title node decides both results, whatever the other anchors are |
| IndexersCommon.FallbackFirstMatch | cei6/indexers/common.py:47-53 | with no title node, the first anchor whose href starts with `prefix` or `"/" + prefix.strip("/")` decides |
| IndexersCommon.NoMatchingLink | cei6/indexers/common.py:54-56 | with neither a title node nor a matching anchor, the result is `("", "")` |
| IndexersCommon.ExtractAuthors | cei6/indexers/common.py:59-78 | the collection loop and then the `seen` loop compute the de-duplicated cleaned link names |
| IndexersCommon.CollectAuthorLinkNames | cei6/indexers/common.py:65-70 | each link with text contributes its trailing-comma-trimmed text; the others contribute nothing |
| IndexersCommon.AuthorLinkNamesSources | cei6/indexers/common.py:65-70 | every collected name is clean and comes from some link text |
| IndexersCommon.AuthorLinkNamesCover | cei6/indexers/common.py:65-70 | every link whose text is not blank contributes its `_normalize_author` form |
| IndexersCommon.CardAuthorsProperties | cei6/indexers/common.py:59-78 | the names are pairwise distinct; a name is present exactly when it is `_normalize_author` of a link with text; they come in first-seen order |
| IndexersCommon.CardAuthorsClean | cei6/indexers/common.py:65-70 | every returned name is clean: normalised, no trailing comma |
| IndexersCommon.CommaOnlyAuthor | cei6/indexers/common.py:67-70 | a link whose text is only a comma contributes `""`, since the emptiness test precedes the trimming |
| IndexersCommon.Absolutize | cei6/indexers/common.py:99-100 | `urljoin(base, href or "")`: a missing `href` is joined as the empty reference, a present one as itself |
| PageListing.Clean | cei6/indexers/blogs.py:14-17 | `_clean(None)` is `""`; otherwise it is `" ".join(s.split())` |
| PageListing.SectionIndexIsNotPost | cei6/indexers/blogs.py:19-26 | the section index path fails `_looks_like_post`, which needs at least three slashes |
| PageListing.FindIssueLoop | cei6/indexers/blogs.py:32-40 | the loop returns the cleaned text of the first `/issues/` link with text, else `""` |
| PageListing.IssueOf | cei6/indexers/blogs.py:35-39 | one anchor yields text exactly when it is an `/issues/` link with cleaned text |
| PageListing.FindIssueFirst | cei6/indexers/blogs.py:32-40 | the issue is the collapsed text of the first `/issues/` link with text, and it is non-empty |
| PageListing.FindIssueEmpty | cei6/indexers/op_eds.py:25-32 | the issue is `""` exactly when no `/issues/` link has text |
| PageListing.FindAuthorsLoop | cei6/indexers/blogs.py:42-62 | the link loop and then, only when it found nothing, the by-line loop compute `_find_authors` |
| PageListing.BylineLoop | cei6/indexers/blogs.py:50-61 | the by-line loop adds the distinct pieces of each by-line in order |
| PageListing.AddBylinePieces | cei6/indexers/blogs.py:51-61 | one by-line extends the first-seen de-duplication of the names with that by-line's pieces |
| PageListing.AddCleaned | cei6/indexers/blogs.py:45-48 | the link loop extends the first-seen de-duplication with the non-empty cleaned link texts |
| PageListing.AddCleanedText | cei6/indexers/blogs.py:46-48 | one link text extends the de-duplication by its cleaned text |
| PageListing.CleanedTextsClean | cei6/indexers/blogs.py:45-48 | the kept texts are non-empty and normalised, comma-free when the inputs are, and each is exactly the non-empty collapse of some input text |
| PageListing.BylineNamesClean | cei6/indexers/blogs.py:51-61 | every by-line piece is a non-empty, normalised, comma-free name |
| PageListing.FindAuthorsClean | cei6/indexers/blogs.py:42-62 | `_find_authors` yields pairwise distinct, non-empty, normalised names |
| PageListing.FindAuthorsFromLinks | cei6/indexers/blogs.py:45-50 | when some author link has text, the names are exactly the non-empty cleaned link texts, and the by-lines are not consulted |
| PageListing.FindAuthorsFromBylines | cei6/indexers/blogs.py:50-61 | only when no link has text are the by-line pieces used; they are then the names, and none holds a comma |
| PageListing.BareByline | cei6/indexers/blogs.py:55 | a by-line that is a bare "by" (any case) yields no name |
| PageListing.BuildRow | cei6/indexers/blogs.py:86-112 | the loop body for a kept anchor computes `MakeRow`: title chain, `<time>` date, issue, authors |
| PageListing.FetchFirstPageLoop | cei6/indexers/blogs.py:64-115 | the scan with its `seen` set, then `rows[:30]`, computes `FetchFirstPage`; the same loop serves op_eds.py:51-94 and news_releases.py:52-92 through the section parameter |
| PageListing.KeptUrlsAreDedup | cei6/indexers/blogs.py:77-84 | the kept URLs are exactly the first-seen de-duplication of the candidate URLs |
| PageListing.KeptFromAnchors | cei6/indexers/blogs.py:77-81 | every kept anchor is one of the page's anchors and passes the base and `_looks_like_post` tests |
| PageListing.FetchFirstPageProperties | cei6/indexers/blogs.py:82-115 | at most 30 rows, forming a prefix of the full scan, with pairwise distinct URLs |
| PageListing.FetchFirstPageRows | cei6/indexers/op_eds.py:59-92 | every row URL starts with `https://cei.org` with a path passing `_looks_like_post`; `source_type` is the section's, `outlet`/`outlet_url` are `""`, authors are present |
| PageListing.FetchFirstPageComplete | cei6/indexers/news_releases.py:58-92 | when at most 30 URLs are kept, every candidate anchor's URL has a row |
| PageListing.FirstAnchorWins | cei6/indexers/blogs.py:82-84 | the row of a kept URL is built from the first anchor that carries it |
| PageListing.SeenBefore | cei6/indexers/blogs.py:82-84 | every candidate anchor's URL is among the kept URLs |
| PageListing.TitleNonEmpty | cei6/indexers/blogs.py:88-92 | blog and news-release titles are never empty, since each chain ends with `abs_url` |
| PageListing.OpEdTitleFromHeading | cei6/indexers/op_eds.py:70-72 | an op-ed heading that exists but has no text gives an empty title; `abs_url` is used only without a heading |
| PageListing.NewsTitleFromText | cei6/indexers/news_releases.py:71 | without anchor text, a news-release title is the cleaned first 140 characters of the container text |
| CardIndexers.ReplaceChar | cei6/indexers/blogs_indexer.py:30 | `t.replace(" ", "T")` keeps the length and swaps exactly the spaces |
| CardIndexers.ParseDateLoop | cei6/indexers/blogs_indexer.py:25-41 | the ISO attempt and then the fallback format loop compute `_parse_date` |
| CardIndexers.ParseDateCases | cei6/indexers/blogs_indexer.py:25-41 | `None` for a missing or empty text, and `None` exactly when every parser fails (never the raw string); the ISO reading wins when it parses |
| CardIndexers.ParseDateFallback | cei6/indexers/opeds_indexer.py:33-37 | when the ISO reading and every earlier format fail, format `i` decides |
| CardIndexers.DatetimeAttributeWins | cei6/indexers/blogs_indexer.py:82-84 | the first `<time>` with a `datetime` attribute decides, whatever the posted-on text says |
| CardIndexers.PostedOnFallback | cei6/indexers/blogs_indexer.py:86-92 | without a `datetime` attribute, the posted-on text is parsed |
| CardIndexers.ExtractDateIgnoresTimeText | cei6/indexers/blogs_indexer.py:85-87 | the visible-`<time>`-text branch is unreachable: two cards that differ only in `<time>` texts get the same date |
| CardIndexers.NonEmptyText | cei6/indexers/blogs_indexer.py:63 | `text or None` is `None` exactly for the empty text |
| CardIndexers.ExtractIssue | cei6/indexers/blogs_indexer.py:59-68 | `_extract_issue` never returns an empty string |
| CardIndexers.IssueLinkDecides | cei6/indexers/blogs_indexer.py:61-63 | the first `/issues/` link decides, even when its text is empty and a category chip has text |
| CardIndexers.CategoryFallback | cei6/indexers/opeds_indexer.py:58-61 | without an `/issues/` link, the category chip's text (or `None`) is the issue |
| CardIndexers.ExtractAuthors | cei6/indexers/blogs_indexer.py:43-57 | the collection loop and then the `seen` loop compute the de-duplicated person-link texts |
| CardIndexers.CardAuthorNamesProperties | cei6/indexers/opeds_indexer.py:40-52 | the names are pairwise distinct, non-empty person-link texts, and every person link with text is represented |
| CardIndexers.ExtractTitleUrl | cei6/indexers/blogs_indexer.py:70-79 | title and URL are both present or both `None`, and a URL is non-empty |
| CardIndexers.TitleNodeWins | cei6/indexers/blogs_indexer.py:72-74 | a heading link with a non-empty `href` decides title and URL |
| CardIndexers.ListingLinkFallback | cei6/indexers/opeds_indexer.py:67-69 | otherwise the first link into the listing's path decides, and its URL starts with the listing URL or path prefix |
| CardIndexers.NoTitleUrl | cei6/indexers/blogs_indexer.py:79 | with neither, the result is `(None, None)` |
| CardIndexers.AbsoluteUrl | cei6/indexers/blogs_indexer.py:114 | a URL not starting with `http` gets `https://cei.org` prepended; others are unchanged |
| CardIndexers.AbsoluteUrlIsHttp | cei6/indexers/blogs_indexer.py:114 | every item URL starts with `http` |
| CardIndexers.FetchFirstPageLoop | cei6/indexers/blogs_indexer.py:94-122 | the card loop and then the slice compute `FetchFirstPage`; the same loop serves opeds_indexer.py:83-109, with its cap of 6, through the listing parameter |
| CardIndexers.BuildItem | cei6/indexers/blogs_indexer.py:106-119 | the body of the card loop for a complete card builds its item |
| CardIndexers.FetchFirstPageProperties | cei6/indexers/blogs_indexer.py:102-122 | the page holds `min(cap, complete cards)` items, one per complete card in card order, each with the listing's content type, a non-empty title and an `http` URL |
| CardIndexers.CardItemFields | cei6/indexers/opeds_indexer.py:98-107 | a complete card's item has the listing's content type, a non-empty title and an absolute URL |
| CardIndexers.CompleteCardsExactly | cei6/indexers/blogs_indexer.py:103-105 | a card is kept exactly when it has a non-empty title and URL; no more are kept than given |
| CardIndexers.RepeatedCardRepeatsItem | cei6/indexers/blogs_indexer.py:121-122 | there is no URL de-duplication: the same card twice yields its item twice |
| StudiesIndexer.ParseListingAsWritten | cei6/indexers/studies_indexer.py:26-48 | as written, the listing is `Ok([])` when no card has an href, and otherwise the `ImportError` raised by `extract_date` |
| StudiesIndexer.BuildItemAsWritten | cei6/indexers/studies_indexer.py:33-36 | the loop body for a linked card always raises in `extract_date` |
| StudiesIndexer.AsWrittenFailsWhenItemsExist | cei6/indexers/studies_indexer.py:29-36 | the listings on which the code as written raises are exactly those on which a working `extract_date` would yield items |
| StudiesIndexer.ParseListingLoop | cei6/indexers/studies_indexer.py:26-48 | with a working date lookup, the card loop computes `ParseListing` |
| StudiesIndexer.BuildItem | cei6/indexers/studies_indexer.py:33-47 | the body of the card loop for a card with an href builds its item |
| StudiesIndexer.StudyDate | cei6/indexers/studies_indexer.py:36-43 | the date text is stored as given, and a missing one as no date |
| StudiesIndexer.LinkedCardsMembers | cei6/indexers/studies_indexer.py:31-32 | a card yields an item exactly when it has an href |
| StudiesIndexer.AllLinkedKept | cei6/indexers/studies_indexer.py:27-48 | there is no cap: when every card links somewhere, every card is kept |
| StudiesIndexer.ParseListingIsMap | cei6/indexers/studies_indexer.py:27-48 | the items are the linked cards' items, one for one and in card order |
| StudiesIndexer.ParseListingProperties | cei6/indexers/studies_indexer.py:33-47 | every item has content type `studies`, the joined href as URL, the chosen link's text or, when that is empty, the URL as title, and the card's date and issue |
| StudiesIndexer.StudyItemFields | cei6/indexers/studies_indexer.py:33-47 | one linked card's item has those fields |
| StudiesIndexer.StudyAuthors | cei6/indexers/studies_indexer.py:45 | the authors pass through `ListingItem` normalisation, which keeps the card's names except the empty one a comma-only link produces |
| BlogDetails.FetchHtmlLoop | cei6/details/blogs_details.py:43-55 | the `range(2)` loop and the final `raise_for_status` make one or two GETs, and one exactly when the first response settles the call |
| BlogDetails.FetchHtmlCases | cei6/details/blogs_details.py:45-54 | a first 200 returns its body; any other HTTP error first raises at once; after a retryable status, a 200 returns its body and a second retryable status raises; a non-empty result is the body of a 200 |
| BlogDetails.NoContentTwiceIsEmptyPage | cei6/details/blogs_details.py:52-55 | as written, two 204 responses return `""` instead of raising |
| BlogDetails.FetchHtmlChecked | cei6/details/blogs_details.py:43-55 | the intended reading: the call succeeds exactly when the first response, or the second after an unsettled first, is 200, with that body |
| BlogDetails.FetchHtmlCheckedAgrees | cei6/details/blogs_details.py:52-55 | the two readings differ only where the written code returns the empty page |
| BlogDetails.KeepNonEmpty | cei6/details/blogs_details.py:96-100 | the paragraph loop (and the author loop) keeps the non-empty texts in order |
| BlogDetails.NonEmptyTextsMembers | cei6/details/blogs_details.py:96-100 | a text is kept exactly when it is given and non-empty; no more are kept than given |
| BlogDetails.CollectDocuments | cei6/details/blogs_details.py:105-109 | the documents loop keeps the hrefs whose lowercase form ends with `.pdf` |
| BlogDetails.PdfLinksMembers | cei6/details/blogs_details.py:105-109 | an href is kept exactly when it is given and ends in `.pdf` in any case |
| BlogDetails.ParseBlogDetail | cei6/details/blogs_details.py:58-121 | the extraction part of `parse_blog_detail` computes `BlogDetailOf` |
| BlogDetails.FetchBlogDetail | cei6/details/blogs_details.py:58-61 | `parse_blog_detail` succeeds exactly when the fetch does, and then has the given URL and content type `blogs` |
| BlogDetails.ParagraphsAndContent | cei6/details/blogs_details.py:96-102 | the paragraphs are exactly the non-empty `<p>` texts in order; `content` joins them with `"\n\n"` and is empty exactly when there are none |
| BlogDetails.DocumentsAsWritten | cei6/details/blogs_details.py:105-109 | the documents are the PDF hrefs as written, neither absolutised nor de-duplicated |
| BlogDetails.TitleDateAndHeader | cei6/details/blogs_details.py:64-91 | the title is `""` without a title element, else its stripped text; the `datetime` attribute wins; without a header, date, issue and authors are empty |
| BlogDetails.DetailAuthors | cei6/details/blogs_details.py:75-79 | the authors are the non-empty link texts in order, repeats kept |
| DetailsBatch.FetchBlogDetailsBatch | cei6/details/__init__.py:10-32 | the loop with `count`, `continue` and `break` returns the successful details, cut to `max_details` |
| DetailsBatch.BatchProperties | cei6/details/__init__.py:20-32 | with a limit, at most that many details (none for a limit of 0 or less); without one, all the successes; each detail is the fetched detail of a blog item |
| DetailsBatch.SuccessesPrefix | cei6/details/__init__.py:24-25 | breaking early yields a prefix of the successes |
| DetailsBatch.SuccessesMembers | cei6/details/__init__.py:26-29 | the successes are exactly the details of blog items whose fetch succeeded |
| DetailsBatch.FailureIsSkipped | cei6/details/__init__.py:26-31 | a failed fetch is skipped, not counted, and does not stop the loop |
| DetailsBatch.NonBlogIsSkipped | cei6/details/__init__.py:21-23 | items whose content type is not `blogs` are skipped |
| DetailsBatch.SuccessesSkip | cei6/details/__init__.py:21-31 | removing a non-blog item or one whose fetch fails leaves the successes unchanged |

## Left out

- Network I/O is not modelled. This covers cei6/http.py, `get_soup` in cei6/common.py and cei6/indexers/common.py, `_fetch_html` in the two card indexers, `_make_session` and `time.sleep`. The detail fetcher's retry decision is kept, over the responses as a function of the attempt number.
- cei6/cli.py is not part of this model: it parses arguments and prints. cei6/indexers/__init__.py is not part of it either: it only re-exports names.
- BeautifulSoup's `select`, `select_one`, `find`, `find_parent` and `get_text` are not modelled. Their results are given as record fields, in document order: the anchors, the texts, the `<time>` elements and the by-lines.
- `datetime.fromisoformat`, `datetime.strptime`, `urllib.parse.urljoin` and the detail fetch are parameters. `isoformat()` is modelled without microseconds.
- `json.dumps`/`json.loads` are not modelled. A stored line is its parsed value (`Storage.Line`), and an appended line is the item's `to_dict`.
- Storage.MergeLine: when a record is appended onto an open last line that holds text, the merged line is taken not to parse. After a parsed value this is `json.loads` rejecting extra data. After a malformed line it is assumed, because the JSON text is not modelled.
- Storage.AppendNewRecords and Storage.AppendNewIdempotent: stated only for a file whose text ends in a newline, or an empty file. For a file whose last line lacks one, `Storage.UnterminatedLineMerges` shows that both fail, and `Storage.AppendNewSettles` states what holds for every file.
- Storage.JsonlPathFor: the path is the string before pathlib normalises it. With a `/` in it, one content type can name the same file as another (`a//b` and `a/b`, `./blogs` and `blogs`). So Storage.JsonlPathForInjective is stated only for content types without `/`. The repository's own content types (`blogs`, `op_eds`, `studies`) are plain names.
- `extract_date` in cei6/indexers/common.py:81-96 imports a name cei6/models.py does not define, so its result cannot be stated. The studies model therefore has two halves:
  - `StudiesIndexer.ParseListingAsWritten`: the code as written, where the import raises;
  - `StudiesIndexer.ParseListing`: the same loop taking the date lookup as a parameter.
- `ensure_output_dirs`, file encodings and `ensure_ascii` are not modelled.
- The `print` of a failed detail fetch (cei6/details/__init__.py:31) is not modelled.
- Text.Lower: lowers only ASCII letters, not full Unicode case mapping. This is enough for the "by" and ".pdf" tests it serves.
- Text.Split: `\b` and `\w` are taken over ASCII letters, digits and `_`.
- `first_text`/`get_text(" ", strip=True)` are given as one text per element. How BeautifulSoup joins nested strings is not modelled.
- PageListing.FetchFirstPageLoop: `urljoin(BASE, href)` is given per anchor as its absolute URL. `abs_url.replace(BASE, "", 1)` is modelled as dropping the prefix; the replace happens only after the `startswith(BASE)` test, so this is the first occurrence.

Two comments in the source promise more than the code does. The model follows the code:

- cei6/storage.py:41 says the append is "dedup by URL". But `seen` is not updated during a call, so two unseen items with one URL are both written (`Storage.SameUrlWrittenTwice`). If the file's last line has no newline, the first record is written onto that line, and that line's URL is no longer recorded (`Storage.UnterminatedLineMerges`).
- cei6/details/blogs_details.py:44 says "One retry on 403/5xx". The loop at lines 45-54 makes at most two attempts. It retries on 403/429/500/502/503, so it retries 429 and does not retry 504.

In a few places the code does less than its names suggest. The model follows the code there too:

- The detail parser's `documents` (cei6/details/blogs_details.py:104-109) are neither absolutised nor de-duplicated. An href with a query string after `.pdf` is not kept (`BlogDetails.DocumentsAsWritten`).
- `_parse_date` in the card indexers (cei6/indexers/blogs_indexer.py:25-41 and cei6/indexers/opeds_indexer.py:24-38) returns `None` when nothing parses, not the raw text.
- `blogs_indexer` (cei6/indexers/blogs_indexer.py:94-122) does not de-duplicate URLs (`CardIndexers.RepeatedCardRepeatsItem`).
- `normalize_authors` (cei6/models.py:17-29) does not strip a leading "By". Only `clean_authors` and the by-line fallback do.

## Findings

| source | as written | input that shows it | evidently intended | confidence | as-written member | corrected member |
|---|---|---|---|---|---|---|
| cei6/indexers/studies_indexer.py:36 | `_parse_listing` calls `extract_date`, which imports `parse_listing_datetime` from cei6/models.py; that name does not exist, so the call raises `ImportError` | any listing with one `article.default-card` whose title link has a non-empty href | one item per linked card, dated by a working date parser | not executed | StudiesIndexer.ParseListingAsWritten | StudiesIndexer.ParseListingLoop |
| cei6/details/blogs_details.py:52-55 | a status that is neither 200 nor an HTTP error, such as 204, neither returns nor raises, so the loop goes on; two of them reach the `return ""` marked never reached | two responses with status 204 | every call that gets no 200 raises | not executed | BlogDetails.NoContentTwiceIsEmptyPage | BlogDetails.FetchHtmlChecked |
