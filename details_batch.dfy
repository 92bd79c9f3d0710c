/**
 * The batch driver of the detail fetcher (cei6/details/__init__.py):
 * fetch the details of the blog items, at most `max_details` of them,
 * skipping the fetches that raise.  `fetch` stands for
 * `fetch_blog_detail`, with `Err` where it raises.
 */
module DetailsBatch {
  import opened Wrappers
  import opened Seqs
  import opened Models
  import opened BlogDetails

  /** The details of the blog items whose fetch succeeds, in item order. */
  function Successes(items: seq<ListingItem>, fetch: string -> Result<BlogDetail>): seq<BlogDetail>
  {
    if items == [] then []
    else
      var d := Successes(items[..|items| - 1], fetch);
      var it := items[|items| - 1];
      if it.contentType == "blogs" && fetch(it.url).Ok? then d + [fetch(it.url).value] else d
  }

  lemma SuccessesSnoc(items: seq<ListingItem>, it: ListingItem, fetch: string -> Result<BlogDetail>)
    ensures Successes(items + [it], fetch) ==
      if it.contentType == "blogs" && fetch(it.url).Ok? then Successes(items, fetch) + [fetch(it.url).value]
      else Successes(items, fetch)
  {
    assert (items + [it])[..|items|] == items;
  }

  /** The limit as a length: `count >= max_details` holds at once for a negative one. */
  function Limit(maxDetails: Option<int>): nat
    requires maxDetails.Some?
  {
    if maxDetails.value < 0 then 0 else maxDetails.value
  }

  /** What `fetch_blog_details_batch(items, max_details)` returns. */
  function Batch(items: seq<ListingItem>, maxDetails: Option<int>,
                 fetch: string -> Result<BlogDetail>): seq<BlogDetail>
  {
    if maxDetails.None? then Successes(items, fetch)
    else Take(Successes(items, fetch), Limit(maxDetails))
  }

  /** `fetch_blog_details_batch`: the loop with its `count`, `continue` and `break`. */
  method FetchBlogDetailsBatch(items: seq<ListingItem>, maxDetails: Option<int>,
                               fetch: string -> Result<BlogDetail>) returns (out: seq<BlogDetail>)
    ensures out == Batch(items, maxDetails, fetch)
  {
    out := [];
    var count := 0;
    var i := 0;
    while i < |items|
      invariant 0 <= i <= |items|
      invariant out == Successes(items[..i], fetch)
      invariant count == |out|
      invariant maxDetails.Some? ==> count <= Limit(maxDetails)
    {
      var it := items[i];
      Seqs.PrefixSnoc(items, i);
      SuccessesSnoc(items[..i], it, fetch);
      if it.contentType != "blogs" {
        i := i + 1;
        continue;
      }
      if maxDetails.Some? && count >= maxDetails.value {
        break;
      }
      var detail := fetch(it.url);
      if detail.Ok? {
        out := out + [detail.value];
        count := count + 1;
      }
      i := i + 1;
    }
    SuccessesPrefix(items, i, fetch);
    if i == |items| {
      assert items[..i] == items;
    }
  }

  /** The successes of a prefix of the items are a prefix of the successes. */
  lemma {:induction false} SuccessesPrefix(items: seq<ListingItem>, i: nat, fetch: string -> Result<BlogDetail>)
    requires i <= |items|
    ensures var s := Successes(items[..i], fetch);
      |s| <= |Successes(items, fetch)| && Successes(items, fetch)[..|s|] == s
    decreases |items| - i
  {
    if i < |items| {
      SuccessesPrefix(items, i + 1, fetch);
      Seqs.PrefixSnoc(items, i);
      SuccessesSnoc(items[..i], items[i], fetch);
    } else {
      assert items[..i] == items;
    }
  }

  lemma {:induction false} SuccessesMembers(items: seq<ListingItem>, fetch: string -> Result<BlogDetail>)
    ensures forall d :: d in Successes(items, fetch) <==>
      exists k :: 0 <= k < |items| && items[k].contentType == "blogs" &&
                  fetch(items[k].url) == Ok(d)
  {
    if items != [] {
      var p := items[..|items| - 1];
      SuccessesMembers(p, fetch);
      assert forall k :: 0 <= k < |p| ==> p[k] == items[k];
    }
  }

  /**
   * The batch holds only details of blog items that were fetched, never more
   * than `max_details` of them, and with no limit every success.
   */
  lemma BatchProperties(items: seq<ListingItem>, maxDetails: Option<int>,
                        fetch: string -> Result<BlogDetail>)
    ensures maxDetails.Some? ==> |Batch(items, maxDetails, fetch)| <= Limit(maxDetails)
    ensures maxDetails.None? ==> Batch(items, maxDetails, fetch) == Successes(items, fetch)
    ensures forall d :: d in Batch(items, maxDetails, fetch) ==>
      exists k :: 0 <= k < |items| && items[k].contentType == "blogs" && fetch(items[k].url) == Ok(d)
  {
    SuccessesMembers(items, fetch);
    var b := Batch(items, maxDetails, fetch);
    forall d | d in b
      ensures d in Successes(items, fetch)
    {
      var k :| 0 <= k < |b| && b[k] == d;
      assert b[k] == Successes(items, fetch)[k];
    }
  }

  /** A failed fetch costs nothing: dropping it from the input leaves the batch unchanged. */
  lemma FailureIsSkipped(before: seq<ListingItem>, it: ListingItem, after: seq<ListingItem>,
                         maxDetails: Option<int>, fetch: string -> Result<BlogDetail>)
    requires fetch(it.url).Err?
    ensures Batch(before + [it] + after, maxDetails, fetch) == Batch(before + after, maxDetails, fetch)
  {
    SuccessesSkip(before, it, after, fetch);
  }

  /** Items that are not blogs are skipped the same way. */
  lemma NonBlogIsSkipped(before: seq<ListingItem>, it: ListingItem, after: seq<ListingItem>,
                         maxDetails: Option<int>, fetch: string -> Result<BlogDetail>)
    requires it.contentType != "blogs"
    ensures Batch(before + [it] + after, maxDetails, fetch) == Batch(before + after, maxDetails, fetch)
  {
    SuccessesSkip(before, it, after, fetch);
  }

  lemma {:induction false} SuccessesSkip(before: seq<ListingItem>, it: ListingItem, after: seq<ListingItem>,
                                         fetch: string -> Result<BlogDetail>)
    requires it.contentType != "blogs" || fetch(it.url).Err?
    ensures Successes(before + [it] + after, fetch) == Successes(before + after, fetch)
    decreases |after|
  {
    if after == [] {
      assert before + [it] + after == before + [it];
      assert before + after == before;
      SuccessesSnoc(before, it, fetch);
    } else {
      var p := after[..|after| - 1];
      var x := after[|after| - 1];
      SuccessesSkip(before, it, p, fetch);
      assert before + [it] + after == (before + [it] + p) + [x];
      assert before + after == (before + p) + [x];
      SuccessesSnoc(before + [it] + p, x, fetch);
      SuccessesSnoc(before + p, x, fetch);
    }
  }
}
