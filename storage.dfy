/**
 * The append-only JSONL index of cei6/storage.py.  The file system is a map
 * from path to a file: its lines, each kept as what `json.loads` makes of
 * it (the JSON text itself is not modelled), and whether its text ends in
 * a newline.
 */
module Storage {
  import opened Wrappers
  import opened Json
  import opened Models
  import Seqs

  /** `BASE_OUT / f"{content_type}.jsonl"`, with `BASE_OUT = Path("outputs") / "index"`. */
  function JsonlPathFor(contentType: string): (p: string)
    ensures |p| == |contentType| + 20
  {
    "outputs/index/" + contentType + ".jsonl"
  }

  /**
   * Different content types get different files, for content types that
   * are plain names.  A `/` makes the name a path that pathlib normalises
   * (`a//b` and `a/b` name one file).
   */
  lemma JsonlPathForInjective(a: string, b: string)
    requires '/' !in a && '/' !in b
    requires JsonlPathFor(a) == JsonlPathFor(b)
    ensures a == b
  {
    var pa := JsonlPathFor(a);
    assert a == pa[14..|pa| - 6];
    assert b == JsonlPathFor(b)[14..|JsonlPathFor(b)| - 6];
  }

  /**
   * One line of a file, as `_load_existing_urls` sees it: empty after
   * `strip()`, rejected by `json.loads`, or a parsed JSON value.
   */
  datatype Line = Blank | Malformed | Parsed(v: Json)

  /**
   * The URL a line contributes: only a JSON object whose (last) "url" member
   * is a string.  Any other parsed value makes `obj.get` raise, which is
   * caught and skipped like a malformed line.
   */
  function LineUrl(l: Line): Option<string>
  {
    match l
    case Parsed(JObj(members)) =>
      var u := Get(members, "url");
      if u.Some? && u.value.JStr? then Some(u.value.s) else None
    case _ => None
  }

  /** The URLs recorded in a sequence of lines. */
  function UrlsOf(lines: seq<Line>): set<string>
  {
    set i | 0 <= i < |lines| && LineUrl(lines[i]).Some? :: LineUrl(lines[i]).value
  }

  /** One more line adds its URL, if it has one. */
  lemma UrlsOfSnoc(lines: seq<Line>, l: Line)
    ensures UrlsOf(lines + [l]) == UrlsOf(lines) + (if LineUrl(l).Some? then {LineUrl(l).value} else {})
  {
    var ls := lines + [l];
    assert forall i :: 0 <= i < |lines| ==> ls[i] == lines[i];
    assert ls[|lines|] == l;
  }

  /** The line `write_index_jsonl` appends for an item. */
  function ItemLine(it: ListingItem): (l: Line)
    ensures LineUrl(l) == Some(it.url)
  {
    Parsed(JObj(ListingItemToDict(it)))
  }

  /** The lines appended for a sequence of items, in order. */
  function ItemLines(items: seq<ListingItem>): (ls: seq<Line>)
    ensures |ls| == |items|
    ensures forall i :: 0 <= i < |items| ==> ls[i] == ItemLine(items[i])
  {
    seq(|items|, i requires 0 <= i < |items| => ItemLine(items[i]))
  }

  /** `[it for it in items if it.url not in seen]` */
  function NewItems(items: seq<ListingItem>, seen: set<string>): seq<ListingItem>
  {
    if items == [] then []
    else
      var d := NewItems(items[..|items| - 1], seen);
      var it := items[|items| - 1];
      if it.url !in seen then d + [it] else d
  }

  /** The filter keeps exactly the items whose URL is not yet recorded, in order. */
  lemma {:induction false} NewItemsSpec(items: seq<ListingItem>, seen: set<string>)
    ensures |NewItems(items, seen)| <= |items|
    ensures forall i :: 0 <= i < |NewItems(items, seen)| ==> NewItems(items, seen)[i].url !in seen
    ensures forall x :: x in NewItems(items, seen) <==> x in items && x.url !in seen
  {
    if items != [] {
      var p := items[..|items| - 1];
      NewItemsSpec(p, seen);
      assert items == p + [items[|items| - 1]];
      var d := NewItems(p, seen);
      var it := items[|items| - 1];
      if it.url !in seen {
        var r := d + [it];
        assert forall i :: 0 <= i < |d| ==> r[i] == d[i];
      }
    }
  }

  /** Appending lines adds their URLs and nothing else. */
  lemma UrlsOfAppend(a: seq<Line>, b: seq<Line>)
    ensures UrlsOf(a + b) == UrlsOf(a) + UrlsOf(b)
  {
    var ab := a + b;
    forall u ensures u in UrlsOf(ab) <==> u in UrlsOf(a) + UrlsOf(b) {
      if u in UrlsOf(ab) {
        var i :| 0 <= i < |ab| && LineUrl(ab[i]) == Some(u);
        if i < |a| {
          assert ab[i] == a[i];
        } else {
          assert ab[i] == b[i - |a|];
        }
      }
      if u in UrlsOf(a) {
        var i :| 0 <= i < |a| && LineUrl(a[i]) == Some(u);
        assert ab[i] == a[i];
      }
      if u in UrlsOf(b) {
        var i :| 0 <= i < |b| && LineUrl(b[i]) == Some(u);
        assert ab[|a| + i] == b[i];
        assert LineUrl(ab[|a| + i]) == Some(u);
      }
    }
  }

  /** The URLs of the appended lines are the items' URLs. */
  lemma UrlsOfItemLines(items: seq<ListingItem>)
    ensures forall k :: 0 <= k < |items| ==> items[k].url in UrlsOf(ItemLines(items))
    ensures forall u :: u in UrlsOf(ItemLines(items)) ==> exists k :: 0 <= k < |items| && items[k].url == u
  {
    var ls := ItemLines(items);
    forall k | 0 <= k < |items| ensures items[k].url in UrlsOf(ls) {
      assert LineUrl(ls[k]) == Some(items[k].url);
    }
  }

  /**
   * A file: its lines, and whether its text ends in a newline.  A file whose
   * last line has none (a write cut short, or a file edited by hand) is
   * open: append mode puts the next record on that same line.
   */
  datatype File = File(lines: seq<Line>, terminated: bool)

  /** The last line of the file has no newline after it. */
  predicate Open(f: File)
  {
    f.lines != [] && !f.terminated
  }

  /**
   * The line a record makes when it is written after an open last line.
   * Blank text before it is removed by `strip()`; after any other text the
   * line no longer parses (after a parsed value `json.loads` reports extra
   * data).
   */
  function MergeLine(last: Line, record: Line): Line
  {
    if last.Blank? then record else Malformed
  }

  /** `f.write(json.dumps(...) + "\n")` for one record. */
  function WriteOne(f: File, l: Line): (g: File)
    ensures g.terminated
    ensures !Open(f) ==> g.lines == f.lines + [l]
    ensures Open(f) ==> g.lines == f.lines[..|f.lines| - 1] + [MergeLine(f.lines[|f.lines| - 1], l)]
  {
    if Open(f) then File(f.lines[..|f.lines| - 1] + [MergeLine(f.lines[|f.lines| - 1], l)], true)
    else File(f.lines + [l], true)
  }

  /** The records written one after another. */
  function WriteLines(f: File, ls: seq<Line>): File
  {
    if ls == [] then f else WriteOne(WriteLines(f, ls[..|ls| - 1]), ls[|ls| - 1])
  }

  lemma WriteLinesSnoc(f: File, ls: seq<Line>, l: Line)
    ensures WriteLines(f, ls + [l]) == WriteOne(WriteLines(f, ls), l)
  {
    assert (ls + [l])[..|ls|] == ls;
  }

  /**
   * After the writes the file ends in a newline.  On a file that ended in
   * one the records follow the old lines; on an open file the first record
   * is merged into the last line.
   */
  lemma {:induction false} WriteLinesShape(f: File, ls: seq<Line>)
    ensures ls != [] ==> WriteLines(f, ls).terminated
    ensures !Open(f) ==> WriteLines(f, ls).lines == f.lines + ls
    ensures Open(f) && ls != [] ==>
      WriteLines(f, ls).lines == f.lines[..|f.lines| - 1] + [MergeLine(f.lines[|f.lines| - 1], ls[0])] + ls[1..]
  {
    if ls == [] {
      assert f.lines + ls == f.lines;
    } else {
      var ps, l := ls[..|ls| - 1], ls[|ls| - 1];
      WriteLinesShape(f, ps);
      Seqs.PrefixLast(ls);
      if ps == [] {
        assert ls == [l];
      } else {
        assert ls[0] == ps[0];
        assert ls[1..] == ps[1..] + [l];
      }
    }
  }

  /**
   * What a call does to one file: the file after the call and the returned
   * count.
   */
  function AppendNew(f: File, items: seq<ListingItem>): (File, nat)
  {
    var unseen := NewItems(items, UrlsOf(f.lines));
    if unseen == [] then (f, 0) else (WriteLines(f, ItemLines(unseen)), |unseen|)
  }

  /**
   * The count is the number of unseen items.  With none the file is left
   * as it was; otherwise it ends in a newline.  On a file that ended in one
   * the old lines are a prefix and the lines added are those of the unseen
   * items in input order; on an open file the first of them is merged into
   * the last line.
   */
  lemma AppendNewLines(f: File, items: seq<ListingItem>)
    ensures AppendNew(f, items).1 == |NewItems(items, UrlsOf(f.lines))|
    ensures NewItems(items, UrlsOf(f.lines)) == [] ==> AppendNew(f, items).0 == f
    ensures NewItems(items, UrlsOf(f.lines)) != [] ==> AppendNew(f, items).0.terminated
    ensures !Open(f) ==> AppendNew(f, items).0.lines == f.lines + ItemLines(NewItems(items, UrlsOf(f.lines)))
    ensures var unseen := NewItems(items, UrlsOf(f.lines));
      Open(f) && unseen != [] ==>
        AppendNew(f, items).0.lines ==
          f.lines[..|f.lines| - 1] + [MergeLine(f.lines[|f.lines| - 1], ItemLine(unseen[0]))] + ItemLines(unseen)[1..]
  {
    var unseen := NewItems(items, UrlsOf(f.lines));
    if unseen == [] {
      assert f.lines + ItemLines([]) == f.lines;
    } else {
      WriteLinesShape(f, ItemLines(unseen));
    }
  }

  /** Every input URL is either already recorded or among the URLs of the appended lines. */
  lemma NewItemsCover(items: seq<ListingItem>, seen: set<string>)
    ensures forall i :: 0 <= i < |items| ==>
      items[i].url in seen || items[i].url in UrlsOf(ItemLines(NewItems(items, seen)))
  {
    var unseen := NewItems(items, seen);
    NewItemsSpec(items, seen);
    UrlsOfItemLines(unseen);
    forall i | 0 <= i < |items| && items[i].url !in seen
      ensures items[i].url in UrlsOf(ItemLines(unseen))
    {
      assert items[i] in items;
      var k :| 0 <= k < |unseen| && unseen[k] == items[i];
    }
  }

  lemma NewItemsPrefixSnoc(items: seq<ListingItem>, i: nat, seen: set<string>)
    requires i < |items|
    ensures NewItems(items[..i + 1], seen) ==
      if items[i].url !in seen then NewItems(items[..i], seen) + [items[i]] else NewItems(items[..i], seen)
  {
    assert items[..i + 1][..i] == items[..i];
  }

  lemma ItemLinesPrefixSnoc(items: seq<ListingItem>, i: nat)
    requires i < |items|
    ensures ItemLines(items[..i + 1]) == ItemLines(items[..i]) + [ItemLine(items[i])]
  {
    var a, b := ItemLines(items[..i + 1]), ItemLines(items[..i]) + [ItemLine(items[i])];
    forall k | 0 <= k < |a|
      ensures a[k] == b[k]
    {
      if k < i {
        assert items[..i + 1][k] == items[..i][k];
      }
    }
  }

  /** On a file that ends in a newline, every input URL is recorded after a call. */
  lemma AppendNewRecords(f: File, items: seq<ListingItem>)
    ensures !Open(f) ==> forall i :: 0 <= i < |items| ==> items[i].url in UrlsOf(AppendNew(f, items).0.lines)
  {
    var seen := UrlsOf(f.lines);
    AppendNewLines(f, items);
    NewItemsCover(items, seen);
    UrlsOfAppend(f.lines, ItemLines(NewItems(items, seen)));
  }

  /** Nothing passes the filter when every URL is already recorded. */
  lemma {:induction false} NewItemsAllSeen(items: seq<ListingItem>, seen: set<string>)
    requires forall i :: 0 <= i < |items| ==> items[i].url in seen
    ensures NewItems(items, seen) == []
  {
    if items != [] {
      NewItemsAllSeen(items[..|items| - 1], seen);
    }
  }

  /**
   * On a file that ends in a newline, repeating a call with the same items
   * writes nothing and returns 0.  A call that writes leaves the file ending
   * in a newline.
   */
  lemma AppendNewIdempotent(f: File, items: seq<ListingItem>)
    ensures !Open(f) ==> AppendNew(AppendNew(f, items).0, items) == (AppendNew(f, items).0, 0)
    ensures AppendNew(f, items).1 > 0 ==> !Open(AppendNew(f, items).0)
  {
    var after := AppendNew(f, items).0;
    AppendNewLines(f, items);
    if !Open(f) {
      AppendNewRecords(f, items);
      NewItemsAllSeen(items, UrlsOf(after.lines));
    }
  }

  /** On any file, the third of three identical calls writes nothing. */
  lemma AppendNewSettles(f: File, items: seq<ListingItem>)
    ensures var f2 := AppendNew(AppendNew(f, items).0, items).0;
      AppendNew(f2, items) == (f2, 0)
  {
    var f1 := AppendNew(f, items).0;
    AppendNewIdempotent(f, items);
    AppendNewLines(f, items);
    if AppendNew(f, items).1 > 0 {
      AppendNewIdempotent(f1, items);
    }
  }

  /** A call with one unseen item writes that one record. */
  lemma AppendNewOne(f: File, it: ListingItem)
    requires it.url !in UrlsOf(f.lines)
    ensures AppendNew(f, [it]) == (WriteOne(f, ItemLine(it)), 1)
  {
    assert [it][..0] == [];
    assert NewItems([it], UrlsOf(f.lines)) == [it];
    assert ItemLines([it]) == [ItemLine(it)];
    var ls := [ItemLine(it)];
    assert ls[..0] == [];
    assert WriteLines(f, ls) == WriteOne(WriteLines(f, []), ItemLine(it));
  }

  /**
   * A file whose one line `{"url": "A"}` has no newline after it: the
   * record is written onto that line, which then parses to nothing, so the
   * file records neither URL and the next call writes the item again.
   */
  lemma UnterminatedLineMerges(it: ListingItem)
    requires it.url != "A"
    ensures AppendNew(File([Parsed(JObj([("url", JStr("A"))]))], false), [it]) == (File([Malformed], true), 1)
    ensures AppendNew(File([Malformed], true), [it]) == (File([Malformed, ItemLine(it)], true), 1)
  {
    var f := File([Parsed(JObj([("url", JStr("A"))]))], false);
    assert LineUrl(f.lines[0]) == Some("A");
    assert UrlsOf(f.lines) == {"A"};
    AppendNewOne(f, it);
    assert f.lines[..0] == [];
    assert MergeLine(f.lines[0], ItemLine(it)) == Malformed;
    assert Open(f) && WriteOne(f, ItemLine(it)).lines == [] + [Malformed];
    assert WriteOne(f, ItemLine(it)) == File([Malformed], true);
    assert AppendNew(f, [it]).0 == File([Malformed], true);
    assert AppendNew(f, [it]).1 == 1;
    var g := File([Malformed], true);
    assert UrlsOf(g.lines) == {} by {
      assert LineUrl(g.lines[0]) == None;
    }
    AppendNewOne(g, it);
    assert g.lines + [ItemLine(it)] == [Malformed, ItemLine(it)];
  }

  /**
   * Items that share a URL not yet in the file are all written: `seen` is
   * not updated while filtering.
   */
  lemma SameUrlWrittenTwice(f: File, a: ListingItem, b: ListingItem)
    requires a.url == b.url && a.url !in UrlsOf(f.lines)
    ensures AppendNew(f, [a, b]).1 == 2
    ensures !Open(f) ==> AppendNew(f, [a, b]).0.lines == f.lines + [ItemLine(a), ItemLine(b)]
  {
    var seen := UrlsOf(f.lines);
    assert [a, b][..1] == [a];
    assert [a][..0] == [];
    assert NewItems([a], seen) == [a];
    assert NewItems([a, b], seen) == [a, b];
    AppendNewLines(f, [a, b]);
    assert ItemLines([a, b]) == [ItemLine(a), ItemLine(b)];
  }

  /** `[it for it in items if it.url not in seen]`, as the loop it runs. */
  method FilterNew(items: seq<ListingItem>, seen: set<string>) returns (unseen: seq<ListingItem>)
    ensures unseen == NewItems(items, seen)
  {
    unseen := [];
    for i := 0 to |items|
      invariant unseen == NewItems(items[..i], seen)
    {
      NewItemsPrefixSnoc(items, i, seen);
      if items[i].url !in seen {
        unseen := unseen + [items[i]];
      }
    }
    Seqs.PrefixAll(items);
  }

  /** The output files, by path. */
  class IndexStore {
    var files: map<string, File>

    constructor(files0: map<string, File>)
      ensures files == files0
    {
      files := files0;
    }

    /** The file at `p`; a missing file reads as an empty one. */
    function FileAt(p: string): File
      reads this
    {
      if p in files then files[p] else File([], true)
    }

    /** `_load_existing_urls(p)`: a set filled line by line; a missing file gives the empty set. */
    method LoadExistingUrls(p: string) returns (urls: set<string>)
      ensures urls == UrlsOf(FileAt(p).lines)
      ensures p !in files ==> urls == {}
    {
      urls := {};
      if p !in files {
        return;
      }
      var lines := files[p].lines;
      for i := 0 to |lines|
        invariant urls == UrlsOf(lines[..i])
      {
        Seqs.PrefixSnoc(lines, i);
        UrlsOfSnoc(lines[..i], lines[i]);
        match lines[i]
        case Blank =>
        case Malformed =>
        case Parsed(obj) =>
          if obj.JObj? {
            var url := Get(obj.members, "url");
            if url.Some? && url.value.JStr? {
              urls := urls + {url.value.s};
            }
          }
      }
      Seqs.PrefixAll(lines);
    }

    /**
     * `write_index_jsonl`: append the items whose URL the file does not
     * record yet, one record per write, and return how many were appended.
     * With nothing new the file is left alone (not even created).
     */
    method WriteIndexJsonl(contentType: string, items: seq<ListingItem>) returns (n: nat)
      modifies this
      ensures var p := JsonlPathFor(contentType);
        n == AppendNew(old(FileAt(p)), items).1 && FileAt(p) == AppendNew(old(FileAt(p)), items).0
      ensures n == 0 ==> files == old(files)
      ensures var p := JsonlPathFor(contentType);
        n > 0 ==> files == old(files)[p := AppendNew(old(FileAt(p)), items).0]
    {
      var path := JsonlPathFor(contentType);
      var seen := LoadExistingUrls(path);
      var unseen := FilterNew(items, seen);
      if unseen == [] {
        AppendNewLines(FileAt(path), items);
        return 0;
      }
      // opening in append mode creates a missing file
      var before := FileAt(path);
      files := files[path := before];
      assert ItemLines(unseen[..0]) == [];
      for i := 0 to |unseen|
        invariant files == old(files)[path := WriteLines(before, ItemLines(unseen[..i]))]
      {
        ItemLinesPrefixSnoc(unseen, i);
        WriteLinesSnoc(before, ItemLines(unseen[..i]), ItemLine(unseen[i]));
        files := files[path := WriteOne(files[path], ItemLine(unseen[i]))];
      }
      Seqs.PrefixAll(unseen);
      assert AppendNew(before, items) == (WriteLines(before, ItemLines(unseen)), |unseen|);
      n := |unseen|;
    }
  }
}
