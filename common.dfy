/**
 * Shared helpers of cei6/common.py: date coercion to ISO-8601 text and the
 * `clean_authors` author-list clean-up.  (`_normalize_spaces` is
 * `Text.Collapse`.)
 */
module Common {
  import opened Wrappers
  import opened Text
  import opened Seqs
  import opened DateTimes

  // ----- coerce_datetime_str -----

  /** The `strptime` formats tried by `coerce_datetime_str`. */
  datatype DateFormat =
    | IsoWithOffset  // "%Y-%m-%dT%H:%M:%S%z"
    | IsoNaive       // "%Y-%m-%dT%H:%M:%S"
    | SpaceNaive     // "%Y-%m-%d %H:%M:%S"
    | DateOnly       // "%Y-%m-%d"

  const CoerceFormats: seq<DateFormat> := [IsoWithOffset, IsoNaive, SpaceNaive, DateOnly]

  /**
   * The first format in `fmts` that `strptime` accepts for `s`, with its
   * value; `None` when every format fails.
   */
  function FirstParse<F>(s: string, fmts: seq<F>,
                         strptime: (string, F) -> Option<DateTime>): (r: Option<DateTime>)
    ensures r.None? <==> forall j :: 0 <= j < |fmts| ==> strptime(s, fmts[j]).None?
    ensures r.Some? ==> exists j :: 0 <= j < |fmts| && strptime(s, fmts[j]) == r &&
                          forall k :: 0 <= k < j ==> strptime(s, fmts[k]).None?
  {
    if fmts == [] then None
    else if strptime(s, fmts[0]).Some? then
      assert strptime(s, fmts[0]) == strptime(s, fmts[0]);
      strptime(s, fmts[0])
    else
      var r := FirstParse(s, fmts[1..], strptime);
      assert forall j :: 0 <= j < |fmts| - 1 ==> fmts[1..][j] == fmts[j + 1];
      if r.Some? then
        var j :| 0 <= j < |fmts| - 1 && strptime(s, fmts[1..][j]) == r &&
                 forall k :: 0 <= k < j ==> strptime(s, fmts[1..][k]).None?;
        assert strptime(s, fmts[j + 1]) == r;
        assert forall k :: 0 <= k < j + 1 ==> strptime(s, fmts[k]).None? by {
          forall k | 0 <= k < j + 1 ensures strptime(s, fmts[k]).None? {
            if k > 0 {
              assert fmts[k] == fmts[1..][k - 1];
            }
          }
        }
        r
      else
        r
  }

  /**
   * What `coerce_datetime_str(s)` returns, for the library parser
   * `strptime` (`None` where `datetime.strptime` raises).
   */
  function CoerceDatetime(s: string, strptime: (string, DateFormat) -> Option<DateTime>): string
  {
    if s == [] then ""
    else
      var t := Strip(s);
      match FirstParse(t, CoerceFormats, strptime)
      case Some(dt) => IsoFormat(dt)
      case None => t
  }

  /** `coerce_datetime_str`: try each format in turn, return at the first success. */
  method CoerceDatetimeStr(s: string, strptime: (string, DateFormat) -> Option<DateTime>)
    returns (r: string)
    ensures r == CoerceDatetime(s, strptime)
  {
    if s == [] {
      return "";
    }
    var t := Strip(s);
    var fmts := CoerceFormats;
    for i := 0 to |fmts|
      invariant forall j :: 0 <= j < i ==> strptime(t, fmts[j]).None?
    {
      var dt := strptime(t, fmts[i]);
      if dt.Some? {
        FirstParseAt(t, fmts, strptime, i);
        return IsoFormat(dt.value);
      }
    }
    return t;
  }

  /** When format `i` is the first that succeeds, it decides the result. */
  lemma {:induction false} FirstParseAt<F>(s: string, fmts: seq<F>,
                                           strptime: (string, F) -> Option<DateTime>, i: nat)
    requires i < |fmts| && strptime(s, fmts[i]).Some?
    requires forall j :: 0 <= j < i ==> strptime(s, fmts[j]).None?
    ensures FirstParse(s, fmts, strptime) == strptime(s, fmts[i])
  {
    if i > 0 {
      assert forall j :: 0 <= j < i - 1 ==> fmts[1..][j] == fmts[j + 1];
      FirstParseAt(s, fmts[1..], strptime, i - 1);
    }
  }

  /** `parse_date_or_raw` is `coerce_datetime_str`. */
  method ParseDateOrRaw(s: string, strptime: (string, DateFormat) -> Option<DateTime>)
    returns (r: string)
    ensures r == CoerceDatetime(s, strptime)
  {
    r := CoerceDatetimeStr(s, strptime);
  }

  /** The empty string is returned as is, whatever the parser. */
  lemma CoerceEmpty(strptime: (string, DateFormat) -> Option<DateTime>)
    ensures CoerceDatetime("", strptime) == ""
  {
  }

  /** When no format matches, the stripped input comes back. */
  lemma CoerceNoMatch(s: string, strptime: (string, DateFormat) -> Option<DateTime>)
    requires forall f :: strptime(Strip(s), f).None?
    ensures CoerceDatetime(s, strptime) == Strip(s)
  {
    if s != [] {
      assert FirstParse(Strip(s), CoerceFormats, strptime).None?;
    }
  }

  /** The first format that matches wins, even when a later one would match too. */
  lemma CoerceFirstWins(s: string, strptime: (string, DateFormat) -> Option<DateTime>, i: nat)
    requires s != []
    requires i < |CoerceFormats| && strptime(Strip(s), CoerceFormats[i]).Some?
    requires forall j :: 0 <= j < i ==> strptime(Strip(s), CoerceFormats[j]).None?
    ensures CoerceDatetime(s, strptime) == IsoFormat(strptime(Strip(s), CoerceFormats[i]).value)
  {
    FirstParseAt(Strip(s), CoerceFormats, strptime, i);
  }

  /** A date-only text has no surrounding whitespace. */
  lemma StripDateText(y: nat, m: nat, d: nat)
    ensures Strip(DateText(y, m, d)) == DateText(y, m, d)
  {
    var t := DateText(y, m, d);
    assert !IsSpace(t[0]) && !IsSpace(t[|t| - 1]);
  }

  /**
   * A valid `YYYY-MM-DD` (rejected by the three formats with a time part,
   * accepted by `%Y-%m-%d` as midnight) comes back with `T00:00:00` appended.
   */
  lemma CoerceDateOnly(y: nat, m: nat, d: nat, strptime: (string, DateFormat) -> Option<DateTime>)
    requires strptime(DateText(y, m, d), IsoWithOffset).None?
    requires strptime(DateText(y, m, d), IsoNaive).None?
    requires strptime(DateText(y, m, d), SpaceNaive).None?
    requires strptime(DateText(y, m, d), DateOnly) == Some(DateTime(y, m, d, 0, 0, 0, None))
    ensures CoerceDatetime(DateText(y, m, d), strptime) == DateText(y, m, d) + "T00:00:00"
  {
    StripDateText(y, m, d);
    CoerceFirstWins(DateText(y, m, d), strptime, 3);
    IsoFormatMidnight(y, m, d);
  }

  // ----- clean_authors -----

  /** The argument of `clean_authors`: `None`, one string, or an iterable of strings. */
  datatype AuthorsArg = NoAuthors | OneString(s: string) | ManyStrings(items: seq<string>)

  /** `parts = [raw] if isinstance(raw, str) else list(raw)` */
  function Parts(raw: AuthorsArg): seq<string>
  {
    match raw
    case NoAuthors => []
    case OneString(s) => [s]
    case ManyStrings(xs) => xs
  }

  /** `_normalize_spaces(t.strip())` */
  function CleanToken(t: string): string
  {
    Collapse(Strip(t))
  }

  lemma CleanTokenExclude(t: string, c: char)
    requires c != ' '
    ensures c !in t ==> c !in Collapse(Strip(t))
  {
    if c !in t {
      StripExclude(t, c);
      CollapseExclude(Strip(t), c);
    }
  }

  /** The non-empty cleaned tokens, in order. */
  function NonEmptyTokens(ts: seq<string>): seq<string>
  {
    if ts == [] then []
    else
      var d := NonEmptyTokens(ts[..|ts| - 1]);
      var c := CleanToken(ts[|ts| - 1]);
      if c == [] then d else d + [c]
  }

  /** The names one part contributes before de-duplication. */
  function PartNames(p: string): seq<string>
  {
    if p == [] then [] else NonEmptyTokens(Split(CommaOrWordAnd, StripBy(p)))
  }

  /** Cleaned tokens are non-empty and normalised, and comma-free when the tokens are. */
  lemma {:induction false} NonEmptyTokensClean(ts: seq<string>)
    ensures forall k :: 0 <= k < |NonEmptyTokens(ts)| ==>
      NonEmptyTokens(ts)[k] != [] && Normalized(NonEmptyTokens(ts)[k])
    ensures (forall k :: 0 <= k < |ts| ==> ',' !in ts[k]) ==>
      forall k :: 0 <= k < |NonEmptyTokens(ts)| ==> ',' !in NonEmptyTokens(ts)[k]
  {
    if ts != [] {
      var p := ts[..|ts| - 1];
      NonEmptyTokensClean(p);
      CleanTokenExclude(ts[|ts| - 1], ',');
      assert forall k :: 0 <= k < |p| ==> p[k] == ts[k];
    }
  }

  /** Non-empty, normalised, comma-free names. */
  predicate CleanNames(xs: seq<string>)
  {
    forall k :: 0 <= k < |xs| ==> xs[k] != [] && Normalized(xs[k]) && ',' !in xs[k]
  }

  lemma CleanNamesConcat(d: seq<string>, e: seq<string>)
    requires CleanNames(d) && CleanNames(e)
    ensures CleanNames(d + e)
  {
    forall k | 0 <= k < |d + e|
      ensures (d + e)[k] != [] && Normalized((d + e)[k]) && ',' !in (d + e)[k]
    {
      if k < |d| {
        assert (d + e)[k] == d[k];
      } else {
        assert (d + e)[k] == e[k - |d|];
      }
    }
  }

  /** The names of one part are non-empty, normalised and comma-free. */
  lemma PartNamesClean(p: string)
    ensures CleanNames(PartNames(p))
  {
    if p != [] {
      NonEmptyTokensClean(Split(CommaOrWordAnd, StripBy(p)));
    }
  }

  /** The names of all parts, in order, before de-duplication. */
  function AllNames(parts: seq<string>): seq<string>
  {
    if parts == [] then []
    else AllNames(parts[..|parts| - 1]) + PartNames(parts[|parts| - 1])
  }

  /** Every name of every part is non-empty, normalised and comma-free. */
  lemma {:induction false} AllNamesClean(parts: seq<string>)
    ensures CleanNames(AllNames(parts))
  {
    if parts != [] {
      AllNamesClean(parts[..|parts| - 1]);
      PartNamesClean(parts[|parts| - 1]);
      CleanNamesConcat(AllNames(parts[..|parts| - 1]), PartNames(parts[|parts| - 1]));
    }
  }

  /** What `clean_authors(raw)` returns. */
  function CleanAuthors(raw: AuthorsArg): seq<string>
  {
    Dedup(AllNames(Parts(raw)))
  }

  /** `clean_authors`: the nested loop over parts and tokens, with `name not in names`. */
  method CleanAuthorsLoop(raw: AuthorsArg) returns (names: seq<string>)
    ensures names == CleanAuthors(raw)
  {
    if raw.NoAuthors? {
      return [];
    }
    var parts := if raw.OneString? then [raw.s] else raw.items;
    names := [];
    for i := 0 to |parts|
      invariant names == Dedup(AllNames(parts[..i]))
    {
      var p := parts[i];
      Seqs.PrefixSnoc(parts, i);
      AllNamesSnoc(parts[..i], p);
      names := AddPartNames(names, p, AllNames(parts[..i]));
    }
    Seqs.PrefixAll(parts);
  }

  /** One pass of the outer loop of `clean_authors`: skip an empty part, else add its tokens. */
  method AddPartNames(names: seq<string>, p: string, ghost before: seq<string>) returns (out: seq<string>)
    requires names == Dedup(before)
    ensures out == Dedup(before + PartNames(p))
  {
    if p == [] {
      assert before + PartNames(p) == before;
      return names;
    }
    var q := StripBy(p);
    var tokens := Split(CommaOrWordAnd, q);
    out := AddTokenNames(names, tokens, before);
  }

  /** The inner loop of `clean_authors`: the tokens of one part, appended unless already present. */
  method AddTokenNames(names: seq<string>, tokens: seq<string>, ghost before: seq<string>)
    returns (out: seq<string>)
    requires names == Dedup(before)
    ensures out == Dedup(before + NonEmptyTokens(tokens))
  {
    out := names;
    assert tokens[..0] == [];
    assert before + NonEmptyTokens(tokens[..0]) == before;
    for j := 0 to |tokens|
      invariant out == Dedup(before + NonEmptyTokens(tokens[..j]))
    {
      out := AddToken(out, tokens, j, before);
    }
    Seqs.PrefixAll(tokens);
  }

  /** The body of the inner loop: clean one token and append it unless empty or already present. */
  method AddToken(names: seq<string>, tokens: seq<string>, j: nat, ghost before: seq<string>)
    returns (out: seq<string>)
    requires j < |tokens|
    requires names == Dedup(before + NonEmptyTokens(tokens[..j]))
    ensures out == Dedup(before + NonEmptyTokens(tokens[..j + 1]))
  {
    AddTokenStep(before, tokens, j, names);
    var name := CleanToken(tokens[j]);
    if name == [] {
      return names;
    }
    out := names;
    if name !in out {
      out := out + [name];
    }
  }

  /** One pass of the inner loop keeps `out` the de-duplication of the names so far. */
  lemma AddTokenStep(before: seq<string>, tokens: seq<string>, j: nat, out: seq<string>)
    requires j < |tokens|
    requires out == Dedup(before + NonEmptyTokens(tokens[..j]))
    ensures Dedup(before + NonEmptyTokens(tokens[..j + 1])) ==
      if CleanToken(tokens[j]) == [] || CleanToken(tokens[j]) in out then out
      else out + [CleanToken(tokens[j])]
  {
    Seqs.PrefixSnoc(tokens, j);
    NonEmptyTokensSnoc(tokens[..j], tokens[j]);
    var name := CleanToken(tokens[j]);
    var acc := before + NonEmptyTokens(tokens[..j]);
    if name != [] {
      assert before + NonEmptyTokens(tokens[..j + 1]) == acc + [name];
      DedupSnoc(acc, name);
    }
  }

  lemma AllNamesSnoc(xs: seq<string>, p: string)
    ensures AllNames(xs + [p]) == AllNames(xs) + PartNames(p)
  {
    assert (xs + [p])[..|xs|] == xs;
  }

  lemma NonEmptyTokensSnoc(ts: seq<string>, t: string)
    ensures NonEmptyTokens(ts + [t]) ==
      if CleanToken(t) == [] then NonEmptyTokens(ts) else NonEmptyTokens(ts) + [CleanToken(t)]
  {
    assert (ts + [t])[..|ts|] == ts;
  }

  /** `clean_authors_list` is `clean_authors`. */
  method CleanAuthorsList(raw: AuthorsArg) returns (names: seq<string>)
    ensures names == CleanAuthors(raw)
  {
    names := CleanAuthorsLoop(raw);
  }

  /** `clean_authors(None)` is empty, and one string is read as a one-element list. */
  lemma CleanAuthorsArgs(s: string)
    ensures CleanAuthors(NoAuthors) == []
    ensures CleanAuthors(OneString(s)) == CleanAuthors(ManyStrings([s]))
  {
  }

  /**
   * `clean_authors`: non-empty, whitespace-normalised, comma-free, pairwise
   * distinct names; a name is in the result exactly when some part yields it.
   */
  lemma CleanAuthorsProperties(raw: AuthorsArg)
    ensures Distinct(CleanAuthors(raw))
    ensures forall k :: 0 <= k < |CleanAuthors(raw)| ==>
      CleanAuthors(raw)[k] != [] && Normalized(CleanAuthors(raw)[k]) && ',' !in CleanAuthors(raw)[k]
    ensures forall x :: x in CleanAuthors(raw) <==> x in AllNames(Parts(raw))
  {
    var a := AllNames(Parts(raw));
    var r := Dedup(a);
    AllNamesClean(Parts(raw));
    DedupSpec(a);
    forall k | 0 <= k < |r| ensures r[k] != [] && Normalized(r[k]) && ',' !in r[k] {
      var j := FirstIndex(a, r[k]);
    }
    forall x ensures x in r <==> x in a {
      DedupMember(a, x);
    }
  }

  /** The names keep the order of their first occurrence. */
  lemma CleanAuthorsOrder(raw: AuthorsArg)
    ensures forall i, j :: 0 <= i < j < |CleanAuthors(raw)| ==>
      FirstIndex(AllNames(Parts(raw)), CleanAuthors(raw)[i]) <
      FirstIndex(AllNames(Parts(raw)), CleanAuthors(raw)[j])
  {
    DedupOrder(AllNames(Parts(raw)));
  }

  /** A leading "By " is dropped before splitting. */
  lemma CleanAuthorsBy(gap: string, name: string)
    requires gap != [] && forall i :: 0 <= i < |gap| ==> IsSpace(gap[i])
    requires name == [] || !IsSpace(name[0])
    ensures PartNames("By" + gap + name) ==
      (if name == [] then [] else NonEmptyTokens(Split(CommaOrWordAnd, name)))
  {
    StripByPrefix([], 'B', 'y', gap, name);
    assert [] + ['B', 'y'] + gap + name == "By" + gap + name;
  }
}
