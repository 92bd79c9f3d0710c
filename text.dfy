/**
 * Whitespace handling shared by every extractor.
 *
 * Python's `str.split()` and the regular-expression class `\s` agree on
 * which characters are whitespace; `IsSpace` is that set.  Two ways of
 * normalising a string occur in the repository:
 *   - `" ".join(s.split())`  (`Collapse`: split into words, join with one space);
 *   - `re.sub(r"\s+", " ", s.strip())`  (`NormSpace`: strip, then replace every
 *     run of whitespace by one space).
 * `NormSpaceIsCollapse` proves that both give the same string.
 */
module Text {
  import Seqs

  /** The characters for which Python's `str.isspace()` holds. */
  predicate IsSpace(c: char)
  {
    c == ' ' || ('\t' <= c <= '\r') || ('\U{1C}' <= c <= '\U{1F}') ||
    c == '\U{85}' || c == '\U{A0}' || c == '\U{1680}' ||
    ('\U{2000}' <= c <= '\U{200A}') || c == '\U{2028}' || c == '\U{2029}' ||
    c == '\U{202F}' || c == '\U{205F}' || c == '\U{3000}'
  }

  predicate NoSpace(s: string)
  {
    forall i :: 0 <= i < |s| ==> !IsSpace(s[i])
  }

  /**
   * A normalised string: every whitespace character in it is a plain space
   * that sits strictly inside the string and is followed by a
   * non-whitespace character.  So there is no leading or trailing
   * whitespace and no run of two whitespace characters.
   */
  predicate Normalized(s: string)
  {
    forall i :: 0 <= i < |s| && IsSpace(s[i]) ==>
      s[i] == ' ' && 0 < i && i + 1 < |s| && !IsSpace(s[i + 1])
  }

  /** Leading whitespace removed (`str.lstrip()`). */
  function DropSpaces(s: string): (r: string)
    ensures |r| <= |s|
    ensures r == [] || !IsSpace(r[0])
  {
    if s != [] && IsSpace(s[0]) then DropSpaces(s[1..]) else s
  }

  lemma {:induction false} DropSpacesSuffix(s: string)
    ensures DropSpaces(s) == s[|s| - |DropSpaces(s)|..]
    ensures forall i :: 0 <= i < |s| - |DropSpaces(s)| ==> IsSpace(s[i])
  {
    if s != [] && IsSpace(s[0]) {
      DropSpacesSuffix(s[1..]);
    }
  }

  /** Trailing whitespace removed (`str.rstrip()`). */
  function DropTrailingSpaces(s: string): (r: string)
    ensures |r| <= |s| && r == s[..|r|]
    ensures r == [] || !IsSpace(r[|r| - 1])
    ensures forall i :: |r| <= i < |s| ==> IsSpace(s[i])
  {
    if s != [] && IsSpace(s[|s| - 1]) then DropTrailingSpaces(s[..|s| - 1]) else s
  }

  /** `str.strip()` */
  function Strip(s: string): (r: string)
    ensures r == [] || (!IsSpace(r[0]) && !IsSpace(r[|r| - 1]))
  {
    DropTrailingSpaces(DropSpaces(s))
  }

  /** The longest prefix without whitespace. */
  function TakeWord(s: string): (w: string)
    ensures |w| <= |s| && w == s[..|w|]
    ensures NoSpace(w)
    ensures |w| == |s| || IsSpace(s[|w|])
  {
    if s == [] || IsSpace(s[0]) then [] else [s[0]] + TakeWord(s[1..])
  }

  /** `str.split()` with no argument: the maximal whitespace-free pieces, in order. */
  function Words(s: string): (ws: seq<string>)
    ensures forall k :: 0 <= k < |ws| ==> ws[k] != [] && NoSpace(ws[k])
    decreases |s|
  {
    var t := DropSpaces(s);
    if t == [] then []
    else
      var w := TakeWord(t);
      assert |w| > 0;
      var rest := Words(t[|w|..]);
      assert forall k :: 1 <= k < |rest| + 1 ==> ([w] + rest)[k] == rest[k - 1];
      [w] + rest
  }

  /** `" ".join(ws)` */
  function JoinSpace(ws: seq<string>): string
  {
    if |ws| == 0 then ""
    else if |ws| == 1 then ws[0]
    else ws[0] + " " + JoinSpace(ws[1..])
  }

  /** `" ".join(s.split())` */
  function Collapse(s: string): (r: string)
    ensures Normalized(r)
  {
    JoinSpaceNormalized(Words(s));
    JoinSpace(Words(s))
  }

  predicate ProperWords(ws: seq<string>)
  {
    forall k :: 0 <= k < |ws| ==> ws[k] != [] && NoSpace(ws[k])
  }

  lemma {:induction false} JoinSpaceNormalized(ws: seq<string>)
    requires ProperWords(ws)
    ensures Normalized(JoinSpace(ws))
    ensures ws != [] ==> JoinSpace(ws) != [] && !IsSpace(JoinSpace(ws)[0])
  {
    if |ws| == 1 {
    } else if |ws| > 1 {
      var rest := JoinSpace(ws[1..]);
      JoinSpaceNormalized(ws[1..]);
      var w := ws[0];
      var t := w + " " + rest;
      assert JoinSpace(ws) == t;
      assert forall j :: 0 <= j < |w| ==> t[j] == w[j];
      forall i | 0 <= i < |t| && IsSpace(t[i])
        ensures t[i] == ' ' && 0 < i && i + 1 < |t| && !IsSpace(t[i + 1])
      {
        if i == |w| {
          assert t[i + 1] == rest[0];
        } else if i > |w| {
          assert t[i] == rest[i - |w| - 1];
          if i + 1 < |t| {
            assert t[i + 1] == rest[i - |w|];
          }
        }
      }
    }
  }

  lemma {:induction false} TakeWordOf(w: string, r: string)
    requires NoSpace(w)
    requires r == [] || IsSpace(r[0])
    ensures TakeWord(w + r) == w
  {
    if w != [] {
      assert (w + r)[0] == w[0];
      assert (w + r)[1..] == w[1..] + r;
      TakeWordOf(w[1..], r);
    } else {
      assert w + r == r;
    }
  }

  lemma WordsAfterSpace(c: char, r: string)
    requires IsSpace(c)
    ensures Words([c] + r) == Words(r)
  {
    assert ([c] + r)[1..] == r;
    assert DropSpaces([c] + r) == DropSpaces(r);
  }

  /** One step of `Words` on a string that starts with a non-space. */
  lemma WordsStep(t: string, w: string)
    requires t != [] && !IsSpace(t[0])
    requires w == TakeWord(t)
    ensures Words(t) == [w] + Words(t[|w|..])
  {
  }

  /** Splitting what was joined gives back the words. */
  lemma {:induction false} WordsOfJoin(ws: seq<string>)
    requires ProperWords(ws)
    ensures Words(JoinSpace(ws)) == ws
  {
    if |ws| == 1 {
      var w := ws[0];
      TakeWordOf(w, []);
      assert w + [] == w;
      WordsStep(w, w);
      assert w[|w|..] == [];
    } else if |ws| > 1 {
      var w := ws[0];
      var rest := JoinSpace(ws[1..]);
      JoinSpaceNormalized(ws[1..]);
      var t := w + ([' '] + rest);
      JoinSpaceShape(ws);
      TakeWordOf(w, [' '] + rest);
      WordsStep(t, w);
      WordsAfterSpace(' ', rest);
      WordsOfJoin(ws[1..]);
      Seqs.ConsFirst(ws);
    }
  }

  /** The join of two or more words is the first word, a space, and the join of the rest. */
  lemma JoinSpaceShape(ws: seq<string>)
    requires |ws| > 1 && ws[0] != []
    ensures var t := ws[0] + ([' '] + JoinSpace(ws[1..]));
      JoinSpace(ws) == t && t[0] == ws[0][0] && t[|ws[0]|..] == [' '] + JoinSpace(ws[1..])
  {
    var w, rest := ws[0], JoinSpace(ws[1..]);
    assert w + " " + rest == w + ([' '] + rest);
    assert (w + ([' '] + rest))[|w|..] == [' '] + rest;
  }

  lemma NormalizedSuffix(t: string, k: nat)
    requires Normalized(t)
    requires 0 < k <= |t| && IsSpace(t[k - 1])
    ensures Normalized(t[k..])
  {
    var u := t[k..];
    forall i | 0 <= i < |u| && IsSpace(u[i])
      ensures u[i] == ' ' && 0 < i && i + 1 < |u| && !IsSpace(u[i + 1])
    {
      assert u[i] == t[k + i];
      if i + 1 < |u| {
        assert u[i + 1] == t[k + i + 1];
      }
    }
  }

  /** A normalised string is the only normalised string with its words. */
  lemma {:induction false} JoinWordsOfNormalized(t: string)
    requires Normalized(t)
    ensures JoinSpace(Words(t)) == t
    decreases |t|
  {
    if t != [] {
      var w := TakeWord(t);
      if |w| == |t| {
        WordsStep(t, w);
        assert t[|w|..] == [];
      } else {
        var rest := t[|w| + 1..];
        NormalizedWordBreak(t, w);
        JoinWordsOfNormalized(rest);
        JoinSpaceCons(w, Words(rest));
      }
    }
  }

  /** Where the first word of a normalised string ends, one space and another word follow. */
  lemma NormalizedWordBreak(t: string, w: string)
    requires Normalized(t) && t != []
    requires w == TakeWord(t) && |w| < |t|
    ensures t == w + " " + t[|w| + 1..]
    ensures Normalized(t[|w| + 1..])
    ensures Words(t) == [w] + Words(t[|w| + 1..])
    ensures Words(t[|w| + 1..]) != []
  {
    var rest := t[|w| + 1..];
    NormalizedBreakShape(t, w);
    WordsStep(t, w);
    WordsAfterSpace(' ', rest);
    WordsStep(rest, TakeWord(rest));
  }

  lemma NormalizedBreakShape(t: string, w: string)
    requires Normalized(t) && t != []
    requires w == TakeWord(t) && |w| < |t|
    ensures t == w + " " + t[|w| + 1..]
    ensures t[|w|..] == [' '] + t[|w| + 1..]
    ensures Normalized(t[|w| + 1..])
    ensures t[|w| + 1..] != [] && !IsSpace(t[|w| + 1..][0])
  {
    var i := |w|;
    assert t[i] == ' ' && !IsSpace(t[i + 1]);
    NormalizedSuffix(t, i + 1);
    SplitAt(t, i);
  }

  /** A string around one of its characters. */
  lemma SplitAt(t: string, i: nat)
    requires i < |t|
    ensures t == t[..i] + [t[i]] + t[i + 1..]
    ensures t[i..] == [t[i]] + t[i + 1..]
    ensures i + 1 < |t| ==> t[i + 1..][0] == t[i + 1]
  {
  }

  lemma JoinSpaceCons(w: string, ws: seq<string>)
    requires ws != []
    ensures JoinSpace([w] + ws) == w + " " + JoinSpace(ws)
  {
    assert ([w] + ws)[1..] == ws;
  }

  /** Collapsing leaves a normalised string unchanged. */
  lemma CollapseNormalized(t: string)
    requires Normalized(t)
    ensures Collapse(t) == t
  {
    JoinWordsOfNormalized(t);
  }

  /** `" ".join(s.split())` is idempotent. */
  lemma CollapseIdempotent(s: string)
    ensures Collapse(Collapse(s)) == Collapse(s)
  {
    CollapseNormalized(Collapse(s));
  }

  /** Collapsing keeps the words of the input, in order. */
  lemma CollapseWords(s: string)
    ensures Words(Collapse(s)) == Words(s)
  {
    WordsOfJoin(Words(s));
  }

  lemma WordsDropSpaces(x: string)
    ensures Words(DropSpaces(x)) == Words(x)
  {
    var d := DropSpaces(x);
    assert DropSpaces(d) == d;
  }

  /** How `Words` sees a non-space character put in front of a string. */
  lemma ConsWord(c: char, y: string)
    requires !IsSpace(c)
    ensures y == [] || IsSpace(y[0]) ==> Words([c] + y) == [[c]] + Words(y)
    ensures y != [] && !IsSpace(y[0]) ==>
      Words(y) != [] && Words([c] + y) == [[c] + Words(y)[0]] + Words(y)[1..]
  {
    var x := [c] + y;
    assert x[1..] == y;
    var w := TakeWord(x);
    assert w == [c] + TakeWord(y);
    WordsStep(x, w);
    assert x[|w|..] == y[|TakeWord(y)|..];
    if y != [] && !IsSpace(y[0]) {
      WordsStep(y, TakeWord(y));
    }
  }

  /** A whitespace character at the end adds no word. */
  lemma {:induction false} WordsAppendSpace(x: string, c: char)
    requires IsSpace(c)
    ensures Words(x + [c]) == Words(x)
    decreases |x|
  {
    if x == [] {
      WordsAfterSpace(c, []);
      assert [c] + [] == [c];
    } else {
      var y := x[1..];
      assert x == [x[0]] + y;
      assert x + [c] == [x[0]] + (y + [c]);
      WordsAppendSpace(y, c);
      if IsSpace(x[0]) {
        WordsAfterSpace(x[0], y + [c]);
        WordsAfterSpace(x[0], y);
      } else {
        ConsWord(x[0], y + [c]);
        ConsWord(x[0], y);
        if y != [] {
          assert (y + [c])[0] == y[0];
        } else {
          assert y + [c] == [c];
          assert Words([c]) == [] by { WordsAfterSpace(c, []); assert [c] + [] == [c]; }
        }
      }
    }
  }

  lemma {:induction false} WordsDropTrailing(y: string)
    ensures Words(DropTrailingSpaces(y)) == Words(y)
    decreases |y|
  {
    if y != [] && IsSpace(y[|y| - 1]) {
      var z := y[..|y| - 1];
      assert y == z + [y[|y| - 1]];
      WordsAppendSpace(z, y[|y| - 1]);
      WordsDropTrailing(z);
    }
  }

  /** Stripping changes no word. */
  lemma WordsStrip(s: string)
    ensures Words(Strip(s)) == Words(s)
  {
    WordsDropTrailing(DropSpaces(s));
    WordsDropSpaces(s);
  }

  /**
   * `re.sub(r"\s+", " ", s)`: every maximal run of whitespace becomes one
   * plain space.
   */
  function CollapseRuns(s: string): (r: string)
    ensures |r| == 0 <==> |s| == 0
    ensures s != [] ==> (IsSpace(r[0]) <==> IsSpace(s[0]))
    ensures s != [] ==> (IsSpace(r[|r| - 1]) <==> IsSpace(s[|s| - 1]))
    ensures RunsCollapsed(r)
    decreases |s|
  {
    if s == [] then []
    else if IsSpace(s[0]) then
      var d := DropSpaces(s);
      assert |d| < |s| by { assert d == DropSpaces(s[1..]); }
      DropSpacesSuffix(s);
      var rest := CollapseRuns(d);
      assert d != [] ==> d[|d| - 1] == s[|s| - 1];
      ConsRunsCollapsed(' ', rest);
      [' '] + rest
    else
      var rest := CollapseRuns(s[1..]);
      ConsRunsCollapsed(s[0], rest);
      [s[0]] + rest
  }

  /** Every whitespace character is a plain space with no whitespace right after it. */
  predicate RunsCollapsed(r: string)
  {
    forall i :: 0 <= i < |r| && IsSpace(r[i]) ==> r[i] == ' ' && (i + 1 == |r| || !IsSpace(r[i + 1]))
  }

  lemma ConsRunsCollapsed(c: char, rest: string)
    requires RunsCollapsed(rest)
    requires IsSpace(c) ==> c == ' ' && (rest == [] || !IsSpace(rest[0]))
    ensures RunsCollapsed([c] + rest) && ([c] + rest)[0] == c
    ensures rest != [] ==> ([c] + rest)[|rest|] == rest[|rest| - 1]
  {
    var r := [c] + rest;
    forall i | 0 <= i < |r| && IsSpace(r[i])
      ensures r[i] == ' ' && (i + 1 == |r| || !IsSpace(r[i + 1]))
    {
      if i > 0 {
        assert r[i] == rest[i - 1];
      }
      if i + 1 < |r| {
        assert r[i + 1] == rest[i];
      }
    }
  }

  /** Collapsing runs keeps the words. */
  lemma {:induction false} WordsCollapseRuns(x: string)
    ensures Words(CollapseRuns(x)) == Words(x)
    decreases |x|
  {
    if x != [] {
      if IsSpace(x[0]) {
        var d := DropSpaces(x);
        assert d == DropSpaces(x[1..]);
        WordsCollapseRuns(d);
        WordsAfterSpace(' ', CollapseRuns(d));
        WordsDropSpaces(x);
      } else {
        var y := x[1..];
        assert x == [x[0]] + y;
        WordsCollapseRuns(y);
        ConsWord(x[0], y);
        ConsWord(x[0], CollapseRuns(y));
      }
    }
  }

  /** `re.sub(r"\s+", " ", s.strip())` */
  function NormSpace(s: string): string
  {
    CollapseRuns(Strip(s))
  }

  /** Both normalisations used in the repository give the same string. */
  lemma NormSpaceIsCollapse(s: string)
    ensures NormSpace(s) == Collapse(s)
  {
    var t := NormSpace(s);
    assert Normalized(t);
    JoinWordsOfNormalized(t);
    WordsCollapseRuns(Strip(s));
    WordsStrip(s);
  }

  /** A slice of a string with collapsed runs has collapsed runs. */
  lemma RunsCollapsedSlice(r: string, a: nat, b: nat)
    requires RunsCollapsed(r) && a <= b <= |r|
    ensures RunsCollapsed(r[a..b])
  {
    var t := r[a..b];
    forall i | 0 <= i < |t| && IsSpace(t[i])
      ensures t[i] == ' ' && (i + 1 == |t| || !IsSpace(t[i + 1]))
    {
      assert t[i] == r[a + i];
      if i + 1 < |t| {
        assert t[i + 1] == r[a + i + 1];
      }
    }
  }

  /** Stripping a string with collapsed runs normalises it. */
  lemma StripRunsCollapsed(c: string)
    requires RunsCollapsed(c)
    ensures Normalized(Strip(c))
  {
    DropSpacesSuffix(c);
    var d := DropSpaces(c);
    RunsCollapsedSlice(c, |c| - |d|, |c|);
    RunsCollapsedSlice(d, 0, |Strip(c)|);
  }

  /**
   * `re.sub(r"\s+", " ", s).strip()`, the order `_normalize_author` uses,
   * also equals `" ".join(s.split())`.
   */
  lemma StripCollapseRuns(s: string)
    ensures Strip(CollapseRuns(s)) == Collapse(s)
  {
    var c := CollapseRuns(s);
    StripRunsCollapsed(c);
    JoinWordsOfNormalized(Strip(c));
    WordsStrip(c);
    WordsCollapseRuns(s);
  }

  // ----- characters that normalisation cannot introduce -----

  /** Stripping only removes characters. */
  lemma StripExclude(s: string, c: char)
    requires c !in s
    ensures c !in Strip(s)
  {
    DropSpacesSuffix(s);
    var d := DropSpaces(s);
    assert forall i :: 0 <= i < |d| ==> d[i] == s[|s| - |d| + i];
    var t := DropTrailingSpaces(d);
    assert forall i :: 0 <= i < |t| ==> t[i] == d[i];
  }

  /** No word contains a character the string lacks. */
  lemma {:induction false} WordsExclude(s: string, c: char)
    requires c !in s
    ensures forall k :: 0 <= k < |Words(s)| ==> c !in Words(s)[k]
    decreases |s|
  {
    DropSpacesSuffix(s);
    var t := DropSpaces(s);
    SliceExclude(s, |s| - |t|, |s|, c);
    assert s[|s| - |t|..|s|] == t;
    if t != [] {
      var w := TakeWord(t);
      var u := t[|w|..];
      SliceExclude(t, 0, |w|, c);
      SliceExclude(t, |w|, |t|, c);
      assert t[0..|w|] == w && t[|w|..|t|] == u;
      WordsExclude(u, c);
      ConsExclude(w, Words(u), c);
    }
  }

  /** A slice lacks what the whole string lacks. */
  lemma SliceExclude(s: string, i: nat, j: nat, c: char)
    requires i <= j <= |s| && c !in s
    ensures c !in s[i..j]
  {
    assert forall k :: 0 <= k < j - i ==> s[i..j][k] == s[i + k];
  }

  lemma ConsExclude(w: string, ws: seq<string>, c: char)
    requires c !in w
    requires forall k :: 0 <= k < |ws| ==> c !in ws[k]
    ensures forall k :: 0 <= k < |[w] + ws| ==> c !in ([w] + ws)[k]
  {
    forall k | 0 <= k < |[w] + ws|
      ensures c !in ([w] + ws)[k]
    {
      if k > 0 {
        assert ([w] + ws)[k] == ws[k - 1];
      }
    }
  }

  /** Joining with single spaces adds no character other than ' '. */
  lemma {:induction false} JoinSpaceExclude(ws: seq<string>, c: char)
    requires c != ' '
    requires forall k :: 0 <= k < |ws| ==> c !in ws[k]
    ensures c !in JoinSpace(ws)
  {
    if |ws| > 1 {
      JoinSpaceExclude(ws[1..], c);
      assert forall k :: 0 <= k < |ws| - 1 ==> ws[1..][k] == ws[k + 1];
      var j := JoinSpace(ws[1..]);
      assert JoinSpace(ws) == ws[0] + " " + j;
      assert c !in ws[0] + " ";
    }
  }

  /** `" ".join(s.split())` introduces no character other than ' '. */
  lemma CollapseExclude(s: string, c: char)
    requires c != ' ' && c !in s
    ensures c !in Collapse(s)
  {
    WordsExclude(s, c);
    JoinSpaceExclude(Words(s), c);
  }

  /** Leading whitespace in front of a string is all that `DropSpaces` removes. */
  lemma {:induction false} DropSpacesAppend(lead: string, x: string)
    requires forall i :: 0 <= i < |lead| ==> IsSpace(lead[i])
    requires x == [] || !IsSpace(x[0])
    ensures DropSpaces(lead + x) == x
  {
    if lead != [] {
      assert (lead + x)[1..] == lead[1..] + x;
      DropSpacesAppend(lead[1..], x);
    }
  }

  /**
   * `StripBy` removes exactly one leading "by": optional whitespace, "b"/"B",
   * "y"/"Y", at least one whitespace character, and nothing of the name.
   */
  lemma StripByPrefix(lead: string, b: char, y: char, gap: string, name: string)
    requires forall i :: 0 <= i < |lead| ==> IsSpace(lead[i])
    requires b in "bB" && y in "yY"
    requires gap != [] && forall i :: 0 <= i < |gap| ==> IsSpace(gap[i])
    requires name == [] || !IsSpace(name[0])
    ensures StripBy(lead + [b, y] + gap + name) == name
  {
    var s := lead + [b, y] + gap + name;
    assert s == lead + ([b, y] + gap + name);
    DropSpacesAppend(lead, [b, y] + gap + name);
    var t := [b, y] + gap + name;
    assert t[2..] == gap + name;
    assert IsSpace(t[2]);
    DropSpacesAppend(gap, name);
  }

  /** A string that does not start with optional whitespace and "by" plus whitespace is unchanged. */
  lemma StripByNoop(s: string)
    requires DropSpaces(s) == [] || LowerChar(DropSpaces(s)[0]) != 'b'
    ensures StripBy(s) == s
  {
  }

  // ----- prefix, suffix and substring tests -----

  /** `s.startswith(p)` */
  predicate StartsWith(s: string, p: string)
  {
    |p| <= |s| && s[..|p|] == p
  }

  /** `s.endswith(p)` */
  predicate EndsWith(s: string, p: string)
  {
    |p| <= |s| && s[|s| - |p|..] == p
  }

  /** `p in s` for strings. */
  predicate Contains(s: string, p: string)
    decreases |s|
  {
    StartsWith(s, p) || (s != [] && Contains(s[1..], p))
  }

  lemma {:induction false} ContainsAt(s: string, p: string, i: nat)
    requires i + |p| <= |s| && s[i..i + |p|] == p
    ensures Contains(s, p)
    decreases i
  {
    if i > 0 {
      assert s[1..][i - 1..i - 1 + |p|] == s[i..i + |p|];
      ContainsAt(s[1..], p, i - 1);
    }
  }

  /** `s.count(c)` for a one-character string `c`. */
  function CountChar(s: string, c: char): nat
  {
    if s == [] then 0 else (if s[0] == c then 1 else 0) + CountChar(s[1..], c)
  }

  /** `s.lower()`, for the ASCII letters. */
  function Lower(s: string): (r: string)
    ensures |r| == |s|
    ensures forall i :: 0 <= i < |s| ==> r[i] == LowerChar(s[i])
  {
    if s == [] then [] else [LowerChar(s[0])] + Lower(s[1..])
  }

  function LowerChar(c: char): char
  {
    if 'A' <= c <= 'Z' then (c as int + 32) as char else c
  }

  /** `s.strip(c)` for one character `c`. */
  function StripChar(s: string, c: char): string
  {
    DropTrailingChar(DropLeadingChar(s, c), c)
  }

  function DropLeadingChar(s: string, c: char): string
  {
    if s != [] && s[0] == c then DropLeadingChar(s[1..], c) else s
  }

  function DropTrailingChar(s: string, c: char): string
  {
    if s != [] && s[|s| - 1] == c then DropTrailingChar(s[..|s| - 1], c) else s
  }

  // ----- author-name clean-up -----

  predicate IsCommaOrSpace(c: char)
  {
    c == ',' || IsSpace(c)
  }

  /**
   * `re.sub(r"[,\s]+$", "", s)`: the longest run of commas and whitespace at
   * the end of `s` is removed.
   */
  function TrimTrailingCommas(s: string): (r: string)
    ensures |r| <= |s| && r == s[..|r|]
    ensures r == [] || !IsCommaOrSpace(r[|r| - 1])
    ensures forall i :: |r| <= i < |s| ==> IsCommaOrSpace(s[i])
  {
    if s != [] && IsCommaOrSpace(s[|s| - 1]) then TrimTrailingCommas(s[..|s| - 1]) else s
  }

  /** Removing a suffix from a normalised string whose new last character is not a space keeps it normalised. */
  lemma NormalizedPrefix(s: string, n: nat)
    requires Normalized(s) && n <= |s|
    requires n == 0 || !IsSpace(s[n - 1])
    ensures Normalized(s[..n])
  {
    var u := s[..n];
    forall i | 0 <= i < |u| && IsSpace(u[i])
      ensures u[i] == ' ' && 0 < i && i + 1 < |u| && !IsSpace(u[i + 1])
    {
      assert u[i] == s[i];
      if i + 1 < |u| {
        assert u[i + 1] == s[i + 1];
      }
    }
  }

  /** Trimming trailing commas from an already trimmed string changes nothing. */
  lemma TrimTrailingCommasNoop(s: string)
    requires s == [] || !IsCommaOrSpace(s[|s| - 1])
    ensures TrimTrailingCommas(s) == s
  {
  }

  /**
   * `re.sub(r"^\s*by\s+", "", s, flags=re.I)`: a leading "by" (any case)
   * between optional whitespace and at least one whitespace character is
   * removed together with that whitespace; otherwise `s` is unchanged.
   */
  function StripBy(s: string): (r: string)
    ensures |r| <= |s|
  {
    var t := DropSpaces(s);
    if |t| >= 3 && LowerChar(t[0]) == 'b' && LowerChar(t[1]) == 'y' && IsSpace(t[2])
    then DropSpaces(t[2..])
    else s
  }

  // ----- splitting author lists -----

  /** The two separator patterns used to split author lists. */
  datatype SplitStyle =
    | CommaOrWordAnd    // re.split(r",|\band\b", s)
    | CommaOrSpacedAnd  // re.split(r",| and ", s)

  /** `\w` for the ASCII range. */
  predicate IsWordChar(c: char)
  {
    ('a' <= c <= 'z') || ('A' <= c <= 'Z') || ('0' <= c <= '9') || c == '_'
  }

  /** Length of the separator that matches at position `i` of `s`, or 0. */
  function SepAt(style: SplitStyle, s: string, i: nat): (n: nat)
    requires i <= |s|
    ensures i + n <= |s|
    ensures n > 0 || i == |s| || s[i] != ','
  {
    if i < |s| && s[i] == ',' then 1
    else match style
      case CommaOrWordAnd =>
        if i + 3 <= |s| && s[i] == 'a' && s[i + 1] == 'n' && s[i + 2] == 'd' &&
           (i == 0 || !IsWordChar(s[i - 1])) &&
           (i + 3 == |s| || !IsWordChar(s[i + 3]))
        then 3 else 0
      case CommaOrSpacedAnd =>
        if i + 5 <= |s| && s[i] == ' ' && s[i + 1] == 'a' && s[i + 2] == 'n' && s[i + 3] == 'd' &&
           s[i + 4] == ' '
        then 5 else 0
  }

  /** `re.split(pattern, s)`: the pieces between left-to-right separator matches. */
  function Split(style: SplitStyle, s: string): (r: seq<string>)
    ensures |r| >= 1
    ensures forall k :: 0 <= k < |r| ==> ',' !in r[k]
    ensures style == CommaOrSpacedAnd ==> forall k :: 0 <= k < |r| ==> !Contains(r[k], " and ")
  {
    SplitFromPieces(style, s, 0, 0);
    PiecesHaveNoSeparator(style, SplitFrom(style, s, 0, 0));
    SplitFrom(style, s, 0, 0)
  }

  /** The scan from `i`, with the current piece starting at `start`. */
  function SplitFrom(style: SplitStyle, s: string, start: nat, i: nat): (r: seq<string>)
    requires start <= i <= |s|
    ensures |r| >= 1
    decreases |s| - i
  {
    if i == |s| then
      [s[start..i]]
    else
      var n := SepAt(style, s, i);
      if n > 0 then
        [s[start..i]] + SplitFrom(style, s, i + n, i + n)
      else
        SplitFrom(style, s, start, i + 1)
  }

  /** Pieces without a separator match hold no comma, and for the spaced pattern no `" and "`. */
  lemma PiecesHaveNoSeparator(style: SplitStyle, r: seq<string>)
    requires forall k :: 0 <= k < |r| ==> NoSeparator(style, r[k])
    ensures forall k :: 0 <= k < |r| ==> ',' !in r[k]
    ensures style == CommaOrSpacedAnd ==> forall k :: 0 <= k < |r| ==> !Contains(r[k], " and ")
  {
    forall k | 0 <= k < |r|
      ensures ',' !in r[k] && (style == CommaOrSpacedAnd ==> !Contains(r[k], " and "))
    {
      assert r[k][0..|r[k]|] == r[k];
      NoSeparatorInPiece(style, r[k], 0, |r[k]|);
    }
  }

  /** A piece between two separator matches contains no separator. */
  lemma NoSeparatorInPiece(style: SplitStyle, s: string, start: nat, i: nat)
    requires start <= i <= |s|
    requires forall j :: start <= j < i ==> SepAt(style, s, j) == 0
    ensures ',' !in s[start..i]
    ensures style == CommaOrSpacedAnd ==> !Contains(s[start..i], " and ")
  {
    var u := s[start..i];
    forall j | 0 <= j < |u| ensures u[j] != ',' {
      assert u[j] == s[start + j];
      assert SepAt(style, s, start + j) == 0;
    }
    if style == CommaOrSpacedAnd {
      NoSpacedAnd(s, start, i);
    }
  }

  lemma {:induction false} NoSpacedAnd(s: string, start: nat, i: nat)
    requires start <= i <= |s|
    requires forall j :: start <= j < i ==> SepAt(CommaOrSpacedAnd, s, j) == 0
    ensures !Contains(s[start..i], " and ")
    decreases i - start
  {
    var u := s[start..i];
    if start < i {
      assert u[1..] == s[start + 1..i];
      NoSpacedAnd(s, start + 1, i);
      assert SepAt(CommaOrSpacedAnd, s, start) == 0;
      assert |u| >= 5 ==> u[..5] == s[start..start + 5];
    } else {
      assert u == [];
    }
  }

  /** No separator of `style` matches anywhere in `t`. */
  predicate NoSeparator(style: SplitStyle, t: string)
  {
    forall j :: 0 <= j <= |t| ==> SepAt(style, t, j) == 0
  }

  /** Text in which no separator matches is split into itself alone. */
  lemma SplitNoSeparator(style: SplitStyle, s: string)
    requires NoSeparator(style, s)
    ensures Split(style, s) == [s]
  {
    SplitFromNoSeparator(style, s, 0);
  }

  lemma {:induction false} SplitFromNoSeparator(style: SplitStyle, s: string, i: nat)
    requires i <= |s| && NoSeparator(style, s)
    ensures SplitFrom(style, s, 0, i) == [s]
    decreases |s| - i
  {
    if i < |s| {
      SplitFromNoSeparator(style, s, i + 1);
    } else {
      assert s[0..|s|] == s;
    }
  }

  /**
   * Where a piece may start: the start of the text, its end, or a position
   * that is not inside a word (the character before or at it is no word
   * character).  Every separator match ends at such a position.
   */
  predicate PieceStart(s: string, start: nat)
    requires start <= |s|
  {
    start == 0 || start == |s| || !IsWordChar(s[start - 1]) || !IsWordChar(s[start])
  }

  lemma SliceOfSlice(s: string, a: nat, b: nat, c: nat, d: nat)
    requires a <= b <= |s| && c <= d <= b - a
    ensures s[a..b][c..d] == s[a + c..a + d]
  {
    forall m | 0 <= m < d - c
      ensures s[a..b][c..d][m] == s[a + c..a + d][m]
    {
      assert s[a..b][c + m] == s[a + c + m];
    }
  }

  /** A separator in a piece is a separator in the text. */
  lemma PieceMatch(style: SplitStyle, s: string, start: nat, i: nat, j: nat)
    requires start <= i <= |s| && PieceStart(s, start)
    requires i == |s| || SepAt(style, s, i) > 0
    requires j < i - start
    ensures SepAt(style, s[start..i], j) > 0 ==> SepAt(style, s, start + j) > 0
  {
    var p := s[start..i];
    assert p[j] == s[start + j];
    match style
    case CommaOrWordAnd =>
      if p[j] != ',' && SepAt(style, p, j) > 0 {
        SliceOfSlice(s, start, i, j, j + 3);
        if j > 0 {
          assert s[start + j - 1] == p[j - 1];
        }
        if j + 3 < |p| {
          assert s[start + j + 3] == p[j + 3];
        } else if i < |s| {
          assert s[i - 1] == p[j + 2] == 'd';
        }
      }
    case CommaOrSpacedAnd =>
      if p[j] != ',' && SepAt(style, p, j) > 0 {
        SliceOfSlice(s, start, i, j, j + 5);
      }
  }

  /** A piece between two separator matches has no separator match of its own. */
  lemma PieceNoSeparator(style: SplitStyle, s: string, start: nat, i: nat)
    requires start <= i <= |s| && PieceStart(s, start)
    requires forall j :: start <= j < i ==> SepAt(style, s, j) == 0
    requires i == |s| || SepAt(style, s, i) > 0
    ensures NoSeparator(style, s[start..i])
  {
    forall j | 0 <= j < i - start
      ensures SepAt(style, s[start..i], j) == 0
    {
      PieceMatch(style, s, start, i, j);
    }
  }

  lemma {:induction false} SplitFromPieces(style: SplitStyle, s: string, start: nat, i: nat)
    requires start <= i <= |s| && PieceStart(s, start)
    requires forall j :: start <= j < i ==> SepAt(style, s, j) == 0
    ensures forall k :: 0 <= k < |SplitFrom(style, s, start, i)| ==>
      NoSeparator(style, SplitFrom(style, s, start, i)[k])
    decreases |s| - i
  {
    if i == |s| {
      PieceNoSeparator(style, s, start, i);
      assert s[start..] == s[start..i];
    } else {
      var n := SepAt(style, s, i);
      if n > 0 {
        PieceNoSeparator(style, s, start, i);
        assert s[i + n - 1] == ',' || s[i + n - 1] == ' ' || i + n == |s| || !IsWordChar(s[i + n]);
        SplitFromPieces(style, s, i + n, i + n);
      } else {
        SplitFromPieces(style, s, start, i + 1);
      }
    }
  }

  /**
   * No piece holds a separator match: no comma, and for the two patterns no
   * whole-word "and" and no `" and "` respectively.
   */
  lemma SplitPieces(style: SplitStyle, s: string)
    ensures forall k :: 0 <= k < |Split(style, s)| ==> NoSeparator(style, Split(style, s)[k])
  {
    SplitFromPieces(style, s, 0, 0);
  }

  /** A separator match at `i` closes the current piece. */
  lemma SplitFromSepStep(style: SplitStyle, s: string, start: nat, i: nat)
    requires start <= i < |s| && SepAt(style, s, i) > 0
    requires forall j :: start <= j < i ==> SepAt(style, s, j) == 0
    ensures SplitFrom(style, s, start, i) ==
      [s[start..i]] + SplitFrom(style, s, i + SepAt(style, s, i), i + SepAt(style, s, i))
  {
  }

  /** `c` has prefix `p`, where the scans agree, and a separator of length `k` right after it. */
  predicate PrefixScan(style: SplitStyle, c: string, p: string, k: nat)
  {
    |p| + k <= |c| && c[..|p|] == p && k > 0 && SepAt(style, c, |p|) == k &&
    forall j :: 0 <= j < |p| ==> SepAt(style, c, j) == SepAt(style, p, j)
  }

  lemma PrefixScanEnd(style: SplitStyle, c: string, p: string, k: nat, start: nat)
    requires PrefixScan(style, c, p, k) && start <= |p|
    requires forall j :: start <= j < |p| ==> SepAt(style, p, j) == 0
    ensures SplitFrom(style, c, start, |p|) ==
      SplitFrom(style, p, start, |p|) + SplitFrom(style, c, |p| + k, |p| + k)
  {
    assert c[start..|p|] == p[start..|p|];
    assert p[start..] == p[start..|p|];
  }

  lemma PrefixScanSep(style: SplitStyle, c: string, p: string, k: nat, start: nat, i: nat)
    requires PrefixScan(style, c, p, k) && start <= i < |p| && SepAt(style, p, i) > 0
    requires forall j :: start <= j < i ==> SepAt(style, p, j) == 0
    requires var n := SepAt(style, p, i);
      SplitFrom(style, c, i + n, i + n) ==
        SplitFrom(style, p, i + n, i + n) + SplitFrom(style, c, |p| + k, |p| + k)
    ensures SplitFrom(style, c, start, i) ==
      SplitFrom(style, p, start, i) + SplitFrom(style, c, |p| + k, |p| + k)
  {
    var n := SepAt(style, p, i);
    PrefixSlice(c, p, start, i);
    PrefixNoSepRange(style, c, p, k, start, i);
    SplitFromSepStep(style, c, start, i);
    SplitFromSepStep(style, p, start, i);
    assert SplitFrom(style, c, start, i) == [p[start..i]] + SplitFrom(style, c, i + n, i + n);
  }

  lemma PrefixSlice(c: string, p: string, start: nat, i: nat)
    requires |p| <= |c| && c[..|p|] == p && start <= i <= |p|
    ensures c[start..i] == p[start..i]
  {
    SliceOfSlice(c, 0, |p|, start, i);
    assert c[0..|p|] == c[..|p|];
  }

  /** No separator of `p` in `[start, i)` means none of `c` there, and at `i < |p|` they agree. */
  lemma PrefixNoSepRange(style: SplitStyle, c: string, p: string, k: nat, start: nat, i: nat)
    requires PrefixScan(style, c, p, k) && start <= i < |p|
    requires forall j :: start <= j < i ==> SepAt(style, p, j) == 0
    ensures forall j :: start <= j < i ==> SepAt(style, c, j) == 0
    ensures SepAt(style, c, i) == SepAt(style, p, i)
  {
  }

  lemma PrefixScanNoSep(style: SplitStyle, c: string, p: string, k: nat, start: nat, i: nat)
    requires PrefixScan(style, c, p, k) && start <= i < |p| && SepAt(style, p, i) == 0
    requires forall j :: start <= j < i ==> SepAt(style, p, j) == 0
    requires SplitFrom(style, c, start, i + 1) ==
      SplitFrom(style, p, start, i + 1) + SplitFrom(style, c, |p| + k, |p| + k)
    ensures SplitFrom(style, c, start, i) ==
      SplitFrom(style, p, start, i) + SplitFrom(style, c, |p| + k, |p| + k)
  {
    assert SepAt(style, c, i) == SepAt(style, p, i);
  }

  /** The scan of `c` agrees with that of its prefix `p` up to a separator right after `p`. */
  lemma {:induction false} SplitFromPrefix(style: SplitStyle, c: string, p: string, k: nat,
                                           start: nat, i: nat)
    requires PrefixScan(style, c, p, k) && start <= i <= |p|
    requires forall j :: start <= j < i ==> SepAt(style, p, j) == 0
    ensures SplitFrom(style, c, start, i) ==
      SplitFrom(style, p, start, i) + SplitFrom(style, c, |p| + k, |p| + k)
    decreases |p| - i
  {
    if i == |p| {
      PrefixScanEnd(style, c, p, k, start);
    } else if SepAt(style, p, i) > 0 {
      var n := SepAt(style, p, i);
      SplitFromPrefix(style, c, p, k, i + n, i + n);
      PrefixScanSep(style, c, p, k, start, i);
    } else {
      SplitFromPrefix(style, c, p, k, start, i + 1);
      PrefixScanNoSep(style, c, p, k, start, i);
    }
  }

  /** `c` from `off` on is `q`, and the scans agree there. */
  predicate SuffixScan(style: SplitStyle, c: string, off: nat, q: string)
  {
    off <= |c| && c[off..] == q &&
    forall j :: off <= j <= |c| ==> SepAt(style, c, j) == SepAt(style, q, j - off)
  }

  lemma SuffixScanEnd(style: SplitStyle, c: string, off: nat, q: string, s0: nat)
    requires SuffixScan(style, c, off, q) && s0 <= |q|
    requires forall j :: s0 <= j < |q| ==> SepAt(style, q, j) == 0
    ensures SplitFrom(style, c, off + s0, off + |q|) == SplitFrom(style, q, s0, |q|)
  {
    assert off + |q| == |c|;
    SliceOfSlice(c, off, |c|, s0, |q|);
    assert c[off..|c|] == c[off..];
    assert c[off + s0..] == c[off + s0..off + |q|];
    assert q[s0..] == q[s0..|q|];
  }

  lemma SuffixSlice(c: string, off: nat, q: string, s0: nat, i0: nat)
    requires off <= |c| && c[off..] == q && s0 <= i0 <= |q|
    ensures c[off + s0..off + i0] == q[s0..i0]
  {
    SliceOfSlice(c, off, |c|, s0, i0);
    assert c[off..|c|] == c[off..];
  }

  lemma SuffixScanSep(style: SplitStyle, c: string, off: nat, q: string, s0: nat, i0: nat)
    requires SuffixScan(style, c, off, q) && s0 <= i0 < |q| && SepAt(style, q, i0) > 0
    requires forall j :: s0 <= j < i0 ==> SepAt(style, q, j) == 0
    requires var n := SepAt(style, q, i0);
      SplitFrom(style, c, off + i0 + n, off + i0 + n) == SplitFrom(style, q, i0 + n, i0 + n)
    ensures SplitFrom(style, c, off + s0, off + i0) == SplitFrom(style, q, s0, i0)
  {
    var n := SepAt(style, q, i0);
    SuffixSlice(c, off, q, s0, i0);
    SuffixNoSepRange(style, c, off, q, s0, i0);
    SplitFromSepStep(style, c, off + s0, off + i0);
    SplitFromSepStep(style, q, s0, i0);
    assert SplitFrom(style, c, off + s0, off + i0) ==
      [q[s0..i0]] + SplitFrom(style, c, off + i0 + n, off + i0 + n);
  }

  /** No separator of `q` in `[s0, i0)` means none of `c` in `[off + s0, off + i0)`, and at `i0` they agree. */
  lemma SuffixNoSepRange(style: SplitStyle, c: string, off: nat, q: string, s0: nat, i0: nat)
    requires SuffixScan(style, c, off, q) && s0 <= i0 <= |q|
    requires forall j :: s0 <= j < i0 ==> SepAt(style, q, j) == 0
    ensures forall j :: off + s0 <= j < off + i0 ==> SepAt(style, c, j) == 0
    ensures SepAt(style, c, off + i0) == SepAt(style, q, i0)
  {
    forall j | off + s0 <= j < off + i0
      ensures SepAt(style, c, j) == 0
    {
      assert SepAt(style, c, j) == SepAt(style, q, j - off);
    }
  }

  lemma SuffixScanNoSep(style: SplitStyle, c: string, off: nat, q: string, s0: nat, i0: nat)
    requires SuffixScan(style, c, off, q) && s0 <= i0 < |q| && SepAt(style, q, i0) == 0
    requires forall j :: s0 <= j < i0 ==> SepAt(style, q, j) == 0
    requires SplitFrom(style, c, off + s0, off + i0 + 1) == SplitFrom(style, q, s0, i0 + 1)
    ensures SplitFrom(style, c, off + s0, off + i0) == SplitFrom(style, q, s0, i0)
  {
    assert SepAt(style, c, off + i0) == SepAt(style, q, i0);
  }

  /** The scan of `c` from `off` on is the scan of its suffix `q`. */
  lemma {:induction false} SplitFromSuffix(style: SplitStyle, c: string, off: nat, q: string,
                                           s0: nat, i0: nat)
    requires SuffixScan(style, c, off, q) && s0 <= i0 <= |q|
    requires forall j :: s0 <= j < i0 ==> SepAt(style, q, j) == 0
    ensures SplitFrom(style, c, off + s0, off + i0) == SplitFrom(style, q, s0, i0)
    decreases |q| - i0, 1
  {
    if i0 == |q| {
      SuffixScanEnd(style, c, off, q, s0);
    } else if SepAt(style, q, i0) > 0 {
      SplitFromSuffixSep(style, c, off, q, s0, i0);
    } else {
      SplitFromSuffix(style, c, off, q, s0, i0 + 1);
      SuffixScanNoSep(style, c, off, q, s0, i0);
    }
  }

  /** The separator case of `SplitFromSuffix`. */
  lemma {:induction false} SplitFromSuffixSep(style: SplitStyle, c: string, off: nat, q: string,
                                              s0: nat, i0: nat)
    requires SuffixScan(style, c, off, q) && s0 <= i0 < |q| && SepAt(style, q, i0) > 0
    requires forall j :: s0 <= j < i0 ==> SepAt(style, q, j) == 0
    ensures SplitFrom(style, c, off + s0, off + i0) == SplitFrom(style, q, s0, i0)
    decreases |q| - i0, 0
  {
    var n := SepAt(style, q, i0);
    SplitFromSuffix(style, c, off, q, i0 + n, i0 + n);
    SuffixScanSep(style, c, off, q, s0, i0);
  }

  /** Where separators match in `a + "," + b`: as in `a`, the comma, then as in `b`. */
  lemma SepAtComma(style: SplitStyle, a: string, b: string)
    ensures forall j :: 0 <= j < |a| ==> SepAt(style, a + "," + b, j) == SepAt(style, a, j)
    ensures SepAt(style, a + "," + b, |a|) == 1
    ensures forall j :: |a| + 1 <= j <= |a + "," + b| ==>
      SepAt(style, a + "," + b, j) == SepAt(style, b, j - |a| - 1)
  {
    var c := a + "," + b;
    assert c[|a|] == ',';
    forall j | 0 <= j < |a|
      ensures SepAt(style, c, j) == SepAt(style, a, j)
    {
      assert c[j] == a[j];
      if j + 5 <= |a| {
        assert c[j..j + 5] == a[j..j + 5];
      } else if j + 5 <= |c| {
        assert c[j..j + 5][|a| - j] == ',';
      }
      if j + 3 <= |a| {
        assert c[j..j + 3] == a[j..j + 3];
        if j + 3 < |a| {
          assert c[j + 3] == a[j + 3];
        }
      } else if j + 3 <= |c| {
        assert c[j..j + 3][|a| - j] == ',';
      }
      if j > 0 {
        assert c[j - 1] == a[j - 1];
      }
    }
    forall j | |a| + 1 <= j <= |c|
      ensures SepAt(style, c, j) == SepAt(style, b, j - |a| - 1)
    {
      var t := j - |a| - 1;
      if t < |b| {
        assert c[j] == b[t];
      }
      if t + 5 <= |b| {
        assert c[j..j + 5] == b[t..t + 5];
      }
      if t + 3 <= |b| {
        assert c[j..j + 3] == b[t..t + 3];
        if t + 3 < |b| {
          assert c[j + 3] == b[t + 3];
        }
      }
      if t > 0 {
        assert c[j - 1] == b[t - 1];
      }
    }
  }

  /** A comma splits, whatever the pattern: `re.split` of `a + "," + b` is that of `a`, then that of `b`. */
  lemma SplitComma(style: SplitStyle, a: string, b: string)
    ensures Split(style, a + "," + b) == Split(style, a) + Split(style, b)
  {
    var c := a + "," + b;
    SepAtComma(style, a, b);
    assert c[..|a|] == a;
    assert c[|a| + 1..] == b;
    SplitFromPrefix(style, c, a, 1, 0, 0);
    SplitFromSuffix(style, c, |a| + 1, b, 0, 0);
  }

  /** Where `\band\b` matches in `p + "and" + q`, with `p` ending and `q` starting in a space. */
  lemma SepAtWordAnd(p: string, q: string)
    requires p != [] && p[|p| - 1] == ' ' && q != [] && q[0] == ' '
    ensures forall j :: 0 <= j < |p| ==> SepAt(CommaOrWordAnd, p + "and" + q, j) == SepAt(CommaOrWordAnd, p, j)
    ensures SepAt(CommaOrWordAnd, p + "and" + q, |p|) == 3
    ensures forall j :: |p| + 3 <= j <= |p + "and" + q| ==>
      SepAt(CommaOrWordAnd, p + "and" + q, j) == SepAt(CommaOrWordAnd, q, j - |p| - 3)
  {
    var c := p + "and" + q;
    assert c[|p| - 1] == ' ' && c[|p| + 3] == ' ';
    assert c[|p|..|p| + 3] == "and";
    forall j | 0 <= j < |p|
      ensures SepAt(CommaOrWordAnd, c, j) == SepAt(CommaOrWordAnd, p, j)
    {
      assert c[j] == p[j];
      if j + 3 <= |p| {
        assert c[j..j + 3] == p[j..j + 3];
        if j + 3 < |p| {
          assert c[j + 3] == p[j + 3];
        } else {
          assert p[j..j + 3][2] == ' ';
        }
      } else {
        assert c[j..j + 3][|p| - 1 - j] == ' ';
      }
      if j > 0 {
        assert c[j - 1] == p[j - 1];
      }
    }
    forall j | |p| + 3 <= j <= |c|
      ensures SepAt(CommaOrWordAnd, c, j) == SepAt(CommaOrWordAnd, q, j - |p| - 3)
    {
      var t := j - |p| - 3;
      if t < |q| {
        assert c[j] == q[t];
      }
      if t + 3 <= |q| {
        assert c[j..j + 3] == q[t..t + 3];
        if t + 3 < |q| {
          assert c[j + 3] == q[t + 3];
        }
      }
      if t > 0 {
        assert c[j - 1] == q[t - 1];
      } else if t + 3 <= |q| {
        assert q[t..t + 3][0] == ' ';
      }
    }
  }

  /**
   * A whole-word "and" splits: `re.split(r",|\band\b", a + " and " + b)`
   * is that of `a + " "`, then that of `" " + b`.
   */
  lemma SplitWordAnd(a: string, b: string)
    ensures Split(CommaOrWordAnd, a + " and " + b) ==
      Split(CommaOrWordAnd, a + " ") + Split(CommaOrWordAnd, " " + b)
  {
    var p, q := a + " ", " " + b;
    var c := p + "and" + q;
    assert c == a + " and " + b;
    SepAtWordAnd(p, q);
    assert c[..|p|] == p;
    assert c[|p| + 3..] == q;
    SplitFromPrefix(CommaOrWordAnd, c, p, 3, 0, 0);
    SplitFromSuffix(CommaOrWordAnd, c, |p| + 3, q, 0, 0);
  }

  /** A word and a space, in either order, holds no separator. */
  lemma OnePiece(t: string)
    requires |t| == 1 || |t| == 2
    requires forall j :: 0 <= j < |t| ==> t[j] == ' ' || ('A' <= t[j] <= 'Z')
    ensures Split(CommaOrWordAnd, t) == [t]
  {
    SplitNoSeparator(CommaOrWordAnd, t);
  }

  /** `re.split(r",|\band\b", "X and Y,Z")` is `["X ", " Y", "Z"]` for capitals X, Y, Z. */
  lemma SplitWordAndExample(x: char, y: char, z: char)
    requires 'A' <= x <= 'Z' && 'A' <= y <= 'Z' && 'A' <= z <= 'Z'
    ensures Split(CommaOrWordAnd, [x] + " and " + [y] + "," + [z]) == [[x] + " ", " " + [y], [z]]
  {
    var a, b := [x] + " and " + [y], [z];
    SplitComma(CommaOrWordAnd, a, b);
    SplitWordAnd([x], [y]);
    OnePiece([x] + " ");
    OnePiece(" " + [y]);
    OnePiece(b);
  }

  /** `sep.join(ws)` */
  function JoinWith(ws: seq<string>, sep: string): string
  {
    if |ws| == 0 then ""
    else if |ws| == 1 then ws[0]
    else ws[0] + sep + JoinWith(ws[1..], sep)
  }
}
