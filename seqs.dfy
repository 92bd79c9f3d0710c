/**
 * Sequence helpers: first-seen de-duplication (every loop in the repository
 * that keeps a `seen` set, or tests `x not in names`, computes it) and
 * Python's `xs[:n]`.
 */
module Seqs {
  import opened Wrappers

  predicate Distinct<T(==)>(s: seq<T>)
  {
    forall i, j :: 0 <= i < j < |s| ==> s[i] != s[j]
  }

  /** Index of the first occurrence of `x` in `s`. */
  function FirstIndex<T(==)>(s: seq<T>, x: T): (k: nat)
    requires x in s
    ensures k < |s| && s[k] == x
    ensures forall j :: 0 <= j < k ==> s[j] != x
  {
    if s[0] == x then 0 else 1 + FirstIndex(s[1..], x)
  }

  /** Growing a prefix by one element. */
  lemma PrefixSnoc<T>(s: seq<T>, i: nat)
    requires i < |s|
    ensures s[..i + 1] == s[..i] + [s[i]]
  {
  }

  /** A non-empty sequence is its front and its last element. */
  lemma PrefixLast<T>(s: seq<T>)
    requires s != []
    ensures s[..|s| - 1] + [s[|s| - 1]] == s
  {
  }

  /** A non-empty sequence is its first element and the rest. */
  lemma ConsFirst<T>(s: seq<T>)
    requires s != []
    ensures s == [s[0]] + s[1..]
  {
  }

  /** The members of a non-empty sequence: those of its front, and its last element. */
  lemma MembersSnoc<T>(s: seq<T>)
    requires s != []
    ensures forall u :: u in s <==> u in s[..|s| - 1] || u == s[|s| - 1]
  {
    PrefixLast(s);
  }

  /** The whole sequence as a prefix. */
  lemma PrefixAll<T>(s: seq<T>)
    ensures s[..|s|] == s
  {
  }

  /**
   * First-seen de-duplication: walk `s` left to right and keep an element
   * only if it was not kept before.
   */
  function Dedup<T(==)>(s: seq<T>): (r: seq<T>)
    ensures forall i :: 0 <= i < |r| ==> r[i] in s
  {
    if s == [] then []
    else
      var p := s[..|s| - 1];
      var d := Dedup(p);
      var x := s[|s| - 1];
      assert forall i :: 0 <= i < |d| ==> d[i] in p && d[i] in s;
      if x in d then d else d + [x]
  }

  /**
   * `Dedup(s)` has no repetitions, holds exactly the elements of `s`, and
   * is no longer than `s`.
   */
  lemma {:induction false} DedupSpec<T>(s: seq<T>)
    ensures Distinct(Dedup(s))
    ensures forall i :: 0 <= i < |Dedup(s)| ==> Dedup(s)[i] in s
    ensures forall i :: 0 <= i < |s| ==> s[i] in Dedup(s)
    ensures |Dedup(s)| <= |s|
  {
    if s != [] {
      var p := s[..|s| - 1];
      var d := Dedup(p);
      var x := s[|s| - 1];
      DedupSpec(p);
      assert forall i :: 0 <= i < |s| - 1 ==> s[i] == p[i];
      if x !in d {
        var r := d + [x];
        assert forall i :: 0 <= i < |d| ==> r[i] == d[i];
      }
    }
  }

  /** Membership in `Dedup(s)` is membership in `s`. */
  lemma DedupMember<T>(s: seq<T>, x: T)
    ensures x in Dedup(s) <==> x in s
  {
    DedupSpec(s);
    if x in s {
      var i :| 0 <= i < |s| && s[i] == x;
    }
    if x in Dedup(s) {
      var i :| 0 <= i < |Dedup(s)| && Dedup(s)[i] == x;
    }
  }

  /** One step of the `seen`-set loop. */
  lemma DedupSnoc<T>(s: seq<T>, x: T)
    ensures Dedup(s + [x]) == if x in Dedup(s) then Dedup(s) else Dedup(s) + [x]
  {
    assert (s + [x])[..|s + [x]| - 1] == s;
  }

  lemma FirstIndexPrefix<T>(s: seq<T>, k: nat, y: T)
    requires k <= |s| && y in s[..k]
    ensures y in s && FirstIndex(s, y) == FirstIndex(s[..k], y)
  {
    var i := FirstIndex(s[..k], y);
    assert s[i] == y;
    assert forall j :: 0 <= j < k ==> s[..k][j] == s[j];
  }

  /**
   * `Dedup` keeps the elements in the order of their first occurrences:
   * it is exactly the subsequence of first occurrences.
   */
  lemma {:induction false} DedupOrder<T>(s: seq<T>)
    ensures forall i, j :: 0 <= i < j < |Dedup(s)| ==>
      FirstIndex(s, Dedup(s)[i]) < FirstIndex(s, Dedup(s)[j])
  {
    if s != [] {
      DedupSpec(s[..|s| - 1]);
      var p := s[..|s| - 1];
      var x := s[|s| - 1];
      var d := Dedup(p);
      DedupOrder(p);
      forall y | y in d ensures FirstIndex(s, y) == FirstIndex(p, y) && FirstIndex(p, y) < |s| - 1 {
        FirstIndexPrefix(s, |s| - 1, y);
      }
      if x !in d {
        assert x !in p;
        assert FirstIndex(s, x) == |s| - 1;
        var r := d + [x];
        assert Dedup(s) == r;
        forall i, j | 0 <= i < j < |r| ensures FirstIndex(s, r[i]) < FirstIndex(s, r[j]) {
          assert r[i] in d;
          if j < |d| {
            assert r[i] == d[i] && r[j] == d[j];
          }
        }
      }
    }
  }

  /** A sequence without repetitions is its own de-duplication. */
  lemma {:induction false} DedupOfDistinct<T>(s: seq<T>)
    requires Distinct(s)
    ensures Dedup(s) == s
  {
    if s != [] {
      var p := s[..|s| - 1];
      assert Distinct(p);
      DedupOfDistinct(p);
      assert s[|s| - 1] !in p;
      assert s == p + [s[|s| - 1]];
    }
  }

  /** The `seen`-set loop: keep an element only when it is not yet in `seen`. */
  method DedupWithSeen<T(==)>(xs: seq<T>) returns (uniq: seq<T>)
    ensures uniq == Dedup(xs)
  {
    var seen: set<T> := {};
    uniq := [];
    for j := 0 to |xs|
      invariant uniq == Dedup(xs[..j])
      invariant forall x :: x in seen <==> x in uniq
    {
      var n := xs[j];
      DedupSnoc(xs[..j], n);
      PrefixSnoc(xs, j);
      if n !in seen {
        seen := seen + {n};
        uniq := uniq + [n];
      }
    }
    PrefixAll(xs);
  }

  /** De-duplicating twice is de-duplicating once. */
  lemma DedupIdempotent<T>(s: seq<T>)
    ensures Dedup(Dedup(s)) == Dedup(s)
  {
    DedupSpec(s);
    DedupOfDistinct(Dedup(s));
  }

  /**
   * The index of the first element satisfying `p`, as a loop that stops
   * at the first match finds it; `None` when no element does.
   */
  function FindFirst<T>(s: seq<T>, p: T -> bool): (r: Option<nat>)
    ensures r.None? ==> forall j :: 0 <= j < |s| ==> !p(s[j])
    ensures r.Some? ==> r.value < |s| && p(s[r.value]) && forall j :: 0 <= j < r.value ==> !p(s[j])
  {
    if s == [] then None
    else if p(s[0]) then Some(0)
    else
      var r := FindFirst(s[1..], p);
      assert forall j :: 1 <= j < |s| ==> s[1..][j - 1] == s[j];
      match r
      case None => None
      case Some(k) => Some(k + 1)
  }

  /** The first match is at `i` when `i` matches and nothing before it does. */
  lemma FindFirstAt<T>(s: seq<T>, p: T -> bool, i: nat)
    requires i < |s| && p(s[i])
    requires forall j :: 0 <= j < i ==> !p(s[j])
    ensures FindFirst(s, p) == Some(i)
  {
  }

  /** There is no first match when nothing matches. */
  lemma FindFirstNone<T>(s: seq<T>, p: T -> bool)
    requires forall j :: 0 <= j < |s| ==> !p(s[j])
    ensures FindFirst(s, p) == None
  {
  }

  /** Python's `xs[:n]` for a non-negative `n`. */
  function Take<T>(s: seq<T>, n: nat): (r: seq<T>)
    ensures |r| <= n && |r| <= |s|
    ensures |s| <= n ==> r == s
    ensures n <= |s| ==> |r| == n
    ensures r == s[..|r|]
  {
    if |s| <= n then s else s[..n]
  }
}
