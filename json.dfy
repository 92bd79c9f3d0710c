/**
 * JSON values as `json.loads` produces them and `json.dumps` consumes them.
 * An object keeps its members in insertion order, as a Python dict does.
 */
module Json {
  import opened Wrappers
  import Seqs

  datatype Json =
    | JNull
    | JBool(b: bool)
    | JNum(n: int)
    | JStr(s: string)
    | JArr(items: seq<Json>)
    | JObj(members: seq<(string, Json)>)

  /** The member names of an object, in order. */
  function Keys(members: seq<(string, Json)>): (ks: seq<string>)
    ensures |ks| == |members|
    ensures forall i :: 0 <= i < |members| ==> ks[i] == members[i].0
  {
    seq(|members|, i requires 0 <= i < |members| => members[i].0)
  }

  /**
   * `obj.get(key)` on a decoded object.  When a name occurs twice the later
   * member wins, as with `json.loads`.
   */
  function Get(members: seq<(string, Json)>, key: string): Option<Json>
  {
    if members == [] then None
    else
      var last := members[|members| - 1];
      if last.0 == key then Some(last.1) else Get(members[..|members| - 1], key)
  }

  /** A name is found exactly when it occurs, and what is found is a member under it. */
  lemma {:induction false} GetSpec(members: seq<(string, Json)>, key: string)
    ensures Get(members, key).None? <==> key !in Keys(members)
    ensures Get(members, key).Some? ==> (key, Get(members, key).value) in members
  {
    if members != [] {
      var init := members[..|members| - 1];
      var last := members[|members| - 1];
      GetSpec(init, key);
      assert forall i :: 0 <= i < |init| ==> init[i] == members[i];
      assert Keys(members) == Keys(init) + [last.0];
    }
  }

  /** In an object whose names are distinct, each member is found under its name. */
  lemma {:induction false} GetAt(members: seq<(string, Json)>, i: nat)
    requires Seqs.Distinct(Keys(members))
    requires i < |members|
    ensures Get(members, members[i].0) == Some(members[i].1)
  {
    var n := |members|;
    if i < n - 1 {
      var init := members[..n - 1];
      assert Keys(members)[i] != Keys(members)[n - 1];
      assert Keys(init) == Keys(members)[..n - 1];
      GetAt(init, i);
    }
  }

  /** A Python list of strings. */
  function StrList(xs: seq<string>): (r: Json)
    ensures r.JArr? && |r.items| == |xs|
    ensures forall i :: 0 <= i < |xs| ==> r.items[i] == JStr(xs[i])
  {
    JArr(seq(|xs|, i requires 0 <= i < |xs| => JStr(xs[i])))
  }

  /** The strings of a JSON array whose every element is a string. */
  function AsStrList(v: Json): (r: Option<seq<string>>)
    ensures r.Some? ==>
      v.JArr? && |r.value| == |v.items| &&
      forall i :: 0 <= i < |v.items| ==> v.items[i] == JStr(r.value[i])
  {
    if v.JArr? && forall i :: 0 <= i < |v.items| ==> v.items[i].JStr?
    then Some(seq(|v.items|, i requires 0 <= i < |v.items| => v.items[i].s))
    else None
  }

  lemma StrListRoundTrip(xs: seq<string>)
    ensures AsStrList(StrList(xs)) == Some(xs)
  {
    var v := StrList(xs);
    var r := AsStrList(v);
    assert r.Some?;
    assert |r.value| == |xs|;
    assert forall i :: 0 <= i < |xs| ==> r.value[i] == xs[i];
    assert r.value == xs;
  }

  /** A Python string or `None`. */
  function OptStr(o: Option<string>): (r: Json)
    ensures r == JNull <==> o.None?
  {
    match o
    case None => JNull
    case Some(s) => JStr(s)
  }

  function AsOptStr(v: Json): Option<Option<string>>
  {
    match v
    case JNull => Some(None)
    case JStr(s) => Some(Some(s))
    case _ => None
  }
}
