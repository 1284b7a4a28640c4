/** A conventional optional value. */
module Options {
  datatype Option<+T> = None | Some(value: T)
}

/** Ordered subsequences: `a` is obtained from `b` by deleting elements. */
module Subsequences {

  ghost predicate Subseq<T>(a: seq<T>, b: seq<T>)
    decreases |b|
  {
    a == [] || (b != [] && ((a[0] == b[0] && Subseq(a[1..], b[1..])) || Subseq(a, b[1..])))
  }

  lemma {:induction false} SubseqRefl<T>(a: seq<T>)
    ensures Subseq(a, a)
    decreases |a|
  {
    if a != [] {
      SubseqRefl(a[1..]);
    }
  }

  lemma {:induction false} SubseqTrans<T>(a: seq<T>, b: seq<T>, c: seq<T>)
    requires Subseq(a, b) && Subseq(b, c)
    ensures Subseq(a, c)
    decreases |c|
  {
    if a != [] {
      if Subseq(b, c[1..]) {
        SubseqTrans(a, b, c[1..]);
      } else if a[0] == b[0] && Subseq(a[1..], b[1..]) {
        SubseqTrans(a[1..], b[1..], c[1..]);
      } else {
        SubseqTrans(a, b[1..], c[1..]);
      }
    }
  }

  /** Every element of a subsequence is an element of the whole. */
  lemma {:induction false} SubseqMembers<T>(a: seq<T>, b: seq<T>, x: T)
    requires Subseq(a, b) && x in a
    ensures x in b
    decreases |b|
  {
    if a[0] == b[0] && Subseq(a[1..], b[1..]) {
      if x != a[0] {
        SubseqMembers(a[1..], b[1..], x);
      }
    } else {
      SubseqMembers(a, b[1..], x);
    }
  }
}

/**
 * The JSON values a parsed settings or manifest document is made of.
 * Object members keep the order in which the parser produced them, because
 * the removal engine compares values by their serialised text, which is
 * sensitive to that order. Numbers are integers.
 */
module JsonValue {
  import opened Options
  import opened Subsequences

  datatype Json =
    | JNull
    | JBool(b: bool)
    | JNum(n: int)
    | JStr(s: string)
    | JArr(items: seq<Json>)
    | JObj(fields: seq<(string, Json)>)

  type Fields = seq<(string, Json)>

  /** The member names of an object, in order. */
  function Keys(fs: Fields): (ks: seq<string>)
    ensures |ks| == |fs|
    ensures forall i :: 0 <= i < |fs| ==> ks[i] == fs[i].0
  {
    if fs == [] then [] else [fs[0].0] + Keys(fs[1..])
  }

  /** No member name occurs twice, as in every object JSON.parse builds. */
  ghost predicate UniqueKeys(fs: Fields) {
    forall i, j :: 0 <= i < j < |fs| ==> fs[i].0 != fs[j].0
  }

  /** Unique member names in every object, at any depth. */
  ghost predicate WellFormed(j: Json)
    decreases j
  {
    match j
    case JArr(items) => forall i :: 0 <= i < |items| ==> WellFormed(items[i])
    case JObj(fs) => UniqueKeys(fs) && forall i :: 0 <= i < |fs| ==> WellFormed(fs[i].1)
    case _ => true
  }

  /** Property read `obj[k]` on an object: the first member named `k`, if any. */
  function Lookup(fs: Fields, k: string): (r: Option<Json>)
    ensures r.Some? <==> k in Keys(fs)
    ensures r.Some? ==> (k, r.value) in fs
  {
    if fs == [] then None
    else if fs[0].0 == k then Some(fs[0].1)
    else Lookup(fs[1..], k)
  }

  /** `delete obj[k]`: no member named `k` remains, the others keep value and order. */
  function Delete(fs: Fields, k: string): (r: Fields)
    ensures k !in Keys(r)
    ensures forall k' :: k' != k ==> Lookup(r, k') == Lookup(fs, k')
    ensures Subseq(Keys(r), Keys(fs))
  {
    if fs == [] then []
    else if fs[0].0 == k then Delete(fs[1..], k)
    else [fs[0]] + Delete(fs[1..], k)
  }

  /**
   * Assignment `obj[k] = v`: an existing member keeps its place and takes
   * the new value; a new member is appended.
   */
  function Put(fs: Fields, k: string, v: Json): (r: Fields)
    ensures Lookup(r, k) == Some(v)
    ensures forall k' :: k' != k ==> Lookup(r, k') == Lookup(fs, k')
  {
    if fs == [] then [(k, v)]
    else if fs[0].0 == k then
      var r := [(k, v)] + fs[1..];
      assert r[1..] == fs[1..];
      r
    else
      var rest := Put(fs[1..], k, v);
      var r := [fs[0]] + rest;
      assert r[1..] == rest;
      r
  }

  /** An existing member keeps its place; a new name is appended. */
  lemma PutKeys(fs: Fields, k: string, v: Json)
    ensures Keys(Put(fs, k, v)) == if k in Keys(fs) then Keys(fs) else Keys(fs) + [k]
  {
    if k in Keys(fs) {
      PutKeysPresent(fs, k, v);
    } else {
      PutKeysAbsent(fs, k, v);
    }
  }

  /** Assignment to an existing name leaves the names and their order as they were. */
  lemma {:induction false} PutKeysPresent(fs: Fields, k: string, v: Json)
    requires k in Keys(fs)
    ensures Keys(Put(fs, k, v)) == Keys(fs)
  {
    var r := Put(fs, k, v);
    assert Keys(fs) == [fs[0].0] + Keys(fs[1..]);
    if fs[0].0 == k {
      assert r[1..] == fs[1..];
    } else {
      PutKeysPresent(fs[1..], k, v);
      assert r[1..] == Put(fs[1..], k, v);
    }
    assert Keys(r) == [r[0].0] + Keys(r[1..]);
  }

  /** Assignment to a new name appends it after the existing names. */
  lemma {:induction false} PutKeysAbsent(fs: Fields, k: string, v: Json)
    requires k !in Keys(fs)
    ensures Keys(Put(fs, k, v)) == Keys(fs) + [k]
  {
    var r := Put(fs, k, v);
    if fs != [] {
      var ks := Keys(fs[1..]);
      assert Keys(fs) == [fs[0].0] + ks;
      PutKeysAbsent(fs[1..], k, v);
      assert r[1..] == Put(fs[1..], k, v);
      assert Keys(r) == [r[0].0] + Keys(r[1..]);
      assert [fs[0].0] + (ks + [k]) == ([fs[0].0] + ks) + [k];
    }
  }

  /** Deleting a name that is absent changes nothing. */
  lemma {:induction false} DeleteAbsent(fs: Fields, k: string)
    requires Lookup(fs, k) == None
    ensures Delete(fs, k) == fs
  {
    if fs != [] {
      DeleteAbsent(fs[1..], k);
    }
  }

  /** Assigning a member the value it already has changes nothing. */
  lemma {:induction false} PutSame(fs: Fields, k: string, v: Json)
    requires Lookup(fs, k) == Some(v)
    ensures Put(fs, k, v) == fs
  {
    if fs[0].0 != k {
      PutSame(fs[1..], k, v);
    }
  }

  /** Deleting right after an assignment is the same as deleting. */
  lemma {:induction false} DeleteAfterPut(fs: Fields, k: string, v: Json)
    ensures Delete(Put(fs, k, v), k) == Delete(fs, k)
  {
    if fs == [] {
    } else if fs[0].0 == k {
    } else {
      DeleteAfterPut(fs[1..], k, v);
    }
  }

  lemma {:induction false} DeleteKeepsUnique(fs: Fields, k: string)
    requires UniqueKeys(fs)
    ensures UniqueKeys(Delete(fs, k))
    ensures forall e :: e in Delete(fs, k) ==> e in fs
  {
    if fs != [] {
      DeleteKeepsUnique(fs[1..], k);
      var r := Delete(fs[1..], k);
      if fs[0].0 != k {
        forall i | 0 < i < |[fs[0]] + r| ensures ([fs[0]] + r)[i].0 != fs[0].0 {
          var e := r[i - 1];
          assert e in fs[1..];
        }
      }
    }
  }

  lemma PutKeepsUnique(fs: Fields, k: string, v: Json)
    requires UniqueKeys(fs)
    ensures UniqueKeys(Put(fs, k, v))
  {
    var r := Put(fs, k, v);
    PutKeys(fs, k, v);
    var ks, rks := Keys(fs), Keys(r);
    forall i, j | 0 <= i < j < |r| ensures r[i].0 != r[j].0 {
      assert r[i].0 == rks[i] && r[j].0 == rks[j];
      if j < |fs| {
        assert rks[i] == ks[i] && rks[j] == ks[j];
      } else {
        assert rks[j] == k && k !in ks && rks[i] == ks[i];
      }
    }
  }

  lemma {:induction false} PutMembers(fs: Fields, k: string, v: Json)
    ensures forall e :: e in Put(fs, k, v) ==> e in fs || e == (k, v)
  {
    if fs != [] && fs[0].0 != k {
      PutMembers(fs[1..], k, v);
    }
  }

  /** JavaScript truthiness of a JSON value. */
  function Truthy(j: Json): (r: bool)
    ensures !r <==> j == JNull || j == JBool(false) || j == JNum(0) || j == JStr("")
  {
    match j
    case JNull => false
    case JBool(b) => b
    case JNum(n) => n != 0
    case JStr(s) => s != ""
    case _ => true
  }

  /** JavaScript's `typeof` on a JSON value (null and arrays are "object"). */
  function TypeOf(j: Json): (r: string)
    ensures r == "object" <==> j.JNull? || j.JArr? || j.JObj?
    ensures r in {"boolean", "number", "string", "object"}
  {
    match j
    case JBool(_) => "boolean"
    case JNum(_) => "number"
    case JStr(_) => "string"
    case _ => "object"
  }

  /** `isObject`: truthy, of type "object" and not an array. */
  function IsObject(j: Json): (r: bool)
    ensures r <==> j.JObj?
  {
    Truthy(j) && TypeOf(j) == "object" && !j.JArr?
  }
}
