/**
 * The structural settings-removal engine: given a target document and a
 * pattern holding what an install step added, compute the target with that
 * contribution removed. Arrays are filtered as sets of entries, nested
 * objects are handled by recursion, scalar members are deleted only when
 * they still hold exactly the pattern's value, containers left empty are
 * pruned from their parent, and every type mismatch leaves the target alone.
 *
 * The functions below are the specification; RemoveSettingsItem is the
 * step-by-step procedure, proved to compute the same value.
 */
module SettingsRemoval {
  import opened Options
  import opened Subsequences
  import opened JsonValue

  /**
   * Array filtering: keep, in order, every element that equals no element
   * of the pattern array. Equality of serialised text is equality of values.
   */
  function Filter(items: seq<Json>, pat: seq<Json>): (r: seq<Json>)
    ensures forall x :: x in r <==> x in items && x !in pat
    ensures forall x :: multiset(r)[x] == if x in pat then 0 else multiset(items)[x]
  {
    if items == [] then []
    else
      var rest := Filter(items[1..], pat);
      assert items == [items[0]] + items[1..];
      if items[0] in pat then rest else [items[0]] + rest
  }

  /** An object without members or an array without elements. */
  function IsEmptyContainer(j: Json): (r: bool)
    ensures r <==> j == JObj([]) || j == JArr([])
  {
    (j.JObj? && |j.fields| == 0) || (j.JArr? && |j.items| == 0)
  }

  predicate SameKind(a: Json, b: Json) {
    match (a, b)
    case (JNull, JNull) => true
    case (JBool(_), JBool(_)) => true
    case (JNum(_), JNum(_)) => true
    case (JStr(_), JStr(_)) => true
    case (JArr(_), JArr(_)) => true
    case (JObj(_), JObj(_)) => true
    case _ => false
  }

  /**
   * The whole removal. A target that is neither an array nor an object is
   * returned as it is; an array target is filtered when the pattern is an
   * array and kept whole otherwise; an object target has every pattern
   * member applied to it in turn.
   */
  function Remove(target: Json, pattern: Json): (r: Json)
    requires target.JObj? ==> pattern.JObj?
    ensures SameKind(r, target)
    decreases pattern, 1, 0
  {
    match target
    case JArr(items) => JArr(if pattern.JArr? then Filter(items, pattern.items) else items)
    case JObj(fs) => JObj(RemoveFields(fs, pattern, 0))
    case _ => target
  }

  /** Apply the pattern members from index `i` on, one after the other. */
  function RemoveFields(fs: Fields, pattern: Json, i: nat): (r: Fields)
    requires pattern.JObj? && i <= |pattern.fields|
    ensures Subseq(Keys(r), Keys(fs))
    decreases pattern, 0, |pattern.fields| - i
  {
    if i == |pattern.fields| then
      SubseqRefl(Keys(fs));
      fs
    else
      var e := pattern.fields[i];
      var next := Store(fs, e.0, Outcome(Lookup(fs, e.0), e.1));
      var r := RemoveFields(next, pattern, i + 1);
      SubseqTrans(Keys(r), Keys(next), Keys(fs));
      r
  }

  /**
   * What becomes of one member whose current value is `cur` (None when the
   * member is absent) under the pattern value `pv`; None means deleted.
   */
  function Outcome(cur: Option<Json>, pv: Json): (o: Option<Json>)
    ensures cur == None ==> o == None
    decreases pv, 2, 0
  {
    match pv
    case JArr(pitems) =>
      (match cur
       case Some(JArr(items)) =>
         var f := Filter(items, pitems);
         if |f| == 0 then None else Some(JArr(f))
       case _ => cur)
    case JObj(_) =>
      (match cur
       case Some(v) =>
         if v.JObj? || v.JArr? then
           var sub := Remove(v, pv);
           if IsEmptyContainer(sub) then None else Some(sub)
         else cur
       case None => None)
    case _ => if cur == Some(pv) then None else cur
  }

  /** Write an outcome back: delete the member, or give it the new value. */
  function Store(fs: Fields, k: string, o: Option<Json>): (r: Fields)
    requires o.Some? ==> k in Keys(fs)
    ensures Lookup(r, k) == o
    ensures forall k' :: k' != k ==> Lookup(r, k') == Lookup(fs, k')
    ensures Subseq(Keys(r), Keys(fs))
  {
    match o
    case None => Delete(fs, k)
    case Some(v) =>
      SubseqRefl(Keys(fs));
      PutKeys(fs, k, v);
      Put(fs, k, v)
  }

  /**
   * removeSettingsItem as the source writes it: a shallow copy of the
   * object target, then a loop over the pattern's members, each handled by
   * RemovePatternMember.
   */
  method RemoveSettingsItem(obj: Json, pattern: Json) returns (r: Json)
    requires obj.JObj? ==> pattern.JObj?
    ensures r == Remove(obj, pattern)
    decreases pattern, 1
  {
    if !IsObject(obj) && !obj.JArr? {
      return obj;
    }
    if obj.JArr? {
      return JArr(if pattern.JArr? then Filter(obj.items, pattern.items) else obj.items);
    }
    var result := obj.fields;
    var patternFields := pattern.fields;
    var i := 0;
    while i < |patternFields|
      invariant 0 <= i <= |patternFields|
      invariant RemoveFields(result, pattern, i) == RemoveFields(obj.fields, pattern, 0)
    {
      var (key, pv) := patternFields[i];
      result := RemovePatternMember(result, key, pv);
      i := i + 1;
    }
    return JObj(result);
  }

  /**
   * The loop body for one pattern member `key` with value `pv`: filter an
   * array member, recurse into an object or array member, or delete a scalar
   * member holding exactly `pv`; then delete the member if it became empty.
   */
  method RemovePatternMember(fs: Fields, key: string, pv: Json) returns (result: Fields)
    ensures result == Store(fs, key, Outcome(Lookup(fs, key), pv))
    decreases pv, 2
  {
    result := fs;
    var cur := Lookup(result, key);
    if pv.JArr? {
      if cur.Some? && cur.value.JArr? {
        var filtered := Filter(cur.value.items, pv.items);
        assert Outcome(cur, pv) == if |filtered| == 0 then None else Some(JArr(filtered));
        result := Put(result, key, JArr(filtered));
        if |filtered| == 0 {
          DeleteAfterPut(fs, key, JArr(filtered));
          result := Delete(result, key);
        }
      } else {
        assert Outcome(cur, pv) == cur;
        StoreUnchanged(fs, key);
      }
    } else if IsObject(pv) {
      if cur.Some? && (IsObject(cur.value) || cur.value.JArr?) {
        var sub := RemoveSettingsItem(cur.value, pv);
        assert Outcome(cur, pv) == if IsEmptyContainer(sub) then None else Some(sub);
        result := Put(result, key, sub);
        if IsObject(sub) && |sub.fields| == 0 {
          DeleteAfterPut(fs, key, sub);
          result := Delete(result, key);
        } else if sub.JArr? && |sub.items| == 0 {
          DeleteAfterPut(fs, key, sub);
          result := Delete(result, key);
        }
      } else {
        assert Outcome(cur, pv) == cur;
        StoreUnchanged(fs, key);
      }
    } else {
      assert Outcome(cur, pv) == if cur == Some(pv) then None else cur;
      if cur == Some(pv) {
        result := Delete(result, key);
      } else {
        StoreUnchanged(fs, key);
      }
    }
  }

  /** Storing back a member's own current value changes nothing. */
  lemma StoreUnchanged(fs: Fields, k: string)
    ensures Store(fs, k, Lookup(fs, k)) == fs
  {
    match Lookup(fs, k)
    case None => DeleteAbsent(fs, k);
    case Some(v) => PutSame(fs, k, v);
  }
}
