/**
 * What the removal engine promises: which members and elements survive,
 * in what order, with what values; that mismatches are no-ops; that
 * removing twice is removing once; and that documents stay well formed.
 */
module RemovalProperties {
  import opened Options
  import opened Subsequences
  import opened JsonValue
  import opened SettingsRemoval

  // ----- Arrays -----

  /** Filtering keeps the surviving elements in their original order. */
  lemma {:induction false} FilterKeepsOrder(items: seq<Json>, pat: seq<Json>)
    ensures Subseq(Filter(items, pat), items)
  {
    if items != [] {
      FilterKeepsOrder(items[1..], pat);
      var rest := Filter(items[1..], pat);
      if items[0] in pat {
        assert Filter(items, pat) == rest;
      } else {
        assert Filter(items, pat)[1..] == rest;
      }
    }
  }

  /** Filtering again by the same pattern removes nothing more. */
  lemma {:induction false} FilterIdempotent(items: seq<Json>, pat: seq<Json>)
    ensures Filter(Filter(items, pat), pat) == Filter(items, pat)
  {
    if items != [] {
      FilterIdempotent(items[1..], pat);
      var rest := Filter(items[1..], pat);
      if items[0] !in pat {
        var once := [items[0]] + rest;
        assert once[1..] == rest;
      }
    }
  }

  /**
   * An array target keeps, in order and with their multiplicities, exactly
   * the elements that equal no element of an array pattern, and keeps all
   * its elements when the pattern is not an array.
   */
  lemma ArrayTarget(items: seq<Json>, pattern: Json)
    ensures Remove(JArr(items), pattern).JArr?
    ensures var r := Remove(JArr(items), pattern).items;
      && Subseq(r, items)
      && (forall x :: x in r <==> x in items && !(pattern.JArr? && x in pattern.items))
      && (forall x :: multiset(r)[x] == if pattern.JArr? && x in pattern.items then 0 else multiset(items)[x])
  {
    if pattern.JArr? {
      FilterKeepsOrder(items, pattern.items);
    } else {
      SubseqRefl(items);
    }
  }

  /** A target that is neither an array nor an object comes back as it is. */
  lemma ScalarTarget(target: Json, pattern: Json)
    requires !target.JArr? && !target.JObj?
    ensures Remove(target, pattern) == target
  {
  }

  // ----- Objects: member by member -----

  /** In an object with unique names, member `i` is the one a lookup finds. */
  lemma {:induction false} LookupAt(fs: Fields, i: nat)
    requires UniqueKeys(fs) && i < |fs|
    ensures Lookup(fs, fs[i].0) == Some(fs[i].1)
  {
    if i > 0 {
      assert fs[0].0 != fs[i].0;
      assert UniqueKeys(fs[1..]) by {
        forall a, b | 0 <= a < b < |fs[1..]| ensures fs[1..][a].0 != fs[1..][b].0 {
          assert fs[1..][a] == fs[a + 1] && fs[1..][b] == fs[b + 1];
        }
      }
      LookupAt(fs[1..], i - 1);
    }
  }

  /**
   * After the pattern members from index `i` on have been applied, a member
   * named by one of them holds that member's outcome, and any other member
   * holds what it held before.
   */
  lemma {:induction false} RemoveFieldsLookup(fs: Fields, pattern: Json, i: nat, k: string)
    requires pattern.JObj? && UniqueKeys(pattern.fields) && i <= |pattern.fields|
    ensures Lookup(RemoveFields(fs, pattern, i), k) ==
      match Lookup(pattern.fields[i..], k)
      case None => Lookup(fs, k)
      case Some(pv) => Outcome(Lookup(fs, k), pv)
    decreases |pattern.fields| - i
  {
    var pfs := pattern.fields;
    if i < |pfs| {
      var e := pfs[i];
      var next := Store(fs, e.0, Outcome(Lookup(fs, e.0), e.1));
      assert RemoveFields(fs, pattern, i) == RemoveFields(next, pattern, i + 1);
      RemoveFieldsLookup(next, pattern, i + 1, k);
      var here, later := pfs[i..], pfs[i + 1..];
      assert here[0] == e && here[1..] == later;
      if k == e.0 {
        var ks := Keys(later);
        forall j | 0 <= j < |ks| ensures ks[j] != k {
          assert later[j] == pfs[i + 1 + j];
        }
        assert Lookup(later, k) == None;
        assert Lookup(here, k) == Some(e.1);
      } else {
        assert Lookup(here, k) == Lookup(later, k);
        assert Lookup(next, k) == Lookup(fs, k);
      }
    } else {
      assert pfs[i..] == [];
    }
  }

  /** The member a pattern names holds, after the removal, its outcome. */
  lemma PatternMember(fs: Fields, pfs: Fields, k: string, pv: Json)
    requires UniqueKeys(pfs) && Lookup(pfs, k) == Some(pv)
    ensures Lookup(Remove(JObj(fs), JObj(pfs)).fields, k) == Outcome(Lookup(fs, k), pv)
  {
    RemoveFieldsLookup(fs, JObj(pfs), 0, k);
    assert pfs[0..] == pfs;
  }

  /** A member the pattern does not name keeps its exact value. */
  lemma {:induction false} UnnamedMember(fs: Fields, pattern: Json, i: nat, k: string)
    requires pattern.JObj? && i <= |pattern.fields|
    requires k !in Keys(pattern.fields[i..])
    ensures Lookup(RemoveFields(fs, pattern, i), k) == Lookup(fs, k)
    decreases |pattern.fields| - i
  {
    var pfs := pattern.fields;
    if i < |pfs| {
      var (key, pv) := pfs[i];
      assert pfs[i..][0] == pfs[i] && pfs[i..][1..] == pfs[i + 1..];
      assert Keys(pfs[i..]) == [key] + Keys(pfs[i + 1..]);
      UnnamedMember(Store(fs, key, Outcome(Lookup(fs, key), pv)), pattern, i + 1, k);
    }
  }

  /**
   * Object targets: every member of the result is a member of the target,
   * in the target's relative order, and every member the pattern does not
   * name keeps its exact value.
   */
  lemma ObjectTarget(fs: Fields, pfs: Fields)
    ensures Remove(JObj(fs), JObj(pfs)).JObj?
    ensures var r := Remove(JObj(fs), JObj(pfs)).fields;
      && Subseq(Keys(r), Keys(fs))
      && (forall k :: k in Keys(r) ==> k in Keys(fs))
      && (forall k :: k !in Keys(pfs) ==> Lookup(r, k) == Lookup(fs, k))
  {
    var r := Remove(JObj(fs), JObj(pfs)).fields;
    forall k | k in Keys(r) ensures k in Keys(fs) {
      SubseqMembers(Keys(r), Keys(fs), k);
    }
    forall k | k !in Keys(pfs) ensures Lookup(r, k) == Lookup(fs, k) {
      assert pfs[0..] == pfs;
      UnnamedMember(fs, JObj(pfs), 0, k);
    }
  }

  /**
   * A member whose pattern value is a scalar or null is deleted exactly when
   * the target holds that very value; a different or absent value stays.
   */
  lemma ScalarMember(fs: Fields, pfs: Fields, k: string, pv: Json)
    requires UniqueKeys(pfs) && Lookup(pfs, k) == Some(pv)
    requires !pv.JArr? && !pv.JObj?
    ensures var r := Remove(JObj(fs), JObj(pfs)).fields;
      Lookup(r, k) == if Lookup(fs, k) == Some(pv) then None else Lookup(fs, k)
  {
    PatternMember(fs, pfs, k, pv);
  }

  /**
   * A member whose pattern value is an array: an array member is replaced by
   * its filtered elements, or deleted when none survive; a member that is
   * absent or not an array is left alone.
   */
  lemma ArrayMember(fs: Fields, pfs: Fields, k: string, pv: Json)
    requires UniqueKeys(pfs) && Lookup(pfs, k) == Some(pv) && pv.JArr?
    ensures var r := Remove(JObj(fs), JObj(pfs)).fields;
      var cur := Lookup(fs, k);
      if cur.Some? && cur.value.JArr? then
        var f := Filter(cur.value.items, pv.items);
        Lookup(r, k) == if f == [] then None else Some(JArr(f))
      else
        Lookup(r, k) == cur
  {
    PatternMember(fs, pfs, k, pv);
    OutcomeUnderArray(Lookup(fs, k), pv);
  }

  lemma OutcomeUnderArray(cur: Option<Json>, pv: Json)
    requires pv.JArr?
    ensures Outcome(cur, pv) ==
      if cur.Some? && cur.value.JArr? then
        var f := Filter(cur.value.items, pv.items);
        if f == [] then None else Some(JArr(f))
      else cur
  {
  }

  /**
   * A member whose pattern value is an object: an object member is replaced
   * by the recursive removal, or deleted when that leaves it without
   * members; an array member is kept whole, or deleted when it is already
   * empty; a member that is absent or a scalar is left alone.
   */
  lemma ObjectMember(fs: Fields, pfs: Fields, k: string, pv: Json)
    requires UniqueKeys(pfs) && Lookup(pfs, k) == Some(pv) && pv.JObj?
    ensures var r := Remove(JObj(fs), JObj(pfs)).fields;
      var cur := Lookup(fs, k);
      if cur.Some? && cur.value.JObj? then
        var sub := Remove(cur.value, pv);
        Lookup(r, k) == if sub.fields == [] then None else Some(sub)
      else if cur.Some? && cur.value.JArr? then
        Lookup(r, k) == if cur.value.items == [] then None else cur
      else
        Lookup(r, k) == cur
  {
    PatternMember(fs, pfs, k, pv);
    OutcomeUnderObject(Lookup(fs, k), pv);
  }

  lemma OutcomeUnderObject(cur: Option<Json>, pv: Json)
    requires pv.JObj?
    ensures Outcome(cur, pv) ==
      if cur.Some? && (cur.value.JObj? || cur.value.JArr?) then
        var sub := Remove(cur.value, pv);
        if IsEmptyContainer(sub) then None else Some(sub)
      else cur
  {
  }

  /** When no member the pattern names is present, the object is unchanged. */
  lemma {:induction false} DisjointFields(fs: Fields, pattern: Json, i: nat)
    requires pattern.JObj? && i <= |pattern.fields|
    requires forall j :: i <= j < |pattern.fields| ==> pattern.fields[j].0 !in Keys(fs)
    ensures RemoveFields(fs, pattern, i) == fs
    decreases |pattern.fields| - i
  {
    if i < |pattern.fields| {
      var (key, pv) := pattern.fields[i];
      assert Lookup(fs, key) == None;
      DeleteAbsent(fs, key);
      DisjointFields(fs, pattern, i + 1);
    }
  }

  lemma Disjoint(fs: Fields, pfs: Fields)
    requires forall k :: k in Keys(pfs) ==> k !in Keys(fs)
    ensures Remove(JObj(fs), JObj(pfs)) == JObj(fs)
  {
    DisjointFields(fs, JObj(pfs), 0);
  }

  // ----- Idempotence -----

  /** Removing a second time with the same pattern changes nothing. */
  lemma {:induction false} RemoveIdempotent(target: Json, pattern: Json)
    requires target.JObj? ==> pattern.JObj?
    requires WellFormed(pattern)
    ensures Remove(Remove(target, pattern), pattern) == Remove(target, pattern)
    decreases pattern, 1, 0
  {
    match target
    case JArr(items) =>
      if pattern.JArr? {
        FilterIdempotent(items, pattern.items);
      }
    case JObj(fs) =>
      var pfs := pattern.fields;
      var r := RemoveFields(fs, pattern, 0);
      forall j | 0 <= j < |pfs| ensures Settled(r, pfs[j]) {
        var (key, pv) := pfs[j];
        LookupAt(pfs, j);
        assert pfs[0..] == pfs;
        RemoveFieldsLookup(fs, pattern, 0, key);
        OutcomeIdempotent(Lookup(fs, key), pv);
      }
      SettledFields(r, pattern, 0);
    case _ =>
  }

  /** Member `e` of a pattern no longer changes the object `fs`. */
  ghost predicate Settled(fs: Fields, e: (string, Json)) {
    Outcome(Lookup(fs, e.0), e.1) == Lookup(fs, e.0)
  }

  /** Pattern members that are all settled leave the object as it is. */
  lemma {:induction false} SettledFields(fs: Fields, pattern: Json, i: nat)
    requires pattern.JObj? && i <= |pattern.fields|
    requires forall j :: i <= j < |pattern.fields| ==> Settled(fs, pattern.fields[j])
    ensures RemoveFields(fs, pattern, i) == fs
    decreases |pattern.fields| - i
  {
    if i < |pattern.fields| {
      assert Settled(fs, pattern.fields[i]);
      StoreUnchanged(fs, pattern.fields[i].0);
      SettledFields(fs, pattern, i + 1);
    }
  }

  /** The outcome for one member is already final: applying it again keeps it. */
  lemma {:induction false} OutcomeIdempotent(cur: Option<Json>, pv: Json)
    requires WellFormed(pv)
    ensures Outcome(Outcome(cur, pv), pv) == Outcome(cur, pv)
    decreases pv, 2, 0
  {
    match pv
    case JArr(pitems) =>
      if cur.Some? && cur.value.JArr? {
        FilterIdempotent(cur.value.items, pitems);
      }
    case JObj(_) =>
      if cur.Some? && (cur.value.JObj? || cur.value.JArr?) {
        RemoveIdempotent(cur.value, pv);
      }
    case _ =>
  }

  // ----- Well-formedness -----

  /** Removal never introduces a duplicate member name, at any depth. */
  lemma {:induction false} RemoveWellFormed(target: Json, pattern: Json)
    requires target.JObj? ==> pattern.JObj?
    requires WellFormed(target)
    ensures WellFormed(Remove(target, pattern))
    decreases pattern, 1, 0
  {
    match target
    case JArr(items) =>
      if pattern.JArr? {
        var f := Filter(items, pattern.items);
        forall j | 0 <= j < |f| ensures WellFormed(f[j]) {
          assert f[j] in items;
        }
      }
    case JObj(fs) =>
      RemoveFieldsWellFormed(fs, pattern, 0);
    case _ =>
  }

  lemma {:induction false} RemoveFieldsWellFormed(fs: Fields, pattern: Json, i: nat)
    requires pattern.JObj? && i <= |pattern.fields|
    requires WellFormed(JObj(fs))
    ensures WellFormed(JObj(RemoveFields(fs, pattern, i)))
    decreases pattern, 0, |pattern.fields| - i
  {
    if i < |pattern.fields| {
      var e := pattern.fields[i];
      StepWellFormed(fs, e.0, e.1);
      RemoveFieldsWellFormed(Store(fs, e.0, Outcome(Lookup(fs, e.0), e.1)), pattern, i + 1);
    }
  }

  lemma {:induction false} StepWellFormed(fs: Fields, key: string, pv: Json)
    requires WellFormed(JObj(fs))
    ensures WellFormed(JObj(Store(fs, key, Outcome(Lookup(fs, key), pv))))
    decreases pv, 3, 0
  {
    var cur := Lookup(fs, key);
    if cur.Some? {
      var idx :| 0 <= idx < |fs| && fs[idx] == (key, cur.value);
      assert WellFormed(fs[idx].1);
      OutcomeWellFormed(cur.value, pv);
    }
    StoreWellFormed(fs, key, Outcome(cur, pv));
  }

  lemma {:induction false} OutcomeWellFormed(v: Json, pv: Json)
    requires WellFormed(v)
    ensures var o := Outcome(Some(v), pv); o.Some? ==> WellFormed(o.value)
    decreases pv, 2, 0
  {
    match pv
    case JArr(pitems) =>
      if v.JArr? {
        RemoveWellFormed(v, pv);
        assert Remove(v, pv) == JArr(Filter(v.items, pitems));
      }
    case JObj(_) =>
      if v.JObj? || v.JArr? {
        RemoveWellFormed(v, pv);
      }
    case _ =>
  }

  lemma StoreWellFormed(fs: Fields, k: string, o: Option<Json>)
    requires o.Some? ==> k in Keys(fs)
    requires WellFormed(JObj(fs)) && (o.Some? ==> WellFormed(o.value))
    ensures WellFormed(JObj(Store(fs, k, o)))
  {
    var r := Store(fs, k, o);
    match o
    case None =>
      DeleteKeepsUnique(fs, k);
      forall j | 0 <= j < |r| ensures WellFormed(r[j].1) {
        assert r[j] in fs;
      }
    case Some(v) =>
      PutKeepsUnique(fs, k, v);
      PutMembers(fs, k, v);
      forall j | 0 <= j < |r| ensures WellFormed(r[j].1) {
        assert r[j] in fs || r[j] == (k, v);
      }
  }
}
