/** Worked examples of the removal engine on small settings documents. */
module Scenarios {
  import opened Options
  import opened JsonValue
  import opened SettingsRemoval

  /** A nested member is removed and its non-empty parent kept. */
  lemma NestedMemberRemoved()
    ensures Remove(JObj([("a", JNum(1)), ("b", JObj([("c", JNum(2)), ("d", JNum(3))]))]),
                   JObj([("b", JObj([("c", JNum(2))]))]))
         == JObj([("a", JNum(1)), ("b", JObj([("d", JNum(3))]))])
  {
    var pin := JObj([("c", JNum(2))]);
    var rest := JObj([("d", JNum(3))]);
    InnerMemberRemoved();
    var fs := [("a", JNum(1)), ("b", JObj([("c", JNum(2)), ("d", JNum(3))]))];
    var p := JObj([("b", pin)]);
    assert Lookup(fs, "b") == Some(JObj([("c", JNum(2)), ("d", JNum(3))]));
    assert Outcome(Some(JObj([("c", JNum(2)), ("d", JNum(3))])), pin) == Some(rest);
    var after := [("a", JNum(1)), ("b", rest)];
    assert Put(fs, "b", rest) == after by {
      assert Put(fs[1..], "b", rest) == after[1..];
    }
    assert RemoveFields(fs, p, 0) == RemoveFields(after, p, 1);
  }

  lemma InnerMemberRemoved()
    ensures Remove(JObj([("c", JNum(2)), ("d", JNum(3))]), JObj([("c", JNum(2))])) == JObj([("d", JNum(3))])
  {
    var inner := [("c", JNum(2)), ("d", JNum(3))];
    var pin := JObj([("c", JNum(2))]);
    assert Outcome(Lookup(inner, "c"), JNum(2)) == None;
    assert Delete(inner, "c") == [("d", JNum(3))] by {
      assert Delete(inner[1..], "c") == inner[1..];
    }
    assert RemoveFields(inner, pin, 0) == RemoveFields([("d", JNum(3))], pin, 1);
  }

  /** One matching hook entry is filtered out of an array. */
  lemma HookEntryFiltered()
    ensures Remove(JObj([("hooks", JArr([JObj([("id", JNum(1))]), JObj([("id", JNum(2))])]))]),
                   JObj([("hooks", JArr([JObj([("id", JNum(1))])]))]))
         == JObj([("hooks", JArr([JObj([("id", JNum(2))])]))])
  {
    var one, two := JObj([("id", JNum(1))]), JObj([("id", JNum(2))]);
    OneEntryFiltered(one, two);
    var fs := [("hooks", JArr([one, two]))];
    var p := JObj([("hooks", JArr([one]))]);
    assert Lookup(fs, "hooks") == Some(JArr([one, two]));
    assert Outcome(Lookup(fs, "hooks"), JArr([one])) == Some(JArr([two]));
    var after := [("hooks", JArr([two]))];
    assert Put(fs, "hooks", JArr([two])) == after;
    assert RemoveFields(fs, p, 0) == RemoveFields(after, p, 1);
  }

  lemma OneEntryFiltered(one: Json, two: Json)
    requires one == JObj([("id", JNum(1))]) && two == JObj([("id", JNum(2))])
    ensures Filter([one, two], [one]) == [two]
  {
    assert one != two by {
      assert one.fields[0].1 != two.fields[0].1;
    }
    var items := [one, two];
    assert items[1..] == [two];
    assert Filter([two], [one]) == [two] + Filter([], [one]);
  }

  /** The array becomes empty, so its member is pruned. */
  lemma EmptiedArrayPruned()
    ensures Remove(JObj([("hooks", JArr([JObj([("id", JNum(1))])]))]),
                   JObj([("hooks", JArr([JObj([("id", JNum(1))])]))]))
         == JObj([])
  {
  }

  /** A member the target does not have is ignored. */
  lemma AbsentMemberIgnored()
    ensures Remove(JObj([("a", JNum(1))]), JObj([("b", JNum(2))])) == JObj([("a", JNum(1))])
  {
  }

  /** A scalar that has changed since install is kept. */
  lemma ChangedValueKept()
    ensures Remove(JObj([("a", JObj([("b", JNum(1))]))]), JObj([("a", JObj([("b", JNum(2))]))]))
         == JObj([("a", JObj([("b", JNum(1))]))])
  {
    var inner := [("b", JNum(1))];
    var pin := JObj([("b", JNum(2))]);
    assert RemoveFields(inner, pin, 0) == RemoveFields(inner, pin, 1);
    var fs := [("a", JObj(inner))];
    var p := JObj([("a", pin)]);
    assert RemoveFields(fs, p, 0) == RemoveFields(fs, p, 1);
  }
}
