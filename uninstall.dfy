/**
 * The two pieces of the uninstall run beside the removal engine: dropping
 * the skill's entry from a target's manifest, and collecting the names of
 * the targets the skill was uninstalled from. File access and logging are
 * outside the model; each target's own uninstall is given as its outcome.
 */
module Uninstall {
  import opened Options
  import opened Subsequences
  import opened JsonValue

  // ----- Manifest entry -----

  /** What the manifest step does: write a new document, skip, or warn. */
  datatype ManifestResult = Written(manifest: Json) | Skipped | Warned

  /**
   * Property read `j[k]` on a parsed value, None standing for `undefined`.
   * Reading a property of null throws, so callers handle JNull themselves.
   */
  function Get(j: Json, k: string): (r: Option<Json>)
    ensures r.Some? <==> j.JObj? && k in Keys(j.fields)
    ensures r.Some? ==> (k, r.value) in j.fields
  {
    if j.JObj? then Lookup(j.fields, k) else None
  }

  /** The members of the manifest's `skills` object, if it has one. */
  function SkillsOf(manifest: Json): (r: Option<Fields>)
    ensures r.Some? <==> Get(manifest, "skills").Some? && Get(manifest, "skills").value.JObj?
    ensures r.Some? ==> ("skills", JObj(r.value)) in manifest.fields
  {
    match Get(manifest, "skills")
    case Some(JObj(sfs)) => Some(sfs)
    case _ => None
  }

  /**
   * Remove the entry `name` from `manifest.skills` when `skills` and that
   * entry are both present and truthy, and only then produce a document to
   * write back. A null manifest makes the property read throw, which the
   * caller reports as a warning.
   */
  method RemoveSkillEntry(manifest: Json, name: string) returns (res: ManifestResult)
    ensures res.Warned? <==> manifest == JNull
    ensures res.Written? <==>
      SkillsOf(manifest).Some? && Lookup(SkillsOf(manifest).value, name).Some? &&
      Truthy(Lookup(SkillsOf(manifest).value, name).value)
    ensures res.Written? ==>
      var m := res.manifest;
      && m.JObj? && Keys(m.fields) == Keys(manifest.fields)
      && (forall k :: k != "skills" ==> Get(m, k) == Get(manifest, k))
      && SkillsOf(m).Some?
      && Lookup(SkillsOf(m).value, name) == None
      && (forall k :: k != name ==> Lookup(SkillsOf(m).value, k) == Lookup(SkillsOf(manifest).value, k))
  {
    if manifest == JNull {
      return Warned;
    }
    var skills := Get(manifest, "skills");
    if skills.None? || !Truthy(skills.value) {
      return Skipped;
    }
    var entry := if skills.value.JObj? then Lookup(skills.value.fields, name) else None;
    if entry.None? || !Truthy(entry.value) {
      return Skipped;
    }
    var remaining := Delete(skills.value.fields, name);
    PutKeys(manifest.fields, "skills", JObj(remaining));
    res := Written(JObj(Put(manifest.fields, "skills", JObj(remaining))));
    assert SkillsOf(res.manifest) == Some(remaining);
  }

  // ----- Summary of the run -----

  /** How one target's uninstall ended: a directory was removed, none was found, or it threw. */
  datatype TargetOutcome = Removed | NotInstalled | Threw(message: string)

  datatype TargetRun = TargetRun(name: string, outcome: TargetOutcome)

  function TargetNames(runs: seq<TargetRun>): (ns: seq<string>)
    ensures |ns| == |runs|
    ensures forall i :: 0 <= i < |runs| ==> ns[i] == runs[i].name
  {
    if runs == [] then [] else [runs[0].name] + TargetNames(runs[1..])
  }

  /** The names of the targets whose uninstall reported success, in target order. */
  function UninstalledFrom(runs: seq<TargetRun>): (ns: seq<string>)
    ensures |ns| <= |runs|
    ensures (forall i :: 0 <= i < |runs| ==> !runs[i].outcome.Removed?) ==> ns == []
  {
    if runs == [] then []
    else (if runs[0].outcome.Removed? then [runs[0].name] else []) + UninstalledFrom(runs[1..])
  }

  /** The summary lists target names in the targets' own order. */
  lemma {:induction false} UninstalledOrder(runs: seq<TargetRun>)
    ensures Subseq(UninstalledFrom(runs), TargetNames(runs))
  {
    if runs != [] {
      UninstalledOrder(runs[1..]);
      var rest := UninstalledFrom(runs[1..]);
      var ns := UninstalledFrom(runs);
      assert TargetNames(runs)[1..] == TargetNames(runs[1..]);
      if runs[0].outcome.Removed? {
        assert ns[0] == runs[0].name && ns[1..] == rest;
      } else {
        assert ns == rest;
      }
    }
  }

  /** A name is in the summary exactly when some target of that name succeeded. */
  lemma {:induction false} UninstalledMembers(runs: seq<TargetRun>, n: string)
    ensures n in UninstalledFrom(runs) <==>
      exists i :: 0 <= i < |runs| && runs[i].name == n && runs[i].outcome.Removed?
  {
    if runs != [] {
      UninstalledMembers(runs[1..], n);
      var rest := UninstalledFrom(runs[1..]);
      assert UninstalledFrom(runs) == if runs[0].outcome.Removed? then [runs[0].name] + rest else rest;
      assert forall i :: 0 < i < |runs| ==> runs[i] == runs[1..][i - 1];
      if exists i :: 0 <= i < |runs[1..]| && runs[1..][i].name == n && runs[1..][i].outcome.Removed? {
        var i :| 0 <= i < |runs[1..]| && runs[1..][i].name == n && runs[1..][i].outcome.Removed?;
        assert runs[i + 1] == runs[1..][i];
      }
    }
  }

  /** The loop over the enabled targets, one outcome at a time. */
  method CollectUninstalled(runs: seq<TargetRun>) returns (uninstalledFrom: seq<string>)
    ensures uninstalledFrom == UninstalledFrom(runs)
  {
    uninstalledFrom := [];
    for i := 0 to |runs|
      invariant uninstalledFrom == UninstalledFrom(runs[..i])
    {
      var run := runs[i];
      UninstalledFromAppend(runs[..i], [run]);
      assert runs[..i + 1] == runs[..i] + [run];
      match run.outcome
      case Removed =>
        uninstalledFrom := uninstalledFrom + [run.name];
      case NotInstalled =>
      case Threw(_) =>
    }
    assert runs[..|runs|] == runs;
  }

  /** Runs are summarised independently: the summary of a concatenation is the concatenation. */
  lemma {:induction false} UninstalledFromAppend(a: seq<TargetRun>, b: seq<TargetRun>)
    ensures UninstalledFrom(a + b) == UninstalledFrom(a) + UninstalledFrom(b)
  {
    if a != [] {
      var ab := a + b;
      assert ab[0] == a[0] && ab[1..] == a[1..] + b;
      UninstalledFromAppend(a[1..], b);
    } else {
      assert a + b == b;
    }
  }

  /** A target that throws contributes nothing and does not stop the targets after it. */
  lemma ThrowingTargetSkipped(before: seq<TargetRun>, failed: TargetRun, after: seq<TargetRun>)
    requires failed.outcome.Threw?
    ensures UninstalledFrom(before + [failed] + after) == UninstalledFrom(before) + UninstalledFrom(after)
  {
    UninstalledFromAppend(before + [failed], after);
    UninstalledFromAppend(before, [failed]);
  }
}
