# Settings removal for an agent-skill uninstaller

This project models the uninstall script of an npm "skill" boilerplate, and proves properties of the model in Dafny. When the package is uninstalled, the script deletes the skill's directories and its manifest entry. It also reverses the edits its install step made to a shared `settings.json`. The reversal is done by the **structural settings-removal engine**, `removeSettingsItem`. It takes the parsed settings document (the *target*) and the parsed `settings` member of the skill's configuration (the *pattern*). It returns the target with the pattern's contribution removed:

- array members are filtered as sets of entries;
- nested objects are handled by recursion;
- a scalar member is deleted only if it still holds exactly the pattern's value;
- a container left empty is deleted from its parent;
- a type mismatch leaves the target alone.

Files:

- `json.dfy`: the JSON value model (`JsonValue`). Objects keep their members in order, as `seq<(string, Json)>`. Numbers are integers. The file also holds JavaScript's property read, `delete` and assignment on such objects, truthiness and `isObject`. It also defines `Option` and ordered subsequences (`Subseq`).
- `removal.dfy`: the removal engine (`SettingsRemoval`). The specification is the functions `Filter`, `Outcome`, `RemoveFields` and `Remove`. `RemoveSettingsItem` is the source's procedure, written as a recursive method: it copies the object target, then runs a loop over the pattern's members, with `RemovePatternMember` as the loop body. It is proved to compute `Remove`.
- `removal_properties.dfy`: what the engine promises (`RemovalProperties`), proved about `Remove`.
- `scenarios.dfy`: five worked examples.
- `uninstall.dfy`: the manifest-entry deletion and the per-target summary loop (`Uninstall`). File access is abstracted away.

Two choices follow the code closely:

- **Equality.** The code compares array elements by their `JSON.stringify` text. That comparison depends on member order. The model therefore uses Dafny's structural equality on ordered members. It does not use an order-insensitive deep equality.
- **Object pattern over an array member.** The code also recurses when the target member is an array and the pattern member is an object (line 155). The array is then kept whole, but it is deleted when it is already empty. `ObjectMember` states both cases.

## Model

| member | source | states |
|---|---|---|
| JsonValue.Truthy | uninstall-skill.js:45 | A JSON value is falsy exactly when it is `null`, `false`, `0` or the empty string. |
| JsonValue.TypeOf | uninstall-skill.js:119 | `typeof` gives "object" exactly for null, arrays and objects. Every other value gives "boolean", "number" or "string". |
| JsonValue.IsObject | uninstall-skill.js:118-120 | `isObject` holds exactly for objects. Null fails the truthiness test and arrays fail the `isArray` test. |
| JsonValue.Keys | uninstall-skill.js:137 | The member names of an object, in order, one per member. |
| JsonValue.Lookup | uninstall-skill.js:142 | Reading `result[key]` finds a value exactly when `key` is a member name. The value found belongs to a member with that name. |
| JsonValue.Delete | uninstall-skill.js:150 | After `delete`, no member has the name. Every other name reads as before. The remaining names are a subsequence of the old ones. |
| JsonValue.Put | uninstall-skill.js:143 | After assignment, the name reads the new value and every other name reads as before. |
| JsonValue.PutKeys | uninstall-skill.js:143 | Assignment to an existing name keeps the member names and their order. Assignment to a new name appends it. |
| JsonValue.PutKeysPresent | uninstall-skill.js:143 | Assignment to a name that is already present leaves the member names and their order unchanged. |
| JsonValue.PutKeysAbsent | uninstall-skill.js:143 | Assignment to a name that is not present appends that name after the existing names. |
| JsonValue.PutMembers | uninstall-skill.js:156 | After assignment, every member is an old member or the assigned one. |
| JsonValue.DeleteAbsent | uninstall-skill.js:150 | Deleting a name no member has changes nothing. |
| JsonValue.PutSame | uninstall-skill.js:143 | Assigning a member the value it already holds changes nothing. |
| JsonValue.DeleteAfterPut | uninstall-skill.js:143-151 | Assigning a filtered array and then deleting the member leaves the same object as deleting it directly. |
| JsonValue.PutKeepsUnique | uninstall-skill.js:156 | Assignment never creates a duplicate member name. |
| JsonValue.DeleteKeepsUnique | uninstall-skill.js:159 | Deletion keeps names unique and adds no member. |
| SettingsRemoval.Filter | uninstall-skill.js:143-147 | An element survives exactly when it equals no pattern element. Each survivor keeps its full multiplicity; each matched element has none left. |
| SettingsRemoval.IsEmptyContainer | uninstall-skill.js:149-161 | The emptiness tests hold exactly for `{}` and `[]`. |
| SettingsRemoval.Remove | uninstall-skill.js:122-134 | The result has the same kind as the target (null, boolean, number, string, array or object). |
| SettingsRemoval.RemoveFields | uninstall-skill.js:136-172 | The member names of the result are a subsequence of the target's names. No name is added and the relative order is kept. |
| SettingsRemoval.Outcome | uninstall-skill.js:139-170 | A member absent from the target stays absent, whatever the pattern value. |
| SettingsRemoval.Store | uninstall-skill.js:148-167 | Writing back an outcome sets or deletes exactly that member. All other members keep their values, and the names stay in order. |
| SettingsRemoval.RemoveSettingsItem | uninstall-skill.js:122-173 | The procedure (shallow copy, then a loop over the pattern's members) returns exactly `Remove(obj, pattern)`. |
| SettingsRemoval.RemovePatternMember | uninstall-skill.js:139-170 | One step of the loop, with its reassignments and deletions, equals storing that member's `Outcome`. |
| SettingsRemoval.StoreUnchanged | uninstall-skill.js:142-168 | A member that a step leaves untouched leaves the object unchanged. |
| RemovalProperties.FilterKeepsOrder | uninstall-skill.js:127-133 | The surviving elements are a subsequence of the target array, in their original order. |
| RemovalProperties.FilterIdempotent | uninstall-skill.js:143-147 | Filtering again with the same pattern removes nothing more. |
| RemovalProperties.ArrayTarget | uninstall-skill.js:125-134 | An array target with an array pattern keeps, in order and with multiplicities, exactly the elements that match no pattern element. With a non-array pattern it keeps all its elements. |
| RemovalProperties.ScalarTarget | uninstall-skill.js:123 | A target that is neither an array nor an object is returned as it is. |
| RemovalProperties.LookupAt | uninstall-skill.js:139-140 | With unique names, reading `pattern[key]` for the i-th key yields the i-th member's value. |
| RemovalProperties.RemoveFieldsLookup | uninstall-skill.js:139-170 | After the loop, a member named by the pattern holds its one outcome. Any other member holds what it held before. |
| RemovalProperties.PatternMember | uninstall-skill.js:136-172 | A member named in the pattern ends with the outcome of its pattern value applied to its target value. |
| RemovalProperties.UnnamedMember | uninstall-skill.js:136 | A member the remaining pattern members do not name keeps its exact value. |
| RemovalProperties.ObjectTarget | uninstall-skill.js:136-172 | Every result name is a target name, in the target's relative order. Every target member the pattern does not name keeps its exact value. |
| RemovalProperties.ScalarMember | uninstall-skill.js:164-168 | A member whose pattern value is a scalar or null is deleted exactly when the target holds that value. A different or absent value stays. |
| RemovalProperties.ArrayMember | uninstall-skill.js:140-152 | Under an array pattern value, an array member becomes its filtered elements, or is deleted when none survive. An absent or non-array member stays. |
| RemovalProperties.ObjectMember | uninstall-skill.js:153-163 | Under an object pattern value, an object member becomes the recursive result, or is deleted when that result is empty. An array member is kept whole, or is deleted when it is already empty. An absent or scalar member stays. |
| RemovalProperties.DisjointFields | uninstall-skill.js:139-170 | Pattern members none of whose names occur in the object change nothing. |
| RemovalProperties.Disjoint | uninstall-skill.js:136-172 | When the target has no member the pattern names, the result equals the target. |
| RemovalProperties.RemoveIdempotent | uninstall-skill.js:122-173 | Removing again with the same pattern returns the same document. |
| RemovalProperties.SettledFields | uninstall-skill.js:139-170 | Pattern members that no longer change the object leave it as it is. |
| RemovalProperties.OutcomeIdempotent | uninstall-skill.js:140-169 | The outcome for a member is already final: applying the same pattern value again keeps it. |
| RemovalProperties.RemoveWellFormed | uninstall-skill.js:122-173 | A target with unique member names at every depth gives a result with the same property. |
| RemovalProperties.RemoveFieldsWellFormed | uninstall-skill.js:139-170 | Each pass of the loop keeps member names unique at every depth. |
| RemovalProperties.StepWellFormed | uninstall-skill.js:140-169 | One member's step keeps member names unique at every depth. |
| RemovalProperties.OutcomeWellFormed | uninstall-skill.js:143-156 | A filtered array or recursive result built from a well-formed value is well formed. |
| RemovalProperties.StoreWellFormed | uninstall-skill.js:149-167 | Deleting a member, or assigning a well-formed value, keeps the object well formed. |
| Scenarios.NestedMemberRemoved | uninstall-skill.js:153-163 | `{a:1, b:{c:2, d:3}}` minus `{b:{c:2}}` is `{a:1, b:{d:3}}`. |
| Scenarios.InnerMemberRemoved | uninstall-skill.js:164-168 | `{c:2, d:3}` minus `{c:2}` is `{d:3}`. |
| Scenarios.HookEntryFiltered | uninstall-skill.js:140-147 | `{hooks:[{id:1},{id:2}]}` minus `{hooks:[{id:1}]}` is `{hooks:[{id:2}]}`. |
| Scenarios.OneEntryFiltered | uninstall-skill.js:143-147 | Filtering `[{id:1},{id:2}]` by `[{id:1}]` leaves `[{id:2}]`. |
| Scenarios.EmptiedArrayPruned | uninstall-skill.js:148-151 | `{hooks:[{id:1}]}` minus itself is `{}`. |
| Scenarios.AbsentMemberIgnored | uninstall-skill.js:164-168 | `{a:1}` minus `{b:2}` is `{a:1}`. |
| Scenarios.ChangedValueKept | uninstall-skill.js:164-168 | `{a:{b:1}}` minus `{a:{b:2}}` is `{a:{b:1}}`. |
| Uninstall.Get | uninstall-skill.js:45 | A property read finds a value exactly when the value read from is an object that has that member. The value found belongs to a member of that name. |
| Uninstall.SkillsOf | uninstall-skill.js:45 | The `skills` entries exist exactly when `manifest.skills` is present and is an object. They are the value of the manifest's `skills` member. |
| Uninstall.RemoveSkillEntry | uninstall-skill.js:45-47 | A document is written exactly when `skills` is an object whose entry for the name is present and truthy. The new `skills` no longer maps the name and every other entry is unchanged. The other top-level members and their order are unchanged. A null manifest gives the caught warning (lines 50-52). |
| Uninstall.TargetNames | uninstall-skill.js:92 | The names of the targets, in order. |
| Uninstall.UninstalledFrom | uninstall-skill.js:91-101 | The reference summary: it has at most one name per target, and it is empty when no target reported success. `UninstalledOrder` and `UninstalledMembers` state its order and its members. |
| Uninstall.UninstalledOrder | uninstall-skill.js:91-101 | The summary list is a subsequence of the target names, in target order. |
| Uninstall.UninstalledMembers | uninstall-skill.js:96-98 | A name is in the summary list exactly when some target of that name reported success. |
| Uninstall.CollectUninstalled | uninstall-skill.js:91-101 | The loop that pushes successful targets' names returns exactly `UninstalledFrom(runs)`. |
| Uninstall.UninstalledFromAppend | uninstall-skill.js:92-101 | Targets are summarised independently: the summary of a concatenation is the concatenation of the summaries. |
| Uninstall.ThrowingTargetSkipped | uninstall-skill.js:93-100 | A target that throws contributes nothing and does not stop the targets after it. |

## Left out

- File-system work is not modelled: `existsSync`, `rmSync`, `readFileSync`, `writeFileSync` and the path composition (lines 19-38, 41-44, 57, 74-80, 176-186). It is I/O with no logic to prove.
- Console output, including the summary text chosen at lines 103-115, is not modelled. It is logging only.
- `uninstallFromTarget` is reduced to its outcome (`Removed`, `NotInstalled` or `Threw`). That outcome is an input of the summary loop. Its `removed` flag depends only on which directories exist on disk.
- `process.env.npm_config_global` and the helpers from `./utils` (`getEnabledTargets`, `extractSkillName`, `detectInstallLocation`) are not modelled. They are ambient state and code that is not part of this model. The enabled targets are given as a sequence.
- `removeSettings` (lines 175-191) is reduced to its call of `removeSettingsItem`. Its file access and its catch-and-warn are I/O. The `config.settings` truthiness guard at line 56 is not modelled either, because `Remove` takes the pattern as given.
- JSON text parsing and formatting are not modelled. Numbers are integers, so floating point, `-0` and `NaN` are out of scope. Equal serialised text is taken to be equal values.
- Remove: requires that an object target comes with an object pattern. The recursion reaches the object branch only under an object pattern (line 153). A non-object pattern can only reach it at the top level, through `config.settings`, which is expected to be an object. Line 56 lets only a truthy pattern through, so null never arrives there. For a truthy non-object pattern, JavaScript's `Object.keys` lists an array's or a string's indices, and the members with those index names are then matched against the elements or characters. For `true` or a non-zero number it lists nothing, and the result is an unchanged copy of the target.
- JavaScript object details are not modelled:
  - the ordering of integer-like keys: members are taken in the order the parser produced them;
  - inherited names such as `toString` or `__proto__`, which `result[key]` reads through the prototype;
  - duplicate names in the JSON text.
- The top-level `try { uninstallSkill() } catch` at lines 194-199 is not modelled. It only logs the error, so that an uninstall never fails the package manager's run.
- RemoveSkillEntry: treats a truthy non-object `skills` value, such as an array or string, as having no entries. JavaScript would read its index or `length` properties.
