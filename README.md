# User-component registry

This project models the registry that lets a user add their own components to the host at run time
(`src/components/user-component.ts`). Its three operations are:

- **install** parses the submitted code into component metadata. It refuses code that does not parse and names
  that a built-in component already uses. It then either updates the persisted record of that name or creates
  the record and activates the component.
- **uninstall** finds a record by key or display name. If the component is loaded, it first disables the
  record's settings and removes the component from the active list and the name index. It then deletes the record.
- **toggle** finds a record the same way and flips its enable flag.

The state is three containers that the source updates in place:

- `settings.userComponents`: the persisted records, keyed by component name;
- the active component list;
- the name index over that list.

The model holds the records as a map with a separate key sequence (`keyOrder`), which stands for the order in
which `Object.entries` enumerates the record object's keys.

The model is split into these modules:

- `Wrappers`: `Option` and `Result`.
- `Metadata`: metadata values, and the removal of execution-only properties before persistence.
- `SettingsMerge`: the settings value and the policy that reconciles stored options with newly declared defaults.
- `RegistrySpec`:
  - the registry state as a value (`Store`);
  - the first-match lookup;
  - the registry invariant `Consistent`. Key order and records agree, no name appears twice, the index has
    exactly the names of the active list, every loaded user component has a record, and no record uses a
    built-in name;
  - each operation as a function from state to new state and reply.
- `RegistryProperties`: what the operations promise, proved about those functions. This covers error cases,
  exact effects, preservation of the invariant, toggling twice, and an end-to-end scenario.
- `UserComponentRegistry`: the class `Registry`, whose methods update its fields step by step.
  - Each method is proved to produce exactly the state and reply of the corresponding function in `RegistrySpec`.
  - Each method keeps the invariant.
  - The record lookup (`Lookup`) and the array-restoring pass of the settings merge (`MergeOptions`) are
    loops proved against their specification functions.

The parser, `componentToSettings` and the list of built-in components are outside this file. They appear as
parameters: the parse result (`parsed`), the default-settings function (`toSettings`), and the constant name
list `builtIns` of a registry.

Two behaviours of the code are worth stating plainly:

- **Lookup.** The lookup does not prefer an exact key match: `find` at :75-81 and :113-119 returns the first
  record, in key order, whose key *or* display name equals the query. `FirstMatch` states exactly that.
- **Style removal.** Style removal during uninstall (:91-94) catches no error, so a failing `removeStyle` aborts
  the uninstall before the record is disabled. Style removal is not part of this model (see below).

## Model

| member | source | states |
|---|---|---|
| Metadata.Strip | src/components/user-component.ts:23-35 | persisted metadata keeps name and display name, has none of the eight execution-only properties, and keeps every other property with its value |
| SettingsMerge.FillDefaults | src/components/user-component.ts:41-44 | defaults-deep at the options level: the keys are the union, every existing option keeps its value, every option only the defaults declare takes the default |
| SettingsMerge.Reconcile | src/components/user-component.ts:40-49 | after an update the options have exactly the old keys plus the newly declared ones, every existing option keeps its value, every array-valued option equals its pre-update array, every new option takes its default |
| UserComponentRegistry.MergeOptions | src/components/user-component.ts:40-49 | the merge followed by the loop that forces array-valued options back to their pre-update value yields exactly `Reconcile` of the pre-update options and the defaults |
| RegistrySpec.FirstMatch | src/components/user-component.ts:75-81 | returns the position of the first key, in enumeration order, whose key or display name equals the query; no earlier key matches; none only when no key matches |
| UserComponentRegistry.Registry.Lookup | src/components/user-component.ts:113-119 | the scan over `Object.entries` returns exactly `FirstMatch` of the key order, the records and the query |
| RegistrySpec.IndexOfName | src/components/user-component.ts:87 | `findIndex` by name: the first position in the active list holding the name, none only when no entry has it |
| RegistrySpec.RemoveAt | src/components/user-component.ts:97 | `splice(index, 1)`: one entry shorter, entries before the index unchanged, entries after it shifted down by one |
| RegistrySpec.Matches | src/components/user-component.ts:76-80 | the `find` predicate: only a stored key can match, and a record answers both to its key and to its display name |
| SettingsMerge.RestoreArrays | src/components/user-component.ts:45-49 | every option whose pre-update value is an array holds that array afterwards; every other option keeps its merged value; no key outside the merged and pre-update options appears |
| RegistrySpec.UpdateSpec | src/components/user-component.ts:36-53 | the record under the name gets the new code and metadata, keeps its enable flag and has its options reconciled with the new defaults; key order, active list, index and the other records are untouched |
| RegistrySpec.AddSpec | src/components/user-component.ts:55-61 | a record holding the code, metadata and defaults is stored under the new name, the name is appended to the key order, the component to the active list, and the index gains the name; the other records and index entries are untouched |
| RegistrySpec.InstallSpec | src/components/user-component.ts:11-66 | a failed install leaves the state unchanged; a successful one had a parse result with a non-built-in name, replies with the parsed component, stores the code and the stripped metadata under its name, and reports "updated" exactly when a record of that name existed, "installed" otherwise |
| RegistrySpec.UnloadSpec | src/components/user-component.ts:87-99 | a component not in the active list leaves the state unchanged; a loaded one has its record disabled, loses exactly the list entry `findIndex` finds (the rest keep their order) and its index key; key order, record keys, the other records and the record's code, metadata and options are kept |
| RegistrySpec.DeleteSpec | src/components/user-component.ts:100 | the record at the given position of the key order is deleted; the entry at that position leaves the order and the other keys keep their order; every other record, the active list and the index are kept |
| RegistrySpec.UninstallSpec | src/components/user-component.ts:72-105 | fails with not-found, changing nothing, exactly when no record matches; otherwise the first matching record's key leaves the record keys, the entry at its position leaves the order and the other keys keep their order, and the reply carries its metadata |
| RegistrySpec.ToggleSpec | src/components/user-component.ts:111-128 | fails with not-found, changing nothing, exactly when no record matches; key order, record keys, active list and index are always kept; on success the matched record's flag changes and the reply reports the new flag with the record's display name |
| RegistryProperties.InstallErrors | src/components/user-component.ts:14-22 | install fails exactly when parsing yields nothing (invalid code) or the name is a built-in name (that name is reported), and a failed install changes nothing; so no install ever stores or activates a built-in name |
| RegistryProperties.FreshInstall | src/components/user-component.ts:55-65 | a new name gets exactly one new record (code, stripped metadata, default settings) at the end of the key order, the component is appended to the active list and indexed, nothing else changes, and the reply is "installed" with the display name |
| RegistryProperties.UpdateInstall | src/components/user-component.ts:36-53 | an existing name has its record's code and metadata replaced, its enable flag kept, every existing option kept (arrays included), new options defaulted; key order, active list, index and other records untouched; the reply is "updated" |
| RegistryProperties.InstallKeepsConsistent | src/components/user-component.ts:11-66 | install keeps the registry invariant (no record under a built-in name, the list and the index in sync), and every entry it adds to the active list has a name that is not built in |
| RegistryProperties.UpdateKeepsConsistent | src/components/user-component.ts:36-53 | overwriting a record keeps the registry invariant |
| RegistryProperties.AddKeepsConsistent | src/components/user-component.ts:55-61 | adding the record of a new non-built-in name and activating it keeps the registry invariant |
| RegistryProperties.NamesRemoveAt | src/components/user-component.ts:97-98 | removing one entry from an active list without duplicate names removes exactly that name, so the index deletion that follows leaves the index keys equal to the list's names |
| RegistryProperties.UnloadKeepsConsistent | src/components/user-component.ts:87-99 | unloading keeps the invariant and leaves the component out of the active list |
| RegistryProperties.DeleteKeepsConsistent | src/components/user-component.ts:100 | deleting the record of a component that is not loaded keeps the invariant |
| RegistryProperties.UnloadEffects | src/components/user-component.ts:87-99 | a loaded component has its enable flag forced off before its record goes, its code, metadata and options untouched, and leaves the list and the index; for a component that is not loaded the step changes nothing |
| RegistryProperties.UninstallEffects | src/components/user-component.ts:72-105 | no match fails with not-found and changes nothing; otherwise the first matching record is deleted, its key leaves the key order, every other record is unchanged, a loaded component loses exactly its list entry (the rest keep their order) and exactly its index key (every other index entry kept), and the reply carries the record's metadata |
| RegistryProperties.UninstallKeepsConsistent | src/components/user-component.ts:72-105 | uninstall keeps the registry invariant |
| RegistryProperties.ToggleEffects | src/components/user-component.ts:111-128 | no match fails with not-found and changes nothing; otherwise exactly the matched record's enable flag is negated (its code, metadata and options kept), and the reply reports the new flag and the display name |
| RegistryProperties.ToggleKeepsConsistent | src/components/user-component.ts:111-128 | toggle keeps the registry invariant |
| RegistryProperties.FirstMatchSameLabels | src/components/user-component.ts:113-119 | the lookup depends only on the record keys and display names, so flipping a flag cannot change which record a query finds |
| RegistryProperties.ToggleTwice | src/components/user-component.ts:124 | toggling the same query twice restores the whole state |
| RegistryProperties.ClockScenario | src/components/user-component.ts:11-128 | installing `clock` into an empty registry reports "installed" with its display name, stores exactly one record (the code, the stripped metadata and the settings `componentToSettings` gives it) and activates and indexes it; toggling "Clock Widget" reports and stores the negated flag; uninstalling "clock" leaves no record, no key, no list entry and no index key. Whether the initial flag is on and `format` is "24h" depends on `componentToSettings`, which is not part of this model |
| UserComponentRegistry.Registry.Install | src/components/user-component.ts:11-66 | the method keeps the invariant and ends in exactly the state and reply of `InstallSpec` |
| UserComponentRegistry.Registry.Uninstall | src/components/user-component.ts:72-105 | the method keeps the invariant and ends in exactly the state and reply of `UninstallSpec`, disabling a loaded record before deleting it |
| UserComponentRegistry.Registry.Toggle | src/components/user-component.ts:111-128 | the method keeps the invariant and ends in exactly the state and reply of `ToggleSpec` |

## Left out

- The settings object of each record is modelled as a value held in the record map, not as a shared object.
  - The forced disable at :96 is kept as a state of its own (`UnloadSpec`, `UnloadEffects`).
  - Code outside the registry that still holds the settings object of the deleted record is not modelled.
  - Neither is the in-place update of the record object at :38-39; the model replaces the record value.
- The merge is modelled one level deep, on the options map.
  - Recursion of `lodash.defaultsDeep` into nested option objects is not modelled.
  - Neither is its element-wise merge of arrays.
  - The override pass reads a snapshot of the pre-update options. The source reads `existingOptions`, which is the
    same object the merge mutates in place, so whether the source really restores arrays depends on lodash's
    behaviour, which is not part of this model.
  - At this one level the override pass never changes a value, because existing options already win the merge.
- Removing the component's instant styles on uninstall (:89-94) is not modelled. The style injector is not part
  of this model.
- The dynamic `import()`s and the `async` suspension points are not modelled; each operation runs as one
  synchronous step. One consequence is lost: uninstall computes `index` at :87 and uses it at :97 after the
  `await` at :92. If another operation changes the active list in between, the source can splice out the
  wrong entry. The model's uninstall cannot be interleaved, so it always removes the entry it found.
- The parser (`parseExternalInput`), `componentToSettings` and `getBuiltInComponents` are not part of this
  model. They are the parameters `parsed` and `toSettings` and the constant `builtIns`.
- Messages are the constructors `Installed`, `Updated`, `Uninstalled` and `Toggled`, carrying the display name and
  the new flag, instead of the user-facing text. Errors are `InvalidCode`, `BuiltInName` and `NotFound`, not
  thrown `Error`s.
- Key order is insertion order. JavaScript's rule that enumerates integer-like keys first is not modelled.
- Inherited properties of the record object are not modelled. A component named after an inherited property,
  such as `constructor`, `__proto__`, `toString` or `hasOwnProperty`, makes the read at :36 return an
  inherited, truthy value. The source then takes the update path: it writes
  `code` and `metadata` onto that inherited object at :38-39 and fails at :40. The model instead installs
  such a component as a fresh record.
- Numbers in metadata and options are integers; floating point is not modelled.
