/**
 * The settings of one user component and the policy that reconciles stored
 * settings with the defaults a newer version of the component declares.
 */
module SettingsMerge {
  import opened Metadata

  /** The value of a settings object: the enable flag and the option values. */
  datatype Settings = Settings(enabled: bool, options: map<string, Value>)

  /** One level of a defaults-deep merge on options: every key already present
      keeps its value, every key only the defaults have takes the default. */
  function FillDefaults(existing: map<string, Value>, defaults: map<string, Value>): (r: map<string, Value>)
    ensures r.Keys == existing.Keys + defaults.Keys
    ensures forall k :: k in existing ==> r[k] == existing[k]
    ensures forall k :: k in defaults && k !in existing ==> r[k] == defaults[k]
  {
    defaults + existing
  }

  /** The override pass: every option whose pre-update value is an array is
      forced back to that value. */
  function RestoreArrays(merged: map<string, Value>, before: map<string, Value>): (r: map<string, Value>)
    ensures merged.Keys <= r.Keys <= merged.Keys + before.Keys
    ensures forall k :: k in before && IsArray(before[k]) ==> k in r && r[k] == before[k]
    ensures forall k :: k in merged && !(k in before && IsArray(before[k])) ==> r[k] == merged[k]
  {
    merged + map k | k in before && IsArray(before[k]) :: before[k]
  }

  /** The options after an update: the merge followed by the override pass over
      every pre-update option. */
  function Reconcile(existing: map<string, Value>, defaults: map<string, Value>): (r: map<string, Value>)
    ensures r.Keys == existing.Keys + defaults.Keys
    ensures forall k :: k in existing ==> r[k] == existing[k]
    ensures forall k :: k in existing && IsArray(existing[k]) ==> r[k] == existing[k]
    ensures forall k :: k in defaults && k !in existing ==> r[k] == defaults[k]
  {
    RestoreArrays(FillDefaults(existing, defaults), existing)
  }

  /** A map that agrees with the merge everywhere except on the array-valued
      pre-update options, where it holds the pre-update value, is the
      reconciled map. */
  lemma ReconcileExtensional(existing: map<string, Value>, defaults: map<string, Value>, m: map<string, Value>)
    requires m.Keys == existing.Keys + defaults.Keys
    requires forall k :: k in existing && IsArray(existing[k]) ==> m[k] == existing[k]
    requires forall k :: k in m && !(k in existing && IsArray(existing[k])) ==> m[k] == FillDefaults(existing, defaults)[k]
    ensures m == Reconcile(existing, defaults)
  {
  }
}
