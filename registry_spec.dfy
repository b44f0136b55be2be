/**
 * The registry's state as values, and the effect of each operation on it.
 * The class in module UserComponentRegistry is proved to change its state
 * exactly as these functions say.
 */
module RegistrySpec {
  import opened Wrappers
  import opened Metadata
  import opened SettingsMerge

  /** One persisted record: the submitted code, the stored metadata and its settings. */
  datatype UserComponent = UserComponent(code: string, metadata: UserMetadata, settings: Settings)

  /** The whole registry state: the persisted records with their key order,
      the active component list and the name index over it. */
  datatype Store = Store(
    order: seq<string>,
    records: map<string, UserComponent>,
    components: seq<ComponentMetadata>,
    index: map<string, ComponentMetadata>)

  /** The status an operation reports. */
  datatype Message =
    | Installed(displayName: string)
    | Updated(displayName: string)
    | Uninstalled(displayName: string)
    | Toggled(enabled: bool, displayName: string)

  /** The errors an operation raises. */
  datatype Error =
    | InvalidCode
    | BuiltInName(name: string)
    | NotFound(query: string)

  /** The success value of install and uninstall: metadata and a status. */
  datatype Reply<M> = Reply(metadata: M, message: Message)

  /** Whether the record stored under `key` answers to `query`, by its key or its display name. */
  predicate Matches(recs: map<string, UserComponent>, key: string, query: string)
    ensures Matches(recs, key, query) ==> key in recs
    ensures key in recs && key == query ==> Matches(recs, key, query)
    ensures key in recs && recs[key].metadata.displayName == query ==> Matches(recs, key, query)
  {
    key in recs && (key == query || recs[key].metadata.displayName == query)
  }

  /** The position of the first key, in iteration order, whose record answers to `query`. */
  function FirstMatch(order: seq<string>, recs: map<string, UserComponent>, query: string): (r: Option<nat>)
    ensures r.Some? ==> r.value < |order| && Matches(recs, order[r.value], query)
    ensures r.Some? ==> forall j :: 0 <= j < r.value ==> !Matches(recs, order[j], query)
    ensures r.None? ==> forall j :: 0 <= j < |order| ==> !Matches(recs, order[j], query)
  {
    if order == [] then None
    else if Matches(recs, order[0], query) then Some(0)
    else match FirstMatch(order[1..], recs, query)
      case None => None
      case Some(i) => Some(i + 1)
  }

  /** `findIndex` by name over the active list: the first position holding `name`. */
  function IndexOfName(cs: seq<ComponentMetadata>, name: string): (r: Option<nat>)
    ensures r.Some? ==> r.value < |cs| && cs[r.value].name == name
    ensures r.Some? ==> forall j :: 0 <= j < r.value ==> cs[j].name != name
    ensures r.None? ==> forall j :: 0 <= j < |cs| ==> cs[j].name != name
  {
    if cs == [] then None
    else if cs[0].name == name then Some(0)
    else match IndexOfName(cs[1..], name)
      case None => None
      case Some(i) => Some(i + 1)
  }

  /** `splice(i, 1)`: the sequence without position `i`, the rest in order. */
  function RemoveAt<T>(s: seq<T>, i: nat): (r: seq<T>)
    requires i < |s|
    ensures |r| == |s| - 1
    ensures forall j :: 0 <= j < i ==> r[j] == s[j]
    ensures forall j :: i <= j < |r| ==> r[j] == s[j + 1]
  {
    s[..i] + s[i + 1..]
  }

  /** The names present in the active list. */
  function Names(cs: seq<ComponentMetadata>): set<string> {
    set c | c in cs :: c.name
  }

  ghost predicate DistinctKeys(order: seq<string>) {
    forall i, j :: 0 <= i < j < |order| ==> order[i] != order[j]
  }

  ghost predicate DistinctNames(cs: seq<ComponentMetadata>) {
    forall i, j :: 0 <= i < j < |cs| ==> cs[i].name != cs[j].name
  }

  /** The registry invariant: the key order lists each record once; the name
      index has exactly the names of the active list, which has no duplicate
      name; every loaded component that is not built in has a record; and no
      record is stored under a built-in name. */
  ghost predicate Consistent(s: Store, builtIns: seq<string>) {
    && DistinctKeys(s.order)
    && (forall k :: k in s.records <==> k in s.order)
    && DistinctNames(s.components)
    && s.index.Keys == Names(s.components)
    && (forall c :: c in s.components ==> c.name in s.index && s.index[c.name] == c)
    && (forall c :: c in s.components && c.name !in builtIns ==> c.name in s.records)
    && (forall k :: k in s.records ==> k !in builtIns)
  }

  /** Overwriting the record stored under `name`: new code and metadata,
      the enable flag kept, the options reconciled with the new defaults. */
  function UpdateSpec(s: Store, name: string, code: string, meta: UserMetadata, defaults: Settings): (t: Store)
    requires name in s.records
    ensures t.order == s.order && t.components == s.components && t.index == s.index
    ensures t.records.Keys == s.records.Keys
    ensures forall k :: k in s.records && k != name ==> t.records[k] == s.records[k]
    ensures t.records[name].code == code && t.records[name].metadata == meta
    ensures t.records[name].settings.enabled == s.records[name].settings.enabled
    ensures t.records[name].settings.options == Reconcile(s.records[name].settings.options, defaults.options)
  {
    var prev := s.records[name];
    s.(records := s.records[name := UserComponent(code, meta,
      Settings(prev.settings.enabled, Reconcile(prev.settings.options, defaults.options)))])
  }

  /** Creating the record of `c` at the end of the key order and activating `c`. */
  function AddSpec(s: Store, c: ComponentMetadata, code: string, meta: UserMetadata, defaults: Settings): (t: Store)
    ensures t.order == s.order + [c.name] && t.components == s.components + [c]
    ensures t.records.Keys == s.records.Keys + {c.name}
    ensures t.records[c.name] == UserComponent(code, meta, defaults)
    ensures forall k :: k in s.records && k != c.name ==> t.records[k] == s.records[k]
    ensures t.index.Keys == s.index.Keys + {c.name} && t.index[c.name] == c
    ensures forall n :: n in s.index && n != c.name ==> t.index[n] == s.index[n]
  {
    Store(s.order + [c.name], s.records[c.name := UserComponent(code, meta, defaults)],
          s.components + [c], s.index[c.name := c])
  }

  /** Install: validate the parsed component, then update its record in place
      or create it and activate the component. */
  function InstallSpec(
    s: Store, code: string, parsed: Option<ComponentMetadata>,
    builtIns: seq<string>, toSettings: ComponentMetadata -> Settings
  ): (r: (Store, Result<Reply<ComponentMetadata>, Error>))
    ensures r.1.Failure? ==> r.0 == s
    ensures r.1.Success? ==> parsed.Some? && parsed.value.name !in builtIns && r.1.value.metadata == parsed.value
    ensures r.1.Success? ==>
      && parsed.value.name in r.0.records
      && r.0.records[parsed.value.name].code == code
      && r.0.records[parsed.value.name].metadata == Strip(parsed.value)
    ensures r.1.Success? ==>
      r.1.value.message == (if parsed.value.name in s.records then Updated(parsed.value.displayName)
                            else Installed(parsed.value.displayName))
  {
    if parsed.None? then (s, Failure(InvalidCode))
    else
      var c := parsed.value;
      if c.name in builtIns then (s, Failure(BuiltInName(c.name)))
      else if c.name in s.records then
        (UpdateSpec(s, c.name, code, Strip(c), toSettings(c)), Success(Reply(c, Updated(c.displayName))))
      else
        (AddSpec(s, c, code, Strip(c), toSettings(c)), Success(Reply(c, Installed(c.displayName))))
  }

  /** Unloading `name` if it is loaded: its record is disabled, and it leaves
      the active list and the name index. */
  function UnloadSpec(s: Store, name: string): (u: Store)
    requires name in s.records
    ensures u.order == s.order && u.records.Keys == s.records.Keys
    ensures forall k :: k in s.records && k != name ==> u.records[k] == s.records[k]
    ensures u.records[name].code == s.records[name].code && u.records[name].metadata == s.records[name].metadata
    ensures u.records[name].settings.options == s.records[name].settings.options
    ensures IndexOfName(s.components, name).None? ==> u == s
    ensures IndexOfName(s.components, name).Some? ==>
      && !u.records[name].settings.enabled && u.index == s.index - {name}
      && u.components == RemoveAt(s.components, IndexOfName(s.components, name).value)
  {
    match IndexOfName(s.components, name)
    case None => s
    case Some(j) =>
      var rec := s.records[name];
      s.(records := s.records[name := rec.(settings := rec.settings.(enabled := false))],
         components := RemoveAt(s.components, j),
         index := s.index - {name})
  }

  /** Deleting the record at position `i` of the key order. */
  function DeleteSpec(s: Store, i: nat): (t: Store)
    requires i < |s.order|
    ensures t.order == RemoveAt(s.order, i)
    ensures t.records.Keys == s.records.Keys - {s.order[i]}
    ensures forall k :: k in t.records ==> t.records[k] == s.records[k]
    ensures t.components == s.components && t.index == s.index
  {
    s.(order := RemoveAt(s.order, i), records := s.records - {s.order[i]})
  }

  /** Uninstall: resolve the query, unload the component if it is loaded,
      and delete its record. */
  function UninstallSpec(s: Store, query: string): (r: (Store, Result<Reply<UserMetadata>, Error>))
    ensures r.1.Failure? <==> FirstMatch(s.order, s.records, query).None?
    ensures r.1.Failure? ==> r.0 == s && r.1.error == NotFound(query)
    ensures r.1.Success? ==>
      var name := s.order[FirstMatch(s.order, s.records, query).value];
      && r.0.order == RemoveAt(s.order, FirstMatch(s.order, s.records, query).value)
      && r.0.records.Keys == s.records.Keys - {name}
      && r.1.value.metadata == s.records[name].metadata
  {
    match FirstMatch(s.order, s.records, query)
    case None => (s, Failure(NotFound(query)))
    case Some(i) =>
      var meta := s.records[s.order[i]].metadata;
      (DeleteSpec(UnloadSpec(s, s.order[i]), i), Success(Reply(meta, Uninstalled(meta.displayName))))
  }

  /** Toggle: resolve the query and flip the record's enable flag. */
  function ToggleSpec(s: Store, query: string): (r: (Store, Result<Message, Error>))
    ensures r.1.Failure? <==> FirstMatch(s.order, s.records, query).None?
    ensures r.1.Failure? ==> r.0 == s && r.1.error == NotFound(query)
    ensures r.0.order == s.order && r.0.components == s.components && r.0.index == s.index
    ensures r.0.records.Keys == s.records.Keys
    ensures r.1.Success? ==>
      var name := s.order[FirstMatch(s.order, s.records, query).value];
      && r.1.value == Toggled(r.0.records[name].settings.enabled, s.records[name].metadata.displayName)
      && r.0.records[name].settings.enabled != s.records[name].settings.enabled
  {
    match FirstMatch(s.order, s.records, query)
    case None => (s, Failure(NotFound(query)))
    case Some(i) =>
      var name := s.order[i];
      var rec := s.records[name];
      var enabled := !rec.settings.enabled;
      (s.(records := s.records[name := rec.(settings := rec.settings.(enabled := enabled))]),
       Success(Toggled(enabled, rec.metadata.displayName)))
  }
}
