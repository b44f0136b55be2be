/** What install, uninstall and toggle promise, proved about their specifications. */
module RegistryProperties {
  import opened Wrappers
  import opened Metadata
  import opened SettingsMerge
  import opened RegistrySpec

  /** Install fails exactly on a failed parse or a built-in name, and a failed
      install leaves the whole state as it was. */
  lemma InstallErrors(s: Store, code: string, parsed: Option<ComponentMetadata>,
                      builtIns: seq<string>, toSettings: ComponentMetadata -> Settings)
    ensures var (t, r) := InstallSpec(s, code, parsed, builtIns, toSettings);
      && (r.Failure? <==> parsed.None? || parsed.value.name in builtIns)
      && (r.Failure? ==> t == s)
      && (parsed.None? ==> r == Failure(InvalidCode))
      && (parsed.Some? && parsed.value.name in builtIns ==> r == Failure(BuiltInName(parsed.value.name)))
  {
  }

  /** A fresh install adds exactly one record, holding the submitted code, the
      stripped metadata and the default settings, appends the component to the
      active list and indexes it, and changes nothing else. */
  lemma FreshInstall(s: Store, code: string, c: ComponentMetadata,
                     builtIns: seq<string>, toSettings: ComponentMetadata -> Settings)
    requires c.name !in builtIns && c.name !in s.records
    ensures var (t, r) := InstallSpec(s, code, Some(c), builtIns, toSettings);
      && r == Success(Reply(c, Installed(c.displayName)))
      && t.records.Keys == s.records.Keys + {c.name}
      && t.records[c.name] == UserComponent(code, Strip(c), toSettings(c))
      && (forall k :: k in s.records ==> t.records[k] == s.records[k])
      && t.order == s.order + [c.name]
      && t.components == s.components + [c]
      && t.index.Keys == s.index.Keys + {c.name}
      && t.index[c.name] == c
      && (forall n :: n in s.index && n != c.name ==> t.index[n] == s.index[n])
  {
  }

  /** An update replaces the record's code and metadata, keeps its enable flag,
      keeps every existing option (arrays included), adds the options only the
      new defaults declare, and leaves the active list, the index, the key
      order and every other record alone. */
  lemma UpdateInstall(s: Store, code: string, c: ComponentMetadata,
                      builtIns: seq<string>, toSettings: ComponentMetadata -> Settings)
    requires c.name !in builtIns && c.name in s.records
    ensures var (t, r) := InstallSpec(s, code, Some(c), builtIns, toSettings);
      var prev := s.records[c.name].settings;
      var defaults := toSettings(c).options;
      && r == Success(Reply(c, Updated(c.displayName)))
      && t.order == s.order && t.components == s.components && t.index == s.index
      && t.records.Keys == s.records.Keys
      && (forall k :: k in s.records && k != c.name ==> t.records[k] == s.records[k])
      && t.records[c.name].code == code
      && t.records[c.name].metadata == Strip(c)
      && t.records[c.name].settings.enabled == prev.enabled
      && t.records[c.name].settings.options.Keys == prev.options.Keys + defaults.Keys
      && (forall k :: k in prev.options ==> t.records[c.name].settings.options[k] == prev.options[k])
      && (forall k :: k in prev.options && IsArray(prev.options[k]) ==>
            t.records[c.name].settings.options[k] == prev.options[k])
      && (forall k :: k in defaults && k !in prev.options ==>
            t.records[c.name].settings.options[k] == defaults[k])
  {
  }

  lemma NamesAppend(cs: seq<ComponentMetadata>, c: ComponentMetadata)
    ensures Names(cs + [c]) == Names(cs) + {c.name}
  {
    assert forall x :: x in cs + [c] <==> x in cs || x == c;
  }

  /** Removing one entry of a list without duplicate names removes exactly its name. */
  lemma NamesRemoveAt(cs: seq<ComponentMetadata>, j: nat)
    requires j < |cs| && DistinctNames(cs)
    ensures Names(RemoveAt(cs, j)) == Names(cs) - {cs[j].name}
    ensures DistinctNames(RemoveAt(cs, j))
  {
    var rest := RemoveAt(cs, j);
    forall n | n in Names(cs) - {cs[j].name} ensures n in Names(rest) {
      var m :| 0 <= m < |cs| && cs[m].name == n;
      if m < j { assert rest[m] == cs[m]; } else { assert rest[m - 1] == cs[m]; }
    }
    forall n | n in Names(rest) ensures n in Names(cs) - {cs[j].name} {
      var m :| 0 <= m < |rest| && rest[m].name == n;
      if m < j { assert rest[m] == cs[m]; } else { assert rest[m] == cs[m + 1]; }
    }
  }

  lemma RemoveAtDistinct(order: seq<string>, i: nat)
    requires i < |order| && DistinctKeys(order)
    ensures DistinctKeys(RemoveAt(order, i))
    ensures forall k :: k in RemoveAt(order, i) <==> k in order && k != order[i]
  {
    var rest := RemoveAt(order, i);
    forall k | k in order && k != order[i] ensures k in rest {
      var m :| 0 <= m < |order| && order[m] == k;
      if m < i { assert rest[m] == k; } else { assert rest[m - 1] == k; }
    }
  }

  /** Overwriting a record keeps the registry invariant. */
  lemma UpdateKeepsConsistent(s: Store, builtIns: seq<string>, name: string, code: string,
                              meta: UserMetadata, defaults: Settings)
    requires Consistent(s, builtIns) && name in s.records
    ensures Consistent(UpdateSpec(s, name, code, meta, defaults), builtIns)
  {
  }

  /** Adding the record of a new, non-built-in component and activating it
      keeps the registry invariant. */
  lemma AddKeepsConsistent(s: Store, builtIns: seq<string>, c: ComponentMetadata, code: string,
                           meta: UserMetadata, defaults: Settings)
    requires Consistent(s, builtIns) && c.name !in s.records && c.name !in builtIns
    ensures Consistent(AddSpec(s, c, code, meta, defaults), builtIns)
  {
    var t := AddSpec(s, c, code, meta, defaults);
    assert c.name !in Names(s.components);
    NamesAppend(s.components, c);
    assert forall k :: k in t.order <==> k in s.order || k == c.name;
  }

  /** Unloading keeps the registry invariant, and afterwards the component is
      not in the active list: the list entry and the index key go together. */
  lemma UnloadKeepsConsistent(s: Store, builtIns: seq<string>, name: string)
    requires Consistent(s, builtIns) && name in s.records
    ensures Consistent(UnloadSpec(s, name), builtIns)
    ensures name !in Names(UnloadSpec(s, name).components)
  {
    match IndexOfName(s.components, name)
    case None =>
      assert name !in Names(s.components);
    case Some(j) =>
      NamesRemoveAt(s.components, j);
      var rest := RemoveAt(s.components, j);
      forall c | c in rest ensures c in s.components {
        var m :| 0 <= m < |rest| && rest[m] == c;
        if m < j { assert rest[m] == s.components[m]; } else { assert rest[m] == s.components[m + 1]; }
      }
  }

  /** Deleting the record of a component that is not loaded keeps the registry invariant. */
  lemma DeleteKeepsConsistent(s: Store, builtIns: seq<string>, i: nat)
    requires Consistent(s, builtIns) && i < |s.order| && s.order[i] !in Names(s.components)
    ensures Consistent(DeleteSpec(s, i), builtIns)
  {
    RemoveAtDistinct(s.order, i);
  }

  /** Install keeps the registry invariant; in particular it never persists
      or activates a built-in name. */
  lemma InstallKeepsConsistent(s: Store, code: string, parsed: Option<ComponentMetadata>,
                               builtIns: seq<string>, toSettings: ComponentMetadata -> Settings)
    requires Consistent(s, builtIns)
    ensures Consistent(InstallSpec(s, code, parsed, builtIns, toSettings).0, builtIns)
    ensures forall c :: c in InstallSpec(s, code, parsed, builtIns, toSettings).0.components && c !in s.components ==>
              c.name !in builtIns
  {
    if parsed.Some? && parsed.value.name !in builtIns {
      var c := parsed.value;
      if c.name in s.records {
        UpdateKeepsConsistent(s, builtIns, c.name, code, Strip(c), toSettings(c));
      } else {
        AddKeepsConsistent(s, builtIns, c, code, Strip(c), toSettings(c));
      }
    }
  }

  /** Uninstall keeps the registry invariant. */
  lemma UninstallKeepsConsistent(s: Store, builtIns: seq<string>, query: string)
    requires Consistent(s, builtIns)
    ensures Consistent(UninstallSpec(s, query).0, builtIns)
  {
    match FirstMatch(s.order, s.records, query)
    case None =>
    case Some(i) =>
      UnloadKeepsConsistent(s, builtIns, s.order[i]);
      DeleteKeepsConsistent(UnloadSpec(s, s.order[i]), builtIns, i);
  }

  /** Toggle keeps the registry invariant. */
  lemma ToggleKeepsConsistent(s: Store, builtIns: seq<string>, query: string)
    requires Consistent(s, builtIns)
    ensures Consistent(ToggleSpec(s, query).0, builtIns)
  {
  }

  /** Lookup depends only on the keys and display names of the records. */
  lemma FirstMatchSameLabels(order: seq<string>, a: map<string, UserComponent>,
                              b: map<string, UserComponent>, query: string)
    requires a.Keys == b.Keys
    requires forall k :: k in a ==> a[k].metadata.displayName == b[k].metadata.displayName
    ensures FirstMatch(order, a, query) == FirstMatch(order, b, query)
  {
  }

  /** Uninstall resolves the query to the first matching record, and fails
      with no change when none matches. On success the record is gone and every
      other record is unchanged; a loaded component loses exactly its list
      entry (the rest keep their order) and its index key; a component that was
      not loaded leaves the list and the index alone. */
  lemma UninstallEffects(s: Store, builtIns: seq<string>, query: string)
    requires Consistent(s, builtIns)
    ensures var (t, r) := UninstallSpec(s, query);
      match FirstMatch(s.order, s.records, query)
      case None => t == s && r == Failure(NotFound(query))
      case Some(i) =>
        var name := s.order[i];
        && r == Success(Reply(s.records[name].metadata, Uninstalled(s.records[name].metadata.displayName)))
        && name !in t.records
        && (forall k :: k in s.records && k != name ==> k in t.records && t.records[k] == s.records[k])
        && t.order == RemoveAt(s.order, i)
        && name !in t.index && name !in Names(t.components)
        && (name in Names(s.components) ==>
              exists j :: 0 <= j < |s.components| && s.components[j].name == name
                          && t.components == RemoveAt(s.components, j))
        && (name in Names(s.components) ==> t.index == s.index - {name})
        && (name !in Names(s.components) ==> t.components == s.components && t.index == s.index)
  {
    match FirstMatch(s.order, s.records, query)
    case None =>
    case Some(i) =>
      var name := s.order[i];
      var u := UnloadSpec(s, name);
      assert u.order == s.order && u.records.Keys == s.records.Keys;
      assert forall k :: k in s.records && k != name ==> u.records[k] == s.records[k];
      match IndexOfName(s.components, name)
      case None =>
        assert name !in Names(s.components);
      case Some(j) =>
        NamesRemoveAt(s.components, j);
        assert name !in Names(u.components);
  }

  /** Unloading forces the record's enable flag off when the component is in
      the active list, before the record is deleted, and touches nothing else
      of the record; an unloaded component leaves the whole state alone. */
  lemma UnloadEffects(s: Store, builtIns: seq<string>, name: string)
    requires Consistent(s, builtIns) && name in s.records
    ensures var u := UnloadSpec(s, name);
      var prev := s.records[name];
      && u.order == s.order
      && u.records.Keys == s.records.Keys
      && (forall k :: k in s.records && k != name ==> u.records[k] == s.records[k])
      && u.records[name].settings.enabled == (prev.settings.enabled && name !in Names(s.components))
      && u.records[name].settings.options == prev.settings.options
      && u.records[name].code == prev.code && u.records[name].metadata == prev.metadata
      && name !in u.index && name !in Names(u.components)
      && (name !in Names(s.components) ==> u == s)
  {
    UnloadKeepsConsistent(s, builtIns, name);
    if IndexOfName(s.components, name).None? {
      assert name !in Names(s.components);
    }
  }

  /** Toggle resolves the query like uninstall; on success it negates exactly
      the matched record's enable flag and reports the new value with the
      record's display name. */
  lemma ToggleEffects(s: Store, query: string)
    ensures var (t, r) := ToggleSpec(s, query);
      match FirstMatch(s.order, s.records, query)
      case None => t == s && r == Failure(NotFound(query))
      case Some(i) =>
        var name := s.order[i];
        var prev := s.records[name];
        && t.order == s.order && t.components == s.components && t.index == s.index
        && t.records.Keys == s.records.Keys
        && (forall k :: k in s.records && k != name ==> t.records[k] == s.records[k])
        && t.records[name].settings.enabled == !prev.settings.enabled
        && t.records[name].settings.options == prev.settings.options
        && t.records[name].code == prev.code && t.records[name].metadata == prev.metadata
        && r == Success(Toggled(t.records[name].settings.enabled, prev.metadata.displayName))
  {
  }

  /** Toggling the same query twice restores the state. */
  lemma ToggleTwice(s: Store, query: string)
    ensures ToggleSpec(ToggleSpec(s, query).0, query).0 == s
  {
    var t := ToggleSpec(s, query).0;
    FirstMatchSameLabels(s.order, s.records, t.records, query);
  }

  /** The component of the end-to-end scenario. */
  const Clock := ComponentMetadata("clock", "Clock Widget", map["options" := Object(map["format" := Str("24h")])])

  /** Install `clock` into an empty registry, toggle it by its display name,
      then uninstall it by its key: installed with the settings `toSettings` gives it,
      reported with the negated flag after the toggle, and gone after the uninstall. */
  lemma ClockScenario(code: string, builtIns: seq<string>, toSettings: ComponentMetadata -> Settings)
    requires "clock" !in builtIns
    ensures var (s1, r1) := InstallSpec(Store([], map[], [], map[]), code, Some(Clock), builtIns, toSettings);
      var (s2, r2) := ToggleSpec(s1, "Clock Widget");
      var (s3, r3) := UninstallSpec(s2, "clock");
      var initial := toSettings(Clock);
      && r1 == Success(Reply(Clock, Installed("Clock Widget")))
      && s1.records == map["clock" := UserComponent(code, Strip(Clock), initial)]
      && s1.components == [Clock] && s1.index == map["clock" := Clock]
      && r2 == Success(Toggled(!initial.enabled, "Clock Widget"))
      && s2.records == map["clock" := UserComponent(code, Strip(Clock), initial.(enabled := !initial.enabled))]
      && r3.Success? && s3.records == map[] && s3.order == [] && s3.components == [] && "clock" !in s3.index
  {
    var s1 := InstallSpec(Store([], map[], [], map[]), code, Some(Clock), builtIns, toSettings).0;
    assert s1.order == ["clock"];
    assert FirstMatch(s1.order, s1.records, "Clock Widget") == Some(0);
    var s2 := ToggleSpec(s1, "Clock Widget").0;
    assert FirstMatch(s2.order, s2.records, "clock") == Some(0);
    assert IndexOfName(s2.components, "clock") == Some(0);
  }
}
