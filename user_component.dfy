/**
 * The user-component registry as the host runs it: one object whose record
 * dictionary, key order, active list and name index the operations update
 * step by step.
 */
module UserComponentRegistry {
  import opened Wrappers
  import opened Metadata
  import opened SettingsMerge
  import opened RegistrySpec
  import opened RegistryProperties

  /** Reconciles a record's options with newly declared defaults: the
      defaults-deep merge fills in what is missing, then every option that
      held an array before the merge is set back to that array. */
  method MergeOptions(existingOptions: map<string, Value>, defaults: map<string, Value>)
    returns (options: map<string, Value>)
    ensures options == Reconcile(existingOptions, defaults)
  {
    options := FillDefaults(existingOptions, defaults);
    var pending := existingOptions.Keys;
    while pending != {}
      invariant pending <= existingOptions.Keys
      invariant options.Keys == existingOptions.Keys + defaults.Keys
      invariant forall k :: k in existingOptions && k !in pending && IsArray(existingOptions[k]) ==>
                  options[k] == existingOptions[k]
      invariant forall k :: k in options && !(k in existingOptions && k !in pending && IsArray(existingOptions[k])) ==>
                  options[k] == FillDefaults(existingOptions, defaults)[k]
      decreases pending
    {
      var name :| name in pending;
      var option := existingOptions[name];
      if IsArray(option) {
        options := options[name := option];
      }
      pending := pending - {name};
    }
    ReconcileExtensional(existingOptions, defaults, options);
  }

  class Registry {
    /** Names of the components shipped with the host. */
    const builtIns: seq<string>
    /** The persisted records, keyed by component name ... */
    var userComponents: map<string, UserComponent>
    /** ... and the order in which their keys are enumerated. */
    var keyOrder: seq<string>
    /** The active component list. */
    var components: seq<ComponentMetadata>
    /** The name index over the active list. */
    var componentsMap: map<string, ComponentMetadata>

    ghost function View(): Store
      reads this
    {
      Store(keyOrder, userComponents, components, componentsMap)
    }

    ghost predicate Valid()
      reads this
    {
      Consistent(View(), builtIns)
    }

    /** A registry over the state the host starts from: the records loaded
        from storage, and the active list with its index, which already hold
        the built-in components. */
    constructor (builtIns: seq<string>, init: Store)
      requires Consistent(init, builtIns)
      ensures Valid()
      ensures this.builtIns == builtIns
      ensures View() == init
    {
      this.builtIns := builtIns;
      userComponents := init.records;
      keyOrder := init.order;
      components := init.components;
      componentsMap := init.index;
    }

    /** `Object.entries(userComponents).find(...)`: the position in the key
        order of the first record whose key or display name is `query`. */
    method Lookup(query: string) returns (r: Option<nat>)
      requires Valid()
      ensures r == FirstMatch(keyOrder, userComponents, query)
    {
      var i := 0;
      while i < |keyOrder|
        invariant 0 <= i <= |keyOrder|
        invariant forall j :: 0 <= j < i ==> !Matches(userComponents, keyOrder[j], query)
      {
        var key := keyOrder[i];
        if Matches(userComponents, key, query) {
          return Some(i);
        }
        i := i + 1;
      }
      return None;
    }

    /** Installs the component `parsed` that the parser produced from `code`;
        `toSettings` computes a component's default settings. An existing
        record is overwritten: code and metadata, then its options are
        reconciled with the new defaults. */
    method Install(code: string, parsed: Option<ComponentMetadata>, toSettings: ComponentMetadata -> Settings)
      returns (r: Result<Reply<ComponentMetadata>, Error>)
      requires Valid()
      modifies this
      ensures Valid()
      ensures (View(), r) == InstallSpec(old(View()), code, parsed, builtIns, toSettings)
    {
      if parsed.None? {
        return Failure(InvalidCode);
      }
      var component := parsed.value;
      if component.name in builtIns {
        return Failure(BuiltInName(component.name));
      }
      var userMetadata := Strip(component);
      var defaults := toSettings(component);
      if component.name in userComponents {
        UpdateKeepsConsistent(View(), builtIns, component.name, code, userMetadata, defaults);
        var existing := userComponents[component.name];
        var options := MergeOptions(existing.settings.options, defaults.options);
        userComponents := userComponents[component.name :=
          UserComponent(code, userMetadata, Settings(existing.settings.enabled, options))];
        return Success(Reply(component, Updated(component.displayName)));
      }
      AddKeepsConsistent(View(), builtIns, component, code, userMetadata, defaults);
      userComponents := userComponents[component.name := UserComponent(code, userMetadata, defaults)];
      keyOrder := keyOrder + [component.name];
      components := components + [component];
      componentsMap := componentsMap[component.name := component];
      return Success(Reply(component, Installed(component.displayName)));
    }

    /** Uninstalls the component whose key or display name is `query`. A
        loaded component has its record disabled and leaves the active list
        and the index before the record is deleted. */
    method Uninstall(query: string) returns (r: Result<Reply<UserMetadata>, Error>)
      requires Valid()
      modifies this
      ensures Valid()
      ensures (View(), r) == UninstallSpec(old(View()), query)
    {
      var found := Lookup(query);
      if found.None? {
        return Failure(NotFound(query));
      }
      var name := keyOrder[found.value];
      var existing := userComponents[name];
      UnloadKeepsConsistent(View(), builtIns, name);
      var index := IndexOfName(components, name);
      if index.Some? {
        userComponents := userComponents[name := existing.(settings := existing.settings.(enabled := false))];
        components := RemoveAt(components, index.value);
        componentsMap := componentsMap - {name};
      }
      assert View() == UnloadSpec(old(View()), name);
      DeleteKeepsConsistent(View(), builtIns, found.value);
      userComponents := userComponents - {name};
      keyOrder := RemoveAt(keyOrder, found.value);
      return Success(Reply(existing.metadata, Uninstalled(existing.metadata.displayName)));
    }

    /** Flips the enable flag of the component whose key or display name is `query`. */
    method Toggle(query: string) returns (r: Result<Message, Error>)
      requires Valid()
      modifies this
      ensures Valid()
      ensures (View(), r) == ToggleSpec(old(View()), query)
    {
      ToggleKeepsConsistent(View(), builtIns, query);
      var found := Lookup(query);
      if found.None? {
        return Failure(NotFound(query));
      }
      var name := keyOrder[found.value];
      var userComponent := userComponents[name];
      var enabled := !userComponent.settings.enabled;
      userComponents := userComponents[name := userComponent.(settings := userComponent.settings.(enabled := enabled))];
      return Success(Toggled(enabled, userComponent.metadata.displayName));
    }
  }
}
