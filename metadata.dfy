/**
 * Component metadata as a component's code declares it, and the persisted
 * subset of it (the fields needed only while the component runs are dropped).
 */
module Metadata {

  /** A property value of a metadata object or of a component option.
      Functions, widget objects and other host objects the registry never
      looks inside are `Opaque`. Numbers are modelled as integers. */
  datatype Value =
    | Null
    | Bool(b: bool)
    | Num(n: int)
    | Str(s: string)
    | List(items: seq<Value>)
    | Object(fields: map<string, Value>)
    | Opaque(id: nat)

  /** `Array.isArray` on a value. */
  predicate IsArray(v: Value) {
    v.List?
  }

  /** The parsed component: its identity key, its label, and every other
      property. `fields` stands for the properties other than `name` and
      `displayName`; a component's two names are always the first two fields. */
  datatype ComponentMetadata = ComponentMetadata(name: string, displayName: string, fields: map<string, Value>)

  /** The metadata stored in a persisted record. */
  datatype UserMetadata = UserMetadata(name: string, displayName: string, fields: map<string, Value>)

  /** Properties that only matter while the component executes; never persisted. */
  const ExecutionOnlyFields: set<string> :=
    {"entry", "widget", "instantStyles", "reload", "unload", "plugin", "urlInclude", "urlExclude"}

  /** The shallow copy of a component without its execution-only properties. */
  function Strip(c: ComponentMetadata): (u: UserMetadata)
    ensures u.name == c.name && u.displayName == c.displayName
    ensures forall f :: f in ExecutionOnlyFields ==> f !in u.fields
    ensures forall f :: f in c.fields && f !in ExecutionOnlyFields ==> f in u.fields && u.fields[f] == c.fields[f]
    ensures u.fields.Keys <= c.fields.Keys
  {
    UserMetadata(c.name, c.displayName, c.fields - ExecutionOnlyFields)
  }
}
