/**
 * Known-key enumeration: every key the configuration system has a default value for,
 * read from the default layer of the root inspection (`inspect('')`).
 */
module KnownKeys {
  import opened Wrappers
  import opened JsValue
  import opened StringOrder

  /** What `WorkspaceConfiguration.inspect(key)` reports: one value per layer. */
  datatype Inspection = Inspection(
    defaultValue: Value,
    globalValue: Value,
    workspaceValue: Value,
    workspaceFolderValue: Value)

  /** `inspected?.defaultValue`. */
  function DefaultLayer(inspected: Option<Inspection>): Value {
    if inspected.Some? then inspected.value.defaultValue else Undefined
  }

  /** The layer has keys to list: it is truthy and `typeof` says object. */
  predicate HasKeys(defaults: Value) {
    Truthy(defaults) && IsTypeofObject(defaults)
  }

  /**
   * `getAllKnownSettingKeys()`: the sorted keys of the default layer, or none when that
   * layer is absent, falsy or not an object.
   */
  function KnownSettingKeys(inspected: Option<Inspection>): (keys: seq<string>)
    ensures Sorted(keys)
    ensures !HasKeys(DefaultLayer(inspected)) ==> keys == []
    ensures HasKeys(DefaultLayer(inspected)) ==> multiset(keys) == multiset(ObjectKeys(DefaultLayer(inspected)))
  {
    var defaults := DefaultLayer(inspected);
    if !HasKeys(defaults) then [] else SortStrings(ObjectKeys(defaults))
  }

  /**
   * For a default layer that is an object with distinct property names, the known keys
   * are exactly its property names, each once, in ascending order; no other sorted
   * listing of those names exists.
   */
  lemma KnownKeysOfObject(inspected: Option<Inspection>, props: seq<Prop>, listing: seq<string>)
    requires DefaultLayer(inspected) == Obj(props)
    requires NoDuplicates(Names(props))
    requires Sorted(listing) && multiset(listing) == multiset(Names(props))
    ensures forall k :: k in KnownSettingKeys(inspected) <==> exists p :: p in props && p.name == k
    ensures NoDuplicates(KnownSettingKeys(inspected))
    ensures KnownSettingKeys(inspected) == listing
  {
    var keys := KnownSettingKeys(inspected);
    SortKeepsMembers(Names(props));
    NamedProperties(props);
    SortedUnique(keys, listing);
  }

  /** A string is among the property names iff some property carries it. */
  lemma NamedProperties(props: seq<Prop>)
    ensures forall k :: k in Names(props) <==> exists p :: p in props && p.name == k
  {
    var names := Names(props);
    forall k | k in names ensures exists p :: p in props && p.name == k {
      var i :| 0 <= i < |names| && names[i] == k;
      assert props[i] in props;
    }
  }
}
