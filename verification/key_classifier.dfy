/**
 * Extension-key collection: the names of the settings that installed extensions declare
 * under `contributes.configuration[*].properties` in their manifests.
 */
module KeyClassifier {
  import opened Wrappers
  import opened JsValue

  /** An installed extension, seen through its parsed manifest (`ext.packageJSON`). */
  datatype Extension = Extension(packageJSON: Value)

  /** The set of the strings in a list. */
  function ToSet(s: seq<string>): (r: set<string>)
    ensures forall x :: x in r <==> x in s
  {
    set x | x in s
  }

  lemma ToSetExtend(s: seq<string>, k: nat)
    requires k < |s|
    ensures ToSet(s[..k + 1]) == ToSet(s[..k]) + {s[k]}
  {
    assert s[..k + 1] == s[..k] + [s[k]];
  }

  /**
   * Keys declared by a list of items, each item yielding a set or throwing: the union of
   * the item sets, items taken left to right, or the first exception.
   */
  function UnionAll<T>(xs: seq<T>, f: T -> Result<set<string>, JsError>): Result<set<string>, JsError> {
    if xs == [] then Ok({})
    else
      var init := UnionAll(xs[..|xs| - 1], f);
      var last := f(xs[|xs| - 1]);
      if init.Err? then init
      else if last.Err? then last
      else Ok(init.value + last.value)
  }

  /** Appending one item joins its keys, or its exception, to those of the list. */
  lemma UnionAllAppend<T>(xs: seq<T>, x: T, f: T -> Result<set<string>, JsError>)
    ensures UnionAll(xs + [x], f)
         == if UnionAll(xs, f).Err? then UnionAll(xs, f)
            else if f(x).Err? then f(x)
            else Ok(UnionAll(xs, f).value + f(x).value)
  {
    assert (xs + [x])[..|xs|] == xs;
  }

  /** The keys of the first `i + 1` items, from those of the first `i`. */
  lemma UnionAllStep<T>(xs: seq<T>, i: nat, f: T -> Result<set<string>, JsError>)
    requires i < |xs|
    ensures UnionAll(xs[..i + 1], f)
         == if UnionAll(xs[..i], f).Err? then UnionAll(xs[..i], f)
            else if f(xs[i]).Err? then f(xs[i])
            else Ok(UnionAll(xs[..i], f).value + f(xs[i]).value)
  {
    assert xs[..i + 1] == xs[..i] + [xs[i]];
    UnionAllAppend(xs[..i], xs[i], f);
  }

  /** One item that throws makes the whole list throw. */
  lemma {:induction false} UnionAllThrows<T>(xs: seq<T>, i: nat, f: T -> Result<set<string>, JsError>)
    requires i < |xs| && f(xs[i]).Err?
    ensures UnionAll(xs, f) == Err(TypeError)
  {
    var init := xs[..|xs| - 1];
    if i < |xs| - 1 {
      assert init[i] == xs[i];
      UnionAllThrows(init, i, f);
    } else if UnionAll(init, f).Err? {
      assert UnionAll(init, f).error == TypeError;
    } else {
      assert f(xs[i]).error == TypeError;
    }
  }

  /** `Array.isArray(configs) ? configs : [configs]`. */
  function ConfigArray(configs: Value): seq<Value> {
    if configs.Arr? then configs.elems else [configs]
  }

  /**
   * The keys one configuration schema declares: the keys of its `properties` when those
   * are truthy, nothing otherwise; reading `.properties` of a null entry throws.
   */
  function SchemaKeys(config: Value): Result<set<string>, JsError> {
    if Nullish(config) then Err(TypeError)
    else
      var properties := Get(config, "properties");
      if !Truthy(properties) then Ok({}) else Ok(ToSet(ObjectKeys(properties)))
  }

  /** The keys one extension contributes; no `contributes` or `configuration`, no keys. */
  function ExtensionKeys(ext: Extension): Result<set<string>, JsError> {
    var contributes := OptionalGet(ext.packageJSON, "contributes");
    if !Truthy(contributes) then Ok({})
    else
      var configs := Get(contributes, "configuration");
      if !Truthy(configs) then Ok({}) else UnionAll(ConfigArray(configs), SchemaKeys)
  }

  /** The keys all installed extensions contribute. */
  function DeclaredKeys(extensions: seq<Extension>): Result<set<string>, JsError> {
    UnionAll(extensions, ExtensionKeys)
  }

  /**
   * `UnionAll` succeeds exactly when no item throws, and then holds exactly the keys some
   * item declares.
   */
  lemma {:induction false} UnionAllCharacterization<T>(xs: seq<T>, f: T -> Result<set<string>, JsError>)
    ensures UnionAll(xs, f).Ok? <==> forall x :: x in xs ==> f(x).Ok?
    ensures UnionAll(xs, f).Ok? ==>
              forall k :: k in UnionAll(xs, f).value <==> exists x :: x in xs && f(x).Ok? && k in f(x).value
  {
    if xs != [] {
      var init := xs[..|xs| - 1];
      UnionAllCharacterization(init, f);
      assert xs == init + [xs[|xs| - 1]];
      assert forall x :: x in xs <==> x in init || x == xs[|xs| - 1];
    }
  }

  /**
   * `UnionAll` depends only on which items occur: not on their order, nor on how often
   * each occurs.
   */
  lemma UnionAllOrderIndependent<T>(xs: seq<T>, ys: seq<T>, f: T -> Result<set<string>, JsError>)
    requires forall x :: x in xs <==> x in ys
    ensures UnionAll(xs, f) == UnionAll(ys, f)
  {
    UnionAllCharacterization(xs, f);
    UnionAllCharacterization(ys, f);
    if UnionAll(xs, f).Ok? {
      assert UnionAll(xs, f).value == UnionAll(ys, f).value;
    } else {
      assert UnionAll(xs, f).error == TypeError == UnionAll(ys, f).error;
    }
  }

  /**
   * The keys of all extensions: exactly the property names of some schema of some
   * extension, unless reading some schema throws.
   */
  lemma DeclaredKeysCharacterization(extensions: seq<Extension>)
    ensures DeclaredKeys(extensions).Ok? <==> forall e :: e in extensions ==> ExtensionKeys(e).Ok?
    ensures DeclaredKeys(extensions).Ok? ==>
              forall k :: k in DeclaredKeys(extensions).value <==>
                exists e :: e in extensions && ExtensionKeys(e).Ok? && k in ExtensionKeys(e).value
  {
    UnionAllCharacterization(extensions, ExtensionKeys);
  }

  /** The schemas the loop visits for one extension: none without `contributes.configuration`. */
  function Schemas(ext: Extension): seq<Value> {
    var contributes := OptionalGet(ext.packageJSON, "contributes");
    if !Truthy(contributes) then []
    else
      var configs := Get(contributes, "configuration");
      if !Truthy(configs) then [] else ConfigArray(configs)
  }

  /**
   * One extension's keys: it throws exactly when one of its schemas is `null` or
   * `undefined`, and otherwise holds exactly the `properties` names of its schemas.
   */
  lemma ExtensionKeysCharacterization(ext: Extension)
    ensures ExtensionKeys(ext).Ok? <==> forall c :: c in Schemas(ext) ==> !Nullish(c)
    ensures ExtensionKeys(ext).Ok? ==>
              forall k :: k in ExtensionKeys(ext).value <==>
                exists c :: c in Schemas(ext) && SchemaKeys(c).Ok? && k in SchemaKeys(c).value
  {
    assert ExtensionKeys(ext) == UnionAll(Schemas(ext), SchemaKeys);
    UnionAllCharacterization(Schemas(ext), SchemaKeys);
  }

  /**
   * The keys of all extensions, schema by schema: collecting throws exactly when some
   * extension has a `null` or `undefined` schema, and otherwise yields exactly the
   * `properties` names of every schema of every extension.
   */
  lemma DeclaredKeysAreSchemaKeys(extensions: seq<Extension>)
    ensures DeclaredKeys(extensions).Ok? <==>
              forall e, c :: e in extensions && c in Schemas(e) ==> !Nullish(c)
    ensures DeclaredKeys(extensions).Ok? ==>
              forall k :: k in DeclaredKeys(extensions).value <==>
                exists e, c :: e in extensions && c in Schemas(e) && SchemaKeys(c).Ok? && k in SchemaKeys(c).value
  {
    DeclaredKeysCharacterization(extensions);
    forall e | e in extensions {
      ExtensionKeysCharacterization(e);
    }
  }

  /** Reordering the installed extensions does not change the collected keys. */
  lemma DeclaredKeysOrderIndependent(extensions: seq<Extension>, reordered: seq<Extension>)
    requires multiset(extensions) == multiset(reordered)
    ensures DeclaredKeys(extensions) == DeclaredKeys(reordered)
  {
    assert forall e :: e in extensions <==> e in multiset(extensions);
    assert forall e :: e in reordered <==> e in multiset(reordered);
    UnionAllOrderIndependent(extensions, reordered, ExtensionKeys);
  }

  /** A manifest whose only contribution is `configuration`. */
  function ManifestWithConfiguration(configuration: Value): Extension {
    Extension(Obj([Prop("contributes", Obj([Prop("configuration", configuration)]))]))
  }

  /** One schema object and a one-element array holding it declare the same keys. */
  lemma SingleSchemaAsArray(schema: Value)
    requires Truthy(schema) && !schema.Arr?
    ensures ExtensionKeys(ManifestWithConfiguration(schema))
         == ExtensionKeys(ManifestWithConfiguration(Arr([schema])))
  {
    assert ConfigArray(schema) == ConfigArray(Arr([schema]));
  }

  /** Reordering the schemas of one extension's `configuration` array does not change its keys. */
  lemma SchemaOrderIndependent(schemas: seq<Value>, reordered: seq<Value>)
    requires multiset(schemas) == multiset(reordered)
    ensures ExtensionKeys(ManifestWithConfiguration(Arr(schemas)))
         == ExtensionKeys(ManifestWithConfiguration(Arr(reordered)))
  {
    assert forall v :: v in schemas <==> v in multiset(schemas);
    assert forall v :: v in reordered <==> v in multiset(reordered);
    UnionAllOrderIndependent(schemas, reordered, SchemaKeys);
  }

  /** An extension without `contributes`, `configuration` or `properties` adds nothing. */
  lemma {:induction false} NoContributionAddsNothing(extensions: seq<Extension>, ext: Extension)
    requires var contributes := OptionalGet(ext.packageJSON, "contributes");
             !Truthy(contributes)
             || !Truthy(Get(contributes, "configuration"))
             || forall c :: c in ConfigArray(Get(contributes, "configuration")) ==>
                  !Nullish(c) && !Truthy(Get(c, "properties"))
    ensures DeclaredKeys(extensions + [ext]) == DeclaredKeys(extensions)
  {
    var contributes := OptionalGet(ext.packageJSON, "contributes");
    if Truthy(contributes) && Truthy(Get(contributes, "configuration")) {
      var schemas := ConfigArray(Get(contributes, "configuration"));
      UnionAllCharacterization(schemas, SchemaKeys);
      assert UnionAll(schemas, SchemaKeys).value == {};
    }
    assert ExtensionKeys(ext) == Ok({});
    UnionAllAppend(extensions, ext, ExtensionKeys);
    if DeclaredKeys(extensions).Ok? {
      assert DeclaredKeys(extensions).value + {} == DeclaredKeys(extensions).value;
    }
  }

  /**
   * A `null` entry in a `configuration` array throws, while a `null` `configuration`
   * contributes nothing.
   */
  lemma NullSchemaEntryThrows()
    ensures ExtensionKeys(ManifestWithConfiguration(Null)) == Ok({})
    ensures ExtensionKeys(ManifestWithConfiguration(Arr([Null]))) == Err(TypeError)
  {
    assert [Null][..0] == [];
  }

  /** `getExtensionSettingKeys()`: fills a set with every declared key, in nested loops. */
  method ExtensionSettingKeys(extensions: seq<Extension>) returns (r: Result<set<string>, JsError>)
    ensures r == DeclaredKeys(extensions)
  {
    var keys: set<string> := {};
    for i := 0 to |extensions|
      invariant UnionAll(extensions[..i], ExtensionKeys) == Ok(keys)
    {
      UnionAllStep(extensions, i, ExtensionKeys);
      var ext := extensions[i];
      var contributes := OptionalGet(ext.packageJSON, "contributes");
      if !Truthy(contributes) {
        assert ExtensionKeys(ext) == Ok({}) && keys + {} == keys;
        continue;
      }
      var configs := Get(contributes, "configuration");
      if !Truthy(configs) {
        assert ExtensionKeys(ext) == Ok({}) && keys + {} == keys;
        continue;
      }
      var configArray := ConfigArray(configs);
      assert ExtensionKeys(ext) == UnionAll(configArray, SchemaKeys);
      ghost var before := keys;
      for j := 0 to |configArray|
        invariant UnionAll(configArray[..j], SchemaKeys).Ok?
        invariant keys == before + UnionAll(configArray[..j], SchemaKeys).value
      {
        UnionAllStep(configArray, j, SchemaKeys);
        var config := configArray[j];
        if Nullish(config) {
          // `config.properties` throws; the exception leaves the function
          UnionAllThrows(configArray, j, SchemaKeys);
          UnionAllThrows(extensions, i, ExtensionKeys);
          return Err(TypeError);
        }
        var properties := Get(config, "properties");
        if !Truthy(properties) {
          assert SchemaKeys(config) == Ok({});
          continue;
        }
        var names := ObjectKeys(properties);
        assert SchemaKeys(config) == Ok(ToSet(names));
        ghost var beforeSchema := keys;
        for k := 0 to |names|
          invariant keys == beforeSchema + ToSet(names[..k])
        {
          ToSetExtend(names, k);
          keys := keys + {names[k]};
        }
        assert names[..|names|] == names;
      }
      assert configArray[..|configArray|] == configArray;
    }
    assert extensions[..|extensions|] == extensions;
    r := Ok(keys);
  }
}
