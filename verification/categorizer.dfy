/**
 * Categorisation: every known key goes to exactly one of three ascending lists, by a rule
 * taken in priority order: bracketed language-override keys, then keys an extension
 * declares, then the rest (built-in keys).
 */
module Categorizer {
  import opened Wrappers
  import opened JsValue
  import opened StringOrder
  import opened KeyClassifier
  import opened KnownKeys

  /** `key.startsWith('[') && key.endsWith(']')`. */
  predicate IsOverrideKey(key: string) {
    |key| > 0 && key[0] == '[' && key[|key| - 1] == ']'
  }

  /** The three lists `getCategorizedSettings()` returns. */
  datatype Categories = Categories(overrides: seq<string>, builtIn: seq<string>, extension: seq<string>)

  /** The keys of all three lists, counted with multiplicity. */
  function AllKeys(c: Categories): multiset<string> {
    multiset(c.overrides) + multiset(c.builtIn) + multiset(c.extension)
  }

  /** What the loop has pushed into the three lists after visiting `keys`, in order. */
  function Partition(extensionKeys: set<string>, keys: seq<string>): (c: Categories)
    ensures AllKeys(c) == multiset(keys)
    ensures forall k :: k in c.overrides ==> IsOverrideKey(k)
    ensures forall k :: k in c.extension ==> !IsOverrideKey(k) && k in extensionKeys
    ensures forall k :: k in c.builtIn ==> !IsOverrideKey(k) && k !in extensionKeys
  {
    if keys == [] then Categories([], [], [])
    else
      var key := keys[|keys| - 1];
      var c := Partition(extensionKeys, keys[..|keys| - 1]);
      assert keys == keys[..|keys| - 1] + [key];
      if IsOverrideKey(key) then c.(overrides := c.overrides + [key])
      else if key in extensionKeys then c.(extension := c.extension + [key])
      else c.(builtIn := c.builtIn + [key])
  }

  /**
   * The categorised keys: a partition of `keys` (each key in exactly one list, as often
   * as in `keys`), each list ascending, a bracketed key an override even when an
   * extension declares it.
   */
  function Categorize(extensionKeys: set<string>, keys: seq<string>): (c: Categories)
    ensures Sorted(c.overrides) && Sorted(c.builtIn) && Sorted(c.extension)
    ensures AllKeys(c) == multiset(keys)
    ensures forall k :: k in c.overrides <==> k in keys && IsOverrideKey(k)
    ensures forall k :: k in c.extension <==> k in keys && !IsOverrideKey(k) && k in extensionKeys
    ensures forall k :: k in c.builtIn <==> k in keys && !IsOverrideKey(k) && k !in extensionKeys
  {
    var p := Partition(extensionKeys, keys);
    PartitionMembers(extensionKeys, keys);
    SortKeepsMembers(p.overrides);
    SortKeepsMembers(p.builtIn);
    SortKeepsMembers(p.extension);
    Categories(SortStrings(p.overrides), SortStrings(p.builtIn), SortStrings(p.extension))
  }

  /** Each visited key lands in the list its rule selects, and only there. */
  lemma PartitionMembers(extensionKeys: set<string>, keys: seq<string>)
    ensures var p := Partition(extensionKeys, keys);
      && (forall k :: k in p.overrides <==> k in keys && IsOverrideKey(k))
      && (forall k :: k in p.extension <==> k in keys && !IsOverrideKey(k) && k in extensionKeys)
      && (forall k :: k in p.builtIn <==> k in keys && !IsOverrideKey(k) && k !in extensionKeys)
  {
    var p := Partition(extensionKeys, keys);
    forall k | k in keys
      ensures k in p.overrides || k in p.builtIn || k in p.extension
    {
      assert k in multiset(keys);
      assert k in AllKeys(p);
    }
    forall k | k in p.overrides || k in p.builtIn || k in p.extension
      ensures k in keys
    {
      assert k in AllKeys(p);
      assert k in multiset(keys);
    }
  }

  /** A part of a list without repeated keys repeats no key either. */
  lemma PartHasNoDuplicates(part: seq<string>, rest: multiset<string>, keys: seq<string>)
    requires multiset(part) + rest == multiset(keys) && NoDuplicates(keys)
    ensures NoDuplicates(part)
  {
    forall x | x in multiset(part) ensures multiset(part)[x] == 1 {
      assert (multiset(part) + rest)[x] == multiset(part)[x] + rest[x];
    }
  }

  /**
   * The three lists share no key, and when the known keys are distinct (as the keys of
   * an object are) no list repeats a key.
   */
  lemma CategoriesDisjoint(extensionKeys: set<string>, keys: seq<string>)
    ensures var c := Categorize(extensionKeys, keys);
      && (forall k :: k in c.overrides ==> k !in c.builtIn && k !in c.extension)
      && (forall k :: k in c.builtIn ==> k !in c.extension)
    ensures NoDuplicates(keys) ==>
      var c := Categorize(extensionKeys, keys);
      NoDuplicates(c.overrides) && NoDuplicates(c.builtIn) && NoDuplicates(c.extension)
  {
    var c := Categorize(extensionKeys, keys);
    if NoDuplicates(keys) {
      PartHasNoDuplicates(c.overrides, multiset(c.builtIn) + multiset(c.extension), keys);
      PartHasNoDuplicates(c.builtIn, multiset(c.overrides) + multiset(c.extension), keys);
      PartHasNoDuplicates(c.extension, multiset(c.overrides) + multiset(c.builtIn), keys);
    }
  }

  /** Visiting one more key pushes it into the list its rule selects. */
  lemma PartitionStep(extensionKeys: set<string>, keys: seq<string>, key: string)
    ensures var c := Partition(extensionKeys, keys);
      Partition(extensionKeys, keys + [key])
        == if IsOverrideKey(key) then c.(overrides := c.overrides + [key])
           else if key in extensionKeys then c.(extension := c.extension + [key])
           else c.(builtIn := c.builtIn + [key])
  {
    assert (keys + [key])[..|keys|] == keys;
  }

  /** Visiting the key at index `i` extends the lists of the keys before it. */
  lemma PartitionPrefixStep(extensionKeys: set<string>, keys: seq<string>, i: nat)
    requires i < |keys|
    ensures var c := Partition(extensionKeys, keys[..i]);
      var key := keys[i];
      Partition(extensionKeys, keys[..i + 1])
        == if IsOverrideKey(key) then c.(overrides := c.overrides + [key])
           else if key in extensionKeys then c.(extension := c.extension + [key])
           else c.(builtIn := c.builtIn + [key])
  {
    assert keys[..i + 1] == keys[..i] + [keys[i]];
    PartitionStep(extensionKeys, keys[..i], keys[i]);
  }

  /** A lone override key goes to the overrides. */
  lemma PartitionOfOverride(ext: set<string>, a: string)
    requires IsOverrideKey(a)
    ensures Partition(ext, [a]) == Categories([a], [], [])
  {
    PartitionStep(ext, [], a);
    assert [] + [a] == [a];
  }

  /** An override then a built-in key. */
  lemma PartitionOfTwo(ext: set<string>, a: string, b: string)
    requires IsOverrideKey(a)
    requires !IsOverrideKey(b) && b !in ext
    ensures Partition(ext, [a, b]) == Categories([a], [b], [])
  {
    PartitionOfOverride(ext, a);
    PartitionStep(ext, [a], b);
    assert [a] + [b] == [a, b];
    assert [] + [b] == [b];
  }

  /** An override, a built-in key and an extension key, visited in that order. */
  lemma PartitionOfThree(ext: set<string>, a: string, b: string, e: string)
    requires IsOverrideKey(a)
    requires !IsOverrideKey(b) && b !in ext
    requires !IsOverrideKey(e) && e in ext
    ensures Partition(ext, [a, b, e]) == Categories([a], [b], [e])
  {
    PartitionOfTwo(ext, a, b);
    PartitionStep(ext, [a, b], e);
    assert [a, b] + [e] == [a, b, e];
    assert [] + [e] == [e];
  }

  /**
   * The example of a Python override, a built-in key and one extension's key, as the loop
   * sees it.
   */
  lemma PartitionExample(ext: set<string>, keys: seq<string>)
    requires "myext.enableFoo" in ext && "editor.fontSize" !in ext
    requires keys == ["[python]", "editor.fontSize", "myext.enableFoo"]
    ensures Partition(ext, keys) == Categories(["[python]"], ["editor.fontSize"], ["myext.enableFoo"])
  {
    assert IsOverrideKey("[python]");
    assert !IsOverrideKey("editor.fontSize") && !IsOverrideKey("myext.enableFoo");
    PartitionOfThree(ext, "[python]", "editor.fontSize", "myext.enableFoo");
  }

  /** The same example, categorised: with one key per list, sorting changes nothing. */
  lemma CategorizeExample(ext: set<string>, keys: seq<string>)
    requires "myext.enableFoo" in ext && "editor.fontSize" !in ext
    requires keys == ["[python]", "editor.fontSize", "myext.enableFoo"]
    ensures Categorize(ext, keys) == Categories(["[python]"], ["editor.fontSize"], ["myext.enableFoo"])
  {
    PartitionExample(ext, keys);
    SortSingleton("[python]");
    SortSingleton("editor.fontSize");
    SortSingleton("myext.enableFoo");
  }

  lemma SortSingleton(x: string)
    ensures SortStrings([x]) == [x]
  {
    assert [x][1..] == [];
  }

  /**
   * `getCategorizedSettings()`: collects the extension keys and the known keys, pushes
   * each known key into its list in one loop, then sorts the three lists.
   */
  method CategorizedSettings(extensions: seq<Extension>, rootInspection: Option<Inspection>)
    returns (r: Result<Categories, JsError>)
    ensures r.Err? <==> DeclaredKeys(extensions).Err?
    ensures r.Ok? ==> r.value == Categorize(DeclaredKeys(extensions).value, KnownSettingKeys(rootInspection))
  {
    var extensionKeys := ExtensionSettingKeys(extensions);
    if extensionKeys.Err? {
      return Err(extensionKeys.error);
    }
    var allKeys := KnownSettingKeys(rootInspection);
    var overrides, builtIn, extension := [], [], [];
    for i := 0 to |allKeys|
      invariant Categories(overrides, builtIn, extension) == Partition(extensionKeys.value, allKeys[..i])
    {
      var key := allKeys[i];
      PartitionPrefixStep(extensionKeys.value, allKeys, i);
      if IsOverrideKey(key) {
        overrides := overrides + [key];
      } else if key in extensionKeys.value {
        extension := extension + [key];
      } else {
        builtIn := builtIn + [key];
      }
    }
    assert allKeys[..|allKeys|] == allKeys;
    r := Ok(Categories(SortStrings(overrides), SortStrings(builtIn), SortStrings(extension)));
  }
}
