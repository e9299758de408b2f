/**
 * The picker flow of the `settingsInspector.inspect` command: the quick-pick list built
 * from the categorised keys, the key the user's answer resolves to, and what the command
 * does with it. The host's prompts and queries are parameters.
 */
module Picker {
  import opened Wrappers
  import opened JsValue
  import opened KeyClassifier
  import opened KnownKeys
  import opened Categorizer

  /** `QuickPickItemKind`: a selectable entry or a section separator. */
  datatype ItemKind = Default | Separator

  /** A quick-pick entry; `text` is the item's `label`. */
  datatype QuickPickItem = QuickPickItem(text: string, description: Option<string>, kind: ItemKind)

  const TypeKeyLabel := "Type a setting key\U{2026}"
  const TypeKeyItem := QuickPickItem(TypeKeyLabel, Some("Enter any setting manually"), Default)
  const OverridesLabel := "Language Overrides"
  const BuiltInLabel := "Built\U{2011}in Settings"
  const ExtensionLabel := "Extension Settings"

  function SeparatorItem(heading: string): QuickPickItem {
    QuickPickItem(heading, None, Separator)
  }

  function KeyItem(key: string): QuickPickItem {
    QuickPickItem(key, None, Default)
  }

  /** `keys.map(k => ({ label: k }))`. */
  function KeyItems(keys: seq<string>): (items: seq<QuickPickItem>)
    ensures |items| == |keys|
    ensures forall i :: 0 <= i < |keys| ==> items[i] == KeyItem(keys[i])
  {
    if keys == [] then [] else [KeyItem(keys[0])] + KeyItems(keys[1..])
  }

  /**
   * The quick-pick list: the free-text entry, then each category under its separator —
   * overrides, built-in keys, extension keys — 4 entries more than there are keys.
   */
  function PickerItems(c: Categories): (items: seq<QuickPickItem>)
    ensures |items| == 4 + |c.overrides| + |c.builtIn| + |c.extension|
    ensures items[0] == TypeKeyItem
    ensures items[1] == SeparatorItem(OverridesLabel)
    ensures forall i :: 0 <= i < |c.overrides| ==> items[2 + i] == KeyItem(c.overrides[i])
    ensures items[2 + |c.overrides|] == SeparatorItem(BuiltInLabel)
    ensures forall i :: 0 <= i < |c.builtIn| ==> items[3 + |c.overrides| + i] == KeyItem(c.builtIn[i])
    ensures items[3 + |c.overrides| + |c.builtIn|] == SeparatorItem(ExtensionLabel)
    ensures forall i :: 0 <= i < |c.extension| ==>
              items[4 + |c.overrides| + |c.builtIn| + i] == KeyItem(c.extension[i])
  {
    [TypeKeyItem, SeparatorItem(OverridesLabel)] + KeyItems(c.overrides)
    + [SeparatorItem(BuiltInLabel)] + KeyItems(c.builtIn)
    + [SeparatorItem(ExtensionLabel)] + KeyItems(c.extension)
  }

  /** Every categorised key can be picked. */
  lemma EveryKeyIsListed(c: Categories, k: string)
    requires k in c.overrides || k in c.builtIn || k in c.extension
    ensures KeyItem(k) in PickerItems(c)
  {
    var items := PickerItems(c);
    var o, b := |c.overrides|, |c.builtIn|;
    if k in c.overrides {
      var i :| 0 <= i < o && c.overrides[i] == k;
      assert items[2 + i] == KeyItem(k);
    } else if k in c.builtIn {
      var i :| 0 <= i < b && c.builtIn[i] == k;
      assert items[3 + o + i] == KeyItem(k);
    } else {
      var i :| 0 <= i < |c.extension| && c.extension[i] == k;
      assert items[4 + o + b + i] == KeyItem(k);
    }
  }

  /** Every selectable entry after the free-text one is a categorised key. */
  lemma ListedEntriesAreKeys(c: Categories, j: nat)
    requires 0 < j < |PickerItems(c)| && PickerItems(c)[j].kind == Default
    ensures PickerItems(c)[j] == KeyItem(PickerItems(c)[j].text)
    ensures PickerItems(c)[j].text in c.overrides || PickerItems(c)[j].text in c.builtIn
            || PickerItems(c)[j].text in c.extension
  {
    var items := PickerItems(c);
    var o, b := |c.overrides|, |c.builtIn|;
    assert j != 1 && j != 2 + o && j != 3 + o + b by {
      assert items[1].kind == Separator && items[2 + o].kind == Separator
        && items[3 + o + b].kind == Separator;
    }
    if j < 2 + o {
      assert items[2 + (j - 2)] == KeyItem(c.overrides[j - 2]);
    } else if j < 3 + o + b {
      assert items[3 + o + (j - 3 - o)] == KeyItem(c.builtIn[j - 3 - o]);
    } else {
      assert items[4 + o + b + (j - 4 - o - b)] == KeyItem(c.extension[j - 4 - o - b]);
    }
  }

  /** Picking an entry with the free-text label (compared by label) opens the input box. */
  predicate OpensInputBox(picked: Option<QuickPickItem>) {
    picked.Some? && picked.value.text == TypeKeyLabel
  }

  /**
   * The key to inspect, from the picked entry and, only after the free-text entry, the
   * typed text; none when the pick or the typing is cancelled or the key is empty.
   */
  function ResolveSetting(picked: Option<QuickPickItem>, typed: Option<string>): (setting: Option<string>)
    ensures setting.Some? ==> setting.value != ""
    ensures picked.None? ==> setting.None?
    ensures OpensInputBox(picked) ==> setting == (if typed == Some("") then None else typed)
    ensures picked.Some? && !OpensInputBox(picked) ==>
              setting == (if picked.value.text == "" then None else Some(picked.value.text))
  {
    if picked.None? then None
    else
      var setting := if picked.value.text == TypeKeyLabel then typed else Some(picked.value.text);
      if setting.None? || setting.value == "" then None else setting
  }

  /** A picked key entry is inspected verbatim, whatever would have been typed. */
  lemma PickedKeyIsInspected(c: Categories, item: QuickPickItem, typed: Option<string>)
    requires item in PickerItems(c) && item.kind == Default && item.text != TypeKeyLabel
    requires item.text != ""
    ensures ResolveSetting(Some(item), typed) == Some(item.text)
    ensures item.text in c.overrides || item.text in c.builtIn || item.text in c.extension
  {
    var j :| 0 <= j < |PickerItems(c)| && PickerItems(c)[j] == item;
    assert j != 0 by { assert PickerItems(c)[0] == TypeKeyItem; }
    ListedEntriesAreKeys(c, j);
  }

  /** What one run of the command ends in. */
  datatype CommandOutcome =
    | Threw(error: JsError)
    | Cancelled
    | NotFound(message: string)
    | ShowPanel(title: string, setting: string, inspected: Inspection, finalValue: Value)

  /**
   * The `settingsInspector.inspect` command: categorise, show the list, resolve the key,
   * inspect it; cancelling any prompt ends the run silently, an unknown key shows an
   * error, a known key opens the report panel.
   */
  method InspectCommand(
    extensions: seq<Extension>,
    rootInspection: Option<Inspection>,
    showQuickPick: seq<QuickPickItem> -> Option<QuickPickItem>,
    showInputBox: Option<string>,
    inspect: string -> Option<Inspection>,
    get: string -> Value)
    returns (outcome: CommandOutcome)
    ensures DeclaredKeys(extensions).Err? <==> outcome.Threw?
    ensures DeclaredKeys(extensions).Ok? ==>
      var items := PickerItems(Categorize(DeclaredKeys(extensions).value, KnownSettingKeys(rootInspection)));
      var setting := ResolveSetting(showQuickPick(items), showInputBox);
      && (setting.None? <==> outcome.Cancelled?)
      && (setting.Some? && inspect(setting.value).None? ==>
            outcome == NotFound("Setting \"" + setting.value + "\" not found."))
      && (setting.Some? && inspect(setting.value).Some? ==> outcome.ShowPanel? && outcome.setting == setting.value)
    ensures outcome.ShowPanel? ==>
      && outcome.setting != ""
      && outcome.title == "Settings Inspector: " + outcome.setting
      && inspect(outcome.setting) == Some(outcome.inspected)
      && outcome.finalValue == get(outcome.setting)
  {
    var categories := CategorizedSettings(extensions, rootInspection);
    if categories.Err? {
      return Threw(categories.error);
    }
    var items := PickerItems(categories.value);
    var picked := showQuickPick(items);
    if picked.None? {
      return Cancelled;
    }
    var setting: Option<string>;
    if picked.value.text == TypeKeyLabel {
      setting := showInputBox;
    } else {
      setting := Some(picked.value.text);
    }
    if setting.None? || setting.value == "" {
      return Cancelled;
    }
    var inspected := inspect(setting.value);
    if inspected.None? {
      return NotFound("Setting \"" + setting.value + "\" not found.");
    }
    var finalValue := get(setting.value);
    outcome := ShowPanel("Settings Inspector: " + setting.value, setting.value, inspected.value, finalValue);
  }

  /**
   * The typed text matters only after the free-text entry: for a cancelled list or any
   * other picked entry, the key does not depend on what would have been typed.
   */
  lemma InputBoxOnlyAfterFreeTextEntry(picked: Option<QuickPickItem>, typed1: Option<string>, typed2: Option<string>)
    requires !OpensInputBox(picked)
    ensures ResolveSetting(picked, typed1) == ResolveSetting(picked, typed2)
  {
  }
}
