/**
 * The options dialog (`OptionsController` in ugitlibs/utilcontroller.py).
 * It edits a working clone of the caller's configuration model; a second
 * clone, taken once the dialog is filled in, is the backup.  Saving writes
 * out the keys whose value moved away from the backup and copies them into
 * the caller's model; cancelling puts the backup back and re-announces the
 * four font keys to the caller, whose window shows font changes live.
 */
module Options {
  import opened Strings

  /** A configuration value; `Null` is what reading an absent key gives. */
  datatype Value = Null | Str(s: string) | Int(i: int) | Bool(b: bool)

  /** Python truthiness. */
  predicate Truthy(v: Value)
  {
    match v
    case Null => false
    case Str(s) => s != []
    case Int(i) => i != 0
    case Bool(b) => b
  }

  type Params = map<string, Value>

  /** `get_param(key)`. */
  function Lookup(p: Params, key: string): Value
  {
    if key in p then p[key] else Null
  }

  /** `p` after `set_param(k, src's k)` for every `k` in `keys`. */
  function Overlay(p: Params, src: Params, keys: seq<string>): (r: Params)
    ensures r.Keys == p.Keys + set k | k in keys
    ensures forall k :: k in keys ==> Lookup(r, k) == Lookup(src, k)
    ensures forall k :: k !in keys ==> Lookup(r, k) == Lookup(p, k)
  {
    p + map k | k in keys :: Lookup(src, k)
  }

  lemma OverlaySnoc(p: Params, src: Params, keys: seq<string>, k: string)
    ensures Overlay(p, src, keys + [k]) == Overlay(p, src, keys)[k := Lookup(src, k)]
  {
  }

  lemma OverlayNone(p: Params, src: Params)
    ensures Overlay(p, src, []) == p
  {
  }

  /** Keys (in the order of `keys`) whose working value differs from the backup. */
  function ChangedKeys(keys: seq<string>, working: Params, backup: Params): (r: seq<string>)
    ensures |r| <= |keys|
    ensures forall i :: 0 <= i < |r| ==> r[i] in keys && Lookup(working, r[i]) != Lookup(backup, r[i])
  {
    if keys == [] then []
    else
      var k := keys[|keys| - 1];
      ChangedKeys(keys[..|keys| - 1], working, backup)
      + (if Lookup(working, k) != Lookup(backup, k) then [k] else [])
  }

  /** A key is listed as changed exactly when it is a config key whose value moved. */
  lemma {:induction false} ChangedKeysExactly(keys: seq<string>, working: Params, backup: Params)
    ensures forall k :: k in ChangedKeys(keys, working, backup) <==>
      k in keys && Lookup(working, k) != Lookup(backup, k)
  {
    if keys != [] {
      var init := keys[..|keys| - 1];
      ChangedKeysExactly(init, working, backup);
      assert keys == init + [keys[|keys| - 1]];
    }
  }

  /** The same filter written front to back, as a reference for the order. */
  function FilterChanged(keys: seq<string>, working: Params, backup: Params): seq<string>
  {
    if keys == [] then []
    else
      (if Lookup(working, keys[0]) != Lookup(backup, keys[0]) then [keys[0]] else [])
      + FilterChanged(keys[1..], working, backup)
  }

  lemma {:induction false} FilterChangedAppend(a: seq<string>, b: seq<string>, working: Params, backup: Params)
    ensures FilterChanged(a + b, working, backup) == FilterChanged(a, working, backup) + FilterChanged(b, working, backup)
  {
    if a == [] {
      assert a + b == b;
    } else {
      FilterChangedAppend(a[1..], b, working, backup);
      assert (a + b)[1..] == a[1..] + b;
    }
  }

  /** The changed keys come out in the order the config keys are listed. */
  lemma {:induction false} ChangedKeysInOrder(keys: seq<string>, working: Params, backup: Params)
    ensures ChangedKeys(keys, working, backup) == FilterChanged(keys, working, backup)
  {
    if keys != [] {
      var init := keys[..|keys| - 1];
      var k := keys[|keys| - 1];
      ChangedKeysInOrder(init, working, backup);
      assert keys == init + [k];
      FilterChangedAppend(init, [k], working, backup);
    }
  }

  /**
   * Saving copies into the caller's model exactly the keys that changed:
   * those take the working value, every other key keeps the caller's.
   */
  lemma SaveTouchesOnlyChanged(keys: seq<string>, working: Params, backup: Params, caller: Params)
    ensures var after := Overlay(caller, working, ChangedKeys(keys, working, backup));
      forall k :: Lookup(after, k) ==
        if k in keys && Lookup(working, k) != Lookup(backup, k) then Lookup(working, k) else Lookup(caller, k)
  {
    ChangedKeysExactly(keys, working, backup);
  }

  /** After a cancel restores the backup, nothing differs from it: a save would write nothing. */
  lemma RestoredHasNoChanges(keys: seq<string>, working: Params, backup: Params)
    ensures ChangedKeys(keys, Overlay(working, backup, keys), backup) == []
  {
    NothingChanged(keys, Overlay(working, backup, keys), backup);
  }

  lemma {:induction false} NothingChanged(keys: seq<string>, working: Params, backup: Params)
    requires forall k :: k in keys ==> Lookup(working, k) == Lookup(backup, k)
    ensures ChangedKeys(keys, working, backup) == []
  {
    if keys != [] {
      var init := keys[..|keys| - 1];
      assert forall k :: k in init ==> k in keys;
      NothingChanged(init, working, backup);
    }
  }

  // -----------------------------------------------------------------------
  // Font sizes
  // -----------------------------------------------------------------------

  const FontUi := "global.ugit.fontui"
  const FontDiff := "global.ugit.fontdiff"
  const FontUiSize := FontUi + ".size"
  const FontDiffSize := FontDiff + ".size"

  /** The four font keys are pairwise distinct. */
  lemma FontKeysDistinct()
    ensures FontUi != FontDiff && FontUi != FontUiSize && FontUi != FontDiffSize
    ensures FontDiff != FontUiSize && FontDiff != FontDiffSize && FontUiSize != FontDiffSize
  {
    assert |FontUi| == 18 && |FontDiff| == 20 && |FontUiSize| == 23 && |FontDiffSize| == 25;
  }

  /** The keys pushed to the caller's model for live font display, in push order. */
  const FontKeys: seq<string> := [FontDiff, FontUi, FontDiffSize, FontUiSize]

  /** Why a font string has no usable size: no comma, a non-integer field, or not text. */
  datatype FontError = MissingSizeField | NotAnInteger | NotText

  /** `int(font.split(',')[1])`. */
  function FontSize(font: string): (r: Result<int, FontError>)
    ensures r == Err(MissingSizeField) <==> ',' !in font
  {
    match SecondField(font)
    case None => Err(MissingSizeField)
    case Some(field) =>
      match ParseInt(field)
      case None => Err(NotAnInteger)
      case Some(n) => Ok(n)
  }

  lemma NoCommaInInt(n: int)
    ensures ',' !in IntToString(n)
  {
    var d := NatToString(if n < 0 then -n else n);
    assert forall i :: 0 <= i < |d| ==> IsDigit(d[i]);
    if n < 0 {
      assert IntToString(n) == ['-'] + d;
    }
  }

  /** A font written as `family,size[,...]` reads back the size it was written with. */
  lemma FontSizeRoundTrip(family: string, size: int, tail: string)
    requires ',' !in family
    requires tail == [] || tail[0] == ','
    ensures FontSize(family + "," + IntToString(size) + tail) == Ok(size)
  {
    NoCommaInInt(size);
    SecondFieldOf(family, IntToString(size), tail);
    ParseIntRoundTrip(size);
  }

  /** The size of a configured font; a value that is not text has no `split`. */
  function FontSizeOf(font: Value): (r: Result<int, FontError>)
    ensures r == Err(NotText) <==> !font.Str?
    ensures font.Str? ==> r == FontSize(font.s)
  {
    match font
    case Str(s) => FontSize(s)
    case _ => Err(NotText)
  }

  /** `refresh_view` for one font key: a set font also sets its `.size` key. */
  function RefreshFont(p: Params, key: string): (r: Result<Params, FontError>)
    ensures !Truthy(Lookup(p, key)) ==> r == Ok(p)
    ensures Truthy(Lookup(p, key)) ==> (r.Err? <==> FontSizeOf(Lookup(p, key)).Err?)
    ensures r.Err? ==> r.error == FontSizeOf(Lookup(p, key)).error
    ensures r.Ok? && Truthy(Lookup(p, key)) ==>
      Lookup(r.value, key + ".size") == Int(FontSizeOf(Lookup(p, key)).value)
    ensures r.Ok? ==> forall k :: k != key + ".size" ==> Lookup(r.value, k) == Lookup(p, k)
  {
    var font := Lookup(p, key);
    if !Truthy(font) then Ok(p)
    else match FontSizeOf(font)
      case Ok(size) => Ok(p[key + ".size" := Int(size)])
      case Err(e) => Err(e)
  }

  /** `refresh_view`: the UI font, then the diff font. */
  function Refreshed(p: Params): (r: Result<Params, FontError>)
    ensures Truthy(Lookup(p, FontUi)) && FontSizeOf(Lookup(p, FontUi)).Err? ==>
      r == Err(FontSizeOf(Lookup(p, FontUi)).error)
    ensures r.Ok? ==> forall k :: k != FontUiSize && k != FontDiffSize ==> Lookup(r.value, k) == Lookup(p, k)
  {
    match RefreshFont(p, FontUi)
    case Ok(p1) => RefreshFont(p1, FontDiff)
    case Err(e) => Err(e)
  }

  /**
   * Refreshing sets each font's size key to the size written in the font
   * string and leaves every other key alone.
   */
  lemma RefreshedSizes(p: Params, uiFamily: string, ui: int, uiTail: string,
                        diffFamily: string, diff: int, diffTail: string)
    requires ',' !in uiFamily && ',' !in diffFamily
    requires uiTail == [] || uiTail[0] == ','
    requires diffTail == [] || diffTail[0] == ','
    requires Lookup(p, FontUi) == Str(uiFamily + "," + IntToString(ui) + uiTail)
    requires Lookup(p, FontDiff) == Str(diffFamily + "," + IntToString(diff) + diffTail)
    ensures Refreshed(p).Ok?
    ensures Lookup(Refreshed(p).value, FontUiSize) == Int(ui)
    ensures Lookup(Refreshed(p).value, FontDiffSize) == Int(diff)
    ensures forall k :: k != FontUiSize && k != FontDiffSize ==>
      Lookup(Refreshed(p).value, k) == Lookup(p, k)
  {
    FontKeysDistinct();
    FontSizeRoundTrip(uiFamily, ui, uiTail);
    var p1 := p[FontUiSize := Int(ui)];
    assert RefreshFont(p, FontUi) == Ok(p1);
    assert Lookup(p1, FontDiff) == Lookup(p, FontDiff);
    FontSizeRoundTrip(diffFamily, diff, diffTail);
    assert RefreshFont(p1, FontDiff) == Ok(p1[FontDiffSize := Int(diff)]);
  }

  // -----------------------------------------------------------------------
  // The configuration model and the controller
  // -----------------------------------------------------------------------

  /**
   * The configuration model, as far as the dialog uses it.  `notified`
   * records the keys announced to observers (a `set_param` while `notify`
   * is on) and `persisted` the keys written out by `save_config_param`.
   */
  class ConfigModel {
    var params: Params
    var configParams: seq<string>
    var notify: bool
    var notified: seq<string>
    var persisted: seq<string>

    constructor (params: Params, configParams: seq<string>, notify: bool)
      ensures this.params == params && this.configParams == configParams && this.notify == notify
      ensures notified == [] && persisted == []
    {
      this.params := params;
      this.configParams := configParams;
      this.notify := notify;
      notified := [];
      persisted := [];
    }

    function GetParam(key: string): Value
      reads this
    {
      Lookup(params, key)
    }

    method SetParam(key: string, value: Value)
      modifies this
      ensures params == old(params)[key := value]
      ensures notified == old(notified) + (if notify then [key] else [])
      ensures notify == old(notify) && configParams == old(configParams) && persisted == old(persisted)
    {
      params := params[key := value];
      if notify {
        notified := notified + [key];
      }
    }

    method SetNotify(on: bool)
      modifies this
      ensures notify == on
      ensures params == old(params) && configParams == old(configParams)
      ensures notified == old(notified) && persisted == old(persisted)
    {
      notify := on;
    }

    method SaveConfigParam(key: string)
      modifies this
      ensures persisted == old(persisted) + [key]
      ensures params == old(params) && configParams == old(configParams)
      ensures notify == old(notify) && notified == old(notified)
    {
      persisted := persisted + [key];
    }

    /** `copy_params(other, keys)`: `set_param(k, other.get_param(k))` for each key in turn. */
    method CopyParams(other: ConfigModel, keys: seq<string>)
      requires other != this
      modifies this
      ensures params == Overlay(old(params), other.params, keys)
      ensures notified == old(notified) + (if notify then keys else [])
      ensures notify == old(notify) && configParams == old(configParams) && persisted == old(persisted)
    {
      OverlayNone(params, other.params);
      for i := 0 to |keys|
        invariant params == Overlay(old(params), other.params, keys[..i])
        invariant notified == old(notified) + (if notify then keys[..i] else [])
        invariant notify == old(notify) && configParams == old(configParams) && persisted == old(persisted)
      {
        OverlaySnoc(old(params), other.params, keys[..i], keys[i]);
        assert keys[..i + 1] == keys[..i] + [keys[i]];
        SetParam(keys[i], other.GetParam(keys[i]));
      }
      assert keys[..|keys|] == keys;
    }

    method Clone() returns (c: ConfigModel)
      ensures fresh(c)
      ensures c.params == params && c.configParams == configParams && c.notify == notify
      ensures c.notified == [] && c.persisted == []
    {
      c := new ConfigModel(params, configParams, notify);
    }
  }

  /**
   * The `.size` keys `refresh_view` sets, in order, for a UI font `ui` and a
   * diff font `diff`: a set font whose size reads is followed by its `.size`
   * key; a UI font whose size does not read stops the refresh before the
   * diff font.
   */
  function SizeKeysSet(ui: Value, diff: Value): seq<string>
  {
    if Truthy(ui) && FontSizeOf(ui).Err? then []
    else
      (if Truthy(ui) then [FontUiSize] else [])
      + (if Truthy(diff) && FontSizeOf(diff).Ok? then [FontDiffSize] else [])
  }

  /** One block of `refresh_view`: a set font `key` also sets `key.size`. */
  method RefreshFontOf(m: ConfigModel, key: string) returns (err: Option<FontError>)
    modifies m
    ensures m.configParams == old(m.configParams) && m.persisted == old(m.persisted)
    ensures m.notify == old(m.notify)
    ensures match RefreshFont(old(m.params), key)
      case Ok(p) => err.None? && m.params == p
      case Err(e) => err == Some(e) && m.params == old(m.params)
    ensures m.notified == old(m.notified) +
      (if m.notify && Truthy(Lookup(old(m.params), key)) && FontSizeOf(Lookup(old(m.params), key)).Ok?
       then [key + ".size"] else [])
  {
    var font := m.GetParam(key);
    if !Truthy(font) {
      return None;
    }
    var size := FontSizeOf(font);
    if size.Err? {
      return Some(size.error);
    }
    m.SetParam(key + ".size", Int(size.value));
    return None;
  }

  /** `refresh_view` on the working model; `Some(e)` where Python would raise. */
  method RefreshView(m: ConfigModel) returns (err: Option<FontError>)
    modifies m
    ensures m.configParams == old(m.configParams) && m.persisted == old(m.persisted)
    ensures m.notify == old(m.notify)
    ensures m.notified == old(m.notified) +
      (if m.notify then SizeKeysSet(Lookup(old(m.params), FontUi), Lookup(old(m.params), FontDiff)) else [])
    ensures match Refreshed(old(m.params))
      case Ok(p) => err.None? && m.params == p
      case Err(e) => err == Some(e)
  {
    FontKeysDistinct();
    ghost var ui := Lookup(m.params, FontUi);
    ghost var diff := Lookup(m.params, FontDiff);
    err := RefreshFontOf(m, FontUi);
    if err.Some? {
      return;
    }
    assert Lookup(m.params, FontDiff) == diff;
    err := RefreshFontOf(m, FontDiff);
  }

  class OptionsController {
    /** The caller's model, told about saved keys and live font changes. */
    const original: ConfigModel
    /** The working clone the dialog edits. */
    const model: ConfigModel
    /** The working clone as it stood when the dialog opened. */
    const backup: ConfigModel
    /** The dialog was closed with "accepted". */
    var accepted: bool

    ghost predicate Valid()
      reads this
    {
      original != model && original != backup && model != backup
    }

    constructor (original: ConfigModel, model: ConfigModel, backup: ConfigModel)
      requires original != model && original != backup && model != backup
      ensures Valid() && !accepted
      ensures this.original == original && this.model == model && this.backup == backup
    {
      this.original := original;
      this.model := model;
      this.backup := backup;
      accepted := false;
    }

    /** Save button: write out and hand back exactly the keys that changed. */
    method SaveSettings()
      requires Valid()
      modifies this, model, original
      ensures accepted
      ensures var changed := ChangedKeys(old(model.configParams), old(model.params), backup.params);
        model.persisted == old(model.persisted) + changed &&
        original.params == Overlay(old(original.params), model.params, changed) &&
        original.notified == old(original.notified) + (if original.notify then changed else [])
      ensures model.params == old(model.params) && model.configParams == old(model.configParams)
      ensures model.notify == old(model.notify) && model.notified == old(model.notified)
      ensures original.notify == old(original.notify) && original.configParams == old(original.configParams)
      ensures original.persisted == old(original.persisted)
    {
      var paramsToSave: seq<string> := [];
      var params := model.configParams;
      for i := 0 to |params|
        invariant paramsToSave == ChangedKeys(params[..i], model.params, backup.params)
      {
        var value := model.GetParam(params[i]);
        var saved := backup.GetParam(params[i]);
        assert params[..i + 1][..i] == params[..i];
        if value != saved {
          paramsToSave := paramsToSave + [params[i]];
        }
      }
      assert params[..|params|] == params;
      for i := 0 to |paramsToSave|
        invariant model.persisted == old(model.persisted) + paramsToSave[..i]
        invariant model.params == old(model.params) && model.configParams == old(model.configParams)
        invariant model.notify == old(model.notify) && model.notified == old(model.notified)
        invariant unchanged(original)
      {
        assert paramsToSave[..i + 1] == paramsToSave[..i] + [paramsToSave[i]];
        model.SaveConfigParam(paramsToSave[i]);
      }
      assert paramsToSave[..|paramsToSave|] == paramsToSave;
      original.CopyParams(model, paramsToSave);
      accepted := true;
    }

    /** Cancel: put the backup back, then re-announce the fonts to the caller. */
    method RestoreSettings()
      requires Valid()
      modifies model, original
      ensures model.params == Overlay(old(model.params), backup.params, backup.configParams)
      ensures original.params == Overlay(old(original.params), model.params, FontKeys)
      ensures original.notify == old(original.notify)
      ensures original.notified == old(original.notified) + FontKeys
      ensures model.notified == old(model.notified) + (if model.notify then backup.configParams else [])
      ensures model.notify == old(model.notify) && model.configParams == old(model.configParams)
      ensures model.persisted == old(model.persisted)
      ensures original.configParams == old(original.configParams) && original.persisted == old(original.persisted)
    {
      var params := backup.configParams;
      model.CopyParams(backup, params);
      TellParentModel();
    }

    /** Push the four font keys to the caller with notification on, then restore its flag. */
    method TellParentModel()
      requires Valid()
      modifies original
      ensures original.params == Overlay(old(original.params), model.params, FontKeys)
      ensures original.notify == old(original.notify)
      ensures original.notified == old(original.notified) + FontKeys
      ensures original.configParams == old(original.configParams) && original.persisted == old(original.persisted)
    {
      var notify := original.notify;
      original.SetNotify(true);
      var keys := FontKeys;
      OverlayNone(original.params, model.params);
      for i := 0 to |keys|
        invariant original.params == Overlay(old(original.params), model.params, keys[..i])
        invariant original.notify && original.notified == old(original.notified) + keys[..i]
        invariant original.configParams == old(original.configParams)
        invariant original.persisted == old(original.persisted)
      {
        OverlaySnoc(old(original.params), model.params, keys[..i], keys[i]);
        assert keys[..i + 1] == keys[..i] + [keys[i]];
        original.SetParam(keys[i], model.GetParam(keys[i]));
      }
      assert keys[..|keys|] == keys;
      original.SetNotify(notify);
    }
  }

  /**
   * Opening the dialog: clone the caller's model, fill in the font sizes,
   * then take the backup.  A font string without a readable size makes the
   * constructor raise, so no dialog is made.
   */
  method Open(original: ConfigModel) returns (r: Result<OptionsController, FontError>)
    ensures r.Err? ==> Refreshed(original.params) == Err(r.error)
    ensures r.Ok? ==>
      var c := r.value;
      fresh(c) && fresh(c.model) && fresh(c.backup) && c.Valid() && !c.accepted &&
      c.original == original && Refreshed(original.params) == Ok(c.model.params) &&
      c.backup.params == c.model.params && c.backup.configParams == c.model.configParams &&
      c.model.configParams == original.configParams &&
      c.model.notify == original.notify && c.backup.notify == original.notify
  {
    var working := original.Clone();
    var err := RefreshView(working);
    if err.Some? {
      return Err(err.value);
    }
    var backup := working.Clone();
    var c := new OptionsController(original, working, backup);
    return Ok(c);
  }
}
