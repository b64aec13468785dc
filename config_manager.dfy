/**
 * The template and settings store of `ConfigManager` (core/config_manager.py). The two
 * JSON files it reads and rewrites on every call are held as fields; the clock and the
 * home directory are parameters.
 */
module ConfigManagement {
  import opened Wrappers
  import opened Lists
  import opened Dicts
  import Paths

  /** A JSON value as the configuration dictionaries hold them. */
  datatype Value = Null | Bool(b: bool) | Int(i: int) | Real(r: real) | Str(s: string) | List(items: seq<Value>)

  /** One stored template. */
  datatype Template = Template(name: string, description: string, createdTime: string,
                               watermarkConfig: Dict<Value>, exportConfig: Dict<Value>)

  /** The templates file: the templates in insertion order and the last used name. */
  datatype Store = Store(templates: Dict<Template>, lastUsed: Option<string>)

  /** The contents of a template file to import; `None` is a missing key. */
  datatype ImportFile = ImportFile(name: Option<string>, description: Option<string>,
                                   watermarkConfig: Option<Dict<Value>>, exportConfig: Option<Dict<Value>>)

  const DefaultName := "Default"
  const DefaultDescription := "\U{9ED8}\U{8BA4}\U{6C34}\U{5370}\U{6A21}\U{677F}"

  /** The invariant every operation keeps: a well-formed dictionary, and a last used name that names a template. */
  predicate StoreValid(st: Store) {
    st.templates.Valid() && (st.lastUsed.Some? ==> st.lastUsed.value in st.templates.values)
  }

  /** `default_watermark_config`, whose text is the date the manager was made. */
  function DefaultWatermarkConfig(today: string): Dict<Value> {
    FromPairs([
      ("type", Str("text")), ("text", Str(today)), ("font_name", Null), ("font_size", Int(36)),
      ("color", List([Int(0), Int(0), Int(0), Int(128)])), ("bold", Bool(false)), ("italic", Bool(false)),
      ("shadow", Bool(false)), ("stroke", Bool(false)), ("stroke_width", Int(2)),
      ("stroke_color", List([Int(0), Int(0), Int(0), Int(255)])), ("position", Str("middle_center")),
      ("custom_pos", Null), ("margin", Int(20)), ("rotation", Int(0)), ("opacity", Int(128)),
      ("scale_percent", Real(100.0)), ("image_path", Null)])
  }

  /** `default_export_config`. */
  function DefaultExportConfig(): Dict<Value> {
    FromPairs([
      ("output_format", Str("JPEG")), ("quality", Int(95)), ("naming_rule", Str("suffix")),
      ("custom_text", Str("_watermarked")), ("resize_enabled", Bool(false)), ("resize_width", Null),
      ("resize_height", Null), ("resize_scale", Null)])
  }

  /** The settings file `_init_config_files` writes when there is none. */
  function DefaultSettings(home: string): Dict<Value> {
    FromPairs([
      ("window_size", List([Int(1200), Int(800)])), ("window_position", Null), ("last_input_dir", Str(home)),
      ("last_output_dir", Str(Paths.Join(home, "Desktop"))), ("auto_load_last_template", Bool(true)),
      ("preview_size", List([Int(400), Int(300)])), ("thumbnail_size", List([Int(150), Int(150)]))])
  }

  /** The templates file `_init_config_files` writes when there is none: the `Default` template, last used. */
  function InitialStore(today: string, now: string): Store {
    var t := Template(DefaultName, DefaultDescription, now, DefaultWatermarkConfig(today), DefaultExportConfig());
    Store(Put(EmptyDict(), DefaultName, t), Some(DefaultName))
  }

  /** `save_template`: the template stored under its name, which becomes the last used. */
  function SaveSpec(st: Store, name: string, watermarkConfig: Dict<Value>, exportConfig: Dict<Value>,
                    description: string, now: string): Store
  {
    Store(Put(st.templates, name, Template(name, description, now, watermarkConfig, exportConfig)), Some(name))
  }

  /** The last used name after the last used template is deleted: `Default` if present, else the first key, else none. */
  function FallbackLastUsed(templates: Dict<Template>): Option<string> {
    if DefaultName in templates.values then Some(DefaultName)
    else if templates.keys != [] then Some(templates.keys[0])
    else None
  }

  /** `delete_template`: `false` and no change for an absent name. */
  function DeleteSpec(st: Store, name: string): (bool, Store) {
    if name !in st.templates.values then (false, st)
    else
      var rest := Delete(st.templates, name);
      if st.lastUsed == Some(name) then (true, Store(rest, FallbackLastUsed(rest)))
      else (true, Store(rest, st.lastUsed))
  }

  /** `set_last_used_template`: only an existing name is accepted. */
  function SetLastUsedSpec(st: Store, name: string): (bool, Store) {
    if name in st.templates.values then (true, st.(lastUsed := Some(name))) else (false, st)
  }

  /** `import_template`'s loop run over `keys`: each key the configuration lacks is added with its default value. */
  function Fill(config: Dict<Value>, keys: seq<string>, defaults: map<string, Value>): Dict<Value>
    requires forall k :: k in keys ==> k in defaults
    decreases |keys|
  {
    if keys == [] then config
    else
      var k := keys[0];
      Fill(if k in config.values then config else Put(config, k, defaults[k]), keys[1..], defaults)
  }

  /** The configuration completed from every default key, in the defaults' order. */
  function Completed(config: Dict<Value>, defaults: Dict<Value>): Dict<Value>
    requires defaults.Valid()
  {
    Fill(config, defaults.keys, defaults.values)
  }

  /** The name an import saves under: a non-empty given name, else the file's `name`, else the file's stem. */
  function ImportName(templateName: Option<string>, file: ImportFile, importPath: string): string {
    if templateName.Some? && templateName.value != "" then templateName.value
    else if file.name.Some? then file.name.value
    else Paths.PathStem(importPath)
  }

  /** The description an import falls back on: "imported from <path>". */
  function ImportedFrom(importPath: string): string {
    "\U{4ECE} " + importPath + " \U{5BFC}\U{5165}"
  }

  /** `import_template`: the file's configurations completed from the defaults, saved under the import name. */
  function ImportSpec(st: Store, file: ImportFile, importPath: string, templateName: Option<string>,
                      defaultWatermark: Dict<Value>, defaultExport: Dict<Value>, now: string): Store
    requires defaultWatermark.Valid() && defaultExport.Valid()
  {
    SaveSpec(st, ImportName(templateName, file, importPath),
             Completed(file.watermarkConfig.GetOr(EmptyDict()), defaultWatermark),
             Completed(file.exportConfig.GetOr(EmptyDict()), defaultExport),
             file.description.GetOr(ImportedFrom(importPath)), now)
  }

  /** The fresh store is valid, holds only `Default`, and has `Default` as last used. */
  lemma InitialStoreValid(today: string, now: string)
    ensures var st := InitialStore(today, now);
      StoreValid(st) && st.templates.keys == [DefaultName] && st.lastUsed == Some(DefaultName)
  {
    var t := Template(DefaultName, DefaultDescription, now, DefaultWatermarkConfig(today), DefaultExportConfig());
    PutFacts(EmptyDict(), DefaultName, t);
  }

  /** Completing a configuration keeps it well formed, with its keys first and in their places. */
  lemma {:induction false} FillShape(config: Dict<Value>, keys: seq<string>, defaults: map<string, Value>)
    requires config.Valid() && forall k :: k in keys ==> k in defaults
    ensures var r := Fill(config, keys, defaults);
      r.Valid() && |config.keys| <= |r.keys| && r.keys[..|config.keys|] == config.keys
    decreases |keys|
  {
    if keys != [] {
      var k := keys[0];
      var c := if k in config.values then config else Put(config, k, defaults[k]);
      if k !in config.values {
        PutFacts(config, k, defaults[k]);
      }
      FillShape(c, keys[1..], defaults);
      var r := Fill(c, keys[1..], defaults);
      assert r.keys[..|config.keys|] == r.keys[..|c.keys|][..|config.keys|];
    }
  }

  /** Completing a configuration adds exactly the keys it lacked. */
  lemma {:induction false} FillDomain(config: Dict<Value>, keys: seq<string>, defaults: map<string, Value>)
    requires config.Valid() && forall k :: k in keys ==> k in defaults
    ensures var r := Fill(config, keys, defaults);
      forall k :: k in r.values <==> k in config.values || k in keys
    decreases |keys|
  {
    if keys != [] {
      var k := keys[0];
      var c := if k in config.values then config else Put(config, k, defaults[k]);
      if k !in config.values {
        PutFacts(config, k, defaults[k]);
      }
      FillDomain(c, keys[1..], defaults);
      assert keys == [k] + keys[1..];
    }
  }

  /**
   * Completing a configuration keeps every value it had, and gives each key it lacked
   * the default value.
   */
  lemma {:induction false} FillValues(config: Dict<Value>, keys: seq<string>, defaults: map<string, Value>)
    requires config.Valid() && forall k :: k in keys ==> k in defaults
    ensures var r := Fill(config, keys, defaults);
      (forall k :: k in config.values ==> k in r.values && r.values[k] == config.values[k])
      && (forall k :: k !in config.values && k in keys ==> k in r.values && r.values[k] == defaults[k])
    decreases |keys|
  {
    if keys != [] {
      var k := keys[0];
      var c := if k in config.values then config else Put(config, k, defaults[k]);
      if k !in config.values {
        PutFacts(config, k, defaults[k]);
      }
      FillValues(c, keys[1..], defaults);
      var r := Fill(c, keys[1..], defaults);
      forall key | key !in config.values && key in keys
        ensures key in r.values && r.values[key] == defaults[key]
      {
        if key != k {
          assert key in keys[1..];
        }
      }
    }
  }

  /**
   * The completed configuration holds every default key, keeps every key and value it
   * had, and gives each key it lacked the default value.
   */
  lemma FilledComplete(config: Dict<Value>, defaults: Dict<Value>)
    requires config.Valid() && defaults.Valid()
    ensures var r := Completed(config, defaults);
      r.Valid()
      && (forall k :: k in r.values <==> k in config.values || k in defaults.values)
      && (forall k :: k in config.values ==> r.values[k] == config.values[k])
      && (forall k :: k !in config.values && k in defaults.values ==> r.values[k] == defaults.values[k])
  {
    FillShape(config, defaults.keys, defaults.values);
    FillDomain(config, defaults.keys, defaults.values);
    FillValues(config, defaults.keys, defaults.values);
  }

  /**
   * Saving changes only the entry under the name, which becomes the last used; an
   * existing name keeps its place in the order and a new one goes last.
   */
  lemma SaveTouchesOnlyName(st: Store, name: string, watermarkConfig: Dict<Value>, exportConfig: Dict<Value>,
                            description: string, now: string)
    requires StoreValid(st)
    ensures var r := SaveSpec(st, name, watermarkConfig, exportConfig, description, now);
      StoreValid(r) && r.lastUsed == Some(name)
      && name in r.templates.values
      && r.templates.values[name] == Template(name, description, now, watermarkConfig, exportConfig)
      && (forall k :: k != name ==> (k in r.templates.values <==> k in st.templates.values))
      && (forall k :: k != name && k in st.templates.values ==> r.templates.values[k] == st.templates.values[k])
      && r.templates.keys == (if name in st.templates.values then st.templates.keys else st.templates.keys + [name])
  {
    PutFacts(st.templates, name, Template(name, description, now, watermarkConfig, exportConfig));
  }

  /**
   * Deleting an absent name fails and changes nothing. Deleting a present name removes
   * that template only; the last used name stays unless it was the deleted one, in which
   * case it becomes `Default` if that remains, else the first remaining name, else none.
   */
  lemma DeleteRule(st: Store, name: string)
    requires StoreValid(st)
    ensures var (ok, r) := DeleteSpec(st, name);
      (ok <==> name in st.templates.values) && (!ok ==> r == st)
      && (ok ==>
            StoreValid(r) && name !in r.templates.values
            && (forall k :: k != name ==> (k in r.templates.values <==> k in st.templates.values))
            && (forall k :: k != name && k in st.templates.values ==> r.templates.values[k] == st.templates.values[k])
            && |r.templates.keys| == |st.templates.keys| - 1
            && (st.lastUsed != Some(name) ==> r.lastUsed == st.lastUsed)
            && (st.lastUsed == Some(name) ==>
                  r.lastUsed == (if DefaultName in r.templates.values then Some(DefaultName)
                                 else if |st.templates.keys| == 1 then None
                                 else if st.templates.keys[0] != name then Some(st.templates.keys[0])
                                 else Some(st.templates.keys[1]))))
  {
    if name in st.templates.values {
      DeleteFacts(st.templates, name);
      var rest := Delete(st.templates, name);
      if |st.templates.keys| >= 2 {
        FirstAfterDelete(st.templates, name);
      }
    }
  }

  /** Choosing the last used template succeeds exactly for an existing name, and changes nothing else. */
  lemma SetLastUsedRule(st: Store, name: string)
    requires StoreValid(st)
    ensures var (ok, r) := SetLastUsedSpec(st, name);
      (ok <==> name in st.templates.values) && StoreValid(r) && r.templates == st.templates
      && r.lastUsed == (if ok then Some(name) else st.lastUsed)
  {
  }

  /**
   * An import saves under its name, which becomes the last used; the saved
   * configurations hold every default key, and keep every key and value the file gave.
   */
  lemma ImportCompletes(st: Store, file: ImportFile, importPath: string, templateName: Option<string>,
                        defaultWatermark: Dict<Value>, defaultExport: Dict<Value>, now: string)
    requires StoreValid(st) && defaultWatermark.Valid() && defaultExport.Valid()
    requires file.watermarkConfig.Some? ==> file.watermarkConfig.value.Valid()
    requires file.exportConfig.Some? ==> file.exportConfig.value.Valid()
    ensures var name := ImportName(templateName, file, importPath);
      var r := ImportSpec(st, file, importPath, templateName, defaultWatermark, defaultExport, now);
      StoreValid(r) && r.lastUsed == Some(name) && name in r.templates.values
      && var t := r.templates.values[name];
      (forall k :: k in defaultWatermark.values ==> k in t.watermarkConfig.values)
      && (forall k :: k in defaultExport.values ==> k in t.exportConfig.values)
      && (file.watermarkConfig.Some? ==>
            forall k :: k in file.watermarkConfig.value.values ==>
              k in t.watermarkConfig.values && t.watermarkConfig.values[k] == file.watermarkConfig.value.values[k])
      && (file.exportConfig.Some? ==>
            forall k :: k in file.exportConfig.value.values ==>
              k in t.exportConfig.values && t.exportConfig.values[k] == file.exportConfig.value.values[k])
      && (file.watermarkConfig.None? ==>
            forall k :: k in defaultWatermark.values ==> t.watermarkConfig.values[k] == defaultWatermark.values[k])
  {
    var wm := file.watermarkConfig.GetOr(EmptyDict());
    var ex := file.exportConfig.GetOr(EmptyDict());
    FilledComplete(wm, defaultWatermark);
    FilledComplete(ex, defaultExport);
    var name := ImportName(templateName, file, importPath);
    SaveTouchesOnlyName(st, name, Completed(wm, defaultWatermark), Completed(ex, defaultExport),
                        file.description.GetOr(ImportedFrom(importPath)), now);
  }

  /** A given non-empty name wins over the file's name, and the file's name, even an empty one, over the stem. */
  lemma ImportNamePrecedence(templateName: Option<string>, file: ImportFile, importPath: string)
    ensures var n := ImportName(templateName, file, importPath);
      (templateName.Some? && templateName.value != "" ==> n == templateName.value)
      && ((templateName.None? || templateName.value == "") && file.name.Some? ==> n == file.name.value)
      && ((templateName.None? || templateName.value == "") && file.name.None? ==> n == Paths.PathStem(importPath))
  {
  }

  /** `set_setting` followed by `get_setting` reads the value back, and every other key reads as before. */
  lemma SettingRoundTrip(settings: Dict<Value>, key: string, value: Value, other: string, default: Value)
    requires settings.Valid()
    ensures Put(settings, key, value).Get(key, default) == value
    ensures other != key ==> Put(settings, key, value).Get(other, default) == settings.Get(other, default)
    ensures Put(settings, key, value).Valid()
  {
    PutFacts(settings, key, value);
  }

  /** The default dictionaries are well formed, and a missing setting reads as the default given. */
  lemma DefaultsValid(today: string, home: string)
    ensures DefaultWatermarkConfig(today).Valid() && DefaultExportConfig().Valid()
    ensures DefaultSettings(home).Valid()
  {
    FromPairsValid([
      ("type", Str("text")), ("text", Str(today)), ("font_name", Null), ("font_size", Int(36)),
      ("color", List([Int(0), Int(0), Int(0), Int(128)])), ("bold", Bool(false)), ("italic", Bool(false)),
      ("shadow", Bool(false)), ("stroke", Bool(false)), ("stroke_width", Int(2)),
      ("stroke_color", List([Int(0), Int(0), Int(0), Int(255)])), ("position", Str("middle_center")),
      ("custom_pos", Null), ("margin", Int(20)), ("rotation", Int(0)), ("opacity", Int(128)),
      ("scale_percent", Real(100.0)), ("image_path", Null)]);
    FromPairsValid([
      ("output_format", Str("JPEG")), ("quality", Int(95)), ("naming_rule", Str("suffix")),
      ("custom_text", Str("_watermarked")), ("resize_enabled", Bool(false)), ("resize_width", Null),
      ("resize_height", Null), ("resize_scale", Null)]);
    FromPairsValid([
      ("window_size", List([Int(1200), Int(800)])), ("window_position", Null), ("last_input_dir", Str(home)),
      ("last_output_dir", Str(Paths.Join(home, "Desktop"))), ("auto_load_last_template", Bool(true)),
      ("preview_size", List([Int(400), Int(300)])), ("thumbnail_size", List([Int(150), Int(150)]))]);
  }

  class ConfigManager {
    const defaultWatermarkConfig: Dict<Value>
    const defaultExportConfig: Dict<Value>
    var templates: Dict<Template>
    var lastUsed: Option<string>
    var settings: Dict<Value>

    ghost function State(): Store
      reads this
    {
      Store(templates, lastUsed)
    }

    ghost predicate Valid()
      reads this
    {
      StoreValid(State()) && settings.Valid() && defaultWatermarkConfig.Valid() && defaultExportConfig.Valid()
    }

    /** A manager over a fresh directory: the default template and settings files are written. */
    constructor(today: string, now: string, home: string)
      ensures Valid() && State() == InitialStore(today, now) && settings == DefaultSettings(home)
      ensures defaultWatermarkConfig == DefaultWatermarkConfig(today) && defaultExportConfig == DefaultExportConfig()
    {
      defaultWatermarkConfig := DefaultWatermarkConfig(today);
      defaultExportConfig := DefaultExportConfig();
      var st := InitialStore(today, now);
      templates := st.templates;
      lastUsed := st.lastUsed;
      settings := DefaultSettings(home);
      InitialStoreValid(today, now);
      DefaultsValid(today, home);
    }

    /** `get_template`. */
    method GetTemplate(name: string) returns (t: Option<Template>)
      ensures t.Some? <==> name in templates.values
      ensures t.Some? ==> t.value == templates.values[name]
    {
      if name in templates.values {
        return Some(templates.values[name]);
      }
      return None;
    }

    /** `save_template`. */
    method SaveTemplate(name: string, watermarkConfig: Dict<Value>, exportConfig: Dict<Value>,
                        description: string, now: string) returns (ok: bool)
      requires Valid()
      modifies this
      ensures Valid() && ok && settings == old(settings)
      ensures State() == SaveSpec(old(State()), name, watermarkConfig, exportConfig, description, now)
    {
      SaveTouchesOnlyName(State(), name, watermarkConfig, exportConfig, description, now);
      var data := Template(name, description, now, watermarkConfig, exportConfig);
      templates := Put(templates, name, data);
      lastUsed := Some(name);
      ok := true;
    }

    /** `delete_template`. */
    method DeleteTemplate(name: string) returns (ok: bool)
      requires Valid()
      modifies this
      ensures Valid() && settings == old(settings)
      ensures (ok, State()) == DeleteSpec(old(State()), name)
    {
      DeleteRule(State(), name);
      if name in templates.values {
        templates := Delete(templates, name);
        if lastUsed == Some(name) {
          if DefaultName in templates.values {
            lastUsed := Some(DefaultName);
          } else if templates.keys != [] {
            lastUsed := Some(templates.keys[0]);
          } else {
            lastUsed := None;
          }
        }
        return true;
      }
      return false;
    }

    /** `get_template_list`: the names in insertion order. */
    method GetTemplateList() returns (names: seq<string>)
      requires Valid()
      ensures Distinct(names) && forall n :: n in names <==> n in templates.values
      ensures names == templates.keys
    {
      names := templates.keys;
    }

    /** `get_last_used_template`. */
    method GetLastUsedTemplate() returns (name: Option<string>)
      requires Valid()
      ensures name == lastUsed && (name.Some? ==> name.value in templates.values)
    {
      name := lastUsed;
    }

    /** `set_last_used_template`. */
    method SetLastUsedTemplate(name: string) returns (ok: bool)
      requires Valid()
      modifies this
      ensures Valid() && settings == old(settings)
      ensures (ok, State()) == SetLastUsedSpec(old(State()), name)
    {
      if name in templates.values {
        lastUsed := Some(name);
        return true;
      }
      return false;
    }

    /** `get_setting`. */
    method GetSetting(key: string, default: Value) returns (value: Value)
      ensures value == (if key in settings.values then settings.values[key] else default)
    {
      value := settings.Get(key, default);
    }

    /** `set_setting`. */
    method SetSetting(key: string, value: Value) returns (ok: bool)
      requires Valid()
      modifies this
      ensures Valid() && ok && State() == old(State()) && settings == Put(old(settings), key, value)
    {
      SettingRoundTrip(settings, key, value, key, value);
      settings := Put(settings, key, value);
      ok := true;
    }

    /** `import_template`: name chosen, both configurations completed by the two loops, then saved. */
    method ImportTemplate(file: ImportFile, importPath: string, templateName: Option<string>, now: string)
      returns (ok: bool)
      requires Valid()
      modifies this
      ensures Valid() && ok && settings == old(settings)
      ensures State() == ImportSpec(old(State()), file, importPath, templateName, defaultWatermarkConfig,
                                    defaultExportConfig, now)
    {
      var name := if templateName.Some? && templateName.value != "" then templateName.value
                  else if file.name.Some? then file.name.value
                  else Paths.PathStem(importPath);
      var watermarkConfig := FillMissing(file.watermarkConfig.GetOr(EmptyDict()), defaultWatermarkConfig);
      var exportConfig := FillMissing(file.exportConfig.GetOr(EmptyDict()), defaultExportConfig);
      var description := file.description.GetOr(ImportedFrom(importPath));
      ok := SaveTemplate(name, watermarkConfig, exportConfig, description, now);
    }

    /** `get_default_watermark_config`: a copy, so the caller's changes never reach the defaults. */
    method GetDefaultWatermarkConfig() returns (config: Dict<Value>)
      ensures config == defaultWatermarkConfig
    {
      config := defaultWatermarkConfig;
    }

    /** `get_default_export_config`. */
    method GetDefaultExportConfig() returns (config: Dict<Value>)
      ensures config == defaultExportConfig
    {
      config := defaultExportConfig;
    }
  }

  /** One of `import_template`'s loops: each default key the configuration lacks is added with its default value. */
  method FillMissing(config: Dict<Value>, defaults: Dict<Value>) returns (filled: Dict<Value>)
    requires defaults.Valid()
    ensures filled == Completed(config, defaults)
  {
    filled := config;
    for n := 0 to |defaults.keys|
      invariant Fill(filled, defaults.keys[n..], defaults.values) == Completed(config, defaults)
    {
      var key := defaults.keys[n];
      assert defaults.keys[n..][1..] == defaults.keys[n + 1..];
      if key !in filled.values {
        filled := Put(filled, key, defaults.values[key]);
      }
    }
  }
}
