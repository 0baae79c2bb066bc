/** config.py's `ConfigLoader`, used by main.py: two TOML files, one for
    settings and one for secrets, loaded into two dictionaries, validated
    for the presence of required keys and read with a default. */
module ConfigLoader {
  import opened Wrappers
  import opened PyData
  import Required
  import AppConfig

  /** What a path holds when it exists: a TOML document `tomllib.load`
      parses into a dictionary, or text it rejects. */
  datatype TomlFile = Parsed(contents: seq<Field>) | Malformed

  /** The files visible to the process, by path; a path not in the map
      does not exist. */
  type FileSystem = map<string, TomlFile>

  datatype Loader = Loader(settingsFile: string, secretsFile: string, settings: seq<Field>, secrets: seq<Field>)

  const DefaultSettingsFile: string := "./config/settings.toml"
  const DefaultSecretsFile: string := "./config/.secrets.toml"

  /** `os.getenv(name, default)`. */
  function GetEnv(env: map<string, string>, name: string, default: string): string {
    if name in env then env[name] else default
  }

  /** `ConfigLoader()` with the default arguments, which are read from the
      environment when config.py is imported; both dictionaries start empty. */
  function NewLoader(env: map<string, string>): (l: Loader)
    ensures l.settings == [] && l.secrets == []
    ensures l.settingsFile == if "CONFIG_SETTINGS_FILE" in env then env["CONFIG_SETTINGS_FILE"] else DefaultSettingsFile
    ensures l.secretsFile == if "CONFIG_SECRETS_FILE" in env then env["CONFIG_SECRETS_FILE"] else DefaultSecretsFile
  {
    Loader(GetEnv(env, "CONFIG_SETTINGS_FILE", DefaultSettingsFile), GetEnv(env, "CONFIG_SECRETS_FILE", DefaultSecretsFile), [], [])
  }

  /** The loader after `load_config()`, and the exception it raised, if any. */
  datatype LoadResult = LoadResult(loader: Loader, error: Option<Exception>)

  predicate Loadable(fs: FileSystem, path: string) {
    path in fs && fs[path].Parsed?
  }

  /** `load_config()`: both existence checks come first, settings before
      secrets; then settings are parsed and stored, then secrets. A parse
      error in the secrets file leaves the freshly parsed settings in place. */
  function LoadConfig(l: Loader, fs: FileSystem): (r: LoadResult)
    ensures r.error.None? <==> Loadable(fs, l.settingsFile) && Loadable(fs, l.secretsFile)
    ensures r.error.None? ==>
      r.loader == l.(settings := fs[l.settingsFile].contents, secrets := fs[l.secretsFile].contents)
    // a missing file is reported before anything is read
    ensures l.settingsFile !in fs ==>
      r == LoadResult(l, Some(ConfigError("Settings file not found: " + l.settingsFile)))
    ensures l.settingsFile in fs && l.secretsFile !in fs ==>
      r == LoadResult(l, Some(ConfigError("Secrets file not found: " + l.secretsFile)))
    ensures l.settingsFile in fs && l.secretsFile in fs && fs[l.settingsFile].Malformed? ==>
      r == LoadResult(l, Some(TomlDecodeError(l.settingsFile)))
    ensures Loadable(fs, l.settingsFile) && l.secretsFile in fs && fs[l.secretsFile].Malformed? ==>
      r == LoadResult(l.(settings := fs[l.settingsFile].contents), Some(TomlDecodeError(l.secretsFile)))
  {
    if l.settingsFile !in fs then LoadResult(l, Some(ConfigError("Settings file not found: " + l.settingsFile)))
    else if l.secretsFile !in fs then LoadResult(l, Some(ConfigError("Secrets file not found: " + l.secretsFile)))
    else
      match fs[l.settingsFile]
      case Malformed => LoadResult(l, Some(TomlDecodeError(l.settingsFile)))
      case Parsed(settings) =>
        var withSettings := l.(settings := settings);
        match fs[l.secretsFile]
        case Malformed => LoadResult(withSettings, Some(TomlDecodeError(l.secretsFile)))
        case Parsed(secrets) => LoadResult(withSettings.(secrets := secrets), None)
  }

  /** The ordering of the existence checks: a missing settings file is
      what gets reported whatever state the secrets file is in. */
  lemma SettingsFileCheckedFirst(l: Loader, fs: FileSystem, secrets: Option<TomlFile>)
    requires l.settingsFile !in fs && l.secretsFile != l.settingsFile
    ensures var fs' := if secrets.Some? then fs[l.secretsFile := secrets.value] else fs - {l.secretsFile};
      LoadConfig(l, fs').error == Some(ConfigError("Settings file not found: " + l.settingsFile))
  {
  }

  /** `[key for key in required if key not in table]`. */
  function Absent(table: seq<Field>, required: seq<string>): (missing: seq<string>)
    ensures forall k :: k in missing <==> k in required && k !in Keys(table)
    ensures |missing| <= |required|
  {
    if |required| == 0 then []
    else
      var rest := Absent(table, required[1..]);
      assert forall k :: k in required <==> k == required[0] || k in required[1..];
      if required[0] !in Keys(table) then [required[0]] + rest else rest
  }

  /** The absent keys keep the order of the required list. */
  lemma {:induction false} AbsentInOrder(table: seq<Field>, front: seq<string>, back: seq<string>)
    ensures Absent(table, front + back) == Absent(table, front) + Absent(table, back)
  {
    var all := front + back;
    if |front| > 0 {
      assert all[0] == front[0] && all[1..] == front[1..] + back;
      AbsentStep(table, all);
      AbsentStep(table, front);
      AbsentInOrder(table, front[1..], back);
      var head := if front[0] !in Keys(table) then [front[0]] else [];
      ConcatAssociative(head, Absent(table, front[1..]), Absent(table, back));
    } else {
      assert all == back;
    }
  }

  lemma AbsentStep(table: seq<Field>, required: seq<string>)
    requires |required| > 0
    ensures Absent(table, required)
         == (if required[0] !in Keys(table) then [required[0]] else []) + Absent(table, required[1..])
  {
  }

  /** `sep.join(items)`. */
  function Join(items: seq<string>, sep: string): string {
    if |items| == 0 then ""
    else if |items| == 1 then items[0]
    else items[0] + sep + Join(items[1..], sep)
  }

  /** Reading a `", "`-joined list back: split at each comma and drop the
      space that follows it. */
  function SplitList(s: string): (items: seq<string>)
    ensures |items| > 0
    decreases |s|
  {
    var comma := FirstComma(s, 0);
    if comma == |s| then [s]
    else
      var tail := s[comma + 1..];
      [s[..comma]] + SplitList(if |tail| > 0 && tail[0] == ' ' then tail[1..] else tail)
  }

  /** The index of the first comma at or after `from`, or |s|. */
  function FirstComma(s: string, from: nat): (i: nat)
    requires from <= |s|
    ensures from <= i <= |s|
    ensures i < |s| ==> s[i] == ','
    ensures forall j :: from <= j < i ==> s[j] != ','
    decreases |s| - from
  {
    if from == |s| || s[from] == ',' then from else FirstComma(s, from + 1)
  }

  predicate NoComma(k: string) {
    forall i :: 0 <= i < |k| ==> k[i] != ','
  }

  lemma FirstCommaAfter(k: string, rest: string)
    requires NoComma(k)
    ensures FirstComma(k + rest, 0) == |k| + FirstComma(rest, 0)
  {
    var s := k + rest;
    var i := FirstComma(s, 0);
    var j := FirstComma(rest, 0);
    assert forall m :: 0 <= m < j ==> s[|k| + m] == rest[m];
    if j < |rest| {
      assert s[|k| + j] == rest[j];
    }
  }

  /** The keys named in a "Missing required ..." message can be read back
      from it, provided no key contains a comma. */
  lemma {:induction false} SplitJoin(items: seq<string>)
    requires |items| > 0
    requires forall k :: k in items ==> NoComma(k)
    ensures SplitList(Join(items, ", ")) == items
  {
    var head := items[0];
    assert NoComma(head);
    if |items| == 1 {
      FirstCommaAfter(head, "");
      assert head + "" == head;
    } else {
      var rest := Join(items[1..], ", ");
      SplitStep(head, rest);
      assert forall k :: k in items[1..] ==> k in items;
      SplitJoin(items[1..]);
      assert items == [head] + items[1..];
    }
  }

  /** One step of SplitJoin: the first item is cut off at its comma. */
  lemma SplitStep(head: string, rest: string)
    requires NoComma(head)
    ensures SplitList(head + ", " + rest) == [head] + SplitList(rest)
  {
    var s := head + ", " + rest;
    assert s == head + (", " + rest);
    FirstCommaAfter(head, ", " + rest);
    assert FirstComma(", " + rest, 0) == 0;
    var tail := s[|head| + 1..];
    assert tail == " " + rest;
    assert s[..|head|] == head;
    assert tail[1..] == rest;
  }

  /** `validate_config(required_settings, required_secrets)`: presence only,
      so a key holding an empty or false value passes. Missing settings are
      reported, and only when there are none are missing secrets. */
  function ValidateConfig(l: Loader, requiredSettings: seq<string>, requiredSecrets: seq<string>): (r: Outcome<Exception>)
    ensures r.Pass? <==>
      (forall k :: k in requiredSettings ==> k in Keys(l.settings))
      && (forall k :: k in requiredSecrets ==> k in Keys(l.secrets))
    ensures (exists k :: k in requiredSettings && k !in Keys(l.settings)) ==>
      r == Fail(ConfigError("Missing required settings: " + Join(Absent(l.settings, requiredSettings), ", ")))
    ensures ((forall k :: k in requiredSettings ==> k in Keys(l.settings))
             && (exists k :: k in requiredSecrets && k !in Keys(l.secrets))) ==>
      r == Fail(ConfigError("Missing required secrets: " + Join(Absent(l.secrets, requiredSecrets), ", ")))
  {
    var missingSettings := Absent(l.settings, requiredSettings);
    var missingSecrets := Absent(l.secrets, requiredSecrets);
    if |missingSettings| > 0 then
      assert missingSettings[0] in missingSettings;
      Fail(ConfigError("Missing required settings: " + Join(missingSettings, ", ")))
    else if |missingSecrets| > 0 then
      assert missingSecrets[0] in missingSecrets;
      Fail(ConfigError("Missing required secrets: " + Join(missingSecrets, ", ")))
    else
      Pass
  }

  /** Validation looks at keys only: two loaders whose tables have the
      same keys, whatever the values, are judged alike. */
  lemma {:induction false} ValidationIgnoresValues(l: Loader, l2: Loader, requiredSettings: seq<string>, requiredSecrets: seq<string>)
    requires Keys(l.settings) == Keys(l2.settings) && Keys(l.secrets) == Keys(l2.secrets)
    ensures ValidateConfig(l, requiredSettings, requiredSecrets) == ValidateConfig(l2, requiredSettings, requiredSecrets)
  {
    AbsentByKeys(l.settings, l2.settings, requiredSettings);
    AbsentByKeys(l.secrets, l2.secrets, requiredSecrets);
  }

  lemma {:induction false} AbsentByKeys(t: seq<Field>, t2: seq<Field>, required: seq<string>)
    requires Keys(t) == Keys(t2)
    ensures Absent(t, required) == Absent(t2, required)
  {
    if |required| > 0 {
      AbsentByKeys(t, t2, required[1..]);
    }
  }

  /** The two validators disagree on falsy values: an empty INDEX_NAME
      passes here but makes app/app.py's `validate_config` exit. */
  lemma FalsyValueAccepted()
    ensures var table := [Field("INDEX_NAME", JStr(""))];
      && ValidateConfig(Loader("s", "t", table, []), ["INDEX_NAME"], []) == Pass
      && AppConfig.ValidateConfig(map["SETTINGS" := table], ["INDEX_NAME"], "SETTINGS").Exit?
  {
    var table := [Field("INDEX_NAME", JStr(""))];
    assert Keys(table) == ["INDEX_NAME"];
    assert AppConfig.Missing(map["SETTINGS" := table], "SETTINGS", "INDEX_NAME");
  }

  /** `get(key, config_type, default)`: `settings` exactly when
      `config_type == "settings"`, `secrets` for any other type. */
  function Lookup(l: Loader, key: string, configType: string, default: Value): (v: Value)
    ensures configType == "settings" && key in Keys(l.settings) ==> Get(l.settings, key) == Some(v)
    ensures configType != "settings" && key in Keys(l.secrets) ==> Get(l.secrets, key) == Some(v)
    ensures key !in Keys(if configType == "settings" then l.settings else l.secrets) ==> v == default
  {
    var table := if configType == "settings" then l.settings else l.secrets;
    match Get(table, key)
    case Some(v) => v
    case None => default
  }

  /** `get` with the defaults `config_type="settings"` and `default=None`. */
  function Setting(l: Loader, key: string): Value {
    Lookup(l, key, "settings", JNull)
  }

  /** Once validation has passed, reading a required key never falls back
      to the default: the stored value is returned whatever default is given. */
  lemma ValidatedLookupIgnoresDefault(l: Loader, requiredSettings: seq<string>, requiredSecrets: seq<string>,
                                     key: string, configType: string, d1: Value, d2: Value)
    requires ValidateConfig(l, requiredSettings, requiredSecrets).Pass?
    requires if configType == "settings" then key in requiredSettings else key in requiredSecrets
    ensures Lookup(l, key, configType, d1) == Lookup(l, key, configType, d2)
  {
  }

  /** Module import of main.py: build the loader from the environment, load
      both files, then validate the required keys. */
  function Startup(env: map<string, string>, fs: FileSystem): (r: Result<Loader, Exception>)
    ensures r.Success? <==>
      var l := NewLoader(env);
      && Loadable(fs, l.settingsFile) && Loadable(fs, l.secretsFile)
      && (forall k :: k in Required.Settings ==> k in Keys(fs[l.settingsFile].contents))
      && (forall k :: k in Required.Secrets ==> k in Keys(fs[l.secretsFile].contents))
    ensures r.Success? ==>
      && Loadable(fs, r.value.settingsFile) && r.value.settings == fs[r.value.settingsFile].contents
      && Loadable(fs, r.value.secretsFile) && r.value.secrets == fs[r.value.secretsFile].contents
  {
    var loaded := LoadConfig(NewLoader(env), fs);
    if loaded.error.Some? then Failure(loaded.error.value)
    else
      match ValidateConfig(loaded.loader, Required.Settings, Required.Secrets)
      case Fail(e) => Failure(e)
      case Pass => Success(loaded.loader)
  }
}
