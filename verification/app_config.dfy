/** Configuration handling of app/app.py: the merged TOML configuration
    `CFG` is a dictionary of tables (`SETTINGS`, `SECRETS`), and
    `validate_config` exits the program when a required key of a table is
    absent or holds a falsy value. */
module AppConfig {
  import opened Wrappers
  import opened PyData
  import Required

  /** A TOML table as a Python dictionary. */
  type Table = seq<Field>

  /** The merged configuration, by table name. */
  type Config = map<string, Table>

  /** `cfg.get(category, {})`: a missing table reads as empty. */
  function Category(cfg: Config, category: string): Table {
    if category in cfg then cfg[category] else []
  }

  /** `key not in cfg.get(category, {}) or not cfg[category][key]`. */
  predicate Missing(cfg: Config, category: string, key: string) {
    var v := Get(Category(cfg, category), key);
    v.None? || !Truthy(v.value)
  }

  /** The `missing_keys` list comprehension. */
  function MissingKeys(cfg: Config, required: seq<string>, category: string): (missing: seq<string>)
    ensures forall k :: k in missing <==> k in required && Missing(cfg, category, k)
    ensures |missing| <= |required|
  {
    if |required| == 0 then []
    else
      var rest := MissingKeys(cfg, required[1..], category);
      assert forall k :: k in required <==> k == required[0] || k in required[1..];
      if Missing(cfg, category, required[0]) then [required[0]] + rest else rest
  }

  /** The missing keys keep the order of `required_keys`: listing the
      required keys in two parts lists the missing ones in the same two
      parts. */
  lemma {:induction false} MissingKeysInOrder(cfg: Config, front: seq<string>, back: seq<string>, category: string)
    ensures MissingKeys(cfg, front + back, category) == MissingKeys(cfg, front, category) + MissingKeys(cfg, back, category)
  {
    var all := front + back;
    if |front| > 0 {
      assert all[0] == front[0] && all[1..] == front[1..] + back;
      MissingKeysStep(cfg, all, category);
      MissingKeysStep(cfg, front, category);
      MissingKeysInOrder(cfg, front[1..], back, category);
      var head := if Missing(cfg, category, front[0]) then [front[0]] else [];
      ConcatAssociative(head, MissingKeys(cfg, front[1..], category), MissingKeys(cfg, back, category));
    } else {
      assert all == back;
    }
  }

  lemma MissingKeysStep(cfg: Config, required: seq<string>, category: string)
    requires |required| > 0
    ensures MissingKeys(cfg, required, category)
         == (if Missing(cfg, category, required[0]) then [required[0]] else []) + MissingKeys(cfg, required[1..], category)
  {
  }

  /** `str.lower()` on ASCII text. */
  function Lower(s: string): (r: string)
    ensures |r| == |s|
    ensures forall i :: 0 <= i < |s| ==> r[i] == if 'A' <= s[i] <= 'Z' then (s[i] as int + 32) as char else s[i]
  {
    if |s| == 0 then ""
    else [if 'A' <= s[0] <= 'Z' then (s[0] as int + 32) as char else s[0]] + Lower(s[1..])
  }

  /** The first logged line when keys are missing. */
  function Header(category: string): string {
    "Missing configuration " + Lower(category) + " in app/config/" + Lower(category) + ".toml:"
  }

  const Bullet: string := " - "

  /** The `f" - {key}"` lines, one per missing key. */
  function Bullets(keys: seq<string>): (lines: seq<string>)
    ensures |lines| == |keys|
    ensures forall i :: 0 <= i < |keys| ==> lines[i] == Bullet + keys[i]
  {
    if |keys| == 0 then [] else [Bullet + keys[0]] + Bullets(keys[1..])
  }

  /** Reading the keys back off the bullet lines. */
  function BulletKeys(lines: seq<string>): seq<string> {
    if |lines| == 0 then []
    else
      var line := lines[0];
      var key := if |line| >= |Bullet| && line[..|Bullet|] == Bullet then line[|Bullet|..] else line;
      [key] + BulletKeys(lines[1..])
  }

  lemma {:induction false} BulletsRoundTrip(keys: seq<string>)
    ensures BulletKeys(Bullets(keys)) == keys
  {
    if |keys| > 0 {
      var line := Bullet + keys[0];
      assert line[..|Bullet|] == Bullet && line[|Bullet|..] == keys[0];
      assert Bullets(keys)[1..] == Bullets(keys[1..]);
      BulletsRoundTrip(keys[1..]);
    }
  }

  /** What `validate_config` does: return normally, or log and
      `sys.exit(code)`. */
  datatype Validation = Valid | Exit(code: int, log: seq<string>)

  /** `validate_config(cfg, required_keys, category)`. */
  function ValidateConfig(cfg: Config, required: seq<string>, category: string): (r: Validation)
    ensures r.Exit? <==> exists k :: k in required && Missing(cfg, category, k)
    ensures r.Exit? ==> r.code == 1 && |r.log| > 0 && r.log[0] == Header(category)
    ensures r.Exit? ==> BulletKeys(r.log[1..]) == MissingKeys(cfg, required, category)
    ensures r.Exit? ==> |r.log| == |MissingKeys(cfg, required, category)| + 1
    ensures r.Exit? ==> forall i :: 1 <= i < |r.log| ==> r.log[i] == Bullet + MissingKeys(cfg, required, category)[i - 1]
  {
    var missing := MissingKeys(cfg, required, category);
    if |missing| > 0 then
      assert missing[0] in missing;
      BulletsRoundTrip(missing);
      assert ([Header(category)] + Bullets(missing))[1..] == Bullets(missing);
      Exit(1, [Header(category)] + Bullets(missing))
    else
      assert forall k :: k in required ==> !Missing(cfg, category, k);
      Valid
  }

  /** `cfg[category][key]`: KeyError names the first key that is absent. */
  function Lookup(cfg: Config, category: string, key: string): (r: Result<Value, Exception>)
    ensures r.Success? <==> category in cfg && key in Keys(cfg[category])
    ensures r.Success? ==> Get(cfg[category], key) == Some(r.value)
    ensures r.Failure? ==> r.error == if category in cfg then KeyError(key) else KeyError(category)
  {
    if category !in cfg then Failure(KeyError(category))
    else
      match Get(cfg[category], key)
      case None => Failure(KeyError(key))
      case Some(v) => Success(v)
  }

  /** After `validate_config` returns, every required key of the table can
      be read and holds a truthy value. */
  lemma ValidatedKeysReadable(cfg: Config, required: seq<string>, category: string, key: string)
    requires ValidateConfig(cfg, required, category).Valid?
    requires key in required
    ensures Lookup(cfg, category, key).Success? && Truthy(Lookup(cfg, category, key).value)
  {
  }

  /** The start-up checks of `main()`: settings first, then secrets; the
      first failing check exits. */
  function ValidateStartup(cfg: Config): (r: Validation)
    ensures r.Exit? ==> r.code == 1 && |r.log| > 0
    ensures r.Exit? ==>
      r.log[0] == if ValidateConfig(cfg, Required.Settings, "SETTINGS").Exit? then Header("SETTINGS") else Header("SECRETS")
  {
    var settings := ValidateConfig(cfg, Required.Settings, "SETTINGS");
    if settings.Exit? then settings else ValidateConfig(cfg, Required.Secrets, "SECRETS")
  }

  /** Start-up passes exactly when every required setting and every
      required secret is present and truthy. */
  lemma ValidateStartupPasses(cfg: Config)
    ensures ValidateStartup(cfg).Valid? <==>
      (forall k :: k in Required.Settings ==> !Missing(cfg, "SETTINGS", k))
      && (forall k :: k in Required.Secrets ==> !Missing(cfg, "SECRETS", k))
  {
  }

  /** The feed URL as the polling loop of app/app.py reads it:
      `CFG["SECRETS"]["WMATA_API_URL"]`. */
  function FeedEndpointAsWritten(cfg: Config): (r: Result<Value, Exception>)
    ensures r.Success? <==> "SECRETS" in cfg && "WMATA_API_URL" in Keys(cfg["SECRETS"])
    ensures r.Failure? ==> r.error == if "SECRETS" in cfg then KeyError("WMATA_API_URL") else KeyError("SECRETS")
  {
    Lookup(cfg, "SECRETS", "WMATA_API_URL")
  }

  /** The feed URL from the table start-up validated it in, the lookup
      app/app.py evidently intends. */
  function FeedEndpoint(cfg: Config): (r: Result<Value, Exception>)
    ensures r.Success? <==> "SETTINGS" in cfg && "WMATA_API_URL" in Keys(cfg["SETTINGS"])
    ensures r.Success? ==> Get(cfg["SETTINGS"], "WMATA_API_URL") == Some(r.value)
  {
    Lookup(cfg, "SETTINGS", "WMATA_API_URL")
  }

  /** Once start-up validation has passed, the corrected lookup always
      yields a usable URL. */
  lemma FeedEndpointAvailable(cfg: Config)
    requires ValidateStartup(cfg).Valid?
    ensures FeedEndpoint(cfg).Success? && Truthy(FeedEndpoint(cfg).value)
  {
    ValidateStartupPasses(cfg);
    assert "WMATA_API_URL" in Required.Settings;
  }

  function Filled(keys: seq<string>): (t: Table)
    ensures Keys(t) == keys
    ensures forall k :: k in keys ==> Get(t, k) == Some(JStr("x"))
  {
    if |keys| == 0 then [] else [Field(keys[0], JStr("x"))] + Filled(keys[1..])
  }

  lemma FilledComplete(cfg: Config, required: seq<string>, category: string)
    requires Category(cfg, category) == Filled(required)
    ensures ValidateConfig(cfg, required, category).Valid?
  {
    forall k | k in required ensures !Missing(cfg, category, k) {
      FilledNotMissing(cfg, required, category, k);
    }
    NothingMissingValid(cfg, required, category);
  }

  lemma FilledNotMissing(cfg: Config, required: seq<string>, category: string, k: string)
    requires Category(cfg, category) == Filled(required) && k in required
    ensures !Missing(cfg, category, k)
  {
    assert Get(Filled(required), k) == Some(JStr("x"));
  }

  lemma NothingMissingValid(cfg: Config, required: seq<string>, category: string)
    requires forall k :: k in required ==> !Missing(cfg, category, k)
    ensures ValidateConfig(cfg, required, category).Valid?
  {
    EmptyWithoutMembers(MissingKeys(cfg, required, category));
  }

  /** A configuration holding every required key, each under the table
      start-up validation looks in. */
  function CompleteConfig(): (cfg: Config)
    ensures Category(cfg, "SETTINGS") == Filled(Required.Settings)
    ensures Category(cfg, "SECRETS") == Filled(Required.Secrets)
  {
    map["SETTINGS" := Filled(Required.Settings), "SECRETS" := Filled(Required.Secrets)]
  }

  /** A configuration that passes start-up validation, with the URL kept
      under SETTINGS where it is validated, still makes the loop of
      app/app.py raise KeyError on its first iteration. */
  lemma FeedEndpointAsWrittenRaises()
    ensures ValidateStartup(CompleteConfig()).Valid?
    ensures FeedEndpointAsWritten(CompleteConfig()) == Failure(KeyError("WMATA_API_URL"))
  {
    CompleteConfigValid();
    UrlNotSecret();
    assert "WMATA_API_URL" !in Keys(Category(CompleteConfig(), "SECRETS"));
  }

  lemma CompleteConfigValid()
    ensures ValidateStartup(CompleteConfig()).Valid?
  {
    var cfg := CompleteConfig();
    FilledComplete(cfg, Required.Settings, "SETTINGS");
    FilledComplete(cfg, Required.Secrets, "SECRETS");
    StartupValid(cfg);
  }

  lemma StartupValid(cfg: Config)
    requires ValidateConfig(cfg, Required.Settings, "SETTINGS").Valid?
    requires ValidateConfig(cfg, Required.Secrets, "SECRETS").Valid?
    ensures ValidateStartup(cfg).Valid?
  {
  }

  /** The feed URL is not among the required secrets. */
  lemma UrlNotSecret()
    ensures "WMATA_API_URL" !in Required.Secrets
  {
  }
}
