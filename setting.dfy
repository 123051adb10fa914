/**
  The settings store of src/models/Setting.js: one row per key, an upsert that touches only
  its key, the key-to-value object `getAll` builds, and the SMTP configuration that is kept
  as six string-valued settings.
*/
module SettingModel {
  import opened Common
  import opened Schema
  import Js

  // ---------------------------------------------------------------------------------------
  // get / set / getAll
  // ---------------------------------------------------------------------------------------

  /**
    `Setting.get(key, defaultValue)`: the stored value (which may be NULL) when a row has this
    key, the default otherwise.
  */
  function Get(settings: map<string, SettingRow>, key: string, default: Option<string>)
    : (r: Option<string>)
    ensures key in settings ==> r == settings[key].value
    ensures key !in settings ==> r == default
  {
    if key in settings then settings[key].value else default
  }

  /**
    `Setting.set` on the table: the existing row gets the new value and updated_at; a missing
    key gets a new row whose timestamps both default to now.
  */
  function SetRows(settings: map<string, SettingRow>, key: string, value: Option<string>,
                   now: Timestamp): (r: map<string, SettingRow>)
    ensures r.Keys == settings.Keys + {key}
    ensures r[key].value == value && r[key].updatedAt == now
    ensures r[key].createdAt == (if key in settings then settings[key].createdAt else now)
    ensures forall k :: k in settings && k != key ==> r[k] == settings[k]
  {
    if key in settings then settings[key := settings[key].(value := value, updatedAt := now)]
    else settings[key := SettingRow(value, now, now)]
  }

  /** `Setting.set`: an upsert, so the table keeps one row per key. */
  method Set(db: Database, key: string, value: Option<string>, now: Timestamp)
    modifies db`settings
    ensures db.settings == SetRows(old(db.settings), key, value, now)
  {
    if key in db.settings {
      db.settings := db.settings[key := db.settings[key].(value := value, updatedAt := now)];
    } else {
      db.settings := db.settings[key := SettingRow(value, now, now)];
    }
  }

  /** After `set(key, v)`, `get(key)` is `v` whatever the default, and other keys read as before. */
  lemma GetAfterSet(settings: map<string, SettingRow>, key: string, value: Option<string>,
                    now: Timestamp, other: string, default: Option<string>)
    ensures Get(SetRows(settings, key, value, now), key, default) == value
    ensures other != key ==>
      Get(SetRows(settings, key, value, now), other, default) == Get(settings, other, default)
  {
  }

  /** Setting a key twice keeps only the second value and the first row's creation time. */
  lemma SetTwice(settings: map<string, SettingRow>, key: string, v1: Option<string>,
                 v2: Option<string>, t1: Timestamp, t2: Timestamp)
    ensures var once := SetRows(settings, key, v2, t2);
      var twice := SetRows(SetRows(settings, key, v1, t1), key, v2, t2);
      twice.Keys == once.Keys && twice[key].value == v2
      && (key in settings ==> twice == once)
  {
  }

  /** The object `getAll` returns: every stored key mapped to its value. */
  function AllSettings(settings: map<string, SettingRow>): (r: map<string, Option<string>>)
    ensures r.Keys == settings.Keys
  {
    map k | k in settings :: settings[k].value
  }

  /** `getAll` agrees with `get` on every key that is stored. */
  lemma AllSettingsAgreeWithGet(settings: map<string, SettingRow>, key: string,
                                default: Option<string>)
    ensures key in AllSettings(settings) <==> key in settings
    ensures key in settings ==> AllSettings(settings)[key] == Get(settings, key, default)
  {
  }

  /**
    `Setting.getAll`: copies each row into the result object in turn. The rows arrive in no
    particular order; since keys are unique the result does not depend on it.
  */
  method GetAll(db: Database) returns (result: map<string, Option<string>>)
    ensures result.Keys == db.settings.Keys
    ensures forall k :: k in result ==> result[k] == db.settings[k].value
  {
    result := map[];
    var rows := db.settings.Keys;
    while rows != {}
      invariant rows <= db.settings.Keys
      invariant result.Keys == db.settings.Keys - rows
      invariant forall k :: k in result ==> result[k] == db.settings[k].value
      decreases |rows|
    {
      var k :| k in rows;
      result := result[k := db.settings[k].value];
      rows := rows - {k};
    }
  }

  // ---------------------------------------------------------------------------------------
  // SMTP configuration
  // ---------------------------------------------------------------------------------------

  /** The process environment: variable name to value. */
  type Env = map<string, string>

  /** `process.env[name] || fallback`: an unset or empty variable yields the fallback. */
  function EnvOr(env: Env, name: string, fallback: string): (r: string)
    ensures name in env && env[name] != "" ==> r == env[name]
    ensures name !in env || env[name] == "" ==> r == fallback
  {
    if name in env && env[name] != "" then env[name] else fallback
  }

  /** The object `getSmtpConfig` returns; `port` is `None` when `parseInt` gives NaN. */
  datatype SmtpConfig = SmtpConfig(
    host: Option<string>, port: Option<int>, secure: bool, user: Option<string>,
    pass: Option<string>, from: Option<string>)

  /**
    The `config` argument of `setSmtpConfig`. `None` stands for an undefined or null string
    property; `secure` is tested for truthiness; `port` is a number, since the code calls
    `toString` on it.
  */
  datatype SmtpInput = SmtpInput(
    host: Option<string>, port: int, secure: Js.Value, user: Option<string>,
    pass: Option<string>, from: Option<string>)

  /**
    `parseInt` of a stored value. A NULL setting is converted to the string "null" first,
    which starts with no digit, so it reads as NaN.
  */
  function ParseStored(v: Option<string>): (r: Option<int>)
    ensures v.None? ==> r.None?
    ensures v.Some? ==> r == Js.ParseInt(v.value)
  {
    if v.None? then None else Js.ParseInt(v.value)
  }

  /** `Setting.getSmtpConfig`: each field is the stored setting or its environment fallback. */
  function GetSmtpConfig(settings: map<string, SettingRow>, env: Env): (c: SmtpConfig)
    ensures c.host == Get(settings, "smtp_host", Some(EnvOr(env, "SMTP_HOST", "smtp.gmail.com")))
    ensures c.port == ParseStored(Get(settings, "smtp_port", Some(EnvOr(env, "SMTP_PORT", "587"))))
    ensures c.secure <==>
      Get(settings, "smtp_secure", Some(EnvOr(env, "SMTP_SECURE", "false"))) == Some("true")
    ensures c.user == Get(settings, "smtp_user", Some(EnvOr(env, "SMTP_USER", "")))
    ensures c.pass == Get(settings, "smtp_pass", Some(EnvOr(env, "SMTP_PASS", "")))
    ensures c.from == Get(settings, "smtp_from", Some(EnvOr(env, "SMTP_FROM", "noreply@aresdepot.org")))
  {
    SmtpConfig(
      Get(settings, "smtp_host", Some(EnvOr(env, "SMTP_HOST", "smtp.gmail.com"))),
      ParseStored(Get(settings, "smtp_port", Some(EnvOr(env, "SMTP_PORT", "587")))),
      Get(settings, "smtp_secure", Some(EnvOr(env, "SMTP_SECURE", "false"))) == Some("true"),
      Get(settings, "smtp_user", Some(EnvOr(env, "SMTP_USER", ""))),
      Get(settings, "smtp_pass", Some(EnvOr(env, "SMTP_PASS", ""))),
      Get(settings, "smtp_from", Some(EnvOr(env, "SMTP_FROM", "noreply@aresdepot.org"))))
  }

  /** Whether `config.pass` is truthy: present and not the empty string. */
  predicate HasPass(config: SmtpInput) {
    config.pass.Some? && config.pass.value != ""
  }

  /** The stored form of the secure flag. */
  function SecureText(secure: Js.Value): (s: string)
    ensures s == "true" <==> Js.Truthy(secure)
    ensures s == "false" <==> !Js.Truthy(secure)
  {
    if Js.Truthy(secure) then "true" else "false"
  }

  /** The settings table after the sequence of `set` calls `setSmtpConfig` makes. */
  function SetSmtpConfigRows(settings: map<string, SettingRow>, config: SmtpInput, now: Timestamp)
    : (r: map<string, SettingRow>)
  {
    var s1 := SetRows(settings, "smtp_host", config.host, now);
    var s2 := SetRows(s1, "smtp_port", Some(Js.IntToString(config.port)), now);
    var s3 := SetRows(s2, "smtp_secure", Some(SecureText(config.secure)), now);
    var s4 := SetRows(s3, "smtp_user", config.user, now);
    var s5 := if HasPass(config) then SetRows(s4, "smtp_pass", config.pass, now) else s4;
    SetRows(s5, "smtp_from", config.from, now)
  }

  /** `Setting.setSmtpConfig`: five or six upserts, smtp_pass only when a password is given. */
  method SetSmtpConfig(db: Database, config: SmtpInput, now: Timestamp)
    modifies db`settings
    ensures db.settings == SetSmtpConfigRows(old(db.settings), config, now)
  {
    Set(db, "smtp_host", config.host, now);
    Set(db, "smtp_port", Some(Js.IntToString(config.port)), now);
    Set(db, "smtp_secure", Some(SecureText(config.secure)), now);
    Set(db, "smtp_user", config.user, now);
    if HasPass(config) {
      Set(db, "smtp_pass", config.pass, now);
    }
    Set(db, "smtp_from", config.from, now);
  }

  /**
    What `setSmtpConfig` writes: the six keys hold the given values, the flag as 'true' or
    'false' and the port as its decimal text; smtp_pass is written only for a truthy password;
    no other key changes.
  */
  lemma SetSmtpConfigWrites(settings: map<string, SettingRow>, config: SmtpInput, now: Timestamp)
    ensures var r := SetSmtpConfigRows(settings, config, now);
      && "smtp_host" in r && "smtp_port" in r && "smtp_secure" in r && "smtp_user" in r
      && "smtp_from" in r
      && r["smtp_host"].value == config.host
      && r["smtp_port"].value == Some(Js.IntToString(config.port))
      && r["smtp_secure"].value == Some(SecureText(config.secure))
      && r["smtp_user"].value == config.user
      && r["smtp_from"].value == config.from
      && (HasPass(config) ==> r["smtp_pass"].value == config.pass)
      && (!HasPass(config) && "smtp_pass" in settings ==> r["smtp_pass"] == settings["smtp_pass"])
      && (forall k :: k in settings && k !in SmtpKeys() ==> r[k] == settings[k])
  {
    SmtpKeysDiffer();
    var s1 := SetRows(settings, "smtp_host", config.host, now);
    var s2 := SetRows(s1, "smtp_port", Some(Js.IntToString(config.port)), now);
    var s3 := SetRows(s2, "smtp_secure", Some(SecureText(config.secure)), now);
    var s4 := SetRows(s3, "smtp_user", config.user, now);
    var s5 := if HasPass(config) then SetRows(s4, "smtp_pass", config.pass, now) else s4;
    var r := SetRows(s5, "smtp_from", config.from, now);
    assert r == SetSmtpConfigRows(settings, config, now);
    assert s5["smtp_host"] == s4["smtp_host"] == s3["smtp_host"] == s2["smtp_host"] == s1["smtp_host"];
    assert s5["smtp_port"] == s4["smtp_port"] == s3["smtp_port"] == s2["smtp_port"];
    assert s5["smtp_secure"] == s4["smtp_secure"] == s3["smtp_secure"];
    assert s5["smtp_user"] == s4["smtp_user"];
    if !HasPass(config) && "smtp_pass" in settings {
      assert s4["smtp_pass"] == s3["smtp_pass"] == s2["smtp_pass"] == s1["smtp_pass"]
        == settings["smtp_pass"];
    }
  }

  /** `setSmtpConfig` adds the keys it writes and removes none. */
  lemma SetSmtpConfigKeys(settings: map<string, SettingRow>, config: SmtpInput, now: Timestamp)
    ensures SetSmtpConfigRows(settings, config, now).Keys
      == settings.Keys + {"smtp_host", "smtp_port", "smtp_secure", "smtp_user", "smtp_from"}
        + (if HasPass(config) then {"smtp_pass"} else {})
  {
    var s4 := SetRows(SetRows(SetRows(SetRows(settings, "smtp_host", config.host, now),
      "smtp_port", Some(Js.IntToString(config.port)), now),
      "smtp_secure", Some(SecureText(config.secure)), now), "smtp_user", config.user, now);
    assert s4.Keys == settings.Keys + {"smtp_host", "smtp_port", "smtp_secure", "smtp_user"};
  }

  /** The names of the six SMTP settings. */
  function SmtpKeys(): set<string> {
    {"smtp_host", "smtp_port", "smtp_secure", "smtp_user", "smtp_pass", "smtp_from"}
  }

  /** The six setting names are pairwise different strings. */
  lemma SmtpKeysDiffer()
    ensures "smtp_host" != "smtp_port" && "smtp_host" != "smtp_secure"
    ensures "smtp_host" != "smtp_user" && "smtp_host" != "smtp_pass" && "smtp_host" != "smtp_from"
    ensures "smtp_port" != "smtp_secure" && "smtp_port" != "smtp_user"
    ensures "smtp_port" != "smtp_pass" && "smtp_port" != "smtp_from"
    ensures "smtp_secure" != "smtp_user" && "smtp_secure" != "smtp_pass"
    ensures "smtp_secure" != "smtp_from"
    ensures "smtp_user" != "smtp_pass" && "smtp_user" != "smtp_from"
    ensures "smtp_pass" != "smtp_from"
  {
    assert "smtp_host"[5] == 'h' && "smtp_port"[5] == 'p' && "smtp_secure"[5] == 's';
    assert "smtp_user"[5] == 'u' && "smtp_pass"[5] == 'p' && "smtp_from"[5] == 'f';
    assert "smtp_port"[6] == 'o' && "smtp_pass"[6] == 'a';
  }

  /**
    The round trip: after `setSmtpConfig(config)`, `getSmtpConfig` returns the same host, user
    and from, the same port read back through `parseInt`, `secure` as the truthiness of the
    flag given, and the password given when it was truthy, otherwise the one read before.
  */
  lemma SmtpConfigRoundTrip(settings: map<string, SettingRow>, config: SmtpInput, now: Timestamp,
                            env: Env)
    ensures var c := GetSmtpConfig(SetSmtpConfigRows(settings, config, now), env);
      && c.host == config.host && c.user == config.user && c.from == config.from
      && c.port == Some(config.port)
      && c.secure == Js.Truthy(config.secure)
      && c.pass == (if HasPass(config) then config.pass else GetSmtpConfig(settings, env).pass)
  {
    var r := SetSmtpConfigRows(settings, config, now);
    SetSmtpConfigWrites(settings, config, now);
    Js.ParseIntOfIntToString(config.port);
    assert ParseStored(r["smtp_port"].value) == Some(config.port);
    if !HasPass(config) {
      FalsyPassKeepsStoredPass(settings, config, now);
    }
  }

  /** A falsy password leaves the stored smtp_pass row, or its absence, exactly as it was. */
  lemma FalsyPassKeepsStoredPass(settings: map<string, SettingRow>, config: SmtpInput,
                                 now: Timestamp)
    requires !HasPass(config)
    ensures var r := SetSmtpConfigRows(settings, config, now);
      ("smtp_pass" in r <==> "smtp_pass" in settings)
      && ("smtp_pass" in settings ==> r["smtp_pass"] == settings["smtp_pass"])
  {
    SetSmtpConfigKeys(settings, config, now);
    SetSmtpConfigWrites(settings, config, now);
  }
}
