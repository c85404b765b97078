/** The database targets and the connection settings read from the
    environment (`MySQLDatabase`, `MySQLConfig` and `_collect_config`,
    sigur/services/mysql.py lines 40-58 and 184-229). The environment is a
    map from variable names to values, as `os.getenv` would see it. */
module Settings {
  import opened Wrappers
  import opened Strings
  import opened ServiceErrors

  /** The two targets; their values are "main" and "log". */
  datatype Database = Main | Log

  function DatabaseValue(d: Database): (v: string)
    ensures v == "main" || v == "log"
  {
    match d
    case Main => "main"
    case Log => "log"
  }

  /** The member name, upper-cased, as it appears in the variable names. */
  function DatabaseName(d: Database): string {
    match d
    case Main => "MAIN"
    case Log => "LOG"
  }

  /** `MySQLDatabase.from_value`: the target whose value is `value`, or a
      configuration error naming the unknown value. */
  function FromValue(value: string): (r: Result<Database, ServiceError>)
    ensures r.Ok? <==> value == "main" || value == "log"
    ensures r.Ok? ==> DatabaseValue(r.value) == value
    ensures r.Err? ==> r.error == ConfigurationError(UnknownDatabase(value))
  {
    if value == "main" then Ok(Main)
    else if value == "log" then Ok(Log)
    else Err(ConfigurationError(UnknownDatabase(value)))
  }

  /** Every target is found again from its value. */
  lemma FromValueOfValue(d: Database)
    ensures FromValue(DatabaseValue(d)) == Ok(d)
  {
  }

  /** `MYSQL_{TARGET}_{KEY}`: the variable that sets `key` for one target. */
  function SpecificVariable(t: Database, key: string): string {
    "MYSQL_" + DatabaseName(t) + "_" + key
  }

  /** `MYSQL_{KEY}`: the variable that sets `key` for every target. */
  function GenericVariable(key: string): string {
    "MYSQL_" + key
  }

  /** The six settings the resolver reads. */
  predicate SettingKey(key: string) {
    key == "HOST" || key == "USER" || key == "DATABASE"
    || key == "PASSWORD" || key == "PORT" || key == "CHARSET"
  }

  /** The settings without which no connection is attempted, in the order
      they are read. */
  const RequiredKeys: seq<string> := ["HOST", "USER", "DATABASE"]

  function Lookup(env: map<string, string>, name: string): Option<string> {
    if name in env then Some(env[name]) else None
  }

  /** A variable that is set and not empty. */
  predicate Filled(o: Option<string>) {
    o.Some? && o.value != ""
  }

  /** The value of a setting: the target's own variable when it is set and
      not empty, otherwise the shared variable when it is set and not empty,
      otherwise nothing. */
  function Setting(env: map<string, string>, t: Database, key: string): (r: Option<string>)
    ensures r.Some? <==> Filled(Lookup(env, SpecificVariable(t, key))) || Filled(Lookup(env, GenericVariable(key)))
    ensures r.Some? ==> r.value != ""
    ensures Filled(Lookup(env, SpecificVariable(t, key))) ==> r == Lookup(env, SpecificVariable(t, key))
    ensures !Filled(Lookup(env, SpecificVariable(t, key))) ==> r.Some? ==> r == Lookup(env, GenericVariable(key))
  {
    var specific := Lookup(env, SpecificVariable(t, key));
    var generic := Lookup(env, GenericVariable(key));
    if Filled(specific) then specific
    else if Filled(generic) then generic
    else None
  }

  /** The variables the error message lists for the unresolved keys among
      `keys`: for each, in order, the target's own variable then the shared
      one. */
  function MissingVariables(env: map<string, string>, t: Database, keys: seq<string>): (r: seq<string>)
    ensures |r| % 2 == 0 && |r| <= 2 * |keys|
  {
    if keys == [] then [] else MissingPair(env, t, keys[0]) + MissingVariables(env, t, keys[1..])
  }

  /** The two variables of `key` when it does not resolve. */
  function MissingPair(env: map<string, string>, t: Database, key: string): (r: seq<string>)
    ensures r == [] <==> Filled(Lookup(env, SpecificVariable(t, key))) || Filled(Lookup(env, GenericVariable(key)))
    ensures r != [] ==> |r| == 2 && r[0] == SpecificVariable(t, key) && r[1] == GenericVariable(key)
  {
    if Setting(env, t, key).None? then [SpecificVariable(t, key), GenericVariable(key)] else []
  }

  /** The required keys one by one. */
  lemma MissingRequired(env: map<string, string>, t: Database)
    ensures MissingVariables(env, t, RequiredKeys) ==
      MissingPair(env, t, "HOST") + MissingPair(env, t, "USER") + MissingPair(env, t, "DATABASE")
  {
    var k1 := RequiredKeys[1..];
    var k2 := k1[1..];
    assert k1 == ["USER", "DATABASE"] && k2 == ["DATABASE"] && k2[1..] == [];
    assert MissingVariables(env, t, k2) == MissingPair(env, t, "DATABASE");
  }

  /** Nothing is missing exactly when every key resolves. */
  lemma {:induction false} MissingVariablesEmpty(env: map<string, string>, t: Database, keys: seq<string>)
    ensures MissingVariables(env, t, keys) == [] <==> forall i :: 0 <= i < |keys| ==> Setting(env, t, keys[i]).Some?
    decreases |keys|
  {
    if keys != [] {
      MissingVariablesEmpty(env, t, keys[1..]);
      assert forall i :: 1 <= i < |keys| ==> keys[i] == keys[1..][i - 1];
    }
  }

  /** A variable is listed exactly when it is one of the two variables of an
      unresolved key. */
  lemma {:induction false} MissingVariablesMembers(env: map<string, string>, t: Database, keys: seq<string>, v: string)
    ensures v in MissingVariables(env, t, keys) <==>
      exists i :: 0 <= i < |keys| && Setting(env, t, keys[i]).None?
                  && (v == SpecificVariable(t, keys[i]) || v == GenericVariable(keys[i]))
    decreases |keys|
  {
    if keys != [] {
      MissingVariablesMembers(env, t, keys[1..], v);
      if v in MissingVariables(env, t, keys[1..]) {
        var i :| 0 <= i < |keys[1..]| && Setting(env, t, keys[1..][i]).None?
                 && (v == SpecificVariable(t, keys[1..][i]) || v == GenericVariable(keys[1..][i]));
        assert keys[1..][i] == keys[i + 1];
      }
      if exists i :: 0 <= i < |keys| && Setting(env, t, keys[i]).None?
                     && (v == SpecificVariable(t, keys[i]) || v == GenericVariable(keys[i])) {
        var i :| 0 <= i < |keys| && Setting(env, t, keys[i]).None?
                 && (v == SpecificVariable(t, keys[i]) || v == GenericVariable(keys[i]));
        if i > 0 {
          assert keys[1..][i - 1] == keys[i];
        }
      }
    }
  }

  /** With none of the required settings present, the message names all six
      variables, the target's own one first in each pair. */
  lemma NothingSetListsAll(env: map<string, string>, t: Database)
    requires forall i :: 0 <= i < |RequiredKeys| ==> Setting(env, t, RequiredKeys[i]).None?
    ensures MissingVariables(env, t, RequiredKeys) ==
      [SpecificVariable(t, "HOST"), GenericVariable("HOST"),
       SpecificVariable(t, "USER"), GenericVariable("USER"),
       SpecificVariable(t, "DATABASE"), GenericVariable("DATABASE")]
  {
    assert RequiredKeys[0] == "HOST" && RequiredKeys[1] == "USER" && RequiredKeys[2] == "DATABASE";
    assert Setting(env, t, RequiredKeys[0]).None? && Setting(env, t, RequiredKeys[1]).None?
      && Setting(env, t, RequiredKeys[2]).None?;
    MissingRequired(env, t);
  }

  /** `MySQLConfig`. */
  datatype Config = Config(host: string, user: string, password: string, database: string, port: int, charset: string)

  /** The state of one run of `_collect_config`: the target, the environment
      and the `missing` list that the nested `_get_env` extends. */
  class EnvReader {
    const target: Database
    const env: map<string, string>
    var missing: seq<string>

    constructor(target: Database, env: map<string, string>)
      ensures this.target == target && this.env == env && missing == []
    {
      this.target := target;
      this.env := env;
      missing := [];
    }

    /** `_get_env`: the setting when it resolves; otherwise the shared
        variable's value, or `default` when that is unset. An unresolved
        required key appends its two variables to `missing`. */
    method Get(key: string, default: Option<string>, required: bool) returns (value: Option<string>)
      modifies this
      ensures Setting(env, target, key).Some? ==> value == Setting(env, target, key)
      ensures Setting(env, target, key).None? ==>
        value == if GenericVariable(key) in env then Some("") else default
      ensures default.Some? ==> OrDefault(value, default.value) == Setting(env, target, key).GetOr(default.value)
      ensures default == Some("") ==> value == Some(Setting(env, target, key).GetOr(""))
      ensures missing == old(missing) +
        if required && OrDefault(value, "") == "" then [SpecificVariable(target, key), GenericVariable(key)] else []
      ensures required && default.None? ==> missing == old(missing) + MissingPair(env, target, key)
    {
      var specificKey := SpecificVariable(target, key);
      var genericKey := GenericVariable(key);
      var specific := Lookup(env, specificKey);
      if specific.Some? && specific.value != "" {
        return specific;
      }
      var fallback := if genericKey in env then Some(env[genericKey]) else default;
      if fallback.Some? && fallback.value != "" {
        return fallback;
      }
      if required {
        missing := missing + [specificKey, genericKey];
      }
      return fallback;
    }
  }

  /** `x or default` on the optional string `x`. */
  function OrDefault(x: Option<string>, default: string): (r: string)
    ensures Filled(x) ==> r == x.value
    ensures !Filled(x) ==> r == default
    ensures default != "" ==> r != ""
  {
    if x.Some? && x.value != "" then x.value else default
  }

  /** The text the port is parsed from: the setting, or "3306". */
  function PortText(env: map<string, string>, t: Database): (r: string)
    ensures r != ""
    ensures Setting(env, t, "PORT").Some? ==> Some(r) == Setting(env, t, "PORT")
    ensures Setting(env, t, "PORT").None? ==> r == "3306"
  {
    Setting(env, t, "PORT").GetOr("3306")
  }

  /** The outcome `_collect_config` is to have: an error listing the
      variables of the unresolved required keys, else an error for a port
      that is not an integer, else the resolved settings. */
  function ResolvedConfig(env: map<string, string>, t: Database): (r: Result<Config, ServiceError>)
    ensures r.Err? && r.error.ConfigurationError? && r.error.config.MissingSettings? <==>
      exists i :: 0 <= i < |RequiredKeys| && Setting(env, t, RequiredKeys[i]).None?
    ensures r.Err? && r.error.ConfigurationError? && r.error.config.MissingSettings? ==>
      r.error.config.variables == MissingVariables(env, t, RequiredKeys)
    ensures r.Err? && !(r.error.ConfigurationError? && r.error.config.MissingSettings?) ==>
      r == Err(ConfigurationError(PortNotInteger(PortText(env, t))))
    ensures r.Ok? <==>
      (forall i :: 0 <= i < |RequiredKeys| ==> Setting(env, t, RequiredKeys[i]).Some?)
      && ParseInt(PortText(env, t)).Some?
    ensures r.Ok? ==>
      && Some(r.value.host) == Setting(env, t, "HOST")
      && Some(r.value.user) == Setting(env, t, "USER")
      && Some(r.value.database) == Setting(env, t, "DATABASE")
      && r.value.password == Setting(env, t, "PASSWORD").GetOr("")
      && Some(r.value.port) == ParseInt(PortText(env, t))
      && r.value.charset == Setting(env, t, "CHARSET").GetOr("utf8mb4")
  {
    assert RequiredKeys[0] == "HOST" && RequiredKeys[1] == "USER" && RequiredKeys[2] == "DATABASE";
    if exists i :: 0 <= i < |RequiredKeys| && Setting(env, t, RequiredKeys[i]).None? then
      Err(ConfigurationError(MissingSettings(MissingVariables(env, t, RequiredKeys))))
    else if ParseInt(PortText(env, t)).None? then
      Err(ConfigurationError(PortNotInteger(PortText(env, t))))
    else
      Ok(Config(Setting(env, t, "HOST").GetOr(""), Setting(env, t, "USER").GetOr(""),
                Setting(env, t, "PASSWORD").GetOr(""), Setting(env, t, "DATABASE").GetOr(""),
                ParseInt(PortText(env, t)).value, Setting(env, t, "CHARSET").GetOr("utf8mb4")))
  }

  lemma ResolvedMissing(env: map<string, string>, t: Database)
    requires MissingVariables(env, t, RequiredKeys) != []
    ensures ResolvedConfig(env, t) == Err(ConfigurationError(MissingSettings(MissingVariables(env, t, RequiredKeys))))
  {
    MissingVariablesEmpty(env, t, RequiredKeys);
  }

  lemma ResolvedComplete(env: map<string, string>, t: Database)
    requires Setting(env, t, "HOST").Some? && Setting(env, t, "USER").Some? && Setting(env, t, "DATABASE").Some?
    ensures ResolvedConfig(env, t) ==
      if ParseInt(PortText(env, t)).None? then Err(ConfigurationError(PortNotInteger(PortText(env, t))))
      else Ok(Config(Setting(env, t, "HOST").value, Setting(env, t, "USER").value,
                     Setting(env, t, "PASSWORD").GetOr(""), Setting(env, t, "DATABASE").value,
                     ParseInt(PortText(env, t)).value, Setting(env, t, "CHARSET").GetOr("utf8mb4")))
  {
    assert RequiredKeys[0] == "HOST" && RequiredKeys[1] == "USER" && RequiredKeys[2] == "DATABASE";
  }

  /** `_collect_config`: the connection settings of target `t`, or an error
      listing the variables of every unresolved required key, or an error
      for a port that is not an integer. Password, port and character set
      default to "", 3306 and "utf8mb4"; an empty variable counts as unset. */
  method CollectConfig(t: Database, env: map<string, string>) returns (r: Result<Config, ServiceError>)
    ensures r == ResolvedConfig(env, t)
  {
    var reader := new EnvReader(t, env);
    var host := reader.Get("HOST", None, true);
    var user := reader.Get("USER", None, true);
    var database := reader.Get("DATABASE", None, true);
    assert reader.missing == MissingVariables(env, t, RequiredKeys) by {
      MissingRequired(env, t);
      assert reader.missing == MissingPair(env, t, "HOST") + MissingPair(env, t, "USER") + MissingPair(env, t, "DATABASE");
    }
    MissingVariablesEmpty(env, t, RequiredKeys);
    if reader.missing != [] {
      ResolvedMissing(env, t);
      return Err(ConfigurationError(MissingSettings(reader.missing)));
    }
    assert RequiredKeys[0] == "HOST" && RequiredKeys[1] == "USER" && RequiredKeys[2] == "DATABASE";
    assert Setting(env, t, "HOST").Some? && Setting(env, t, "USER").Some? && Setting(env, t, "DATABASE").Some?;
    assert host == Setting(env, t, "HOST") && user == Setting(env, t, "USER")
      && database == Setting(env, t, "DATABASE");
    var password := reader.Get("PASSWORD", Some(""), false);
    var portRaw := reader.Get("PORT", Some("3306"), false);
    var portText := OrDefault(portRaw, "3306");
    var charset := reader.Get("CHARSET", Some("utf8mb4"), false);
    var port := ParseInt(portText);
    ResolvedComplete(env, t);
    if port.None? {
      return Err(ConfigurationError(PortNotInteger(portText)));
    }
    return Ok(Config(host.GetOr(""), user.GetOr(""), password.GetOr(""), database.GetOr(""),
                     port.value, OrDefault(charset, "utf8mb4")));
  }

  /** With no port setting the port is 3306. */
  lemma DefaultPort(env: map<string, string>, t: Database)
    requires Setting(env, t, "PORT").None?
    ensures ParseInt(PortText(env, t)) == Some(3306)
  {
    assert PortText(env, t) == "3306";
    assert DigitsValue("3306") == 3306 by {
      assert "3306"[..3] == "330" && "330"[..2] == "33" && "33"[..1] == "3";
    }
  }

  /** A port or character set variable set to the empty string counts as
      unset: the defaults 3306 and "utf8mb4" are used. */
  lemma EmptyMeansDefault(env: map<string, string>, t: Database)
    requires forall key :: key in {"PORT", "CHARSET"} ==>
      !Filled(Lookup(env, SpecificVariable(t, key))) && !Filled(Lookup(env, GenericVariable(key)))
    requires ResolvedConfig(env, t).Ok?
    ensures ResolvedConfig(env, t).value.port == 3306 && ResolvedConfig(env, t).value.charset == "utf8mb4"
  {
    assert "PORT" in {"PORT", "CHARSET"} && "CHARSET" in {"PORT", "CHARSET"};
    DefaultPort(env, t);
  }

  /** The names of different (target, key) pairs are different, and none
      is the shared name of a setting. */
  lemma VariablesDistinct(t: Database, u: Database, key: string, other: string)
    requires SettingKey(key) && SettingKey(other)
    ensures SpecificVariable(t, key) == SpecificVariable(u, other) ==> t == u && key == other
    ensures SpecificVariable(t, key) != GenericVariable(other)
  {
    var a, b, g := SpecificVariable(t, key), SpecificVariable(u, other), GenericVariable(other);
    assert a[6] == DatabaseName(t)[0] && b[6] == DatabaseName(u)[0];
    if a == b {
      assert t == u;
      assert key == a[|DatabaseName(t)| + 7..] == other;
    }
    assert g[6] == other[0];
  }

  /** The settings of one target do not depend on the variables that are
      specific to the other target. */
  lemma TargetIsolation(env: map<string, string>, t: Database, u: Database, key: string, other: string, v: string)
    requires SettingKey(key) && SettingKey(other) && t != u
    ensures Setting(env[SpecificVariable(u, other) := v], t, key) == Setting(env, t, key)
  {
    VariablesDistinct(u, t, other, key);
  }
}
