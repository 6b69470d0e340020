/**
 * Which rules directory is in effect (src/config/rules-dir.ts): the `AIRULES_DIR`
 * environment variable first, then the configuration file. The environment is a parameter,
 * a map from variable names to values.
 */
module RulesDir {
  import opened Nullable

  datatype AirulesConfig = AirulesConfig(rulesDir: string)

  const AirulesDirVariable: string := "AIRULES_DIR"

  /** JavaScript's `x || null` on a string that may be missing: the empty string is falsy. */
  function OrNull(s: Option<string>): (r: Option<string>)
    ensures r.Some? <==> s.Some? && s.value != ""
    ensures r.Some? ==> r == s
  {
    if s.Some? && s.value != "" then s else None
  }

  /** getEnvRulesDir: the variable's value, unless it is unset or empty. */
  function GetEnvRulesDir(env: map<string, string>): (r: Option<string>)
    ensures r.Some? <==> AirulesDirVariable in env && env[AirulesDirVariable] != ""
    ensures r.Some? ==> r.value == env[AirulesDirVariable]
  {
    OrNull(if AirulesDirVariable in env then Some(env[AirulesDirVariable]) else None)
  }

  /** getEffectiveRulesDir: the environment's directory when there is one, otherwise the
      configured directory, otherwise none. */
  function GetEffectiveRulesDir(env: map<string, string>, config: Option<AirulesConfig>): (r: Option<string>)
    ensures r.Some? ==> r.value != ""
    ensures r.Some? ==> r == GetEnvRulesDir(env) || (config.Some? && r.value == config.value.rulesDir)
  {
    var envDir := GetEnvRulesDir(env);
    if envDir.Some? then envDir
    else OrNull(if config.Some? then Some(config.value.rulesDir) else None)
  }

  /** A non-empty variable wins over any configuration, a missing one included. */
  lemma EnvironmentWins(env: map<string, string>, config: Option<AirulesConfig>)
    requires AirulesDirVariable in env && env[AirulesDirVariable] != ""
    ensures GetEffectiveRulesDir(env, config) == Some(env[AirulesDirVariable])
  {
  }

  /** Without a usable variable the configured directory is used, when it is not empty. */
  lemma ConfigFallback(env: map<string, string>, config: AirulesConfig)
    requires GetEnvRulesDir(env).None?
    ensures GetEffectiveRulesDir(env, Some(config)) == if config.rulesDir == "" then None else Some(config.rulesDir)
  {
  }

  /** Neither a variable nor a configuration: no directory. */
  lemma NothingConfigured(env: map<string, string>)
    requires AirulesDirVariable !in env || env[AirulesDirVariable] == ""
    ensures GetEffectiveRulesDir(env, None) == None
  {
  }

  /** The result is no directory exactly when neither source gives a non-empty one. */
  lemma NoneIff(env: map<string, string>, config: Option<AirulesConfig>)
    ensures GetEffectiveRulesDir(env, config).None?
      <==> (AirulesDirVariable !in env || env[AirulesDirVariable] == "")
           && (config.None? || config.value.rulesDir == "")
  {
  }
}
