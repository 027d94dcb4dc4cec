/** config/settings.py: the settings read from the environment once, at
    import, and the check that the API keys the chosen mode needs are set. */
module Config {
  import opened Text

  /** The process environment, as far as it is read here. */
  type Env = map<string, string>

  /** os.getenv(key, default). */
  function Getenv(env: Env, key: string, default: string): (r: string)
    ensures key in env ==> r == env[key]
    ensures key !in env ==> r == default
  {
    if key in env then env[key] else default
  }

  /** A boolean flag: os.getenv(key, default).lower() == "true". */
  function Flag(env: Env, key: string, default: string): bool {
    Lower(Getenv(env, key, default)) == "true"
  }

  /** The string and boolean settings. The numeric ones (TEMPERATURE,
      MAX_TOKENS, REQUEST_DELAY_MIN/MAX) are not part of this model. */
  datatype Settings = Settings(
    groqApiKey: string,
    pexelsApiKey: string,
    anthropicApiKey: string,
    moneyMode: bool,
    modelName: string,
    fallbackModel: string,
    claudeModel: string,
    enableRateLimiting: bool,
    sequentialMode: bool,
    debug: bool)
  {
    /** Settings.validate: the key checks in order; the first that fails
        raises its ValueError. */
    function Validate(): (r: Validation)
      ensures r.Ok? ==> pexelsApiKey != ""
      ensures r.ValueError? ==> r.message in {GroqMissing, AnthropicMissing, PexelsMissing}
    {
      if !moneyMode && groqApiKey == "" then ValueError(GroqMissing)
      else if moneyMode && anthropicApiKey == "" then ValueError(AnthropicMissing)
      else if pexelsApiKey == "" then ValueError(PexelsMissing)
      else Ok
    }
  }

  /** The class attributes of Settings, each read from the environment with
      its default. */
  function FromEnv(env: Env): (s: Settings)
    ensures s.groqApiKey == (if "GROQ_API_KEY" in env then env["GROQ_API_KEY"] else "")
    ensures s.pexelsApiKey == (if "PEXELS_API_KEY" in env then env["PEXELS_API_KEY"] else "")
    ensures s.anthropicApiKey == (if "ANTHROPIC_API_KEY" in env then env["ANTHROPIC_API_KEY"] else "")
  {
    Settings(
      Getenv(env, "GROQ_API_KEY", ""),
      Getenv(env, "PEXELS_API_KEY", ""),
      Getenv(env, "ANTHROPIC_API_KEY", ""),
      Flag(env, "MONEY_MODE", "false"),
      Getenv(env, "MODEL_NAME", "openai/gpt-oss-120b"),
      Getenv(env, "FALLBACK_MODEL", "llama-3.3-70b-versatile"),
      Getenv(env, "CLAUDE_MODEL", "claude-haiku-4-5-20251001"),
      Flag(env, "ENABLE_RATE_LIMITING", "true"),
      Flag(env, "SEQUENTIAL_MODE", "false"),
      Flag(env, "DEBUG", "false"))
  }

  /** validate either returns or raises ValueError with a message. */
  datatype Validation = Ok | ValueError(message: string)

  const GroqMissing: string :=
    "GROQ_API_KEY" + " is required when MONEY_MODE is disabled. Please set it in your .env file.\n" +
    "Get your API key from: https://console.groq.com/keys"

  const AnthropicMissing: string :=
    "ANTHROPIC_API_KEY" + " is required when MONEY_MODE is enabled. Please set it in your .env file.\n" +
    "Get your API key from: https://console.anthropic.com/"

  const PexelsMissing: string :=
    "PEXELS_API_KEY" + " is required. Please set it in your .env file.\n" +
    "Get your API key from: https://www.pexels.com/api/new/"

  // ---------------------------------------------------------------------------
  // Properties

  /** A flag is on exactly when its text is "true" in any mix of cases. */
  lemma FlagSpelling(env: Env, key: string, default: string)
    ensures var v := Getenv(env, key, default);
      Flag(env, key, default) <==>
        |v| == 4 && (v[0] == 't' || v[0] == 'T') && (v[1] == 'r' || v[1] == 'R') &&
        (v[2] == 'u' || v[2] == 'U') && (v[3] == 'e' || v[3] == 'E')
  {
    var v := Getenv(env, key, default);
    if |v| == 4 {
      var l := Lower(v);
      assert l == "true" <==> l[0] == 't' && l[1] == 'r' && l[2] == 'u' && l[3] == 'e';
    }
  }

  /** With the variable unset, a flag takes its default: MONEY_MODE,
      SEQUENTIAL_MODE and DEBUG are off, ENABLE_RATE_LIMITING is on. */
  lemma FlagDefaults(env: Env)
    requires "MONEY_MODE" !in env && "ENABLE_RATE_LIMITING" !in env
    requires "SEQUENTIAL_MODE" !in env && "DEBUG" !in env
    ensures var s := FromEnv(env);
      !s.moneyMode && s.enableRateLimiting && !s.sequentialMode && !s.debug
  {
    assert Lower("true") == "true";
    assert Lower("false") != "true" by {
      assert |Lower("false")| == 5;
    }
  }

  /** The messages are pairwise different, so each names the key it is about. */
  lemma MessagesDistinct()
    ensures GroqMissing != AnthropicMissing && GroqMissing != PexelsMissing && AnthropicMissing != PexelsMissing
  {
    assert GroqMissing[0] == 'G';
    assert AnthropicMissing[0] == 'A';
    assert PexelsMissing[0] == 'P';
  }

  /** validate returns exactly when PEXELS_API_KEY and the key of the chosen
      provider are set. */
  lemma ValidateOkIff(s: Settings)
    ensures s.Validate().Ok? <==>
      s.pexelsApiKey != "" && (if s.moneyMode then s.anthropicApiKey != "" else s.groqApiKey != "")
  {
  }

  /** Which message validate raises: the first failing check in the order
      Groq key (free mode), Anthropic key (money mode), Pexels key. */
  lemma ValidateFirstFailure(s: Settings)
    ensures s.Validate() == ValueError(GroqMissing) <==> !s.moneyMode && s.groqApiKey == ""
    ensures s.Validate() == ValueError(AnthropicMissing) <==> s.moneyMode && s.anthropicApiKey == ""
    ensures s.Validate() == ValueError(PexelsMissing) <==>
      s.pexelsApiKey == "" && (if s.moneyMode then s.anthropicApiKey != "" else s.groqApiKey != "")
  {
    MessagesDistinct();
  }

  /** The key of the provider not in use is never asked for. */
  lemma UnusedProviderIgnored(s: Settings, key: string)
    ensures s.moneyMode ==> s.(groqApiKey := key).Validate() == s.Validate()
    ensures !s.moneyMode ==> s.(anthropicApiKey := key).Validate() == s.Validate()
  {
  }

  /** From an environment without PEXELS_API_KEY, validate always raises. */
  lemma PexelsAlwaysRequired(env: Env)
    requires "PEXELS_API_KEY" !in env || env["PEXELS_API_KEY"] == ""
    ensures FromEnv(env).Validate().ValueError?
  {
  }
}
