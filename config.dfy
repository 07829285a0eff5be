/**
 * Start-up configuration: the bot token, the two chat ids and the database
 * path, read from the environment with defaults, then validated. The
 * environment is a map from variable names to values.
 */
module AppConfig {
  import opened Wrappers
  import opened Types
  import opened JsString

  datatype Config = Config(botToken: string, sourceChatId: int, targetChatId: int, dbPath: string)

  const DefaultDbPath: string := "./data/messages.db"
  const TokenRequired: string := "BOT_TOKEN is required"
  const ChatIdsRequired: string := "SOURCE_CHAT_ID and TARGET_CHAT_ID are required"

  /** `process.env[name] || fallback`: an unset or empty variable gives the
      fallback. */
  function EnvOr(env: map<string, string>, name: string, fallback: string): string {
    if name in env && env[name] != "" then env[name] else fallback
  }

  /** Builds the configuration and runs the start-up checks: the token must
      not be empty, and each chat id must parse to a number other than 0 (a
      NaN fails too). A successful configuration satisfies all checks and
      takes DB_PATH when it is set, the default path otherwise. */
  function LoadConfig(env: map<string, string>): (r: Result<Config, string>)
    ensures r.Success? ==> "BOT_TOKEN" in env && r.value.botToken == env["BOT_TOKEN"] && r.value.botToken != ""
    ensures r.Success? ==> r.value.sourceChatId != 0 && r.value.targetChatId != 0
    ensures r.Success? ==> ParseInt(EnvOr(env, "SOURCE_CHAT_ID", "0")) == Some(r.value.sourceChatId)
    ensures r.Success? ==> ParseInt(EnvOr(env, "TARGET_CHAT_ID", "0")) == Some(r.value.targetChatId)
    ensures r.Success? && ("DB_PATH" !in env || env["DB_PATH"] == "") ==> r.value.dbPath == "./data/messages.db"
    ensures r.Success? && "DB_PATH" in env && env["DB_PATH"] != "" ==> r.value.dbPath == env["DB_PATH"]
    ensures r.Failure? ==> r.error == TokenRequired || r.error == ChatIdsRequired
  {
    var botToken := EnvOr(env, "BOT_TOKEN", "");
    var sourceChatId := ParseInt(EnvOr(env, "SOURCE_CHAT_ID", "0"));
    var targetChatId := ParseInt(EnvOr(env, "TARGET_CHAT_ID", "0"));
    var dbPath := EnvOr(env, "DB_PATH", DefaultDbPath);
    if botToken == "" then Failure(TokenRequired)
    else if !TruthyNumber(sourceChatId) || !TruthyNumber(targetChatId) then Failure(ChatIdsRequired)
    else Success(Config(botToken, sourceChatId.value, targetChatId.value, dbPath))
  }

  /** An unset or empty BOT_TOKEN stops the start-up, whatever else is set. */
  lemma MissingTokenRejected(env: map<string, string>)
    requires "BOT_TOKEN" !in env || env["BOT_TOKEN"] == ""
    ensures LoadConfig(env) == Failure(TokenRequired)
  {
  }

  /** An unset or empty chat id defaults to "0", which parses to 0 and is
      rejected. */
  lemma MissingChatIdRejected(env: map<string, string>, name: string)
    requires name == "SOURCE_CHAT_ID" || name == "TARGET_CHAT_ID"
    requires "BOT_TOKEN" in env && env["BOT_TOKEN"] != ""
    requires name !in env || env[name] == ""
    ensures LoadConfig(env) == Failure(ChatIdsRequired)
  {
    ParseIntOfIntToString(0);
    assert IntToString(0) == "0";
  }

  /** A chat id that parses to 0 or to NaN is rejected. */
  lemma ZeroOrNaNChatIdRejected(env: map<string, string>, name: string)
    requires name == "SOURCE_CHAT_ID" || name == "TARGET_CHAT_ID"
    requires "BOT_TOKEN" in env && env["BOT_TOKEN"] != ""
    requires name in env && env[name] != ""
    requires ParseInt(env[name]) == None || ParseInt(env[name]) == Some(0)
    ensures LoadConfig(env) == Failure(ChatIdsRequired)
  {
  }

  /** Any chat id values that `parseInt` reads as non-zero numbers pass the
      checks, whatever else they hold (" +42", "42abc", "0x2A"), and the
      configuration takes the parsed numbers. */
  lemma ParsedChatIdsAccepted(env: map<string, string>, source: int, target: int)
    requires "BOT_TOKEN" in env && env["BOT_TOKEN"] != ""
    requires ParseInt(EnvOr(env, "SOURCE_CHAT_ID", "0")) == Some(source) && source != 0
    requires ParseInt(EnvOr(env, "TARGET_CHAT_ID", "0")) == Some(target) && target != 0
    ensures LoadConfig(env)
         == Success(Config(env["BOT_TOKEN"], source, target, EnvOr(env, "DB_PATH", DefaultDbPath)))
  {
  }

  /** Any two non-zero chat ids written in decimal, negative group ids
      included, pass the checks and are taken as they are. */
  lemma NonZeroChatIdsAccepted(env: map<string, string>, source: int, target: int)
    requires "BOT_TOKEN" in env && env["BOT_TOKEN"] != ""
    requires source != 0 && target != 0
    requires "SOURCE_CHAT_ID" in env && env["SOURCE_CHAT_ID"] == IntToString(source)
    requires "TARGET_CHAT_ID" in env && env["TARGET_CHAT_ID"] == IntToString(target)
    ensures LoadConfig(env)
         == Success(Config(env["BOT_TOKEN"], source, target, EnvOr(env, "DB_PATH", DefaultDbPath)))
  {
    ParseIntOfIntToString(source);
    ParseIntOfIntToString(target);
    ParsedChatIdsAccepted(env, source, target);
  }
}
