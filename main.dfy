/**
 * The server's start-up configuration: each setting read from the process
 * environment with a default, and the listen port normalised to `:port`.
 */
module ServerMain {
  import opened Strings

  /** The process environment; a variable that is absent is unset. */
  type Env = map<string, string>

  /** `os.Getenv`: the variable's value, or the empty string when it is unset. */
  function Getenv(env: Env, key: string): (value: string)
    ensures key in env ==> value == env[key]
    ensures key !in env ==> value == ""
  {
    if key in env then env[key] else ""
  }

  /** The variable's value when it is set and non-empty, the fallback otherwise. */
  function GetEnv(env: Env, key: string, fallback: string): (value: string)
    ensures key in env && env[key] != "" ==> value == env[key]
    ensures key !in env || env[key] == "" ==> value == fallback
  {
    var value := Getenv(env, key);
    if value != "" then value else fallback
  }

  /** An unset variable and one set to the empty string both give the fallback. */
  lemma UnsetLikeEmpty(env: Env, key: string, fallback: string)
    ensures GetEnv(env - {key}, key, fallback) == GetEnv(env[key := ""], key, fallback) == fallback
  {
  }

  /** The listen address: a port without a leading `:` gets one. */
  function NormalizePort(port: string): (addr: string)
    ensures HasPrefix(addr, ":")
    ensures HasPrefix(port, ":") ==> addr == port
    ensures !HasPrefix(port, ":") ==> addr == ":" + port
  {
    if !HasPrefix(port, ":") then ":" + port else port
  }

  /** Normalising twice is normalising once. */
  lemma NormalizePortIdempotent(port: string)
    ensures NormalizePort(NormalizePort(port)) == NormalizePort(port)
  {
  }

  /** The address always ends with the configured port, with at most one `:` added in front. */
  lemma NormalizePortKeepsPort(port: string)
    ensures NormalizePort(port) == ":" + TrimPrefix(port, ":")
  {
  }

  const DefaultPort := "8080"
  const DefaultStaticDir := "static"

  /** The server settings the process starts with. */
  datatype Config = Config(port: string, staticDir: string, logEnabled: bool, allowedOrigins: string)

  /**
   * The settings read from the environment: PORT (default 8080, as `:port`),
   * STATIC_DIR (default `static`), LOG_ENABLED (on unless set to something
   * other than `true`) and ALLOWED_ORIGINS (default empty).
   */
  function LoadConfig(env: Env): (cfg: Config)
    ensures HasPrefix(cfg.port, ":")
    ensures "PORT" !in env || env["PORT"] == "" ==> cfg.port == ":8080"
    ensures cfg.staticDir != ""
    ensures "STATIC_DIR" in env && env["STATIC_DIR"] != "" ==> cfg.staticDir == env["STATIC_DIR"]
    ensures "STATIC_DIR" !in env || env["STATIC_DIR"] == "" ==> cfg.staticDir == DefaultStaticDir
    ensures cfg.logEnabled <==> "LOG_ENABLED" !in env || env["LOG_ENABLED"] == "" || env["LOG_ENABLED"] == "true"
    ensures cfg.allowedOrigins == Getenv(env, "ALLOWED_ORIGINS")
  {
    assert DefaultPort[0] != ':';
    var port := NormalizePort(GetEnv(env, "PORT", DefaultPort));
    var logEnabled := GetEnv(env, "LOG_ENABLED", "true") == "true";
    assert "LOG_ENABLED" in env && env["LOG_ENABLED"] != "" ==> (logEnabled <==> env["LOG_ENABLED"] == "true");
    Config(port, GetEnv(env, "STATIC_DIR", DefaultStaticDir), logEnabled, GetEnv(env, "ALLOWED_ORIGINS", ""))
  }

  /** A port given with its colon is used as it is; one given without gets exactly one. */
  lemma ConfiguredPort(env: Env, port: string)
    requires "PORT" in env && env["PORT"] == port && port != ""
    ensures LoadConfig(env).port == if HasPrefix(port, ":") then port else ":" + port
  {
  }
}
