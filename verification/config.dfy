/**
 The server configuration and the start-up decision that chooses it: a
 configuration string that does not decode falls back to the default
 configuration instead of refusing to start. JSON decoding is represented by
 an arbitrary partial function from the configuration string.
 */
module Config {
  import opened Wrappers

  /** Rust's `u16`, the type of the listening port. */
  newtype u16 = x: int | 0 <= x < 0x1_0000

  datatype ServerConfig = ServerConfig(dbPath: string, port: u16)

  const DefaultDbPath: string := "/data/data/com.example.userdata_rust/files/user_data.db"
  const DefaultPort: u16 := 8080

  /** `ServerConfig::default`; also the value the shared configuration starts with. */
  const Default: ServerConfig := ServerConfig(DefaultDbPath, DefaultPort)

  /** A decoder for configuration strings: `None` when the text does not decode. */
  type Decoder = string -> Option<ServerConfig>

  /**
   The configuration a decode attempt leaves the server with: the decoded
   value, or the default when decoding failed.
   */
  function EffectiveConfig(decoded: Option<ServerConfig>): (c: ServerConfig)
    ensures decoded.None? ==> c == Default
    ensures decoded.Some? ==> c == decoded.value
    ensures c == Default || decoded == Some(c)
  {
    decoded.GetOr(Default)
  }

  /** How a start request ends, before any thread is spawned. */
  datatype StartOutcome = AlreadyRunning | InvalidConfigString | Started(config: ServerConfig)

  /**
   The decision made by the start entry point. `running` is the server flag
   as read on entry; `configString` is the text fetched from the caller, or
   `None` when it could not be fetched.
   */
  function StartServer(running: bool, configString: Option<string>, decode: Decoder): (r: StartOutcome)
    ensures r.AlreadyRunning? <==> running
    ensures r.InvalidConfigString? <==> !running && configString.None?
    ensures r.Started? <==> !running && configString.Some?
    ensures r.Started? && decode(configString.value).None? ==> r.config == Default
    ensures r.Started? && decode(configString.value).Some? ==> r.config == decode(configString.value).value
  {
    if running then AlreadyRunning
    else
      match configString
      case None => InvalidConfigString
      case Some(s) => Started(EffectiveConfig(decode(s)))
  }

  /** The text returned to the caller for each outcome. */
  function StartMessage(r: StartOutcome): string
  {
    match r
    case AlreadyRunning => "Server is already running"
    case InvalidConfigString => "Invalid config string"
    case Started(_) => "Server started successfully"
  }

  /** A malformed configuration never prevents the start: the default is used. */
  lemma MalformedConfigUsesDefault(s: string, decode: Decoder)
    requires decode(s).None?
    ensures StartServer(false, Some(s), decode) == Started(Default)
    ensures StartServer(false, Some(s), decode).config.port == 8080
    ensures StartServer(false, Some(s), decode).config.dbPath == "/data/data/com.example.userdata_rust/files/user_data.db"
    ensures StartMessage(StartServer(false, Some(s), decode)) == "Server started successfully"
  {
  }

  /** The returned text tells the three outcomes apart. */
  lemma StartMessageDistinguishes(r1: StartOutcome, r2: StartOutcome)
    requires StartMessage(r1) == StartMessage(r2)
    ensures r1.AlreadyRunning? == r2.AlreadyRunning?
    ensures r1.InvalidConfigString? == r2.InvalidConfigString?
    ensures r1.Started? == r2.Started?
  {
  }

  /**
   The shared configuration that `GET /config` reports: replaced by the
   chosen configuration on a start, untouched otherwise.
   */
  function Publish(shared: ServerConfig, r: StartOutcome): (c: ServerConfig)
    ensures r.Started? ==> c == r.config
    ensures !r.Started? ==> c == shared
  {
    match r
    case Started(config) => config
    case _ => shared
  }
}
