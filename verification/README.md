# userdata_rust request logic in Dafny

A model of the decision logic of the Rust library behind the Android
"userdata" app. The library serves a small HTTP API over an SQLite `users`
table (columns `email`, `phone`, `qq`). The model covers four pure pieces:

- **Form parsing** (`FormData`). The `POST /query` body is split on every `&`.
  Each piece is split at its first `=`. Pieces with an `=` go into a
  key/value map, and a later key replaces an earlier one. Nothing is
  percent-decoded and `+` stays `+`. The result is characterised
  declaratively: a key is present exactly when some piece binds it, and its
  value comes from the last piece that binds it. `Split` is proved to be the
  inverse of `Join`. Parsing a concatenation is proved to be a right-biased
  map union when the two parts are joined by `&`.
- **Query selection** (`Query`). The lookup column is chosen by priority:
  `phone`, then `qq`, then `email`. The raw form value is bound as `?1`. With
  none of the three keys there is no lookup and the result is the empty
  list. The database is a function from statement text and parameter to
  rows. Each row is either a user, whose columns may be absent, or a row
  error reported by the library; row errors are skipped.
- **Routing** (`Routing`). Dispatch is on the method, then on the exact URL.
  GET `/`, GET `/config`, POST `/query` and POST `/stats` are handled with
  status 200. Any other GET or POST URL gives 404 "Not Found". Any other
  method gives 405 "Method Not Allowed". The routing is checked against an
  independent table of handled pairs.
- **Configuration fallback** (`Config`). A configuration string that does
  not decode is replaced by the default: port 8080 and database path
  `/data/data/com.example.userdata_rust/files/user_data.db`. JSON decoding
  is an arbitrary partial function, passed in as a parameter.

Files: `wrappers.dfy` (Option), `form_data.dfy`, `query.dfy`, `config.dfy`,
`routing.dfy`.

## Model

| member | source | states |
|---|---|---|
| FormData.Split | userdata_rust/src/lib.rs:270 | `split('&')` gives at least one piece; no piece contains `&`; joining the pieces with `&` gives back the body |
| FormData.SplitJoin | userdata_rust/src/lib.rs:270 | splitting a join of `&`-free pieces recovers exactly those pieces (split and join are inverses) |
| FormData.SplitPiecesAreInfixes | userdata_rust/src/lib.rs:270 | every piece occurs verbatim as a substring of the body |
| FormData.SplitOnce | userdata_rust/src/lib.rs:271 | `split_once('=')` gives nothing exactly when there is no `=`; otherwise the key has no `=` and key + `=` + value is the piece |
| FormData.SplitOnceGlue | userdata_rust/src/lib.rs:271 | for an `=`-free key, splitting key + `=` + value gives back that key and value, even when the value contains `=` |
| FormData.CollectKey | userdata_rust/src/lib.rs:269-275 | the insertion loop holds key k exactly when some piece binds k, and holds the value of the last piece that binds k |
| FormData.ParseFormData | userdata_rust/src/lib.rs:268-276 | the parsed map holds a key exactly when some `&`-piece binds it, with the value of the last such piece |
| FormData.ParseAppend | userdata_rust/src/lib.rs:270-272 | parsing `a&b` gives the map of `a` overridden by the map of `b` |
| FormData.ParseSingleBinding | userdata_rust/src/lib.rs:271-272 | the body `k=v` parses to exactly `{k: v}`; `=x` gives the empty key, and `a=b=c` gives `a` the value `b=c` |
| FormData.ParseWithoutEquals | userdata_rust/src/lib.rs:270-273 | a body with no `=` parses to the empty map; the empty body is one such body |
| FormData.SegmentWithoutEqualsIgnored | userdata_rust/src/lib.rs:271-273 | appending a piece with no `=` leaves the map unchanged |
| FormData.LastBindingWins | userdata_rust/src/lib.rs:270-272 | a trailing `k=v` sets k to v, whatever bindings of k came before |
| FormData.EntriesAreVerbatim | userdata_rust/src/lib.rs:270-272 | every entry k, v comes from a piece that is literally `k=v` and occurs in the body (no decoding) |
| Query.SelectLookup | userdata_rust/src/lib.rs:282-290 | no lookup exactly when none of phone, qq, email is present; otherwise the chosen key is present, the parameter is its raw value, and no higher-priority key is present |
| Query.SelectLookupUnique | userdata_rust/src/lib.rs:282-290 | any lookup meeting those three conditions is the selected one, so the priority rule fixes the choice |
| Query.PhoneTakesPriority | userdata_rust/src/lib.rs:282-283 | if `phone` is present it is used, whatever `qq` and `email` hold |
| Query.TrailingPhoneSelected | userdata_rust/src/lib.rs:282-287 | a body ending in `&phone=v` searches by phone with the undecoded `v` |
| Query.KeepDecoded | userdata_rust/src/lib.rs:301-305 | the kept users are exactly the non-error rows, and there are no more of them than rows |
| Query.KeepDecodedAppend | userdata_rust/src/lib.rs:301-305 | skipping row errors keeps the order of the remaining users |
| Query.QueryDatabase | userdata_rust/src/lib.rs:279-311 | with no selected key, or a failed open/prepare/run, the result is empty; otherwise it is exactly the non-error rows of the selected statement's answer, in order |
| Query.NoKeyNoAccess | userdata_rust/src/lib.rs:288-292 | without phone, qq or email the result is empty and the same for every database |
| Query.OnlySelectedLookupConsulted | userdata_rust/src/lib.rs:292-294 | the result depends on the database only through its answer to the selected statement and raw parameter |
| Config.EffectiveConfig | userdata_rust/src/lib.rs:66-72 | a failed decode yields the default configuration; a successful one yields the decoded value |
| Config.StartServer | userdata_rust/src/lib.rs:52-74 | already running, string not fetched, and started are decided in that order; a started server uses the decoded configuration or the default |
| Config.MalformedConfigUsesDefault | userdata_rust/src/lib.rs:29-36 | a configuration that does not decode still starts the server, with port 8080 and the fixed database path |
| Config.StartMessageDistinguishes | userdata_rust/src/lib.rs:52-91 | the three returned messages tell the three outcomes apart |
| Config.Publish | userdata_rust/src/lib.rs:74 | the shared configuration is replaced by the chosen one on a start and is otherwise unchanged |
| Routing.RouteOf | userdata_rust/src/lib.rs:211-265 | the nested dispatch agrees with the table of four handled pairs; other GET/POST URLs are Not Found; other methods are Method Not Allowed |
| Routing.StatusClassification | userdata_rust/src/lib.rs:212-264 | status 200 iff a handled pair, 404 iff GET/POST with any other URL, 405 iff any other method |
| Routing.HandledUrls | userdata_rust/src/lib.rs:214-258 | only the four exact URLs `/`, `/config`, `/query`, `/stats` are ever answered with 200 |
| Routing.DatabaseStats | userdata_rust/src/lib.rs:314-332 | no connection gives the error page; otherwise each count is the query's value, or 0 when that query failed |
| Routing.HandleRequest | userdata_rust/src/lib.rs:211-265 | the status follows the route; the body and content type of each branch are as listed, and `/query` answers with the users for the parsed body |
| Routing.DatabaseOnlyOnPostRoutes | userdata_rust/src/lib.rs:211-265 | outside POST `/query` and POST `/stats` the response does not depend on the database or on the request body |
| Routing.QueryWithoutKeyIsEmpty | userdata_rust/src/lib.rs:235-245 | a query body with none of the three keys gets 200 with an empty JSON user list |
| Routing.ConfigEndpointAfterFallback | userdata_rust/src/lib.rs:219-224 | after a start whose configuration did not decode, GET `/config` reports the default configuration |

## Left out

- JNI marshalling (`JNIEnv`, `jstring`) in the entry points: these are foreign calls into the JVM. The start decision keeps only the flag it reads and whether the string could be fetched.
- The server lifecycle: the `SERVER_RUNNING` flag, the shutdown channel, thread spawning, sleeps and the poll loop in `start_http_server`, `stopServer` and `getServerStatus`. This is concurrency and timing, not pure logic.
- `start_http_server`'s checks that the database file exists and that the port can be bound. These are filesystem and network effects.
- The tiny_http request and response I/O. The request body is taken as the string already read. A failed `read_to_string` is not modelled separately.
- SQL semantics and `testDatabase`. The database is an arbitrary function from statement and parameter to rows. Failure to open, prepare or run the statement is one `Failed` answer. Per-column decoding of a row is already done inside `UserInfo`.
- serde JSON encoding and decoding. Decoding is an arbitrary partial function. The JSON and HTML bodies are abstract payloads (`ConfigJson`, `UsersJson`, `StatsPage`), not rendered text.
- The library's default `Content-Type` for plain-text responses is modelled as "no explicit header" (`None`).
- Routing.DatabaseStats: the counts are unbounded integers rather than `i64`; the SQL counts cannot exceed that range anyway.
- Logging (`android_logger::init_once`, and the `info!`, `warn!` and `error!` calls, including the warning on the configuration fallback): these are output effects with no bearing on any result.
- `MainActivity.java` (Android UI, file picker, file copying, log view): UI and I/O with no logic of its own.
- The Python directory tools in the repository (`映射.py`, `总结.py`) are not part of this model.
