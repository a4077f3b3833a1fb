/**
 `handle_request`: the dispatch of one HTTP request on its method and exact
 URL, and the response each branch produces. Query strings and trailing
 slashes are not stripped, so `/query?x=1` and `/query/` are not `/query`.
 */
module Routing {
  import opened Wrappers
  import FormData
  import Query
  import Config

  /** The request methods the HTTP library distinguishes. */
  datatype Method = Get | Head | Post | Put | Delete | Connect | Options | Trace | Patch | NonStandard(name: string)

  /** The branch of the dispatch a request lands in. */
  datatype Route = Banner | ShowConfig | RunQuery | ShowStats | NotFound | MethodNotAllowed

  /** The four handled (method, URL) pairs. */
  const Handlers: map<(Method, string), Route> :=
    map[(Get, "/") := Banner, (Get, "/config") := ShowConfig,
        (Post, "/query") := RunQuery, (Post, "/stats") := ShowStats]

  /** The dispatch on method first, then on the exact URL string. */
  function RouteOf(m: Method, url: string): (r: Route)
    ensures (m, url) in Handlers ==> r == Handlers[(m, url)]
    ensures (m, url) !in Handlers && (m == Get || m == Post) ==> r == NotFound
    ensures m != Get && m != Post ==> r == MethodNotAllowed
  {
    match m
    case Get =>
      if url == "/" then Banner
      else if url == "/config" then ShowConfig
      else NotFound
    case Post =>
      if url == "/query" then RunQuery
      else if url == "/stats" then ShowStats
      else NotFound
    case _ => MethodNotAllowed
  }

  /** The status code of each branch; the library's default is 200. */
  function StatusCode(r: Route): nat
  {
    match r
    case NotFound => 404
    case MethodNotAllowed => 405
    case _ => 200
  }

  /** 200 exactly for the handled pairs, 404 for other GET/POST URLs, 405 otherwise. */
  lemma StatusClassification(m: Method, url: string)
    ensures StatusCode(RouteOf(m, url)) == 200 <==> (m, url) in Handlers
    ensures StatusCode(RouteOf(m, url)) == 404 <==> (m == Get || m == Post) && (m, url) !in Handlers
    ensures StatusCode(RouteOf(m, url)) == 405 <==> m != Get && m != Post
  {
  }

  /** Only the four exact URLs are ever handled, whatever the method. */
  lemma HandledUrls(m: Method, url: string)
    requires StatusCode(RouteOf(m, url)) == 200
    ensures url == "/" || url == "/config" || url == "/query" || url == "/stats"
  {
  }

  /** What `get_database_stats` gets from the database: no connection, or four count queries, each of which may fail. */
  datatype StatsAnswer =
    | CannotConnect
    | Connected(total: Option<int>, phones: Option<int>, qqs: Option<int>, emails: Option<int>)

  /** The statistics page: four counts, or the connection error text. */
  datatype Stats = Counts(total: int, uniquePhones: int, uniqueQqs: int, uniqueEmails: int) | ConnectError

  /** `get_database_stats`: a failed count is reported as 0. */
  function DatabaseStats(a: StatsAnswer): (s: Stats)
    ensures s.ConnectError? <==> a.CannotConnect?
    ensures a.Connected? && a.total.None? ==> s.total == 0
    ensures a.Connected? && a.total.Some? ==> s.total == a.total.value
    ensures a.Connected? && a.phones.None? ==> s.uniquePhones == 0
    ensures a.Connected? && a.phones.Some? ==> s.uniquePhones == a.phones.value
    ensures a.Connected? && a.qqs.None? ==> s.uniqueQqs == 0
    ensures a.Connected? && a.qqs.Some? ==> s.uniqueQqs == a.qqs.value
    ensures a.Connected? && a.emails.None? ==> s.uniqueEmails == 0
    ensures a.Connected? && a.emails.Some? ==> s.uniqueEmails == a.emails.value
  {
    match a
    case CannotConnect => ConnectError
    case Connected(t, p, q, e) => Counts(t.GetOr(0), p.GetOr(0), q.GetOr(0), e.GetOr(0))
  }

  /** The response body, with JSON and HTML rendering left abstract. */
  datatype Body =
    | Text(text: string)
    | ConfigJson(config: Config.ServerConfig)
    | UsersJson(users: seq<Query.UserInfo>)
    | StatsPage(stats: Stats)

  /** A response: status, explicit `Content-Type` (`None` keeps the library default), body. */
  datatype Response = Response(status: nat, contentType: Option<string>, body: Body)

  /**
   One request handled. `content` is the request body as read, `shared` the
   shared configuration, `db` the user table, `stats` what the statistics
   queries return.
   */
  function HandleRequest(m: Method, url: string, content: string, shared: Config.ServerConfig,
                         db: Query.Database, stats: StatsAnswer): (resp: Response)
    ensures resp.status == StatusCode(RouteOf(m, url))
    ensures resp.status == 404 ==> resp.body == Text("Not Found") && resp.contentType.None?
    ensures resp.status == 405 ==> resp.body == Text("Method Not Allowed") && resp.contentType.None?
    ensures m == Get && url == "/" ==> resp.body == Text("User Data Server Running") && resp.contentType.None?
    ensures m == Get && url == "/config" ==>
              resp.body == ConfigJson(shared) && resp.contentType == Some("application/json")
    ensures m == Post && url == "/query" ==>
              resp.body == UsersJson(Query.QueryDatabase(FormData.ParseFormData(content), db)) &&
              resp.contentType == Some("application/json")
    ensures m == Post && url == "/stats" ==>
              resp.body == StatsPage(DatabaseStats(stats)) && resp.contentType == Some("text/html")
  {
    var route := RouteOf(m, url);
    var status := StatusCode(route);
    match route
    case Banner => Response(status, None, Text("User Data Server Running"))
    case ShowConfig => Response(status, Some("application/json"), ConfigJson(shared))
    case RunQuery =>
      Response(status, Some("application/json"), UsersJson(Query.QueryDatabase(FormData.ParseFormData(content), db)))
    case ShowStats => Response(status, Some("text/html"), StatsPage(DatabaseStats(stats)))
    case NotFound => Response(status, None, Text("Not Found"))
    case MethodNotAllowed => Response(status, None, Text("Method Not Allowed"))
  }

  /**
   Outside `POST /query` and `POST /stats` the database plays no part in the
   response, and the request body is read only by `POST /query`.
   */
  lemma DatabaseOnlyOnPostRoutes(m: Method, url: string, c1: string, c2: string, shared: Config.ServerConfig,
                                 db1: Query.Database, db2: Query.Database, s1: StatsAnswer, s2: StatsAnswer)
    requires !(m == Post && (url == "/query" || url == "/stats"))
    ensures HandleRequest(m, url, c1, shared, db1, s1) == HandleRequest(m, url, c2, shared, db2, s2)
  {
  }

  /**
   A query whose body names none of `phone`, `qq`, `email` answers 200 with
   an empty user list, whatever the database holds.
   */
  lemma QueryWithoutKeyIsEmpty(content: string, shared: Config.ServerConfig, db: Query.Database, stats: StatsAnswer)
    requires var form := FormData.ParseFormData(content);
             "phone" !in form && "qq" !in form && "email" !in form
    ensures HandleRequest(Post, "/query", content, shared, db, stats) == Response(200, Some("application/json"), UsersJson([]))
  {
  }

  /**
   Starting with a configuration string that does not decode, `GET /config`
   then reports the default configuration.
   */
  lemma ConfigEndpointAfterFallback(s: string, decode: Config.Decoder, content: string,
                                    db: Query.Database, stats: StatsAnswer)
    requires decode(s).None?
    ensures var shared := Config.Publish(Config.Default, Config.StartServer(false, Some(s), decode));
            HandleRequest(Get, "/config", content, shared, db, stats).body == ConfigJson(Config.Default)
  {
  }
}
