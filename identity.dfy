/** The values the plugin passes around: identity records, GraphQL queries,
    the HTTP exchange with the search endpoint, and the Python exceptions the
    core can raise, turned into values. */
module Identity {

  datatype Option<+T> = None | Some(value: T)

  /** A value, or the exception that ended the computation. */
  datatype Result<+T> = Ok(value: T) | Err(error: Error)

  /** A resolved profile, the dictionary built by get_gituser_info:
      `login`, `name` (JSON null allowed), `url` and `avatar`. */
  datatype Record = Record(login: string, name: Option<string>, url: string, avatar: string)

  /** The author memo `self.authors`: author key (email or user name) to record. */
  type Authors = map<string, Record>

  /** The two search variants: `in:email <value>` and `in:user <value>`. */
  datatype QueryKind = InEmail | InUser
  datatype Query = Query(kind: QueryKind, value: string)

  /** Where requests go once a token is configured: the GraphQL endpoint and
      the value of the `Authorization` header. */
  datatype Conn = Conn(endpoint: string, authorization: string)

  /** One POST to the GraphQL endpoint, with the search text of its query. */
  datatype Request = Request(endpoint: string, authorization: string, search: string)

  /** The `... on User { login name url }` part of the first search edge. */
  datatype Node = Node(login: string, name: Option<string>, url: string)

  /** The decoded JSON body. `data` is None when it is absent or falsy; otherwise
      it holds `data.search.edges`, each edge's node being None when it is an
      empty object (a search hit that is not a User). `errors` holds the
      messages of the top-level `errors` array (empty when absent). */
  datatype Payload = Payload(data: Option<seq<Option<Node>>>, errors: seq<string>)

  /** An HTTP response: its status and its body, None when it is not JSON. */
  datatype Response = Response(status: int, body: Option<Payload>)

  /** Exceptions the core raises. */
  datatype Error =
    | InvalidJson          // r.json() on a body that is not JSON
    | MissingErrorMessage  // falsy `data` and no `errors[0]` to read
    | NoneConcatenation    // str + None in the debug message of a miss
    | NoneUnpacking        // `author_id, info = None`

  /** What one call of get_gituser_info ends in. */
  datatype UserInfo = Hit(info: Record) | NoHit | Raised(error: Error)
}
