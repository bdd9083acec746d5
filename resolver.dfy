/** The remote identity resolver, get_gituser_info: one GraphQL user search,
    reduced to the query, the request it sends and the extraction of a
    record from the response. The HTTP round trip is the `server` oracle. */
module Resolver {
  import opened Identity

  /** The search text interpolated into the GraphQL query; the value is
      inserted raw, without escaping. */
  function SearchString(q: Query): string
  {
    (match q.kind
     case InEmail => "in:email "
     case InUser => "in:user ") + q.value
  }

  /** Different queries give different search texts, so the request log
      identifies which variant was asked for and with which value. */
  lemma SearchStringInjective(q1: Query, q2: Query)
    requires SearchString(q1) == SearchString(q2)
    ensures q1 == q2
  {
    var s := SearchString(q1);
    assert s[3] == (if q1.kind == InEmail then 'e' else 'u');
    assert s[3] == (if q2.kind == InEmail then 'e' else 'u');
    var n := if q1.kind == InEmail then 9 else 8;
    assert q1.value == s[n..];
    assert q2.value == s[n..];
  }

  /** The first node of the search, when the body has a truthy `data`, at
      least one edge and a non-empty node. */
  function FirstNode(p: Payload): Option<Node>
  {
    if p.data.Some? && |p.data.value| > 0 then p.data.value[0] else None
  }

  /** Turns a response into a record, or into "none" or an exception. */
  function Extract(r: Response): (res: UserInfo)
    // JSON decoding comes before the status check
    ensures r.body.None? ==> res == Raised(InvalidJson)
    ensures res.Hit? <==> r.status == 200 && r.body.Some? && FirstNode(r.body.value).Some?
    ensures res.Hit? ==>
      var n := FirstNode(r.body.value).value;
      res.info == Record(n.login, n.name, n.url, n.url + ".png")
    ensures res.Raised? <==>
      r.body.None? || (r.status == 200 && r.body.value.data.None? && r.body.value.errors == [])
    ensures r.body.Some? && res.Raised? ==> res.error == MissingErrorMessage
  {
    if r.body.None? then Raised(InvalidJson)
    else if r.status == 200 then
      var p := r.body.value;
      if p.data.Some? then
        if |p.data.value| > 0 then
          match p.data.value[0]
          case Some(n) => Hit(Record(n.login, n.name, n.url, n.url + ".png"))
          case None => NoHit
        else NoHit
      else if |p.errors| > 0 then NoHit  // errors[0] is only logged
      else Raised(MissingErrorMessage)
    else NoHit
  }

  /** The request sent for query `q`. */
  function RequestFor(c: Conn, q: Query): Request
  {
    Request(c.endpoint, c.authorization, SearchString(q))
  }

  /** get_gituser_info: without an auth header it answers "none" at once. */
  function GetGitUserInfo(conn: Option<Conn>, server: Request -> Response, q: Query): UserInfo
  {
    if conn.None? then NoHit else Extract(server(RequestFor(conn.value, q)))
  }

  /** The requests actually posted when the queries `qs` are looked up. */
  function Posted(conn: Option<Conn>, qs: seq<Query>): (rs: seq<Request>)
    ensures conn.None? ==> rs == []
    ensures conn.Some? ==> |rs| == |qs| && forall i :: 0 <= i < |qs| ==> rs[i] == RequestFor(conn.value, qs[i])
  {
    if conn.None? || qs == [] then []
    else [RequestFor(conn.value, qs[0])] + Posted(conn, qs[1..])
  }

  lemma {:induction false} PostedAppend(conn: Option<Conn>, a: seq<Query>, b: seq<Query>)
    ensures Posted(conn, a + b) == Posted(conn, a) + Posted(conn, b)
  {
    if conn.Some? {
      assert |Posted(conn, a + b)| == |Posted(conn, a) + Posted(conn, b)|;
      forall i | 0 <= i < |a + b|
        ensures Posted(conn, a + b)[i] == (Posted(conn, a) + Posted(conn, b))[i]
      {
        if i < |a| {
          assert (a + b)[i] == a[i];
        } else {
          assert (a + b)[i] == b[i - |a|];
        }
      }
    }
  }

  /** A log grown by the requests of `a` and then of `b` is the log grown
      by those of `a + b`. */
  lemma PostedExtend(conn: Option<Conn>, log: seq<Request>, a: seq<Query>, b: seq<Query>)
    ensures log + Posted(conn, a) + Posted(conn, b) == log + Posted(conn, a + b)
  {
    PostedAppend(conn, a, b);
    AppendAssociates(log, Posted(conn, a), Posted(conn, b));
  }

  /** Stated once for any element type, so that the log proofs need not
      rediscover it among the request terms. */
  lemma AppendAssociates<T>(x: seq<T>, y: seq<T>, z: seq<T>)
    ensures x + y + z == x + (y + z)
  {
  }

  /** The request log tells which queries were looked up: two runs of
      queries posted with a token give the same requests only if they are
      the same run. */
  lemma PostedDetermines(conn: Option<Conn>, a: seq<Query>, b: seq<Query>)
    requires conn.Some? && Posted(conn, a) == Posted(conn, b)
    ensures a == b
  {
    forall i | 0 <= i < |a|
      ensures a[i] == b[i]
    {
      assert Posted(conn, a)[i] == RequestFor(conn.value, a[i]);
      SearchStringInjective(a[i], b[i]);
    }
  }

  /** No token, no answer: every lookup is "none". */
  lemma NoTokenNoHit(server: Request -> Response, q: Query)
    ensures GetGitUserInfo(None, server, q) == NoHit
  {
  }

  /** An empty edge list, an empty first node or a status other than 200
      gives "none" (a body that is JSON is assumed). */
  lemma EmptyAnswers(r: Response)
    requires r.body.Some?
    requires r.status != 200 || (r.body.value.data.Some? && FirstNode(r.body.value).None?)
    ensures Extract(r) == NoHit
  {
  }
}
