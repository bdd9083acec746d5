/** The author memo, githubAuthorInfoFromUserOrEmail: a cache hit answers
    from `authors`; a miss runs up to three user searches in a fixed order
    and stores a found record under the email when there is one, else under
    the user name. `Resolve` is that call as a function of the memo before
    it; the class method in module Plugin is proved equal to it. */
module AuthorMemo {
  import opened Identity
  import Resolver

  /** What the call returns: a bare `None` (both arguments None), the pair
      `(author_id, info)`, the pair `(None, None)`, or an exception. */
  datatype Outcome = NoArgs | Found(key: string, info: Record) | NotFound | Failed(error: Error)

  /** The outcome, the memo afterwards and the queries looked up, in order. */
  datatype Step = Step(outcome: Outcome, authors: Authors, lookups: seq<Query>)

  /** `k in self.authors`, where `None` is never a key. */
  predicate Known(authors: Authors, k: Option<string>)
  {
    k.Some? && k.value in authors
  }

  /** The lookups of a miss (lines 94-125): email as `in:email`, then email as
      `in:user`, then the user name as `in:user`; each only while nothing is
      found, and an exception ends the search. */
  function Search(conn: Option<Conn>, server: Request -> Response,
                  username: Option<string>, email: Option<string>): (UserInfo, seq<Query>)
  {
    var (info, qs) :=
      if email.Some? then
        var byEmail := Resolver.GetGitUserInfo(conn, server, Query(InEmail, email.value));
        if byEmail.NoHit? then
          (Resolver.GetGitUserInfo(conn, server, Query(InUser, email.value)),
           [Query(InEmail, email.value), Query(InUser, email.value)])
        else (byEmail, [Query(InEmail, email.value)])
      else (NoHit, []);
    if username.Some? && info.NoHit? then
      (Resolver.GetGitUserInfo(conn, server, Query(InUser, username.value)), qs + [Query(InUser, username.value)])
    else (info, qs)
  }

  /** One call of githubAuthorInfoFromUserOrEmail against the memo `authors`. */
  function Resolve(authors: Authors, conn: Option<Conn>, server: Request -> Response,
                   username: Option<string>, email: Option<string>): Step
  {
    if !Known(authors, username) && !Known(authors, email) then
      if username.None? && email.None? then Step(NoArgs, authors, [])
      else
        var (info, qs) := Search(conn, server, username, email);
        match info
        case Raised(e) => Step(Failed(e), authors, qs)
        case Hit(r) =>
          var key := if email.Some? then email.value else username.value;
          Step(Found(key, r), authors[key := r], qs)
        case NoHit =>
          // the debug message of line 138 concatenates both arguments
          if username.None? || email.None? then Step(Failed(NoneConcatenation), authors, qs)
          else Step(NotFound, authors, qs)
    else
      // the user name wins when both are known (lines 141-144)
      var key := if Known(authors, username) then username.value else email.value;
      Step(Found(key, authors[key]), authors, [])
  }

  // ---------------------------------------------------------------------
  // The order of the lookups, against an independent reference.

  /** Every query a miss may try, in the order it tries them. */
  function Plan(username: Option<string>, email: Option<string>): (plan: seq<Query>)
    ensures |plan| <= 3
  {
    (if email.Some? then [Query(InEmail, email.value), Query(InUser, email.value)] else [])
    + (if username.Some? then [Query(InUser, username.value)] else [])
  }

  /** Try the queries in order; stop at the first that does not answer "none". */
  function FirstHit(conn: Option<Conn>, server: Request -> Response, plan: seq<Query>): (UserInfo, seq<Query>)
  {
    if plan == [] then (NoHit, [])
    else
      var a := Resolver.GetGitUserInfo(conn, server, plan[0]);
      if a.NoHit? then
        var (b, rest) := FirstHit(conn, server, plan[1..]);
        (b, [plan[0]] + rest)
      else (a, [plan[0]])
  }

  lemma FirstHitCons(conn: Option<Conn>, server: Request -> Response, q: Query, rest: seq<Query>)
    ensures var a := Resolver.GetGitUserInfo(conn, server, q);
      FirstHit(conn, server, [q] + rest) ==
        if a.NoHit? then (FirstHit(conn, server, rest).0, [q] + FirstHit(conn, server, rest).1) else (a, [q])
  {
    assert ([q] + rest)[1..] == rest;
  }

  lemma SearchFollowsPlan(conn: Option<Conn>, server: Request -> Response,
                          username: Option<string>, email: Option<string>)
    ensures Search(conn, server, username, email) == FirstHit(conn, server, Plan(username, email))
  {
    var tail := if username.Some? then [Query(InUser, username.value)] else [];
    if username.Some? {
      var u := Query(InUser, username.value);
      FirstHitCons(conn, server, u, []);
      assert [u] + [] == [u] && [] + [u] == [u];
      assert FirstHit(conn, server, [u]) == (Resolver.GetGitUserInfo(conn, server, u), [u]);
    }
    if email.Some? {
      var e1, e2 := Query(InEmail, email.value), Query(InUser, email.value);
      assert Plan(username, email) == [e1] + ([e2] + tail);
      FirstHitCons(conn, server, e1, [e2] + tail);
      FirstHitCons(conn, server, e2, tail);
      var a1 := Resolver.GetGitUserInfo(conn, server, e1);
      var a2 := Resolver.GetGitUserInfo(conn, server, e2);
      if a1.NoHit? && a2.NoHit? {
        if username.Some? {
          var u := Query(InUser, username.value);
          assert [e1] + ([e2] + [u]) == [e1, e2] + [u];
          assert Search(conn, server, username, email) == (Resolver.GetGitUserInfo(conn, server, u), [e1, e2] + [u]);
        } else {
          assert [e1] + ([e2] + []) == [e1, e2];
        }
      } else if a1.NoHit? {
        assert [e1] + [e2] == [e1, e2];
      }
    } else {
      assert Plan(username, email) == tail;
    }
  }

  /** FirstHit asks a prefix of the plan; each query but the last answered
      "none"; the last one's answer is the result; and the whole plan is
      asked when nothing is found. */
  lemma {:induction false} FirstHitShape(conn: Option<Conn>, server: Request -> Response, plan: seq<Query>)
    ensures var (res, asked) := FirstHit(conn, server, plan);
      && |asked| <= |plan| && asked == plan[..|asked|]
      && (forall i :: 0 <= i < |asked| - 1 ==> Resolver.GetGitUserInfo(conn, server, asked[i]).NoHit?)
      && (asked != [] ==> res == Resolver.GetGitUserInfo(conn, server, asked[|asked| - 1]))
      && (res.NoHit? ==> asked == plan)
  {
    if plan != [] {
      var a := Resolver.GetGitUserInfo(conn, server, plan[0]);
      if a.NoHit? {
        FirstHitShape(conn, server, plan[1..]);
        var (b, rest) := FirstHit(conn, server, plan[1..]);
        var asked := [plan[0]] + rest;
        assert asked == plan[..|asked|] by {
          assert rest == plan[1..][..|rest|];
        }
        forall i | 0 <= i < |asked| - 1
          ensures Resolver.GetGitUserInfo(conn, server, asked[i]).NoHit?
        {
          if i > 0 { assert asked[i] == rest[i - 1]; }
        }
        if rest != [] {
          assert asked[|asked| - 1] == rest[|rest| - 1];
        }
      }
    }
  }

  /** The lookup-order property: on a miss the queries asked are a prefix of
      `in:email e`, `in:user e`, `in:user u`; each comes only after the ones
      before it answered "none"; there are at most three; and a call that
      ends without a record asked all of them. */
  lemma LookupOrder(authors: Authors, conn: Option<Conn>, server: Request -> Response,
                    username: Option<string>, email: Option<string>)
    requires !Known(authors, username) && !Known(authors, email)
    ensures var m := Resolve(authors, conn, server, username, email);
      var plan := Plan(username, email);
      && |m.lookups| <= 3
      && m.lookups == plan[..|m.lookups|]
      && (forall i :: 0 <= i < |m.lookups| - 1 ==> Resolver.GetGitUserInfo(conn, server, m.lookups[i]).NoHit?)
      && (m.outcome.Found? ==> Resolver.GetGitUserInfo(conn, server, m.lookups[|m.lookups| - 1]) == Hit(m.outcome.info))
      && (m.outcome.NotFound? || m.outcome == Failed(NoneConcatenation) ==> m.lookups == plan)
  {
    // the three lemmas below are all the proof needs
    hide Resolve;
    hide FirstHit;
    MissFromSearch(authors, conn, server, username, email);
    SearchFollowsPlan(conn, server, username, email);
    FirstHitShape(conn, server, Plan(username, email));
  }

  /** On a miss, the lookups are those of Search, and so is the answer. */
  lemma MissFromSearch(authors: Authors, conn: Option<Conn>, server: Request -> Response,
                       username: Option<string>, email: Option<string>)
    requires !Known(authors, username) && !Known(authors, email)
    ensures var m := Resolve(authors, conn, server, username, email);
      var (info, qs) := Search(conn, server, username, email);
      && m.lookups == qs
      && (m.outcome.Found? ==> info == Hit(m.outcome.info))
      && (m.outcome.NotFound? || m.outcome == Failed(NoneConcatenation) ==> info.NoHit?)
  {
  }

  // ---------------------------------------------------------------------
  // Cache hits, storage and misses.

  /** A known user name or email answers from the memo with no lookup; the
      user name's entry wins when both are known. */
  lemma CacheHit(authors: Authors, conn: Option<Conn>, server: Request -> Response,
                 username: Option<string>, email: Option<string>)
    requires Known(authors, username) || Known(authors, email)
    ensures var m := Resolve(authors, conn, server, username, email);
      var k := if Known(authors, username) then username.value else email.value;
      m == Step(Found(k, authors[k]), authors, [])
  {
  }

  /** A record found by a search is stored under the email when there is
      one, else under the user name; that key was absent, and it is the only
      change to the memo. */
  lemma StoreOnSuccess(authors: Authors, conn: Option<Conn>, server: Request -> Response,
                       username: Option<string>, email: Option<string>)
    requires !Known(authors, username) && !Known(authors, email)
    requires Resolve(authors, conn, server, username, email).outcome.Found?
    ensures var m := Resolve(authors, conn, server, username, email);
      var k := m.outcome.key;
      && k == (if email.Some? then email.value else username.value)
      && k !in authors
      && m.authors == authors[k := m.outcome.info]
      && m.authors.Keys == authors.Keys + {k}
      && m.lookups != []
  {
  }

  /** On a miss, a record the search finds is the outcome and is stored under the
      email, when there is one. */
  lemma SearchHitStored(authors: Authors, conn: Option<Conn>, server: Request -> Response,
                        username: Option<string>, email: Option<string>, r: Record)
    requires !Known(authors, username) && !Known(authors, email) && email.Some?
    requires Search(conn, server, username, email).0 == Hit(r)
    ensures var m := Resolve(authors, conn, server, username, email);
      m.outcome == Found(email.value, r) && m.authors == authors[email.value := r]
  {
  }

  /** When nothing is found the memo is unchanged; the answer is
      `(None, None)` only when both arguments were given, and the debug
      message raises otherwise. */
  lemma Miss(authors: Authors, conn: Option<Conn>, server: Request -> Response,
             username: Option<string>, email: Option<string>)
    requires !Known(authors, username) && !Known(authors, email)
    requires username.Some? || email.Some?
    requires Search(conn, server, username, email).0.NoHit?
    ensures var m := Resolve(authors, conn, server, username, email);
      && m.authors == authors
      && (m.outcome == NotFound <==> username.Some? && email.Some?)
      && (m.outcome == Failed(NoneConcatenation) <==> username.None? || email.None?)
  {
  }

  /** The bare `None` comes exactly from two missing arguments, with no lookup. */
  lemma NoArgsExactly(authors: Authors, conn: Option<Conn>, server: Request -> Response,
                      username: Option<string>, email: Option<string>)
    ensures var m := Resolve(authors, conn, server, username, email);
      m.outcome.NoArgs? <==> username.None? && email.None?
    ensures username.None? && email.None? ==>
      Resolve(authors, conn, server, username, email) == Step(NoArgs, authors, [])
  {
  }

  /** Without a token nothing is ever found remotely: the memo is unchanged
      and every answer comes from it. */
  lemma NoTokenNoStore(authors: Authors, server: Request -> Response,
                       username: Option<string>, email: Option<string>)
    ensures var m := Resolve(authors, None, server, username, email);
      && m.authors == authors
      && (m.outcome.Found? ==> m.outcome.key in authors && m.lookups == [])
      && Resolver.Posted(None, m.lookups) == []
  {
    if !Known(authors, username) && !Known(authors, email) && (username.Some? || email.Some?) {
      SearchFollowsPlan(None, server, username, email);
      NoTokenMisses(server, Plan(username, email));
    }
  }

  lemma {:induction false} NoTokenMisses(server: Request -> Response, plan: seq<Query>)
    ensures FirstHit(None, server, plan).0 == NoHit
  {
    if plan != [] {
      NoTokenMisses(server, plan[1..]);
    }
  }

  /** The memo only grows: no entry is removed or overwritten, at most the
      returned key is added, and a returned key maps to the returned record. */
  lemma NeverOverwrites(authors: Authors, conn: Option<Conn>, server: Request -> Response,
                        username: Option<string>, email: Option<string>)
    ensures var m := Resolve(authors, conn, server, username, email);
      && (forall k :: k in authors ==> k in m.authors && m.authors[k] == authors[k])
      && (m.outcome.Found? ==>
            && m.outcome.key in m.authors && m.authors[m.outcome.key] == m.outcome.info
            && m.authors.Keys <= authors.Keys + {m.outcome.key})
      && (!m.outcome.Found? ==> m.authors == authors)
  {
  }

  /** Asking again for an author just resolved hits the cache: same key, same
      record, no lookup. */
  lemma ResolveAgain(authors: Authors, conn: Option<Conn>, server: Request -> Response,
                     username: Option<string>, email: Option<string>)
    requires Resolve(authors, conn, server, username, email).outcome.Found?
    ensures var m := Resolve(authors, conn, server, username, email);
      Resolve(m.authors, conn, server, username, email) == Step(m.outcome, m.authors, [])
  {
  }
}
