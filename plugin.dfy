/** GitCommittersPlugin itself: the object whose fields the host's build
    lifecycle updates (on_config, on_pre_build, on_page_context,
    on_post_build) and whose memo `authors` grows page after page. The
    HTTP round trip (`server`), the git history of a path (`git`) and date
    formatting (`formatDate`) are parameters; the ghost `posted` is the
    list of requests sent to the GraphQL endpoint so far. */
module Plugin {
  import opened Identity
  import Resolver
  import AuthorMemo
  import Collector
  import Settings
  import EmailCleanup

  /** What the page hook reads of a page: `page.file.src_path` and the
      `contributors` entry of `page.meta`, if any. */
  datatype Page = Page(srcPath: string, contributors: Option<string>)

  /** The template context: the two entries the hook writes, and whatever
      else the host put there. */
  datatype ContextValue = Committers(records: seq<Record>) | LastCommitDate(date: string) | HostValue(text: string)
  type Context = map<string, ContextValue>

  /** The files the cache hooks see: path to the memo stored there. */
  type Store = map<string, Authors>

  function CachePath(cacheDir: string): string
  {
    cacheDir + "/authors.json"
  }

  /** on_post_build: the whole memo is written to `<cache_dir>/authors.json`. */
  function Saved(store: Store, cacheDir: string, authors: Authors): Store
  {
    store[CachePath(cacheDir) := authors]
  }

  /** on_pre_build: a stored memo replaces the one in memory wholesale. */
  function Loaded(store: Store, cacheDir: string, authors: Authors): Authors
  {
    if CachePath(cacheDir) in store then store[CachePath(cacheDir)] else authors
  }

  /** Saving and then loading, in this or a later build, gives back the
      memo that was saved, whatever the new process started with. */
  lemma SaveLoadRoundTrip(store: Store, cacheDir: string, authors: Authors, current: Authors)
    ensures Loaded(Saved(store, cacheDir, authors), cacheDir, current) == authors
  {
  }

  /** The context entries of lines 190 and 196-199 for an enabled plugin. */
  function Decorate(ctx: Context, committers: seq<Record>, date: string): (r: Context)
    // `committers` was reset to [] first, so it always ends as the list
    ensures "committers" in r && r["committers"] == Committers(committers)
    ensures "last_commit_date" in r <==> "last_commit_date" in ctx || date != ""
    ensures date != "" ==> r["last_commit_date"] == LastCommitDate(date)
    ensures r.Keys == ctx.Keys + {"committers"} + (if date != "" then {"last_commit_date"} else {})
    ensures forall k :: k in ctx && k != "committers" && !(k == "last_commit_date" && date != "") ==> r[k] == ctx[k]
  {
    var reset := ctx["committers" := Committers([])];
    var listed := if committers != [] then reset["committers" := Committers(committers)] else reset;
    if date != "" then listed["last_commit_date" := LastCommitDate(date)] else listed
  }

  class GitCommittersPlugin {
    var config: Settings.Config
    var enabled: bool
    var branch: string
    var authHeader: Option<string>
    var apiEndpoint: Option<string>
    var authors: Authors
    ghost var posted: seq<Request>

    /** on_config sets the endpoint whenever it sets the header. */
    ghost predicate Valid()
      reads this`authHeader, this`apiEndpoint
    {
      authHeader.Some? ==> apiEndpoint.Some?
    }

    /** `hasattr(self, 'auth_header')`, with where the requests go. */
    function Connection(): Option<Conn>
      requires Valid()
      reads this`authHeader, this`apiEndpoint
    {
      if authHeader.Some? then Some(Conn(apiEndpoint.value, authHeader.value)) else None
    }

    /** __init__, with the configuration the host loads into the plugin. */
    constructor (config: Settings.Config)
      ensures Valid()
      ensures this.config == config && enabled && branch == "master"
      ensures authHeader.None? && apiEndpoint.None? && authors == map[] && posted == []
    {
      this.config := config;
      enabled := true;
      branch := "master";
      authHeader := None;
      apiEndpoint := None;
      authors := map[];
      posted := [];
    }

    /** on_config. A disabled plugin returns at once; an enabled one takes
        the token from the environment when none is configured, sets the
        header only for a non-empty token, and always sets the endpoint. */
    method OnConfig(env: map<string, string>)
      requires Valid()
      modifies this`config, this`enabled, this`authHeader, this`apiEndpoint, this`branch
      ensures Valid()
      ensures enabled == old(config.enabled)
      ensures !enabled ==> config == old(config) && authHeader == old(authHeader)
                           && apiEndpoint == old(apiEndpoint) && branch == old(branch)
      ensures enabled ==>
        var token := Settings.EffectiveToken(old(config.token), env);
        && config == old(config).(token := token)
        && authHeader == (if token != "" then Settings.AuthHeader(token) else old(authHeader))
        && apiEndpoint == Some(Settings.ApiEndpoint(config.enterpriseHostname))
        && branch == config.branch
    {
      enabled := config.enabled;
      if !enabled {
        return;
      }
      if config.token == "" && Settings.ApiKeyVariable in env {
        config := config.(token := env[Settings.ApiKeyVariable]);
      }
      if config.token != "" {
        authHeader := Some("token " + config.token);
      }
      if config.enterpriseHostname != "" {
        apiEndpoint := Some("https://" + config.enterpriseHostname + "/api/graphql");
      } else {
        apiEndpoint := Some(Settings.PublicEndpoint);
      }
      branch := config.branch;
    }

    /** get_gituser_info: no request without a header; otherwise one POST,
        then the extraction of the answer. */
    method GetGitUserInfo(q: Query, server: Request -> Response) returns (info: UserInfo)
      requires Valid()
      modifies this`posted
      ensures info == Resolver.GetGitUserInfo(Connection(), server, q)
      ensures posted == old(posted) + Resolver.Posted(Connection(), [q])
    {
      if authHeader.None? {
        return NoHit;
      }
      var request := Request(apiEndpoint.value, authHeader.value, Resolver.SearchString(q));
      posted := posted + [request];
      var response := server(request);
      info := Resolver.Extract(response);
    }

    /** The lookups of a miss (lines 94-125): at most three searches, each
        only while nothing is found; an exception stops them. */
    method SearchAuthor(username: Option<string>, email: Option<string>, server: Request -> Response)
      returns (info: UserInfo, ghost qs: seq<Query>)
      requires Valid()
      modifies this`posted
      ensures (info, qs) == AuthorMemo.Search(Connection(), server, username, email)
      ensures posted == old(posted) + Resolver.Posted(Connection(), qs)
    {
      ghost var conn := Connection();
      info, qs := NoHit, [];
      if email.Some? {
        info := GetGitUserInfo(Query(InEmail, email.value), server);
        qs := [Query(InEmail, email.value)];
        if info.Raised? {
          return;
        }
        if info.NoHit? {
          info := GetGitUserInfo(Query(InUser, email.value), server);
          Resolver.PostedExtend(conn, old(posted), qs, [Query(InUser, email.value)]);
          qs := qs + [Query(InUser, email.value)];
          assert qs == [Query(InEmail, email.value), Query(InUser, email.value)];
          if info.Raised? {
            return;
          }
        }
      }
      if username.Some? && info.NoHit? {
        info := GetGitUserInfo(Query(InUser, username.value), server);
        Resolver.PostedExtend(conn, old(posted), qs, [Query(InUser, username.value)]);
        qs := qs + [Query(InUser, username.value)];
      }
    }

    /** githubAuthorInfoFromUserOrEmail, proved to be AuthorMemo.Resolve. */
    method GithubAuthorInfoFromUserOrEmail(username: Option<string>, email: Option<string>,
                                           server: Request -> Response)
      returns (o: AuthorMemo.Outcome)
      requires Valid()
      modifies this`authors, this`posted
      ensures var m := AuthorMemo.Resolve(old(authors), Connection(), server, username, email);
        o == m.outcome && authors == m.authors
        && posted == old(posted) + Resolver.Posted(Connection(), m.lookups)
    {
      if !AuthorMemo.Known(authors, username) && !AuthorMemo.Known(authors, email) {
        if username.None? && email.None? {
          return AuthorMemo.NoArgs;
        }
        var info, qs := SearchAuthor(username, email, server);
        if info.Raised? {
          return AuthorMemo.Failed(info.error);
        }
        if info.Hit? {
          var key := if email.Some? then email.value else username.value;
          authors := authors[key := info.info];
          return AuthorMemo.Found(key, info.info);
        }
        if username.None? || email.None? {
          return AuthorMemo.Failed(NoneConcatenation);
        }
        return AuthorMemo.NotFound;
      }
      var key: string;
      if AuthorMemo.Known(authors, email) {
        key := email.value;
      }
      if AuthorMemo.Known(authors, username) {
        key := username.value;
      }
      return AuthorMemo.Found(key, authors[key]);
    }
  
    /** The shared part of both loop bodies of get_git_info (lines 165-169
        and 176-183): resolve the author and append the memo's record when
        its key is new; an exception comes back as `error`. `asked` are the
        queries this call looks up. */
    method VisitAuthor(seen: seq<string>, unique: seq<Record>, username: Option<string>, email: Option<string>,
                       server: Request -> Response, ghost formatDate: int -> string,
                       ghost date: string, ghost lookups: seq<Query>)
      returns (seen': seq<string>, unique': seq<Record>, error: Option<Error>, ghost asked: seq<Query>)
      requires Valid()
      modifies this`authors, this`posted
      ensures Collector.Visit(Collector.Env(Connection(), server, formatDate),
                              Collector.Acc(seen, unique, date, old(authors), lookups, None), username, email)
              == Collector.Acc(seen', unique', date, authors, lookups + asked, error)
      ensures posted == old(posted) + Resolver.Posted(Connection(), asked)
    {
      ghost var m := AuthorMemo.Resolve(authors, Connection(), server, username, email);
      AuthorMemo.NeverOverwrites(authors, Connection(), server, username, email);
      var o := GithubAuthorInfoFromUserOrEmail(username, email, server);
      asked := m.lookups;
      seen', unique', error := seen, unique, None;
      match o {
        case NoArgs =>
          error := Some(NoneUnpacking);
        case Failed(e) =>
          error := Some(e);
        case NotFound =>
        case Found(k, _) =>
          if k !in seen {
            seen' := seen + [k];
            unique' := unique + [authors[k]];
          }
      }
    }

    /** get_git_info, proved to be Collector.GitInfo on the memo as it was
        before the call: the commit loop (lines 156-169) and the metadata
        loop (lines 173-183), the first commit's date, the de-duplication by
        key, and the exception that ends the walk (the memo keeps what was
        added before it). */
    method GetGitInfo(path: string, git: string -> seq<Collector.Commit>, contributors: Option<string>,
                      server: Request -> Response, formatDate: int -> string)
      returns (r: Result<Collector.Contribution>)
      requires Valid()
      modifies this`authors, this`posted
      ensures var g := Collector.GitInfo(Collector.Env(Connection(), server, formatDate), old(authors), git(path), contributors);
        && r == Collector.Returned(g)
        && authors == g.authors
        && posted == old(posted) + Resolver.Posted(Connection(), g.lookups)
    {
      // the loops need only how the steps compose, not what one lookup does
      hide Collector.Visit;
      ghost var conn := Connection();
      ghost var env := Collector.Env(conn, server, formatDate);
      ghost var start := Collector.Acc([], [], "", authors, [], None);
      var history := git(path);
      var lastCommitDate, uniqueAuthors, seenAuthors := "", [], [];
      ghost var lookups := [];
      var error: Option<Error> := None;
      var i := 0;
      while i < |history|
        invariant 0 <= i <= |history|
        invariant Collector.Commits(env, start, history[..i])
                  == Collector.Acc(seenAuthors, uniqueAuthors, lastCommitDate, authors, lookups, None)
        invariant posted == old(posted) + Resolver.Posted(conn, lookups)
      {
        Collector.CommitsNext(env, start, history, i,
                              Collector.Acc(seenAuthors, uniqueAuthors, lastCommitDate, authors, lookups, None));
        var c := history[i];
        var email := EmailCleanup.CleanEmail(c.email);
        if lastCommitDate == "" {
          lastCommitDate := formatDate(c.authoredDate);
        }
        ghost var asked;
        seenAuthors, uniqueAuthors, error, asked :=
          VisitAuthor(seenAuthors, uniqueAuthors, Some(c.name), Some(email), server, formatDate, lastCommitDate, lookups);
        Resolver.PostedExtend(conn, old(posted), lookups, asked);
        lookups := lookups + asked;
        if error.Some? {
          Collector.GitInfoStopsInCommits(env, old(authors), history, contributors, i + 1);
          return Err(error.value);
        }
        i := i + 1;
      }
      assert history[..|history|] == history;
      if contributors.Some? {
        var users := Collector.Split(contributors.value, ',');
        ghost var commits := Collector.Acc(seenAuthors, uniqueAuthors, lastCommitDate, authors, lookups, None);
        var j := 0;
        while j < |users|
          invariant 0 <= j <= |users|
          invariant Collector.Names(env, commits, users[..j])
                    == Collector.Acc(seenAuthors, uniqueAuthors, lastCommitDate, authors, lookups, None)
          invariant posted == old(posted) + Resolver.Posted(conn, lookups)
        {
          Collector.NamesNext(env, commits, users, j,
                              Collector.Acc(seenAuthors, uniqueAuthors, lastCommitDate, authors, lookups, None));
          ghost var asked;
          seenAuthors, uniqueAuthors, error, asked :=
            VisitAuthor(seenAuthors, uniqueAuthors, Some(users[j]), None, server, formatDate, lastCommitDate, lookups);
          Resolver.PostedExtend(conn, old(posted), lookups, asked);
          lookups := lookups + asked;
          if error.Some? {
            Collector.GitInfoStopsInNames(env, old(authors), history, contributors, j + 1);
            return Err(error.value);
          }
          j := j + 1;
        }
        assert users[..|users|] == users;
      }
      return Ok(Collector.Contribution(uniqueAuthors, lastCommitDate));
    }

    /** on_page_context: `committers` is reset to [] first; a disabled
        plugin stops there; otherwise the page's history under
        `docs_path + src_path` (plain concatenation) is collected and the
        entries are added as Decorate says. */
    method OnPageContext(context: Context, page: Page, git: string -> seq<Collector.Commit>,
                         server: Request -> Response, formatDate: int -> string)
      returns (r: Result<Context>)
      requires Valid()
      modifies this`authors, this`posted
      ensures !enabled ==>
        r == Ok(context["committers" := Committers([])]) && authors == old(authors) && posted == old(posted)
      ensures enabled ==>
        var g := Collector.GitInfo(Collector.Env(Connection(), server, formatDate), old(authors),
                                   git(config.docsPath + page.srcPath), page.contributors);
        && authors == g.authors
        && posted == old(posted) + Resolver.Posted(Connection(), g.lookups)
        && r == (if g.error.Some? then Err(g.error.value) else Ok(Decorate(context, g.unique, g.lastDate)))
    {
      var ctx := context["committers" := Committers([])];
      if !enabled {
        return Ok(ctx);
      }
      var gitPath := config.docsPath + page.srcPath;
      var info := GetGitInfo(gitPath, git, page.contributors, server, formatDate);
      if info.Err? {
        return Err(info.error);
      }
      if info.value.committers != [] {
        ctx := ctx["committers" := Committers(info.value.committers)];
      }
      if info.value.lastCommitDate != "" {
        ctx := ctx["last_commit_date" := LastCommitDate(info.value.lastCommitDate)];
      }
      return Ok(ctx);
    }

    /** on_post_build: the whole memo goes to the cache file, whether or not
        the plugin is enabled. */
    method OnPostBuild(store: Store) returns (saved: Store)
      ensures saved == Saved(store, config.cacheDir, authors)
    {
      saved := store[config.cacheDir + "/authors.json" := authors];
    }

    /** on_pre_build: a cache file, if there is one, replaces the memo. */
    method OnPreBuild(store: Store)
      modifies this`authors
      ensures authors == Loaded(store, config.cacheDir, old(authors))
    {
      var path := config.cacheDir + "/authors.json";
      if path in store {
        authors := store[path];
      }
    }
  }
}
