# git-committers plugin for MkDocs, modelled in Dafny

The plugin adds two entries to the template context of every MkDocs page:
`committers`, the GitHub profiles of the people who touched the page, and
`last_commit_date`, the date of the page's latest commit. It walks the git
history of the page, cleans up each author's e-mail address, and asks
GitHub's GraphQL search for the author's profile: first by e-mail
(`in:email`), then the e-mail as a user name (`in:user`), then the commit
author's name (`in:user`). Profiles found this way are kept in a memo
(`authors`), keyed by the e-mail when there is one, otherwise by the name,
whichever of the three searches found them. The memo is saved to
`<cache_dir>/authors.json` after the build and loaded again before the next
one. Names listed in a page's `contributors` metadata are looked up the same
way, by name only.

The model has one module per concern:

- `Identity`: the values that are passed around. These are profiles
  (`Record`), the memo (`Authors`), queries, requests, responses and the
  errors the Python code raises.
- `Resolver`: `get_gituser_info`. It builds one request and reads one
  response.
- `EmailCleanup`: how a commit e-mail is cleaned up. It is lower-cased,
  the no-reply suffix is removed, and then every run of digits followed by
  `+` is removed.
- `AuthorMemo`: `githubAuthorInfoFromUserOrEmail` as a pure function
  `Resolve`. It maps the memo and the arguments to an outcome, a new memo
  and the queries sent.
- `Collector`: `get_git_info` as a fold over the history and then over the
  metadata names. `GitInfo` is that fold, and `Returned` is what the Python
  function returns.
- `Settings`: the configuration and the choices `on_config` makes.
- `Plugin`: the class `GitCommittersPlugin`. Its fields are changed in
  place by the build hooks. Each method is proved against the function of
  the modules above that specifies it.

The world outside is passed in as parameters:

- `server: Request -> Response` is the HTTP round trip to the GraphQL
  endpoint.
- `git: string -> seq<Commit>` is the history of a path, newest commit
  first.
- `formatDate: int -> string` is `time.strftime("%Y-%m-%d", time.gmtime(t))`.

The class also keeps a ghost field, `posted`. It lists every request sent
so far, which lets the contracts say how many lookups were made and in
which order.

Exceptions of the Python code are modelled as `Error` values:

- `InvalidJson`: `r.json()` runs before the status check, so a response
  without a JSON body raises, whatever its status.
- `MissingErrorMessage`: on status 200, `data` is missing and `errors` is
  empty, so `res['errors'][0]` raises.
- `NoneConcatenation`: on a miss, the log line at plugin.py:138 adds
  `None` to a string when the name or the e-mail is missing. Every
  contributor from metadata makes such a call with no e-mail, so every
  contributor from metadata that neither the memo holds nor the search
  finds raises. This is the case even when no token is configured.
- `NoneUnpacking`: the guard at line 91 returns a bare `None`, and the
  caller cannot unpack it. Inside `get_git_info` this never happens: both
  loops always pass a name (lines 165 and 176).

Four behaviours of the code worth noting:

- A response that is not JSON raises an error; it is not treated as "not
  found".
- The e-mail clean-up is not idempotent. `CleanEmailNotIdempotent` gives an
  input where running the clean-up twice gives a different result from
  running it once.
- `on_pre_build` and `on_post_build` do not look at `enabled`: the cache
  file is read and written even when the plugin is disabled.
- A cache hit on the name wins over a hit on the e-mail (lines 141-144).
  Two commits whose e-mails clean to the same new key, found by the search,
  give one entry when neither name is a memo key (`SameEmailOnce`). When the
  second author's name is already a memo key, a second entry is listed:
  the memo's record for that name, under the name (`SameEmailNameKnown`).

## Model

| member | source | states |
|---|---|---|
| Resolver.Extract | mkdocs_git_committers_plugin_2/plugin.py:65-85 | A body that is not JSON raises whatever the status. A profile comes back exactly when the status is 200, `data` is present and the first edge has a node. That profile's avatar is its url with `.png` appended. The call raises exactly when the body is not JSON, or when on status 200 `data` is missing and `errors` is empty. A JSON body can only raise the missing-error-message case. |
| Resolver.EmptyAnswers | mkdocs_git_committers_plugin_2/plugin.py:68-85 | A JSON answer with a status other than 200, or with data but no node, gives "not found". |
| Resolver.SearchString | mkdocs_git_committers_plugin_2/plugin.py:97-124 | The search text of a query: `in:email <value>` or `in:user <value>`, with the value inserted without escaping. Each request carries it. |
| Resolver.RequestFor | mkdocs_git_committers_plugin_2/plugin.py:64 | The POST for a query: to the configured endpoint, with the Authorization header and the query's search text. |
| Resolver.GetGitUserInfo | mkdocs_git_committers_plugin_2/plugin.py:60-85 | One lookup: "not found" at once without a header, otherwise the extraction of the server's answer to the request for the query. |
| Resolver.PostedDetermines | mkdocs_git_committers_plugin_2/plugin.py:64 | With a token, the request log determines the queries that were looked up, in order. |
| Resolver.NoTokenNoHit | mkdocs_git_committers_plugin_2/plugin.py:61-63 | Without an Authorization header, every lookup is "not found". |
| Resolver.Posted | mkdocs_git_committers_plugin_2/plugin.py:61-64 | Without a header no request is sent. With a header, exactly one request is sent per query, to the configured endpoint, carrying that query. |
| Resolver.PostedAppend | mkdocs_git_committers_plugin_2/plugin.py:64 | The requests for two runs of queries, one after the other, are the requests of the first run followed by those of the second. |
| Resolver.SearchStringInjective | mkdocs_git_committers_plugin_2/plugin.py:97-124 | Different queries (by kind or by value) give different search strings, so the server can tell an `in:email` search from an `in:user` search. |
| AuthorMemo.Search | mkdocs_git_committers_plugin_2/plugin.py:94-125 | The searches of a miss: the e-mail as `in:email`, then the e-mail as `in:user`, then the name as `in:user`, each only while nothing is found. |
| AuthorMemo.Resolve | mkdocs_git_committers_plugin_2/plugin.py:87-146 | One call against the memo: a hit answers from the memo (the name winning), a miss searches, stores a found record under the e-mail or else the name, and otherwise returns "not found" or raises. |
| AuthorMemo.SearchHitStored | mkdocs_git_committers_plugin_2/plugin.py:127-136 | On a miss with an e-mail, a record found by any of the searches is the outcome and is stored under the e-mail. |
| AuthorMemo.Plan | mkdocs_git_committers_plugin_2/plugin.py:94-125 | At most three searches are planned for one author. |
| AuthorMemo.FirstHitShape | mkdocs_git_committers_plugin_2/plugin.py:94-125 | The queries sent are a prefix of the plan. Every query but the last came back "not found". The result is the answer to the last query sent. On "not found" the whole plan was sent. |
| AuthorMemo.SearchFollowsPlan | mkdocs_git_committers_plugin_2/plugin.py:94-125 | The search on a miss is the first hit along the plan: e-mail, then e-mail as user, then name. |
| AuthorMemo.LookupOrder | mkdocs_git_committers_plugin_2/plugin.py:94-125 | On a memo miss, at most three queries are sent, taken in order from the plan: e-mail, then e-mail as user, then name. Every query before the last was "not found". A found profile is the answer to the last query. On "not found" the whole plan was tried. |
| AuthorMemo.MissFromSearch | mkdocs_git_committers_plugin_2/plugin.py:94-139 | On a miss, the queries made are exactly those of the search. A found outcome is the search's hit. A "not found" outcome, or the line-138 error, comes from a search with no hit. |
| AuthorMemo.CacheHit | mkdocs_git_committers_plugin_2/plugin.py:88-146 | When the name or the e-mail is in the memo, nothing is sent and the memo is unchanged. The key is the name if the name is in the memo, otherwise the e-mail. |
| AuthorMemo.StoreOnSuccess | mkdocs_git_committers_plugin_2/plugin.py:127-136 | A profile found on a miss is stored under the e-mail if there is one, otherwise under the name. The key is new to the memo, exactly that key is added, and at least one query was sent. |
| AuthorMemo.Miss | mkdocs_git_committers_plugin_2/plugin.py:137-139 | When no search matches, the memo is unchanged. The outcome is "not found" exactly when both name and e-mail are given, and the line-138 concatenation error exactly when either is missing. |
| AuthorMemo.NoArgsExactly | mkdocs_git_committers_plugin_2/plugin.py:88-91 | The bare `None` of line 91 is returned exactly when both arguments are missing. It changes nothing and sends nothing. |
| AuthorMemo.NoTokenNoStore | mkdocs_git_committers_plugin_2/plugin.py:61-146 | Without a token the memo never changes and no request is sent. A profile is found only when it was already in the memo. |
| AuthorMemo.NoTokenMisses | mkdocs_git_committers_plugin_2/plugin.py:61-125 | Without a token, every plan of searches ends in "not found". |
| AuthorMemo.NeverOverwrites | mkdocs_git_committers_plugin_2/plugin.py:88-146 | A lookup never changes or removes an entry of the memo. It adds at most the key it reports. That key maps to the profile it returns. |
| AuthorMemo.ResolveAgain | mkdocs_git_committers_plugin_2/plugin.py:88-146 | Once a lookup has found a profile, repeating it with the new memo gives the same outcome, sends nothing and changes nothing. |
| EmailCleanup.RemoveAll | mkdocs_git_committers_plugin_2/plugin.py:159 | `str.replace(pat, "")`: every occurrence of the pattern, left to right, is removed. |
| EmailCleanup.StripIdPrefixes | mkdocs_git_committers_plugin_2/plugin.py:159 | `re.sub('\d*\+', '', s)`: every `+` is removed together with the digits just before it. |
| EmailCleanup.CleanEmail | mkdocs_git_committers_plugin_2/plugin.py:157-159 | The e-mail key: lower-cased, the no-reply suffix removed, then the digit-plus runs removed. |
| EmailCleanup.Lower | mkdocs_git_committers_plugin_2/plugin.py:157 | Lower-casing keeps the length and maps each character on its own. |
| EmailCleanup.LeadingDigits | mkdocs_git_committers_plugin_2/plugin.py:159 | Gives the length of the longest run of digits at the start of a string. |
| EmailCleanup.StripKeepsSurvivors | mkdocs_git_committers_plugin_2/plugin.py:159 | Removing `\d*\+` keeps exactly the characters that do not start a digit run ending at a `+`. |
| EmailCleanup.StripRemovesPlus | mkdocs_git_committers_plugin_2/plugin.py:159 | No `+` survives the substitution. |
| EmailCleanup.StripWithoutPlus | mkdocs_git_committers_plugin_2/plugin.py:159 | A string without `+` is left as it is. |
| EmailCleanup.StripIdempotent | mkdocs_git_committers_plugin_2/plugin.py:159 | The substitution alone is idempotent. |
| EmailCleanup.CleanEmailHasNoPlus | mkdocs_git_committers_plugin_2/plugin.py:157-159 | A cleaned e-mail contains no `+`. |
| EmailCleanup.StripThrough | mkdocs_git_committers_plugin_2/plugin.py:159 | A prefix without `+`, not ending in a digit, passes through the substitution unchanged. |
| EmailCleanup.RemoveAllAppend | mkdocs_git_committers_plugin_2/plugin.py:159 | Removing the no-reply suffix splits over a concatenation at a point where the suffix may start. |
| EmailCleanup.NoReplyAddress | mkdocs_git_committers_plugin_2/plugin.py:157-159 | GitHub's no-reply address `<id>+<login>@users.noreply.github.com` cleans to the lower-cased login. |
| EmailCleanup.NoReplyExample | mkdocs_git_committers_plugin_2/plugin.py:157-159 | `123+alice@users.noreply.github.com` cleans to `alice`. |
| EmailCleanup.CleanNoReply | mkdocs_git_committers_plugin_2/plugin.py:157-159 | The bare suffix cleans to the empty string. |
| EmailCleanup.CleanEmailNotIdempotent | mkdocs_git_committers_plugin_2/plugin.py:157-159 | The suffix is removed before the `+` runs, so `@users.noreply.gi+thub.com` cleans to the suffix itself, and cleaning again gives a different result. |
| Collector.Split | mkdocs_git_committers_plugin_2/plugin.py:174 | `split(',')` gives at least one part, and no part contains a comma. |
| Collector.JoinSplit | mkdocs_git_committers_plugin_2/plugin.py:174 | Joining the parts with commas gives back the metadata string. |
| Collector.CommitsKeep | mkdocs_git_committers_plugin_2/plugin.py:156-169 | The commit loop keeps the seen keys distinct, one profile per key, each the memo's entry for that key. The lists and the memo only grow. |
| Collector.VisitKeeps | mkdocs_git_committers_plugin_2/plugin.py:165-183 | One author visit keeps the seen keys distinct, each listed with its memo entry, and only grows the lists and the memo. |
| Collector.NamesKeep | mkdocs_git_committers_plugin_2/plugin.py:175-183 | The metadata loop keeps the same invariant and only grows the lists and the memo. |
| Collector.GitInfoWellFormed | mkdocs_git_committers_plugin_2/plugin.py:149-187 | The result lists distinct authors, each with its memo entry. The authors from commits come first, in order. No memo entry that existed before is changed. |
| Collector.Start | mkdocs_git_committers_plugin_2/plugin.py:150-152 | The locals before the loops: no authors seen or listed, no date, the memo as it is, nothing looked up. |
| Collector.Absorb | mkdocs_git_committers_plugin_2/plugin.py:166-169 | What a loop body does with one answer: a found key not seen yet is appended with its record, a repeated key or "not found" changes nothing, an exception ends the walk. |
| Collector.Visit | mkdocs_git_committers_plugin_2/plugin.py:165-183 | One author: resolve through the memo, record the lookups, absorb the answer. Nothing happens after an exception. |
| Collector.CommitStep | mkdocs_git_committers_plugin_2/plugin.py:157-169 | One commit: take its date if none is taken yet, then visit its name and cleaned e-mail. |
| Collector.NameStep | mkdocs_git_committers_plugin_2/plugin.py:176-183 | One metadata name: visited as a user name with no e-mail. |
| Collector.Commits | mkdocs_git_committers_plugin_2/plugin.py:156-169 | The commit loop: the commit steps over the history, oldest index first. |
| Collector.Names | mkdocs_git_committers_plugin_2/plugin.py:175-183 | The metadata loop: the name steps over the split `contributors` list. |
| Collector.Returned | mkdocs_git_committers_plugin_2/plugin.py:187 | What `get_git_info` gives back: the exception that ended the walk, or the listed records with the date. |
| Collector.GitInfo | mkdocs_git_committers_plugin_2/plugin.py:149-187 | `get_git_info`: the commit loop over the history, then the metadata loop over the `contributors` names, on the memo as it was before the call. |
| Collector.AddNew | mkdocs_git_committers_plugin_2/plugin.py:167-183 | Appends each key not listed yet, in the order given. |
| Collector.AddNewMembers | mkdocs_git_committers_plugin_2/plugin.py:167-183 | A key ends up listed exactly when it was listed before or is one of the keys added. |
| Collector.AddNewAppend | mkdocs_git_committers_plugin_2/plugin.py:167-183 | Adding two runs of keys one after the other is adding their concatenation. |
| Collector.VisitAppends | mkdocs_git_committers_plugin_2/plugin.py:165-183 | A found author whose key is new is appended with its record. Any other answer leaves both lists alone, and "not found" raises nothing. |
| Collector.CommitsSeen | mkdocs_git_committers_plugin_2/plugin.py:156-169 | The commit loop lists the keys its steps reported found, each once, in first-found order. |
| Collector.NamesSeen | mkdocs_git_committers_plugin_2/plugin.py:175-183 | The metadata loop lists the keys its steps reported found, each once, in first-found order. |
| Collector.GitInfoListsFound | mkdocs_git_committers_plugin_2/plugin.py:149-187 | The listed authors are exactly the keys the page's lookups reported found, commits first and then metadata names, each once, in first-found order, each with its memo record. Unresolved authors are skipped. |
| Collector.TwoSearchedAuthors | mkdocs_git_committers_plugin_2/plugin.py:156-169 | Two commits, newest first, by two authors the memo does not hold and the remote search finds: both records are listed, newest first, each stored under its cleaned e-mail. |
| Collector.SameEmailOnce | mkdocs_git_committers_plugin_2/plugin.py:156-169 | Two commits whose e-mails clean to the same key, the first found by the remote search, list one record, whatever the second author's name, provided that name is not a key of the memo before the call. |
| Collector.SameEmailNameKnown | mkdocs_git_committers_plugin_2/plugin.py:141-169 | When the second author's name is already a memo key, the name wins the cache hit: after the first author's record under the e-mail, a second entry, the memo's record for the name, is listed under the name. |
| Collector.StepDate | mkdocs_git_committers_plugin_2/plugin.py:162-164 | A commit sets the date exactly when none is set yet, and then uses its own authored date. |
| Collector.CommitsDate | mkdocs_git_committers_plugin_2/plugin.py:150-164 | Starting with no date, the commit loop ends with the date of the first commit of the history, or with no date when the history is empty. For a non-empty history this assumes the formatted date is non-empty, which `strftime("%Y-%m-%d", …)` always is. |
| Collector.LastCommitDate | mkdocs_git_committers_plugin_2/plugin.py:150-164 | An empty history gives no date. Otherwise the date is that of the first commit in the history, the newest one, provided its formatted date is non-empty, as `strftime("%Y-%m-%d", …)` always is. |
| Collector.NamesKeepDate | mkdocs_git_committers_plugin_2/plugin.py:172-183 | The metadata loop never changes the date. |
| Collector.EmptyPage | mkdocs_git_committers_plugin_2/plugin.py:149-187 | A page with no history and no contributors gives no authors and no date, and leaves the memo unchanged. |
| Collector.RepeatedAuthor | mkdocs_git_committers_plugin_2/plugin.py:165-169 | A second commit by the same name and cleaned e-mail adds no author and changes the memo no further. |
| Collector.CachedEmail | mkdocs_git_committers_plugin_2/plugin.py:141-169 | A commit whose cleaned e-mail is in the memo, and whose name is not a memo key, gets that profile, under that key, without a lookup. |
| Collector.SameProfileTwice | mkdocs_git_committers_plugin_2/plugin.py:167-169 | Authors are told apart by key, not by profile: two commits whose e-mails are stored with the same profile, and whose names are not memo keys, list that profile twice. |
| Collector.NoTokenContributorsRaise | mkdocs_git_committers_plugin_2/plugin.py:61-176 | Without a token and with an empty memo, the commits give no authors and no error. Any `contributors` metadata raises the line-138 error. |
| Collector.NoTokenCommits | mkdocs_git_committers_plugin_2/plugin.py:156-169 | Without a token and with an empty memo, the commit loop finds nobody and raises nothing. |
| Collector.NoTokenNames | mkdocs_git_committers_plugin_2/plugin.py:138-176 | Without a token and with an empty memo, a non-empty list of contributors raises the line-138 error. |
| Collector.CommitsAfterError | mkdocs_git_committers_plugin_2/plugin.py:156-169 | Once a commit raises, the rest of the history changes nothing. |
| Collector.NamesAfterError | mkdocs_git_committers_plugin_2/plugin.py:175-183 | Once a contributor raises, the remaining names change nothing. |
| Collector.GitInfoStopsInCommits | mkdocs_git_committers_plugin_2/plugin.py:156-187 | An error in the commit loop is the result of the whole function. The metadata is never read. |
| Collector.GitInfoStopsInNames | mkdocs_git_committers_plugin_2/plugin.py:173-187 | An error in the metadata loop is the result of the whole function. |
| Settings.Defaults | mkdocs_git_committers_plugin_2/plugin.py:22-30 | The defaults of `config_scheme`: no host, no repository, branch `master`, `docs/`, no token, enabled, `.cache/plugin/git-committers`. |
| Settings.EffectiveToken | mkdocs_git_committers_plugin_2/plugin.py:45-46 | An empty configured token falls back to `MKDOCS_GIT_COMMITTERS_APIKEY` when that variable is set. |
| Settings.AuthHeader | mkdocs_git_committers_plugin_2/plugin.py:48-51 | A non-empty token gives the header `token <token>`, an empty one none. |
| Settings.ApiEndpoint | mkdocs_git_committers_plugin_2/plugin.py:52-55 | A non-empty enterprise host gives its `/api/graphql` endpoint, otherwise the public one. |
| Settings.DefaultsAnonymousPublic | mkdocs_git_committers_plugin_2/plugin.py:22-30 | With the defaults of `config_scheme` and no environment variable, no header is sent, the public endpoint is used, and the plugin is enabled on `master`. |
| Settings.HeaderFromTokenOrEnvironment | mkdocs_git_committers_plugin_2/plugin.py:45-51 | There is a header exactly when the configured token is non-empty, or when it is empty and `MKDOCS_GIT_COMMITTERS_APIKEY` is non-empty. The header is `token ` followed by that token. |
| Settings.EnterpriseEndpoint | mkdocs_git_committers_plugin_2/plugin.py:52-53 | A non-empty enterprise host name gives `https://<host>/api/graphql`, which is never the public endpoint. |
| Plugin.CachePath | mkdocs_git_committers_plugin_2/plugin.py:209-214 | The cache file is `<cache_dir>/authors.json`, for writing and for reading. |
| Plugin.Saved | mkdocs_git_committers_plugin_2/plugin.py:205-211 | The cache hook's write: the whole memo at `<cache_dir>/authors.json`. |
| Plugin.Loaded | mkdocs_git_committers_plugin_2/plugin.py:213-218 | The cache hook's read: the stored memo if the file exists, otherwise the memo in memory. |
| Plugin.SaveLoadRoundTrip | mkdocs_git_committers_plugin_2/plugin.py:205-218 | The memo loaded from the cache file is the memo saved there, whatever the new process started with. |
| Plugin.Decorate | mkdocs_git_committers_plugin_2/plugin.py:190-199 | `committers` always becomes the list of authors, which is empty when there are none. `last_commit_date` is set exactly when a date was found. Every other entry is kept. |
| Plugin.GitCommittersPlugin.constructor | mkdocs_git_committers_plugin_2/plugin.py:32-36 | The plugin starts enabled, on branch `master`, with an empty memo. There is no header or endpoint yet, and nothing has been sent. |
| Plugin.GitCommittersPlugin.OnConfig | mkdocs_git_committers_plugin_2/plugin.py:38-58 | `enabled` is copied from the configuration. A disabled plugin changes nothing else. An enabled one stores the effective token and sets the header when the token is non-empty. It always sets the endpoint, and the branch from the configuration. |
| Plugin.GitCommittersPlugin.Connection | mkdocs_git_committers_plugin_2/plugin.py:61-64 | Requests go out only once `auth_header` is set, to the endpoint with that header; before, there is no connection. |
| Plugin.GitCommittersPlugin.GetGitUserInfo | mkdocs_git_committers_plugin_2/plugin.py:60-85 | Returns the answer to one query, and logs exactly the request it sent, if any. |
| Plugin.GitCommittersPlugin.SearchAuthor | mkdocs_git_committers_plugin_2/plugin.py:93-125 | Sends the searches of the plan in order, stops at the first hit, and logs exactly those requests. |
| Plugin.GitCommittersPlugin.GithubAuthorInfoFromUserOrEmail | mkdocs_git_committers_plugin_2/plugin.py:87-146 | The outcome, the new memo and the requests sent are exactly those of `AuthorMemo.Resolve`. |
| Plugin.GitCommittersPlugin.VisitAuthor | mkdocs_git_committers_plugin_2/plugin.py:165-183 | One lookup followed by the seen-list update moves the collector's state exactly as `Collector.Visit` does. |
| Plugin.GitCommittersPlugin.GetGitInfo | mkdocs_git_committers_plugin_2/plugin.py:149-187 | The two loops return what `Collector.GitInfo` states and leave the memo as it states. The request log grows by exactly the requests of its lookups. |
| Plugin.GitCommittersPlugin.OnPageContext | mkdocs_git_committers_plugin_2/plugin.py:189-203 | A disabled plugin only resets `committers`. An enabled one looks up `docs_path + src_path` and decorates the context, or raises the error the lookups raised. |
| Plugin.GitCommittersPlugin.OnPostBuild | mkdocs_git_committers_plugin_2/plugin.py:205-211 | Writes the whole memo to `<cache_dir>/authors.json`. |
| Plugin.GitCommittersPlugin.OnPreBuild | mkdocs_git_committers_plugin_2/plugin.py:213-218 | When the cache file exists, its memo replaces the one in memory. Otherwise the memo is kept. |

## Left out

- HTTP transport: timeouts, connection errors, and exceptions that `requests` raises are not modelled. `server` always answers.
- Response shape: the model covers JSON bodies that have the expected fields. A `KeyError` from a JSON body that lacks `search`, `edges` or the node fields is not modelled.
- Oracles: `server`, `git` and `formatDate` are deterministic functions. The model does not capture a server that answers the same request differently over time.
- Git: `Repo(".")`, `Commit.iter_items` and GitPython are not part of this model. `git(path)` gives the history, newest first.
- `branch` is stored as `on_config` stores it, but the history is not filtered by branch, and neither is the source's (it uses `head`).
- Dates: `strftime` and `gmtime` are the `formatDate` parameter. Collector.CommitsDate and Collector.LastCommitDate assume it gives a non-empty string, as the real `%Y-%m-%d` format does.
- Timing and logging: `total_time`, the timers and the log output are left out. The one log line that changes behaviour, line 138, is modelled as its error.
- Character classes: `lower()` and `\d` are modelled on ASCII letters and digits only. Unicode case mapping and Unicode digits are left out.
- Query text: a request carries the search string of its query (`in:email <v>` or `in:user <v>`). The GraphQL text around it is the same for every request and is left out.
- Cache file: the file system is a map from path to memo. JSON encoding, `os.makedirs` and I/O errors are left out.
- Metadata: `contributors` is modelled as a string only. Other YAML types are left out.
- Configuration: the type checks of `config_scheme` are done by the host and are not modelled.
- Plugin.GitCommittersPlugin.OnPageContext: takes one `server` for the whole page, the same one for every lookup on that page.
