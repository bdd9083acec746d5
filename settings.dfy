/** The configuration of the plugin (config_scheme) and the decisions of
    on_config: the token falls back to an environment variable, a non-empty
    token gives the `Authorization` header, and an enterprise host name
    replaces the public GraphQL endpoint. */
module Settings {
  import opened Identity

  const ApiKeyVariable: string := "MKDOCS_GIT_COMMITTERS_APIKEY"
  const PublicEndpoint: string := "https://api.github.com/graphql"

  datatype Config = Config(enterpriseHostname: string, repository: string, branch: string,
                           docsPath: string, token: string, enabled: bool, cacheDir: string)

  /** The defaults of config_scheme. */
  function Defaults(): Config
  {
    Config("", "", "master", "docs/", "", true, ".cache/plugin/git-committers")
  }

  /** The token after the fallback of lines 45-46. */
  function EffectiveToken(token: string, env: map<string, string>): string
  {
    if token == "" && ApiKeyVariable in env then env[ApiKeyVariable] else token
  }

  /** The header value of line 49, when the token is non-empty. */
  function AuthHeader(token: string): Option<string>
  {
    if token != "" then Some("token " + token) else None
  }

  /** The endpoint of lines 52-55. */
  function ApiEndpoint(hostname: string): string
  {
    if hostname != "" then "https://" + hostname + "/api/graphql" else PublicEndpoint
  }

  /** There is a header exactly when the configured token or, failing it,
      the environment variable is non-empty; the header carries that token. */
  lemma HeaderFromTokenOrEnvironment(token: string, env: map<string, string>)
    ensures var h := AuthHeader(EffectiveToken(token, env));
      && (h.Some? <==> token != "" || (ApiKeyVariable in env && env[ApiKeyVariable] != ""))
      && (token != "" ==> h == Some("token " + token))
      && (token == "" && h.Some? ==> h == Some("token " + env[ApiKeyVariable]))
  {
  }

  /** Two facts about the public endpoint that EnterpriseEndpoint uses to tell it apart. */
  lemma PublicEndpointShape()
    ensures |PublicEndpoint| == 30 && PublicEndpoint[18] == '.'
  {
  }

  /** An enterprise endpoint names its host between `https://` and
      `/api/graphql`, and is never the public endpoint. */
  lemma EnterpriseEndpoint(hostname: string)
    requires hostname != ""
    ensures var e := ApiEndpoint(hostname);
      && |e| == |hostname| + 20
      && e[..8] == "https://" && e[8..|e| - 12] == hostname && e[|e| - 12..] == "/api/graphql"
      && e != PublicEndpoint
  {
    var e := ApiEndpoint(hostname);
    assert e == "https://" + hostname + "/api/graphql";
    assert e[..8] == "https://";
    assert e[8..|e| - 12] == hostname;
    assert e[|e| - 12..] == "/api/graphql";
    if |e| == 30 {
      PublicEndpointShape();
      assert e[|e| - 12] == '/';
    }
  }

  /** With the defaults of config_scheme and no environment variable, no
      header is sent and the public endpoint is used. */
  lemma DefaultsAnonymousPublic(env: map<string, string>)
    requires ApiKeyVariable !in env
    ensures AuthHeader(EffectiveToken(Defaults().token, env)) == None
    ensures ApiEndpoint(Defaults().enterpriseHostname) == PublicEndpoint
    ensures Defaults().enabled && Defaults().branch == "master"
  {
  }
}
