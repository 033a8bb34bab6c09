/** `src/oauth.rs`: the configuration of the Azure AD OAuth client, read from
    an environment map. The HTTP client the struct also holds is not part of
    this model, and neither are the flow methods, which have no body in the
    program. */
module OAuth {
  import opened Wrappers
  import opened RustInts

  const ClientIdKey: string := "AZURE_APP_CLIENT_ID"
  const ClientSecretKey: string := "AZURE_APP_CLIENT_SECRET"
  const TokenEndpointKey: string := "AZURE_OPENID_CONFIG_TOKEN_ENDPOINT"
  const TenantIdKey: string := "AZURE_APP_TENANT_ID"
  const RedirectUriKey: string := "AZURE_APP_REDIRECT_URI"

  /** The five keys `new_from_env` looks up. */
  const EnvKeys: set<string> := {ClientIdKey, ClientSecretKey, TokenEndpointKey, TenantIdKey, RedirectUriKey}

  /** The endpoint base used when neither an endpoint nor a tenant is given. */
  const CommonBaseUrl: string := "https://login.microsoftonline.com/common/oauth2/v2.0"

  /** The endpoint base of a tenant. */
  function TenantBaseUrl(tenantId: string): string {
    "https://login.microsoftonline.com/" + tenantId + "/oauth2/v2.0"
  }

  /** `OAuthClient` without its HTTP client. */
  datatype OAuthClient = OAuthClient(
    clientId: string,
    clientSecret: string,
    redirectUri: string,
    authBaseUrl: string)

  /** `OAuthError`; an HTTP error is known only by its message. */
  datatype OAuthError =
    | HttpError(message: string)
    | InvalidRequest(reason: string)
    | ServerError(reason: string)
    | AccessDenied
    | InvalidToken

  /** `TokenResponse`. */
  datatype TokenResponse = TokenResponse(
    accessToken: string,
    tokenType: string,
    expiresIn: U64,
    refreshToken: Option<string>,
    scope: Option<string>)

  /** `OAuthClient::new`: the four settings, in this argument order. */
  function New(clientId: string, clientSecret: string, redirectUri: string, authBaseUrl: string): OAuthClient {
    OAuthClient(clientId, clientSecret, redirectUri, authBaseUrl)
  }

  /** The endpoint base: the configured token endpoint, else the tenant's,
      else the common one. */
  function AuthBaseUrl(env: map<string, string>): string {
    if TokenEndpointKey in env then env[TokenEndpointKey]
    else if TenantIdKey in env then TenantBaseUrl(env[TenantIdKey])
    else CommonBaseUrl
  }

  /** `OAuthClient::new_from_env`. */
  function NewFromEnv(env: map<string, string>): (r: Result<OAuthClient, OAuthError>)
    ensures ClientIdKey !in env ==> r == Failure(InvalidRequest("Missing AZURE_APP_CLIENT_ID"))
    ensures ClientIdKey in env && ClientSecretKey !in env ==>
      r == Failure(InvalidRequest("Missing AZURE_APP_CLIENT_SECRET"))
    ensures r.Success? <==> ClientIdKey in env && ClientSecretKey in env
    ensures r.Success? ==>
      && r.value.clientId == env[ClientIdKey]
      && r.value.clientSecret == env[ClientSecretKey]
      && (TokenEndpointKey in env ==> r.value.authBaseUrl == env[TokenEndpointKey])
      && (TokenEndpointKey !in env && TenantIdKey in env ==>
            r.value.authBaseUrl == TenantBaseUrl(env[TenantIdKey]))
      && (TokenEndpointKey !in env && TenantIdKey !in env ==> r.value.authBaseUrl == CommonBaseUrl)
      && r.value.redirectUri == (if RedirectUriKey in env then env[RedirectUriKey] else "")
  {
    if ClientIdKey !in env then Failure(InvalidRequest("Missing AZURE_APP_CLIENT_ID"))
    else
      var clientId := env[ClientIdKey];
      if ClientSecretKey !in env then Failure(InvalidRequest("Missing AZURE_APP_CLIENT_SECRET"))
      else
        var clientSecret := env[ClientSecretKey];
        var authBaseUrl := AuthBaseUrl(env);
        var redirectUri := if RedirectUriKey in env then env[RedirectUriKey] else "";
        Success(New(clientId, clientSecret, redirectUri, authBaseUrl))
  }

  /** The environment that describes a client completely. */
  function EnvOf(c: OAuthClient): map<string, string> {
    map[ClientIdKey := c.clientId,
        ClientSecretKey := c.clientSecret,
        TokenEndpointKey := c.authBaseUrl,
        RedirectUriKey := c.redirectUri]
  }

  /** Every client is reached, from the environment that describes it. */
  lemma NewFromEnvRoundTrip(c: OAuthClient)
    ensures NewFromEnv(EnvOf(c)) == Success(c)
  {
    var env := EnvOf(c);
    assert ClientIdKey in env && ClientSecretKey in env && TokenEndpointKey in env && RedirectUriKey in env;
    assert env[ClientIdKey] == c.clientId;
    assert env[ClientSecretKey] == c.clientSecret;
    assert env[TokenEndpointKey] == c.authBaseUrl;
    assert env[RedirectUriKey] == c.redirectUri;
  }

  /** Only the five keys matter: environments that agree on them give the
      same outcome, whatever else they hold. */
  lemma NewFromEnvReadsOnlyItsKeys(env1: map<string, string>, env2: map<string, string>)
    requires forall k :: k in EnvKeys ==> (k in env1 <==> k in env2)
    requires forall k :: k in EnvKeys && k in env1 ==> env1[k] == env2[k]
    ensures NewFromEnv(env1) == NewFromEnv(env2)
  {
    assert ClientIdKey in EnvKeys && ClientSecretKey in EnvKeys && TokenEndpointKey in EnvKeys;
    assert TenantIdKey in EnvKeys && RedirectUriKey in EnvKeys;
  }

  /** A configured token endpoint wins over a tenant id. */
  lemma TokenEndpointOverridesTenant(env: map<string, string>, tenantId: string)
    requires ClientIdKey in env && ClientSecretKey in env && TokenEndpointKey in env
    ensures NewFromEnv(env[TenantIdKey := tenantId]).Success?
    ensures NewFromEnv(env[TenantIdKey := tenantId]).value.authBaseUrl == env[TokenEndpointKey]
  {
    var env' := env[TenantIdKey := tenantId];
    assert env'[TokenEndpointKey] == env[TokenEndpointKey];
  }
}
