/** `src/nais.rs`: the NAIS application descriptor, the check that a
    descriptor declares `kind: Application`, and the values read from it.
    Reading the file, parsing YAML into the descriptor and rendering templates
    are library code and are given as inputs. */
module Nais {
  import opened Wrappers
  import Text
  import Assoc
  import YamlVars
  import opened RustInts

  datatype NaisConfig = NaisConfig(apiVersion: string, kind: string, metadata: Metadata, spec: Spec)

  /** `labels` defaults to the empty map when absent. */
  datatype Metadata = Metadata(labels: map<string, string>, name: string, namespace: string)

  datatype Spec = Spec(
    accessPolicy: Option<AccessPolicy>,
    azure: Option<Azure>,
    env: Option<seq<NaisEnvVar>>,
    envFrom: Option<seq<EnvFrom>>,
    filesFrom: Option<seq<FilesFrom>>,
    idporten: Option<Idporten>,
    image: string,
    ingresses: Option<seq<string>>,
    maskinporten: Option<Maskinporten>,
    tokenx: Option<Tokenx>)

  datatype AccessPolicy = AccessPolicy(inbound: Option<InboundPolicy>, outbound: Option<OutboundPolicy>)

  datatype InboundPolicy = InboundPolicy(rules: Option<seq<AccessRule>>)

  datatype OutboundPolicy = OutboundPolicy(external: Option<seq<ExternalRule>>, rules: Option<seq<AccessRule>>)

  datatype AccessRule = AccessRule(
    application: string,
    namespace: Option<string>,
    cluster: Option<string>,
    permissions: Option<Permissions>)

  datatype Permissions = Permissions(roles: Option<seq<string>>, scopes: Option<seq<string>>)

  datatype ExternalRule = ExternalRule(host: Option<string>, ipv4: Option<string>, ports: Option<seq<Port>>)

  datatype Port = Port(port: U16)

  datatype Azure = Azure(application: Option<AzureApplication>, sidecar: Option<AzureSidecar>)

  datatype AzureApplication = AzureApplication(
    allowAllUsers: Option<bool>,
    claims: Option<AzureClaims>,
    enabled: Option<bool>,
    tenant: Option<string>)

  datatype AzureClaims = AzureClaims(groups: Option<seq<AzureGroup>>)

  datatype AzureGroup = AzureGroup(id: string)

  datatype AzureSidecar = AzureSidecar(
    autoLogin: Option<bool>,
    autoLoginIgnorePaths: Option<seq<string>>,
    enabled: Option<bool>)

  datatype NaisEnvVar = NaisEnvVar(name: string, value: Option<string>, valueFrom: Option<ValueFrom>)

  datatype ValueFrom = ValueFrom(fieldRef: Option<FieldRef>)

  datatype FieldRef = FieldRef(fieldPath: string)

  datatype EnvFrom = EnvFrom(configmap: Option<string>, secret: Option<string>)

  datatype FilesFrom = FilesFrom(
    configmap: Option<string>,
    secret: Option<string>,
    emptyDir: Option<EmptyDir>,
    persistentVolumeClaim: Option<string>,
    mountPath: string)

  datatype EmptyDir = EmptyDir(medium: Option<string>)

  datatype Idporten = Idporten(enabled: Option<bool>, sidecar: Option<IdportenSidecar>)

  datatype IdportenSidecar = IdportenSidecar(
    autoLogin: Option<bool>,
    autoLoginIgnorePaths: Option<seq<string>>,
    enabled: Option<bool>,
    level: Option<string>,
    locale: Option<string>)

  datatype Maskinporten = Maskinporten(enabled: Option<bool>, scopes: Option<MaskinportenScopes>)

  datatype MaskinportenScopes = MaskinportenScopes(
    consumes: Option<seq<MaskinportenConsume>>,
    exposes: Option<seq<MaskinportenExpose>>)

  datatype MaskinportenConsume = MaskinportenConsume(name: string)

  datatype MaskinportenExpose = MaskinportenExpose(
    accessibleForAll: Option<bool>,
    allowedIntegrations: Option<seq<string>>,
    atMaxAge: Option<U32>,
    consumers: Option<seq<MaskinportenConsumer>>,
    delegationSource: Option<string>,
    enabled: Option<bool>,
    name: string,
    product: string,
    separator: Option<string>,
    visibility: Option<string>)

  datatype MaskinportenConsumer = MaskinportenConsumer(name: string, orgno: string)

  datatype Tokenx = Tokenx(enabled: Option<bool>)

  /** How a constructor ends: with a value, with an error returned to the
      caller, or with a panic that aborts the program. */
  datatype Outcome<T> = Ok(value: T) | Err(message: string) | Panic(message: string)

  /** The three spellings of the kind line that are accepted. */
  const KindMarkers: seq<string> := ["kind: \"Application\"", "kind: 'Application'", "kind: Application"]

  /** The acceptance test: the text contains one of the kind markers. */
  predicate IsApplicationKind(content: string) {
    exists m :: m in KindMarkers && Text.Contains(content, m)
  }

  /** The text is accepted exactly when a kind marker occurs somewhere in it. */
  lemma ApplicationKindIff(content: string)
    ensures IsApplicationKind(content) <==>
      exists m, a, b :: m in KindMarkers && content == a + m + b
  {
    forall m | m in KindMarkers
      ensures Text.Contains(content, m) <==> exists a, b :: content == a + m + b
    {
      Text.ContainsSplit(content, m);
    }
  }

  /** The descriptor wrapped by the loader. */
  datatype NaisConfigLoader = NaisConfigLoader(config: NaisConfig) {

    /** `get_namespace`. */
    function GetNamespace(): string {
      config.metadata.namespace
    }

    /** `get_deployment`. */
    function GetDeployment(): string {
      config.metadata.name
    }

    /** The environment entries as name and value, a missing value read as
        `""`, in the order they are listed. */
    function EnvPairs(): seq<(string, string)> {
      match config.spec.env
      case None => []
      case Some(env) => seq(|env|, i requires 0 <= i < |env| => (env[i].name, env[i].value.GetOr("")))
    }

    /** The map `get_env_vars` returns: the entries inserted in order. */
    function EnvVars(): map<string, string> {
      Assoc.FromPairs(EnvPairs())
    }

    /** `get_env_vars`: inserts each listed variable into a fresh map. */
    method GetEnvVars() returns (envVars: map<string, string>)
      ensures envVars == EnvVars()
    {
      envVars := map[];
      if config.spec.env.Some? {
        var env := config.spec.env.value;
        ghost var ps := EnvPairs();
        for i := 0 to |env|
          invariant envVars == Assoc.FromPairs(ps[..i])
        {
          var e := env[i];
          assert ps[..i + 1] == ps[..i] + [(e.name, e.value.GetOr(""))];
          Assoc.FromPairsSnoc(ps[..i], e.name, e.value.GetOr(""));
          envVars := envVars[e.name := e.value.GetOr("")];
        }
        assert ps[..|env|] == ps;
      }
    }
  }

  /** The names of the listed environment variables are exactly the keys of
      `get_env_vars`; with no `env` list the map is empty. */
  lemma EnvVarsKeys(loader: NaisConfigLoader, name: string)
    ensures loader.config.spec.env.None? ==> loader.EnvVars() == map[]
    ensures loader.config.spec.env.Some? ==>
      var env := loader.config.spec.env.value;
      name in loader.EnvVars() <==> exists i :: 0 <= i < |env| && env[i].name == name
  {
    var ps := loader.EnvPairs();
    if loader.config.spec.env.Some? {
      var env := loader.config.spec.env.value;
      if exists i :: 0 <= i < |env| && env[i].name == name {
        var i :| 0 <= i < |env| && env[i].name == name;
        assert ps[i].0 == name;
      }
    }
  }

  /** The value of a name is the value of its last listing, or `""` when that
      listing has none; `valueFrom` plays no part. */
  lemma EnvVarsLastWins(loader: NaisConfigLoader, i: nat)
    requires loader.config.spec.env.Some?
    requires i < |loader.config.spec.env.value|
    requires var env := loader.config.spec.env.value;
      forall j :: i < j < |env| ==> env[j].name != env[i].name
    ensures var e := loader.config.spec.env.value[i];
      e.name in loader.EnvVars()
      && loader.EnvVars()[e.name] == (if e.value.Some? then e.value.value else "")
  {
    var ps := loader.EnvPairs();
    Assoc.FromPairsLastWins(ps, i);
  }

  /** `valueFrom` is never read: two lists that differ only there give the
      same map. */
  lemma EnvVarsIgnoreValueFrom(c: NaisConfig, env1: seq<NaisEnvVar>, env2: seq<NaisEnvVar>)
    requires |env1| == |env2|
    requires forall i :: 0 <= i < |env1| ==> env1[i].name == env2[i].name && env1[i].value == env2[i].value
    ensures NaisConfigLoader(c.(spec := c.spec.(env := Some(env1)))).EnvVars()
         == NaisConfigLoader(c.(spec := c.spec.(env := Some(env2)))).EnvVars()
  {
    var l1 := NaisConfigLoader(c.(spec := c.spec.(env := Some(env1))));
    var l2 := NaisConfigLoader(c.(spec := c.spec.(env := Some(env2))));
    assert l1.EnvPairs() == l2.EnvPairs();
  }

  /** Reading the file, the common first step of both constructors: a read
      error is reported with the path. */
  function Load(configPath: string, read: Result<string, string>): Result<string, string> {
    match read
    case Failure(e) => Failure("Failed to read config file " + configPath + ": " + e)
    case Success(content) => Success(content)
  }

  /** `NaisConfigLoader::new`. `read` is the outcome of reading the file (its
      error as displayed) and `parse` the YAML parser. */
  function New(configPath: string, read: Result<string, string>, parse: string -> Result<NaisConfig, string>)
    : Outcome<NaisConfigLoader>
  {
    match Load(configPath, read)
    case Failure(e) => Err(e)
    case Success(content) =>
      if !IsApplicationKind(content) then Err("Expected kind: Application")
      else
        match parse(content)
        case Failure(e) => Panic("Failed to parse config as YAML: " + e)
        case Success(config) => Ok(NaisConfigLoader(config))
  }

  /** `new`: a read error is reported with the path; a text without a kind
      marker is refused before it is parsed; a parse failure panics; otherwise
      the loader holds the parsed descriptor, whose namespace and name are what
      `get_namespace` and `get_deployment` return. */
  lemma NewOutcomes(configPath: string, read: Result<string, string>, parse: string -> Result<NaisConfig, string>)
    ensures read.Failure? ==>
      New(configPath, read, parse) == Err("Failed to read config file " + configPath + ": " + read.error)
    ensures read.Success? && !IsApplicationKind(read.value) ==>
      New(configPath, read, parse) == Err("Expected kind: Application")
    ensures read.Success? && IsApplicationKind(read.value) && parse(read.value).Failure? ==>
      New(configPath, read, parse).Panic?
    ensures New(configPath, read, parse).Ok? <==>
      read.Success? && IsApplicationKind(read.value) && parse(read.value).Success?
    ensures New(configPath, read, parse).Ok? ==>
      var loader := New(configPath, read, parse).value;
      var config := parse(read.value).value;
      loader.config == config
      && loader.GetNamespace() == config.metadata.namespace
      && loader.GetDeployment() == config.metadata.name
  {
  }

  /** `NaisConfigLoader::new_with_variables_and_template`: the content is
      substituted first, and the kind check and the parser see the result. */
  function NewWithVariablesAndTemplate(
    configPath: string,
    read: Result<string, string>,
    variables: YamlVars.Yaml,
    engine: YamlVars.TemplateEngine,
    parse: string -> Result<NaisConfig, string>)
    : Outcome<(NaisConfigLoader, string)>
  {
    match Load(configPath, read)
    case Failure(e) => Err(e)
    case Success(content) =>
      var processed := YamlVars.SubstituteVariables(content, variables, engine);
      if !IsApplicationKind(processed) then Err("Expected kind: Application")
      else
        match parse(processed)
        case Failure(e) => Panic("Failed to parse config as YAML: " + e)
        case Success(config) => Ok((NaisConfigLoader(config), processed))
  }

  /** The variables variant checks and parses the substituted text and hands
      that text back with the loader; it behaves as `new` would on that text. */
  lemma NewWithVariablesChecksProcessed(
    configPath: string,
    read: Result<string, string>,
    variables: YamlVars.Yaml,
    engine: YamlVars.TemplateEngine,
    parse: string -> Result<NaisConfig, string>)
    requires read.Success?
    ensures var processed := YamlVars.SubstituteVariables(read.value, variables, engine);
      var r := NewWithVariablesAndTemplate(configPath, read, variables, engine, parse);
      && (r.Err? <==> !IsApplicationKind(processed))
      && (r.Ok? ==> r.value.1 == processed && r.value.0 == New(configPath, Success(processed), parse).value)
      && (r.Ok? <==> New(configPath, Success(processed), parse).Ok?)
  {
  }

  /** When the engine cannot register the template, the variables variant
      is `new` on the raw file, with the raw text handed back. */
  lemma NewWithVariablesFallsBack(
    configPath: string,
    read: Result<string, string>,
    variables: YamlVars.Yaml,
    engine: YamlVars.TemplateEngine,
    parse: string -> Result<NaisConfig, string>)
    requires read.Success? && engine.register(read.value).Failure?
    ensures var r := NewWithVariablesAndTemplate(configPath, read, variables, engine, parse);
      var n := New(configPath, read, parse);
      && (r.Ok? <==> n.Ok?)
      && (r.Ok? ==> r.value == (n.value, read.value))
      && (!r.Ok? ==> r.message == n.message && (r.Err? <==> n.Err?))
  {
  }
}
