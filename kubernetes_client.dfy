/** `src/kubernetes_client.rs`: the names of the secrets a deployment loads
    its environment from, and the key/value map of a secret. Talking to the
    cluster is cut off: the fetched deployment or secret, or the error of
    fetching it, is given. */
module KubernetesClient {
  import opened Wrappers
  import Utf8

  /** `KubernetesClient` without its API client. */
  datatype KubernetesClient = KubernetesClient(deployment: string, namespace: string, context: string)

  /** The parts of `apps/v1` `Deployment` that are read. */
  datatype Deployment = Deployment(spec: Option<DeploymentSpec>)

  datatype DeploymentSpec = DeploymentSpec(template: PodTemplateSpec)

  datatype PodTemplateSpec = PodTemplateSpec(spec: Option<PodSpec>)

  datatype PodSpec = PodSpec(containers: seq<Container>)

  datatype Container = Container(name: string, envFrom: Option<seq<EnvFromSource>>)

  datatype EnvFromSource = EnvFromSource(
    configMapRef: Option<ConfigMapEnvSource>,
    prefix: Option<string>,
    secretRef: Option<SecretEnvSource>)

  datatype ConfigMapEnvSource = ConfigMapEnvSource(name: string, optional: Option<bool>)

  datatype SecretEnvSource = SecretEnvSource(name: string, optional: Option<bool>)

  /** The parts of `core/v1` `Secret` that are read: each value as raw bytes. */
  datatype Secret = Secret(data: Option<map<string, seq<Utf8.byte>>>)

  // Ordering of names. A Rust `String` compares by its UTF-8 bytes, which
  // orders strings as comparing character by character does.

  /** `a` sorts strictly before `b`. */
  predicate Less(a: string, b: string)
    decreases |a|
  {
    if a == [] then b != []
    else if b == [] then false
    else if a[0] != b[0] then a[0] < b[0]
    else Less(a[1..], b[1..])
  }

  predicate Le(a: string, b: string) {
    a == b || Less(a, b)
  }

  lemma {:induction false} LessIrreflexive(a: string)
    ensures !Less(a, a)
    decreases |a|
  {
    if a != [] {
      LessIrreflexive(a[1..]);
    }
  }

  lemma {:induction false} LessTransitive(a: string, b: string, c: string)
    requires Less(a, b) && Less(b, c)
    ensures Less(a, c)
    decreases |a|
  {
    if a != [] && a[0] == b[0] && b[0] == c[0] {
      LessTransitive(a[1..], b[1..], c[1..]);
    }
  }

  lemma {:induction false} LessTotal(a: string, b: string)
    ensures a == b || Less(a, b) || Less(b, a)
    decreases |a|
  {
    if a != [] && b != [] && a[0] == b[0] {
      LessTotal(a[1..], b[1..]);
      if a[1..] == b[1..] {
        assert a == [a[0]] + a[1..] && b == [b[0]] + b[1..];
      }
    }
  }

  /** Ascending, neighbours possibly equal. */
  predicate Sorted(s: seq<string>) {
    forall i :: 0 <= i < |s| - 1 ==> Le(s[i], s[i + 1])
  }

  /** Ascending, neighbours distinct. */
  predicate StrictlySorted(s: seq<string>) {
    forall i :: 0 <= i < |s| - 1 ==> Less(s[i], s[i + 1])
  }

  /** Inserts `x` into a sorted sequence. */
  function Insert(x: string, s: seq<string>): (r: seq<string>)
    requires Sorted(s)
    ensures Sorted(r) && multiset(r) == multiset(s) + multiset{x}
    ensures r[0] == x || (s != [] && r[0] == s[0])
  {
    if s == [] then [x]
    else if Le(x, s[0]) then [x] + s
    else
      LessTotal(x, s[0]);
      var tail := Insert(x, s[1..]);
      assert s == [s[0]] + s[1..];
      [s[0]] + tail
  }

  /** `Vec::sort` on names: the ascending permutation. */
  function Sort(s: seq<string>): (r: seq<string>)
    ensures Sorted(r) && multiset(r) == multiset(s)
  {
    if s == [] then []
    else
      assert s == [s[0]] + s[1..];
      Insert(s[0], Sort(s[1..]))
  }

  /** `Vec::dedup`: drops each element equal to the one before it. */
  function Dedup(s: seq<string>): (r: seq<string>)
    ensures forall x :: x in r <==> x in s
    ensures Sorted(s) ==> StrictlySorted(r)
    ensures s != [] ==> r != [] && r[0] == s[0]
  {
    if |s| <= 1 then s
    else if s[0] == s[1] then
      var r := Dedup(s[1..]);
      assert s == [s[0]] + s[1..];
      r
    else
      var tail := Dedup(s[1..]);
      assert s == [s[0]] + s[1..];
      [s[0]] + tail
  }

  /** Strictly ascending neighbours make the whole sequence strictly
      ascending, so no name occurs twice. */
  lemma {:induction false} StrictlySortedPairwise(s: seq<string>)
    requires StrictlySorted(s)
    ensures forall i, j :: 0 <= i < j < |s| ==> Less(s[i], s[j])
    ensures forall i, j :: 0 <= i < j < |s| ==> s[i] != s[j]
  {
    if |s| > 1 {
      StrictlySortedPairwise(s[1..]);
      forall i, j | 0 <= i < j < |s|
        ensures Less(s[i], s[j])
      {
        if i > 0 {
          assert Less(s[1..][i - 1], s[1..][j - 1]);
        } else if j > 1 {
          assert Less(s[1..][0], s[1..][j - 1]);
          LessTransitive(s[0], s[1], s[j]);
        }
      }
      forall i, j | 0 <= i < j < |s|
        ensures s[i] != s[j]
      {
        LessIrreflexive(s[i]);
      }
    }
  }

  /** The names of the secrets referenced by `sources`, in order. */
  function SourceRefs(sources: seq<EnvFromSource>): (r: seq<string>)
    ensures forall x :: x in r <==>
      exists j :: 0 <= j < |sources| && sources[j].secretRef.Some? && sources[j].secretRef.value.name == x
  {
    if sources == [] then []
    else
      var init := sources[..|sources| - 1];
      var last := sources[|sources| - 1];
      assert forall j :: 0 <= j < |init| ==> init[j] == sources[j];
      SourceRefs(init) + (if last.secretRef.Some? then [last.secretRef.value.name] else [])
  }

  /** The secret names referenced by the containers, in order. */
  function ContainerRefs(containers: seq<Container>): seq<string> {
    if containers == [] then []
    else
      var init := containers[..|containers| - 1];
      var last := containers[|containers| - 1];
      ContainerRefs(init) + (if last.envFrom.Some? then SourceRefs(last.envFrom.value) else [])
  }

  /** Container `i` lists a source referencing the secret `name`. */
  ghost predicate ContainerReferences(containers: seq<Container>, i: int, name: string) {
    && 0 <= i < |containers|
    && containers[i].envFrom.Some?
    && name in SourceRefs(containers[i].envFrom.value)
  }

  /** A name is collected exactly when some container references it. */
  lemma {:induction false} ContainerRefsIff(containers: seq<Container>, name: string)
    ensures name in ContainerRefs(containers) <==> exists i :: ContainerReferences(containers, i, name)
  {
    if containers != [] {
      var init := containers[..|containers| - 1];
      ContainerRefsIff(init, name);
      assert forall i :: 0 <= i < |init| ==>
        (ContainerReferences(containers, i, name) <==> ContainerReferences(init, i, name));
      if name in ContainerRefs(containers) && !ContainerReferences(containers, |init|, name) {
        var i :| ContainerReferences(init, i, name);
        assert ContainerReferences(containers, i, name);
      }
    }
  }

  /** The containers of the pod template, when the deployment has a spec and
      the template has a pod spec; none otherwise. */
  function Containers(d: Deployment): seq<Container> {
    if d.spec.Some? && d.spec.value.template.spec.Some? then d.spec.value.template.spec.value.containers
    else []
  }

  /** The error `get_env_from_secrets` reports when the deployment cannot be
      fetched. */
  function FetchError(client: KubernetesClient, e: string): string {
    "Failed to get deployment '" + client.deployment + "' in namespace '" + client.namespace
      + "' with context '" + client.context + "': " + e
  }

  /** `get_env_from_secrets`: collects the referenced names container by
      container and source by source, then sorts them and drops repeats. */
  method GetEnvFromSecrets(client: KubernetesClient, fetched: Result<Deployment, string>)
    returns (r: Result<seq<string>, string>)
    ensures fetched.Failure? ==> r == Failure(FetchError(client, fetched.error))
    ensures fetched.Success? ==> r == Success(Dedup(Sort(ContainerRefs(Containers(fetched.value)))))
  {
    if fetched.Failure? {
      return Failure(FetchError(client, fetched.error));
    }
    var deployment := fetched.value;
    var secretNames: seq<string> := [];
    if deployment.spec.Some? {
      var template := deployment.spec.value.template;
      if template.spec.Some? {
        var containers := template.spec.value.containers;
        for i := 0 to |containers|
          invariant secretNames == ContainerRefs(containers[..i])
        {
          var container := containers[i];
          assert containers[..i + 1][..i] == containers[..i];
          if container.envFrom.Some? {
            var envFrom := container.envFrom.value;
            for k := 0 to |envFrom|
              invariant secretNames == ContainerRefs(containers[..i]) + SourceRefs(envFrom[..k])
            {
              assert envFrom[..k + 1][..k] == envFrom[..k];
              if envFrom[k].secretRef.Some? {
                secretNames := secretNames + [envFrom[k].secretRef.value.name];
              }
            }
            assert envFrom[..|envFrom|] == envFrom;
          }
        }
        assert containers[..|containers|] == containers;
      }
    }
    secretNames := Sort(secretNames);
    secretNames := Dedup(secretNames);
    return Success(secretNames);
  }

  /** The names returned are strictly ascending, so sorted and free of
      repeats, and a name is returned exactly when some container of the pod
      template has an `envFrom` source with a secret reference of that name;
      a deployment without a spec or pod spec gives none. */
  lemma SecretNamesSpec(d: Deployment, name: string)
    ensures var names := Dedup(Sort(ContainerRefs(Containers(d))));
      && StrictlySorted(names)
      && (forall i, j :: 0 <= i < j < |names| ==> names[i] != names[j])
      && (name in names <==> exists i :: ContainerReferences(Containers(d), i, name))
      && (d.spec.None? || d.spec.value.template.spec.None? ==> names == [])
  {
    var refs := ContainerRefs(Containers(d));
    var names := Dedup(Sort(refs));
    StrictlySortedPairwise(names);
    assert name in Sort(refs) <==> name in refs by {
      assert name in multiset(Sort(refs)) <==> name in multiset(refs);
    }
    ContainerRefsIff(Containers(d), name);
  }

  /** The key/value map of a secret: every data key, its value read as
      UTF-8, and `""` for a value that is not valid UTF-8. */
  function SecretData(secret: Secret): map<string, string> {
    match secret.data
    case None => map[]
    case Some(data) => map k | k in data :: Utf8.Decode(data[k]).GetOr("")
  }

  /** `get_secret`: the fetch error, or the secret's key/value map. */
  function GetSecret(fetched: Result<Secret, string>): Result<map<string, string>, string> {
    match fetched
    case Failure(e) => Failure(e)
    case Success(secret) => Success(SecretData(secret))
  }

  /** Every data key is kept; a value holding the UTF-8 encoding of a text
      reads as that text, any other value as `""`; no data gives no keys. */
  lemma SecretDataSpec(secret: Secret, k: string)
    ensures secret.data.None? ==> SecretData(secret) == map[]
    ensures secret.data.Some? ==> SecretData(secret).Keys == secret.data.value.Keys
    ensures secret.data.Some? && k in secret.data.value ==>
      var bytes := secret.data.value[k];
      && (forall s :: bytes == Utf8.Encode(s) ==> SecretData(secret)[k] == s)
      && (Utf8.Decode(bytes).None? ==> SecretData(secret)[k] == "")
      && (SecretData(secret)[k] != "" ==> Utf8.Encode(SecretData(secret)[k]) == bytes)
  {
    if secret.data.Some? && k in secret.data.value {
      var bytes := secret.data.value[k];
      forall s | bytes == Utf8.Encode(s)
        ensures SecretData(secret)[k] == s
      {
        Utf8.DecodeEncode(s);
      }
      if Utf8.Decode(bytes).Some? {
        Utf8.EncodeDecode(bytes);
      }
    }
  }
}
