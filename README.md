# nais-env in Dafny

nais-env is a library of helpers for gathering the environment of a NAIS
application:

- it reads the application's descriptor (`nais.yaml`, a document of kind
  `Application`), optionally after substituting template variables into it;
- it takes the environment variables the descriptor lists;
- it collects the Kubernetes secrets that the deployment loads with `envFrom`,
  and reads their key/value data;
- it merges local `KEY=VALUE` env files;
- it has a helper that adds a given file to the git repository's local
  exclude list.

This project models that core, one Dafny module per Rust file, and proves
what each operation promises:

- `EnvFile` (`src/env_file.rs`): the line parser, with its trimming, comments,
  first `=`, quote stripping and empty keys. It has loops over one file and
  over several files. The contracts cover read errors, which keys are kept,
  last-wins values and a round trip for every way of writing an entry.
- `Nais` (`src/nais.rs`): the descriptor types, the `kind: Application` check,
  both constructors with their error, refusal and panic outcomes, and
  `get_env_vars` as a loop into a map.
- `YamlVars` (`src/yaml_vars.rs`): `yaml_to_json`, covering the integer ranges
  of `as_i64`/`as_u64`, non-finite floats, string keys only and tags that are
  transparent in value positions. Also the fallback of `substitute_variables`, with the template engine
  as a parameter.
- `OAuth` (`src/oauth.rs`): `new_from_env` with its two errors and the order in
  which it chooses the endpoint, plus the client, token and error types.
- `Git` (`src/git.rs`):
  - the path below the repository root, falling back to the file name;
  - the update of the exclude file as the program writes it, as a class whose
    content the method changes, and the update it evidently intends.
- `KubernetesClient` (`src/kubernetes_client.rs`): the sorted, de-duplicated
  secret names referenced through `envFrom`, and the secret data map, in which
  invalid UTF-8 reads as `""`.

Shared helpers model the parts of the Rust standard library the core relies on:

- `Text`: `str::trim`, `trim_matches`, `find`, `contains`, `lines`.
- `Assoc`: `BTreeMap` built by inserting in order.
- `Utf8`: the strict decoder behind `String::from_utf8`, proved inverse to
  encoding.
- `Wrappers`: `Option` and `Result`.
- `RustInts`: the `u16`, `u32` and `u64` ranges used by the descriptor, token and number types.

The file system, the `git` subprocesses, the Kubernetes API,
the YAML parser and the Handlebars engine are cut off: their outcomes are
parameters. For example, a file is passed as the outcome of opening it and
of reading each of its lines, and `parse` and the template engine are passed
as functions.

The OAuth part of the code has only configuration: the authorization and
token-exchange methods (`src/oauth.rs:80-105`) are `todo!()` stubs.

## Model

| member | source | states |
|---|---|---|
| EnvFile.LineEntry | src/env_file.rs:24-39 | the entry of one line: none for blank and `#` lines or lines without `=`, else the trimmed text before the first `=` and the trimmed, unquoted text after it, none when the key is empty; its properties are stated by `LineEntrySpec` and `LineRoundTrip` |
| EnvFile.LineEntrySpec | src/env_file.rs:24-39 | blank and `#` lines and lines without `=` give nothing; an entry's key is non-empty, free of `=`, has no whitespace at either end, does not start with `#`, starts the trimmed line and is followed only by whitespace up to the first `=`; its value has no quote at either end |
| EnvFile.LineRoundTrip | src/env_file.rs:24-39 | any way of writing an entry parses back to it: whitespace around the line and around `=`, and any run of `"` and `'` around the value; a value without an opening (closing) quote must not start (end) with whitespace |
| EnvFile.QuotedLineRoundTrip | src/env_file.rs:30-38 | a line `k="v"` parses back to `(k, v)` for every well-formed key and every value without quotes at its ends (inner `=` and outer whitespace of the value survive) |
| EnvFile.BareLineRoundTrip | src/env_file.rs:30-38 | a line `k=v` parses back to `(k, v)` when `v` has neither whitespace nor quotes at its ends |
| EnvFile.EntriesSnoc | src/env_file.rs:37-39 | a line without an entry leaves the map as it is; a line with one sets that key and changes nothing else |
| EnvFile.EntriesKeys | src/env_file.rs:20-41 | the keys of a file are exactly the keys its lines yield |
| EnvFile.EntriesLastWins | src/env_file.rs:38 | the value of a key is the one on the last line that yields it |
| EnvFile.ReadAllSpec | src/env_file.rs:20-21 | a file fails exactly when a line read fails, with the first such error; otherwise all its lines are delivered in order |
| EnvFile.ReadAllPrefixFailure | src/env_file.rs:21 | once an earlier line read fails, later lines do not matter |
| EnvFile.ParsedFile | src/env_file.rs:15-44 | the outcome of parsing one file: the open error, the first line error, or the map of its lines' entries; stated by `ReadAllSpec`, `EntriesKeys` and `EntriesLastWins` |
| EnvFile.ParseEnvFile | src/env_file.rs:15-44 | the loop returns the open error, the first line error, or the map of the lines' entries inserted in order |
| EnvFile.ParseMultipleEnvFiles | src/env_file.rs:55-68 | the loop returns the first failing file's error or the files' maps laid over each other in order |
| EnvFile.Merged | src/env_file.rs:55-68 | the outcome of merging files: the first file error, or each file's map laid over the previous ones; stated by the `Merged*` lemmas |
| EnvFile.MergedPrefixFailure | src/env_file.rs:61 | once an earlier file fails, later files do not matter |
| EnvFile.MergedFailure | src/env_file.rs:61 | merging fails exactly when some file fails, with the error of the first one |
| EnvFile.MergedSnoc | src/env_file.rs:64 | one more file that parses is laid over the merge so far |
| EnvFile.MergedKeys | src/env_file.rs:60-65 | the merged keys are exactly those some file defines |
| EnvFile.MergedLastFileWins | src/env_file.rs:62-64 | a merged key has its value from the last file that defines it |
| Nais.ApplicationKindIff | src/nais.rs:310-315 | the content passes the kind check exactly when one of the three `kind: Application` spellings occurs in it |
| Nais.New | src/nais.rs:302-323 | `new`: read, check the kind, parse; its outcomes are stated by `NewOutcomes` |
| Nais.NewOutcomes | src/nais.rs:302-323 | a read error is reported with the path; content without a kind marker is refused before parsing; a parse error panics; success exactly when reading, the check and parsing all succeed; the loader then holds the parsed descriptor, and its namespace and name are what `get_namespace` and `get_deployment` return |
| Nais.NewWithVariablesAndTemplate | src/nais.rs:348-375 | `new_with_variables_and_template`: read, substitute, check the kind of the substituted text, parse; stated by the two lemmas below |
| Nais.NewWithVariablesChecksProcessed | src/nais.rs:348-375 | the variables variant refuses exactly when the substituted text has no kind marker, returns that text with the loader, and agrees with `new` on it |
| Nais.NewWithVariablesFallsBack | src/nais.rs:360 | when the template cannot be registered, the variables variant behaves as `new` on the raw text |
| Nais.NaisConfigLoader.GetNamespace | src/nais.rs:391-393 | the descriptor's namespace, as `NewOutcomes` states for a loaded descriptor |
| Nais.NaisConfigLoader.GetDeployment | src/nais.rs:409-411 | the descriptor's name, as `NewOutcomes` states for a loaded descriptor |
| Nais.NaisConfigLoader.GetEnvVars | src/nais.rs:425-433 | the loop builds the map of the listed variables inserted in order |
| Nais.EnvVarsKeys | src/nais.rs:427-431 | the map's keys are exactly the listed names; no `env` list gives an empty map |
| Nais.EnvVarsLastWins | src/nais.rs:429 | a name maps to the value of its last listing, or `""` when that listing has none |
| Nais.EnvVarsIgnoreValueFrom | src/nais.rs:146-152 | `valueFrom` plays no part in the map |
| YamlVars.ToJson | src/yaml_vars.rs:94-127 | the JSON form of a YAML value; stated by `NumberToJsonExact`, `MappingKeys`, `MappingLastWins`, `SequenceElementwise` and `TagsTransparent` |
| YamlVars.NumberToJsonExact | src/yaml_vars.rs:98-110 | integers keep their exact value across the `i64`/`u64` branches; finite floats keep their bits; NaN and the infinities become `null` |
| YamlVars.MappingKeys | src/yaml_vars.rs:116-124 | an object has exactly the mapping's string keys; entries with other keys are dropped |
| YamlVars.MappingLastWins | src/yaml_vars.rs:118-121 | a key's field is the converted value of its last entry |
| YamlVars.SequenceElementwise | src/yaml_vars.rs:112-115 | a sequence becomes an array of the same length, element by element |
| YamlVars.TagsTransparent | src/yaml_vars.rs:125 | removing the tags from every value position, at any depth, does not change the JSON value |
| YamlVars.TaggedKeyDropped | src/yaml_vars.rs:116-124 | a tag on a mapping key is not transparent: an entry whose key is a tagged string gives no field |
| YamlVars.YamlToJson | src/yaml_vars.rs:94-127 | the recursive conversion computes the conversion described by the lemmas above |
| YamlVars.SequenceToJson | src/yaml_vars.rs:112-115 | the loop over a sequence builds the array of the converted items |
| YamlVars.MappingToJson | src/yaml_vars.rs:116-124 | the loop over a mapping builds the object of the string-keyed entries, converted and inserted in order |
| YamlVars.SubstituteVariables | src/yaml_vars.rs:62-88 | `substitute_variables` with the engine as a parameter; stated by `SubstituteVariablesFallback` |
| YamlVars.SubstituteVariablesFallback | src/yaml_vars.rs:62-88 | the result is the content itself when registering or rendering fails, and the rendered text when both succeed |
| YamlVars.SubstituteSeesJsonOnly | src/yaml_vars.rs:77-81 | variables with the same JSON form substitute alike |
| OAuth.NewFromEnv | src/oauth.rs:33-77 | a missing client id or secret is an `InvalidRequest` with its message, checked in that order; success exactly when both are present; the endpoint base is the configured token endpoint, else the tenant's URL, else the common one; the redirect URI defaults to `""` |
| OAuth.NewFromEnvRoundTrip | src/oauth.rs:33-77 | every client is what `new_from_env` builds from the environment that describes it |
| OAuth.NewFromEnvReadsOnlyItsKeys | src/oauth.rs:37-69 | environments that agree on the five keys give the same outcome |
| OAuth.TokenEndpointOverridesTenant | src/oauth.rs:50-63 | a configured token endpoint wins over any tenant id |
| Git.RelativePathFromRepoRoot | src/git.rs:130-144 | the path of a file below the repository root; stated by `RelativePathSpec` |
| Git.StripPrefix | src/git.rs:140-143 | `strip_prefix` succeeds exactly when the root is a component-wise prefix of the same kind, and the rest completes the path |
| Git.RelativePathSpec | src/git.rs:130-144 | a file below the root, given absolutely or relative to the current directory, is named by its components below the root; conversely any path found, for an absolute or a relative file, is such a rest of the file's full path, and the root is of the same kind; a relative file has no path when the current directory is unknown |
| Git.ExcludeEntry | src/git.rs:59-67 | the recorded entry is the path below the root if there is one, else the file name |
| Git.ExcludeEntryFallback | src/git.rs:59-67 | a file outside the root is recorded by its last component |
| Git.ExcludeUpdatedAsWritten | src/git.rs:70-91 | the program's update of the exclude file: unchanged when the entry is a line, else the header line (when no line is the header) and the entry line appended directly after the content; stated by the `AsWritten*` lemmas |
| Git.AddToGitExclude | src/git.rs:48-98 | outside a repository or without an exclude file nothing changes; otherwise the file becomes the program's update with the recorded entry |
| Git.AsWrittenWhenTerminated | src/git.rs:79-91 | on a file that is empty or ends in a line ending, the program's update is the corrected one |
| Git.AsWrittenLines | src/git.rs:70-91 | on such a file, a listed entry leaves it unchanged; otherwise every existing line is kept, the header follows when no line was the header, and the entry is the last line |
| Git.AsWrittenIdempotent | src/git.rs:74-76 | on such a file, adding the same entry twice is adding it once |
| Git.AsWrittenHeaderOnce | src/git.rs:86-88 | on such a file, when it has the header, only the entry line is added |
| Git.GluedOntoLastLine | src/git.rs:86-91 | as written, a one-line file without a final line ending gets the header glued onto its line |
| Git.AsWrittenRepeatsEntry | src/git.rs:74-91 | as written, a file holding the header and then an unterminated line `a` gets the entry glued onto `a`, and a second update with the same entry appends it again |
| Git.TerminatedLines | src/git.rs:71 | adding a missing final line ending changes none of the lines that `str::lines` reads |
| Git.AppendedLines | src/git.rs:86-91 | appending to a text that ends in a line ending adds the header line when absent and then the entry line |
| Git.ExcludeUpdatedLines | src/git.rs:70-91 | the corrected update (a missing final line ending added first): a listed entry leaves the file unchanged; otherwise every existing line is kept, the header follows when no line was the header, and the entry is the last line |
| Git.ExcludeUpdatedIdempotent | src/git.rs:74-76 | the corrected update is idempotent on every file |
| Git.HeaderWrittenOnce | src/git.rs:86-88 | the corrected update adds only the entry line to a file that has the header |
| KubernetesClient.Insert | src/kubernetes_client.rs:137 | inserting into a sorted sequence keeps it sorted and adds exactly that name |
| KubernetesClient.Sort | src/kubernetes_client.rs:137 | sorting gives an ascending permutation |
| KubernetesClient.Dedup | src/kubernetes_client.rs:138 | dropping repeats keeps every name, keeps the first, and makes a sorted sequence strictly ascending |
| KubernetesClient.StrictlySortedPairwise | src/kubernetes_client.rs:137-138 | a strictly ascending sequence holds no name twice |
| KubernetesClient.SourceRefs | src/kubernetes_client.rs:126-130 | a name is collected from a container's sources exactly when one of them has a secret reference with that name |
| KubernetesClient.ContainerRefsIff | src/kubernetes_client.rs:121-134 | a name is collected exactly when some container references it |
| KubernetesClient.GetEnvFromSecrets | src/kubernetes_client.rs:105-141 | a fetch error is reported with deployment, namespace and context; otherwise the loops collect every referenced name, which is then sorted and de-duplicated |
| KubernetesClient.GetSecret | src/kubernetes_client.rs:68-90 | `get_secret`: the fetch error, or the secret's data map; stated by `SecretDataSpec` |
| KubernetesClient.SecretData | src/kubernetes_client.rs:76-87 | the data map of a secret, each value decoded from UTF-8 with `""` for invalid bytes; stated by `SecretDataSpec` |
| KubernetesClient.SecretNamesSpec | src/kubernetes_client.rs:121-140 | the names returned are strictly ascending and have no repeats; a name is returned exactly when some container references that secret; a deployment without a spec or pod spec gives none |
| KubernetesClient.SecretDataSpec | src/kubernetes_client.rs:76-87 | every data key is kept; the UTF-8 encoding of a text reads back as that text; invalid UTF-8 reads as `""`; any other value is the encoding of what it reads as; no data gives an empty map |
| KubernetesClient.LessTotal | src/kubernetes_client.rs:137 | any two distinct names are ordered one way or the other |
| KubernetesClient.LessTransitive | src/kubernetes_client.rs:137 | the name order is transitive |
| KubernetesClient.LessIrreflexive | src/kubernetes_client.rs:137 | no name sorts before itself |
| Utf8.Decode | src/kubernetes_client.rs:80 | the strict UTF-8 decoder of `String::from_utf8`; stated by `DecodeEncode` and `EncodeDecode` |
| Utf8.DecodeEncode | src/kubernetes_client.rs:80 | every string, encoded, is accepted by `from_utf8` and decodes back to itself |
| Utf8.EncodeDecode | src/kubernetes_client.rs:80 | any byte sequence `from_utf8` accepts is the encoding of what it decodes to, so overlong forms and surrogates are refused |

## Left out

- The authorization and token-exchange methods of the OAuth client (`src/oauth.rs:80-105`): they have no implementation in the code. The HTTP client field is not modelled either.
- File system I/O: a file read is given as the outcome of opening it and reading each line, and the exclude file as its content. Errors from writing the exclude file are not modelled, nor is what remains on disk after a failed write.
- Git.AddToGitExclude: the two failures before anything is written are not modelled: `read_to_string` of the exclude file fails (`src/git.rs:70`, for example on bytes that are not UTF-8) and opening it for appending fails (`src/git.rs:79-81`); in both the program returns the error and leaves the file unchanged, while the model always reads and appends.
- Git.AsWrittenIdempotent, Git.AsWrittenHeaderOnce, Git.AsWrittenLines: the program's update is proved idempotent and line-preserving only for a file that is empty or ends in a line ending, because on any other file it is not (`AsWrittenRepeatsEntry`, and the Findings).
- Git.ExcludeUpdatedIdempotent, Git.HeaderWrittenOnce: these hold of the corrected update only; for the program's own update they carry over through `AsWrittenWhenTerminated` to files that end in a line ending, and not beyond.
- The YAML parser (`serde_yaml::from_str`) and `parse_variables_file`: a descriptor's parser is a parameter, and variables are given as already parsed values.
- The Handlebars engine: a template engine is given by its register and render outcomes, and rendering itself is not modelled.
- The Kubernetes API and `KubernetesClient::new` (kube config, context selection): the fetched deployment or secret, or the fetch error, is a parameter.
- The `git` subprocesses (`is_in_git_repo`, `get_git_dir`, `get_git_exclude_path`, `get_repo_root`): their answers are parameters, and the panic of `get_repo_root` outside a repository is not modelled.
- `src/main.rs`: an out-of-date driver that loads the descriptor, calls methods that the other files do not define, and prints each variable (`src/main.rs:48-50`); it is not part of this model.
- Console output (`println!`, `eprintln!`) is not modelled.
- YAML floats are modelled by their 64-bit pattern only; their arithmetic value is not.
- Paths are modelled as components: the `.` components that `Path` skips and the textual form of non-UTF-8 paths are not modelled. The recorded entry is the components joined by single `/`, so its text can differ from what `to_string_lossy` of the stripped path gives: `/repo/a//b` and `/repo/a/./b` give `a//b` and `a/./b` in the program but `a/b` in the model.
- Git.ExcludeUpdatedLines: the line-level statement assumes that the entry contains no line ending and that the file does not end in a lone `\r`, because `str::lines` would read such text back differently.
- Nais.NewOutcomes: the panic is an outcome value here; the program aborts instead.

## Findings

| source | as written | input that shows it | evidently intended | confidence | as-written member | corrected member |
|---|---|---|---|---|---|---|
| src/git.rs:86-91 | the header and the entry are appended directly after the existing content, without first ending its last line | an exclude file holding `a` with no final line ending, entry `b`: the first line becomes `a# Added by nais-env`, and the pattern `a` is no longer listed | every existing line is kept, and the header and entry are new lines | not executed | Git.GluedOntoLastLine | Git.ExcludeUpdatedLines |
| src/git.rs:74-91 | the check for an existing entry reads the lines of a file whose last line may have had an entry glued onto it | an exclude file holding `# Added by nais-env`, a line ending and `a` with no final line ending, entry `b` added twice: the first update leaves the last line `ab`, so the second finds no line `b` and appends `b` again | adding the same entry twice is adding it once | not executed | Git.AsWrittenRepeatsEntry | Git.ExcludeUpdatedIdempotent |
