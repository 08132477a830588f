# gass: secret-call planning, workflow scanning and argument parsing in Dafny

gass keeps the Actions secrets of GitHub repositories in line with a YAML file. For each
configured repository it works out which secrets to create, update or delete. It warns when a
secret that a workflow still uses is about to be deleted. Then it applies the calls, unless the
run is dry.

This project models the pure logic of that tool:

- `Secrets`: the `SecretValue` record, how a YAML node decodes into one (`UnmarshalYAML`), and how
  its plaintext is realised (`GetRealizedValue`). The literal value is used as is, or the named
  environment variable is read, giving "" when it is unset.
- `Plan`: `computeCalls`. Each desired secret is realised and encrypted. It becomes a create, or
  an update when its name is in the remote list. When `deleteUnspecified` is set, every remote
  name that no create or update claimed becomes a delete. Go's map iteration order is not fixed,
  so `ComputeCalls` visits names in an arbitrary order. Its contract is the set-level description
  `IsPlan`, and `PlanIsDetermined` shows that this description fixes the calls up to order.
- `Report`: the reporting pass of `main`. It counts deletions of secrets that workflows use. It
  also lists the used secrets that no create or update of the same repository provides.
- `Workflows`: the scan inside `getUsedSecrets`. The pattern `\${{\s*secrets\.([^}\s]+)\s*}}` is
  a matcher that works left to right and never overlaps. It is proved sound and complete against
  a declarative `ReferenceAt`, and its matches are proved leftmost. Each match adds the file to the
  name's set. The file filter and the early `break` are modelled as written.
- `Args`: `ParseArgs` (parseargs/parseargs.go) and the older `parseArgs` (main.go). Both share
  one state machine folded over the arguments. `FoldMeaning` and `AwaitsFileParity` describe the
  fold by token position. A token is taken as a file exactly when an odd run of `--file` flags
  comes before it.
- `Run`: `main` and `applyChanges`. It plans every repository of every file, reports, and sends
  each call in order.

The collaborators are parameters. The environment is a `map`. `encrypt` is a function that may
fail. The remote secret list, the public key, the workflow directory listing and `loadYaml` are
fields of a `Remote` value.

How the model follows the code:

- The code follows its own logic where its message says otherwise. When a workflow-used secret
  is set for deletion, `main` prints that it is "Exiting without doing anything". Nothing returns
  after that message, so a run that is not dry still applies every call (main.go:183-193).
  `Conclude` models this, and `WarnedRunStillDeletes` shows such a run still removing the secret.
- A desired secret that fails to realise or encrypt is skipped. It is then deleted if it exists
  remotely and `deleteUnspecified` is set. So the delete set is the remote names minus the
  secrets that were sealed, not minus all desired names. The model follows the code here.
- The workflow filter accepts names that END in ".yml" or that START with ".yaml". The scan stops
  after the first accepted file. Both are modelled as written (`YamlSuffixSkipped`,
  `UsedSecretsStopsAtFirst`).
- A used secret is reported "missing" when no create or update of the repository names it. The
  comment above the pass (main.go:133) says missing means not set on the repository and not in
  the YAML file. The check itself (main.go:174-178) never looks at the remote list, so a secret
  that is set on the repository, used by a workflow and absent from the YAML file is still
  reported missing. The model follows the code, and `SetOnRemoteStillMissing` shows such a case.
- A secret written with a null value (`FOO:` or `FOO: ~`) never reaches `UnmarshalYAML`: the YAML
  library leaves the zero `SecretValue`, whose type is "". `GetRealizedValue` rejects it, so
  `computeCalls` skips the secret, and with `deleteUnspecified` set it deletes the secret when it
  exists remotely. `DecodeEntry` and `NullSecretDeleted` model this.
- main.go plans repository secrets only. github/github.go also has request wrappers for
  environment secrets (`PutSecretForEnv`, `DeleteSecretForEnv`) and organisation secrets
  (`PutSecretForOrg` with `visibility` and `selected_repository_ids`, `DeleteSecretForOrg`).
  main.go never calls them. No resolution of repository names to ids for visibility exists
  anywhere, so none is modelled.

## Model

| member | source | states |
|---|---|---|
| Secrets.Unmarshal | main.go:75-95 | For a node that is not null: a string node decodes to type "value" holding that string. A mapping decodes to type "fromEnv" exactly when it has a `fromEnv` key. Anything else is an error. A successful decode has one of the two types. |
| Secrets.GetRealizedValue | main.go:97-104 | Type "value" yields `Value`. Type "fromEnv" yields the environment entry, or "" when it is unset, and never an error. It fails exactly when the type is neither. |
| Secrets.DecodeEntry | main.go:42-52 | A null entry becomes the zero `SecretValue` (type "") without error. Any other node is decoded by `UnmarshalYAML`. A decoded value has type "" exactly when the node was null. |
| Secrets.DecodedSecretsRealize | main.go:75-104 | Every secret that `UnmarshalYAML` accepts can be realised, whatever the environment holds. A string's plaintext is the string itself. |
| Secrets.NullEntryNeverRealizes | main.go:97-104 | A null entry decodes, but its plaintext can never be obtained. |
| Plan.ComputeCalls | main.go:247-300 | A create or update is emitted exactly for the desired secrets that were realised and encrypted. Each carries the encrypt output, and it is an update exactly when its name is in the remote list as fetched. Deletes name exactly the remote names minus those secrets when `deleteUnspecified` is set, and nothing otherwise. Deletes carry "". Creates and updates precede deletes. Names are distinct. Repository and key id are copied. |
| Plan.PlanIsDetermined | main.go:261-297 | Any two call lists valid for the same inputs hold the same calls and have the same length, so only the order depends on map iteration. |
| Plan.CallsCounted | main.go:261-297 | With distinct names, the create/update names and the delete names are disjoint, and together they count every call. |
| Plan.NullSecretDeleted | main.go:261-297 | A secret configured as null is never created or updated. It is deleted exactly when `deleteUnspecified` is set and the name is on the remote. |
| Plan.CreateAndDeleteScenario | main.go:274-296 | Desired {FOO: "bar"}, remote [BAZ], deletion on: the calls are exactly [create FOO with its encryption, delete BAZ]. |
| Report.TallyCalls | main.go:139-172 | After the loop over a repository's calls, the specified names are those of the creates and updates. The counter is zero exactly when no deleted name is used by a workflow. With distinct names it equals the number of deleted names that workflows use. |
| Report.ReportRepo | main.go:136-178 | "missing" is exactly the used secrets that no create or update names. The unsafe count is zero exactly when no deletion hits a used secret. |
| Report.CountUnsafe | main.go:134-146 | The run-wide counter is zero exactly when no repository deletes a secret its workflows use. |
| Report.ReportOfPlan | main.go:136-178 | For calls planned by `computeCalls`: the unsafe count is the number of used remote names left over for deletion (0 when deletion is off). Missing is the used secrets that were not sealed. |
| Report.SetOnRemoteStillMissing | main.go:133-178 | Nothing desired, FOO on the remote and used by ci.yml, deletion off: no call is planned, and FOO is reported missing although it is set on the repository. |
| Report.InUseDeletionScenario | main.go:141-158 | Nothing desired, FOO remote and used by ci.yml, deletion on: the unsafe counter grows by one. |
| Workflows.SkipSpaces | main.go:453 | The greedy `\s*` run: every character skipped is whitespace, and the next one is not. |
| Workflows.SkipName | main.go:453 | The greedy `[^}\s]` run: every character skipped is a name character, and the next one is not. |
| Workflows.MatchAt | main.go:453 | A match found at a position is a reference there, by the declarative definition. |
| Workflows.MatchAtComplete | main.go:453 | Every reference that starts at a position is found there, with the same name and end. |
| Workflows.NoMatchNoReference | main.go:453 | Where the matcher fails, no reference starts. |
| Workflows.MatchesFrom | main.go:472 | Every match reported is a reference, and consecutive matches do not overlap. |
| Workflows.MatchesFromLeftmost | main.go:472 | No reference starts before the first match, between two matches, or after the last. |
| Workflows.ReferencedNamesSound | main.go:472-473 | Every name collected is the name of a reference occurring in the text. |
| Workflows.NoMatchesIffNoReferences | main.go:453-473 | No name is collected exactly when the text contains no reference at all. |
| Workflows.AddReferences | main.go:472-478 | The keys grow by exactly the matched names. Each matched name's set gains the file, other sets stay as they were, and repeats collapse. |
| Workflows.CollectFile | main.go:472-478 | One file's scan adds the file to the set of exactly the names referenced in it. |
| Workflows.UsedSecrets | main.go:455-483 | With no accepted file the map is empty. Otherwise only the first accepted file counts. A failed download is an error. Otherwise each name referenced there maps to exactly that file. |
| Workflows.UsedSecretsStopsAtFirst | main.go:457-481 | Entries after the first accepted file never change the result. |
| Workflows.YamlSuffixSkipped | main.go:458-460 | A file named "ci.yaml" is skipped, whatever it references. |
| Workflows.SingleReference | main.go:453-473 | A text whose only `$` opens one reference yields exactly that name. |
| Workflows.CollectOneSecret | github/collect_secrets_test.go:9-16 | The test's text in file "one.yaml" gives {ONE_SECRET: {one.yaml}}. |
| Args.FoldMeaning | parseargs/parseargs.go:25-40 | After the loop: IsDry holds exactly when a `--dry` occurs that was not taken as a file. Files is the tokens taken as files, in order, and nil when there are none. The loop still awaits a file exactly when the input ends in an unconsumed `--file`. |
| Args.AwaitsFileParity | parseargs/parseargs.go:26-37 | A token is taken as a file exactly when an odd number of consecutive `--file` tokens come before it. |
| Args.ParseArgsLegacy | main.go:218-245 | Action is "". `--dry` sets IsDry unless it was taken as a file. Each token after an unconsumed `--file` is appended verbatim. Files stays nil when no file value was given. |
| Args.FileFlagTakesNextToken | main.go:227-241 | The token after `--file` is appended even when it is "--dry" or "--file", after the files already collected, and IsDry is unchanged. |
| Args.TrailingFileFlagIgnored | main.go:227-241 | A trailing `--file` with nothing after it changes nothing. |
| Args.ParseArgs | parseargs/parseargs.go:9-47 | Needs a first argument. "--help", "-h" or "help" gives {help, not dry, nil}. Otherwise the action is "sync" or "", only the rest is parsed, and Files is the collected files or ["secrets.yml"], never empty. |
| Args.ParseJustSync | parseargs/main_test.go:8-13 | `ParseArgs(["sync"])` = {sync, not dry, ["secrets.yml"]}. |
| Run.PlanRepo | main.go:124-129 | The entry for one repository holds valid `computeCalls` output for its remote list, its public key and the environment, carries the key id, and holds the repository's scanned used secrets (empty on error). |
| Run.PlanFile | main.go:124-130 | One entry per repository of a file, in the file's order, each planned as `PlanRepo` states. |
| Run.PlanAll | main.go:118-131 | One entry per repository of every file, in file order. Each entry holds valid `computeCalls` output for that repository's remote list, key and environment, plus the repository's scanned used secrets (empty on error). |
| Run.RepoRequests | main.go:198-213 | One request per call, in call order: a delete becomes a DELETE, a create or update a PUT with the repository's key id. |
| Run.ApplyChanges | main.go:196-216 | Exactly one request is sent per call, summed over all repositories: nothing else is sent. |
| Run.ApplyChangesOrder | main.go:196-216 | The request for call i of repository k comes right after all requests of the earlier repositories. |
| Run.PutsBeforeRemoves | main.go:196-216 | When creates and updates come first, every PUT is sent before every DELETE of that repository. |
| Run.Conclude | main.go:133-193 | There is one report per repository. The warning is raised exactly when some deletion hits a used secret, which is exactly when the run-wide counter is positive. A dry run sends nothing. Any other run sends every call, with or without the warning. |
| Run.Execute | main.go:106-194 | With no `--file`, nothing happens. Otherwise every configured repository is planned, and the run ends as `Conclude` says. |
| Run.WarnedRunStillDeletes | main.go:183-193 | A run that is not dry and deletes an in-use FOO raises the warning and still sends the DELETE for FOO. |

## Left out

- HTTP and authentication (`makeGithubRequest`, `getSecretList`, `getPublicKey`, `putSecret`, `deleteSecret`, the listing and download half of `getUsedSecrets`): they are network I/O. Their results are `Remote` fields, and requests are values of type `Request`.
- A failed `putSecret` or `deleteSecret` is only logged and changes nothing that follows (main.go:200-210). So the model sends the same requests whatever their outcomes are.
- Run-ending failures: the model assumes none happens. A failed request or JSON decode in `getSecretList` or `getPublicKey` ends the process through `log.Fatalln` before anything is applied (main.go:318-321, 335-338, 349-358). So does a failed workflow listing: its body stays nil and the JSON decode fails (main.go:445-451). A `Remote` always answers.
- `encrypt` (base64 key decoding, NaCl anonymous sealed box, base64 output): foreign crypto with randomness. It is an injected function that may fail, and a failure skips that one secret. The model treats the value it returns for a given key and plaintext as given, rather than fresh on every call. A key that decodes to fewer than 32 bytes makes the conversion at main.go:309 panic, which ends the whole run; the model does not represent that. A longer key is silently cut to its first 32 bytes, which stays inside the injected function.
- `loadYaml` and the YAML library: file I/O and library decoding. A file's repositories come from `Remote.loadYaml`. Errors from opening, reading or decoding the file are printed or ignored (main.go:421-436), so whatever was decoded is used. `UnmarshalYAML` is modelled over an abstract `YamlNode` that is a null, a string, a string map, or something else. The free-form `Vars` field plays no part.
- Secrets.Unmarshal: requires a node that is not null, because the YAML library never calls `UnmarshalYAML` on a null node. `DecodeEntry` covers that case. `DecodedSecretsRealize` holds only for the nodes `UnmarshalYAML` sees; a null entry never realises (`NullEntryNeverRealizes`).
- Console output, ANSI styles, the "(used in …)" file list and `log.Fatalln` exits: presentation and process termination.
- github/github.go and `CollectFilesBySecret`: request building, and a function that is not part of this model. Its test only gives the expected value that `CollectOneSecret` checks against `CollectFile`.
- The unused `isDry` parameter of `computeCalls`: it plays no part in the result.
- The pattern works on runes of UTF-8 bytes in Go. Here it works on `char`, with no invalid-byte handling.
- Report.TallyCalls: the exact count is stated only when call names are distinct, which `computeCalls` guarantees. For arbitrary lists the contract only bounds the count and states when it is zero.
- Args.ParseArgs: Go panics on an empty argument list. The model requires a first argument instead of modelling the panic.
