# automat build pipeline, modelled in Dafny

automat is a small continuous-integration build server. Its core is one build:

- **Project.** A *project* declares three things:
  - a name;
  - a map of source *components*, each with a url and a revision;
  - a list of *build steps*, each with a directory, a command line and environment declarations.
  It also has project-wide environment declarations.
- **Build order.**
  - `Project.Build` checks out every component, in ascending name order. It tries all of them even after one fails.
  - It then runs the steps in declaration order. Once a checkout or a step has failed, every later step is skipped.
- **Build record.** The outcome is kept in a `BuildRecord`:
  - one `CheckoutRecord` per component and one `StepRecord` per step, each with a status and a duration;
  - a fingerprint, which is the hex MD5 of a text built from the declared inputs and the commits the checkouts reported.
  The record is created before anything runs. Two setters then update it in place, one unit at a time.
- **Step environment.** Each step runs with a resolved environment. `ExpandEnvironment` starts from the host environment and applies the project's declarations, then the step's. Each value is expanded as Go's `os.Expand` does, against the table built so far. `BUILD_ROOT` always stands for the build root, and an unknown name expands to nothing.

Modules:

- `Text` (`text.dfy`): Go's byte-wise string order and `sort.Strings`. It proves that two sorted permutations are equal, so the component order depends only on the key set. It also models a Go `range` over a map as an arbitrary enumeration of the key set, and gives the `%d` formatting.
- `ProjectTypes` (`project_types.dfy`): the `Component` and `BuildStep` values.
- `Records` (`records.dfy`): `BuildStatus` and the checkout and step records. The `BuildRecord` class has its constructor (`NewBuildRecord`) and the two setters, each specified by a pure function of the old state.
- `Environment` (`environment.dfy`): `stepGetenv`, a model of `os.Expand`, the layered tables, and the `ExpandEnvironment` method.
- `Pipeline` (`pipeline.dfy`): what a build does, as functions of its inputs. It defines the statuses, the external calls made and the fingerprint text, with the lemmas about the failure policy.
- `Projects` (`projects.dfy`): the `Project` class with `NewProject`, `AddComponent`, `AddBuildStep` and `Build`. `Build` is an imperative method whose loops are proved against the `Pipeline` functions.

External effects are inputs:

- `checkouts` maps each component to the commit string its checkout reported, whether it succeeded, and its duration.
- `outcomes` gives each step's command result and duration.
- `host` is the host environment (`os.Environ()`).
- `digest` is the hex MD5 function.
- The calls `Build` makes are returned as a ghost trace of `Effect`s (`Checkout` and `Run`).

## Model

| member | source | states |
|---|---|---|
| Records.BuildStatus.Text | record.go:20-27 | The Go string of each status; only the zero status (the one a fresh record carries) is the empty string |
| Records.BuildRecord.constructor | record.go:54-70 | `NewBuildRecord`: the name is copied, the hash is empty, the components map has exactly the project's keys, each entry holding that component's name and url, revision `TBD`, zero duration and the zero status; one step record per step, in order, copying directory and command |
| Records.WithRevision | record.go:72-78 | The map after `SetRevision`: the key set grows by `cname` alone; that entry gets the new revision, duration and status, keeping its name and url (both empty when `cname` was absent); every other entry is unchanged |
| Records.BuildRecord.SetRevision | record.go:72-78 | Updates the components map in place to `WithRevision` of the old one and changes no other field |
| Records.WithStatus | record.go:80-85 | The list after `SetStatus`: same length; entry `index` gets the new status and duration and keeps directory and command; every other entry is unchanged |
| Records.BuildRecord.SetStatus | record.go:80-85 | For `index` within the list, updates the step list in place to `WithStatus` of the old one and changes no other field |
| Records.WithRevisionIdempotent | record.go:72-78 | Setting the same revision twice gives the same map as setting it once |
| Records.WithStatusIdempotent | record.go:80-85 | Setting the same step status twice gives the same list as setting it once |
| Projects.Project.constructor | project.go:46-53 | `NewProject`: empty name, no components, no steps, no environment |
| Projects.Project.AddComponent | project.go:55-61 | The component map gains (or replaces) the entry for `name` with the given url and revision; nothing else changes |
| Projects.Project.AddBuildStep | project.go:63-70 | The step list grows by one step at the end, with an empty environment; nothing else changes |
| Projects.Project.Build | project.go:123-188 | The returned record is new. Its components map is `CheckoutRecords` and its steps are `StepRecords` with the failure flag `CheckoutFailed`. Its hash is the digest of `FingerprintInput`, which is built from the declared inputs and the reported commits only. The external calls are the checkouts in ascending name order, then the step runs |
| Projects.ComponentNames | project.go:135-142 | The collected and sorted names are `SortedNames` of the component keys, whatever order the map was visited in |
| Projects.CheckoutComponents | project.go:143-155 | After the checkout loop, the components map is `CheckoutRecords` and the failure flag says whether some checkout failed. The fingerprint lines and the calls made follow the sorted names |
| Projects.CheckoutOne | project.go:144-154 | One checkout: the entry is set to the outcome's commit, duration and status; the flag becomes set on failure |
| Projects.RunBuildSteps | project.go:157-182 | After the step loop, the step list is `StepRecords`, the fingerprint lines are `StepLines` of the declared steps, and the commands launched are `StepRuns` |
| Projects.RunStep | project.go:159-177 | One step: skipped and not run when the flag is set; otherwise its command is launched in `<root>/<directory>`, its status is its outcome, and a failure sets the flag |
| Projects.CommandText | project.go:179-181 | The fingerprint text of a command: `k: arg` and a newline for each element |
| Pipeline.CheckoutRecords | project.go:143-155 | The components map of a finished build has exactly the project's keys |
| Pipeline.CheckoutFailed | project.go:143-155 | Defined as: some component's checkout did not succeed (the `buildFailed` flag on leaving the checkout loop) |
| Pipeline.CheckoutCalls | project.go:143-147 | One checkout call per name, in the order of the names, whatever the earlier checkouts gave |
| Pipeline.CheckoutCallsAt | project.go:143-147 | The `i`-th checkout call checks out the `i`-th name's component with its declared url and revision |
| Pipeline.BuildChecksOutInOrder | project.go:135-155 | One checkout call per component; the `i`-th is the `i`-th in ascending name order; each later name is strictly greater |
| Pipeline.RecordCheckoutsKeys | record.go:72-78 | Recording checkouts of known components leaves the key set unchanged |
| Pipeline.RecordCheckoutsAt | project.go:143-155 | Recording checkouts one by one gives each recorded component its own outcome and leaves the others alone |
| Pipeline.RecordAllCheckouts | project.go:143-155 | Recording every component's checkout, in any enumeration order, gives `CheckoutRecords` |
| Pipeline.AnyFailedExactly | project.go:148-150 | The failure flag after the checkout loop is set exactly when some component's checkout failed |
| Pipeline.StepStatuses | project.go:158-178 | One status per step |
| Pipeline.StepRecords | project.go:158-178 | One record per step, in declaration order: the step's directory and command, its measured duration and its status from `StepStatuses` |
| Pipeline.StepRuns | project.go:158-166 | At most one command launch per step, none at all when a checkout failed; a step's command (program `Command[0]`, arguments `Command[1:]`, directory `<root>/<directory>`) is launched exactly when the failure flag is clear on reaching it |
| Pipeline.RecordStepsEntries | project.go:158-178 | Recording the first steps gives each its status and duration and leaves later steps and every directory and command untouched |
| Pipeline.RecordAllSteps | project.go:158-178 | Recording every step's status into a fresh list gives `StepRecords` |
| Pipeline.FailedAfterExactly | project.go:160-172 | The flag is set after some steps exactly when it was set before them or one of them failed |
| Pipeline.StepStatusExactly | project.go:158-178 | Step `i` is skipped exactly when a checkout failed or an earlier step failed; otherwise it is OK or failed according to its own outcome |
| Pipeline.StatusesAreOutcomes | project.go:166-178 | Every step ends OK, failed or skipped |
| Pipeline.SkipCascade | project.go:168-176 | After a failed step, every later step is skipped |
| Pipeline.StatusesPrefix | project.go:158-178 | A step's status depends only on the steps up to it, so the steps before a failure keep their statuses |
| Pipeline.CheckoutFailureSkipsAll | project.go:148-150 | With a failed checkout, every step is skipped and no command runs |
| Pipeline.NoRunAfterFailure | project.go:160-166 | Once step `i` has failed, the commands run are those of the steps up to `i` |
| Pipeline.SingleComponentLines | project.go:154 | A component's fingerprint line is `url name commit` and a newline |
| Pipeline.ComponentLine | project.go:154 | Defined as the text `url name commit` and a newline, as the `%s %s %s\n` format writes it |
| Pipeline.ComponentLines | project.go:143-155 | Defined as the component lines of the names, in the order given |
| Pipeline.CommandLines | project.go:179-181 | Defined as `k: arg` and a newline for each command element, `k` its index in `%d` form |
| Pipeline.StepLines | project.go:177-182 | Defined as, per step in declaration order, the directory, its command lines and a newline; no outcome enters it |
| Pipeline.FingerprintInput | project.go:134-184 | Defined as `Components:\n`, the component lines in ascending name order with the reported commits, `Steps:\n`, then the step lines; it takes no step outcome, so it is the same whether steps ran, failed or were skipped |
| Pipeline.SingleStepLines | project.go:178-182 | A one-word step's fingerprint text is its directory, `0: program`, a newline and an empty line |
| Pipeline.FingerprintExample | project.go:134-184 | A one-component, one-step project fingerprints `Components:\n<url> <name> <commit>\nSteps:\n<dir>0: <program>\n\n` |
| Text.SortStrings | project.go:142 | `sort.Strings` yields an ascending permutation of its input |
| Text.LessEq | project.go:142 | Defined as Go's string `<=`: a prefix sorts first, otherwise the first differing character decides |
| Text.LessEqReflexive | project.go:142 | The string order is reflexive |
| Text.LessEqAntisymmetric | project.go:142 | The string order is antisymmetric |
| Text.LessEqTransitive | project.go:142 | The string order is transitive |
| Text.LessEqTotal | project.go:142 | Any two strings are comparable |
| Text.SortedPermutationsEqual | project.go:142 | Two ascending permutations of the same strings are equal |
| Text.SortEnumeration | project.go:137-142 | Sorting any enumeration of the component keys gives `SortedNames`, so the order does not depend on map insertion or iteration order |
| Text.SortedNames | project.go:135-142 | The names visited are sorted and list every component key exactly once |
| Text.EnumerationLength | project.go:135-140 | An enumeration of a key set has one element per key |
| Text.Decimal | project.go:180 | `%d` of an index is a non-empty string of decimal digits, a single digit exactly for numbers below ten, with no leading zero |
| Text.DecimalValue | project.go:180 | The digits `%d` writes denote the index formatted |
| Environment.Getenv | project.go:193-202 | `stepGetenv`: `BUILD_ROOT` gives the build root whatever the table holds; any other name gives its table value, or the empty string when absent |
| Environment.ShellName | project.go:212 | Go's `getShellName`: a bare name is exactly the characters it occupies; a braced name is the text between `{` and the `}` it occupies; nothing is consumed exactly when the character after `$` starts no name |
| Environment.Expand | project.go:212 | Go's `os.Expand` with `stepGetenv`: the text before the first `$` is copied unchanged |
| Environment.ExpandLiteral | project.go:212 | A value with no `$` expands to itself |
| Environment.BracedShellName | project.go:212 | After `$`, `{NAME}` is the name `NAME` and occupies the braces |
| Environment.ExpandBraced | project.go:193-202 | `${NAME}` expands to `stepGetenv(NAME)` |
| Environment.BareShellName | project.go:212 | After `$`, a run of letters, digits and `_` not starting with a special character is read whole as the name |
| Environment.ExpandBare | project.go:193-202 | `$NAME` followed by a non-name character expands to `stepGetenv(NAME)` |
| Environment.ExpandBuildRootPath | project.go:193-196 | `$BUILD_ROOT/out` (any literal path after `$BUILD_ROOT`) expands to `<root>/out`, whatever the table says about `BUILD_ROOT` |
| Environment.ExpandUnresolved | project.go:197-200 | A reference to an unknown, non-reserved name expands to the empty string |
| Environment.ApplyAll | project.go:211-217 | Applying declarations gives a table with the old keys plus the declared ones; undeclared entries are unchanged |
| Environment.ApplyAllAt | project.go:211-217 | Each declaration ends up with its value expanded against the table as it stood just before it |
| Environment.ApplyAllLiteral | project.go:211-217 | A declaration with no reference is copied verbatim, whatever the order |
| Environment.Resolved | project.go:204-217 | The step's table holds exactly the host, project and step keys |
| Environment.HostPassesThrough | project.go:204-208 | A host entry that neither the project nor the step declares passes through unchanged |
| Environment.StepDeclarationWins | project.go:215-217 | A step declaration overrides the project's and the host's value for its name |
| Environment.StepBuildRootReference | project.go:193-196 | A step value `$BUILD_ROOT/out` resolves to `<root>/out`, even when the host or the project defines `BUILD_ROOT` |
| Environment.StepOverridesProject | project.go:210-217 | With project `FOO=1` and step `FOO=2`, the step sees `FOO=2` |
| Environment.ApplyDeclarations | project.go:211-217 | The declaration loop adds exactly the declared names to the table and leaves undeclared entries alone; it takes some enumeration of the declared names and yields `ApplyAll` in that order |
| Environment.Listing | project.go:219-222 | As many entries as the table has keys, and `NAME=VALUE` for every key of the table among them |
| Environment.ExpandEnvironment | project.go:190-224 | The result has one entry per name of the host, project and step tables together; a host entry no declaration overrides appears verbatim; for the orders the declarations were visited in, the entries are exactly `NAME=VALUE` for each key of the resolved table (host, then project, then step), each holding the resolved value |

## Left out

- **External calls are inputs.**
  - The git commands and the command runner (commands.go) are given by their results, `checkouts` and `outcomes`.
  - commands.go is not part of this model beyond that.
  - The call at project.go:164 does not compile as written. It passes the environment (a `[]string`) where `runCommand` (commands.go:86) expects the program name (a `string`), and it puts an argument before `step.Command[1:]...`. project.go also declares `package automat`, while commands.go and record.go declare `package builder`. The model takes the evident reading: program `Command[0]`, arguments `Command[1:]`, and the environment dropped, as the FIXME at commands.go:94 suggests. So the environment is resolved for every step that runs, but the `Run` effect does not carry it.
- **MD5** (RFC 1321): this is the `digest` parameter. The model specifies only the text fed to it.
- **Clocks:** durations from `time.Now` are inputs; so is the build's total duration.
- **`os.Environ()`:** this is the `host` map. The splitting of `NAME=VALUE` strings on the first `=` is not modelled.
- **Logging** (`log.Println`) is not modelled.
- **Panics:**
  - The `recover` in `Build` is not modelled. `Build` requires every step command to be non-empty, so the `step.Command[0]` panic cannot happen.
  - `SetStatus` requires an index within the step list, where Go would panic.
  - Without a panic, `Build`'s error result is always nil, so the model returns only the record.
- Projects.Project.Build: the non-empty-command requirement also excludes inputs that do not panic. Go evaluates `step.Command[0]` only for a step reached with the failure flag clear (project.go:160-164). A skipped step with an empty command does not panic, and the source hashes just its directory and a newline for it. The model does not cover builds with such steps.
- **Map iteration order:**
  - Go visits map keys in an unspecified order. The model chooses any enumeration, and `ExpandEnvironment` reports the orders it took as ghost outputs.
  - When declarations reference each other, the resolved values depend on that order. The lemmas state them relative to the reported order.
  - No claim is made about the order of the `NAME=VALUE` list.
- **`os.Expand`:** modelled after the Go standard library's current `getShellName`. This includes one-character special names, the dropped `${` with no closing brace, and the dropped `${}`.
- **`BuildRecord.duration`:** record.go:30-35 declares no `Duration` field, but project.go:186 assigns one. The model gives the record the field.
- **String order:** strings are sequences of characters, and the order compares characters. Go compares bytes, which agrees for ASCII names.
- **Not modelled at all:**
  - `Load`, `Save`, `ReadJson` and `ServeHTTP` (project.go:72-107, 226-235; record.go:87-95), which are file, JSON and HTTP I/O;
  - server.go, database.go, http.go, json.go and builder.go, which are not part of this model.
- **`BuildNotRun`:** the status exists (`NotRun`), but no code path assigns it. A fresh record carries the zero status `Unset` (Go's `""`).
