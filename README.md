# setfromenv in Dafny

A model of the Go package `setfromenv`. The package fills in command-line flags that the user did not set explicitly, using values from environment variables.

Each variable's name comes from the flag's name and an optional prefix:

1. The prefix gets a trailing `_` unless it is empty or already ends in one.
2. The flag name is appended.
3. Every `-` becomes `_`.
4. The whole name is upper-cased.

`SetFlagsInFlagSet(fs, prefix)` works in three steps:

- It collects the names of the formal flags that are not in the flag set's "actual" (explicitly set) set.
- It visits those names in Go map order, which is unspecified. For each name it looks up the derived variable and, if the variable is present, calls `fs.Set`.
- It returns at the first setter failure, with an error naming the flag and the variable. Flags already set in the same call stay set.

`SetFlags(prefix)` does the same on the command-line flag set, but returns an error first if command-line parsing has not happened yet.

Files and modules:

- `flag.dfy`, module `Flag`: the part of Go's `flag.FlagSet` that the binder uses. `Registry` is the observable state: each formal flag's current value and the set of explicitly set names. `SetFlag` is `FlagSet.Set` on that state. The class `FlagSet` holds the same state in fields (`values`, `actual`, `parsed`), which `Set` and `Parse` update in place. The typed setter is one abstract total function `parse: (flag name, current value, text) -> Stored(new value, error)`: it says what the flag's cell holds afterwards and, if the text was rejected, the error message. A rejecting setter may leave a value behind, as Go's numeric setters store the zero value they parsed.
- `envname.dfy`, module `EnvName`: name derivation (`EnvVarNameFromPrefix` returns a closure, as in Go) and its algebraic properties.
- `binding.dfy`, module `Binding`: the loop of `SetFlagsInFlagSet` as values. `Step` is one iteration. `Run` is the loop with early return over a given visiting order. The lemmas say what a run does to each flag, and that the outcome does not depend on the order.
- `setfromenv.dfy`, module `SetFromEnv`: the imperative binder. `UnsetFlagNames` builds the unset set with the two loops of `VisitAll` and `Visit`. `SetFlagsInFlagSet` picks each next name with `:|`. Its ghost out-parameter `visited` records the order it took, and its state is tied to `Run` over that order. `SetFlags` adds the `parsed` guard.
- `examples_envname.dfy`, module `EnvNameExamples`: the table of names of the package's tests, one lemma per row.
- `examples_setfromenv.dfy`, module `SetFromEnvExamples`: the scenarios of the package's tests and runnable example, proved for every prefix.

The process environment is an immutable `map<string, string>` parameter. The global `flag.CommandLine` is a `FlagSet` passed in explicitly, and its `parsed` field stands for `flag.Parsed()`. `None` stands for a nil `error`.

## Model

| member | source | states |
|---|---|---|
| Flag.WellFormed | setfromenv.go:39-43 | a registry is well formed exactly when its formal flags are its unset flags together with its explicitly set ones |
| Flag.Unset | setfromenv.go:39-43 | a name is unset exactly when it is a formal flag and not an explicitly set one |
| Flag.SetFlag | setfromenv.go:52 | `Set` succeeds exactly when the flag is registered and its setter accepts the text. An unknown flag gives `no such flag -<name>` and changes nothing. Otherwise the flag's cell holds what its setter stored, even when the setter rejects the text; every other flag keeps its value; the setter's error is passed on unchanged; and the flag becomes explicitly set only on success |
| Flag.SetEach | setfromenv_example_test.go:62 | setting name/value pairs in order up to the first failure keeps the formal flags and the explicitly set ones, and when no pair fails every named flag ends up explicitly set |
| Flag.FlagSet.constructor | setfromenv_example_test.go:53-59 | a new flag set holds the given defaults, nothing explicitly set, not parsed |
| Flag.FlagSet.Set | setfromenv.go:52 | the in-place `fs.Set`: the new state and the error are those of `SetFlag`; `parsed` is unchanged |
| Flag.FlagSet.Parse | setfromenv_example_test.go:62 | parsing marks the set parsed and sets the given flags in order, stopping at the first failure (`SetEach`) |
| EnvName.HasSuffix | setfromenv.go:77 | `s` ends with `suffix` exactly when `suffix` is no longer than `s` and equals its last characters one by one |
| EnvName.UpperChar | setfromenv.go:83 | an ASCII lower-case letter maps to its upper-case letter; every other character is kept; the result is never lower-case |
| EnvName.ToUpper | setfromenv.go:83 | upper-casing keeps the length, maps each character by `UpperChar`, and leaves no lower-case letter |
| EnvName.ReplaceAll | setfromenv.go:82 | replacement keeps the length, turns each `from` into `to`, keeps every other character, and leaves no `from` |
| EnvName.NormalizePrefix | setfromenv.go:77-79 | the normalized prefix is empty exactly when the prefix is; otherwise it ends in `_`; it is the prefix itself when that already ends in `_`, else the prefix plus `_` |
| EnvName.MakeEnvName | setfromenv.go:80-85 | the name built from a normalized prefix and a flag name is as long as the two together, and each of its characters is the corresponding character of the concatenation with `-` turned into `_` and upper-cased |
| EnvName.EnvVarNameFromPrefix | setfromenv.go:75-86 | for every flag name, the derived name is as long as the normalized prefix plus the flag name; each character is that input character with `-` turned into `_` and upper-cased; no derived name holds a `-` or a lower-case letter |
| EnvName.DerivationSplits | setfromenv.go:81-83 | a derived name is the derived normalized prefix followed by the derived flag name |
| EnvName.TrailingSeparatorAbsorbed | setfromenv.go:77-79 | a non-empty prefix not ending in `_` gives the same names as that prefix plus `_` |
| EnvName.NormalizeIdempotent | setfromenv.go:77-79 | normalizing a prefix twice is normalizing it once |
| EnvName.EmptyPrefixAddsNothing | setfromenv.go:77-83 | with an empty prefix, no separator is added: the name is the flag name with `-` turned into `_` and upper-cased |
| EnvName.SeparatedPrefixKept | setfromenv.go:77-81 | a prefix already ending in `_` is used as it is, giving no double separator |
| EnvName.RederivationIsIdentity | setfromenv.go:80-85 | deriving a derived name again with an empty prefix returns it unchanged |
| EnvName.PrefixCaseIgnored | setfromenv.go:77-83 | upper-casing the prefix first gives the same names: the prefix's ASCII case does not matter |
| EnvName.FlagCaseIgnored | setfromenv.go:81-83 | upper-casing the flag name first gives the same name: the flag name's ASCII case does not matter |
| EnvName.HyphenAndSeparatorCollide | setfromenv.go:82 | writing `_` for `-` in a flag name gives the same variable, so such flags share one variable |
| EnvName.DistinctNames | setfromenv.go:80-85 | two flag names whose characters derive differently at some position get different variables |
| Binding.Step | setfromenv.go:46-56 | one iteration keeps the formal flags; when the flag's variable is absent it changes nothing and returns nil; any error it returns is a `SetFailed` naming the visited flag and its derived variable |
| Binding.StepEffect | setfromenv.go:46-56 | one iteration changes no flag but the visited one; it returns nil exactly when the flag has no variable or its setter accepts the variable's value; then the flag is applied; otherwise the flag holds what the rejecting setter stored, its set-state is unchanged, and the error carries the setter's message |
| Binding.Run | setfromenv.go:45-59 | the loop with early return keeps the formal flags, and any error it returns is a `SetFailed` naming a visited flag |
| Binding.RunSnoc | setfromenv.go:45-58 | if a loop over some flags ended without error, visiting one more flag is one more iteration (`Step`) |
| Binding.RunSnocSet | setfromenv.go:50-56 | after a run without error, visiting one more flag whose variable is present is calling `Set` with the variable's value, a setter error becoming a `SetFailed` with that flag, that variable and the setter's message |
| Binding.RunFrame | setfromenv.go:45-51 | a run keeps the set of formal flags; explicitly set flags stay explicitly set; only visited flags can become set; every flag outside the visiting order keeps its value and its set-state |
| Binding.RunWellFormed | setfromenv.go:52 | a run over registered flags keeps every explicitly set flag registered |
| Binding.RunSucceedsIff | setfromenv.go:50-59 | a run over distinct registered flags returns nil exactly when every visited flag either has no variable or its setter accepts the variable's value |
| Binding.RunApplies | setfromenv.go:50-52 | after a run without error over distinct registered flags, every visited flag with a variable holds the setter's result on its original value and that variable's text, and is explicitly set; every visited flag without a variable is unchanged |
| Binding.RunFails | setfromenv.go:52-56 | when a run over distinct registered flags fails, the error names a visited flag `f` and its derived variable, which is present; `f`'s setter rejected the variable's value with the reported message, `f` holds what that setter stored, and its set-state is unchanged. Nothing is rolled back: every flag visited before `f` is applied, and every flag after `f` or outside the order is untouched |
| Binding.RunOrderIrrelevant | setfromenv.go:45 | if a run over distinct registered flags returns nil, a run over the same flags in any other order also returns nil and ends in the same registry |
| SetFromEnv.UnsetFlagNames | setfromenv.go:31-43 | the set built by adding all formal flags and deleting the explicitly set ones is the set of unset names |
| SetFromEnv.SetFlagsInFlagSet | setfromenv.go:26-61 | the method visits distinct unset flags, all of them on success, and its new state and error are those of `Run` over the order it took. Flag by flag: formal flags are kept; explicitly set flags keep their values; flags without a variable and unvisited flags are untouched. It returns nil exactly when every unset flag's setter accepts its variable. On success every unset flag is set from its variable. On failure the error names the last visited flag and its present variable and carries the setter's message; that flag holds what the setter stored and stays unset; every flag visited before it stays set from its variable |
| SetFromEnv.Consequences | setfromenv.go:45-59 | for any run over distinct unset flags of a well-formed registry that, if it fails, fails at its last flag: the flag-by-flag effect stated for `SetFlagsInFlagSet`, including that nothing visited before a failure is rolled back; and when a run without error visits every unset flag, it returns nil exactly when every unset flag's setter accepts its variable |
| SetFromEnv.SucceededEffect | setfromenv.go:45-59 | after a run without error over distinct registered flags, flags without a variable are untouched and every visited flag is applied |
| SetFromEnv.FailedEffect | setfromenv.go:52-56 | a run whose prefix succeeds and whose last flag fails reports that flag and its variable; its setter rejected the value with the reported message; every flag of the prefix is applied; flags without a variable are untouched |
| SetFromEnv.SetFlags | setfromenv.go:66-71 | on an unparsed flag set: the result is the not-parsed error, no flag is visited, and nothing changes; on a parsed one: the contract of `SetFlagsInFlagSet`, clause by clause, including its flag-by-flag effect |
| EnvNameExamples.NameEmptyHost | setfromenv_test.go:181 | `""`, `host` gives `HOST` |
| EnvNameExamples.NameEmptyLogLevel | setfromenv_test.go:182 | `""`, `log-level` gives `LOG_LEVEL` |
| EnvNameExamples.NameEmptyHttpPort | setfromenv_test.go:183 | `""`, `http-port` gives `HTTP_PORT` |
| EnvNameExamples.NameAppHost | setfromenv_test.go:184 | `app`, `host` gives `APP_HOST` |
| EnvNameExamples.NameSvcHttpPort | setfromenv_test.go:185 | `svc`, `http-port` gives `SVC_HTTP_PORT` |
| EnvNameExamples.NameSvcEnableFeatureX | setfromenv_test.go:186 | `SVC`, `enable-feature-x` gives `SVC_ENABLE_FEATURE_X` |
| EnvNameExamples.NameAppUnderscoreHost | setfromenv_test.go:187 | `app_`, `host` gives `APP_HOST`: no double separator |
| EnvNameExamples.HyphenEndedPrefix | setfromenv.go:77-79 | only `_` counts as a trailing separator: `app-`, `host` gives `APP__HOST` |
| SetFromEnvExamples.CommandLineState | setfromenv_example_test.go:53-62 | after `-port=7777`, the example's flag set is well formed and its unset flags are `host` and `config-file` |
| SetFromEnvExamples.ExampleCommandLine | setfromenv_example_test.go:53-62 | defining the three flags and parsing `-port=7777` gives a parsed flag set in that state |
| SetFromEnvExamples.ExampleOutcome | setfromenv_example_test.go:68-85 | whatever order the binder took, in that state with a variable for `config-file` and none for `host`: no error, `host` stays `localhost`, `port` stays `7777`, `config-file` takes its variable's value |
| SetFromEnvExamples.ExampleSetFlagsInFlagSet | setfromenv_example_test.go:47-86 | for any prefix: the unset `host` without a variable stays `localhost`; the explicitly set `port` stays `7777` although its variable is present; the unset `config-file` takes `my-config.toml`; no error |
| SetFromEnvExamples.ExampleIgnoreSetFlags | setfromenv_test.go:14-31 | an explicitly set flag keeps `newvalue` although its variable holds `override` |
| SetFromEnvExamples.ExampleSetterError | setfromenv_test.go:33-48 | a number flag whose variable holds `override` gives an error naming the flag, its variable and the setter's message `parse error`; like a Go numeric setter, the rejecting setter leaves `0` behind, and the flag is still not explicitly set |
| SetFromEnvExamples.ExampleNotParsed | setfromenv.go:66-69 | before parsing, `SetFlags` returns the not-parsed error and the flag keeps its default although its variable is present |
| SetFromEnvExamples.ExampleParsed | setfromenv.go:66-71 | after parsing, `SetFlags` sets the unset flag from its variable |

## Left out

- The process environment (`os.LookupEnv`) is not read: the environment is an immutable map parameter, and a lookup is a membership test plus an index.
- The Go `flag` package is not part of this model. Its typed parsing (integers, floats, durations, booleans, strings) is replaced by one abstract total setter per flag set. A float flag is only an instance of "the setter may fail".
- Flag.SetFlag: what a rejecting setter stores is left to the setter (`Stored`); which value each of Go's typed setters leaves behind on a parse error (zero for the numeric ones) is code of the Go `flag` package and is not modelled, only allowed.
- Flag.SetFlag: each formal flag has a cell of its own. Go lets two flags share one destination variable (`StringVar(&x, "long")` together with `StringVar(&x, "s")`); such shared cells are not modelled.
- SetFromEnv.SetFlagsInFlagSet: for flags that share a destination variable, Go can overwrite an explicitly set flag through its unset alias when the alias's variable is present; the per-flag guarantees here (explicit flags keep their values, unvisited flags are untouched) hold only for flags with cells of their own.
- Binding.RunOrderIrrelevant: for flags that share a destination variable, the final value in Go depends on which alias the map order visits last; the order-independence here holds only for flags with cells of their own.
- Flag.SetFlag: Go's `FlagSet.Set` also records an undefined name, so that a later definition of that flag panics. Only the error is modelled; the binder never sets an undefined name.
- Flag.FlagSet.Parse: the argument syntax (`-name=value`, `--`, boolean flags without a value, error-handling modes, usage output) is not modelled. Parsing takes name/value pairs that are already split.
- EnvName.ToUpper: only ASCII letters are upper-cased. `strings.ToUpper` also maps the rest of Unicode, and that can change a string's length.
- Error texts and `%w` wrapping are not modelled: the binder's error is the datatype `SetFailed(flagName, envName, cause)`, and the ordering error is `NotParsed`.
- The global `flag.CommandLine` and `flag.Parsed()` become an explicit `FlagSet` argument and its `parsed` field.
- SetFromEnv.SetFlagsInFlagSet: which failing flag is reported depends on Go's map iteration order. The model takes the choice with `:|` and exposes the order as a ghost out-parameter, so it does not say which failing flag comes first. Whether some failure happens does not depend on the order (`Binding.RunSucceedsIff`).
- The example command-line program (`examples/example_cli.go`: usage text, `os.Exit`, printing) and the test harness (`TestMain`, `t.Setenv`, `t.Parallel`, restoring the environment) are I/O glue and are not modelled.
- Concurrent calls on one flag set are not modelled. The package is single-threaded.
