/**
 * Concrete cases of the binder: the scenarios of the package's tests and
 * runnable example, with string- and number-like flags.
 */
module SetFromEnvExamples {
  import opened Flag
  import opened EnvName
  import opened Binding
  import opened SetFromEnv

  /** Every text is a valid string flag value, stored as it is. */
  function StringParser(): Parser<string>
  {
    (name: string, current: string, text: string) => Stored(text, None)
  }

  /**
   * A number-like flag: only non-empty texts of digits and `.` are accepted;
   * like Go's numeric setters, a rejected text leaves the zero value behind.
   */
  function NumberParser(): Parser<string>
  {
    (name: string, current: string, text: string) =>
      if text != [] && forall i :: 0 <= i < |text| ==> '0' <= text[i] <= '9' || text[i] == '.'
      then Stored(text, None) else Stored("0", Some("parse error"))
  }

  /** The runnable example's flags after its command line gave `port` the value `7777`. */
  function CommandLineState(): (reg: Registry<string>)
    ensures WellFormed(reg) && Unset(reg) == {"host", "config-file"}
  {
    Registry(map["host" := "localhost", "port" := "7777", "config-file" := "config.toml"], {"port"})
  }

  /** The runnable example's command line: its three flags, then `-port 7777` parsed. */
  method ExampleCommandLine() returns (fs: FlagSet<string>)
    ensures fresh(fs) && fs.Valid() && fs.parsed && fs.parse == StringParser()
    ensures fs.State() == CommandLineState()
  {
    fs := new FlagSet(map["host" := "localhost", "port" := "8080", "config-file" := "config.toml"], StringParser());
    var parseErr := fs.Parse([("port", "7777")]);
  }

  /**
   * Three string flags; `port` is set on the command line; the environment
   * holds the variables of `port` and `config-file` (`APP_PORT` and
   * `APP_CONFIG_FILE` for the prefix `APP`). The unset `host` keeps its
   * default, the explicit `port` keeps its command-line value, and
   * `config-file` takes the environment's value.
   */
  method ExampleSetFlagsInFlagSet(prefix: string) returns (err: Option<Error>, host: string, port: string, config: string)
    ensures err == None && host == "localhost" && port == "7777" && config == "my-config.toml"
  {
    var fs := ExampleCommandLine();
    var makeEnvName := EnvVarNameFromPrefix(prefix);
    var env := map[makeEnvName("port") := "9090", makeEnvName("config-file") := "my-config.toml"];
    DistinctNames(prefix, "host", "port", 0);
    DistinctNames(prefix, "host", "config-file", 0);
    ghost var before := fs.State();
    ghost var visited;
    err, visited := SetFlagsInFlagSet(fs, prefix, env);
    ExampleOutcome(before, fs.State(), makeEnvName, env, visited, err);
    host, port, config := fs.values["host"], fs.values["port"], fs.values["config-file"];
  }

  /** The flag-by-flag effect of the binder, read off for the runnable example's flag set. */
  lemma ExampleOutcome(before: Registry<string>, after: Registry<string>, makeEnvName: string -> string, env: Env,
                       visited: seq<string>, err: Option<Error>)
    requires before == CommandLineState()
    requires makeEnvName("host") !in env && makeEnvName("config-file") in env
    requires err.None? ==> forall n :: n in Unset(before) ==> n in visited
    requires Effect(before, after, StringParser(), makeEnvName, env, visited, err)
    requires err.None? <==> forall n :: n in Unset(before) ==> Accepts(before, StringParser(), makeEnvName, env, n)
    ensures err == None
    ensures after.values.Keys == before.values.Keys
    ensures after.values["host"] == "localhost" && after.values["port"] == "7777"
    ensures after.values["config-file"] == env[makeEnvName("config-file")]
  {
    assert forall n :: n in Unset(before) ==> Accepts(before, StringParser(), makeEnvName, env, n);
    assert Applied(before, after, StringParser(), makeEnvName, env, "config-file");
  }

  /** An explicitly set flag is not overridden even though its variable is present. */
  method ExampleIgnoreSetFlags(prefix: string) returns (value: string)
    ensures value == "newvalue"
  {
    var fs := new FlagSet(map["test" := "default"], StringParser());
    var setErr := fs.Set("test", "newvalue");
    var env := map[EnvVarNameFromPrefix(prefix)("test") := "override"];
    var err, visited := SetFlagsInFlagSet(fs, prefix, env);
    value := fs.values["test"];
  }

  /**
   * A value the flag's setter rejects is reported, naming the flag and the
   * variable; the flag holds what the setter left behind and is still not
   * explicitly set.
   */
  method ExampleSetterError(prefix: string) returns (err: Option<Error>, value: string, explicit: bool)
    ensures err == Some(SetFailed("test", EnvVarNameFromPrefix(prefix)("test"), "parse error"))
    ensures value == "0" && !explicit
  {
    var fs := new FlagSet(map["test" := "0.1"], NumberParser());
    var env := map[EnvVarNameFromPrefix(prefix)("test") := "override"];
    assert NumberParser()("test", "0.1", "override") == Stored("0", Some("parse error")) by {
      assert "override"[0] == 'o';
    }
    ghost var before := fs.State();
    assert Unset(before) == {"test"};
    assert !Accepts(before, fs.parse, EnvVarNameFromPrefix(prefix), env, "test");
    ghost var visited;
    err, visited := SetFlagsInFlagSet(fs, prefix, env);
    value, explicit := fs.values["test"], "test" in fs.actual;
  }

  /** Before parsing, the command-line variant fails and changes nothing. */
  method ExampleNotParsed(prefix: string) returns (err: Option<Error>, value: string)
    ensures err == Some(NotParsed) && value == "localhost"
  {
    var commandLine := new FlagSet(map["host" := "localhost"], StringParser());
    var env := map[EnvVarNameFromPrefix(prefix)("host") := "example.org"];
    ghost var visited;
    err, visited := SetFlags(commandLine, prefix, env);
    value := commandLine.values["host"];
  }

  /** After parsing, the command-line variant binds the unset flags. */
  method ExampleParsed(prefix: string) returns (err: Option<Error>, value: string)
    ensures err == None && value == "example.org"
  {
    var commandLine := new FlagSet(map["host" := "localhost"], StringParser());
    var parseErr := commandLine.Parse([]);
    var env := map[EnvVarNameFromPrefix(prefix)("host") := "example.org"];
    ghost var before := commandLine.State();
    ghost var visited;
    err, visited := SetFlags(commandLine, prefix, env);
    value := commandLine.values["host"];
  }
}
