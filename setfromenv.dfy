/**
 * The binder: fills in flags that were not explicitly set from environment
 * variables whose names are derived from the flag names and an optional
 * prefix. The process environment is the parameter `env`; the global
 * command-line flag set is passed in explicitly.
 */
module SetFromEnv {
  import opened Flag
  import opened EnvName
  import opened Binding

  /**
   * The unset flag names, built as the source builds them: every formal
   * flag is added (`VisitAll`), then every explicitly set flag is removed
   * (`Visit`).
   */
  method UnsetFlagNames<V>(fs: FlagSet<V>) returns (unset: set<string>)
    ensures unset == Unset(fs.State())
  {
    unset := {};
    var all := fs.values.Keys;
    while all != {}
      invariant all <= fs.values.Keys
      invariant unset == fs.values.Keys - all
      decreases all
    {
      var name :| name in all;
      unset := unset + {name};
      all := all - {name};
    }
    var explicit := fs.actual;
    while explicit != {}
      invariant explicit <= fs.actual
      invariant unset == fs.values.Keys - (fs.actual - explicit)
      decreases explicit
    {
      var name :| name in explicit;
      unset := unset - {name};
      explicit := explicit - {name};
    }
  }

  /**
   * What a call that visited the distinct unset flags `visited` of `before`,
   * in that order, and returned `err` did to the flag set, flag by flag.
   * Formal flags are kept and set flags stay set; explicitly set flags keep
   * their values; flags without a variable and unvisited flags are untouched.
   * Without error every visited flag is applied. With an error, the failing
   * flag is the last one visited and its setter rejected its variable's value,
   * while every flag visited before it stays applied: nothing is rolled back.
   */
  ghost predicate Effect<V>(before: Registry<V>, after: Registry<V>, parse: Parser<V>, makeEnvName: string -> string, env: Env,
                            visited: seq<string>, err: Option<Error>)
  {
    && WellFormed(after)
    && after.values.Keys == before.values.Keys && before.actual <= after.actual
    && (forall n :: n in before.actual ==> after.values[n] == before.values[n])
    && (forall n :: n in before.values && makeEnvName(n) !in env ==> Untouched(before, after, n))
    && (forall n :: n in before.values && n !in visited ==> Untouched(before, after, n))
    && (err.None? ==> forall n :: n in visited ==> Applied(before, after, parse, makeEnvName, env, n))
    && (err.Some? ==>
          && visited != [] && err.value.SetFailed?
          && var f := err.value.flagName;
          && f == visited[|visited| - 1]
          && err.value.envName == makeEnvName(f)
          && Rejected(before, after, parse, makeEnvName, env, f, err.value.cause)
          && forall n :: n in visited[..|visited| - 1] ==> Applied(before, after, parse, makeEnvName, env, n))
  }

  /**
   * `SetFlagsInFlagSet(fs, prefix)`: visits the unset flags in an
   * unspecified order (the ghost `visited` is the order taken, up to and
   * including a failing flag) and sets each from its environment variable
   * when that variable exists, returning at the first setter failure.
   */
  method SetFlagsInFlagSet<V>(fs: FlagSet<V>, prefix: string, env: Env) returns (err: Option<Error>, ghost visited: seq<string>)
    requires fs.Valid()
    modifies fs
    ensures fs.Valid() && fs.parsed == old(fs.parsed)
    ensures Distinct(visited)
    ensures forall n :: n in visited ==> n in old(Unset(fs.State()))
    ensures err.None? ==> forall n :: n in old(Unset(fs.State())) ==> n in visited
    ensures (fs.State(), err) == Run(old(fs.State()), fs.parse, EnvVarNameFromPrefix(prefix), env, visited)
    ensures Effect(old(fs.State()), fs.State(), fs.parse, EnvVarNameFromPrefix(prefix), env, visited, err)
    ensures err.None? <==>
              forall n :: n in old(Unset(fs.State())) ==> Accepts(old(fs.State()), fs.parse, EnvVarNameFromPrefix(prefix), env, n)
  {
    var makeEnvName := EnvVarNameFromPrefix(prefix);
    ghost var start := fs.State();
    var unset := UnsetFlagNames(fs);
    assert start == old(fs.State()) && unset == Unset(start);
    visited := [];
    var remaining := unset;
    while remaining != {}
      invariant remaining <= unset
      invariant Distinct(visited)
      invariant forall n :: n in visited <==> n in unset && n !in remaining
      invariant fs.Valid() && fs.parsed == old(fs.parsed)
      invariant (fs.State(), None) == Run(start, fs.parse, makeEnvName, env, visited)
      decreases remaining
    {
      var flagName :| flagName in remaining;
      remaining := remaining - {flagName};
      ghost var before := visited;
      VisitOne(unset, remaining, visited, flagName);
      visited := visited + [flagName];
      var envName := makeEnvName(flagName);
      if envName in env {
        var e := fs.Set(flagName, env[envName]);
        RunSnocSet(start, fs.parse, makeEnvName, env, before, flagName, fs.State(), e);
        if e.Some? {
          err := Some(SetFailed(flagName, envName, e.value));
          assert visited[..|visited| - 1] == before;
          Consequences(start, fs.parse, makeEnvName, env, visited, fs.State(), err);
          return;
        }
      } else {
        RunSnoc(start, fs.parse, makeEnvName, env, before, flagName);
      }
    }
    err := None;
    Consequences(start, fs.parse, makeEnvName, env, visited, fs.State(), err);
  }

  /** Moving `name` from the remaining flags to the end of the visited ones keeps the visit exact. */
  lemma VisitOne(unset: set<string>, remaining: set<string>, visited: seq<string>, name: string)
    requires Distinct(visited) && name in unset && name !in remaining
    requires forall n :: n in visited <==> n in unset && n !in remaining + {name}
    ensures Distinct(visited + [name])
    ensures forall n :: n in visited + [name] <==> n in unset && n !in remaining
  {
    assert name !in visited;
    var s := visited + [name];
    forall i, j | 0 <= i < j < |s|
      ensures s[i] != s[j]
    {
      if j == |visited| {
        assert s[i] in visited;
      }
    }
  }

  /**
   * The flag-by-flag reading of a run over distinct unset flags which, if it
   * fails, fails at its last flag, as the loop of `SetFlagsInFlagSet` runs.
   */
  lemma Consequences<V>(reg: Registry<V>, parse: Parser<V>, makeEnvName: string -> string, env: Env, visited: seq<string>,
                        reg': Registry<V>, err: Option<Error>)
    requires WellFormed(reg) && Distinct(visited)
    requires forall n :: n in visited ==> n in Unset(reg)
    requires (reg', err) == Run(reg, parse, makeEnvName, env, visited)
    requires err.Some? ==> visited != [] && Run(reg, parse, makeEnvName, env, visited[..|visited| - 1]).1 == None
    ensures Effect(reg, reg', parse, makeEnvName, env, visited, err)
    ensures (err.None? ==> forall n :: n in Unset(reg) ==> n in visited) ==>
              (err.None? <==> forall n :: n in Unset(reg) ==> Accepts(reg, parse, makeEnvName, env, n))
  {
    RunFrame(reg, parse, makeEnvName, env, visited);
    RunWellFormed(reg, parse, makeEnvName, env, visited);
    assert forall n :: n in reg.actual ==> reg'.values[n] == reg.values[n] by {
      forall n | n in reg.actual
        ensures reg'.values[n] == reg.values[n]
      {
        assert n !in visited;
        assert Untouched(reg, reg', n);
      }
    }
    if err.None? {
      SucceededEffect(reg, parse, makeEnvName, env, visited);
      RunSucceedsIff(reg, parse, makeEnvName, env, visited);
    } else {
      var k := |visited| - 1;
      assert visited == visited[..k] + [visited[k]];
      FailedEffect(reg, parse, makeEnvName, env, visited[..k], visited[k]);
    }
  }

  /** The case of `Consequences` where the run returns nil. */
  lemma SucceededEffect<V>(reg: Registry<V>, parse: Parser<V>, makeEnvName: string -> string, env: Env, visited: seq<string>)
    requires Distinct(visited)
    requires forall n :: n in visited ==> n in reg.values
    requires Run(reg, parse, makeEnvName, env, visited).1.None?
    ensures var reg' := Run(reg, parse, makeEnvName, env, visited).0;
      && (forall n :: n in reg.values && makeEnvName(n) !in env ==> Untouched(reg, reg', n))
      && (forall n :: n in visited ==> Applied(reg, reg', parse, makeEnvName, env, n))
  {
    var reg' := Run(reg, parse, makeEnvName, env, visited).0;
    RunApplies(reg, parse, makeEnvName, env, visited);
    RunFrame(reg, parse, makeEnvName, env, visited);
    forall n | n in reg.values && makeEnvName(n) !in env
      ensures Untouched(reg, reg', n)
    {
      if n in visited {
        assert Applied(reg, reg', parse, makeEnvName, env, n);
      }
    }
  }

  /** The case of `Consequences` where the run fails, at its last flag `last`. */
  lemma FailedEffect<V>(reg: Registry<V>, parse: Parser<V>, makeEnvName: string -> string, env: Env, pre: seq<string>, last: string)
    requires Distinct(pre + [last])
    requires forall n :: n in pre + [last] ==> n in reg.values
    requires Run(reg, parse, makeEnvName, env, pre).1 == None
    requires Run(reg, parse, makeEnvName, env, pre + [last]).1.Some?
    ensures var (reg', err) := Run(reg, parse, makeEnvName, env, pre + [last]);
      && (forall n :: n in reg.values && makeEnvName(n) !in env ==> Untouched(reg, reg', n))
      && err.value.SetFailed? && err.value.flagName == last
      && err.value.envName == makeEnvName(last)
      && Rejected(reg, reg', parse, makeEnvName, env, last, err.value.cause)
      && forall n :: n in pre ==> Applied(reg, reg', parse, makeEnvName, env, n)
  {
    var visited := pre + [last];
    var reg' := Run(reg, parse, makeEnvName, env, visited).0;
    RunSnoc(reg, parse, makeEnvName, env, pre, last);
    RunFails(reg, parse, makeEnvName, env, visited);
    RunFrame(reg, parse, makeEnvName, env, visited);
    assert visited[|pre|] == last;
    assert visited[..|pre|] == pre;
    forall n | n in reg.values && makeEnvName(n) !in env
      ensures Untouched(reg, reg', n)
    {
      if n in pre {
        assert Applied(reg, reg', parse, makeEnvName, env, n);
      }
    }
  }

  /**
   * `SetFlags(prefix)` on the command-line flag set: an error, with no
   * lookup and no change, before parsing; afterwards exactly
   * `SetFlagsInFlagSet(commandLine, prefix)`.
   */
  method SetFlags<V>(commandLine: FlagSet<V>, prefix: string, env: Env) returns (err: Option<Error>, ghost visited: seq<string>)
    requires commandLine.Valid()
    modifies commandLine
    ensures commandLine.Valid() && commandLine.parsed == old(commandLine.parsed)
    ensures !old(commandLine.parsed) ==> err == Some(NotParsed) && visited == [] && commandLine.State() == old(commandLine.State())
    ensures old(commandLine.parsed) ==>
              && Distinct(visited)
              && (forall n :: n in visited ==> n in old(Unset(commandLine.State())))
              && (err.None? ==> forall n :: n in old(Unset(commandLine.State())) ==> n in visited)
              && (commandLine.State(), err) == Run(old(commandLine.State()), commandLine.parse, EnvVarNameFromPrefix(prefix), env, visited)
              && Effect(old(commandLine.State()), commandLine.State(), commandLine.parse, EnvVarNameFromPrefix(prefix), env, visited, err)
              && (err.None? <==>
                    forall n :: n in old(Unset(commandLine.State())) ==>
                      Accepts(old(commandLine.State()), commandLine.parse, EnvVarNameFromPrefix(prefix), env, n))
  {
    if !commandLine.parsed {
      return Some(NotParsed), [];
    }
    err, visited := SetFlagsInFlagSet(commandLine, prefix, env);
  }
}
