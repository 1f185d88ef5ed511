/**
 * The environment-override loop of `SetFlagsInFlagSet` on values: given the
 * order in which the unset flags are visited, `Run` says what the registry
 * becomes and which error, if any, is returned. The lemmas state what that
 * means for every flag, independently of the order.
 */
module Binding {
  import opened Flag

  /** The errors the binder reports; `Option<Error>` with `None` stands for a nil error. */
  datatype Error =
    | NotParsed
    | SetFailed(flagName: string, envName: string, cause: string)

  type Env = map<string, string>

  /**
   * One iteration: look up the flag's environment variable; if it is absent
   * nothing happens, otherwise the flag is set from its value and a setter
   * failure becomes a `SetFailed` error naming the flag and the variable.
   * `StepEffect` says what a step does to each flag.
   */
  function Step<V>(reg: Registry<V>, parse: Parser<V>, makeEnvName: string -> string, env: Env, name: string)
    : (r: (Registry<V>, Option<Error>))
    ensures r.0.values.Keys == reg.values.Keys
    ensures makeEnvName(name) !in env ==> r == (reg, None)
    ensures r.1.Some? ==> r.1.value.SetFailed? && r.1.value.flagName == name && r.1.value.envName == makeEnvName(name)
  {
    var envName := makeEnvName(name);
    if envName !in env then
      (reg, None)
    else
      var (reg', err) := SetFlag(reg, parse, name, env[envName]);
      (reg', if err.Some? then Some(SetFailed(name, envName, err.value)) else None)
  }

  /**
   * Only the visited flag can change; the step succeeds exactly when the
   * flag's setter accepts its variable's value (or there is no variable); the
   * flag is then applied, and otherwise it holds what the rejecting setter
   * stored.
   */
  lemma StepEffect<V>(reg: Registry<V>, parse: Parser<V>, makeEnvName: string -> string, env: Env, name: string)
    requires name in reg.values
    ensures var (reg', err) := Step(reg, parse, makeEnvName, env, name);
      && (forall n :: n in reg.values && n != name ==> Untouched(reg, reg', n))
      && (err.None? <==> Accepts(reg, parse, makeEnvName, env, name))
      && (err.None? ==> Applied(reg, reg', parse, makeEnvName, env, name))
      && (err.Some? ==> Rejected(reg, reg', parse, makeEnvName, env, name, err.value.cause))
  {
  }

  /** The loop over `order`, returning at the first error, which names a visited flag. */
  function Run<V>(reg: Registry<V>, parse: Parser<V>, makeEnvName: string -> string, env: Env, order: seq<string>)
    : (r: (Registry<V>, Option<Error>))
    ensures r.0.values.Keys == reg.values.Keys
    ensures r.1.Some? ==> r.1.value.SetFailed? && r.1.value.flagName in order
    decreases |order|
  {
    if order == [] then
      (reg, None)
    else
      var (reg', err) := Step(reg, parse, makeEnvName, env, order[0]);
      if err.Some? then (reg', err) else Run(reg', parse, makeEnvName, env, order[1..])
  }

  predicate Distinct(s: seq<string>)
  {
    forall i, j :: 0 <= i < j < |s| ==> s[i] != s[j]
  }

  /** Flag `n` has the same value and the same set-state in both registries. */
  ghost predicate Untouched<V>(reg: Registry<V>, reg': Registry<V>, n: string)
  {
    n in reg.values && n in reg'.values && reg'.values[n] == reg.values[n] && (n in reg'.actual <==> n in reg.actual)
  }

  /**
   * Flag `n` has had its environment variable applied: if the variable is
   * present the setter accepted its value, turned `n`'s value in `reg` into its
   * value in `reg'`, and `n` is now explicitly set; if it is absent `n` is
   * untouched.
   */
  ghost predicate Applied<V>(reg: Registry<V>, reg': Registry<V>, parse: Parser<V>, makeEnvName: string -> string, env: Env, n: string)
  {
    n in reg.values && n in reg'.values &&
    if makeEnvName(n) in env then
      parse(n, reg.values[n], env[makeEnvName(n)]) == Stored(reg'.values[n], None) && n in reg'.actual
    else
      Untouched(reg, reg', n)
  }

  /**
   * Flag `n`'s setter rejected its environment variable's value with `cause`:
   * the variable is present, `n` holds what the setter stored, and its
   * set-state is unchanged.
   */
  ghost predicate Rejected<V>(reg: Registry<V>, reg': Registry<V>, parse: Parser<V>, makeEnvName: string -> string, env: Env,
                              n: string, cause: string)
  {
    n in reg.values && n in reg'.values && makeEnvName(n) in env &&
    parse(n, reg.values[n], env[makeEnvName(n)]) == Stored(reg'.values[n], Some(cause)) &&
    (n in reg'.actual <==> n in reg.actual)
  }

  /** The setter of `n` accepts its environment variable's value, or there is no such variable. */
  ghost predicate Accepts<V>(reg: Registry<V>, parse: Parser<V>, makeEnvName: string -> string, env: Env, n: string)
    requires n in reg.values
  {
    makeEnvName(n) in env ==> parse(n, reg.values[n], env[makeEnvName(n)]).err.None?
  }

  /** Running one more flag after a run without error is one more step. */
  lemma {:induction false} RunSnoc<V>(reg: Registry<V>, parse: Parser<V>, makeEnvName: string -> string, env: Env,
                                       order: seq<string>, name: string)
    requires Run(reg, parse, makeEnvName, env, order).1 == None
    ensures Run(reg, parse, makeEnvName, env, order + [name])
         == Step(Run(reg, parse, makeEnvName, env, order).0, parse, makeEnvName, env, name)
    decreases |order|
  {
    if order == [] {
      assert [] + [name] == [name];
    } else {
      assert (order + [name])[0] == order[0];
      assert (order + [name])[1..] == order[1..] + [name];
      var reg' := Step(reg, parse, makeEnvName, env, order[0]).0;
      RunSnoc(reg', parse, makeEnvName, env, order[1..], name);
    }
  }

  /** Running one more flag whose variable is present, after a run without error, sets that flag. */
  lemma RunSnocSet<V>(reg: Registry<V>, parse: Parser<V>, makeEnvName: string -> string, env: Env,
                      order: seq<string>, name: string, reg': Registry<V>, err: Option<string>)
    requires Run(reg, parse, makeEnvName, env, order).1 == None
    requires makeEnvName(name) in env
    requires (reg', err) == SetFlag(Run(reg, parse, makeEnvName, env, order).0, parse, name, env[makeEnvName(name)])
    ensures Run(reg, parse, makeEnvName, env, order + [name])
         == (reg', if err.Some? then Some(SetFailed(name, makeEnvName(name), err.value)) else None)
  {
    RunSnoc(reg, parse, makeEnvName, env, order, name);
  }

  /**
   * Only visited flags can change: the set of formal flags stays the same,
   * explicitly set flags stay set, and every flag outside `order` keeps its
   * value and its set-state.
   */
  lemma {:induction false} RunFrame<V>(reg: Registry<V>, parse: Parser<V>, makeEnvName: string -> string, env: Env,
                                        order: seq<string>)
    ensures var reg' := Run(reg, parse, makeEnvName, env, order).0;
      && reg'.values.Keys == reg.values.Keys
      && reg.actual <= reg'.actual
      && (forall n :: n in reg'.actual && n !in reg.actual ==> n in order)
      && (forall n :: n in reg.values && n !in order ==> Untouched(reg, reg', n))
    decreases |order|
  {
    if order != [] {
      var (r1, e1) := Step(reg, parse, makeEnvName, env, order[0]);
      if e1.None? {
        RunFrame(r1, parse, makeEnvName, env, order[1..]);
        var reg' := Run(reg, parse, makeEnvName, env, order).0;
        forall n | n in reg.values && n !in order
          ensures Untouched(reg, reg', n)
        {
          assert n != order[0] && n !in order[1..];
        }
        forall n | n in reg'.actual && n !in reg.actual
          ensures n in order
        {
          if n !in r1.actual {
            assert n in order[1..];
          }
        }
      }
    }
  }

  /** A run keeps every explicitly set flag registered. */
  lemma RunWellFormed<V>(reg: Registry<V>, parse: Parser<V>, makeEnvName: string -> string, env: Env, order: seq<string>)
    requires WellFormed(reg)
    requires forall n :: n in order ==> n in reg.values
    ensures WellFormed(Run(reg, parse, makeEnvName, env, order).0)
  {
    RunFrame(reg, parse, makeEnvName, env, order);
  }

  /**
   * A run over distinct registered flags succeeds exactly when every visited
   * flag's setter accepts its environment variable's value (or the flag has
   * no variable).
   */
  lemma {:induction false} RunSucceedsIff<V>(reg: Registry<V>, parse: Parser<V>, makeEnvName: string -> string, env: Env,
                                              order: seq<string>)
    requires Distinct(order)
    requires forall n :: n in order ==> n in reg.values
    ensures Run(reg, parse, makeEnvName, env, order).1 == None
        <==> forall n :: n in order ==> Accepts(reg, parse, makeEnvName, env, n)
    decreases |order|
  {
    if order != [] {
      var m := order[0];
      var (r1, e1) := Step(reg, parse, makeEnvName, env, m);
      if e1.None? {
        var rest := order[1..];
        assert forall n :: n in rest ==> n in order && n != m by {
          forall n | n in rest ensures n in order && n != m {
            var k :| 0 <= k < |rest| && rest[k] == n;
            assert order[k + 1] == n;
          }
        }
        RunSucceedsIff(r1, parse, makeEnvName, env, rest);
        assert forall n :: n in rest ==> r1.values[n] == reg.values[n];
        assert forall n :: n in rest ==> (Accepts(reg, parse, makeEnvName, env, n) <==> Accepts(r1, parse, makeEnvName, env, n));
        assert forall n :: n in order ==> n == m || n in rest;
      }
    }
  }

  /**
   * After a run without error over distinct registered flags, every visited
   * flag has had its environment variable applied to its original value.
   */
  lemma {:induction false} RunApplies<V>(reg: Registry<V>, parse: Parser<V>, makeEnvName: string -> string, env: Env,
                                          order: seq<string>)
    requires Distinct(order)
    requires forall n :: n in order ==> n in reg.values
    requires Run(reg, parse, makeEnvName, env, order).1 == None
    ensures forall n :: n in order ==> Applied(reg, Run(reg, parse, makeEnvName, env, order).0, parse, makeEnvName, env, n)
    decreases |order|
  {
    if order != [] {
      var m := order[0];
      var rest := order[1..];
      var r1 := Step(reg, parse, makeEnvName, env, m).0;
      var reg' := Run(reg, parse, makeEnvName, env, order).0;
      assert reg' == Run(r1, parse, makeEnvName, env, rest).0;
      assert forall n :: n in rest ==> n in order && n != m by {
        forall n | n in rest ensures n in order && n != m {
          var k :| 0 <= k < |rest| && rest[k] == n;
          assert order[k + 1] == n;
        }
      }
      assert m !in rest;
      RunApplies(r1, parse, makeEnvName, env, rest);
      RunFrame(r1, parse, makeEnvName, env, rest);
      assert Applied(reg, r1, parse, makeEnvName, env, m);
      assert Untouched(r1, reg', m);
      forall n | n in order
        ensures Applied(reg, reg', parse, makeEnvName, env, n)
      {
        if n != m {
          assert n in rest;
          assert Applied(r1, reg', parse, makeEnvName, env, n);
          assert Untouched(reg, r1, n);
        }
      }
    }
  }

  /**
   * When a run over distinct registered flags fails, the error names a
   * visited flag `f` and its environment variable, whose value `f`'s setter
   * rejected; nothing is rolled back: every flag visited before `f` stays
   * applied, and every flag after `f` or outside the order is untouched.
   */
  lemma {:induction false} RunFails<V>(reg: Registry<V>, parse: Parser<V>, makeEnvName: string -> string, env: Env,
                                        order: seq<string>)
    requires Distinct(order)
    requires forall n :: n in order ==> n in reg.values
    requires Run(reg, parse, makeEnvName, env, order).1.Some?
    ensures var (reg', err) := Run(reg, parse, makeEnvName, env, order);
      && err.value.SetFailed?
      && var f := err.value.flagName;
      && f in order
      && err.value.envName == makeEnvName(f)
      && Rejected(reg, reg', parse, makeEnvName, env, f, err.value.cause)
      && forall i :: 0 <= i < |order| && order[i] == f ==>
           && (forall n :: n in order[..i] ==> Applied(reg, reg', parse, makeEnvName, env, n))
           && (forall n :: n in reg.values && n !in order[..i + 1] ==> Untouched(reg, reg', n))
    decreases |order|
  {
    var m := order[0];
    var rest := order[1..];
    var (r1, e1) := Step(reg, parse, makeEnvName, env, m);
    var (reg', err) := Run(reg, parse, makeEnvName, env, order);
    if e1.Some? {
      forall i | 0 <= i < |order| && order[i] == err.value.flagName
        ensures forall n :: n in reg.values && n !in order[..i + 1] ==> Untouched(reg, reg', n)
      {
        assert i == 0;
        assert order[..1] == [m];
      }
    } else {
      assert reg' == Run(r1, parse, makeEnvName, env, rest).0;
      assert forall n :: n in rest ==> n in order && n != m by {
        forall n | n in rest ensures n in order && n != m {
          var k :| 0 <= k < |rest| && rest[k] == n;
          assert order[k + 1] == n;
        }
      }
      RunFails(r1, parse, makeEnvName, env, rest);
      var f := err.value.flagName;
      assert Untouched(reg, r1, f);
      forall i | 0 <= i < |order| && order[i] == f
        ensures forall n :: n in order[..i] ==> Applied(reg, reg', parse, makeEnvName, env, n)
        ensures forall n :: n in reg.values && n !in order[..i + 1] ==> Untouched(reg, reg', n)
      {
        assert i >= 1 && rest[i - 1] == f;
        FailurePrefix(reg, r1, reg', parse, makeEnvName, env, order, i);
      }
    }
  }

  /**
   * The inductive step of `RunFails`: the first step applied `order[0]`, and
   * the rest of the run, failing at `order[i]`, kept what it says of `rest`.
   */
  lemma FailurePrefix<V>(reg: Registry<V>, r1: Registry<V>, reg': Registry<V>, parse: Parser<V>, makeEnvName: string -> string,
                         env: Env, order: seq<string>, i: int)
    requires Distinct(order) && 1 <= i < |order|
    requires forall n :: n in order ==> n in reg.values
    requires forall n :: n in reg.values && n != order[0] ==> Untouched(reg, r1, n)
    requires Applied(reg, r1, parse, makeEnvName, env, order[0])
    requires forall n :: n in order[1..][..i - 1] ==> Applied(r1, reg', parse, makeEnvName, env, n)
    requires forall n :: n in r1.values && n !in order[1..][..i] ==> Untouched(r1, reg', n)
    requires r1.values.Keys == reg.values.Keys
    ensures forall n :: n in order[..i] ==> Applied(reg, reg', parse, makeEnvName, env, n)
    ensures forall n :: n in reg.values && n !in order[..i + 1] ==> Untouched(reg, reg', n)
  {
    var m, rest := order[0], order[1..];
    HeadAndRest(order, i);
    HeadAndRest(order, i + 1);
    assert m !in rest[..i];
    assert Untouched(r1, reg', m);
    forall n | n in order[..i]
      ensures Applied(reg, reg', parse, makeEnvName, env, n)
    {
      if n != m {
        assert n in rest[..i - 1];
        assert Applied(r1, reg', parse, makeEnvName, env, n);
        assert Untouched(reg, r1, n);
      } else {
        assert Applied(reg, r1, parse, makeEnvName, env, m);
      }
    }
  }

  /** A prefix of a non-empty sequence is its head followed by a prefix of its tail. */
  lemma HeadAndRest<T>(s: seq<T>, k: int)
    requires 1 <= k <= |s|
    ensures s[..k] == [s[0]] + s[1..][..k - 1]
  {
    assert |s[..k]| == |[s[0]] + s[1..][..k - 1]|;
    forall j | 0 <= j < k
      ensures s[..k][j] == ([s[0]] + s[1..][..k - 1])[j]
    {
      if j > 0 {
        assert s[1..][..k - 1][j - 1] == s[j];
      }
    }
  }

  /**
   * A run without error over the same distinct registered flags ends in the
   * same registry whatever the order of the visit.
   */
  lemma RunOrderIrrelevant<V>(reg: Registry<V>, parse: Parser<V>, makeEnvName: string -> string, env: Env,
                              order1: seq<string>, order2: seq<string>)
    requires Distinct(order1) && Distinct(order2)
    requires forall n :: n in order1 <==> n in order2
    requires forall n :: n in order1 ==> n in reg.values
    requires Run(reg, parse, makeEnvName, env, order1).1 == None
    ensures Run(reg, parse, makeEnvName, env, order2).1 == None
    ensures Run(reg, parse, makeEnvName, env, order1).0 == Run(reg, parse, makeEnvName, env, order2).0
  {
    RunSucceedsIff(reg, parse, makeEnvName, env, order1);
    RunSucceedsIff(reg, parse, makeEnvName, env, order2);
    var r1 := Run(reg, parse, makeEnvName, env, order1).0;
    var r2 := Run(reg, parse, makeEnvName, env, order2).0;
    RunApplies(reg, parse, makeEnvName, env, order1);
    RunApplies(reg, parse, makeEnvName, env, order2);
    RunFrame(reg, parse, makeEnvName, env, order1);
    RunFrame(reg, parse, makeEnvName, env, order2);
    forall n | n in reg.values
      ensures r1.values[n] == r2.values[n] && (n in r1.actual <==> n in r2.actual)
    {
      if n in order1 {
        assert Applied(reg, r1, parse, makeEnvName, env, n);
        assert Applied(reg, r2, parse, makeEnvName, env, n);
      }
    }
    assert r1.values == r2.values;
    assert r1.actual == r2.actual;
  }
}
