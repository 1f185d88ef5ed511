/**
 * The part of Go's `flag` package that the binder relies on: a flag set maps
 * each registered (formal) flag name to its current value, remembers which
 * flags were explicitly set (the "actual" flags), whether command-line
 * parsing has happened, and offers a typed setter `Set(name, text)`.
 *
 * The typed parsing itself (integers, durations, booleans, ...) is abstract:
 * a flag set carries one total function `parse` that, given a flag's name, its
 * current value and a string, yields the value the flag's cell holds
 * afterwards and, when the string is rejected, an error message. A rejecting
 * setter may still leave a value behind, as Go's numeric setters store the
 * zero value they parsed.
 */
module Flag {

  datatype Option<+T> = None | Some(value: T)

  /** What a typed setter leaves behind: the cell's new value, and the error if the text was rejected. */
  datatype Stored<+V> = Stored(value: V, err: Option<string>)

  /** The typed setter of every flag in a set: (flag name, current value, text) -> what is stored. */
  type Parser<!V> = (string, V, string) -> Stored<V>

  /** The observable state of a flag set: current values of the formal flags, and the explicitly set names. */
  datatype Registry<V> = Registry(values: map<string, V>, actual: set<string>)

  /** Every explicitly set flag is a registered one: the formal flags split into the unset and the set ones. */
  predicate WellFormed<V>(reg: Registry<V>): (b: bool)
    ensures b <==> reg.values.Keys == Unset(reg) + reg.actual
  {
    reg.actual <= reg.values.Keys
  }

  /** Registered flags that were not explicitly set. */
  function Unset<V>(reg: Registry<V>): (names: set<string>)
    ensures forall n :: n in names <==> n in reg.values && n !in reg.actual
  {
    reg.values.Keys - reg.actual
  }

  /**
   * `FlagSet.Set(name, text)`: an unknown name is an error that changes
   * nothing; otherwise the flag's typed setter runs and its cell takes what
   * the setter stored. Only when the setter accepted the text does the flag
   * count as explicitly set from then on.
   */
  function SetFlag<V>(reg: Registry<V>, parse: Parser<V>, name: string, text: string): (r: (Registry<V>, Option<string>))
    ensures r.1.None? <==> name in reg.values && parse(name, reg.values[name], text).err.None?
    ensures name !in reg.values ==> r == (reg, Some("no such flag -" + name))
    ensures name in reg.values ==>
              && r.1 == parse(name, reg.values[name], text).err
              && r.0.values.Keys == reg.values.Keys
              && r.0.values[name] == parse(name, reg.values[name], text).value
              && (forall n :: n in reg.values && n != name ==> r.0.values[n] == reg.values[n])
              && r.0.actual == (if r.1.None? then reg.actual + {name} else reg.actual)
  {
    if name !in reg.values then
      (reg, Some("no such flag -" + name))
    else
      var stored := parse(name, reg.values[name], text);
      var actual := if stored.err.None? then reg.actual + {name} else reg.actual;
      (Registry(reg.values[name := stored.value], actual), stored.err)
  }

  /**
   * `SetFlag` applied to each pair in turn, stopping at the first failure.
   * The formal flags stay the same, set flags stay set, and when no pair fails
   * every named flag ends up explicitly set.
   */
  function SetEach<V>(reg: Registry<V>, parse: Parser<V>, args: seq<(string, string)>): (r: (Registry<V>, Option<string>))
    ensures r.0.values.Keys == reg.values.Keys && reg.actual <= r.0.actual
    ensures r.1.None? ==> forall k :: 0 <= k < |args| ==> args[k].0 in r.0.actual
    decreases |args|
  {
    if args == [] then
      (reg, None)
    else
      var (reg', err) := SetFlag(reg, parse, args[0].0, args[0].1);
      if err.Some? then (reg', err) else SetEach(reg', parse, args[1..])
  }

  /** A flag set whose flag cells are updated in place. */
  class FlagSet<V> {
    /** The formal flags and the current value of each. */
    var values: map<string, V>
    /** Names of the flags that have been explicitly set. */
    var actual: set<string>
    /** Whether command-line parsing has happened. */
    var parsed: bool
    /** The typed setter of the flags. */
    const parse: Parser<V>

    ghost predicate Valid()
      reads this
    {
      WellFormed(State())
    }

    function State(): Registry<V>
      reads this
    {
      Registry(values, actual)
    }

    /** A new flag set with the given flags at their defaults, nothing set, not parsed. */
    constructor (defaults: map<string, V>, parse: Parser<V>)
      ensures Valid()
      ensures values == defaults && actual == {} && !parsed && this.parse == parse
    {
      values := defaults;
      actual := {};
      parsed := false;
      this.parse := parse;
    }

    /** `FlagSet.Set`: sets one flag from a string; `None` stands for a nil error. */
    method Set(name: string, text: string) returns (err: Option<string>)
      requires Valid()
      modifies this
      ensures Valid() && parsed == old(parsed)
      ensures (State(), err) == SetFlag(old(State()), parse, name, text)
    {
      var (reg, e) := SetFlag(State(), parse, name, text);
      values, actual := reg.values, reg.actual;
      err := e;
    }

    /**
     * `FlagSet.Parse` on arguments already split into (name, value) pairs:
     * the set is marked parsed, then the pairs are set in order, stopping at
     * the first failure.
     */
    method Parse(args: seq<(string, string)>) returns (err: Option<string>)
      requires Valid()
      modifies this
      ensures Valid() && parsed
      ensures (State(), err) == SetEach(old(State()), parse, args)
    {
      parsed := true;
      var i := 0;
      while i < |args|
        invariant 0 <= i <= |args|
        invariant Valid() && parsed
        invariant SetEach(old(State()), parse, args) == SetEach(State(), parse, args[i..])
      {
        assert args[i..][0] == args[i] && args[i..][1..] == args[i + 1..];
        err := Set(args[i].0, args[i].1);
        if err.Some? {
          return;
        }
        i := i + 1;
      }
      err := None;
    }
  }
}
