/**
 * Derivation of environment-variable names from flag names
 * (`EnvVarNameFromPrefix`): the prefix gets a trailing `_` unless it is empty
 * or already ends in one, the flag name is appended, every `-` becomes `_`,
 * and the whole name is upper-cased. Upper-casing is modelled on ASCII only.
 */
module EnvName {

  const SEPARATOR: char := '_'

  /** `strings.HasSuffix`: `s` ends with the characters of `suffix`. */
  predicate HasSuffix(s: string, suffix: string): (b: bool)
    ensures b <==> |suffix| <= |s| && forall i :: 0 <= i < |suffix| ==> s[|s| - |suffix| + i] == suffix[i]
  {
    |suffix| <= |s| && s[|s| - |suffix|..] == suffix
  }

  predicate IsLowerAscii(c: char)
  {
    'a' <= c <= 'z'
  }

  /** ASCII upper-casing of one character; every other character is kept. */
  function UpperChar(c: char): (u: char)
    ensures !IsLowerAscii(u)
    ensures IsLowerAscii(c) ==> u as int == c as int - 32
    ensures !IsLowerAscii(c) ==> u == c
  {
    if IsLowerAscii(c) then (c as int - 32) as char else c
  }

  /** `strings.ToUpper`, restricted to ASCII case mapping. */
  function ToUpper(s: string): (r: string)
    ensures |r| == |s|
    ensures forall i :: 0 <= i < |s| ==> r[i] == UpperChar(s[i])
    ensures forall i :: 0 <= i < |r| ==> !IsLowerAscii(r[i])
  {
    seq(|s|, i requires 0 <= i < |s| => UpperChar(s[i]))
  }

  /** `strings.ReplaceAll` with a one-character pattern and replacement. */
  function ReplaceAll(s: string, from: char, to: char): (r: string)
    ensures |r| == |s|
    ensures forall i :: 0 <= i < |s| ==> r[i] == (if s[i] == from then to else s[i])
    ensures from != to ==> from !in r
  {
    seq(|s|, i requires 0 <= i < |s| => if s[i] == from then to else s[i])
  }

  /**
   * The prefix as `EnvVarNameFromPrefix` uses it: empty stays empty, a
   * non-empty prefix already ending in `_` is kept as it is, and any other
   * gets one `_` appended.
   */
  function NormalizePrefix(prefix: string): (p: string)
    ensures p == [] <==> prefix == []
    ensures p != [] ==> p[|p| - 1] == SEPARATOR
    ensures prefix != [] && prefix[|prefix| - 1] == SEPARATOR ==> p == prefix
    ensures prefix != [] && prefix[|prefix| - 1] != SEPARATOR ==> p == prefix + [SEPARATOR]
  {
    if prefix != [] && !HasSuffix(prefix, [SEPARATOR]) then prefix + [SEPARATOR] else prefix
  }

  /**
   * The closure body: the name for `flagName` from an already normalized
   * prefix, character by character the derivation of the concatenation.
   */
  function MakeEnvName(normalized: string, flagName: string): (envName: string)
    ensures |envName| == |normalized| + |flagName|
    ensures forall i :: 0 <= i < |normalized + flagName| ==> envName[i] == Derive((normalized + flagName)[i])
  {
    ToUpper(ReplaceAll(normalized + flagName, '-', SEPARATOR))
  }

  /**
   * `EnvVarNameFromPrefix(prefix)`: a function from flag names to
   * environment-variable names. Each name is the normalized prefix followed
   * by the flag name, character for character, with `-` turned into `_` and
   * ASCII letters upper-cased; no name contains `-` or a lower-case letter.
   */
  function EnvVarNameFromPrefix(prefix: string): (makeEnvName: string -> string)
    ensures forall flagName :: |makeEnvName(flagName)| == |NormalizePrefix(prefix)| + |flagName|
    ensures forall flagName, i :: 0 <= i < |NormalizePrefix(prefix) + flagName| ==>
              makeEnvName(flagName)[i] == Derive((NormalizePrefix(prefix) + flagName)[i])
    ensures forall flagName :: '-' !in makeEnvName(flagName)
    ensures forall flagName, i :: 0 <= i < |makeEnvName(flagName)| ==> !IsLowerAscii(makeEnvName(flagName)[i])
  {
    var normalized := NormalizePrefix(prefix);
    flagName => MakeEnvName(normalized, flagName)
  }

  /** What one character of the input becomes in an environment-variable name. */
  function Derive(c: char): char
  {
    UpperChar(if c == '-' then SEPARATOR else c)
  }

  lemma ReplaceAllAppend(a: string, b: string, from: char, to: char)
    ensures ReplaceAll(a + b, from, to) == ReplaceAll(a, from, to) + ReplaceAll(b, from, to)
  {
  }

  lemma ToUpperAppend(a: string, b: string)
    ensures ToUpper(a + b) == ToUpper(a) + ToUpper(b)
  {
  }

  /** The name is the derivation of the normalized prefix followed by the derivation of the flag name. */
  lemma DerivationSplits(prefix: string, flagName: string)
    ensures EnvVarNameFromPrefix(prefix)(flagName)
         == MakeEnvName([], NormalizePrefix(prefix)) + MakeEnvName([], flagName)
  {
    var p := NormalizePrefix(prefix);
    assert [] + p == p && [] + flagName == flagName;
    ReplaceAllAppend(p, flagName, '-', SEPARATOR);
    ToUpperAppend(ReplaceAll(p, '-', SEPARATOR), ReplaceAll(flagName, '-', SEPARATOR));
  }

  /** A non-empty prefix without a trailing `_` derives the same names as the prefix with one. */
  lemma TrailingSeparatorAbsorbed(prefix: string, flagName: string)
    requires prefix != [] && prefix[|prefix| - 1] != SEPARATOR
    ensures EnvVarNameFromPrefix(prefix)(flagName) == EnvVarNameFromPrefix(prefix + [SEPARATOR])(flagName)
  {
    assert NormalizePrefix(prefix) == NormalizePrefix(prefix + [SEPARATOR]);
  }

  /** Normalizing a prefix twice is normalizing it once. */
  lemma NormalizeIdempotent(prefix: string)
    ensures NormalizePrefix(NormalizePrefix(prefix)) == NormalizePrefix(prefix)
  {
  }

  /** With an empty prefix no separator is added: the name is the flag name, derived. */
  lemma EmptyPrefixAddsNothing(flagName: string)
    ensures EnvVarNameFromPrefix([])(flagName) == MakeEnvName([], flagName)
  {
    assert [] + flagName == flagName;
  }

  /** A prefix that already ends in `_` is used as it is. */
  lemma SeparatedPrefixKept(prefix: string, flagName: string)
    requires prefix != [] && prefix[|prefix| - 1] == SEPARATOR
    ensures EnvVarNameFromPrefix(prefix)(flagName) == MakeEnvName(prefix, flagName)
  {
  }

  /** A derived name is a fixed point: deriving it again with an empty prefix returns it unchanged. */
  lemma RederivationIsIdentity(prefix: string, flagName: string)
    ensures EnvVarNameFromPrefix([])(EnvVarNameFromPrefix(prefix)(flagName)) == EnvVarNameFromPrefix(prefix)(flagName)
  {
    var name := EnvVarNameFromPrefix(prefix)(flagName);
    var again := EnvVarNameFromPrefix([])(name);
    assert [] + name == name;
    assert |again| == |name|;
    forall i | 0 <= i < |name|
      ensures again[i] == name[i]
    {
      assert name[i] != '-' by { assert name[i] in name; }
    }
  }

  /** Two inputs whose characters derive alike give the same name. */
  lemma SameName(a: string, b: string)
    requires |a| == |b|
    requires forall i :: 0 <= i < |a| ==> Derive(a[i]) == Derive(b[i])
    ensures MakeEnvName([], a) == MakeEnvName([], b)
  {
    assert [] + a == a && [] + b == b;
  }

  lemma DeriveIgnoresCase(c: char)
    ensures Derive(UpperChar(c)) == Derive(c)
  {
  }

  /** Upper-casing the prefix first changes nothing: the name ignores the prefix's ASCII case. */
  lemma PrefixCaseIgnored(prefix: string, flagName: string)
    ensures EnvVarNameFromPrefix(ToUpper(prefix))(flagName) == EnvVarNameFromPrefix(prefix)(flagName)
  {
    var up := ToUpper(prefix);
    assert up != [] ==> up[|up| - 1] == UpperChar(prefix[|prefix| - 1]);
    var p, q := NormalizePrefix(prefix), NormalizePrefix(up);
    assert |q| == |p|;
    forall i | 0 <= i < |p|
      ensures Derive(q[i]) == Derive(p[i])
    {
      if i < |prefix| {
        DeriveIgnoresCase(prefix[i]);
      }
    }
    var a, b := p + flagName, q + flagName;
    assert [] + a == a && [] + b == b;
    SameName(b, a);
  }

  /** Upper-casing the flag name first changes nothing: the name ignores the flag name's ASCII case. */
  lemma FlagCaseIgnored(prefix: string, flagName: string)
    ensures EnvVarNameFromPrefix(prefix)(ToUpper(flagName)) == EnvVarNameFromPrefix(prefix)(flagName)
  {
    var p := NormalizePrefix(prefix);
    var a, b := p + flagName, p + ToUpper(flagName);
    forall i | 0 <= i < |a|
      ensures Derive(b[i]) == Derive(a[i])
    {
      if i >= |p| {
        DeriveIgnoresCase(flagName[i - |p|]);
      }
    }
    assert [] + a == a && [] + b == b;
    SameName(b, a);
  }

  /** Writing `_` instead of `-` in the flag name gives the same environment variable. */
  lemma HyphenAndSeparatorCollide(prefix: string, flagName: string)
    ensures EnvVarNameFromPrefix(prefix)(ReplaceAll(flagName, '-', SEPARATOR))
         == EnvVarNameFromPrefix(prefix)(flagName)
  {
    var p := NormalizePrefix(prefix);
    var a, b := p + flagName, p + ReplaceAll(flagName, '-', SEPARATOR);
    forall i | 0 <= i < |a|
      ensures Derive(b[i]) == Derive(a[i])
    {
      if i >= |p| {
        assert b[i] == ReplaceAll(flagName, '-', SEPARATOR)[i - |p|] && a[i] == flagName[i - |p|];
      }
    }
    assert [] + a == a && [] + b == b;
    SameName(b, a);
  }

  /** Flags `f` and `g` get different variables when their derived characters differ at some position. */
  lemma DistinctNames(prefix: string, f: string, g: string, i: nat)
    requires i < |f| && i < |g| && Derive(f[i]) != Derive(g[i])
    ensures EnvVarNameFromPrefix(prefix)(f) != EnvVarNameFromPrefix(prefix)(g)
  {
    var p := NormalizePrefix(prefix);
    assert (p + f)[|p| + i] == f[i] && (p + g)[|p| + i] == g[i];
    assert EnvVarNameFromPrefix(prefix)(f)[|p| + i] != EnvVarNameFromPrefix(prefix)(g)[|p| + i];
  }
}
