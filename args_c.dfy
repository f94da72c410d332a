/** The argv lookup of the C harness (src/utils.c). parse_int_arg,
    parse_u64_arg and parse_str_arg share one scan: for i from 1 while
    i + 1 < argc, the first argv[i] equal to the key selects argv[i + 1] as
    its value. The value is then converted (atoi, _strtoui64) or taken as it
    is, and stored through the out pointer, which is left alone when the key
    is not found. The conversions are library calls and are parameters here. */
module ArgUtils {
  import opened Common

  /** str_eq: false when either string is missing (a null pointer), string
      equality otherwise. */
  function StrEq(a: Option<string>, b: Option<string>): (eq: bool)
  {
    a.Some? && b.Some? && a.value == b.value
  }

  /** str_eq is Option equality restricted to present strings, and symmetric. */
  lemma StrEqMeaning(a: Option<string>, b: Option<string>)
    ensures StrEq(a, b) <==> a == b && a != None
    ensures StrEq(a, b) == StrEq(b, a)
    ensures StrEq(None, b) == false && StrEq(a, None) == false
  {
  }

  /** argv[i] is a key token the scan can match: i is at least 1 and a value
      token follows it. */
  predicate KeyAt(argv: seq<string>, key: string, i: int) {
    1 <= i && i + 1 < |argv| && argv[i] == key
  }

  /** The first position at or after `from` where the scan matches `key`. */
  function FirstKeyFrom(argv: seq<string>, key: string, from: nat): (r: Option<nat>)
    ensures r.Some? ==> from <= r.value && KeyAt(argv, key, r.value)
    ensures r.Some? ==> forall j :: from <= j < r.value && 1 <= j ==> argv[j] != key
    ensures r.None? ==> forall j :: from <= j ==> !KeyAt(argv, key, j)
    decreases |argv| - from
  {
    if from + 1 >= |argv| then None
    else if from >= 1 && argv[from] == key then Some(from)
    else FirstKeyFrom(argv, key, from + 1)
  }

  /** The index the lookup loop stops at, if any. */
  function FirstKey(argv: seq<string>, key: string): (r: Option<nat>)
    ensures r.Some? <==> exists i :: KeyAt(argv, key, i)
    ensures r.Some? ==> KeyAt(argv, key, r.value)
    ensures r.Some? ==> forall j :: 1 <= j < r.value ==> argv[j] != key
  {
    FirstKeyFrom(argv, key, 1)
  }

  /** The value token the lookup selects for a key it finds. */
  function ArgValue(argv: seq<string>, key: string): (v: string)
    requires FirstKey(argv, key).Some?
    ensures exists i :: KeyAt(argv, key, i) && v == argv[i + 1]
  {
    argv[FirstKey(argv, key).value + 1]
  }

  /** The loop shared by the three parse functions: i runs from 1 while
      i + 1 < argc and stops at the first argv[i] that str_eq matches. */
  method FindKey(argv: seq<string>, key: string) returns (found: bool, i: int)
    ensures found <==> FirstKey(argv, key).Some?
    ensures found ==> i == FirstKey(argv, key).value
  {
    i := 1;
    while i + 1 < |argv|
      invariant 1 <= i
      invariant FirstKey(argv, key) == FirstKeyFrom(argv, key, i)
      decreases |argv| - i
    {
      if StrEq(Some(argv[i]), Some(key)) {
        return true, i;
      }
      i := i + 1;
    }
    found := false;
  }

  /** parse_int_arg: `outValue` is the value behind the out pointer on entry,
      `value` on return; `atoi` is the C library conversion. */
  method ParseIntArg(argv: seq<string>, key: string, outValue: int, atoi: string -> int)
    returns (found: int, value: int)
    ensures found == 0 || found == 1
    ensures found == 1 <==> exists i :: KeyAt(argv, key, i)
    ensures found == 1 ==> value == atoi(ArgValue(argv, key))
    ensures found == 0 ==> value == outValue
  {
    var hit, i := FindKey(argv, key);
    if hit {
      return 1, atoi(argv[i + 1]);
    }
    return 0, outValue;
  }

  /** parse_u64_arg, with `strtoui64` for _strtoui64(s, NULL, 10). */
  method ParseU64Arg(argv: seq<string>, key: string, outValue: u64, strtoui64: string -> u64)
    returns (found: int, value: u64)
    ensures found == 0 || found == 1
    ensures found == 1 <==> exists i :: KeyAt(argv, key, i)
    ensures found == 1 ==> value == strtoui64(ArgValue(argv, key))
    ensures found == 0 ==> value == outValue
  {
    var hit, i := FindKey(argv, key);
    if hit {
      return 1, strtoui64(argv[i + 1]);
    }
    return 0, outValue;
  }

  /** parse_str_arg: the value token itself. */
  method ParseStrArg(argv: seq<string>, key: string, outValue: string)
    returns (found: int, value: string)
    ensures found == 0 || found == 1
    ensures found == 1 <==> exists i :: KeyAt(argv, key, i)
    ensures found == 1 ==>
      exists i :: (KeyAt(argv, key, i) && value == argv[i + 1] &&
                   forall j :: 1 <= j < i ==> argv[j] != key)
    ensures found == 1 ==> value == ArgValue(argv, key)
    ensures found == 0 ==> value == outValue
  {
    var hit, i := FindKey(argv, key);
    if hit {
      return 1, argv[i + 1];
    }
    return 0, outValue;
  }

  /** argv[0], the program name, is never looked at: replacing it changes no
      lookup. */
  lemma {:induction false} ProgramNameIgnored(argv: seq<string>, key: string, name: string, from: nat)
    requires |argv| > 0 && from >= 1
    ensures FirstKeyFrom(argv[0 := name], key, from) == FirstKeyFrom(argv, key, from)
    decreases |argv| - from
  {
    if from + 1 < |argv| && argv[from] != key {
      ProgramNameIgnored(argv, key, name, from + 1);
    }
  }

  /** A key in the last position has no value token after it and is
      reported missing. */
  lemma TrailingKeyMissing(argv: seq<string>, key: string)
    requires |argv| >= 1 && argv[|argv| - 1] == key
    requires forall j :: 1 <= j < |argv| - 1 ==> argv[j] != key
    ensures FirstKey(argv, key) == None
  {
  }

  /** The scan does not skip value tokens: in `prog --out --alg --alg 3` the
      value of --out is taken as the key --alg, whose value is then the
      token "--alg" and not "3". */
  lemma ValueTokenTakenAsKey()
    ensures var argv := ["prog", "--out", "--alg", "--alg", "3"];
      FirstKey(argv, "--out") == Some(1) && ArgValue(argv, "--out") == "--alg" &&
      FirstKey(argv, "--alg") == Some(2) && ArgValue(argv, "--alg") == "--alg"
  {
    var argv := ["prog", "--out", "--alg", "--alg", "3"];
    assert FirstKeyFrom(argv, "--alg", 1) == FirstKeyFrom(argv, "--alg", 2);
  }
}
