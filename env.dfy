/**
 * Environment lookups with defaults (package env). The process environment is a map
 * from variable name to value; a name absent from the map is unset.
 */
module Env {
  import opened Wrappers
  import opened Strconv
  import opened Errs

  type Environ = map<string, string>

  /** A value together with the error returned beside it. */
  datatype Lookup<T> = Lookup(value: T, err: Error)

  /** `GetString`: the set value, even an empty one, or the default when unset. */
  function GetString(env: Environ, key: string, defaultValue: string): (r: string)
    ensures key in env ==> r == env[key]
    ensures key !in env ==> r == defaultValue
  {
    if key in env then env[key] else defaultValue
  }

  function ReasonText(e: NumError): string
  {
    match e
    case ErrSyntax => "invalid syntax"
    case ErrRange => "value out of range"
  }

  /** The `*strconv.NumError` a failed conversion returns, as its text: the value is quoted with `Quote`. */
  function NumErr(fn: string, v: string, e: NumError): Error
  {
    Foreign("strconv." + fn + ": parsing " + Quote(v) + ": " + ReasonText(e))
  }

  /**
   * `GetInt`: an unset key gives the default and no error; a decimal integer gives its
   * value and no error; anything else gives the default and a wrapped conversion error.
   */
  function GetInt(env: Environ, key: string, defaultValue: int): (r: Lookup<int>)
    ensures key !in env ==> r == Lookup(defaultValue, Nil)
    ensures key in env && Atoi(env[key]).Success? ==> r == Lookup(Atoi(env[key]).value, Nil)
    ensures key in env && Atoi(env[key]).Failure? ==>
      && r.value == defaultValue
      && r.err == WrapMsg(NumErr("Atoi", env[key], Atoi(env[key]).error), "Atoi failed", ["value", env[key]])
      && r.err != Nil
  {
    if key in env then
      match Atoi(env[key])
      case Success(v) => Lookup(v, Nil)
      case Failure(e) => Lookup(defaultValue, WrapMsg(NumErr("Atoi", env[key], e), "Atoi failed", ["value", env[key]]))
    else Lookup(defaultValue, Nil)
  }

  /** `GetBool`: the same three cases as `GetInt`, with `ParseBool` as the conversion. */
  function GetBool(env: Environ, key: string, defaultValue: bool): (r: Lookup<bool>)
    ensures key !in env ==> r == Lookup(defaultValue, Nil)
    ensures key in env && ParseBool(env[key]).Success? ==> r == Lookup(ParseBool(env[key]).value, Nil)
    ensures key in env && ParseBool(env[key]).Failure? ==>
      && r.value == defaultValue
      && r.err == WrapMsg(NumErr("ParseBool", env[key], ErrSyntax), "ParseBool failed", ["value", env[key]])
      && r.err != Nil
  {
    if key in env then
      match ParseBool(env[key])
      case Success(b) => Lookup(b, Nil)
      case Failure(e) => Lookup(defaultValue, WrapMsg(NumErr("ParseBool", env[key], e), "ParseBool failed", ["value", env[key]]))
    else Lookup(defaultValue, Nil)
  }

  /** An integer written with `Itoa` into the environment is read back exactly, whatever the default. */
  lemma GetIntAfterSet(env: Environ, key: string, n: int, defaultValue: int)
    requires MinInt64 <= n <= MaxInt64
    ensures GetInt(env[key := Itoa(n)], key, defaultValue) == Lookup(n, Nil)
  {
    AtoiItoa(n);
  }

  /** A boolean written with `FormatBool` is read back exactly. */
  lemma GetBoolAfterSet(env: Environ, key: string, b: bool, defaultValue: bool)
    ensures GetBool(env[key := FormatBool(b)], key, defaultValue) == Lookup(b, Nil)
  {
    ParseFormatBool(b);
  }

  /** An unparsable value never leaks into the result: the default comes back with an error. */
  lemma GetIntBadValue(env: Environ, key: string, defaultValue: int)
    ensures GetInt(env[key := ""], key, defaultValue).value == defaultValue
    ensures GetInt(env[key := ""], key, defaultValue).err != Nil
    ensures GetInt(env[key := "12a"], key, defaultValue).value == defaultValue
  {
    assert !WellFormed("");
    assert !AllDigits(Unsigned("12a")) by { assert Unsigned("12a")[2] == 'a'; }
  }

  /** A value with a double quote in it is escaped in the conversion error, as `strconv.Quote` writes it. */
  lemma GetIntQuotedValue(env: Environ, key: string, defaultValue: int)
    ensures GetInt(env[key := "a\"b"], key, defaultValue).err
      == WrapMsg(Foreign("strconv.Atoi: parsing " + "\"a\\\"b\"" + ": invalid syntax"), "Atoi failed", ["value", "a\"b"])
  {
    assert !AllDigits(Unsigned("a\"b")) by { assert Unsigned("a\"b")[0] == 'a'; }
    QuoteEscapes();
    var q := "\"a\\\"b\"";
    assert "strconv." + "Atoi" + ": parsing " == "strconv.Atoi: parsing ";
    assert ": " + ReasonText(ErrSyntax) == ": invalid syntax";
    assert NumErr("Atoi", "a\"b", ErrSyntax).text == "strconv.Atoi: parsing " + q + ": invalid syntax";
  }

  /**
   * Digits that overflow 64 bits, followed by anything, are a range error even when a
   * bad character comes later: `"99999999999999999999a"` reads as out of range.
   */
  lemma GetIntOverflowFirst(env: Environ, key: string, d: string, rest: string, defaultValue: int)
    requires |d| > 0 && AllDigits(d) && DigitsValue(d) > MaxUint64
    ensures GetInt(env[key := d + rest], key, defaultValue)
      == Lookup(defaultValue, WrapMsg(NumErr("Atoi", d + rest, ErrRange), "Atoi failed", ["value", d + rest]))
  {
    AtoiOverflowFirst(d, rest);
  }
}
