/**
 * The part of Go's `fmt.Sprintf` that the connection-string builders use: the verbs
 * `%s` and `%d`, with Go's renderings of a missing operand, an operand of the wrong
 * kind and operands left over. A format is given already split into its literal texts
 * and its verbs, in order.
 */
module Fmt {
  import Strs
  import Strconv

  /** An operand of `Sprintf`: a Go `string` or a Go `int`. */
  datatype Arg = S(s: string) | D(n: int)

  /** A format string: literal text, `%s` or `%d`, followed by the rest of the format. */
  datatype Format = End | Text(t: string, next: Format) | VerbS(next: Format) | VerbD(next: Format)

  /** `type=value`, as Go writes an operand it cannot use. */
  function TypeValue(a: Arg): string
  {
    match a
    case S(s) => "string=" + s
    case D(n) => "int=" + Strconv.Itoa(n)
  }

  function TypeValues(args: seq<Arg>): (r: seq<string>)
    ensures |r| == |args|
  {
    if args == [] then [] else [TypeValue(args[0])] + TypeValues(args[1..])
  }

  /** `fmt.Sprintf(f, args...)`. */
  function Sprintf(f: Format, args: seq<Arg>): string
  {
    match f
    case End =>
      if args == [] then "" else "%!(EXTRA " + Strs.Join(TypeValues(args), ", ") + ")"
    case Text(t, next) =>
      t + Sprintf(next, args)
    case VerbS(next) =>
      if args == [] then "%!s(MISSING)" + Sprintf(next, [])
      else (if args[0].S? then args[0].s else "%!s(" + TypeValue(args[0]) + ")") + Sprintf(next, args[1..])
    case VerbD(next) =>
      if args == [] then "%!d(MISSING)" + Sprintf(next, [])
      else (if args[0].D? then Strconv.Itoa(args[0].n) else "%!d(" + TypeValue(args[0]) + ")") + Sprintf(next, args[1..])
  }

  /** The number of verbs in a format. */
  function Verbs(f: Format): nat
  {
    match f
    case End => 0
    case Text(_, next) => Verbs(next)
    case VerbS(next) => 1 + Verbs(next)
    case VerbD(next) => 1 + Verbs(next)
  }

  /** Text of a format with no verbs is written as it is, and operands beyond the verbs are listed after it. */
  lemma {:induction false} SprintfNoVerbs(f: Format, args: seq<Arg>)
    requires Verbs(f) == 0
    ensures args == [] ==> Sprintf(f, args) == Sprintf(f, [])
    ensures args != [] ==> Sprintf(f, args) == Sprintf(f, []) + "%!(EXTRA " + Strs.Join(TypeValues(args), ", ") + ")"
  {
    match f
    case End =>
    case Text(t, next) =>
      SprintfNoVerbs(next, args);
    case VerbS(_) =>
    case VerbD(_) =>
  }

  /** A verb with no operand left is written as `%!s(MISSING)` or `%!d(MISSING)`. */
  lemma SprintfMissing(t: string)
    ensures Sprintf(VerbS(Text(t, VerbD(End))), []) == "%!s(MISSING)" + (t + "%!d(MISSING)")
  {
    assert Sprintf(VerbD(End), []) == "%!d(MISSING)" + "";
    assert "%!d(MISSING)" + "" == "%!d(MISSING)";
  }

  /** An operand of the wrong kind is written with its type and value. */
  lemma SprintfWrongKind(s: string, n: int)
    ensures Sprintf(VerbD(End), [S(s)]) == "%!d(string=" + s + ")"
    ensures Sprintf(VerbS(End), [D(n)]) == "%!s(int=" + Strconv.Itoa(n) + ")"
  {
    assert [S(s)][1..] == [] && [D(n)][1..] == [];
  }

  /** Operands beyond the verbs are listed after the text. */
  lemma SprintfExtra(t: string, n: int)
    ensures Sprintf(Text(t, End), [D(n)]) == t + "%!(EXTRA int=" + Strconv.Itoa(n) + ")"
  {
    SprintfNoVerbs(Text(t, End), [D(n)]);
    assert TypeValues([D(n)]) == ["int=" + Strconv.Itoa(n)];
  }
}
