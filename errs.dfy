/**
 * The error values of package errs: coded errors (`codeError`), plain text errors
 * (`errorString`), the wrapping layers that `Wrap`/`WrapMsg` add, the key/value message
 * renderer `toString`, the chain walk `Unwrap`, and the code relation that `Is` consults.
 */
module Errs {
  import opened Strs
  import opened Strconv
  import opened Wrappers

  // Error codes shared by the other packages.
  const ServerInternalError: int := 500
  const ArgsError: int := 1001
  const NoPermissionError: int := 1002
  const DuplicateKeyError: int := 1003
  const RecordNotFoundError: int := 1004
  const TokenExpiredError: int := 1501
  const TokenMalformedError: int := 1503
  const TokenNotValidYetError: int := 1504
  const TokenUnknownError: int := 1505

  /** Go's `error` values as far as this package distinguishes them. */
  datatype Error =
    | Nil                                          // the nil error
    | Code(code: int, msg: string, detail: string) // *codeError
    | Str(s: string)                               // *errorString
    | WithMessage(cause: Error, message: string)   // a message layer added by WrapMsg
    | WithStack(cause: Error)                      // a stack layer added by Wrap/WrapMsg
    | Foreign(text: string)                        // an error made by another package

  /** `NewCodeError(code, msg)`: no detail yet. */
  function NewCodeError(code: int, msg: string): Error
  {
    Code(code, msg, "")
  }

  // The predefined coded errors.
  const ErrArgs: Error := NewCodeError(ArgsError, "ArgsError")
  const ErrNoPermission: Error := NewCodeError(NoPermissionError, "NoPermissionError")
  const ErrInternalServer: Error := NewCodeError(ServerInternalError, "ServerInternalError")
  const ErrRecordNotFound: Error := NewCodeError(RecordNotFoundError, "RecordNotFoundError")
  const ErrDuplicateKey: Error := NewCodeError(DuplicateKeyError, "DuplicateKeyError")
  const ErrTokenMalformed: Error := NewCodeError(TokenMalformedError, "TokenMalformedError")
  const ErrTokenNotValidYet: Error := NewCodeError(TokenNotValidYetError, "TokenNotValidYetError")
  const ErrTokenUnknown: Error := NewCodeError(TokenUnknownError, "TokenUnknownError")
  const ErrTokenExpired: Error := NewCodeError(TokenExpiredError, "TokenExpiredError")

  /**
   * `codeError.WithDetail`: a new coded error with the same code and message whose
   * detail is the new text, appended after ", " when a detail was already there.
   */
  function WithDetail(e: Error, detail: string): (r: Error)
    requires e.Code?
    ensures r.Code? && r.code == e.code && r.msg == e.msg
    ensures e.detail == "" ==> r.detail == detail
    ensures e.detail != "" ==> r.detail == e.detail + ", " + detail
  {
    Code(e.code, e.msg, if e.detail == "" then detail else e.detail + ", " + detail)
  }

  /** Details accumulate left to right, separated by ", ". */
  lemma WithDetailTwice(e: Error, d1: string, d2: string)
    requires e.Code? && e.detail == "" && d1 != ""
    ensures WithDetail(WithDetail(e, d1), d2).detail == d1 + ", " + d2
    ensures WithDetail(WithDetail(e, d1), d2).code == e.code
  {
  }

  /** `codeError.Error()`: the decimal code, the message and (when present) the detail, space-joined. */
  function CodeErrorText(e: Error): (r: string)
    requires e.Code?
    ensures e.detail == "" ==> r == Itoa(e.code) + " " + e.msg
    ensures e.detail != "" ==> r == Itoa(e.code) + " " + e.msg + " " + e.detail
  {
    var parts := [Itoa(e.code), e.msg] + (if e.detail != "" then [e.detail] else []);
    assert parts[1..] == [e.msg] + (if e.detail != "" then [e.detail] else []);
    assert e.detail != "" ==> parts[1..][1..] == [e.detail];
    assert Join(parts[1..], " ") == if e.detail != "" then e.msg + " " + e.detail else e.msg;
    Join(parts, " ")
  }

  /** The code can be read back from the front of the text, up to the first space. */
  lemma CodeErrorTextStartsWithCode(e: Error)
    requires e.Code? && MinInt64 <= e.code <= MaxInt64
    ensures Atoi(Split(CodeErrorText(e), ' ')[0]) == Success(e.code)
  {
    var t := CodeErrorText(e);
    var rest := if e.detail == "" then e.msg else e.msg + " " + e.detail;
    assert t == Itoa(e.code) + [' '] + rest;
    ItoaChars(e.code, ' ');
    SplitFirst(Itoa(e.code), ' ', rest);
    AtoiItoa(e.code);
  }

  /** `errorString.Error()`. */
  function ErrorStringText(e: Error): string
    requires e.Str?
  {
    e.s
  }

  /** The `key=value` texts of a key/value list, two entries at a time. */
  function Pairs(kv: seq<string>): (ps: seq<string>)
    ensures |ps| == (|kv| + 1) / 2
  {
    if |kv| == 0 then []
    else if |kv| == 1 then [kv[0] + "=MISSING"]
    else [kv[0] + "=" + kv[1]] + Pairs(kv[2..])
  }

  /** Pair `i` is key `2i` and its value; a trailing key without a value gets MISSING. */
  lemma {:induction false} PairsAt(kv: seq<string>, i: nat)
    requires i < (|kv| + 1) / 2
    ensures Pairs(kv)[i] == kv[2 * i] + "=" + (if 2 * i + 1 < |kv| then kv[2 * i + 1] else "MISSING")
    decreases i
  {
    if i > 0 {
      PairsAt(kv[2..], i - 1);
      assert kv[2..][2 * (i - 1)] == kv[2 * i];
    }
  }

  /** Every pair renders as `key=value`, and an odd list ends with `key=MISSING`. */
  lemma PairsProps(kv: seq<string>)
    ensures forall i :: 0 <= i < |Pairs(kv)| && 2 * i + 1 < |kv| ==> Pairs(kv)[i] == kv[2 * i] + "=" + kv[2 * i + 1]
    ensures |kv| % 2 == 1 ==> Pairs(kv)[|Pairs(kv)| - 1] == kv[|kv| - 1] + "=MISSING"
  {
    forall i | 0 <= i < |Pairs(kv)| {
      PairsAt(kv, i);
    }
    if |kv| % 2 == 1 {
      PairsAt(kv, |Pairs(kv)| - 1);
    }
  }

  /**
   * What `toString(s, kv)` renders: `s` alone for no pairs; otherwise the pairs joined
   * by ", ", with a ", " between `s` and the first pair only when `s` is non-empty.
   */
  function Render(s: string, kv: seq<string>): string
  {
    if kv == [] then s
    else if s == "" then Join(Pairs(kv), ", ")
    else s + ", " + Join(Pairs(kv), ", ")
  }

  lemma RenderEmpty(s: string)
    ensures Render(s, []) == s
  {
  }

  /** Rendering splits at an even position: the pairs of the front, then the pairs of the rest. */
  lemma {:induction false} PairsAppend(a: seq<string>, b: seq<string>)
    requires |a| % 2 == 0
    ensures Pairs(a + b) == Pairs(a) + Pairs(b)
    decreases |a|
  {
    if a == [] {
      assert a + b == b;
    } else {
      assert (a + b)[2..] == a[2..] + b;
      PairsAppend(a[2..], b);
    }
  }

  /** The pair that starts at an even position `i`, followed by the pairs before it. */
  lemma PairsSnoc(kv: seq<string>, i: nat)
    requires i % 2 == 0 && i < |kv|
    ensures Pairs(kv[..Min(i + 2, |kv|)]) == Pairs(kv[..i]) + [Pairs(kv[i..])[0]]
  {
    var j := Min(i + 2, |kv|);
    assert kv[..j] == kv[..i] + kv[i..j];
    PairsAppend(kv[..i], kv[i..j]);
    var t := kv[i..j];
    if j == i + 1 {
      assert kv[i..] == t;
    } else {
      assert t[2..] == [];
      assert kv[i..][..2] == t;
      PairsAt(kv[i..], 0);
    }
  }

  function Min(a: int, b: int): int { if a < b then a else b }

  /** A rendering with at least one pair is never empty. */
  lemma RenderNonEmpty(s: string, kv: seq<string>)
    requires kv != []
    ensures |Render(s, kv)| > 0
  {
    var ps := Pairs(kv);
    if s == "" && |ps| > 1 {
      assert Join(ps, ", ") == ps[0] + ", " + Join(ps[1..], ", ");
    }
  }

  /** The first pair follows `s`, after ", " when `s` is non-empty. */
  lemma RenderFirst(s: string, kv: seq<string>)
    requires kv != []
    ensures Render(s, kv[..Min(2, |kv|)]) == (if |s| > 0 then s + ", " else s) + Pairs(kv)[0]
  {
    PairsSnoc(kv, 0);
    assert kv[0..] == kv;
    assert Pairs(kv[..0]) == [];
    assert Pairs(kv[..Min(2, |kv|)]) == [Pairs(kv)[0]];
  }

  /** Each later pair follows the text so far after ", ". */
  lemma RenderNext(s: string, kv: seq<string>, i: nat)
    requires i % 2 == 0 && 0 < i < |kv|
    ensures Render(s, kv[..Min(i + 2, |kv|)]) == Render(s, kv[..i]) + ", " + Pairs(kv[i..])[0]
  {
    PairsSnoc(kv, i);
    var x := Pairs(kv[i..])[0];
    var ps := Pairs(kv[..i]);
    assert ps != [];
    JoinSnoc(ps, ", ", x);
    assert Pairs(kv[..Min(i + 2, |kv|)]) == ps + [x];
  }

  /**
   * `toString`: the buffer loop of the source. Each pair is preceded by ", " whenever
   * the buffer already holds text.
   */
  method ToString(s: string, kv: seq<string>) returns (r: string)
    ensures r == Render(s, kv)
  {
    if |kv| == 0 {
      return s;
    }
    var buf := s;
    var i := 0;
    while i < |kv|
      invariant 0 <= i <= |kv| + 1 && i % 2 == 0
      invariant buf == if i == 0 then s else Render(s, kv[..Min(i, |kv|)])
      decreases |kv| - i
    {
      if i > 0 {
        assert kv[..Min(i, |kv|)] == kv[..i];
      }
      RenderStep(s, kv, i);
      if |buf| > 0 {
        buf := buf + ", ";
      }
      var value := if i + 1 < |kv| then kv[i + 1] else "MISSING";
      buf := buf + (kv[i] + "=" + value);
      i := i + 2;
    }
    assert kv[..Min(i, |kv|)] == kv;
    r := buf;
  }

  /** One turn of the `toString` loop: pair `i / 2` is written after the text so far. */
  lemma RenderStep(s: string, kv: seq<string>, i: nat)
    requires i % 2 == 0 && i < |kv|
    ensures var before := if i == 0 then s else Render(s, kv[..i]);
            var value := if i + 1 < |kv| then kv[i + 1] else "MISSING";
            Render(s, kv[..Min(i + 2, |kv|)]) == (if |before| > 0 then before + ", " else before) + (kv[i] + "=" + value)
  {
    var value := if i + 1 < |kv| then kv[i + 1] else "MISSING";
    PairsAt(kv[i..], 0);
    var x := Pairs(kv[i..])[0];
    assert x == kv[i] + "=" + value;
    if i == 0 {
      RenderFirst(s, kv);
      assert kv[0..] == kv;
      assert Render(s, kv[..Min(2, |kv|)]) == (if |s| > 0 then s + ", " else s) + x;
    } else {
      RenderNonEmpty(s, kv[..i]);
      RenderNext(s, kv, i);
      assert Render(s, kv[..Min(i + 2, |kv|)]) == Render(s, kv[..i]) + ", " + x;
    }
  }

  /** `New(s, kv...)`: an errorString holding the rendered message. */
  method New(s: string, kv: seq<string>) returns (r: Error)
    ensures r.Str? && r.s == Render(s, kv)
    ensures kv == [] ==> ErrorStringText(r) == s
  {
    var text := ToString(s, kv);
    r := Str(text);
  }

  /** `errorString.Is`: false for nil; otherwise the other error is an errorString with equal text. */
  function ErrorStringIs(e: Error, err: Error): (r: bool)
    requires e.Str?
    ensures err == Nil ==> !r
    ensures r <==> err.Str? && err.s == e.s
  {
    if err == Nil then false
    else err.Str? && e.s == err.s
  }

  /** A wrapped errorString is not matched: its outermost layer is not an errorString. */
  lemma ErrorStringIsIgnoresWrapped(e: Error)
    requires e.Str?
    ensures ErrorStringIs(e, e)
    ensures !ErrorStringIs(e, WithStack(e))
  {
  }

  /** `errors.WithStack`: nil stays nil. */
  function Wrap(err: Error): (r: Error)
    ensures err == Nil <==> r == Nil
  {
    if err == Nil then Nil else WithStack(err)
  }

  /** `WrapMsg(err, msg, kv...)`: nil stays nil; otherwise a message layer and a stack layer. */
  function WrapMsg(err: Error, msg: string, kv: seq<string>): (r: Error)
    ensures err == Nil <==> r == Nil
    ensures r != Nil ==> r == WithStack(WithMessage(err, Render(msg, kv)))
  {
    if err == Nil then Nil else WithStack(WithMessage(err, Render(msg, kv)))
  }

  predicate HasUnwrap(e: Error)
  {
    e.WithMessage? || e.WithStack?
  }

  /** The layers of an error chain, outermost first. */
  function Layers(e: Error): (ls: seq<Error>)
    ensures |ls| > 0 && ls[0] == e
    ensures forall i :: 0 <= i < |ls| - 1 ==> HasUnwrap(ls[i]) && ls[i + 1] == ls[i].cause
    ensures !HasUnwrap(ls[|ls| - 1])
  {
    if HasUnwrap(e) then [e] + Layers(e.cause) else [e]
  }

  /** The error `Unwrap` stops at: the last layer of the chain. */
  function Innermost(e: Error): (r: Error)
    ensures !HasUnwrap(r)
    ensures r == Layers(e)[|Layers(e)| - 1]
    ensures !HasUnwrap(e) ==> r == e
  {
    if HasUnwrap(e) then Innermost(e.cause) else e
  }

  lemma InnermostIdempotent(e: Error)
    ensures Innermost(Innermost(e)) == Innermost(e)
  {
  }

  /** Wrapping never changes what `Unwrap` finds. */
  lemma WrapMsgTransparent(err: Error, msg: string, kv: seq<string>)
    ensures Innermost(WrapMsg(err, msg, kv)) == Innermost(err)
    ensures Innermost(Wrap(err)) == Innermost(err)
  {
  }

  /** `Unwrap`: follow `Unwrap()` while the error has one. */
  method Unwrap(err: Error) returns (r: Error)
    ensures r == Innermost(err)
  {
    r := err;
    while r != Nil && HasUnwrap(r)
      invariant Innermost(r) == Innermost(err)
      decreases r
    {
      r := r.cause;
    }
  }

  /** `codeRelation.Is` on the relation's table: a code is related to itself and to the codes listed after it. */
  function RelIs(m: map<int, set<int>>, parent: int, child: int): (r: bool)
    ensures parent == child ==> r
    ensures parent != child ==> (r <==> parent in m && child in m[parent])
  {
    parent == child || (parent in m && child in m[parent])
  }

  /**
   * `codeError.Is`: true iff the unwrapped target is a coded error whose code equals the
   * receiver's code or is related to it in `rel` (the default code relation).
   */
  function CodeErrorIs(e: Error, err: Error, rel: map<int, set<int>>): (r: bool)
    requires e.Code?
    ensures r <==> Innermost(err).Code? && RelIs(rel, e.code, Innermost(err).code)
  {
    var u := Innermost(err);
    if !u.Code? then false
    else if e.code == u.code then true
    else RelIs(rel, e.code, u.code)
  }

  /** A coded error matches itself however it is wrapped, and never matches nil. */
  lemma CodeErrorIsWrapped(e: Error, msg: string, kv: seq<string>, rel: map<int, set<int>>)
    requires e.Code?
    ensures CodeErrorIs(e, WrapMsg(e, msg, kv), rel)
    ensures CodeErrorIs(e, Wrap(WithDetail(e, msg)), rel)
    ensures !CodeErrorIs(e, Nil, rel)
  {
  }

  // ---- codeRelation.Add ----

  function SetOf(s: seq<int>): set<int>
  {
    set x | x in s
  }

  /** The table after the first `lim` steps of Add: step `i` makes `codes[i - 1]` the parent of `codes[i..]`. */
  function AddUpTo(m: map<int, set<int>>, codes: seq<int>, lim: nat): (r: map<int, set<int>>)
    requires lim < |codes| || lim == 0
    ensures m.Keys <= r.Keys
  {
    if lim == 0 then m
    else
      var prev := AddUpTo(m, codes, lim - 1);
      var parent := codes[lim - 1];
      prev[parent := (if parent in prev then prev[parent] else {}) + SetOf(codes[lim..])]
  }

  /** The table after a successful `Add(codes...)`. */
  function Added(m: map<int, set<int>>, codes: seq<int>): map<int, set<int>>
  {
    if |codes| == 0 then m else AddUpTo(m, codes, |codes| - 1)
  }

  /** After the first `lim` steps, a code at position `i < lim` is related to every later code. */
  lemma {:induction false} AddUpToRelates(m: map<int, set<int>>, codes: seq<int>, lim: nat, i: nat, j: nat)
    requires lim < |codes| && i < lim && i < j < |codes|
    ensures RelIs(AddUpTo(m, codes, lim), codes[i], codes[j])
  {
    var prev := AddUpTo(m, codes, lim - 1);
    if i == lim - 1 {
      assert codes[j] in SetOf(codes[lim..]) by {
        assert codes[lim..][j - lim] == codes[j];
      }
    } else {
      AddUpToRelates(m, codes, lim - 1, i, j);
      AddUpToMonotone(m, codes, lim, codes[i], codes[j]);
    }
  }

  /** One more step keeps every relation of the previous table. */
  lemma AddUpToMonotone(m: map<int, set<int>>, codes: seq<int>, lim: nat, p: int, c: int)
    requires 0 < lim < |codes| && RelIs(AddUpTo(m, codes, lim - 1), p, c)
    ensures RelIs(AddUpTo(m, codes, lim), p, c)
  {
  }

  /** After `Add(c0..cn)`, every code is related to each code listed after it. */
  lemma AddRelatesLater(m: map<int, set<int>>, codes: seq<int>, i: nat, j: nat)
    requires i < j < |codes|
    ensures RelIs(Added(m, codes), codes[i], codes[j])
  {
    AddUpToRelates(m, codes, |codes| - 1, i, j);
  }

  /** Add keeps every relation that held before. */
  lemma {:induction false} AddMonotone(m: map<int, set<int>>, codes: seq<int>, p: int, c: int)
    requires RelIs(m, p, c)
    ensures RelIs(Added(m, codes), p, c)
  {
    if |codes| > 0 {
      AddUpToKeeps(m, codes, |codes| - 1, p, c);
    }
  }

  lemma {:induction false} AddUpToKeeps(m: map<int, set<int>>, codes: seq<int>, lim: nat, p: int, c: int)
    requires lim < |codes| && RelIs(m, p, c)
    ensures RelIs(AddUpTo(m, codes, lim), p, c)
  {
    if lim > 0 {
      AddUpToKeeps(m, codes, lim - 1, p, c);
    }
  }

  /** A new relation pair comes from the list itself, in list order. */
  lemma AddOnlyListed(m: map<int, set<int>>, codes: seq<int>, p: int, c: int)
    requires RelIs(Added(m, codes), p, c) && !RelIs(m, p, c)
    ensures exists i, j :: 0 <= i < j < |codes| && codes[i] == p && codes[j] == c
  {
    var i, j := AddUpToOnlyListed(m, codes, |codes| - 1, p, c);
  }

  lemma {:induction false} AddUpToOnlyListed(m: map<int, set<int>>, codes: seq<int>, lim: nat, p: int, c: int)
      returns (i: nat, j: nat)
    requires lim < |codes| && RelIs(AddUpTo(m, codes, lim), p, c) && !RelIs(m, p, c)
    ensures i < j < |codes| && codes[i] == p && codes[j] == c
  {
    if lim == 0 {
      assert false;
    } else {
      var prev := AddUpTo(m, codes, lim - 1);
      if RelIs(prev, p, c) {
        i, j := AddUpToOnlyListed(m, codes, lim - 1, p, c);
      } else {
        assert p == codes[lim - 1] && c in SetOf(codes[lim..]);
        var k :| 0 <= k < |codes[lim..]| && codes[lim..][k] == c;
        i, j := lim - 1, lim + k;
      }
    }
  }

  /** Separate Adds are not transitively closed. */
  lemma AddNotTransitive()
    ensures var m := Added(Added(map[], [1, 2]), [2, 3]);
      RelIs(m, 1, 2) && RelIs(m, 2, 3) && !RelIs(m, 1, 3)
  {
    assert SetOf([1, 2][1..]) == {2} by { assert [1, 2][1..] == [2]; }
    assert SetOf([2, 3][1..]) == {3} by { assert [2, 3][1..] == [3]; }
    var e: map<int, set<int>> := map[];
    assert AddUpTo(e, [1, 2], 0) == e;
    assert AddUpTo(e, [1, 2], 1) == e[1 := {} + {2}];
    assert {} + {2} == {2};
    assert Added(e, [1, 2]) == AddUpTo(e, [1, 2], 1);
    assert Added(e, [1, 2]) == map[1 := {2}];
    var m1 := map[1 := {2}];
    assert AddUpTo(m1, [2, 3], 1) == m1[2 := {} + {3}];
    assert {} + {3} == {3};
    assert Added(m1, [2, 3]) == AddUpTo(m1, [2, 3], 1);
    assert Added(m1, [2, 3]) == map[1 := {2}, 2 := {3}];
  }

  /** How `%v` prints a list of ints: space-separated inside brackets. */
  function IntsText(codes: seq<int>): string
  {
    "[" + Join(seq(|codes|, i requires 0 <= i < |codes| => Itoa(codes[i])), " ") + "]"
  }

  /** `codeRelation`: a table from parent code to the set of its child codes. */
  class CodeRelation {
    var m: map<int, set<int>>

    /** `newCodeRelation()`. */
    constructor ()
      ensures m == map[]
    {
      m := map[];
    }

    /** `codeRelation.Is`. */
    function Is(parent: int, child: int): (r: bool)
      reads this
      ensures r <==> RelIs(m, parent, child)
    {
      if parent == child then true
      else if parent !in m then false
      else child in m[parent]
    }

    /**
     * `codeRelation.Add`: fewer than two codes is an error and changes nothing;
     * otherwise each code becomes the parent of every code listed after it.
     */
    method Add(codes: seq<int>) returns (err: Error)
      modifies this
      ensures |codes| < 2 ==>
        && err == WithStack(Str(Render("codes length must be greater than 2", ["codes", IntsText(codes)])))
        && m == old(m)
      ensures |codes| >= 2 ==> err == Nil && m == Added(old(m), codes)
    {
      if |codes| < 2 {
        var e := New("codes length must be greater than 2", ["codes", IntsText(codes)]);
        return Wrap(e);
      }
      ghost var m0 := m;
      var i := 1;
      while i < |codes|
        invariant 1 <= i <= |codes|
        invariant m == AddUpTo(m0, codes, i - 1)
      {
        AddChildren(codes[i - 1], codes[i..]);
        i := i + 1;
      }
      return Nil;
    }

    /** The inner loop of Add: every code of `children` joins the set of `parent`. */
    method AddChildren(parent: int, children: seq<int>)
      modifies this
      ensures m == old(m)[parent := (if parent in old(m) then old(m)[parent] else {}) + SetOf(children)]
    {
      ghost var m0 := m;
      ghost var base := if parent in m then m[parent] else {};
      if parent !in m {
        m := m[parent := {}];
      } else {
        assert m == m0[parent := m0[parent]];
      }
      assert SetOf(children[..0]) == {} by { assert children[..0] == []; }
      assert base + {} == base;
      var k := 0;
      while k < |children|
        invariant 0 <= k <= |children|
        invariant m == m0[parent := base + SetOf(children[..k])]
      {
        assert children[..k + 1] == children[..k] + [children[k]];
        assert SetOf(children[..k + 1]) == SetOf(children[..k]) + {children[k]};
        assert base + SetOf(children[..k]) + {children[k]} == base + SetOf(children[..k + 1]);
        m := m[parent := m[parent] + {children[k]}];
        assert m == m0[parent := base + SetOf(children[..k]) + {children[k]}];
        k := k + 1;
      }
      assert children[..k] == children;
    }
  }
}
