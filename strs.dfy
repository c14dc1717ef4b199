/**
 * String helpers of the Go standard library that the modelled code relies on:
 * `strings.Split` with a one-character separator, `strings.Join`, the ASCII part of
 * `strings.ToLower`, and Go's byte-wise string ordering.
 */
module Strs {

  /** The parts of `s` between occurrences of `sep`, as `strings.Split(s, string(sep))`. */
  function Split(s: string, sep: char): (parts: seq<string>)
    ensures |parts| > 0
    decreases |s|
  {
    if s == [] then [""]
    else
      var rest := Split(s[1..], sep);
      if s[0] == sep then [""] + rest else [[s[0]] + rest[0]] + rest[1..]
  }

  /** `strings.Join(parts, sep)`. */
  function Join(parts: seq<string>, sep: string): string
  {
    if parts == [] then ""
    else if |parts| == 1 then parts[0]
    else parts[0] + sep + Join(parts[1..], sep)
  }

  /** Number of occurrences of `c` in `s`. */
  function Count(s: string, c: char): nat
  {
    if s == [] then 0 else (if s[0] == c then 1 else 0) + Count(s[1..], c)
  }

  /** The last element of `Split(s, sep)`: the text after the last `sep`, or all of `s`. */
  function LastSegment(s: string, sep: char): string
  {
    var parts := Split(s, sep);
    parts[|parts| - 1]
  }

  /** Splitting produces one more part than there are separators. */
  lemma {:induction false} SplitLength(s: string, sep: char)
    ensures |Split(s, sep)| == Count(s, sep) + 1
    decreases |s|
  {
    if s != [] {
      SplitLength(s[1..], sep);
    }
  }

  /** No part of a split contains the separator. */
  lemma {:induction false} SplitPartsFree(s: string, sep: char)
    ensures forall i :: 0 <= i < |Split(s, sep)| ==> sep !in Split(s, sep)[i]
    decreases |s|
  {
    if s != [] {
      SplitPartsFree(s[1..], sep);
    }
  }

  /** Joining the parts back with the separator gives the original string. */
  lemma {:induction false} JoinSplit(s: string, sep: char)
    ensures Join(Split(s, sep), [sep]) == s
    decreases |s|
  {
    if s != [] {
      var rest := Split(s[1..], sep);
      JoinSplit(s[1..], sep);
      if s[0] == sep {
        assert Split(s, sep) == [""] + rest;
        assert ([""] + rest)[1..] == rest;
      } else {
        var parts := [[s[0]] + rest[0]] + rest[1..];
        assert Split(s, sep) == parts;
        if |rest| == 1 {
          assert Join(parts, [sep]) == [s[0]] + rest[0];
        } else {
          assert parts[1..] == rest[1..];
          assert Join(rest, [sep]) == rest[0] + [sep] + Join(rest[1..], [sep]);
        }
      }
    }
  }

  /** The last segment never contains the separator, and when `s` has no separator it is `s`. */
  lemma LastSegmentProps(s: string, sep: char)
    ensures sep !in LastSegment(s, sep)
    ensures sep !in s ==> LastSegment(s, sep) == s
    ensures LastSegment(s + [sep], sep) == ""
  {
    SplitPartsFree(s, sep);
    if sep !in s {
      SplitLength(s, sep);
      NoSepCount(s, sep);
      JoinSplit(s, sep);
    }
    SplitAppendSep(s, sep);
  }

  /** A separator-free string has no occurrences to count. */
  lemma {:induction false} NoSepCount(s: string, sep: char)
    requires sep !in s
    ensures Count(s, sep) == 0
    decreases |s|
  {
    if s != [] {
      assert sep !in s[1..];
      NoSepCount(s[1..], sep);
    }
  }

  /** A trailing separator opens a last, empty part. */
  lemma {:induction false} SplitAppendSep(s: string, sep: char)
    ensures Split(s + [sep], sep)[|Split(s + [sep], sep)| - 1] == ""
    decreases |s|
  {
    if s == [] {
      assert [sep][1..] == [];
    } else {
      assert (s + [sep])[1..] == s[1..] + [sep];
      SplitAppendSep(s[1..], sep);
    }
  }

  /** The ASCII letters A-Z mapped to a-z; every other character is kept. */
  function LowerChar(c: char): (r: char)
    ensures 'A' <= c <= 'Z' ==> r as int == c as int + 32
    ensures !('A' <= c <= 'Z') ==> r == c
  {
    if 'A' <= c <= 'Z' then (c as int + 32) as char else c
  }

  /** `strings.ToLower` restricted to ASCII: every character lowered one by one. */
  function ToLower(s: string): (r: string)
    ensures |r| == |s|
  {
    seq(|s|, i requires 0 <= i < |s| => LowerChar(s[i]))
  }

  /** Lowering twice is lowering once. */
  lemma ToLowerIdempotent(s: string)
    ensures ToLower(ToLower(s)) == ToLower(s)
  {
    var t := ToLower(s);
    forall i | 0 <= i < |s| ensures ToLower(t)[i] == t[i] {
      assert t[i] == LowerChar(s[i]);
    }
  }

  /** Go's `a < b` on strings: lexicographic by character code. */
  predicate Less(a: string, b: string)
    decreases |a|
  {
    if b == [] then false
    else if a == [] then true
    else if a[0] != b[0] then a[0] < b[0]
    else Less(a[1..], b[1..])
  }

  lemma {:induction false} LessIrreflexive(a: string)
    ensures !Less(a, a)
    decreases |a|
  {
    if a != [] {
      LessIrreflexive(a[1..]);
    }
  }

  lemma {:induction false} LessTransitive(a: string, b: string, c: string)
    requires Less(a, b) && Less(b, c)
    ensures Less(a, c)
    decreases |a|
  {
    if a != [] && a[0] == b[0] && b[0] == c[0] {
      LessTransitive(a[1..], b[1..], c[1..]);
    }
  }

  lemma {:induction false} LessTotal(a: string, b: string)
    ensures a == b || Less(a, b) || Less(b, a)
    decreases |a|
  {
    if a != [] && b != [] && a[0] == b[0] {
      LessTotal(a[1..], b[1..]);
      if a[1..] == b[1..] {
        assert a == [a[0]] + a[1..] && b == [b[0]] + b[1..];
      }
    }
  }

  lemma {:induction false} LessAsymmetric(a: string, b: string)
    requires Less(a, b)
    ensures !Less(b, a)
    decreases |a|
  {
    if a != [] && a[0] == b[0] {
      LessAsymmetric(a[1..], b[1..]);
    }
  }

  /** The first part of a split is everything before the first separator. */
  lemma {:induction false} SplitFirst(a: string, sep: char, rest: string)
    requires sep !in a
    ensures Split(a + [sep] + rest, sep)[0] == a
    decreases |a|
  {
    if a == [] {
      assert [sep] + rest == a + [sep] + rest;
    } else {
      assert (a + [sep] + rest)[1..] == a[1..] + [sep] + rest;
      SplitFirst(a[1..], sep, rest);
    }
  }

  /** Appending one more part to a non-empty join adds the separator and the part. */
  lemma {:induction false} JoinSnoc(parts: seq<string>, sep: string, x: string)
    requires parts != []
    ensures Join(parts + [x], sep) == Join(parts, sep) + sep + x
    decreases |parts|
  {
    if |parts| > 1 {
      assert (parts + [x])[1..] == parts[1..] + [x];
      JoinSnoc(parts[1..], sep, x);
    }
  }

  /** A separator in the middle opens at least two parts, and the last one lies after it. */
  lemma {:induction false} SplitAfterSep(a: string, sep: char, b: string)
    ensures |Split(a + [sep] + b, sep)| >= 2
    ensures Split(a + [sep] + b, sep)[|Split(a + [sep] + b, sep)| - 1] == Split(b, sep)[|Split(b, sep)| - 1]
    decreases |a|
  {
    if a == [] {
      assert a + [sep] + b == [sep] + b;
      assert ([sep] + b)[1..] == b;
    } else {
      assert (a + [sep] + b)[1..] == a[1..] + [sep] + b;
      SplitAfterSep(a[1..], sep, b);
    }
  }

  /** The text after the last separator is the last segment. */
  lemma LastSegmentAfterSep(a: string, sep: char, b: string)
    requires sep !in b
    ensures LastSegment(a + [sep] + b, sep) == b
  {
    SplitAfterSep(a, sep, b);
    LastSegmentProps(b, sep);
  }
}
