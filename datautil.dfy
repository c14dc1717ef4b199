/**
 * The slice and map helpers of package datautil. Go slices are `seq`s, and every helper
 * that loops in Go is a method whose loop keeps "the result so far is the reference
 * definition applied to the prefix read so far". A Go map iterated with `range` is
 * visited in an unspecified order, modelled by choosing any remaining key with `:|`.
 */
module DataUtil {
  import opened Wrappers
  import opened DataUtilSpec
  import Strs
  import Strconv
  import Errs

  /** A Go `*[]E`: a variable holding a slice that a callee may replace. */
  class SliceRef<E> {
    var elems: seq<E>

    constructor(elems0: seq<E>)
      ensures elems == elems0
    {
      elems := elems0;
    }
  }

  /**
   * `SliceSub`: `a` itself when `b` is empty, duplicates included; otherwise the
   * distinct elements of `a` that are not in `b`, in first-occurrence order.
   */
  method SliceSub<E(==)>(a: seq<E>, b: seq<E>) returns (rs: seq<E>)
    ensures |b| == 0 ==> rs == a
    ensures |b| > 0 ==> rs == DedupBy(Without(a, Id, KeysOf(b, Id)), Id)
  {
    if |b| == 0 {
      return a;
    }
    var k: set<E> := {};
    var i := 0;
    while i < |b|
      invariant 0 <= i <= |b|
      invariant k == KeysOf(b[..i], Id)
    {
      assert b[..i + 1] == b[..i] + [b[i]];
      KeysOfSnoc(b[..i], b[i], Id);
      k := k + {b[i]};
      i := i + 1;
    }
    assert b[..i] == b;
    var t: set<E> := {};
    rs := [];
    i := 0;
    while i < |a|
      invariant 0 <= i <= |a|
      invariant rs == DedupBy(Without(a[..i], Id, k), Id)
      invariant t == KeysOf(Without(a[..i], Id, k), Id)
      invariant t !! k
    {
      var e := a[i];
      var w := Without(a[..i], Id, k);
      PrefixSnoc(a, i);
      WithoutSnoc(a[..i], e, Id, k);
      if e in t {
        assert Without(a[..i + 1], Id, k) == w + [e];
        DedupBySnoc(w, e, Id);
        KeysOfSnoc(w, e, Id);
      } else if e in k {
        assert Without(a[..i + 1], Id, k) == w;
      } else {
        assert Without(a[..i + 1], Id, k) == w + [e];
        DedupBySnoc(w, e, Id);
        KeysOfSnoc(w, e, Id);
        rs := rs + [e];
        t := t + {e};
      }
      i := i + 1;
    }
    assert a[..i] == a;
  }

  /** What `SliceSub` promises: exactly the values of `a` missing from `b`, each once. */
  lemma SliceSubMeaning<E>(a: seq<E>, b: seq<E>)
    ensures forall x :: x in DedupBy(Without(a, Id, KeysOf(b, Id)), Id) <==> x in a && x !in b
    ensures AllDistinct(DedupBy(Without(a, Id, KeysOf(b, Id)), Id))
  {
    var w := Without(a, Id, KeysOf(b, Id));
    DedupIdMembers(w);
    KeysOfMembers(b, Id);
    WithoutProps(a, Id, KeysOf(b, Id));
    forall x | x in a && x !in b ensures x in w {
      var i :| 0 <= i < |a| && a[i] == x;
    }
    forall x | x in w ensures x in a && x !in b {
      var i :| 0 <= i < |w| && w[i] == x;
      assert Id(w[i]) !in KeysOf(b, Id);
    }
  }

  /** `SliceAnySub`: the elements of `a` whose key no element of `b` has, in order, duplicates kept. */
  method SliceAnySub<E, T(==)>(a: seq<E>, b: seq<E>, fn: E -> T) returns (es: seq<E>)
    ensures es == Without(a, fn, KeysOf(b, fn))
  {
    var m: set<T> := {};
    var i := 0;
    while i < |b|
      invariant 0 <= i <= |b|
      invariant m == KeysOf(b[..i], fn)
    {
      assert b[..i + 1] == b[..i] + [b[i]];
      KeysOfSnoc(b[..i], b[i], fn);
      m := m + {fn(b[i])};
      i := i + 1;
    }
    assert b[..i] == b;
    es := [];
    i := 0;
    while i < |a|
      invariant 0 <= i <= |a|
      invariant es == Without(a[..i], fn, m)
    {
      assert a[..i + 1][..i] == a[..i];
      if fn(a[i]) !in m {
        es := es + [a[i]];
      }
      i := i + 1;
    }
    assert a[..i] == a;
  }

  /** `DistinctAny`: the first element of each key, in input order. */
  method DistinctAny<E, K(==)>(es: seq<E>, fn: E -> K) returns (v: seq<E>)
    ensures v == DedupBy(es, fn)
  {
    v := [];
    var tmp: set<K> := {};
    var i := 0;
    while i < |es|
      invariant 0 <= i <= |es|
      invariant v == DedupBy(es[..i], fn)
      invariant tmp == KeysOf(es[..i], fn)
    {
      var t := es[i];
      PrefixSnoc(es, i);
      KeysOfSnoc(es[..i], t, fn);
      DedupBySnoc(es[..i], t, fn);
      if fn(t) !in tmp {
        tmp := tmp + {fn(t)};
        v := v + [t];
      }
      i := i + 1;
    }
    assert es[..i] == es;
  }

  /** Deduplication of one and of two elements. */
  lemma DedupByPair<T, K>(x: T, y: T, key: T -> K)
    ensures DedupBy([x], key) == [x]
    ensures DedupBy([x, y], key) == if key(x) == key(y) then [x] else [x, y]
  {
    DedupBySnoc([], x, key);
    DedupBySnoc([x], y, key);
    KeysOfSnoc([], x, key);
    assert [x, y] == [x] + [y] && [x] == [] + [x];
  }

  /**
   * `Distinct`: the distinct values in first-occurrence order. The short-cut branches
   * for one or two elements give the same answer as the general case.
   */
  method Distinct<T(==)>(ts: seq<T>) returns (r: seq<T>)
    ensures r == DedupBy(ts, Id)
  {
    if |ts| < 2 {
      if |ts| == 1 {
        DedupByPair(ts[0], ts[0], Id);
        assert ts == [ts[0]];
      }
      return ts;
    } else if |ts| == 2 {
      DedupByPair(ts[0], ts[1], Id);
      assert ts == [ts[0], ts[1]];
      if ts[0] == ts[1] {
        return ts[..1];
      } else {
        return ts;
      }
    }
    r := DistinctAny(ts, Id);
  }

  /**
   * `Delete`: no index returns `es`; one index, counted from the end when negative,
   * removes that element unless it is past the end; several indices remove every listed
   * position that exists and keep the rest in order. A single index below `-len(es)`
   * makes the Go slice expression panic, so callers must not pass one.
   */
  method Delete<E>(es: seq<E>, index: seq<int>) returns (r: seq<E>)
    requires |index| == 1 ==> Normalize(index[0], |es|) >= 0
    ensures r == Deleted(es, index)
  {
    if |index| == 0 {
      return es;
    } else if |index| == 1 {
      var i := index[0];
      if i < 0 {
        i := |es| + i;
      }
      if |es| <= i {
        return es;
      }
      return es[..i] + es[i + 1..];
    }
    var tmp: set<int> := {};
    var j := 0;
    while j < |index|
      invariant 0 <= j <= |index|
      invariant tmp == NormalizedSet(index[..j], |es|)
    {
      var i := index[j];
      if i < 0 {
        i := |es| + i;
      }
      assert index[..j + 1][..j] == index[..j];
      tmp := tmp + {i};
      j := j + 1;
    }
    assert index[..j] == index;
    var v: seq<E> := [];
    var i := 0;
    while i < |es|
      invariant 0 <= i <= |es|
      invariant v == KeepExcept(es[..i], tmp)
    {
      assert es[..i + 1][..i] == es[..i];
      if i !in tmp {
        v := v + [es[i]];
      }
      i := i + 1;
    }
    assert es[..i] == es;
    return v;
  }

  /** `DeleteAt`: deletes as `Delete` does and stores the result back through the `*[]E` argument. */
  method DeleteAt<E>(es: SliceRef<E>, index: seq<int>) returns (v: seq<E>)
    requires |index| == 1 ==> Normalize(index[0], |es.elems|) >= 0
    modifies es
    ensures v == Deleted(old(es.elems), index)
    ensures es.elems == v
  {
    v := Delete(es.elems, index);
    es.elems := v;
  }

  /** `IndexAny`: the least position whose key equals the key of `e`, or -1 when there is none. */
  method IndexAny<E, K(==)>(e: E, es: seq<E>, fn: E -> K) returns (r: int)
    ensures -1 <= r < |es|
    ensures r >= 0 ==> fn(es[r]) == fn(e) && forall j :: 0 <= j < r ==> fn(es[j]) != fn(e)
    ensures r == -1 <==> forall j :: 0 <= j < |es| ==> fn(es[j]) != fn(e)
  {
    var k := fn(e);
    var i := 0;
    while i < |es|
      invariant 0 <= i <= |es|
      invariant forall j :: 0 <= j < i ==> fn(es[j]) != k
    {
      if fn(es[i]) == k {
        return i;
      }
      i := i + 1;
    }
    return -1;
  }

  /** `IndexOf`: the least position holding `e`, or -1. */
  method IndexOf<E(==)>(e: E, es: seq<E>) returns (r: int)
    ensures -1 <= r < |es|
    ensures r >= 0 ==> es[r] == e && forall j :: 0 <= j < r ==> es[j] != e
    ensures r == -1 <==> e !in es
  {
    r := IndexAny(e, es, Id);
  }

  /** `Contain`: whether `e` occurs in `es`. */
  method Contain<E(==)>(e: E, es: seq<E>) returns (r: bool)
    ensures r <==> e in es
  {
    var i := IndexOf(e, es);
    r := i >= 0;
  }

  /** `DuplicateAny`: whether two different positions hold elements with the same key. */
  method DuplicateAny<E, K(==)>(es: seq<E>, fn: E -> K) returns (r: bool)
    ensures r <==> exists i, j :: 0 <= i < j < |es| && fn(es[i]) == fn(es[j])
  {
    var t: set<K> := {};
    var n := 0;
    while n < |es|
      invariant 0 <= n <= |es|
      invariant t == KeysOf(es[..n], fn)
      invariant forall i, j :: 0 <= i < j < n ==> fn(es[i]) != fn(es[j])
    {
      var k := fn(es[n]);
      KeysOfMembers(es[..n], fn);
      if k in t {
        var i :| 0 <= i < n && fn(es[..n][i]) == k;
        assert fn(es[i]) == fn(es[n]);
        return true;
      }
      assert es[..n + 1] == es[..n] + [es[n]];
      KeysOfSnoc(es[..n], es[n], fn);
      forall i | 0 <= i < n ensures fn(es[i]) != k {
        assert fn(es[..n][i]) in t;
      }
      t := t + {k};
      n := n + 1;
    }
    return false;
  }

  /** `Duplicate`: whether some value occurs twice. */
  method Duplicate<E(==)>(es: seq<E>) returns (r: bool)
    ensures r <==> exists i, j :: 0 <= i < j < |es| && es[i] == es[j]
  {
    r := DuplicateAny(es, Id);
  }

  /** `Duplicate` agrees with `Distinct`: a slice has no duplicate exactly when deduplication keeps it whole. */
  lemma DuplicateIffDedupShorter<E>(es: seq<E>)
    ensures (exists i, j :: 0 <= i < j < |es| && es[i] == es[j]) <==> |DedupBy(es, Id)| < |es|
  {
    DedupByLength(es, Id);
    DedupByProps(es, Id);
  }

  /** `HasKey`: a nil map has no keys. */
  function HasKey<K, V>(m: Option<map<K, V>>, k: K): (r: bool)
    ensures r <==> m.Some? && k in m.value
  {
    match m
    case None => false
    case Some(kv) => k in kv
  }

  /** `Min` on integers; Go indexes `e[0]`, so the list must not be empty. */
  method Min(e: seq<int>) returns (v: int)
    requires |e| > 0
    ensures v in e
    ensures forall x :: x in e ==> v <= x
  {
    v := e[0];
    var i := 1;
    while i < |e|
      invariant 1 <= i <= |e|
      invariant v in e[..i]
      invariant forall j :: 0 <= j < i ==> v <= e[j]
    {
      if v > e[i] {
        v := e[i];
      }
      i := i + 1;
    }
    assert e[..i] == e;
  }

  /** `Max` on integers. */
  method Max(e: seq<int>) returns (v: int)
    requires |e| > 0
    ensures v in e
    ensures forall x :: x in e ==> x <= v
  {
    v := e[0];
    var i := 1;
    while i < |e|
      invariant 1 <= i <= |e|
      invariant v in e[..i]
      invariant forall j :: 0 <= j < i ==> e[j] <= v
    {
      if v < e[i] {
        v := e[i];
      }
      i := i + 1;
    }
    assert e[..i] == e;
  }

  /** `Min` on strings, under Go's lexicographic order. */
  method MinString(e: seq<string>) returns (v: string)
    requires |e| > 0
    ensures v in e
    ensures forall x :: x in e ==> !Strs.Less(x, v)
  {
    v := e[0];
    Strs.LessIrreflexive(v);
    var i := 1;
    while i < |e|
      invariant 1 <= i <= |e|
      invariant v in e[..i]
      invariant forall j :: 0 <= j < i ==> !Strs.Less(e[j], v)
    {
      if Strs.Less(e[i], v) {
        forall j | 0 <= j < i ensures !Strs.Less(e[j], e[i]) {
          if Strs.Less(e[j], e[i]) {
            Strs.LessTransitive(e[j], e[i], v);
          }
        }
        Strs.LessIrreflexive(e[i]);
        v := e[i];
      }
      i := i + 1;
    }
    assert e[..i] == e;
  }

  /** `Max` on strings, under Go's lexicographic order. */
  method MaxString(e: seq<string>) returns (v: string)
    requires |e| > 0
    ensures v in e
    ensures forall x :: x in e ==> !Strs.Less(v, x)
  {
    v := e[0];
    Strs.LessIrreflexive(v);
    var i := 1;
    while i < |e|
      invariant 1 <= i <= |e|
      invariant v in e[..i]
      invariant forall j :: 0 <= j < i ==> !Strs.Less(v, e[j])
    {
      if Strs.Less(v, e[i]) {
        forall j | 0 <= j < i ensures !Strs.Less(e[i], e[j]) {
          if Strs.Less(e[i], e[j]) {
            Strs.LessTransitive(v, e[i], e[j]);
          }
        }
        Strs.LessIrreflexive(e[i]);
        v := e[i];
      }
      i := i + 1;
    }
    assert e[..i] == e;
  }

  function MinInt(a: int, b: int): int { if a < b then a else b }

  /**
   * `Paginate`: page `pageNumber` (from 1) of `showNumber` elements; empty for a
   * non-positive page or page size and for a page that starts past the end.
   */
  function Paginate<E>(es: seq<E>, pageNumber: int, showNumber: int): (r: seq<E>)
    ensures pageNumber <= 0 || showNumber <= 0 ==> r == []
    ensures pageNumber > 0 && showNumber > 0 && (pageNumber - 1) * showNumber >= |es| ==> r == []
    ensures pageNumber > 0 && showNumber > 0 && (pageNumber - 1) * showNumber < |es| ==>
      var start := (pageNumber - 1) * showNumber;
      r == es[start..MinInt(start + showNumber, |es|)]
    ensures |r| <= if showNumber > 0 then showNumber else 0
  {
    if pageNumber <= 0 then []
    else if showNumber <= 0 then []
    else
      var start := (pageNumber - 1) * showNumber;
      var end := start + showNumber;
      ScaledNonNegative(pageNumber - 1, showNumber);
      if start >= |es| then []
      else if end > |es| then es[start..|es|]
      else es[start..end]
  }

  lemma ScaledNonNegative(a: int, b: int)
    requires a >= 0 && b >= 0
    ensures a * b >= 0
  {
  }

  /** Every element appears on the page its position belongs to, at its offset within the page. */
  lemma PaginateFinds<E>(es: seq<E>, k: int, showNumber: int)
    requires 0 <= k < |es| && showNumber > 0
    ensures var page := Paginate(es, k / showNumber + 1, showNumber);
      k % showNumber < |page| && page[k % showNumber] == es[k]
  {
    var q, m := k / showNumber, k % showNumber;
    assert k == q * showNumber + m;
    assert (q + 1 - 1) * showNumber == q * showNumber;
    ScaledNonNegative(q, showNumber);
  }

  /**
   * `BothExistAny`: empty for no lists or when some list is empty; otherwise one element
   * per key common to all lists, namely the element that the smallest list (the first
   * one with fewest distinct keys) last holds for that key, in an unspecified order.
   */
  method BothExistAny<E, K(==)>(es: seq<seq<E>>, fn: E -> K) returns (v: seq<E>)
    ensures |es| == 0 || (exists i :: 0 <= i < |es| && |es[i]| == 0) ==> v == []
    ensures |es| > 0 && (forall i :: 0 <= i < |es| ==> |es[i]| > 0) ==>
      && (forall m :: 0 <= m < |v| ==> InAll(es, fn, fn(v[m])))
      && (forall k :: InAll(es, fn, k) ==> exists m :: 0 <= m < |v| && fn(v[m]) == k)
      && (forall m, n :: 0 <= m < n < |v| ==> fn(v[m]) != fn(v[n]))
      && (forall m :: 0 <= m < |v| ==> var smallest := KeyMap(es[FirstSmallest(Sizes(es, fn))], fn);
            fn(v[m]) in smallest && v[m] == smallest[fn(v[m])])
  {
    if |es| == 0 {
      return [];
    }
    var ei, idx, ok := KeyMaps(es, fn);
    if !ok {
      return [];
    }
    v := CommonKeys(es, fn, ei, idx);
  }

  /** The last loop of `BothExistAny`: the entries of the chosen map whose key every other map has. */
  method CommonKeys<E, K(==)>(es: seq<seq<E>>, fn: E -> K, ei: seq<map<K, E>>, idx: nat) returns (v: seq<E>)
    requires |ei| == |es| && idx < |es|
    requires forall j :: 0 <= j < |es| ==> ei[j] == KeyMap(es[j], fn)
    ensures forall m :: 0 <= m < |v| ==> InAll(es, fn, fn(v[m]))
    ensures forall k :: InAll(es, fn, k) ==> exists m :: 0 <= m < |v| && fn(v[m]) == k
    ensures forall m, n :: 0 <= m < n < |v| ==> fn(v[m]) != fn(v[n])
    ensures forall m :: 0 <= m < |v| ==> fn(v[m]) in ei[idx] && v[m] == ei[idx][fn(v[m])]
  {
    var target := ei[idx];
    InAllFromSmallest(es, fn, idx);
    KeyMapProps(es[idx], fn);
    v := [];
    var keys := target.Keys;
    while keys != {}
      invariant keys <= target.Keys
      invariant forall m :: 0 <= m < |v| ==> fn(v[m]) in target.Keys - keys && InAll(es, fn, fn(v[m]))
      invariant forall m :: 0 <= m < |v| ==> v[m] == target[fn(v[m])]
      invariant forall k :: k in target.Keys - keys && InAll(es, fn, k) ==>
        exists m :: 0 <= m < |v| && fn(v[m]) == k
      invariant forall m, n :: 0 <= m < n < |v| ==> fn(v[m]) != fn(v[n])
      decreases |keys|
    {
      var k :| k in keys;
      var all := InOthers(ei, idx, k);
      InOthersMeansInAll(es, fn, ei, idx, k);
      keys := keys - {k};
      if all {
        ghost var prev := v;
        v := v + [target[k]];
        assert fn(v[|v| - 1]) == k;
        assert forall m :: 0 <= m < |prev| ==> v[m] == prev[m];
      }
    }
    assert target.Keys - keys == target.Keys;
  }

  /** The first loop of `BothExistAny`: one key map per list, and the first list with the fewest keys. */
  method KeyMaps<E, K(==)>(es: seq<seq<E>>, fn: E -> K) returns (ei: seq<map<K, E>>, idx: nat, ok: bool)
    requires |es| > 0
    ensures ok <==> forall i :: 0 <= i < |es| ==> |es[i]| > 0
    ensures ok ==> |ei| == |es| && idx == FirstSmallest(Sizes(es, fn))
    ensures ok ==> forall j :: 0 <= j < |es| ==> ei[j] == KeyMap(es[j], fn)
  {
    idx := 0;
    ei := [];
    var i := 0;
    while i < |es|
      invariant 0 <= i <= |es|
      invariant |ei| == i
      invariant forall j :: 0 <= j < i ==> ei[j] == KeyMap(es[j], fn) && |es[j]| > 0
      invariant idx <= i && (i > 0 ==> idx < i)
      invariant forall j :: 0 <= j < i ==> |KeysOf(es[idx], fn)| <= |KeysOf(es[j], fn)|
      invariant forall j :: 0 <= j < idx ==> |KeysOf(es[idx], fn)| < |KeysOf(es[j], fn)|
    {
      var e := es[i];
      if |e| == 0 {
        return ei, idx, false;
      }
      var kv := KeyMapOf(e, fn);
      KeyMapSize(e, fn);
      if i > 0 {
        KeyMapSize(es[idx], fn);
      }
      ghost var prev := ei;
      ei := ei + [kv];
      assert forall j :: 0 <= j < i ==> ei[j] == prev[j];
      ghost var idx0 := idx;
      if |kv| < |ei[idx]| {
        idx := i;
      }
      SmallestStep(es, fn, i, idx0, idx);
      i := i + 1;
    }
    FirstSmallestUnique(Sizes(es, fn), idx);
    ok := true;
  }

  /** Keeping the first list with the fewest keys when one more list is looked at. */
  lemma SmallestStep<E, K>(es: seq<seq<E>>, fn: E -> K, i: nat, idx: nat, idx': nat)
    requires i < |es| && idx <= i && (i > 0 ==> idx < i)
    requires forall j :: 0 <= j < i ==> |KeysOf(es[idx], fn)| <= |KeysOf(es[j], fn)|
    requires forall j :: 0 <= j < idx ==> |KeysOf(es[idx], fn)| < |KeysOf(es[j], fn)|
    requires idx' == if i > 0 && |KeysOf(es[i], fn)| < |KeysOf(es[idx], fn)| then i else idx
    ensures idx' <= i
    ensures forall j :: 0 <= j < i + 1 ==> |KeysOf(es[idx'], fn)| <= |KeysOf(es[j], fn)|
    ensures forall j :: 0 <= j < idx' ==> |KeysOf(es[idx'], fn)| < |KeysOf(es[j], fn)|
  {
  }

  /** The inner loop of `BothExistAny` that fills one key map. */
  method KeyMapOf<E, K(==)>(e: seq<E>, fn: E -> K) returns (kv: map<K, E>)
    ensures kv == KeyMap(e, fn)
  {
    kv := map[];
    var j := 0;
    while j < |e|
      invariant 0 <= j <= |e|
      invariant kv == KeyMap(e[..j], fn)
    {
      assert e[..j + 1][..j] == e[..j];
      kv := kv[fn(e[j]) := e[j]];
      j := j + 1;
    }
    assert e[..j] == e;
  }

  /** The inner loop of `BothExistAny` that looks for `k` in every map but the chosen one. */
  method InOthers<K, E>(ei: seq<map<K, E>>, idx: nat, k: K) returns (all: bool)
    ensures all <==> forall l :: 0 <= l < |ei| && l != idx ==> k in ei[l]
  {
    all := true;
    var j := 0;
    while j < |ei|
      invariant 0 <= j <= |ei|
      invariant forall l :: 0 <= l < j && l != idx ==> k in ei[l]
    {
      if j != idx && k !in ei[j] {
        return false;
      }
      j := j + 1;
    }
  }

  /** Finding `k` in every other key map is finding it among the keys of every list. */
  lemma InOthersMeansInAll<E, K>(es: seq<seq<E>>, fn: E -> K, ei: seq<map<K, E>>, idx: nat, k: K)
    requires |ei| == |es| && idx < |es| && k in ei[idx]
    requires forall j :: 0 <= j < |es| ==> ei[j] == KeyMap(es[j], fn)
    ensures (forall l :: 0 <= l < |ei| && l != idx ==> k in ei[l]) <==> InAll(es, fn, k)
  {
    forall l | 0 <= l < |es| {
      KeyMapProps(es[l], fn);
    }
  }

  /** A key in every list is in particular a key of the smallest list. */
  lemma InAllFromSmallest<E, K>(es: seq<seq<E>>, fn: E -> K, idx: int)
    requires 0 <= idx < |es|
    ensures forall k :: InAll(es, fn, k) ==> k in KeyMap(es[idx], fn)
  {
    KeyMapProps(es[idx], fn);
  }

  /** `BothExist`: the values common to every list, each once. */
  method BothExist<E(==)>(es: seq<seq<E>>) returns (v: seq<E>)
    ensures |es| == 0 || (exists i :: 0 <= i < |es| && |es[i]| == 0) ==> v == []
    ensures |es| > 0 && (forall i :: 0 <= i < |es| ==> |es[i]| > 0) ==>
      && (forall x :: x in v <==> forall i :: 0 <= i < |es| ==> x in es[i])
      && AllDistinct(v)
  {
    v := BothExistAny(es, Id);
    forall i | 0 <= i < |es| {
      KeysOfMembers(es[i], Id);
    }
    if |es| > 0 && (forall i :: 0 <= i < |es| ==> |es[i]| > 0) {
      forall x ensures x in v <==> forall i :: 0 <= i < |es| ==> x in es[i] {
        if x in v {
          var m :| 0 <= m < |v| && v[m] == x;
          assert InAll(es, Id, Id(x));
          forall i | 0 <= i < |es| ensures x in es[i] {
            assert x in KeysOf(es[i], Id);
            var w :| 0 <= w < |es[i]| && Id(es[i][w]) == x;
          }
        }
        if forall i :: 0 <= i < |es| ==> x in es[i] {
          forall i | 0 <= i < |es| ensures Id(x) in KeysOf(es[i], Id) {
            var w :| 0 <= w < |es[i]| && es[i][w] == x;
            assert Id(es[i][w]) in KeysOf(es[i], Id);
          }
          assert InAll(es, Id, Id(x));
          var m :| 0 <= m < |v| && Id(v[m]) == Id(x);
          assert v[m] == x;
        }
      }
    }
  }

  /** `m[k]++` on a Go map, where a missing key reads as zero. */
  function Incr<K>(m: map<K, nat>, k: K): (r: map<K, nat>)
    ensures r.Keys == m.Keys + {k}
    ensures r[k] == (if k in m then m[k] else 0) + 1
    ensures forall j :: j in m && j != k ==> r[j] == m[j]
  {
    m[k := (if k in m then m[k] else 0) + 1]
  }

  /** `Single`: the values in exactly one of `a` and `b`, each once, in an unspecified order. */
  method Single<E(==)>(a: seq<E>, b: seq<E>) returns (v: seq<E>)
    ensures forall x :: x in v <==> ((x in a) != (x in b))
    ensures AllDistinct(v)
  {
    var da := Distinct(a);
    var db := Distinct(b);
    DedupIdMembers(a);
    DedupIdMembers(b);
    var kn := CountEach(map[], da);
    kn := CountEach(kn, db);
    v := OnceKeys(kn);
  }

  /** A counting loop of `Single`: `m[v]++` for every value of the distinct list `ds`. */
  method CountEach<E(==)>(kn0: map<E, nat>, ds: seq<E>) returns (kn: map<E, nat>)
    requires AllDistinct(ds)
    ensures forall x :: x in kn <==> x in kn0 || x in ds
    ensures forall x :: x in kn ==> kn[x] == (if x in kn0 then kn0[x] else 0) + (if x in ds then 1 else 0)
  {
    kn := kn0;
    var i := 0;
    while i < |ds|
      invariant 0 <= i <= |ds|
      invariant forall x :: x in kn <==> x in kn0 || x in ds[..i]
      invariant forall x :: x in kn ==> kn[x] == (if x in kn0 then kn0[x] else 0) + (if x in ds[..i] then 1 else 0)
    {
      var e := ds[i];
      assert ds[..i + 1] == ds[..i] + [e];
      assert e !in ds[..i];
      kn := Incr(kn, e);
      i := i + 1;
    }
    assert ds[..i] == ds;
  }

  /** The last loop of `Single`: the keys counted exactly once, in the order the map is visited. */
  method OnceKeys<E(==)>(kn: map<E, nat>) returns (v: seq<E>)
    ensures forall x :: x in v <==> x in kn && kn[x] == 1
    ensures AllDistinct(v)
  {
    v := [];
    var keys := kn.Keys;
    while keys != {}
      invariant keys <= kn.Keys
      invariant forall x :: x in v <==> x in kn.Keys - keys && kn[x] == 1
      invariant AllDistinct(v)
      decreases |keys|
    {
      var k :| k in keys;
      if kn[k] == 1 {
        v := v + [k];
      }
      keys := keys - {k};
    }
  }

  /** `Complete`: whether `a` and `b` hold the same values, ignoring order and repetition. */
  method Complete<E(==)>(a: seq<E>, b: seq<E>) returns (r: bool)
    ensures r <==> forall x :: x in a <==> x in b
  {
    var v := Single(a, b);
    r := |v| == 0;
    if !r {
      assert v[0] in v;
    }
  }

  /** `Equal`: same length and the same element at every position. */
  method Equal<E(==)>(a: seq<E>, b: seq<E>) returns (r: bool)
    ensures r <==> a == b
  {
    if |a| != |b| {
      return false;
    }
    var i := 0;
    while i < |a|
      invariant 0 <= i <= |a|
      invariant a[..i] == b[..i]
    {
      if a[i] != b[i] {
        return false;
      }
      assert a[..i + 1] == a[..i] + [a[i]] && b[..i + 1] == b[..i] + [b[i]];
      i := i + 1;
    }
    assert a == a[..i] && b == b[..i];
    return true;
  }

  /**
   * `Order`: `ts` itself when `es` or `ts` is empty; otherwise the elements whose key is
   * listed in `es`, grouped in `es` order and each group in its original order, followed
   * by the group of every other key once, in an unspecified order. The result is a
   * permutation of `ts`.
   */
  method Order<E(==), T>(es: seq<E>, ts: seq<T>, fn: T -> E) returns (rs: seq<T>)
    ensures |es| == 0 || |ts| == 0 ==> rs == ts
    ensures |es| > 0 && |ts| > 0 ==> exists ks :: && AllDistinct(ks)
                                              && Elems(ks) == KeysOf(ts, fn) - Elems(es)
                                              && rs == Grouped(es, ts, fn) + ConcatGroups(ks, ts, fn)
    ensures multiset(rs) == multiset(ts)
  {
    if |es| == 0 || |ts| == 0 {
      return ts;
    }
    var kv := GroupByKey(ts, fn);
    var kv', lead := TakeGroups(es, ts, fn, kv);
    ghost var ks;
    rs, ks := AppendGroups(lead, es, ts, fn, kv');
    OrderedIsPermutation(es, ts, fn, ks);
  }

  /** The first loop of `Order`: each key of `ts` mapped to its group. */
  method GroupByKey<E(==), T>(ts: seq<T>, fn: T -> E) returns (kv: map<E, seq<T>>)
    ensures kv.Keys == KeysOf(ts, fn)
    ensures forall k :: k in kv ==> kv[k] == Group(ts, fn, k)
  {
    kv := map[];
    var i := 0;
    while i < |ts|
      invariant 0 <= i <= |ts|
      invariant kv.Keys == KeysOf(ts[..i], fn)
      invariant forall k :: k in kv ==> kv[k] == Group(ts[..i], fn, k)
    {
      var t := ts[i];
      var k := fn(t);
      PrefixSnoc(ts, i);
      KeysOfSnoc(ts[..i], t, fn);
      forall j {
        GroupSnoc(ts[..i], t, fn, j);
      }
      if k !in kv {
        GroupEmpty(ts[..i], fn, k);
      }
      kv := kv[k := (if k in kv then kv[k] else []) + [t]];
      i := i + 1;
    }
    assert ts[..i] == ts;
  }

  /** The second loop of `Order`: the groups of the listed keys, each removed from the map once taken. */
  method TakeGroups<E(==), T>(es: seq<E>, ts: seq<T>, fn: T -> E, kv0: map<E, seq<T>>)
    returns (kv: map<E, seq<T>>, rs: seq<T>)
    requires kv0.Keys == KeysOf(ts, fn)
    requires forall k :: k in kv0 ==> kv0[k] == Group(ts, fn, k)
    ensures rs == Grouped(es, ts, fn)
    ensures kv.Keys == KeysOf(ts, fn) - Elems(es)
    ensures forall k :: k in kv ==> kv[k] == Group(ts, fn, k)
  {
    kv := kv0;
    rs := [];
    var j := 0;
    assert Elems(es[..0]) == {};
    while j < |es|
      invariant 0 <= j <= |es|
      invariant rs == Grouped(es[..j], ts, fn)
      invariant kv.Keys == KeysOf(ts, fn) - Elems(es[..j])
      invariant forall k :: k in kv ==> kv[k] == Group(ts, fn, k)
    {
      var e := es[j];
      var vs := if e in kv then kv[e] else [];
      TakeGroupStep(es, j, ts, fn, kv);
      kv := kv - {e};
      rs := rs + vs;
      j := j + 1;
    }
    assert es[..j] == es;
  }

  /** One turn of TakeGroups: the group taken for `es[j]` extends `Grouped`, and `es[j]` leaves the map. */
  lemma TakeGroupStep<E, T>(es: seq<E>, j: nat, ts: seq<T>, fn: T -> E, kv: map<E, seq<T>>)
    requires j < |es|
    requires kv.Keys == KeysOf(ts, fn) - Elems(es[..j])
    requires forall k :: k in kv ==> kv[k] == Group(ts, fn, k)
    ensures Grouped(es[..j + 1], ts, fn) == Grouped(es[..j], ts, fn) + (if es[j] in kv then kv[es[j]] else [])
    ensures (kv - {es[j]}).Keys == KeysOf(ts, fn) - Elems(es[..j + 1])
  {
    var e := es[j];
    var vs := if e in kv then kv[e] else [];
    PrefixSnoc(es, j);
    assert es[..j + 1][..j] == es[..j];
    ElemsSnoc(es[..j + 1]);
    GroupedSnoc(es[..j], e, ts, fn);
    if e !in kv && e !in es[..j] {
      GroupEmpty(ts, fn, e);
    }
    assert vs == if e in es[..j] then [] else Group(ts, fn, e);
  }

  /** The last loop of `Order`: the remaining groups, in the order the map is visited. */
  method AppendGroups<E(==), T>(lead: seq<T>, es: seq<E>, ts: seq<T>, fn: T -> E, kv0: map<E, seq<T>>)
    returns (rs: seq<T>, ghost ks: seq<E>)
    requires kv0.Keys == KeysOf(ts, fn) - Elems(es)
    requires forall k :: k in kv0 ==> kv0[k] == Group(ts, fn, k)
    ensures AllDistinct(ks) && Elems(ks) == KeysOf(ts, fn) - Elems(es)
    ensures rs == lead + ConcatGroups(ks, ts, fn)
  {
    var kv := kv0;
    rs := lead;
    ks := [];
    assert Elems(ks) == {};
    while kv.Keys != {}
      invariant kv.Keys !! Elems(ks)
      invariant kv.Keys + Elems(ks) == KeysOf(ts, fn) - Elems(es)
      invariant AllDistinct(ks)
      invariant forall k :: k in kv ==> kv[k] == Group(ts, fn, k)
      invariant rs == lead + ConcatGroups(ks, ts, fn)
      decreases |kv.Keys|
    {
      var k :| k in kv;
      AppendGroupStep(lead, ks, k, ts, fn, kv.Keys);
      rs := rs + kv[k];
      ks := ks + [k];
      kv := kv - {k};
    }
  }

  /** One step of `AppendGroups`: key `k` moves from the unvisited keys to the visited ones. */
  lemma AppendGroupStep<E, T>(lead: seq<T>, ks: seq<E>, k: E, ts: seq<T>, fn: T -> E, left: set<E>)
    requires k in left && left !! Elems(ks) && AllDistinct(ks)
    ensures (left - {k}) !! Elems(ks + [k])
    ensures (left - {k}) + Elems(ks + [k]) == left + Elems(ks)
    ensures AllDistinct(ks + [k])
    ensures lead + ConcatGroups(ks + [k], ts, fn) == lead + ConcatGroups(ks, ts, fn) + Group(ts, fn, k)
  {
    ConcatGroupsSnoc(ks, k, ts, fn);
    ElemsSnoc(ks + [k]);
    assert (ks + [k])[..|ks|] == ks;
    AppendAssoc(lead, ConcatGroups(ks, ts, fn), Group(ts, fn, k));
    assert k !in Elems(ks);
  }

  /** `OrderPtr`: orders as `Order` does and stores the result back through the `*[]E` argument. */
  method OrderPtr<E(==), T>(es: seq<E>, ts: SliceRef<T>, fn: T -> E) returns (r: seq<T>)
    modifies ts
    ensures ts.elems == r
    ensures |es| == 0 || |old(ts.elems)| == 0 ==> r == old(ts.elems)
    ensures |es| > 0 && |old(ts.elems)| > 0 ==> exists ks :: && AllDistinct(ks)
                                                       && Elems(ks) == KeysOf(old(ts.elems), fn) - Elems(es)
                                                       && r == Grouped(es, old(ts.elems), fn) + ConcatGroups(ks, old(ts.elems), fn)
    ensures multiset(r) == multiset(old(ts.elems))
  {
    r := Order(es, ts.elems, fn);
    ts.elems := r;
  }

  /** `GetSwitchFromOptions`: a switch is on unless the options explicitly turn it off. */
  function GetSwitchFromOptions(options: Option<map<string, bool>>, key: string): (r: bool)
    ensures !r <==> options.Some? && key in options.value && !options.value[key]
  {
    match options
    case None => true
    case Some(m) => key !in m || m[key]
  }

  /** The error `GetElemByIndex` returns for a bad index. */
  function IndexError(xs: seq<int>, index: int): Errs.Error
  {
    Errs.Wrap(Errs.Str(Errs.Render("index out of range",
      ["index", Strconv.Itoa(index), "array", Errs.IntsText(xs)])))
  }

  /** `GetElemByIndex`: the element at `index` when it is a valid position, and an error otherwise. */
  function GetElemByIndex(xs: seq<int>, index: int): (r: Result<int, Errs.Error>)
    ensures r.Success? <==> 0 <= index < |xs|
    ensures r.Success? ==> r.value == xs[index]
    ensures r.Failure? ==> r.error == IndexError(xs, index)
  {
    if index < 0 || index >= |xs| then Failure(IndexError(xs, index))
    else Success(xs[index])
  }
}
