/**
 * Reference definitions for the slice and map helpers of package datautil. Each is a
 * recursion on the last element, so that a loop over a prefix `s[..i]` can keep the
 * invariant "the result so far is the definition applied to `s[..i]`". A `key`
 * function stands for the `fn` argument that maps an element to something comparable.
 */
module DataUtilSpec {

  function Id<T>(x: T): T { x }

  /** The keys of the elements of `s`. */
  function KeysOf<T, K(==)>(s: seq<T>, key: T -> K): set<K>
  {
    if s == [] then {} else KeysOf(s[..|s| - 1], key) + {key(s[|s| - 1])}
  }

  /** A key is in `KeysOf(s, key)` exactly when some element of `s` has it. */
  lemma {:induction false} KeysOfMembers<T, K>(s: seq<T>, key: T -> K)
    ensures forall i :: 0 <= i < |s| ==> key(s[i]) in KeysOf(s, key)
    ensures forall k :: k in KeysOf(s, key) ==> exists i :: 0 <= i < |s| && key(s[i]) == k
  {
    if s != [] {
      var p := s[..|s| - 1];
      KeysOfMembers(p, key);
      assert forall i :: 0 <= i < |p| ==> p[i] == s[i];
      forall k | k in KeysOf(s, key) ensures exists i :: 0 <= i < |s| && key(s[i]) == k {
        if k in KeysOf(p, key) {
          var i :| 0 <= i < |p| && key(p[i]) == k;
          assert key(s[i]) == k;
        } else {
          assert key(s[|s| - 1]) == k;
        }
      }
    }
  }

  lemma KeysOfSnoc<T, K>(s: seq<T>, x: T, key: T -> K)
    ensures KeysOf(s + [x], key) == KeysOf(s, key) + {key(x)}
  {
    assert (s + [x])[..|s|] == s;
  }

  /** The index of the first element whose key is `k`. */
  function FirstIndex<T, K(==)>(s: seq<T>, key: T -> K, k: K): (i: nat)
    requires k in KeysOf(s, key)
    ensures i < |s| && key(s[i]) == k
    ensures forall j :: 0 <= j < i ==> key(s[j]) != k
  {
    if key(s[0]) == k then 0
    else
      assert k in KeysOf(s[1..], key) by {
        KeysOfMembers(s, key);
        KeysOfMembers(s[1..], key);
        var w :| 0 <= w < |s| && key(s[w]) == k;
        assert s[1..][w - 1] == s[w];
      }
      1 + FirstIndex(s[1..], key, k)
  }

  /** The first element of each key, in the order of the input. */
  function DedupBy<T, K(==)>(s: seq<T>, key: T -> K): seq<T>
  {
    if s == [] then []
    else
      var p := s[..|s| - 1];
      if key(s[|s| - 1]) in KeysOf(p, key) then DedupBy(p, key) else DedupBy(p, key) + [s[|s| - 1]]
  }

  /** Deduplication loses no key, repeats no key and never lengthens its input. */
  lemma {:induction false} DedupByProps<T, K>(s: seq<T>, key: T -> K)
    ensures KeysOf(DedupBy(s, key), key) == KeysOf(s, key)
    ensures forall i, j :: 0 <= i < j < |DedupBy(s, key)| ==> key(DedupBy(s, key)[i]) != key(DedupBy(s, key)[j])
    ensures |DedupBy(s, key)| <= |s|
  {
    if s != [] {
      var p := s[..|s| - 1];
      var x := s[|s| - 1];
      DedupByProps(p, key);
      var d, r := DedupBy(p, key), DedupBy(s, key);
      KeysOfSnoc(p, x, key);
      assert p + [x] == s;
      if key(x) in KeysOf(p, key) {
        assert r == d;
        assert KeysOf(s, key) == KeysOf(p, key);
      } else {
        assert r == d + [x];
        KeysOfSnoc(d, x, key);
        KeysOfMembers(d, key);
        forall i, j | 0 <= i < j < |r| ensures key(r[i]) != key(r[j]) {
          if j == |d| {
            assert key(d[i]) in KeysOf(d, key);
          } else {
            assert r[i] == d[i] && r[j] == d[j];
          }
        }
      }
    }
  }

  /** Deduplication removes nothing exactly when no two elements share a key. */
  lemma {:induction false} DedupByLength<T, K>(s: seq<T>, key: T -> K)
    ensures |DedupBy(s, key)| == |s| <==> forall i, j :: 0 <= i < j < |s| ==> key(s[i]) != key(s[j])
  {
    if s != [] {
      var p := s[..|s| - 1];
      var x := s[|s| - 1];
      DedupByLength(p, key);
      DedupByProps(p, key);
      KeysOfMembers(p, key);
      assert forall i :: 0 <= i < |p| ==> p[i] == s[i];
      var d := DedupBy(p, key);
      var isNew := key(x) !in KeysOf(p, key);
      assert |DedupBy(s, key)| == |d| + (if isNew then 1 else 0);
      if |DedupBy(s, key)| == |s| {
        assert |d| == |p| && isNew;
        forall i, j | 0 <= i < j < |s| ensures key(s[i]) != key(s[j]) {
          if j == |s| - 1 {
            assert key(p[i]) in KeysOf(p, key);
          } else {
            assert key(p[i]) != key(p[j]);
          }
        }
      }
      if forall i, j :: 0 <= i < j < |s| ==> key(s[i]) != key(s[j]) {
        assert forall i, j :: 0 <= i < j < |p| ==> key(p[i]) != key(p[j]);
        assert isNew;
      }
    }
  }

  /** With the identity as key, deduplication keeps exactly the values of the input. */
  lemma DedupIdMembers<T>(s: seq<T>)
    ensures forall x :: x in DedupBy(s, Id) <==> x in s
    ensures AllDistinct(DedupBy(s, Id))
  {
    var r := DedupBy(s, Id);
    DedupByProps(s, Id);
    KeysOfMembers(s, Id);
    KeysOfMembers(r, Id);
    forall x | x in r ensures x in s {
      var i :| 0 <= i < |r| && r[i] == x;
      assert Id(r[i]) in KeysOf(s, Id);
    }
    forall x | x in s ensures x in r {
      var i :| 0 <= i < |s| && s[i] == x;
      assert Id(s[i]) in KeysOf(r, Id);
    }
  }

  /** Each kept element is the first element of `s` with its key. */
  lemma DedupByFirst<T, K>(s: seq<T>, key: T -> K)
    ensures forall m :: 0 <= m < |DedupBy(s, key)| ==>
      key(DedupBy(s, key)[m]) in KeysOf(s, key) &&
      DedupBy(s, key)[m] == s[FirstIndex(s, key, key(DedupBy(s, key)[m]))]
  {
    forall m | 0 <= m < |DedupBy(s, key)|
      ensures key(DedupBy(s, key)[m]) in KeysOf(s, key) &&
              DedupBy(s, key)[m] == s[FirstIndex(s, key, key(DedupBy(s, key)[m]))]
    {
      DedupByFirstAt(s, key, m);
    }
  }

  lemma {:induction false} DedupByFirstAt<T, K>(s: seq<T>, key: T -> K, m: nat)
    requires m < |DedupBy(s, key)|
    ensures key(DedupBy(s, key)[m]) in KeysOf(s, key)
    ensures DedupBy(s, key)[m] == s[FirstIndex(s, key, key(DedupBy(s, key)[m]))]
  {
    var p := s[..|s| - 1];
    var d := DedupBy(p, key);
    var r := DedupBy(s, key);
    var x := s[|s| - 1];
    var isNew := key(x) !in KeysOf(p, key);
    assert r == if isNew then d + [x] else d;
    KeysOfSnoc(p, x, key);
    assert p + [x] == s;
    if m < |d| {
      DedupByFirstAt(p, key, m);
      var k := key(d[m]);
      assert r[m] == d[m];
      var f := FirstIndex(p, key, k);
      FirstIndexPrefix(s, key, k);
      assert p[f] == s[f];
    } else {
      assert r[m] == x;
      FirstIndexNew(s, key);
    }
  }

  lemma FirstIndexPrefix<T, K>(s: seq<T>, key: T -> K, k: K)
    requires |s| > 0 && k in KeysOf(s[..|s| - 1], key)
    ensures FirstIndex(s, key, k) == FirstIndex(s[..|s| - 1], key, k)
  {
    var p := s[..|s| - 1];
    var a, b := FirstIndex(s, key, k), FirstIndex(p, key, k);
    assert p[b] == s[b];
    assert a <= b;
    assert p[a] == s[a];
  }

  lemma FirstIndexNew<T, K>(s: seq<T>, key: T -> K)
    requires |s| > 0 && key(s[|s| - 1]) !in KeysOf(s[..|s| - 1], key)
    ensures FirstIndex(s, key, key(s[|s| - 1])) == |s| - 1
  {
    var p := s[..|s| - 1];
    var a := FirstIndex(s, key, key(s[|s| - 1]));
    assert forall j :: 0 <= j < |p| ==> p[j] == s[j];
    KeysOfMembers(p, key);
  }

  /** Deduplicating a prefix gives a prefix of the deduplicated whole: order is kept. */
  lemma {:induction false} DedupByPrefix<T, K>(s: seq<T>, key: T -> K, n: nat)
    requires n <= |s|
    ensures DedupBy(s[..n], key) <= DedupBy(s, key)
    decreases |s| - n
  {
    if n < |s| {
      var p := s[..|s| - 1];
      assert p[..n] == s[..n];
      DedupByPrefix(p, key, n);
    } else {
      assert s[..n] == s;
    }
  }

  /** The elements whose key is not in `ks`, in order. */
  function Without<T, K(==)>(s: seq<T>, key: T -> K, ks: set<K>): seq<T>
  {
    if s == [] then []
    else Without(s[..|s| - 1], key, ks) + (if key(s[|s| - 1]) in ks then [] else [s[|s| - 1]])
  }

  /** `Without` keeps exactly the elements whose key is not excluded. */
  lemma {:induction false} WithoutProps<T, K>(s: seq<T>, key: T -> K, ks: set<K>)
    ensures forall i :: 0 <= i < |Without(s, key, ks)| ==> key(Without(s, key, ks)[i]) !in ks
    ensures forall i :: 0 <= i < |s| && key(s[i]) !in ks ==> s[i] in Without(s, key, ks)
    ensures forall x :: x in Without(s, key, ks) ==> x in s
    ensures |Without(s, key, ks)| <= |s|
  {
    if s != [] {
      var p := s[..|s| - 1];
      WithoutProps(p, key, ks);
      assert forall i :: 0 <= i < |p| ==> p[i] == s[i];
      var w, r := Without(p, key, ks), Without(s, key, ks);
      assert r == w + (if key(s[|s| - 1]) in ks then [] else [s[|s| - 1]]);
      forall i | 0 <= i < |s| && key(s[i]) !in ks ensures s[i] in r {
        if i < |p| {
          assert p[i] in w;
        }
      }
    }
  }

  /** Nothing is left once every key of `s` is excluded. */
  lemma WithoutAll<T, K>(s: seq<T>, key: T -> K, ks: set<K>)
    requires KeysOf(s, key) <= ks
    ensures Without(s, key, ks) == []
  {
    var r := Without(s, key, ks);
    WithoutProps(s, key, ks);
    KeysOfMembers(s, key);
  }

  /** The elements whose key is `k`, in order. */
  function Group<T, K(==)>(s: seq<T>, key: T -> K, k: K): seq<T>
  {
    if s == [] then []
    else Group(s[..|s| - 1], key, k) + (if key(s[|s| - 1]) == k then [s[|s| - 1]] else [])
  }

  /** A key that no element has has an empty group. */
  lemma {:induction false} GroupEmpty<T, K>(s: seq<T>, key: T -> K, k: K)
    requires k !in KeysOf(s, key)
    ensures Group(s, key, k) == []
  {
    if s != [] {
      GroupEmpty(s[..|s| - 1], key, k);
    }
  }

  /** Every element of a group has the group's key and comes from `s`. */
  lemma {:induction false} GroupProps<T, K>(s: seq<T>, key: T -> K, k: K)
    ensures forall i :: 0 <= i < |Group(s, key, k)| ==> key(Group(s, key, k)[i]) == k
    ensures forall x :: x in Group(s, key, k) ==> x in s
  {
    if s != [] {
      var p := s[..|s| - 1];
      GroupProps(p, key, k);
      assert forall x :: x in p ==> x in s;
    }
  }

  /** Taking out one more key moves exactly that key's group out of the remainder. */
  lemma {:induction false} GroupSplit<T, K>(s: seq<T>, key: T -> K, ks: set<K>, k: K)
    requires k !in ks
    ensures multiset(Without(s, key, ks)) == multiset(Group(s, key, k)) + multiset(Without(s, key, ks + {k}))
  {
    if s != [] {
      GroupSplit(s[..|s| - 1], key, ks, k);
    }
  }

  function Elems<E>(es: seq<E>): set<E>
  {
    set e | e in es
  }

  /** The groups of the keys listed in `es`, in `es` order; a repeated key adds nothing. */
  function Grouped<E(==), T>(es: seq<E>, ts: seq<T>, key: T -> E): seq<T>
  {
    if es == [] then []
    else
      var p := es[..|es| - 1];
      Grouped(p, ts, key) + (if es[|es| - 1] in p then [] else Group(ts, key, es[|es| - 1]))
  }

  /** Only elements whose key is listed in `es` are grouped. */
  lemma {:induction false} GroupedKeys<E, T>(es: seq<E>, ts: seq<T>, key: T -> E)
    ensures forall i :: 0 <= i < |Grouped(es, ts, key)| ==> key(Grouped(es, ts, key)[i]) in es
  {
    if es != [] {
      var p := es[..|es| - 1];
      GroupedKeys(p, ts, key);
      GroupProps(ts, key, es[|es| - 1]);
      assert forall e :: e in p ==> e in es;
    }
  }

  lemma ElemsSnoc<E>(es: seq<E>)
    requires |es| > 0
    ensures Elems(es) == Elems(es[..|es| - 1]) + {es[|es| - 1]}
  {
    var p := es[..|es| - 1];
    assert es == p + [es[|es| - 1]];
    forall x | x in Elems(es) ensures x in Elems(p) + {es[|es| - 1]} {
      var i :| 0 <= i < |es| && es[i] == x;
      if i < |p| {
        assert p[i] == x;
      }
    }
  }

  lemma ElemsCons<E>(es: seq<E>)
    requires |es| > 0
    ensures Elems(es) == {es[0]} + Elems(es[1..])
  {
    forall x | x in Elems(es) ensures x in {es[0]} + Elems(es[1..]) {
      var i :| 0 <= i < |es| && es[i] == x;
      if i > 0 {
        assert es[1..][i - 1] == x;
      }
    }
  }

  /** The groups with the leading keys, followed by the rest, hold the elements of `ts` once each. */
  lemma {:induction false} GroupedSplit<E, T>(es: seq<E>, ts: seq<T>, key: T -> E)
    ensures multiset(Grouped(es, ts, key)) + multiset(Without(ts, key, Elems(es))) == multiset(ts)
  {
    if es == [] {
      assert Elems(es) == {};
      WithoutNone(ts, key);
    } else {
      var p := es[..|es| - 1];
      var e := es[|es| - 1];
      GroupedSplit(p, ts, key);
      ElemsSnoc(es);
      var g, gp := Grouped(es, ts, key), Grouped(p, ts, key);
      if e !in p {
        assert g == gp + Group(ts, key, e);
        assert e !in Elems(p);
        GroupSplit(ts, key, Elems(p), e);
        assert multiset(g) == multiset(gp) + multiset(Group(ts, key, e));
        assert Without(ts, key, Elems(es)) == Without(ts, key, Elems(p) + {e});
      } else {
        assert g == gp;
        assert e in Elems(p);
        assert Elems(es) == Elems(p);
      }
    }
  }

  lemma {:induction false} WithoutNone<T, K>(s: seq<T>, key: T -> K)
    ensures Without(s, key, {}) == s
  {
    if s != [] {
      WithoutNone(s[..|s| - 1], key);
      assert s[..|s| - 1] + [s[|s| - 1]] == s;
    }
  }

  /** The groups of the keys `ks`, one after another. */
  function ConcatGroups<T, K(==)>(ks: seq<K>, ts: seq<T>, key: T -> K): seq<T>
  {
    if ks == [] then [] else Group(ts, key, ks[0]) + ConcatGroups(ks[1..], ts, key)
  }

  lemma {:induction false} ConcatGroupsSnoc<T, K>(ks: seq<K>, k: K, ts: seq<T>, key: T -> K)
    ensures ConcatGroups(ks + [k], ts, key) == ConcatGroups(ks, ts, key) + Group(ts, key, k)
  {
    if ks != [] {
      assert (ks + [k])[1..] == ks[1..] + [k];
      ConcatGroupsSnoc(ks[1..], k, ts, key);
    }
  }

  ghost predicate AllDistinct<T>(s: seq<T>)
  {
    forall i, j :: 0 <= i < j < |s| ==> s[i] != s[j]
  }

  /** Emitting the groups of fresh, distinct keys takes exactly those keys out of the remainder. */
  lemma {:induction false} ConcatGroupsSplit<T, K>(ks: seq<K>, ts: seq<T>, key: T -> K, done: set<K>)
    requires AllDistinct(ks)
    requires forall i :: 0 <= i < |ks| ==> ks[i] !in done
    ensures multiset(ConcatGroups(ks, ts, key)) + multiset(Without(ts, key, done + Elems(ks)))
         == multiset(Without(ts, key, done))
  {
    if ks != [] {
      var k := ks[0];
      GroupSplit(ts, key, done, k);
      assert forall i :: 0 <= i < |ks[1..]| ==> ks[1..][i] !in done + {k} by {
        forall i | 0 <= i < |ks[1..]| ensures ks[1..][i] !in done + {k} {
          assert ks[1..][i] == ks[i + 1];
        }
      }
      assert AllDistinct(ks[1..]) by {
        forall i, j | 0 <= i < j < |ks[1..]| ensures ks[1..][i] != ks[1..][j] {
          assert ks[1..][i] == ks[i + 1] && ks[1..][j] == ks[j + 1];
        }
      }
      ConcatGroupsSplit(ks[1..], ts, key, done + {k});
      var c, c1 := ConcatGroups(ks, ts, key), ConcatGroups(ks[1..], ts, key);
      assert c == Group(ts, key, k) + c1;
      assert multiset(c) == multiset(Group(ts, key, k)) + multiset(c1);
      ElemsCons(ks);
      assert done + {k} + Elems(ks[1..]) == done + Elems(ks);
      assert Without(ts, key, done + {k} + Elems(ks[1..])) == Without(ts, key, done + Elems(ks));
    } else {
      assert done + Elems(ks) == done;
    }
  }

  /**
   * The result shape of `Order`: the leading groups then the groups of every other key
   * once, in any order, is a permutation of `ts`.
   */
  lemma OrderedIsPermutation<E, T>(es: seq<E>, ts: seq<T>, key: T -> E, ks: seq<E>)
    requires AllDistinct(ks) && Elems(ks) == KeysOf(ts, key) - Elems(es)
    ensures multiset(Grouped(es, ts, key) + ConcatGroups(ks, ts, key)) == multiset(ts)
  {
    GroupedSplit(es, ts, key);
    ConcatGroupsSplit(ks, ts, key, Elems(es));
    WithoutAll(ts, key, Elems(es) + Elems(ks));
  }

  /** The element last written for each key, as a Go map filled in a loop keeps it. */
  function KeyMap<T, K(==)>(s: seq<T>, key: T -> K): map<K, T>
  {
    if s == [] then map[] else KeyMap(s[..|s| - 1], key)[key(s[|s| - 1]) := s[|s| - 1]]
  }

  /** The map has a key for each key of `s`, and maps it to an element of `s` that has it. */
  lemma {:induction false} KeyMapProps<T, K>(s: seq<T>, key: T -> K)
    ensures KeyMap(s, key).Keys == KeysOf(s, key)
    ensures forall k :: k in KeyMap(s, key) ==> key(KeyMap(s, key)[k]) == k && KeyMap(s, key)[k] in s
  {
    if s != [] {
      var p := s[..|s| - 1];
      KeyMapProps(p, key);
      assert forall x :: x in p ==> x in s;
    }
  }

  /** The first position holding the least value. */
  function FirstSmallest(ns: seq<nat>): (i: nat)
    requires |ns| > 0
    ensures i < |ns|
    ensures forall j :: 0 <= j < |ns| ==> ns[i] <= ns[j]
    ensures forall j :: 0 <= j < i ==> ns[i] < ns[j]
  {
    if |ns| == 1 then 0
    else
      var p := ns[..|ns| - 1];
      var i := FirstSmallest(p);
      assert forall j :: 0 <= j < |p| ==> p[j] == ns[j];
      if ns[|ns| - 1] < ns[i] then |ns| - 1 else i
  }

  /** The number of distinct keys of each list, as `len(kv)` counts them. */
  function Sizes<T, K(==)>(es: seq<seq<T>>, key: T -> K): (ns: seq<nat>)
    ensures |ns| == |es|
    ensures forall i :: 0 <= i < |es| ==> ns[i] == |KeysOf(es[i], key)|
  {
    if es == [] then []
    else
      var p := es[..|es| - 1];
      assert forall i :: 0 <= i < |p| ==> p[i] == es[i];
      Sizes(p, key) + [|KeysOf(es[|es| - 1], key)|]
  }

  /** `k` is a key of every list. */
  predicate InAll<T, K(==)>(es: seq<seq<T>>, key: T -> K, k: K)
  {
    forall i :: 0 <= i < |es| ==> k in KeysOf(es[i], key)
  }

  /** The elements of `s` at positions not in `drop`, in order. */
  function KeepExcept<T>(s: seq<T>, drop: set<int>): (r: seq<T>)
    ensures |r| <= |s|
  {
    if s == [] then []
    else KeepExcept(s[..|s| - 1], drop) + (if |s| - 1 in drop then [] else [s[|s| - 1]])
  }

  /** Dropping no position of `s` keeps all of it. */
  lemma {:induction false} KeepExceptNone<T>(s: seq<T>, drop: set<int>)
    requires forall i :: 0 <= i < |s| ==> i !in drop
    ensures KeepExcept(s, drop) == s
  {
    if s != [] {
      KeepExceptNone(s[..|s| - 1], drop);
      assert s[..|s| - 1] + [s[|s| - 1]] == s;
    }
  }

  /** Dropping one valid position is the splice `s[..p] + s[p+1..]`. */
  lemma {:induction false} KeepExceptOne<T>(s: seq<T>, p: int)
    requires 0 <= p < |s|
    ensures KeepExcept(s, {p}) == s[..p] + s[p + 1..]
  {
    if p == |s| - 1 {
      KeepExceptNone(s[..|s| - 1], {p});
    } else {
      KeepExceptOne(s[..|s| - 1], p);
      assert s[..|s| - 1][..p] == s[..p];
      assert s[..|s| - 1][p + 1..] + [s[|s| - 1]] == s[p + 1..];
    }
  }

  /** Every element kept by `KeepExcept` sits at a position that was not dropped. */
  lemma {:induction false} KeepExceptKeeps<T>(s: seq<T>, drop: set<int>)
    ensures forall m :: 0 <= m < |KeepExcept(s, drop)| ==>
      exists i :: 0 <= i < |s| && i !in drop && KeepExcept(s, drop)[m] == s[i]
  {
    if s != [] {
      var p := s[..|s| - 1];
      KeepExceptKeeps(p, drop);
      var r := KeepExcept(s, drop);
      var d := KeepExcept(p, drop);
      forall m | 0 <= m < |r|
        ensures exists i :: 0 <= i < |s| && i !in drop && r[m] == s[i]
      {
        if m < |d| {
          assert r[m] == d[m];
          var i :| 0 <= i < |p| && i !in drop && d[m] == p[i];
          assert p[i] == s[i];
          assert 0 <= i < |s| && i !in drop && r[m] == s[i];
        } else {
          assert |s| - 1 !in drop;
          assert r[m] == s[|s| - 1];
          assert 0 <= |s| - 1 < |s| && |s| - 1 !in drop && r[m] == s[|s| - 1];
        }
      }
    } else {
      assert |KeepExcept(s, drop)| == 0;
    }
  }

  /** A negative index counts from the end, as `Delete` reads it. */
  function Normalize(i: int, n: nat): int
  {
    if i < 0 then n + i else i
  }

  /** The positions named by `index` once negative ones are counted from the end. */
  function NormalizedSet(index: seq<int>, n: nat): set<int>
  {
    if index == [] then {}
    else NormalizedSet(index[..|index| - 1], n) + {Normalize(index[|index| - 1], n)}
  }

  /** A position is in the set exactly when some listed index names it. */
  lemma {:induction false} NormalizedSetMembers(index: seq<int>, n: nat)
    ensures forall j :: 0 <= j < |index| ==> Normalize(index[j], n) in NormalizedSet(index, n)
    ensures forall p :: p in NormalizedSet(index, n) ==> exists j :: 0 <= j < |index| && Normalize(index[j], n) == p
  {
    if index != [] {
      var q := index[..|index| - 1];
      NormalizedSetMembers(q, n);
      assert forall j :: 0 <= j < |q| ==> q[j] == index[j];
      forall p | p in NormalizedSet(index, n)
        ensures exists j :: 0 <= j < |index| && Normalize(index[j], n) == p
      {
        if p in NormalizedSet(q, n) {
          var j :| 0 <= j < |q| && Normalize(q[j], n) == p;
          assert Normalize(index[j], n) == p;
        } else {
          assert Normalize(index[|index| - 1], n) == p;
        }
      }
    }
  }

  /** What `Delete` returns, branch by branch. */
  function Deleted<T>(es: seq<T>, index: seq<int>): seq<T>
    requires |index| == 1 ==> Normalize(index[0], |es|) >= 0
  {
    if |index| == 0 then es
    else if |index| == 1 then
      var i := Normalize(index[0], |es|);
      if |es| <= i then es else es[..i] + es[i + 1..]
    else KeepExcept(es, NormalizedSet(index, |es|))
  }

  /** One index and two equal indices delete the same thing. */
  lemma DeletedOneAgreesWithMany<T>(es: seq<T>, i: int)
    requires 0 <= Normalize(i, |es|) < |es|
    ensures Deleted(es, [i]) == Deleted(es, [i, i])
  {
    var p := Normalize(i, |es|);
    NormalizedSetSnoc([], i, |es|);
    NormalizedSetSnoc([i], i, |es|);
    assert [] + [i] == [i] && [i] + [i] == [i, i];
    assert NormalizedSet([i, i], |es|) == {p};
    KeepExceptOne(es, p);
  }

  /** A negative index `-k` deletes the `k`-th element from the end. */
  lemma DeletedFromEnd<T>(es: seq<T>, k: int)
    requires 1 <= k <= |es|
    ensures Deleted(es, [-k]) == es[..|es| - k] + es[|es| - k + 1..]
  {
  }

  // One-step unfoldings, for loops that extend a prefix by one element.

  lemma DedupBySnoc<T, K>(s: seq<T>, x: T, key: T -> K)
    ensures DedupBy(s + [x], key) ==
      if key(x) in KeysOf(s, key) then DedupBy(s, key) else DedupBy(s, key) + [x]
  {
    assert (s + [x])[..|s|] == s;
  }

  lemma WithoutSnoc<T, K>(s: seq<T>, x: T, key: T -> K, ks: set<K>)
    ensures Without(s + [x], key, ks) == Without(s, key, ks) + if key(x) in ks then [] else [x]
  {
    assert (s + [x])[..|s|] == s;
  }

  lemma GroupSnoc<T, K>(s: seq<T>, x: T, key: T -> K, k: K)
    ensures Group(s + [x], key, k) == Group(s, key, k) + if key(x) == k then [x] else []
  {
    assert (s + [x])[..|s|] == s;
  }

  lemma KeyMapSnoc<T, K>(s: seq<T>, x: T, key: T -> K)
    ensures KeyMap(s + [x], key) == KeyMap(s, key)[key(x) := x]
  {
    assert (s + [x])[..|s|] == s;
  }

  lemma KeepExceptSnoc<T>(s: seq<T>, x: T, drop: set<int>)
    ensures KeepExcept(s + [x], drop) == KeepExcept(s, drop) + if |s| in drop then [] else [x]
  {
    assert (s + [x])[..|s|] == s;
  }

  lemma NormalizedSetSnoc(index: seq<int>, i: int, n: nat)
    ensures NormalizedSet(index + [i], n) == NormalizedSet(index, n) + {Normalize(i, n)}
  {
    assert (index + [i])[..|index|] == index;
  }

  lemma GroupedSnoc<E, T>(es: seq<E>, e: E, ts: seq<T>, key: T -> E)
    ensures Grouped(es + [e], ts, key) == Grouped(es, ts, key) + if e in es then [] else Group(ts, key, e)
  {
    assert (es + [e])[..|es|] == es;
  }

  lemma SizesSnoc<T, K>(es: seq<seq<T>>, e: seq<T>, key: T -> K)
    ensures Sizes(es + [e], key) == Sizes(es, key) + [|KeysOf(e, key)|]
  {
    assert (es + [e])[..|es|] == es;
  }

  /** `len(kv)` of the key map is the number of distinct keys. */
  lemma KeyMapSize<T, K>(s: seq<T>, key: T -> K)
    ensures |KeyMap(s, key)| == |KeysOf(s, key)|
  {
    KeyMapProps(s, key);
  }

  /** Only one position is both least and before every other least one. */
  lemma FirstSmallestUnique(ns: seq<nat>, i: nat)
    requires i < |ns|
    requires forall j :: 0 <= j < |ns| ==> ns[i] <= ns[j]
    requires forall j :: 0 <= j < i ==> ns[i] < ns[j]
    ensures i == FirstSmallest(ns)
  {
  }

  lemma FirstSmallestSnoc(ns: seq<nat>, x: nat)
    requires |ns| > 0
    ensures FirstSmallest(ns + [x]) == if x < ns[FirstSmallest(ns)] then |ns| else FirstSmallest(ns)
  {
    assert (ns + [x])[..|ns|] == ns;
  }

  lemma PrefixSnoc<T>(s: seq<T>, i: nat)
    requires i < |s|
    ensures s[..i + 1] == s[..i] + [s[i]]
  {
  }

  lemma AppendAssoc<T>(a: seq<T>, b: seq<T>, c: seq<T>)
    ensures (a + b) + c == a + (b + c)
  {
  }
}
