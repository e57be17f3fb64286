/**
 Shared vocabulary of the three drill variants: failure-carrying results,
 duplicate-free sequences, list filtering and weighting, and the way a
 Python dictionary is built from a list of pairs by successive assignment.
 */
module Common {

  datatype Option<+T> = None | Some(value: T)

  /** A value, or the error that stopped the computation. */
  datatype Result<+T, +E> = Success(value: T) | Failure(error: E)

  function Max(a: int, b: int): int { if a >= b then a else b }

  function Min(a: int, b: int): int { if a <= b then a else b }

  /* ---------------- duplicate-free sequences ---------------- */

  predicate NoDups<T(==)>(s: seq<T>) {
    forall i, j :: 0 <= i < j < |s| ==> s[i] != s[j]
  }

  function ToSet<T(==)>(s: seq<T>): set<T> {
    set x | x in s
  }

  /** `s` lists every element of `xs` exactly once, in some order: the
      possible outcomes of shuffling a duplicate-free list holding `xs`. */
  predicate Enumerates<T(==)>(s: seq<T>, xs: set<T>) {
    NoDups(s) && ToSet(s) == xs
  }

  lemma NoDupsCons<T>(x: T, s: seq<T>)
    ensures NoDups([x] + s) <==> x !in s && NoDups(s)
  {
    var t := [x] + s;
    if NoDups(t) {
      forall i, j | 0 <= i < j < |s| ensures s[i] != s[j] {
        assert t[i + 1] == s[i] && t[j + 1] == s[j];
      }
      forall k | 0 <= k < |s| ensures s[k] != x {
        assert t[0] == x && t[k + 1] == s[k];
      }
    }
  }

  lemma {:induction false} NoDupsCard<T>(s: seq<T>)
    requires NoDups(s)
    ensures |ToSet(s)| == |s|
    decreases |s|
  {
    if |s| > 0 {
      assert s == [s[0]] + s[1..];
      NoDupsCons(s[0], s[1..]);
      NoDupsCard(s[1..]);
      assert ToSet(s) == {s[0]} + ToSet(s[1..]);
    }
  }

  lemma {:induction false} ToSetCard<T>(s: seq<T>)
    ensures |ToSet(s)| <= |s|
    decreases |s|
  {
    if |s| > 0 {
      ToSetCard(s[1..]);
      assert ToSet(s) == {s[0]} + ToSet(s[1..]);
    }
  }

  lemma EnumeratesCard<T>(s: seq<T>, xs: set<T>)
    requires Enumerates(s, xs)
    ensures |s| == |xs|
  {
    NoDupsCard(s);
  }

  /** In a duplicate-free sequence every member occurs exactly once. */
  lemma {:induction false} NoDupsCount<T>(s: seq<T>, x: T)
    requires NoDups(s)
    ensures multiset(s)[x] == if x in s then 1 else 0
    decreases |s|
  {
    if |s| > 0 {
      assert s == [s[0]] + s[1..];
      NoDupsCons(s[0], s[1..]);
      NoDupsCount(s[1..], x);
    }
  }

  lemma NoDupsAppend<T>(a: seq<T>, b: seq<T>)
    requires NoDups(a) && NoDups(b) && ToSet(a) !! ToSet(b)
    ensures NoDups(a + b)
  {
    var t := a + b;
    forall i, j | 0 <= i < j < |t| ensures t[i] != t[j] {
      if j < |a| {
        assert t[i] == a[i] && t[j] == a[j];
      } else if i >= |a| {
        assert t[i] == b[i - |a|] && t[j] == b[j - |a|];
      } else {
        assert t[i] == a[i] && t[j] == b[j - |a|];
        assert t[i] in ToSet(a) && t[j] in ToSet(b);
      }
    }
  }

  lemma NoDupsPrefix<T>(s: seq<T>, n: nat)
    requires NoDups(s) && n <= |s|
    ensures NoDups(s[..n])
  {
    forall i, j | 0 <= i < j < n ensures s[..n][i] != s[..n][j] {
      assert s[..n][i] == s[i] && s[..n][j] == s[j];
    }
  }

  lemma SubsetCard<T>(a: set<T>, b: set<T>)
    requires a <= b
    ensures |a| <= |b|
  {
    assert b == a + (b - a);
  }

  lemma IndexIn<T>(s: seq<T>, x: T) returns (i: int)
    requires x in s
    ensures 0 <= i < |s| && s[i] == x
  {
    i :| 0 <= i < |s| && s[i] == x;
  }

  /* ---------------- filtering ---------------- */

  /** The list comprehension `[x for x in s if p(x)]`. */
  function Filter<T(==,!new)>(s: seq<T>, p: T -> bool): (r: seq<T>)
    ensures |r| <= |s|
    ensures forall x :: x in r <==> x in s && p(x)
    decreases |s|
  {
    if |s| == 0 then []
    else (if p(s[0]) then [s[0]] else []) + Filter(s[1..], p)
  }

  /** Filtering a duplicate-free list keeps the order of what it keeps. */
  /** Filtering a list with a given head. */
  lemma FilterCons<T(!new)>(x: T, t: seq<T>, p: T -> bool)
    ensures Filter([x] + t, p) == (if p(x) then [x] else []) + Filter(t, p)
  {
    assert ([x] + t)[1..] == t;
  }

  lemma {:induction false} FilterOrdered<T(!new)>(s: seq<T>, p: T -> bool)
    requires NoDups(s)
    ensures OrderedLike(Filter(s, p), s)
    decreases |s|
  {
    if |s| > 0 {
      var t := s[1..];
      assert s == [s[0]] + t;
      NoDupsCons(s[0], t);
      FilterOrdered(t, p);
      OrderedLikeCons(s[0], Filter(t, p), t);
      if p(s[0]) {
        assert Filter(s, p) == [s[0]] + Filter(t, p);
      } else {
        assert Filter(s, p) == Filter(t, p);
      }
    }
  }

  /** Behind a new head, every other element sits one place further on. */
  lemma FirstIndexShift<T>(x: T, t: seq<T>)
    requires x !in t
    ensures forall y :: y in t ==> y in [x] + t && FirstIndex([x] + t, y) == FirstIndex(t, y) + 1
  {
    assert ([x] + t)[1..] == t;
  }

  /** Putting a new element in front of `t` keeps an order like `t`'s,
      and that element can head it. */
  lemma OrderedLikeCons<T>(x: T, r: seq<T>, t: seq<T>)
    requires OrderedLike(r, t) && x !in t
    requires forall y :: y in r ==> y in t
    ensures OrderedLike(r, [x] + t)
    ensures OrderedLike([x] + r, [x] + t)
  {
    var s := [x] + t;
    FirstIndexShift(x, t);
    forall i, j | 0 <= i < j < |r| ensures Before(s, r[i], r[j]) {
      assert Before(t, r[i], r[j]);
    }
    var xr := [x] + r;
    forall i, j | 0 <= i < j < |xr| ensures Before(s, xr[i], xr[j]) {
      assert xr[j] == r[j - 1];
      if i > 0 { assert xr[i] == r[i - 1]; }
    }
  }

  lemma {:induction false} FilterCount<T(!new)>(s: seq<T>, p: T -> bool, x: T)
    ensures multiset(Filter(s, p))[x] == if p(x) then multiset(s)[x] else 0
    decreases |s|
  {
    if |s| > 0 {
      assert s == [s[0]] + s[1..];
      FilterCount(s[1..], p, x);
    }
  }

  lemma {:induction false} FilterNoDups<T(!new)>(s: seq<T>, p: T -> bool)
    requires NoDups(s)
    ensures NoDups(Filter(s, p))
    decreases |s|
  {
    if |s| > 0 {
      assert s == [s[0]] + s[1..];
      NoDupsCons(s[0], s[1..]);
      FilterNoDups(s[1..], p);
      if p(s[0]) {
        NoDupsCons(s[0], Filter(s[1..], p));
      } else {
        assert Filter(s, p) == Filter(s[1..], p);
      }
    }
  }

  /* ---------------- weighting ---------------- */

  /** The list `[x] * n`. */
  function Repeat<T(==)>(x: T, n: nat): (r: seq<T>)
    ensures |r| == n
    ensures forall i :: 0 <= i < n ==> r[i] == x
    decreases n
  {
    if n == 0 then [] else [x] + Repeat(x, n - 1)
  }

  lemma {:induction false} RepeatCount<T>(x: T, n: nat, y: T)
    ensures multiset(Repeat(x, n))[y] == if x == y then n else 0
    decreases n
  {
    if n > 0 {
      RepeatCount(x, n - 1, y);
    }
  }

  /** The loop `for x in s: out.extend([x] * weight(x))`. */
  function Weighted<T(==,!new)>(s: seq<T>, weight: T -> nat): (r: seq<T>)
    ensures forall x :: x in r ==> x in s
    decreases |s|
  {
    if |s| == 0 then [] else Repeat(s[0], weight(s[0])) + Weighted(s[1..], weight)
  }

  /** In the weighted list of a duplicate-free `s`, each member of `s`
      occurs exactly its weight times and nothing else occurs. */
  lemma {:induction false} WeightedCount<T(!new)>(s: seq<T>, weight: T -> nat, x: T)
    requires NoDups(s)
    ensures multiset(Weighted(s, weight))[x] == if x in s then weight(x) else 0
    decreases |s|
  {
    if |s| > 0 {
      assert s == [s[0]] + s[1..];
      NoDupsCons(s[0], s[1..]);
      RepeatCount(s[0], weight(s[0]), x);
      WeightedCount(s[1..], weight, x);
    }
  }

  /* ---------------- list positions ---------------- */

  /** Python's `s.index(x)`: the first position holding `x`. */
  function FirstIndex<T(==)>(s: seq<T>, x: T): (i: nat)
    requires x in s
    ensures i < |s| && s[i] == x
    ensures x !in s[..i]
    decreases |s|
  {
    if s[0] == x then 0
    else
      var j := FirstIndex(s[1..], x);
      assert s[..j + 1] == [s[0]] + s[1..][..j];
      j + 1
  }

  /** A position holding `x` with no earlier `x` is the first index. */
  lemma FirstIndexUnique<T>(s: seq<T>, x: T, i: nat)
    requires i < |s| && s[i] == x && x !in s[..i]
    ensures FirstIndex(s, x) == i
  {
  }

  /** The first index of a word in a prefix is its first index in the
      whole list. */
  lemma FirstIndexPrefix<T>(s: seq<T>, n: nat, x: T)
    requires n <= |s| && x in s[..n]
    ensures x in s && FirstIndex(s, x) == FirstIndex(s[..n], x)
  {
    var i := FirstIndex(s[..n], x);
    assert s[..n][..i] == s[..i];
    FirstIndexUnique(s, x, i);
  }

  /** `r` lists members of `s` in the order of their first positions in
      `s`. */
  predicate OrderedLike<T(==)>(r: seq<T>, s: seq<T>) {
    forall i, j :: 0 <= i < j < |r| ==> Before(s, r[i], r[j])
  }

  /** `a` and `b` are in `s`, and `a` first comes before `b`. */
  predicate Before<T(==)>(s: seq<T>, a: T, b: T) {
    a in s && b in s && FirstIndex(s, a) < FirstIndex(s, b)
  }

  /** The list `s.pop(i)` leaves behind. */
  function RemoveAt<T>(s: seq<T>, i: nat): (r: seq<T>)
    requires i < |s|
    ensures |r| == |s| - 1
    ensures forall k :: 0 <= k < i ==> r[k] == s[k]
    ensures forall k :: i <= k < |r| ==> r[k] == s[k + 1]
  {
    s[..i] + s[i + 1..]
  }

  /** Popping the same position from two parallel lists pops that pair
      and keeps every other pair, in order. */
  lemma ZipRemoveAt<A, B>(a: seq<A>, b: seq<B>, i: nat)
    requires |a| == |b| && i < |a|
    ensures Zip(RemoveAt(a, i), RemoveAt(b, i)) == RemoveAt(Zip(a, b), i)
  {
    var l, r := Zip(RemoveAt(a, i), RemoveAt(b, i)), RemoveAt(Zip(a, b), i);
    assert |l| == |r|;
    forall k | 0 <= k < |l| ensures l[k] == r[k] {
      if k < i { assert r[k] == Zip(a, b)[k]; } else { assert r[k] == Zip(a, b)[k + 1]; }
    }
  }

  /* ---------------- building dictionaries ---------------- */

  /** Python's `zip(a, b)`: pairs up to the shorter length. */
  function Zip<A, B>(a: seq<A>, b: seq<B>): (r: seq<(A, B)>)
    ensures |r| == Min(|a|, |b|)
    ensures forall i :: 0 <= i < |r| ==> r[i] == (a[i], b[i])
  {
    seq(Min(|a|, |b|), i requires 0 <= i < Min(|a|, |b|) => (a[i], b[i]))
  }

  function KeysOf<K(==), V(==)>(pairs: seq<(K, V)>): set<K> {
    set p | p in pairs :: p.0
  }

  lemma KeysOfAppend<K, V>(a: seq<(K, V)>, b: seq<(K, V)>)
    ensures KeysOf(a + b) == KeysOf(a) + KeysOf(b)
  {
    forall k | k in KeysOf(a + b) ensures k in KeysOf(a) + KeysOf(b) {
      var p :| p in a + b && p.0 == k;
    }
  }

  lemma KeysOfCons<K, V>(p: (K, V), t: seq<(K, V)>)
    ensures KeysOf([p] + t) == {p.0} + KeysOf(t)
  {
    KeysOfAppend([p], t);
    assert KeysOf([p]) == {p.0} by {
      assert p in [p];
    }
  }

  lemma {:induction false} KeysOfZip<A, B>(a: seq<A>, b: seq<B>)
    ensures KeysOf(Zip(a, b)) == ToSet(a[..Min(|a|, |b|)])
  {
    var z := Zip(a, b);
    var n := Min(|a|, |b|);
    forall k | k in KeysOf(z) ensures k in ToSet(a[..n]) {
      var p :| p in z && p.0 == k;
      var i := IndexIn(z, p);
      assert a[..n][i] == k;
    }
    forall k | k in ToSet(a[..n]) ensures k in KeysOf(z) {
      var i := IndexIn(a[..n], k);
      assert z[i] in z && z[i].0 == k;
    }
  }

  /** No later pair of `pairs` reassigns the key of pair `i`. */
  predicate LastAssignment<K(==), V(==)>(pairs: seq<(K, V)>, i: int)
    requires 0 <= i < |pairs|
  {
    forall j :: i < j < |pairs| ==> pairs[j].0 != pairs[i].0
  }

  /** The dictionary `d` after `for k, v in pairs: d[k] = v`, starting
      from `{}`: it holds exactly the keys assigned (the values are
      described by DictOfValue). */
  function DictOf<K(==), V(==)>(pairs: seq<(K, V)>): (d: map<K, V>)
    ensures d.Keys == KeysOf(pairs)
    decreases |pairs|
  {
    if |pairs| == 0 then map[]
    else
      var n := |pairs| - 1;
      assert pairs == pairs[..n] + [pairs[n]];
      KeysOfAppend(pairs[..n], [pairs[n]]);
      DictOf(pairs[..n])[pairs[n].0 := pairs[n].1]
  }

  /** Each key holds the value of its last assignment. */
  lemma {:induction false} DictOfValue<K, V>(pairs: seq<(K, V)>, i: int)
    requires 0 <= i < |pairs| && LastAssignment(pairs, i)
    ensures pairs[i].0 in DictOf(pairs) && DictOf(pairs)[pairs[i].0] == pairs[i].1
    decreases |pairs|
  {
    var n := |pairs| - 1;
    if i < n {
      assert pairs[..n][i] == pairs[i];
      DictOfValue(pairs[..n], i);
    }
  }

  /** Every key occurs at most once among the pairs. */
  predicate DistinctKeys<K(==), V(==)>(items: seq<(K, V)>) {
    forall i, j :: 0 <= i < j < |items| ==> items[i].0 != items[j].0
  }

  /** With distinct keys, the dictionary holds exactly the listed pairs. */
  lemma DictOfDistinct<K, V>(items: seq<(K, V)>, i: int)
    requires DistinctKeys(items) && 0 <= i < |items|
    ensures items[i].0 in DictOf(items) && DictOf(items)[items[i].0] == items[i].1
  {
    DictOfValue(items, i);
  }

  lemma DistinctKeysCons<K, V>(p: (K, V), items: seq<(K, V)>)
    ensures DistinctKeys([p] + items) <==> p.0 !in KeysOf(items) && DistinctKeys(items)
  {
    var t := [p] + items;
    if DistinctKeys(t) {
      forall i, j | 0 <= i < j < |items| ensures items[i].0 != items[j].0 {
        assert t[i + 1] == items[i] && t[j + 1] == items[j];
      }
      forall q | q in items ensures q.0 != p.0 {
        var k :| 0 <= k < |items| && items[k] == q;
        assert t[0] == p && t[k + 1] == q;
      }
    }
    if p.0 !in KeysOf(items) && DistinctKeys(items) {
      forall i, j | 0 <= i < j < |t| ensures t[i].0 != t[j].0 {
        assert t[j] == items[j - 1];
        if i > 0 { assert t[i] == items[i - 1]; } else { assert t[j] in items; }
      }
    }
  }

  /** `d[k] = v` on an insertion-ordered dictionary held as its item list:
      an existing key keeps its position, a new key goes last. */
  function Assign<K(==), V(==)>(items: seq<(K, V)>, k: K, v: V): (r: seq<(K, V)>)
    requires DistinctKeys(items)
    ensures DistinctKeys(r)
    ensures KeysOf(r) == KeysOf(items) + {k}
    ensures k in KeysOf(items) ==> |r| == |items|
    ensures k !in KeysOf(items) ==> r == items + [(k, v)]
    ensures (k, v) in r
    ensures forall i :: 0 <= i < |r| ==> r[i] == (k, v) || (r[i] in items && r[i].0 != k)
    decreases |items|
  {
    if |items| == 0 then [(k, v)]
    else
      assert items == [items[0]] + items[1..];
      DistinctKeysCons(items[0], items[1..]);
      KeysOfAppend([items[0]], items[1..]);
      if items[0].0 == k then
        KeysOfAppend([(k, v)], items[1..]);
        DistinctKeysCons((k, v), items[1..]);
        [(k, v)] + items[1..]
      else
        var rest := Assign(items[1..], k, v);
        KeysOfAppend([items[0]], rest);
        DistinctKeysCons(items[0], rest);
        [items[0]] + rest
  }

  /** Reassigning a key already present leaves every key in its place. */
  lemma {:induction false} AssignKeepsKeys<K, V>(items: seq<(K, V)>, k: K, v: V)
    requires DistinctKeys(items) && k in KeysOf(items)
    ensures KeyList(Assign(items, k, v)) == KeyList(items)
    decreases |items|
  {
    var t := items[1..];
    assert items == [items[0]] + t;
    KeyListCons(items[0], t);
    if items[0].0 == k {
      assert Assign(items, k, v) == [(k, v)] + t;
      KeyListCons((k, v), t);
    } else {
      DistinctKeysCons(items[0], t);
      KeysOfAppend([items[0]], t);
      AssignKeepsKeys(t, k, v);
      assert Assign(items, k, v) == [items[0]] + Assign(t, k, v);
      KeyListCons(items[0], Assign(t, k, v));
    }
  }

  lemma KeyListCons<K, V>(p: (K, V), t: seq<(K, V)>)
    ensures KeyList([p] + t) == [p.0] + KeyList(t)
  {
  }

  /** `list(d.items())` for the dictionary built by `for k, v in pairs:
      d[k] = v`: keys in first-insertion order, each once. */
  function ItemsOf<K(==), V(==)>(pairs: seq<(K, V)>): (items: seq<(K, V)>)
    ensures DistinctKeys(items)
    ensures KeysOf(items) == KeysOf(pairs)
    ensures |items| <= |pairs|
    decreases |pairs|
  {
    if |pairs| == 0 then []
    else
      var n := |pairs| - 1;
      assert pairs == pairs[..n] + [pairs[n]];
      KeysOfAppend(pairs[..n], [pairs[n]]);
      Assign(ItemsOf(pairs[..n]), pairs[n].0, pairs[n].1)
  }

  /** The keys of `pairs`, one per pair, in order. */
  function KeyList<K, V>(pairs: seq<(K, V)>): (ks: seq<K>)
    ensures |ks| == |pairs|
    ensures forall i :: 0 <= i < |pairs| ==> ks[i] == pairs[i].0
  {
    seq(|pairs|, i requires 0 <= i < |pairs| => pairs[i].0)
  }

  lemma KeyListKeys<K, V>(pairs: seq<(K, V)>)
    ensures forall k :: k in KeyList(pairs) <==> k in KeysOf(pairs)
  {
    var ks := KeyList(pairs);
    forall k | k in KeysOf(pairs) ensures k in ks {
      var p :| p in pairs && p.0 == k;
      var i := IndexIn(pairs, p);
      assert ks[i] == k;
    }
    forall k | k in ks ensures k in KeysOf(pairs) {
      var i := IndexIn(ks, k);
      assert pairs[i] in pairs;
    }
  }

  /** Appending to `s` does not disturb an order taken from `s`. */
  lemma OrderedLikeExtend<T>(r: seq<T>, s: seq<T>, u: seq<T>)
    requires OrderedLike(r, s) && forall y :: y in r ==> y in s
    ensures OrderedLike(r, s + u)
  {
    assert (s + u)[..|s|] == s;
    forall y | y in s ensures y in s + u && FirstIndex(s + u, y) == FirstIndex(s, y) {
      FirstIndexPrefix(s + u, |s|, y);
    }
  }

  /** A new element at the end of `s` may end a list ordered like `s`. */
  lemma OrderedLikeSnoc<T>(r: seq<T>, s: seq<T>, x: T)
    requires OrderedLike(r, s) && x !in s && forall y :: y in r ==> y in s
    ensures OrderedLike(r + [x], s + [x])
  {
    var sx, rx := s + [x], r + [x];
    OrderedLikeExtend(r, s, [x]);
    assert sx[..|s|] == s;
    FirstIndexUnique(sx, x, |s|);
    forall y | y in s ensures y in sx && FirstIndex(sx, y) < |s| {
      FirstIndexPrefix(sx, |s|, y);
    }
    forall i, j | 0 <= i < j < |rx| ensures rx[i] in sx && rx[j] in sx && FirstIndex(sx, rx[i]) < FirstIndex(sx, rx[j]) {
      assert rx[i] == r[i] && r[i] in r;
      if j < |r| { assert rx[j] == r[j]; }
    }
  }

  /** The items come in the order in which their keys were first
      assigned. */
  lemma {:induction false} ItemsOfOrder<K, V>(pairs: seq<(K, V)>)
    ensures OrderedLike(KeyList(ItemsOf(pairs)), KeyList(pairs))
    decreases |pairs|
  {
    if |pairs| > 0 {
      var n := |pairs| - 1;
      var prev := ItemsOf(pairs[..n]);
      assert ItemsOf(pairs) == Assign(prev, pairs[n].0, pairs[n].1);
      ItemsOfOrder(pairs[..n]);
      KeyListSnoc(pairs);
      KeyListKeys(pairs[..n]);
      KeyListKeys(prev);
      AssignOrdered(prev, KeyList(pairs[..n]), pairs[n].0, pairs[n].1);
    }
  }

  lemma KeyListSnoc<K, V>(pairs: seq<(K, V)>)
    requires |pairs| > 0
    ensures KeyList(pairs) == KeyList(pairs[..|pairs| - 1]) + [pairs[|pairs| - 1].0]
  {
  }

  /** `d[k] = v` keeps the items ordered by first assignment: an old key
      stays where it is and a new one comes last. */
  lemma AssignOrdered<K, V>(prev: seq<(K, V)>, pks: seq<K>, k: K, v: V)
    requires DistinctKeys(prev) && OrderedLike(KeyList(prev), pks)
    requires forall y :: y in KeyList(prev) <==> y in pks
    requires forall y :: y in KeyList(prev) <==> y in KeysOf(prev)
    ensures OrderedLike(KeyList(Assign(prev, k, v)), pks + [k])
  {
    var kp := KeyList(prev);
    if k in KeysOf(prev) {
      AssignKeepsKeys(prev, k, v);
      OrderedLikeExtend(kp, pks, [k]);
    } else {
      AssignNewKey(prev, k, v);
      OrderedLikeSnoc(kp, pks, k);
    }
  }

  lemma AssignNewKey<K, V>(prev: seq<(K, V)>, k: K, v: V)
    requires DistinctKeys(prev) && k !in KeysOf(prev)
    ensures KeyList(Assign(prev, k, v)) == KeyList(prev) + [k]
  {
    assert Assign(prev, k, v) == prev + [(k, v)];
    KeyListAppendOne(prev, (k, v));
  }

  lemma KeyListAppendOne<K, V>(pairs: seq<(K, V)>, p: (K, V))
    ensures KeyList(pairs + [p]) == KeyList(pairs) + [p.0]
  {
    assert (pairs + [p])[..|pairs|] == pairs;
    KeyListSnoc(pairs + [p]);
  }

  /** The last pair of a list with distinct keys is new to the rest. */
  lemma DistinctKeysSnoc<K, V>(pairs: seq<(K, V)>)
    requires DistinctKeys(pairs) && |pairs| > 0
    ensures DistinctKeys(pairs[..|pairs| - 1])
    ensures pairs[|pairs| - 1].0 !in KeysOf(pairs[..|pairs| - 1])
  {
    var n := |pairs| - 1;
    assert forall i :: 0 <= i < n ==> pairs[..n][i] == pairs[i];
  }

  /** With no key assigned twice, the items are the pairs themselves. */
  lemma {:induction false} ItemsOfDistinct<K, V>(pairs: seq<(K, V)>)
    requires DistinctKeys(pairs)
    ensures ItemsOf(pairs) == pairs
    decreases |pairs|
  {
    if |pairs| > 0 {
      var n := |pairs| - 1;
      DistinctKeysSnoc(pairs);
      ItemsOfDistinct(pairs[..n]);
      ItemsOfNewKey(pairs);
      SnocSplit(pairs);
    }
  }

  lemma SnocSplit<T>(s: seq<T>)
    requires |s| > 0
    ensures s == s[..|s| - 1] + [s[|s| - 1]]
  {
  }

  /** A key not assigned before is appended to the items. */
  lemma ItemsOfNewKey<K, V>(pairs: seq<(K, V)>)
    requires |pairs| > 0 && pairs[|pairs| - 1].0 !in KeysOf(pairs[..|pairs| - 1])
    ensures ItemsOf(pairs) == ItemsOf(pairs[..|pairs| - 1]) + [pairs[|pairs| - 1]]
  {
    var n := |pairs| - 1;
    assert ItemsOf(pairs) == Assign(ItemsOf(pairs[..n]), pairs[n].0, pairs[n].1);
  }

  /** `dict(zip(a, b))` lists its keys in the order of their first
      position in `a`, and is the zipped list itself when `a` has no
      repeats. */
  lemma ZipItemsOrder<A, B>(a: seq<A>, b: seq<B>)
    ensures OrderedLike(KeyList(ItemsOf(Zip(a, b))), a)
    ensures NoDups(a) ==> ItemsOf(Zip(a, b)) == Zip(a, b)
  {
    ZipKeyOrder(a, b);
    if NoDups(a) {
      ZipDistinct(a, b);
    }
  }

  lemma ZipKeyOrder<A, B>(a: seq<A>, b: seq<B>)
    ensures OrderedLike(KeyList(ItemsOf(Zip(a, b))), a)
  {
    var z := Zip(a, b);
    var n := Min(|a|, |b|);
    assert KeyList(z) == a[..n];
    ItemsOfOrder(z);
    KeyListKeys(z);
    KeyListKeys(ItemsOf(z));
    assert a == a[..n] + a[n..];
    OrderedLikeExtend(KeyList(ItemsOf(z)), a[..n], a[n..]);
  }

  lemma ZipDistinct<A, B>(a: seq<A>, b: seq<B>)
    requires NoDups(a)
    ensures ItemsOf(Zip(a, b)) == Zip(a, b)
  {
    var z := Zip(a, b);
    assert DistinctKeys(z) by {
      assert forall i :: 0 <= i < |z| ==> z[i].0 == a[i];
    }
    ItemsOfDistinct(z);
  }

  /** `{k: f(v) for k, v in d.items()}`. */
  function MapValues<K, V, W>(d: map<K, V>, f: V -> W): (r: map<K, W>)
    ensures r.Keys == d.Keys
    ensures forall k :: k in d ==> r[k] == f(d[k])
  {
    map k | k in d :: f(d[k])
  }

  /** `d[k] = f(d[k])`: only the value at `k` changes. */
  function UpdateAt<K, V>(d: map<K, V>, k: K, f: V -> V): (r: map<K, V>)
    requires k in d
    ensures r.Keys == d.Keys
    ensures r[k] == f(d[k])
    ensures forall j :: j in d && j != k ==> r[j] == d[j]
  {
    d[k := f(d[k])]
  }

  /** The item list and the plain map describe the same dictionary. */
  lemma {:induction false} ItemsOfMatchesDictOf<K, V>(pairs: seq<(K, V)>)
    ensures DictOf(ItemsOf(pairs)) == DictOf(pairs)
    decreases |pairs|
  {
    if |pairs| > 0 {
      var n := |pairs| - 1;
      ItemsOfMatchesDictOf(pairs[..n]);
      AssignDictOf(ItemsOf(pairs[..n]), pairs[n].0, pairs[n].1);
    }
  }

  lemma AssignDictOf<K, V>(items: seq<(K, V)>, k: K, v: V)
    requires DistinctKeys(items)
    ensures DictOf(Assign(items, k, v)) == DictOf(items)[k := v]
  {
    var r := Assign(items, k, v);
    var lhs := DictOf(r);
    var rhs := DictOf(items)[k := v];
    assert lhs.Keys == KeysOf(r) == KeysOf(items) + {k};
    assert rhs.Keys == DictOf(items).Keys + {k};
    forall key | key in lhs ensures key in rhs && lhs[key] == rhs[key] {
      AssignValue(items, k, v, key);
    }
  }

  lemma AssignValue<K, V>(items: seq<(K, V)>, k: K, v: V, key: K)
    requires DistinctKeys(items)
    requires key in KeysOf(Assign(items, k, v))
    ensures DictOf(Assign(items, k, v))[key] == DictOf(items)[k := v][key]
  {
    var r := Assign(items, k, v);
    var p :| p in r && p.0 == key;
    var i := IndexIn(r, p);
    DictOfDistinct(r, i);
    if p != (k, v) {
      var j := IndexIn(items, p);
      DictOfDistinct(items, j);
    }
  }
}
