/**
  The two de-duplications of the crawler, over any sequence and any key:
  keeping the first element of each key (`extract_pdf_links`, which skips a
  link whose URL it has already seen) and keeping the last element of each
  key at the position where the key first appeared (`parse_list`, which
  stores every post in a dict under its id).
 */
module Dedup {
  import opened Wrappers

  /** Position of the first element of `xs` with key `k`, or `|xs|`. */
  function FirstIndex<T, K(==)>(xs: seq<T>, key: T -> K, k: K): (i: nat)
    ensures i <= |xs|
    ensures i < |xs| ==> key(xs[i]) == k
    ensures forall j :: 0 <= j < i ==> key(xs[j]) != k
  {
    if |xs| == 0 then 0
    else if key(xs[0]) == k then 0
    else 1 + FirstIndex(xs[1..], key, k)
  }

  /** The last element of `xs` with key `k`, if any. */
  function LastWith<T, K(==)>(xs: seq<T>, key: T -> K, k: K): (r: Option<T>)
    ensures r.Some? ==> key(r.value) == k
  {
    if |xs| == 0 then None
    else if key(xs[|xs| - 1]) == k then Some(xs[|xs| - 1])
    else LastWith(xs[..|xs| - 1], key, k)
  }

  predicate KeysUnique<T, K(==)>(xs: seq<T>, key: T -> K) {
    forall i, j :: 0 <= i < j < |xs| ==> key(xs[i]) != key(xs[j])
  }

  /** Appending an element changes the first position of a key only when
      the key was absent. */
  lemma FirstIndexSnoc<T, K>(xs: seq<T>, x: T, key: T -> K, k: K)
    ensures FirstIndex(xs + [x], key, k) ==
              if FirstIndex(xs, key, k) < |xs| then FirstIndex(xs, key, k)
              else if key(x) == k then |xs| else |xs| + 1
  {
    var i := FirstIndex(xs + [x], key, k);
    var i0 := FirstIndex(xs, key, k);
    assert forall j :: 0 <= j < |xs| ==> (xs + [x])[j] == xs[j];
    assert (xs + [x])[|xs|] == x;
    assert i0 < |xs| ==> i <= i0;
    assert i < |xs| ==> i0 <= i;
  }

  /** The first position of a key depends on the keys alone. */
  lemma {:induction false} FirstIndexKeys<T, U, K>(a: seq<T>, ka: T -> K, b: seq<U>, kb: U -> K, k: K)
    requires |a| == |b|
    requires forall i :: 0 <= i < |a| ==> ka(a[i]) == kb(b[i])
    ensures FirstIndex(a, ka, k) == FirstIndex(b, kb, k)
    decreases |a|
  {
    if |a| > 0 && ka(a[0]) != k {
      assert forall i :: 0 <= i < |a| - 1 ==> ka(a[1..][i]) == ka(a[i + 1]) && kb(b[1..][i]) == kb(b[i + 1]);
      FirstIndexKeys(a[1..], ka, b[1..], kb, k);
    }
  }

  /** The elements whose key was not seen before, in order: a scan with a
      set of seen keys. */
  function KeepFirst<T, K(==)>(xs: seq<T>, key: T -> K): (r: seq<T>)
    ensures |r| <= |xs|
    decreases |xs|
  {
    if |xs| == 0 then []
    else
      var r := KeepFirst(xs[..|xs| - 1], key);
      var x := xs[|xs| - 1];
      if FirstIndex(r, key, key(x)) < |r| then r else r + [x]
  }

  /** Every key of the input is kept. */
  lemma {:induction false} KeepFirstCovers<T, K>(xs: seq<T>, key: T -> K)
    ensures forall k :: 0 <= k < |xs| ==> FirstIndex(KeepFirst(xs, key), key, key(xs[k])) < |KeepFirst(xs, key)|
    decreases |xs|
  {
    if |xs| > 0 {
      var p := xs[..|xs| - 1];
      var x := xs[|xs| - 1];
      var r := KeepFirst(p, key);
      KeepFirstCovers(p, key);
      forall k | 0 <= k < |xs|
        ensures FirstIndex(KeepFirst(xs, key), key, key(xs[k])) < |KeepFirst(xs, key)|
      {
        FirstIndexSnoc(r, x, key, key(xs[k]));
        if k < |p| {
          assert xs[k] == p[k];
        }
      }
    }
  }

  /** No key is kept twice. */
  lemma {:induction false} KeepFirstUnique<T, K>(xs: seq<T>, key: T -> K)
    ensures KeysUnique(KeepFirst(xs, key), key)
    decreases |xs|
  {
    if |xs| > 0 {
      KeepFirstUnique(xs[..|xs| - 1], key);
    }
  }

  /** Each kept element is the first element of the input with its key. */
  lemma {:induction false} KeepFirstIsFirst<T, K>(xs: seq<T>, key: T -> K)
    ensures forall i :: 0 <= i < |KeepFirst(xs, key)| ==>
              var r := KeepFirst(xs, key);
              FirstIndex(xs, key, key(r[i])) < |xs| && r[i] == xs[FirstIndex(xs, key, key(r[i]))]
    decreases |xs|
  {
    if |xs| > 0 {
      var p := xs[..|xs| - 1];
      var x := xs[|xs| - 1];
      assert xs == p + [x];
      var r := KeepFirst(p, key);
      KeepFirstIsFirst(p, key);
      KeepFirstCovers(p, key);
      var out := KeepFirst(xs, key);
      forall i | 0 <= i < |out|
        ensures FirstIndex(xs, key, key(out[i])) < |xs| && out[i] == xs[FirstIndex(xs, key, key(out[i]))]
      {
        FirstIndexSnoc(p, x, key, key(out[i]));
        if i < |r| {
          assert out[i] == r[i];
        }
      }
    }
  }

  /** Kept elements appear in the order their keys first appear. */
  lemma {:induction false} KeepFirstOrder<T, K>(xs: seq<T>, key: T -> K)
    ensures forall i, j :: 0 <= i < j < |KeepFirst(xs, key)| ==>
              var r := KeepFirst(xs, key);
              FirstIndex(xs, key, key(r[i])) < FirstIndex(xs, key, key(r[j]))
    decreases |xs|
  {
    if |xs| > 0 {
      var p := xs[..|xs| - 1];
      var x := xs[|xs| - 1];
      assert xs == p + [x];
      var r := KeepFirst(p, key);
      KeepFirstOrder(p, key);
      KeepFirstIsFirst(p, key);
      KeepFirstCovers(p, key);
      var out := KeepFirst(xs, key);
      forall i, j | 0 <= i < j < |out|
        ensures FirstIndex(xs, key, key(out[i])) < FirstIndex(xs, key, key(out[j]))
      {
        assert out[i] == r[i];
        FirstIndexSnoc(p, x, key, key(r[i]));
        if j < |r| {
          assert out[j] == r[j];
          FirstIndexSnoc(p, x, key, key(r[j]));
        } else {
          assert out[j] == x;
          KeepFirstAbsent(p, key, key(x));
          FirstIndexSnoc(p, x, key, key(x));
        }
      }
    }
  }

  /** A key that was not kept does not occur in the input. */
  lemma KeepFirstAbsent<T, K>(xs: seq<T>, key: T -> K, k: K)
    requires FirstIndex(KeepFirst(xs, key), key, k) == |KeepFirst(xs, key)|
    ensures FirstIndex(xs, key, k) == |xs|
  {
    KeepFirstCovers(xs, key);
  }
  /** Insert-or-replace by key, as assigning `d[key(x)] = x` in a Python
      dict does: a new key goes to the end, an existing one keeps its place. */
  function Upsert<T, K(==)>(acc: seq<T>, x: T, key: T -> K): (r: seq<T>)
    ensures FirstIndex(acc, key, key(x)) < |acc| ==> r == acc[FirstIndex(acc, key, key(x)) := x]
    ensures FirstIndex(acc, key, key(x)) == |acc| ==> r == acc + [x]
  {
    var i := FirstIndex(acc, key, key(x));
    if i == |acc| then acc + [x] else acc[i := x]
  }

  /** What `d[key(x)] = x` does to the dict's entries: every key keeps its
      place, the key of `x` is appended exactly when it is new, an entry of
      another key is untouched, and `x` is stored. */
  lemma UpsertSpec<T, K>(acc: seq<T>, x: T, key: T -> K)
    ensures var r := Upsert(acc, x, key);
            && (|r| == |acc| <==> exists m :: 0 <= m < |acc| && key(acc[m]) == key(x))
            && (|r| == |acc| || (|r| == |acc| + 1 && r[|acc|] == x))
            && (forall m :: 0 <= m < |acc| ==> key(r[m]) == key(acc[m]))
            && (forall m :: 0 <= m < |acc| && key(acc[m]) != key(x) ==> r[m] == acc[m])
            && x in r
  {
    var i := FirstIndex(acc, key, key(x));
    if i < |acc| {
      assert Upsert(acc, x, key)[i] == x;
    }
  }

  /** The values of a dict filled from `xs` in order. */
  function KeepLast<T, K(==)>(xs: seq<T>, key: T -> K): seq<T>
    decreases |xs|
  {
    if |xs| == 0 then []
    else Upsert(KeepLast(xs[..|xs| - 1], key), xs[|xs| - 1], key)
  }

  /** Both de-duplications keep the same keys in the same order; they differ
      only in which element of a key they keep. */
  lemma {:induction false} KeepLastKeys<T, K>(xs: seq<T>, key: T -> K)
    ensures |KeepLast(xs, key)| == |KeepFirst(xs, key)|
    ensures forall i :: 0 <= i < |KeepLast(xs, key)| ==> key(KeepLast(xs, key)[i]) == key(KeepFirst(xs, key)[i])
    decreases |xs|
  {
    if |xs| > 0 {
      var p := xs[..|xs| - 1];
      var x := xs[|xs| - 1];
      var rl := KeepLast(p, key);
      var rf := KeepFirst(p, key);
      KeepLastKeys(p, key);
      FirstIndexKeys(rl, key, rf, key, key(x));
      var i := FirstIndex(rl, key, key(x));
      if i < |rl| {
        assert forall m :: 0 <= m < |rl| ==> key(rl[i := x][m]) == key(rl[m]);
      } else {
        assert forall m :: 0 <= m < |rl| ==> (rl + [x])[m] == rl[m] && (rf + [x])[m] == rf[m];
      }
    }
  }

  /** No key is kept twice by the dict. */
  lemma KeepLastUnique<T, K>(xs: seq<T>, key: T -> K)
    ensures KeysUnique(KeepLast(xs, key), key)
  {
    KeepLastKeys(xs, key);
    KeepFirstUnique(xs, key);
  }

  /** Every key of the input is in the dict. */
  lemma KeepLastCovers<T, K>(xs: seq<T>, key: T -> K)
    ensures forall k :: 0 <= k < |xs| ==> FirstIndex(KeepLast(xs, key), key, key(xs[k])) < |KeepLast(xs, key)|
  {
    KeepLastKeys(xs, key);
    KeepFirstCovers(xs, key);
    forall k | 0 <= k < |xs|
      ensures FirstIndex(KeepLast(xs, key), key, key(xs[k])) < |KeepLast(xs, key)|
    {
      FirstIndexKeys(KeepLast(xs, key), key, KeepFirst(xs, key), key, key(xs[k]));
    }
  }

  /** The dict lists its keys in the order they first appear. */
  lemma KeepLastOrder<T, K>(xs: seq<T>, key: T -> K)
    ensures forall i, j :: 0 <= i < j < |KeepLast(xs, key)| ==>
              var r := KeepLast(xs, key);
              FirstIndex(xs, key, key(r[i])) < FirstIndex(xs, key, key(r[j]))
  {
    KeepLastKeys(xs, key);
    KeepFirstOrder(xs, key);
  }

  /** Each value in the dict is the last element of the input with its key. */
  lemma {:induction false} KeepLastIsLast<T, K>(xs: seq<T>, key: T -> K)
    ensures forall i :: 0 <= i < |KeepLast(xs, key)| ==>
              LastWith(xs, key, key(KeepLast(xs, key)[i])) == Some(KeepLast(xs, key)[i])
    decreases |xs|
  {
    if |xs| > 0 {
      var p := xs[..|xs| - 1];
      var x := xs[|xs| - 1];
      var rl := KeepLast(p, key);
      KeepLastIsLast(p, key);
      KeepLastUnique(p, key);
      var out := KeepLast(xs, key);
      var m := FirstIndex(rl, key, key(x));
      forall i | 0 <= i < |out|
        ensures LastWith(xs, key, key(out[i])) == Some(out[i])
      {
        if i != m {
          assert out[i] == rl[i];
          assert key(rl[i]) != key(x);
        }
      }
    }
  }

  /** Without repeated keys, the last element's key is new to the elements
      before it, which have no repeated keys either. */
  lemma UniqueInit<T, K>(xs: seq<T>, key: T -> K)
    requires KeysUnique(xs, key) && |xs| > 0
    ensures KeysUnique(xs[..|xs| - 1], key)
    ensures FirstIndex(xs[..|xs| - 1], key, key(xs[|xs| - 1])) == |xs| - 1
  {
    var p := xs[..|xs| - 1];
    assert forall j :: 0 <= j < |p| ==> p[j] == xs[j];
    assert forall j :: 0 <= j < |p| ==> key(p[j]) != key(xs[|xs| - 1]);
  }

  lemma {:induction false} UniqueKeepFirst<T, K>(xs: seq<T>, key: T -> K)
    requires KeysUnique(xs, key)
    ensures KeepFirst(xs, key) == xs
    decreases |xs|
  {
    if |xs| > 0 {
      UniqueInit(xs, key);
      UniqueKeepFirst(xs[..|xs| - 1], key);
      assert xs == xs[..|xs| - 1] + [xs[|xs| - 1]];
    }
  }

  lemma {:induction false} UniqueKeepLast<T, K>(xs: seq<T>, key: T -> K)
    requires KeysUnique(xs, key)
    ensures KeepLast(xs, key) == xs
    decreases |xs|
  {
    if |xs| > 0 {
      UniqueInit(xs, key);
      UniqueKeepLast(xs[..|xs| - 1], key);
      assert xs == xs[..|xs| - 1] + [xs[|xs| - 1]];
    }
  }

  /** Without repeated keys both de-duplications change nothing. */
  lemma UniqueUnchanged<T, K>(xs: seq<T>, key: T -> K)
    requires KeysUnique(xs, key)
    ensures KeepFirst(xs, key) == xs
    ensures KeepLast(xs, key) == xs
  {
    UniqueKeepFirst(xs, key);
    UniqueKeepLast(xs, key);
  }

  /** A position at which `x` occurs in `xs`. */
  function PositionOf<T(==)>(xs: seq<T>, x: T): (m: nat)
    requires x in xs
    ensures m < |xs| && xs[m] == x
  {
    if xs[0] == x then 0 else 1 + PositionOf(xs[1..], x)
  }

  /** The present results of `f` over `xs`, in order (a loop that appends
      what passes its checks). */
  function Collect<A, B>(xs: seq<A>, f: A -> Option<B>): (ys: seq<B>)
    ensures |ys| <= |xs|
    ensures forall i :: 0 <= i < |ys| ==> exists k :: 0 <= k < |xs| && f(xs[k]) == Some(ys[i])
    ensures forall k :: 0 <= k < |xs| && f(xs[k]).Some? ==> f(xs[k]).value in ys
    decreases |xs|
  {
    if |xs| == 0 then []
    else
      var rest := Collect(xs[1..], f);
      assert forall k :: 1 <= k < |xs| ==> xs[k] == xs[1..][k - 1];
      match f(xs[0])
      case Some(y) =>
        assert forall i :: 1 <= i < |[y] + rest| ==> ([y] + rest)[i] == rest[i - 1];
        [y] + rest
      case None => rest
  }

  /** `Collect` over a single element keeps its result when there is one. */
  lemma CollectOne<A, B>(x: A, f: A -> Option<B>)
    ensures Collect([x], f) == if f(x).Some? then [f(x).value] else []
  {
    assert [x][1..] == [];
  }

  /** Collecting a concatenation collects each part in turn: the loop that
      builds the list only appends. */
  lemma {:induction false} CollectAppend<A, B>(xs: seq<A>, ys: seq<A>, f: A -> Option<B>)
    ensures Collect(xs + ys, f) == Collect(xs, f) + Collect(ys, f)
    decreases |xs|
  {
    if |xs| == 0 {
      assert xs + ys == ys;
    } else {
      assert (xs + ys)[1..] == xs[1..] + ys;
      assert (xs + ys)[0] == xs[0];
      CollectAppend(xs[1..], ys, f);
    }
  }
}
