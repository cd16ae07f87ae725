/** Sequence helpers standing in for the JavaScript array methods the source
    chains together: `filter`, `find`, `slice(0, n)` and dropping `null`s. */
module Util {

  datatype Option<T> = None | Some(value: T)

  /** `xs` occurs in `ys` in order, possibly with gaps. */
  predicate IsSubseq<T(==)>(xs: seq<T>, ys: seq<T>)
    decreases |ys|
  {
    xs == [] ||
    (ys != [] && ((xs[0] == ys[0] && IsSubseq(xs[1..], ys[1..])) || IsSubseq(xs, ys[1..])))
  }

  /** `Array.prototype.filter`: the elements satisfying `p`, in order. */
  function Filter<T>(xs: seq<T>, p: T -> bool): (r: seq<T>)
    ensures |r| <= |xs|
    ensures forall x :: x in r ==> x in xs && p(x)
  {
    if xs == [] then []
    else if p(xs[0]) then [xs[0]] + Filter(xs[1..], p)
    else Filter(xs[1..], p)
  }

  /** `Array.prototype.find`: the first element satisfying `p`, if any. */
  function Find<T>(xs: seq<T>, p: T -> bool): (r: Option<T>)
    ensures r.None? <==> forall x :: x in xs ==> !p(x)
    ensures r.Some? ==>
              exists i :: 0 <= i < |xs| && xs[i] == r.value && p(xs[i]) && forall j :: 0 <= j < i ==> !p(xs[j])
  {
    if xs == [] then None
    else if p(xs[0]) then Some(xs[0])
    else
      var r := Find(xs[1..], p);
      assert forall j :: 0 < j < |xs| ==> xs[j] == xs[1..][j - 1];
      r
  }

  /** `slice(0, n)`: at most the first `n` elements. */
  function FirstN<T>(xs: seq<T>, n: nat): (r: seq<T>)
    ensures |r| <= n && r <= xs
    ensures |xs| <= n ==> r == xs
  {
    if |xs| <= n then xs else xs[..n]
  }

  /** The values of the `Some` entries, in order (the `null`s are dropped). */
  function Somes<T>(xs: seq<Option<T>>): (r: seq<T>)
    ensures |r| <= |xs|
    ensures forall x :: x in r ==> Some(x) in xs
  {
    if xs == [] then []
    else if xs[0].Some? then [xs[0].value] + Somes(xs[1..])
    else Somes(xs[1..])
  }

  function Map<T, U>(xs: seq<T>, f: T -> U): (r: seq<U>)
    ensures |r| == |xs|
    ensures forall i :: 0 <= i < |xs| ==> r[i] == f(xs[i])
  {
    seq(|xs|, i requires 0 <= i < |xs| => f(xs[i]))
  }

  /** Filtering keeps order: the result is a subsequence of the input. */
  lemma {:induction false} FilterIsSubseq<T>(xs: seq<T>, p: T -> bool)
    ensures IsSubseq(Filter(xs, p), xs)
    decreases |xs|
  {
    if xs != [] {
      FilterIsSubseq(xs[1..], p);
    }
  }

  /** Filtering keeps every element satisfying `p` exactly as often as it
      occurs, and drops every other element. */
  lemma {:induction false} FilterCounts<T>(xs: seq<T>, p: T -> bool)
    ensures forall x :: multiset(Filter(xs, p))[x] == if p(x) then multiset(xs)[x] else 0
    decreases |xs|
  {
    if xs != [] {
      FilterCounts(xs[1..], p);
      assert xs == [xs[0]] + xs[1..];
    }
  }

  /** A prefix of a subsequence is a subsequence. */
  lemma {:induction false} PrefixOfSubseq<T>(xs: seq<T>, ys: seq<T>, n: nat)
    requires IsSubseq(xs, ys) && n <= |xs|
    ensures IsSubseq(xs[..n], ys)
    decreases |ys|
  {
    if n == 0 {
    } else if xs[0] == ys[0] && IsSubseq(xs[1..], ys[1..]) {
      PrefixOfSubseq(xs[1..], ys[1..], n - 1);
      assert xs[..n][1..] == xs[1..][..n - 1];
    } else {
      PrefixOfSubseq(xs, ys[1..], n);
    }
  }

  /** Subsequence is transitive. */
  lemma {:induction false} SubseqTrans<T>(xs: seq<T>, ys: seq<T>, zs: seq<T>)
    requires IsSubseq(xs, ys) && IsSubseq(ys, zs)
    ensures IsSubseq(xs, zs)
    decreases |zs|
  {
    if xs == [] {
    } else if ys[0] == zs[0] && IsSubseq(ys[1..], zs[1..]) {
      if xs[0] == ys[0] && IsSubseq(xs[1..], ys[1..]) {
        SubseqTrans(xs[1..], ys[1..], zs[1..]);
      } else {
        SubseqTrans(xs, ys[1..], zs[1..]);
      }
    } else {
      SubseqTrans(xs, ys, zs[1..]);
    }
  }

  /** Dropping `None`s keeps order. */
  lemma {:induction false} SomesOrder<T>(xs: seq<Option<T>>)
    ensures IsSubseq(Map(Somes(xs), (x: T) => Some(x)), xs)
    decreases |xs|
  {
    if xs != [] {
      SomesOrder(xs[1..]);
      var tail := Map(Somes(xs[1..]), (x: T) => Some(x));
      var m := Map(Somes(xs), (x: T) => Some(x));
      if xs[0].Some? {
        assert m == [xs[0]] + tail;
        assert m[0] == xs[0] && m[1..] == tail;
      } else {
        assert m == tail;
      }
    }
  }

  /** `filter(p).slice(0, n)`: at most `n` elements, all satisfying `p`, in
      their original order; when fewer than `n` are kept, every element
      satisfying `p` is among them. */
  lemma FirstNFiltered<T>(xs: seq<T>, p: T -> bool, n: nat)
    ensures var r := FirstN(Filter(xs, p), n);
            |r| <= n
            && (forall x :: x in r ==> p(x))
            && IsSubseq(r, xs)
            && (|r| < n ==> forall x :: x in xs && p(x) ==> x in r)
  {
    var f := Filter(xs, p);
    var r := FirstN(f, n);
    FilterIsSubseq(xs, p);
    PrefixOfSubseq(f, xs, |r|);
    assert r == f[..|r|];
    FilterCounts(xs, p);
    forall x | x in r ensures p(x) {
      assert x in f;
    }
    if |r| < n {
      forall x | x in xs && p(x) ensures x in r {
        assert multiset(f)[x] == multiset(xs)[x] > 0;
      }
    }
  }

  /** `filter(p).slice(0, k)` is the filter of a prefix of `xs`: the first
      `k` elements satisfying `p`, with multiplicity. When fewer than `k` are
      kept, that prefix is all of `xs`. */
  lemma FirstNFilteredPrefix<T>(xs: seq<T>, p: T -> bool, k: nat)
    ensures exists n :: 0 <= n <= |xs| && FirstN(Filter(xs, p), k) == Filter(xs[..n], p)
                        && (|FirstN(Filter(xs, p), k)| < k ==> n == |xs|)
  {
    var n := FirstNFilteredCut(xs, p, k);
  }

  /** The length of the prefix in `FirstNFilteredPrefix`. */
  lemma {:induction false} FirstNFilteredCut<T>(xs: seq<T>, p: T -> bool, k: nat) returns (n: nat)
    ensures n <= |xs| && FirstN(Filter(xs, p), k) == Filter(xs[..n], p)
    ensures |FirstN(Filter(xs, p), k)| < k ==> n == |xs|
    decreases |xs|
  {
    if xs == [] {
      n := 0;
      assert xs[..0] == xs;
    } else if k == 0 {
      n := 0;
      assert xs[..0] == [];
    } else {
      var rest := xs[1..];
      var m: nat;
      if p(xs[0]) {
        m := FirstNFilteredCut(rest, p, k - 1);
        assert FirstN(Filter(xs, p), k) == [xs[0]] + FirstN(Filter(rest, p), k - 1);
      } else {
        m := FirstNFilteredCut(rest, p, k);
      }
      n := m + 1;
      assert xs[..n][1..] == rest[..m];
      assert xs[..n][0] == xs[0];
    }
  }

  /** `Find` returns the first element that satisfies `p`. */
  lemma FindFirst<T>(xs: seq<T>, p: T -> bool, i: nat)
    requires i < |xs| && p(xs[i]) && forall j :: 0 <= j < i ==> !p(xs[j])
    ensures Find(xs, p) == Some(xs[i])
  {
    assert xs[i] in xs;
    var k :| 0 <= k < |xs| && xs[k] == Find(xs, p).value && p(xs[k]) && forall j :: 0 <= j < k ==> !p(xs[j]);
    assert k == i;
  }

  /** Dropping `None`s keeps each value as often as it occurs wrapped. */
  lemma {:induction false} SomesCounts<T>(xs: seq<Option<T>>)
    ensures forall x :: multiset(Somes(xs))[x] == multiset(xs)[Some(x)]
    decreases |xs|
  {
    if xs != [] {
      SomesCounts(xs[1..]);
      assert xs == [xs[0]] + xs[1..];
    }
  }

  /** Filtering distributes over concatenation. */
  lemma {:induction false} FilterAppend<T>(xs: seq<T>, ys: seq<T>, p: T -> bool)
    ensures Filter(xs + ys, p) == Filter(xs, p) + Filter(ys, p)
    decreases |xs|
  {
    if xs == [] {
      assert xs + ys == ys;
    } else {
      assert (xs + ys)[1..] == xs[1..] + ys;
      FilterAppend(xs[1..], ys, p);
    }
  }
}
