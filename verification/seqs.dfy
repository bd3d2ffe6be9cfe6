/** Sequence helpers that mirror JavaScript's `Array.prototype.filter`,
    `Array.prototype.find` / `findIndex` and `slice(0, n)`. */
module Seqs {
  import opened Wrappers

  /** `s.filter(p)`: the elements of `s` satisfying `p`, in their original order. */
  function Filter<T>(s: seq<T>, p: T -> bool): (r: seq<T>)
    ensures |r| <= |s|
  {
    if s == [] then []
    else (if p(s[0]) then [s[0]] else []) + Filter(s[1..], p)
  }

  /** The filter keeps exactly the elements satisfying `p`, each as often as
      it occurs. Stated apart from `Filter` so that proofs about many filters
      at once are not swamped by these facts. */
  lemma FilterMembers<T>(s: seq<T>, p: T -> bool)
    ensures forall i :: 0 <= i < |Filter(s, p)| ==> Filter(s, p)[i] in s && p(Filter(s, p)[i])
    ensures forall i :: 0 <= i < |s| && p(s[i]) ==> s[i] in Filter(s, p)
    ensures multiset(Filter(s, p)) <= multiset(s)
  {
    FilterSound(s, p);
    FilterComplete(s, p);
    FilterSubMultiset(s, p);
  }

  lemma {:induction false} FilterSound<T>(s: seq<T>, p: T -> bool)
    ensures forall i :: 0 <= i < |Filter(s, p)| ==> Filter(s, p)[i] in s && p(Filter(s, p)[i])
  {
    if s != [] {
      var f, t := Filter(s, p), Filter(s[1..], p);
      var h: seq<T> := if p(s[0]) then [s[0]] else [];
      FilterSound(s[1..], p);
      assert f == h + t;
      forall i | 0 <= i < |f| ensures f[i] in s && p(f[i]) {
        if i >= |h| {
          assert f[i] == t[i - |h|];
          assert t[i - |h|] in s[1..];
        }
      }
    }
  }

  lemma {:induction false} FilterComplete<T>(s: seq<T>, p: T -> bool)
    ensures forall i :: 0 <= i < |s| && p(s[i]) ==> s[i] in Filter(s, p)
  {
    if s != [] {
      FilterComplete(s[1..], p);
      forall i | 0 <= i < |s| && p(s[i]) ensures s[i] in Filter(s, p) {
        if i > 0 {
          assert s[i] == s[1..][i - 1];
        }
      }
    }
  }

  lemma {:induction false} FilterSubMultiset<T>(s: seq<T>, p: T -> bool)
    ensures multiset(Filter(s, p)) <= multiset(s)
  {
    if s != [] {
      FilterSubMultiset(s[1..], p);
      assert s == [s[0]] + s[1..];
    }
  }

  /** Concatenation is associative; stated on its own so that proofs crowded
      with other facts about sequences do not have to rediscover it. */
  lemma ConcatAssoc<T>(a: seq<T>, b: seq<T>, c: seq<T>)
    ensures (a + b) + c == a + (b + c)
  {
  }

  /** A sequence is its prefix followed by the rest. */
  lemma SplitAt<T>(s: seq<T>, n: nat)
    requires n <= |s|
    ensures s[..n] + s[n..] == s
  {
  }

  /** Two appends in a row keep the original sequence as a prefix. */
  lemma AppendTwice<T>(a: seq<T>, b: seq<T>, c: seq<T>)
    requires |b| == |a| + 1 && b[..|a|] == a
    requires |c| == |b| + 1 && c[..|b|] == b
    ensures |c| == |a| + 2 && c[..|a|] == a && c[|a|] == b[|a|]
  {
    assert c[..|a|] == c[..|b|][..|a|];
  }

  /** Each part of a concatenation is a slice of it. */
  lemma AppendSlices<T>(a: seq<T>, b: seq<T>)
    ensures (a + b)[..|a|] == a && (a + b)[|a|..] == b
  {
  }

  lemma MiddleSlice<T>(a: seq<T>, b: seq<T>, c: seq<T>)
    ensures var r := a + b + c;
      r[..|a|] == a && r[|a|..|r| - |c|] == b && r[|r| - |c|..] == c
  {
  }

  /** Cutting out the element at `i` and putting it back rebuilds `s`. */
  lemma SplitAround<T>(s: seq<T>, i: nat)
    requires i < |s|
    ensures s[..i] + [s[i]] + s[i + 1..] == s
  {
    assert s[..i] + [s[i]] == s[..i + 1];
    SplitAt(s, i + 1);
  }

  /** Two cuts at separators, rebuilt in one go. */
  lemma JoinTwice<T>(s: seq<T>, a: seq<T>, rest: seq<T>, b: seq<T>, c: seq<T>, x: seq<T>)
    requires s == a + x + rest && rest == b + x + c
    ensures a + x + b + x + c == s
  {
    ConcatAssoc(a + x, b, x);
    ConcatAssoc(a + x, b + x, c);
  }

  /** Filtering distributes over concatenation, so relative order is kept. */
  lemma {:induction false} FilterConcat<T>(a: seq<T>, b: seq<T>, p: T -> bool)
    ensures Filter(a + b, p) == Filter(a, p) + Filter(b, p)
  {
    if a == [] {
      assert a + b == b;
    } else {
      var h := if p(a[0]) then [a[0]] else [];
      assert (a + b)[1..] == a[1..] + b;
      FilterConcat(a[1..], b, p);
      assert Filter(a + b, p) == h + Filter(a[1..] + b, p);
      ConcatAssoc(h, Filter(a[1..], p), Filter(b, p));
    }
  }

  /** Putting the same element in front of two sequences keeps an equation
      between their filters. */
  lemma FilterConsEqual<T>(x: T, a: seq<T>, b: seq<T>, extra: seq<T>, p: T -> bool)
    requires Filter(a, p) == Filter(b, p) + extra
    ensures Filter([x] + a, p) == Filter([x] + b, p) + extra
  {
    FilterConcat([x], a, p);
    FilterConcat([x], b, p);
    ConcatAssoc(Filter([x], p), Filter(b, p), extra);
  }

  /** A filter that keeps everything is the identity. */
  lemma {:induction false} FilterKeepsAll<T>(s: seq<T>, p: T -> bool)
    requires forall i :: 0 <= i < |s| ==> p(s[i])
    ensures Filter(s, p) == s
  {
    if s != [] {
      FilterKeepsAll(s[1..], p);
    }
  }

  /** Filtering by `p` and by its negation splits `s` into two parts whose
      sizes add up and whose elements together are exactly those of `s`. */
  lemma {:induction false} FilterPartition<T>(s: seq<T>, p: T -> bool, q: T -> bool)
    requires forall x :: q(x) == !p(x)
    ensures |Filter(s, p)| + |Filter(s, q)| == |s|
    ensures multiset(Filter(s, p)) + multiset(Filter(s, q)) == multiset(s)
  {
    if s != [] {
      FilterPartition(s[1..], p, q);
      assert s == [s[0]] + s[1..];
    }
  }

  /** The number of elements of `s` satisfying `p`. */
  function Count<T>(s: seq<T>, p: T -> bool): (n: nat)
    ensures n <= |s|
    ensures n == 0 <==> forall i :: 0 <= i < |s| ==> !p(s[i])
  {
    if s == [] then 0
    else (if p(s[0]) then 1 else 0) + Count(s[1..], p)
  }

  /** The filter keeps exactly `Count` elements. */
  lemma {:induction false} FilterCount<T>(s: seq<T>, p: T -> bool)
    ensures |Filter(s, p)| == Count(s, p)
  {
    if s != [] {
      FilterCount(s[1..], p);
    }
  }

  /** `s.findIndex(p)`, with -1 written as None: the least index whose element
      satisfies `p`. */
  function FirstIndex<T>(s: seq<T>, p: T -> bool): (r: Option<nat>)
    ensures r.Some? ==> r.value < |s| && p(s[r.value])
    ensures r.Some? ==> forall j :: 0 <= j < r.value ==> !p(s[j])
    ensures r.None? <==> forall j :: 0 <= j < |s| ==> !p(s[j])
  {
    if s == [] then None
    else if p(s[0]) then Some(0)
    else match FirstIndex(s[1..], p)
      case None => None
      case Some(i) => Some(i + 1)
  }

  /** Two sequences on which `p` agrees position by position have the same
      first match. */
  lemma FirstIndexAgree<T>(a: seq<T>, b: seq<T>, p: T -> bool)
    requires |a| == |b|
    requires forall i :: 0 <= i < |a| ==> p(a[i]) == p(b[i])
    ensures FirstIndex(a, p) == FirstIndex(b, p)
  {
    var x, y := FirstIndex(a, p), FirstIndex(b, p);
    if x.Some? {
      assert p(b[x.value]);
    }
    if y.Some? {
      assert p(a[y.value]);
    }
    if x.Some? && y.Some? {
      assert !(x.value < y.value) && !(y.value < x.value);
    }
  }

  /** `s.slice(0, n)`: the first `n` elements, or all of them when fewer. */
  function Take<T>(s: seq<T>, n: nat): (r: seq<T>)
    ensures |r| == if n < |s| then n else |s|
    ensures forall i :: 0 <= i < |r| ==> r[i] == s[i]
  {
    if n < |s| then s[..n] else s
  }

  /** Filtering the first `n` elements gives a prefix of filtering them
      all. */
  lemma FilterTakePrefix<T>(s: seq<T>, n: nat, p: T -> bool)
    ensures var f := Filter(Take(s, n), p);
      |f| <= |Filter(s, p)| && f == Filter(s, p)[..|f|]
  {
    var t := Take(s, n);
    assert s == t + s[|t|..];
    FilterConcat(t, s[|t|..], p);
  }

  /** `sub` occurs in `s` in order, possibly with other elements in between. */
  predicate IsSubsequence<T(==)>(sub: seq<T>, s: seq<T>)
    decreases |s|
  {
    if sub == [] then true
    else if s == [] then false
    else if sub[0] == s[0] then IsSubsequence(sub[1..], s[1..])
    else IsSubsequence(sub, s[1..])
  }

  /** Every sequence is a subsequence of itself followed by anything. */
  lemma {:induction false} SubsequenceAppend<T>(a: seq<T>, b: seq<T>, c: seq<T>)
    requires IsSubsequence(a, b)
    ensures IsSubsequence(a, b + c)
    decreases |b|
  {
    if a == [] {
    } else if b == [] {
    } else {
      assert (b + c)[1..] == b[1..] + c;
      if a[0] == b[0] {
        SubsequenceAppend(a[1..], b[1..], c);
      } else {
        SubsequenceAppend(a, b[1..], c);
      }
    }
  }

  lemma {:induction false} SubsequenceRefl<T>(a: seq<T>)
    ensures IsSubsequence(a, a)
  {
    if a != [] {
      SubsequenceRefl(a[1..]);
    }
  }

  /** A filter keeps the survivors in their original relative order. */
  lemma {:induction false} FilterIsSubsequence<T>(s: seq<T>, p: T -> bool)
    ensures IsSubsequence(Filter(s, p), s)
  {
    if s != [] {
      FilterIsSubsequence(s[1..], p);
      var f := Filter(s[1..], p);
      if p(s[0]) {
        assert Filter(s, p) == [s[0]] + f;
        assert ([s[0]] + f)[1..] == f;
      } else {
        assert Filter(s, p) == f;
        SubsequenceSkip(f, s);
      }
    }
  }

  lemma SubsequenceSkip<T>(a: seq<T>, s: seq<T>)
    requires s != [] && IsSubsequence(a, s[1..])
    ensures IsSubsequence(a, s)
    decreases |s|, 0
  {
    if a != [] && a[0] == s[0] {
      SubsequenceTail(a, s[1..]);
    }
  }

  /** Dropping the head of a subsequence keeps it a subsequence. */
  lemma {:induction false} SubsequenceTail<T>(a: seq<T>, s: seq<T>)
    requires a != [] && IsSubsequence(a, s)
    ensures IsSubsequence(a[1..], s)
    decreases |s|, 1
  {
    assert s != [];
    if a[0] == s[0] {
      SubsequenceSkip(a[1..], s);
    } else {
      SubsequenceTail(a, s[1..]);
      SubsequenceSkip(a[1..], s);
    }
  }

  /** A block that starts with `x` followed by a sequence containing `a`
      contains `x` followed by `a`. */
  lemma SubsequenceBlock<T>(x: T, a: seq<T>, block: seq<T>, s: seq<T>)
    requires block != [] && block[0] == x
    requires IsSubsequence(a, s)
    ensures IsSubsequence([x] + a, block + s)
  {
    assert ([x] + a)[1..] == a;
    assert (block + s)[1..] == block[1..] + s;
    SubsequencePrefix(a, block[1..], s);
  }

  /** The same, for a sequence taken apart into its head and tail. */
  lemma SubsequenceBlockCons<T>(a: seq<T>, block: seq<T>, s: seq<T>)
    requires a != [] && block != [] && block[0] == a[0]
    requires IsSubsequence(a[1..], s)
    ensures IsSubsequence(a, block + s)
  {
    assert (block + s)[1..] == block[1..] + s;
    SubsequencePrefix(a[1..], block[1..], s);
  }

  /** Putting anything in front keeps a subsequence. */
  lemma {:induction false} SubsequencePrefix<T>(a: seq<T>, p: seq<T>, s: seq<T>)
    requires IsSubsequence(a, s)
    ensures IsSubsequence(a, p + s)
    decreases |p|
  {
    if p != [] {
      SubsequencePrefix(a, p[1..], s);
      assert (p + s)[1..] == p[1..] + s;
      SubsequenceSkip(a, p + s);
    } else {
      assert p + s == s;
    }
  }
}
