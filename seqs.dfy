/** `Array.prototype.filter` and `flatMap`-style helpers over sequences, with
    the facts the catalogue and gallery proofs use: a filter keeps exactly
    the elements that pass, in order, as a subsequence; two complementary
    filters partition the input. */
module Seqs {

  /** `s.filter(p)`. */
  function Filter<T>(s: seq<T>, p: T -> bool): (r: seq<T>)
    ensures |r| <= |s|
    ensures forall i :: 0 <= i < |r| ==> r[i] in s && p(r[i])
    ensures forall i :: 0 <= i < |s| && p(s[i]) ==> s[i] in r
  {
    if s == [] then [] else (if p(s[0]) then [s[0]] else []) + Filter(s[1..], p)
  }

  /** `a` is an order-preserving subsequence of `b`. */
  predicate IsSubseq<T(==)>(a: seq<T>, b: seq<T>)
    decreases |b|
  {
    if a == [] then true
    else if b == [] then false
    else (a[0] == b[0] && IsSubseq(a[1..], b[1..])) || IsSubseq(a, b[1..])
  }

  lemma {:induction false} FilterIsSubseq<T>(s: seq<T>, p: T -> bool)
    ensures IsSubseq(Filter(s, p), s)
    decreases |s|
  {
    if s != [] {
      FilterIsSubseq(s[1..], p);
      var r := Filter(s, p);
      if p(s[0]) {
        assert r[0] == s[0] && r[1..] == Filter(s[1..], p);
      } else {
        assert r == Filter(s[1..], p);
        if r != [] {
          assert IsSubseq(r, s[1..]);
        }
      }
    }
  }

  lemma {:induction false} SubseqTransitive<T>(a: seq<T>, b: seq<T>, c: seq<T>)
    requires IsSubseq(a, b) && IsSubseq(b, c)
    ensures IsSubseq(a, c)
    decreases |c|
  {
    if a != [] {
      assert b != [] && c != [];
      if b[0] == c[0] && IsSubseq(b[1..], c[1..]) {
        if a[0] == b[0] && IsSubseq(a[1..], b[1..]) {
          SubseqTransitive(a[1..], b[1..], c[1..]);
        } else {
          SubseqTransitive(a, b[1..], c[1..]);
        }
      } else {
        SubseqTransitive(a, b, c[1..]);
      }
    }
  }

  lemma {:induction false} FilterConcat<T>(a: seq<T>, b: seq<T>, p: T -> bool)
    ensures Filter(a + b, p) == Filter(a, p) + Filter(b, p)
    decreases |a|
  {
    if a == [] {
      assert a + b == b;
    } else {
      assert (a + b)[0] == a[0] && (a + b)[1..] == a[1..] + b;
      FilterConcat(a[1..], b, p);
    }
  }

  /** A filter whose predicate holds of every element keeps everything. */
  lemma {:induction false} FilterAll<T>(s: seq<T>, p: T -> bool)
    requires forall i :: 0 <= i < |s| ==> p(s[i])
    ensures Filter(s, p) == s
    decreases |s|
  {
    if s != [] {
      FilterAll(s[1..], p);
      assert [s[0]] + s[1..] == s;
    }
  }

  /** A filter whose predicate holds of no element keeps nothing. */
  lemma FilterNone<T>(s: seq<T>, p: T -> bool)
    requires forall i :: 0 <= i < |s| ==> !p(s[i])
    ensures Filter(s, p) == []
  {
  }

  /** Filtering by `p` and then by `q` is filtering by a predicate that is their conjunction. */
  lemma {:induction false} FilterFilter<T>(s: seq<T>, p: T -> bool, q: T -> bool, pq: T -> bool)
    requires forall x :: pq(x) == (p(x) && q(x))
    ensures Filter(Filter(s, p), q) == Filter(s, pq)
    decreases |s|
  {
    if s != [] {
      FilterFilter(s[1..], p, q, pq);
      var head := if p(s[0]) then [s[0]] else [];
      FilterConcat(head, Filter(s[1..], p), q);
    }
  }

  /** Filters by predicates that agree everywhere agree. */
  lemma {:induction false} FilterExt<T>(s: seq<T>, p: T -> bool, q: T -> bool)
    requires forall x :: p(x) == q(x)
    ensures Filter(s, p) == Filter(s, q)
    decreases |s|
  {
    if s != [] {
      FilterExt(s[1..], p, q);
    }
  }

  /** Adding one element to one side of a split of `t` splits `[x] + t`. */
  lemma PartitionStep<T>(x: T, t: seq<T>, a: seq<T>, b: seq<T>, fa: seq<T>, fb: seq<T>, left: bool)
    requires multiset(a) + multiset(b) == multiset(t)
    requires left ==> fa == [x] + a && fb == b
    requires !left ==> fa == a && fb == [x] + b
    ensures multiset(fa) + multiset(fb) == multiset([x] + t)
  {
    assert multiset([x] + t) == multiset{x} + multiset(t);
    if left {
      assert multiset(fa) == multiset{x} + multiset(a);
    } else {
      assert multiset(fb) == multiset{x} + multiset(b);
    }
  }

  /** Two filters that split every element one way or the other partition the input. */
  lemma {:induction false} FilterPartition<T>(s: seq<T>, p: T -> bool, q: T -> bool)
    requires forall x :: q(x) == !p(x)
    ensures multiset(Filter(s, p)) + multiset(Filter(s, q)) == multiset(s)
    decreases |s|
  {
    if s != [] {
      var t := s[1..];
      FilterPartition(t, p, q);
      assert s == [s[0]] + t;
      var a, b := Filter(t, p), Filter(t, q);
      if p(s[0]) {
        assert Filter(s, q) == [] + b;
      } else {
        assert Filter(s, p) == [] + a;
      }
      PartitionStep(s[0], t, a, b, Filter(s, p), Filter(s, q), p(s[0]));
    }
  }

  /** The elements satisfying `p` followed by the others: every element of the
      first part satisfies `p` and none of the second does. */
  lemma PartitionGroups<T>(s: seq<T>, p: T -> bool, q: T -> bool)
    requires forall x :: q(x) == !p(x)
    ensures var a, b := Filter(s, p), Filter(s, q);
            && (forall i :: 0 <= i < |a| ==> p((a + b)[i]))
            && (forall i :: |a| <= i < |a + b| ==> !p((a + b)[i]))
  {
    var a, b := Filter(s, p), Filter(s, q);
    forall i | 0 <= i < |a + b| ensures p((a + b)[i]) <==> i < |a| {
      if i < |a| {
        assert (a + b)[i] == a[i];
      } else {
        assert (a + b)[i] == b[i - |a|];
      }
    }
  }

  /** Filtering the partitioned sequence by either predicate gives back the
      same group, in the same order, as filtering `s`. */
  lemma PartitionFilters<T>(s: seq<T>, p: T -> bool, q: T -> bool)
    requires forall x :: q(x) == !p(x)
    ensures var a, b := Filter(s, p), Filter(s, q);
            Filter(a + b, p) == a && Filter(a + b, q) == b
  {
    var a, b := Filter(s, p), Filter(s, q);
    FilterConcat(a, b, p);
    FilterConcat(a, b, q);
    FilterAll(a, p);
    FilterNone(b, p);
    FilterNone(a, q);
    FilterAll(b, q);
    assert a + [] == a;
    assert [] + b == b;
  }

  /** `s.map(f)`. */
  function Map<A, B>(s: seq<A>, f: A -> B): (r: seq<B>)
    ensures |r| == |s|
    ensures forall i :: 0 <= i < |s| ==> r[i] == f(s[i])
  {
    if s == [] then [] else [f(s[0])] + Map(s[1..], f)
  }

  /** An element of a filtered map is the image of some element of the source. */
  lemma MapFilterSource<A, B>(xs: seq<A>, f: A -> B, p: B -> bool, i: int) returns (j: int)
    requires 0 <= i < |Filter(Map(xs, f), p)|
    ensures 0 <= j < |xs| && Filter(Map(xs, f), p)[i] == f(xs[j]) && p(f(xs[j]))
  {
    var ys := Map(xs, f);
    assert Filter(ys, p)[i] in ys;
    j :| 0 <= j < |ys| && ys[j] == Filter(ys, p)[i];
  }

  /** When `f` takes every `r`-element whose image passes `p` to a `q`-element,
      every element of the filtered map of `r`-elements satisfies `q`. */
  lemma MapFilterPreserves<A, B>(xs: seq<A>, f: A -> B, p: B -> bool, r: A -> bool, q: B -> bool)
    requires forall i :: 0 <= i < |xs| ==> r(xs[i])
    requires forall x :: r(x) && p(f(x)) ==> q(f(x))
    ensures forall i :: 0 <= i < |Filter(Map(xs, f), p)| ==> q(Filter(Map(xs, f), p)[i])
  {
    forall i | 0 <= i < |Filter(Map(xs, f), p)| ensures q(Filter(Map(xs, f), p)[i]) {
      var j := MapFilterSource(xs, f, p, i);
    }
  }

  /** Filtering commutes with a map that does not change the predicate. */
  lemma {:induction false} FilterMapCommute<A>(s: seq<A>, f: A -> A, p: A -> bool)
    requires forall x :: p(f(x)) == p(x)
    ensures Filter(Map(s, f), p) == Map(Filter(s, p), f)
    decreases |s|
  {
    if s != [] {
      FilterMapCommute(s[1..], f, p);
      var m := Map(s, f);
      assert m[0] == f(s[0]) && m[1..] == Map(s[1..], f);
      if p(s[0]) {
        var t := Filter(s[1..], p);
        assert Filter(s, p) == [s[0]] + t;
        assert Map([s[0]] + t, f) == [f(s[0])] + Map(t, f) by {
          assert ([s[0]] + t)[1..] == t;
        }
      }
    }
  }

  /** A leading run of elements that fail the test contributes nothing to the filter. */
  lemma {:induction false} FilterDropsFailing<T>(s: seq<T>, n: nat, p: T -> bool)
    requires n <= |s|
    requires forall k :: 0 <= k < n ==> !p(s[k])
    ensures Filter(s[n..], p) == Filter(s, p)
    decreases n
  {
    if n > 0 {
      assert forall k :: 0 <= k < n - 1 ==> s[1..][k] == s[k + 1];
      FilterDropsFailing(s[1..], n - 1, p);
      assert s[1..][n - 1..] == s[n..];
    }
  }

  /** The filter keeps every copy of a passing element and none of a failing one. */
  lemma {:induction false} FilterCount<T>(s: seq<T>, p: T -> bool)
    ensures forall x :: multiset(Filter(s, p))[x] == (if p(x) then multiset(s)[x] else 0)
  {
    if s != [] {
      FilterCount(s[1..], p);
      assert s == [s[0]] + s[1..];
      assert multiset(s) == multiset([s[0]]) + multiset(s[1..]);
      var head := if p(s[0]) then [s[0]] else [];
      assert Filter(s, p) == head + Filter(s[1..], p);
      assert multiset(Filter(s, p)) == multiset(head) + multiset(Filter(s[1..], p));
    }
  }

  /** Concatenation is associative. */
  lemma AppendAssoc<T>(a: seq<T>, b: seq<T>, c: seq<T>)
    ensures a + (b + c) == (a + b) + c
  {
  }

  /** A non-empty sequence is its head followed by its tail, also in front of more. */
  lemma HeadTail<T>(a: seq<T>, b: seq<T>)
    requires a != []
    ensures a == [a[0]] + a[1..] && a + b == [a[0]] + (a[1..] + b)
    ensures (a + b)[0] == a[0] && (a + b)[1..] == a[1..] + b
  {
  }

  /** `[].concat(...seqs)`: the concatenation of a sequence of sequences. */
  function Concat<T>(ss: seq<seq<T>>): (r: seq<T>)
  {
    if ss == [] then [] else ss[0] + Concat(ss[1..])
  }

  lemma {:induction false} ConcatAppend<T>(a: seq<seq<T>>, b: seq<seq<T>>)
    ensures Concat(a + b) == Concat(a) + Concat(b)
    decreases |a|
  {
    if a == [] {
      assert a + b == b;
    } else {
      assert (a + b)[0] == a[0] && (a + b)[1..] == a[1..] + b;
      ConcatAppend(a[1..], b);
    }
  }
}
