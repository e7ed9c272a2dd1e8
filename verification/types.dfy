/** Shared vocabulary of the statement pipeline: transactions, outcome wrappers and
    the order-preserving subsequence relation used by every filtering stage. */
module Types {

  /** One expense line: the trimmed statement line and the absolute amount spent. */
  datatype Transaction = Transaction(desc: string, amount: real)

  datatype Option<+T> = None | Some(value: T)

  datatype Result<+R, +E> = Success(value: R) | Failure(error: E)

  /** The amounts of a transaction sequence, in order. */
  function Amounts(ts: seq<Transaction>): (r: seq<real>)
    ensures |r| == |ts|
    ensures forall i :: 0 <= i < |ts| ==> r[i] == ts[i].amount
  {
    seq(|ts|, i requires 0 <= i < |ts| => ts[i].amount)
  }

  predicate AllPositive(ts: seq<Transaction>)
  {
    forall i :: 0 <= i < |ts| ==> ts[i].amount > 0.0
  }

  /** `a` can be obtained from `b` by deleting elements, keeping the order. */
  predicate IsSubseq<T(==)>(a: seq<T>, b: seq<T>)
    decreases |b|
  {
    if |a| == 0 then true
    else if |b| == 0 then false
    else (a[0] == b[0] && IsSubseq(a[1..], b[1..])) || IsSubseq(a, b[1..])
  }

  lemma {:induction false} SubseqMembers<T>(a: seq<T>, b: seq<T>)
    requires IsSubseq(a, b)
    ensures |a| <= |b|
    ensures forall x :: x in a ==> x in b
    decreases |b|
  {
    if |a| > 0 {
      if a[0] == b[0] && IsSubseq(a[1..], b[1..]) {
        SubseqMembers(a[1..], b[1..]);
        forall x | x in a ensures x in b {
          if x != a[0] {
            assert x in a[1..];
          }
        }
      } else {
        SubseqMembers(a, b[1..]);
      }
    }
  }

  lemma {:induction false} SubseqTransitive<T>(a: seq<T>, b: seq<T>, c: seq<T>)
    requires IsSubseq(a, b) && IsSubseq(b, c)
    ensures IsSubseq(a, c)
    decreases |c|
  {
    if |a| > 0 {
      assert |b| > 0 && |c| > 0;
      if IsSubseq(b, c[1..]) {
        SubseqTransitive(a, b, c[1..]);
      } else {
        assert b[0] == c[0] && IsSubseq(b[1..], c[1..]);
        if a[0] == b[0] && IsSubseq(a[1..], b[1..]) {
          SubseqTransitive(a[1..], b[1..], c[1..]);
        } else {
          SubseqTransitive(a, b[1..], c[1..]);
        }
      }
    }
  }

  /** The elements satisfying `p`, in their original order and with their
      multiplicity: a boolean-mask row selection keeps every duplicate row. */
  function Filter<T(!new)>(xs: seq<T>, p: T -> bool): (r: seq<T>)
    ensures IsSubseq(r, xs)
    ensures forall x :: x in r <==> x in xs && p(x)
    ensures |r| == Count(xs, p)
    ensures (forall i :: 0 <= i < |xs| ==> p(xs[i])) ==> r == xs
    ensures forall i :: 0 <= i < |r| ==> p(r[i])
  {
    if |xs| == 0 then []
    else
      var rest := Filter(xs[1..], p);
      FilterStep(xs, rest, p);
      if p(xs[0]) then [xs[0]] + rest else rest
  }

  /** One step of `Filter`: from the selection of the tail to that of the whole. */
  lemma FilterStep<T>(xs: seq<T>, rest: seq<T>, p: T -> bool)
    requires |xs| > 0
    requires IsSubseq(rest, xs[1..])
    requires forall x :: x in rest <==> x in xs[1..] && p(x)
    requires |rest| == Count(xs[1..], p)
    requires (forall i :: 1 <= i < |xs| ==> p(xs[i])) ==> rest == xs[1..]
    requires forall i :: 0 <= i < |rest| ==> p(rest[i])
    ensures var r := if p(xs[0]) then [xs[0]] + rest else rest;
            && IsSubseq(r, xs)
            && (forall x :: x in r <==> x in xs && p(x))
            && |r| == Count(xs, p)
            && ((forall i :: 0 <= i < |xs| ==> p(xs[i])) ==> r == xs)
            && (forall i :: 0 <= i < |r| ==> p(r[i]))
  {
    assert xs == [xs[0]] + xs[1..];
    assert forall x :: x in xs <==> x == xs[0] || x in xs[1..];
    if p(xs[0]) {
      var r := [xs[0]] + rest;
      assert r[1..] == rest;
      assert forall i :: 1 <= i < |r| ==> r[i] == rest[i - 1];
    } else {
      SubseqSkip(rest, xs);
    }
  }

  /** How many elements satisfy `p`, duplicates counted each time. */
  function Count<T>(xs: seq<T>, p: T -> bool): nat
    decreases |xs|
  {
    if |xs| == 0 then 0 else (if p(xs[0]) then 1 else 0) + Count(xs[1..], p)
  }

  /** An ordered selection of elements satisfying `p` has at most as many elements as
      satisfy `p`. */
  lemma {:induction false} SelectionBound<T>(r: seq<T>, xs: seq<T>, p: T -> bool)
    requires IsSubseq(r, xs)
    requires forall i :: 0 <= i < |r| ==> p(r[i])
    ensures |r| <= Count(xs, p)
    decreases |xs|
  {
    if |r| > 0 {
      assert forall i :: 1 <= i < |r| ==> r[i] == r[1..][i - 1];
      if r[0] == xs[0] && IsSubseq(r[1..], xs[1..]) {
        SelectionBound(r[1..], xs[1..], p);
      } else {
        SelectionBound(r, xs[1..], p);
      }
    }
  }

  /** The selection is determined by its three defining facts: any ordered
      subsequence whose elements all satisfy `p` and whose length is the number of
      elements satisfying `p` is the filter's result. So a contract stating these
      three facts fixes the result, duplicates included. */
  lemma {:induction false} SelectionIsFilter<T(!new)>(r: seq<T>, xs: seq<T>, p: T -> bool)
    requires IsSubseq(r, xs)
    requires forall i :: 0 <= i < |r| ==> p(r[i])
    requires |r| == Count(xs, p)
    ensures r == Filter(xs, p)
    decreases |xs|
  {
    if |xs| > 0 {
      var tail := xs[1..];
      assert forall i :: 1 <= i < |r| ==> r[i] == r[1..][i - 1];
      if p(xs[0]) {
        assert |r| > 0;
        if !(r[0] == xs[0] && IsSubseq(r[1..], tail)) {
          SelectionBound(r, tail, p);
          assert false;
        }
        SelectionIsFilter(r[1..], tail, p);
        assert r == [xs[0]] + r[1..];
      } else {
        assert |r| > 0 ==> r[0] != xs[0];
        SelectionIsFilter(r, tail, p);
      }
    }
  }

  /** Each element is selected exactly as often as it occurs when it satisfies `p`,
      and never otherwise: a boolean mask keeps every duplicate row. */
  lemma {:induction false} FilterCounts<T(!new)>(xs: seq<T>, p: T -> bool)
    ensures forall x :: multiset(Filter(xs, p))[x] == if p(x) then multiset(xs)[x] else 0
    decreases |xs|
  {
    if |xs| > 0 {
      FilterCounts(xs[1..], p);
      var rest := Filter(xs[1..], p);
      assert xs == [xs[0]] + xs[1..];
      assert multiset(xs) == multiset{xs[0]} + multiset(xs[1..]);
      if p(xs[0]) {
        assert multiset([xs[0]] + rest) == multiset{xs[0]} + multiset(rest);
      }
    }
  }

  /** Everything is selected when every element satisfies the predicate. */
  lemma FilterAll<T(!new)>(xs: seq<T>, p: T -> bool)
    requires forall i :: 0 <= i < |xs| ==> p(xs[i])
    ensures Filter(xs, p) == xs
  {
  }

  /** Nothing is selected when no element satisfies the predicate. */
  lemma {:induction false} FilterNone<T(!new)>(xs: seq<T>, p: T -> bool)
    requires forall i :: 0 <= i < |xs| ==> !p(xs[i])
    ensures Filter(xs, p) == []
    decreases |xs|
  {
    if |xs| > 0 {
      FilterNone(xs[1..], p);
    }
  }

  /** Dropping the first element of the larger sequence keeps a subsequence one. */
  lemma SubseqSkip<T>(a: seq<T>, b: seq<T>)
    requires |b| > 0 && IsSubseq(a, b[1..])
    ensures IsSubseq(a, b)
  {
  }

  /** `f` applied to every element, in order. */
  function Map<A, B>(f: A -> B, xs: seq<A>): (r: seq<B>)
    ensures |r| == |xs|
    ensures forall i :: 0 <= i < |xs| ==> r[i] == f(xs[i])
  {
    seq(|xs|, i requires 0 <= i < |xs| => f(xs[i]))
  }

  lemma MapCons<A, B>(f: A -> B, xs: seq<A>)
    requires |xs| > 0
    ensures Map(f, xs) == [f(xs[0])] + Map(f, xs[1..])
  {
  }

  lemma MapAppend<A, B>(f: A -> B, a: seq<A>, b: seq<A>)
    ensures Map(f, a + b) == Map(f, a) + Map(f, b)
  {
    var l, r := Map(f, a + b), Map(f, a) + Map(f, b);
    forall i | 0 <= i < |l| ensures l[i] == r[i] {
      if i < |a| {
        assert (a + b)[i] == a[i];
      } else {
        assert (a + b)[i] == b[i - |a|];
      }
    }
  }

  /** Concatenation of a sequence of sequences, in order. */
  function Flatten<T>(xss: seq<seq<T>>): (r: seq<T>)
  {
    if |xss| == 0 then [] else xss[0] + Flatten(xss[1..])
  }

  lemma {:induction false} FlattenAppend<T>(a: seq<seq<T>>, b: seq<seq<T>>)
    ensures Flatten(a + b) == Flatten(a) + Flatten(b)
    decreases |a|
  {
    if |a| > 0 {
      assert (a + b)[1..] == a[1..] + b;
      FlattenAppend(a[1..], b);
    } else {
      assert a + b == b;
    }
  }
}
