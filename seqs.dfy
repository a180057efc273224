/** Sequence operations the crawlers build their lists from: filtering (`Array.prototype.filter`),
    deduplication through a JavaScript `Set` (`[...new Set(xs)]`, which keeps first-insertion order),
    and the order-preserving subsequence relation used to state what those operations keep. */
module Seqs {
  import opened Wrappers

  /** No element occurs twice. */
  predicate NoDuplicates<T(==)>(xs: seq<T>) {
    forall i, j :: 0 <= i < j < |xs| ==> xs[i] != xs[j]
  }

  /** Position of the first occurrence of `x` in `xs`. */
  function IndexOf<T(==)>(xs: seq<T>, x: T): (k: nat)
    requires x in xs
    ensures k < |xs| && xs[k] == x
    ensures forall j :: 0 <= j < k ==> xs[j] != x
  {
    if xs[0] == x then 0 else 1 + IndexOf(xs[1..], x)
  }

  /** `a` can be obtained from `b` by deleting elements, the rest kept in order. */
  predicate IsSubsequence<T(==)>(a: seq<T>, b: seq<T>)
    decreases |b|
  {
    if a == [] then true
    else if b == [] then false
    else if a[|a| - 1] == b[|b| - 1] then IsSubsequence(a[..|a| - 1], b[..|b| - 1])
    else IsSubsequence(a, b[..|b| - 1])
  }

  /** The elements of `xs` that satisfy `p`, in their order (`xs.filter(p)`). */
  function Filter<T>(p: T -> bool, xs: seq<T>): (r: seq<T>)
    ensures |r| <= |xs|
  {
    if xs == [] then []
    else Filter(p, xs[..|xs| - 1]) + (if p(xs[|xs| - 1]) then [xs[|xs| - 1]] else [])
  }

  /** The filter keeps exactly the elements that satisfy the predicate. */
  lemma {:induction false} FilterMembers<T>(p: T -> bool, xs: seq<T>)
    ensures forall x :: x in Filter(p, xs) ==> x in xs && p(x)
    ensures forall x :: x in xs && p(x) ==> x in Filter(p, xs)
    decreases |xs|
  {
    if xs != [] {
      var init := xs[..|xs| - 1];
      FilterMembers(p, init);
      assert xs == init + [xs[|xs| - 1]];
    }
  }

  /** `[...new Set(xs)]`: each element is added to the set in turn, and a value already present
      is not added again, so every value keeps the place of its first occurrence. */
  function Dedup<T(==)>(xs: seq<T>): (r: seq<T>)
    ensures NoDuplicates(r)
    ensures |r| <= |xs|
  {
    if xs == [] then []
    else
      var r := Dedup(xs[..|xs| - 1]);
      if xs[|xs| - 1] in r then r else r + [xs[|xs| - 1]]
  }

  /** Deduplication keeps every value of `xs` and adds none. */
  lemma {:induction false} DedupMembers<T>(xs: seq<T>)
    ensures forall x :: x in Dedup(xs) ==> x in xs
    ensures forall x :: x in xs ==> x in Dedup(xs)
    decreases |xs|
  {
    if xs != [] {
      var init := xs[..|xs| - 1];
      DedupMembers(init);
      assert xs == init + [xs[|xs| - 1]];
    }
  }

  /** `xs.map(f)` */
  function Map<A, B>(f: A -> B, xs: seq<A>): (r: seq<B>)
    ensures |r| == |xs|
    ensures forall i :: 0 <= i < |xs| ==> r[i] == f(xs[i])
  {
    if xs == [] then [] else Map(f, xs[..|xs| - 1]) + [f(xs[|xs| - 1])]
  }

  /** The number of elements of `xs` that satisfy `p`, counted independently of `Filter`. */
  function CountWhere<T>(p: T -> bool, xs: seq<T>): nat {
    if xs == [] then 0 else (if p(xs[0]) then 1 else 0) + CountWhere(p, xs[1..])
  }

  /** Dropping the last element of a subsequence leaves a subsequence. */
  lemma {:induction false} SubsequenceDropLast<T>(a: seq<T>, b: seq<T>)
    requires a != [] && IsSubsequence(a, b)
    ensures IsSubsequence(a[..|a| - 1], b)
    decreases |b|
  {
    var a', b' := a[..|a| - 1], b[..|b| - 1];
    if a' != [] {
      if a[|a| - 1] == b[|b| - 1] {
        if a'[|a'| - 1] == b[|b| - 1] {
          SubsequenceDropLast(a', b');
          assert a'[..|a'| - 1] == a[..|a| - 2];
        }
      } else {
        SubsequenceDropLast(a, b');
        if a'[|a'| - 1] == b[|b| - 1] {
          SubsequenceDropLast(a', b');
        }
      }
    }
  }

  lemma SubsequenceSnoc<T>(a: seq<T>, b: seq<T>, y: T)
    requires IsSubsequence(a, b)
    ensures IsSubsequence(a, b + [y])
    ensures IsSubsequence(a + [y], b + [y])
  {
    assert (b + [y])[..|b|] == b;
    assert (a + [y])[..|a|] == a;
    if a != [] && a[|a| - 1] == y {
      SubsequenceDropLast(a, b);
    }
  }

  /** Adding an element at the end of the larger sequence keeps a subsequence. */
  lemma SubsequenceExtend<T>(a: seq<T>, c: seq<T>)
    requires c != [] && IsSubsequence(a, c[..|c| - 1])
    ensures IsSubsequence(a, c)
  {
    SubsequenceSnoc(a, c[..|c| - 1], c[|c| - 1]);
    assert c[..|c| - 1] + [c[|c| - 1]] == c;
  }

  lemma {:induction false} SubsequenceTransitive<T>(a: seq<T>, b: seq<T>, c: seq<T>)
    requires IsSubsequence(a, b) && IsSubsequence(b, c)
    ensures IsSubsequence(a, c)
    decreases |c|
  {
    if a != [] {
      var a', b', c' := a[..|a| - 1], b[..|b| - 1], c[..|c| - 1];
      if b[|b| - 1] == c[|c| - 1] {
        if a[|a| - 1] == b[|b| - 1] {
          SubsequenceTransitive(a', b', c');
        } else {
          SubsequenceTransitive(a, b', c');
          SubsequenceExtend(a, c);
        }
      } else {
        SubsequenceTransitive(a, b, c');
        SubsequenceExtend(a, c);
      }
    }
  }

  /** Elements of a subsequence occur in the larger sequence. */
  lemma {:induction false} SubsequenceElements<T>(a: seq<T>, b: seq<T>)
    requires IsSubsequence(a, b)
    ensures forall x :: x in a ==> x in b
    decreases |b|
  {
    if a != [] {
      if a[|a| - 1] == b[|b| - 1] {
        SubsequenceElements(a[..|a| - 1], b[..|b| - 1]);
        assert a == a[..|a| - 1] + [a[|a| - 1]];
      } else {
        SubsequenceElements(a, b[..|b| - 1]);
      }
      assert b == b[..|b| - 1] + [b[|b| - 1]];
    }
  }

  /** A prefix of a subsequence is a subsequence. */
  lemma {:induction false} SubsequencePrefix<T>(a: seq<T>, b: seq<T>, k: nat)
    requires IsSubsequence(a, b) && k <= |a|
    ensures IsSubsequence(a[..k], b)
    decreases |b|
  {
    if k < |a| {
      if a[|a| - 1] == b[|b| - 1] {
        assert a[..|a| - 1][..k] == a[..k];
        SubsequencePrefix(a[..|a| - 1], b[..|b| - 1], k);
        SubsequenceSnoc(a[..k], b[..|b| - 1], b[|b| - 1]);
      } else {
        SubsequencePrefix(a, b[..|b| - 1], k);
        SubsequenceSnoc(a[..k], b[..|b| - 1], b[|b| - 1]);
      }
      assert b[..|b| - 1] + [b[|b| - 1]] == b;
    } else {
      assert a[..k] == a;
    }
  }

  /** Filtering keeps relative order. */
  lemma {:induction false} FilterIsSubsequence<T>(p: T -> bool, xs: seq<T>)
    ensures IsSubsequence(Filter(p, xs), xs)
    decreases |xs|
  {
    if xs != [] {
      var init, y := xs[..|xs| - 1], xs[|xs| - 1];
      assert init + [y] == xs;
      FilterIsSubsequence(p, init);
      SubsequenceSnoc(Filter(p, init), init, y);
      if p(y) {
        assert Filter(p, xs) == Filter(p, init) + [y];
      } else {
        assert Filter(p, xs) == Filter(p, init);
      }
    }
  }

  /** Deduplication keeps relative order. */
  lemma {:induction false} DedupIsSubsequence<T>(xs: seq<T>)
    ensures IsSubsequence(Dedup(xs), xs)
    decreases |xs|
  {
    if xs != [] {
      var init := xs[..|xs| - 1];
      DedupIsSubsequence(init);
      SubsequenceSnoc(Dedup(init), init, xs[|xs| - 1]);
      assert init + [xs[|xs| - 1]] == xs;
    }
  }

  lemma IndexOfSnoc<T>(xs: seq<T>, y: T, x: T)
    requires x in xs
    ensures IndexOf(xs + [y], x) == IndexOf(xs, x)
  {
    var k := IndexOf(xs, x);
    var k' := IndexOf(xs + [y], x);
    assert (xs + [y])[k] == x;
    assert k' <= k;
    assert xs[k'] == (xs + [y])[k'];
  }

  /** `Set` insertion order: the entries of `[...new Set(xs)]` appear in the order of their
      first occurrences in `xs`. */
  lemma {:induction false} DedupFirstOccurrenceOrder<T>(xs: seq<T>, i: nat, j: nat)
    requires i < j < |Dedup(xs)|
    ensures Dedup(xs)[i] in xs && Dedup(xs)[j] in xs
    ensures IndexOf(xs, Dedup(xs)[i]) < IndexOf(xs, Dedup(xs)[j])
    decreases |xs|
  {
    var init, y := xs[..|xs| - 1], xs[|xs| - 1];
    assert xs == init + [y];
    var r := Dedup(init);
    DedupMembers(xs);
    DedupMembers(init);
    if j < |r| {
      DedupFirstOccurrenceOrder(init, i, j);
      IndexOfSnoc(init, y, r[i]);
      IndexOfSnoc(init, y, r[j]);
    } else {
      assert Dedup(xs)[j] == y && y !in init;
      IndexOfSnoc(init, y, r[i]);
      assert IndexOf(xs, y) == |init|;
    }
  }

  /** Everything `xs` contains and only that, once each, in first-occurrence order. */
  lemma DedupSpec<T>(xs: seq<T>)
    ensures NoDuplicates(Dedup(xs))
    ensures forall x :: x in Dedup(xs) ==> x in xs
    ensures forall x :: x in xs ==> x in Dedup(xs)
    ensures IsSubsequence(Dedup(xs), xs)
    ensures forall i, j :: 0 <= i < j < |Dedup(xs)| ==>
              IndexOf(xs, Dedup(xs)[i]) < IndexOf(xs, Dedup(xs)[j])
  {
    DedupMembers(xs);
    DedupIsSubsequence(xs);
    forall i, j | 0 <= i < j < |Dedup(xs)|
      ensures IndexOf(xs, Dedup(xs)[i]) < IndexOf(xs, Dedup(xs)[j])
    {
      DedupFirstOccurrenceOrder(xs, i, j);
    }
  }

  /** A duplicate-free sequence is left unchanged by deduplication. */
  lemma {:induction false} DedupOfDistinct<T>(xs: seq<T>)
    requires NoDuplicates(xs)
    ensures Dedup(xs) == xs
    decreases |xs|
  {
    if xs != [] {
      DedupOfDistinct(xs[..|xs| - 1]);
      assert xs[|xs| - 1] !in xs[..|xs| - 1];
      assert xs[..|xs| - 1] + [xs[|xs| - 1]] == xs;
    }
  }

  lemma DedupOfDistinctPair<T>(a: T, b: T)
    requires a != b
    ensures Dedup([a, b]) == [a, b]
  {
    DedupOfDistinct([a, b]);
  }

  lemma {:induction false} FilterConcat<T>(p: T -> bool, a: seq<T>, b: seq<T>)
    ensures Filter(p, a + b) == Filter(p, a) + Filter(p, b)
    decreases |b|
  {
    if b != [] {
      var b' := b[..|b| - 1];
      assert (a + b)[..|a + b| - 1] == a + b';
      FilterConcat(p, a, b');
    } else {
      assert a + b == a;
    }
  }

  /** The length of a filter is the number of elements satisfying the predicate. */
  lemma {:induction false} FilterLength<T>(p: T -> bool, xs: seq<T>)
    ensures |Filter(p, xs)| == CountWhere(p, xs)
    decreases |xs|
  {
    if xs != [] {
      FilterLength(p, xs[1..]);
      FilterConcat(p, [xs[0]], xs[1..]);
      assert [xs[0]] + xs[1..] == xs;
      assert [xs[0]][..0] == [];
    }
  }

  /** Filtering a duplicate-free sequence gives a duplicate-free sequence. */
  lemma {:induction false} FilterNoDuplicates<T>(p: T -> bool, xs: seq<T>)
    requires NoDuplicates(xs)
    ensures NoDuplicates(Filter(p, xs))
    decreases |xs|
  {
    if xs != [] {
      FilterNoDuplicates(p, xs[..|xs| - 1]);
      FilterMembers(p, xs[..|xs| - 1]);
      assert xs[|xs| - 1] !in xs[..|xs| - 1];
    }
  }

  /** Filtering a duplicate-free sequence keeps the relative order of the kept elements. */
  lemma {:induction false} FilterKeepsOrder<T>(p: T -> bool, xs: seq<T>, i: nat, j: nat)
    requires NoDuplicates(xs) && i < j < |xs| && p(xs[i]) && p(xs[j])
    ensures xs[i] in Filter(p, xs) && xs[j] in Filter(p, xs)
    ensures IndexOf(Filter(p, xs), xs[i]) < IndexOf(Filter(p, xs), xs[j])
    decreases |xs|
  {
    var init, y := xs[..|xs| - 1], xs[|xs| - 1];
    var f := Filter(p, init);
    FilterMembers(p, xs);
    FilterMembers(p, init);
    assert xs[i] == init[i];
    if j < |xs| - 1 {
      assert xs[j] == init[j];
      FilterKeepsOrder(p, init, i, j);
      if p(y) {
        assert Filter(p, xs) == f + [y];
        IndexOfSnoc(f, y, xs[i]);
        IndexOfSnoc(f, y, xs[j]);
      } else {
        assert Filter(p, xs) == f;
      }
    } else {
      assert Filter(p, xs) == f + [y];
      assert y !in init;
      IndexOfSnoc(f, y, xs[i]);
      assert IndexOf(f + [y], y) == |f|;
    }
  }

  /** The first occurrences of kept elements come in the same order before and after filtering. */
  lemma {:induction false} FilterFirstOccurrences<T>(p: T -> bool, xs: seq<T>, x: T, y: T)
    requires x in Filter(p, xs) && y in Filter(p, xs)
    requires IndexOf(Filter(p, xs), x) < IndexOf(Filter(p, xs), y)
    ensures x in xs && y in xs
    ensures IndexOf(xs, x) < IndexOf(xs, y)
    decreases |xs|
  {
    var init, last := xs[..|xs| - 1], xs[|xs| - 1];
    assert xs == init + [last];
    var f := Filter(p, init);
    FilterMembers(p, xs);
    FilterMembers(p, init);
    if y in f {
      assert x in f;
      if p(last) {
        assert Filter(p, xs) == f + [last];
        IndexOfSnoc(f, last, x);
        IndexOfSnoc(f, last, y);
      } else {
        assert Filter(p, xs) == f;
      }
      FilterFirstOccurrences(p, init, x, y);
      IndexOfSnoc(init, last, x);
      IndexOfSnoc(init, last, y);
    } else {
      assert y == last && p(last) && y !in init;
      assert Filter(p, xs) == f + [last];
      IndexOfSnoc(init, last, x);
      assert IndexOf(xs, y) == |init|;
    }
  }

  /** A filter that rejects nothing is the identity. */
  lemma {:induction false} FilterAll<T>(p: T -> bool, xs: seq<T>)
    requires forall i :: 0 <= i < |xs| ==> p(xs[i])
    ensures Filter(p, xs) == xs
    decreases |xs|
  {
    if xs != [] {
      FilterAll(p, xs[..|xs| - 1]);
      assert xs[..|xs| - 1] + [xs[|xs| - 1]] == xs;
    }
  }

  /** Filters by two complementary predicates split a sequence: between them they keep every
      element exactly once. */
  lemma {:induction false} FilterPartition<T>(p: T -> bool, q: T -> bool, xs: seq<T>)
    requires forall i :: 0 <= i < |xs| ==> (p(xs[i]) <==> !q(xs[i]))
    ensures |Filter(p, xs)| + |Filter(q, xs)| == |xs|
    ensures multiset(Filter(p, xs)) + multiset(Filter(q, xs)) == multiset(xs)
    decreases |xs|
  {
    if xs != [] {
      var init := xs[..|xs| - 1];
      FilterPartition(p, q, init);
      assert init + [xs[|xs| - 1]] == xs;
    }
  }

  /** Dedup of a sequence extended by one element: the element is added unless present. */
  lemma DedupSnoc<T>(xs: seq<T>, x: T)
    ensures Dedup(xs + [x]) == if x in Dedup(xs) then Dedup(xs) else Dedup(xs) + [x]
  {
    assert (xs + [x])[..|xs|] == xs;
  }

  function OptionToSeq<T>(o: Option<T>): (r: seq<T>)
    ensures |r| <= 1
  {
    match o
    case None => []
    case Some(x) => [x]
  }

  /** The values `f` yields on the elements of `xs`, in order, skipping the elements on which
      it yields nothing. */
  function FilterMap<A, B>(f: A -> Option<B>, xs: seq<A>): seq<B> {
    if xs == [] then [] else FilterMap(f, xs[..|xs| - 1]) + OptionToSeq(f(xs[|xs| - 1]))
  }

  lemma FilterMapSnoc<A, B>(f: A -> Option<B>, xs: seq<A>, i: nat)
    requires i < |xs|
    ensures FilterMap(f, xs[..i + 1]) == FilterMap(f, xs[..i]) + OptionToSeq(f(xs[i]))
  {
    assert xs[..i + 1][..i] == xs[..i];
  }

  lemma {:induction false} FilterMapConcat<A, B>(f: A -> Option<B>, a: seq<A>, b: seq<A>)
    ensures FilterMap(f, a + b) == FilterMap(f, a) + FilterMap(f, b)
    decreases |b|
  {
    if b == [] {
      assert a + b == a;
    } else {
      var b' := b[..|b| - 1];
      assert (a + b)[..|a + b| - 1] == a + b';
      FilterMapConcat(f, a, b');
    }
  }

  /** A value is produced exactly when `f` yields it on some element. */
  lemma {:induction false} FilterMapMembers<A, B>(f: A -> Option<B>, xs: seq<A>, y: B)
    ensures y in FilterMap(f, xs) <==> exists i :: 0 <= i < |xs| && f(xs[i]) == Some(y)
    decreases |xs|
  {
    if xs != [] {
      var init := xs[..|xs| - 1];
      FilterMapMembers(f, init, y);
      var last := OptionToSeq(f(xs[|xs| - 1]));
      assert y in last <==> f(xs[|xs| - 1]) == Some(y);
      if y in FilterMap(f, xs) && y !in last {
        var i :| 0 <= i < |init| && f(init[i]) == Some(y);
        assert xs[i] == init[i];
      }
      if exists i :: 0 <= i < |xs| && f(xs[i]) == Some(y) {
        var i :| 0 <= i < |xs| && f(xs[i]) == Some(y);
        if i < |init| {
          assert init[i] == xs[i];
        }
      }
    }
  }

  /** An element on which `f` yields nothing can be removed without changing the result. */
  lemma FilterMapSkip<A, B>(f: A -> Option<B>, a: seq<A>, x: A, b: seq<A>)
    requires f(x) == None
    ensures FilterMap(f, a + [x] + b) == FilterMap(f, a + b)
  {
    FilterMapConcat(f, a + [x], b);
    FilterMapConcat(f, a, b);
    assert (a + [x])[..|a|] == a;
  }

  /** One step of `Dedup(FilterMap(f, xs))` over the prefixes of `xs`. */
  lemma DedupFilterMapStep<A, B>(f: A -> Option<B>, xs: seq<A>, i: nat)
    requires i < |xs|
    ensures f(xs[i]).None? ==> Dedup(FilterMap(f, xs[..i + 1])) == Dedup(FilterMap(f, xs[..i]))
    ensures f(xs[i]).Some? ==>
              var d := Dedup(FilterMap(f, xs[..i]));
              Dedup(FilterMap(f, xs[..i + 1])) == if f(xs[i]).value in d then d else d + [f(xs[i]).value]
  {
    FilterMapSnoc(f, xs, i);
    if f(xs[i]).Some? {
      DedupSnoc(FilterMap(f, xs[..i]), f(xs[i]).value);
    } else {
      assert FilterMap(f, xs[..i]) + [] == FilterMap(f, xs[..i]);
    }
  }

  /** Two elements that yield the same value give that value once. */
  lemma DedupFilterMapPair<A, B>(f: A -> Option<B>, a: A, b: A, y: B)
    requires f(a) == Some(y) && f(b) == Some(y)
    ensures Dedup(FilterMap(f, [a, b])) == [y]
  {
    FilterMapSnoc(f, [a, b], 0);
    FilterMapSnoc(f, [a, b], 1);
    assert [a, b][..0] == [] && [a, b][..2] == [a, b];
    assert FilterMap(f, [a, b]) == [y, y];
    assert [y, y][..1] == [y];
  }
}
