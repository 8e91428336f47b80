/** Sequence facts used throughout: filtering, subsequences, duplicate-free
    growth and first-match search. */
module Seqs {
  import opened Results

  function Min(a: int, b: int): int {
    if a <= b then a else b
  }

  /** No element occurs twice. */
  predicate NoDup<T(==,!new)>(s: seq<T>) {
    forall i, j :: 0 <= i < j < |s| ==> s[i] != s[j]
  }

  /** `a` is obtained from `b` by deleting elements, keeping the order of the rest. */
  predicate IsSubseq<T(==,!new)>(a: seq<T>, b: seq<T>)
    decreases |b|
  {
    if |a| == 0 then true
    else if |b| == 0 then false
    else (a[0] == b[0] && IsSubseq(a[1..], b[1..])) || IsSubseq(a, b[1..])
  }

  lemma {:induction false} SubseqRefl<T(!new)>(a: seq<T>)
    ensures IsSubseq(a, a)
    decreases |a|
  {
    if |a| > 0 {
      SubseqRefl(a[1..]);
    }
  }

  lemma {:induction false} SubseqTrans<T(!new)>(a: seq<T>, b: seq<T>, c: seq<T>)
    requires IsSubseq(a, b) && IsSubseq(b, c)
    ensures IsSubseq(a, c)
    decreases |c|
  {
    if |a| == 0 {
    } else if IsSubseq(b, c[1..]) {
      SubseqTrans(a, b, c[1..]);
    } else {
      assert b[0] == c[0] && IsSubseq(b[1..], c[1..]);
      if a[0] == b[0] && IsSubseq(a[1..], b[1..]) {
        SubseqTrans(a[1..], b[1..], c[1..]);
      } else {
        SubseqTrans(a, b[1..], c[1..]);
      }
    }
  }

  /** A subsequence is never longer than the sequence it is taken from. */
  lemma {:induction false} SubseqLength<T(!new)>(a: seq<T>, b: seq<T>)
    requires IsSubseq(a, b)
    ensures |a| <= |b|
    decreases |b|
  {
    if |a| == 0 {
    } else if a[0] == b[0] && IsSubseq(a[1..], b[1..]) {
      SubseqLength(a[1..], b[1..]);
    } else {
      SubseqLength(a, b[1..]);
    }
  }

  /** `Array.prototype.filter`: the elements of `s` satisfying `p`, in order, with
      every copy of a kept value kept and every copy of a dropped value dropped. */
  function Filter<T(==,!new)>(p: T -> bool, s: seq<T>): (r: seq<T>)
    ensures IsSubseq(r, s)
    ensures forall k :: 0 <= k < |r| ==> p(r[k])
    ensures forall x :: x in r <==> x in s && p(x)
    ensures forall x :: multiset(r)[x] == if p(x) then multiset(s)[x] else 0
    decreases |s|
  {
    if |s| == 0 then []
    else
      var rest := Filter(p, s[1..]);
      assert s == [s[0]] + s[1..];
      if p(s[0]) then [s[0]] + rest else rest
  }

  /** Filtering keeps the whole sequence exactly when every element passes. */
  lemma {:induction false} FilterKeepsAll<T(!new)>(p: T -> bool, s: seq<T>)
    ensures |Filter(p, s)| == |s| <==> forall i :: 0 <= i < |s| ==> p(s[i])
    ensures (forall i :: 0 <= i < |s| ==> p(s[i])) ==> Filter(p, s) == s
    decreases |s|
  {
    if |s| > 0 {
      var t := s[1..];
      FilterKeepsAll(p, t);
      SubseqLength(Filter(p, t), t);
      AllSplit(p, s);
      assert Filter(p, s) == if p(s[0]) then [s[0]] + Filter(p, t) else Filter(p, t);
      if p(s[0]) && Filter(p, t) == t {
        assert s == [s[0]] + t;
      }
    }
  }

  /** Every element passes exactly when the head and every element of the tail pass. */
  lemma AllSplit<T>(p: T -> bool, s: seq<T>)
    requires |s| > 0
    ensures (forall i :: 0 <= i < |s| ==> p(s[i])) <==> p(s[0]) && forall i :: 0 <= i < |s[1..]| ==> p(s[1..][i])
  {
    assert forall i :: 0 <= i < |s[1..]| ==> s[1..][i] == s[i + 1];
    if p(s[0]) && forall i :: 0 <= i < |s[1..]| ==> p(s[1..][i]) {
      forall i | 0 <= i < |s| ensures p(s[i]) {
        if i > 0 {
          assert s[i] == s[1..][i - 1];
        }
      }
    }
  }

  /** Filtering leaves nothing exactly when no element passes. */
  lemma FilterEmpty<T(!new)>(p: T -> bool, s: seq<T>)
    ensures |Filter(p, s)| == 0 <==> forall x :: x in s ==> !p(x)
  {
    if |Filter(p, s)| != 0 {
      assert Filter(p, s)[0] in Filter(p, s);
    }
  }

  /** Filtering with a predicate that keeps fewer values yields a subsequence of
      filtering with the weaker one. */
  lemma {:induction false} FilterMonotone<T(!new)>(p: T -> bool, q: T -> bool, s: seq<T>)
    requires forall x :: x in s && q(x) ==> p(x)
    ensures IsSubseq(Filter(q, s), Filter(p, s))
    decreases |s|
  {
    if |s| > 0 {
      FilterMonotone(p, q, s[1..]);
      var fp, fq := Filter(p, s[1..]), Filter(q, s[1..]);
      if q(s[0]) {
        assert Filter(q, s) == [s[0]] + fq;
        assert Filter(p, s) == [s[0]] + fp;
        assert ([s[0]] + fq)[1..] == fq;
        assert ([s[0]] + fp)[1..] == fp;
      } else if p(s[0]) {
        assert Filter(p, s) == [s[0]] + fp;
        SubseqDropFront(fq, s[0], fp);
      }
    }
  }

  /** Prepending an element to the larger sequence keeps a subsequence a subsequence. */
  lemma SubseqDropFront<T(!new)>(a: seq<T>, x: T, b: seq<T>)
    requires IsSubseq(a, b)
    ensures IsSubseq(a, [x] + b)
  {
    assert ([x] + b)[1..] == b;
  }

  /** Two predicates that agree on the elements of `s` filter it identically. */
  lemma {:induction false} FilterCongruent<T(!new)>(p: T -> bool, q: T -> bool, s: seq<T>)
    requires forall x :: x in s ==> p(x) == q(x)
    ensures Filter(p, s) == Filter(q, s)
    decreases |s|
  {
    if |s| > 0 {
      FilterCongruent(p, q, s[1..]);
    }
  }

  /** Filtering twice is filtering once with the conjunction. */
  lemma {:induction false} FilterFilter<T(!new)>(p: T -> bool, q: T -> bool, s: seq<T>)
    ensures Filter(q, Filter(p, s)) == Filter(x => p(x) && q(x), s)
    decreases |s|
  {
    if |s| > 0 {
      FilterFilter(p, q, s[1..]);
      var rest := Filter(p, s[1..]);
      if p(s[0]) {
        assert Filter(p, s) == [s[0]] + rest;
        assert ([s[0]] + rest)[1..] == rest;
      }
    }
  }

  /** Filtering a sequence with one more element at the end keeps that element
      at the end exactly when it passes. */
  lemma {:induction false} FilterSnoc<T(!new)>(p: T -> bool, s: seq<T>, y: T)
    ensures Filter(p, s + [y]) == Filter(p, s) + (if p(y) then [y] else [])
    decreases |s|
  {
    var tail: seq<T> := if p(y) then [y] else [];
    var t := s + [y];
    if |s| == 0 {
      assert t == [y] && t[1..] == [];
      FilterHead(p, t);
    } else {
      assert t[0] == s[0] && t[1..] == s[1..] + [y];
      FilterSnoc(p, s[1..], y);
      FilterHead(p, t);
      FilterHead(p, s);
      ConcatAssoc(if p(s[0]) then [s[0]] else [], Filter(p, s[1..]), tail);
    }
  }

  /** Filtering an element put in front of a sequence. */
  lemma FilterCons<T(!new)>(p: T -> bool, a: T, s: seq<T>)
    ensures Filter(p, [a] + s) == (if p(a) then [a] else []) + Filter(p, s)
  {
    assert ([a] + s)[0] == a && ([a] + s)[1..] == s;
  }

  /** Filtering a non-empty sequence, one step. */
  lemma FilterHead<T(!new)>(p: T -> bool, s: seq<T>)
    requires |s| > 0
    ensures Filter(p, s) == (if p(s[0]) then [s[0]] else []) + Filter(p, s[1..])
  {
  }

  lemma ConcatAssoc<T>(a: seq<T>, b: seq<T>, c: seq<T>)
    ensures a + (b + c) == (a + b) + c
  {
  }

  /** The length of a filtered sequence is the number of positions whose element
      passes. */
  lemma {:induction false} FilterCountsIndices<T(!new)>(p: T -> bool, s: seq<T>)
    ensures |Filter(p, s)| == |PassingIndices(p, s)|
    decreases |s|
  {
    if |s| > 0 {
      FilterCountsIndices(p, s[..|s| - 1]);
      FilterLengthLast(p, s);
      PassingIndicesLast(p, s);
    }
  }

  lemma FilterLengthLast<T(!new)>(p: T -> bool, s: seq<T>)
    requires |s| > 0
    ensures |Filter(p, s)| == |Filter(p, s[..|s| - 1])| + if p(s[|s| - 1]) then 1 else 0
  {
    assert s == s[..|s| - 1] + [s[|s| - 1]];
    FilterSnoc(p, s[..|s| - 1], s[|s| - 1]);
  }

  /** The positions of `s` whose element passes `p`. */
  function PassingIndices<T>(p: T -> bool, s: seq<T>): set<int> {
    set k | 0 <= k < |s| && p(s[k])
  }

  lemma PassingIndicesLast<T>(p: T -> bool, s: seq<T>)
    requires |s| > 0
    ensures |PassingIndices(p, s)| == |PassingIndices(p, s[..|s| - 1])| + if p(s[|s| - 1]) then 1 else 0
  {
    var n := |s| - 1;
    var init := s[..n];
    var a, b := PassingIndices(p, init), PassingIndices(p, s);
    assert n !in a;
    forall k ensures k in b <==> k in a || (p(s[n]) && k == n) {
      if 0 <= k < n {
        assert s[k] == init[k];
      }
    }
    if p(s[n]) {
      assert b == a + {n};
    } else {
      assert b == a;
    }
  }

  /** Every element either passes `p` or passes its negation `q`, never both. */
  lemma {:induction false} FilterSplitCount<T(!new)>(p: T -> bool, q: T -> bool, s: seq<T>)
    requires forall x :: q(x) == !p(x)
    ensures |Filter(p, s)| + |Filter(q, s)| == |s|
    decreases |s|
  {
    if |s| > 0 {
      FilterSplitCount(p, q, s[1..]);
    }
  }

  /** The index of the first element satisfying `p` (`Array.prototype.findIndex`,
      with `None` for `-1`). */
  function FindIndex<T>(s: seq<T>, p: T -> bool): (r: Option<nat>)
    ensures r.None? <==> forall i :: 0 <= i < |s| ==> !p(s[i])
    ensures r.Some? ==> r.value < |s| && p(s[r.value])
    ensures r.Some? ==> forall j :: 0 <= j < r.value ==> !p(s[j])
    decreases |s|
  {
    if |s| == 0 then None
    else if p(s[0]) then Some(0)
    else
      match FindIndex(s[1..], p)
      case None => None
      case Some(i) => Some(i + 1)
  }

  /** The first element satisfying `p` (`Array.prototype.find`, with `None` for
      `undefined`). */
  function Find<T>(s: seq<T>, p: T -> bool): (r: Option<T>)
    ensures r.None? <==> forall i :: 0 <= i < |s| ==> !p(s[i])
    ensures r.Some? ==> exists i :: (0 <= i < |s| && s[i] == r.value && p(s[i])
                                     && forall j :: 0 <= j < i ==> !p(s[j]))
  {
    match FindIndex(s, p)
    case None => None
    case Some(i) => Some(s[i])
  }

  /** Appends, one by one, each element of `xs` that the list does not hold yet:
      the `if (!list.includes(x)) list.push(x)` loop, and equally insertion into a
      JavaScript `Set` read back in insertion order. */
  function AppendAbsent<T(==,!new)>(acc: seq<T>, xs: seq<T>): (r: seq<T>)
    ensures |acc| <= |r| <= |acc| + |xs|
    ensures r[..|acc|] == acc
    ensures forall x :: x in r <==> x in acc || x in xs
    ensures forall i :: |acc| <= i < |r| ==> r[i] !in acc
    ensures NoDup(acc) ==> NoDup(r)
    decreases |xs|
  {
    if |xs| == 0 then acc
    else
      var next := if xs[0] in acc then acc else acc + [xs[0]];
      assert next[..|acc|] == acc;
      AppendAbsent(next, xs[1..])
  }

  /** The elements `r` holds beyond `acc` come in the order of their first
      occurrence in `xs`. */
  predicate AppendedInOrder<T(==,!new)>(acc: seq<T>, xs: seq<T>, r: seq<T>) {
    forall i, j :: |acc| <= i < j < |r| ==>
      r[i] in xs && r[j] in xs && IndexOf(xs, r[i]) < IndexOf(xs, r[j])
  }

  /** AppendAbsent adds the new elements in the order `xs` first mentions them. */
  lemma {:induction false} AppendAbsentOrder<T(!new)>(acc: seq<T>, xs: seq<T>)
    ensures AppendedInOrder(acc, xs, AppendAbsent(acc, xs))
    decreases |xs|
  {
    if |xs| > 0 {
      var r := AppendAbsent(acc, xs);
      var next := if xs[0] in acc then acc else acc + [xs[0]];
      assert r == AppendAbsent(next, xs[1..]);
      AppendAbsentOrder(next, xs[1..]);
      forall i, j | |acc| <= i < j < |r|
        ensures r[i] in xs && r[j] in xs && IndexOf(xs, r[i]) < IndexOf(xs, r[j])
      {
        PairInOrder(acc, xs, next, r, i, j);
      }
    }
  }

  /** One pair of added elements, after the first element of `xs` is handled. */
  lemma PairInOrder<T(!new)>(acc: seq<T>, xs: seq<T>, next: seq<T>, r: seq<T>, i: int, j: int)
    requires |xs| > 0 && next == (if xs[0] in acc then acc else acc + [xs[0]])
    requires r == AppendAbsent(next, xs[1..])
    requires AppendedInOrder(next, xs[1..], r)
    requires |acc| <= i < j < |r|
    ensures r[i] in xs && r[j] in xs && IndexOf(xs, r[i]) < IndexOf(xs, r[j])
  {
    BeyondNextInTail(acc, xs, next, r, j);
    if i >= |next| {
      BeyondNextInTail(acc, xs, next, r, i);
    } else {
      assert r[..|next|] == next;
      assert r[i] == xs[0];
    }
  }

  /** An element that AppendAbsent adds after handling `xs[0]` lies in the tail
      of `xs`, one place further along than in the tail. */
  lemma BeyondNextInTail<T(!new)>(acc: seq<T>, xs: seq<T>, next: seq<T>, r: seq<T>, k: int)
    requires |xs| > 0 && next == (if xs[0] in acc then acc else acc + [xs[0]])
    requires r == AppendAbsent(next, xs[1..])
    requires |next| <= k < |r|
    ensures r[k] in xs[1..] && r[k] != xs[0] && r[k] in xs
    ensures IndexOf(xs, r[k]) == IndexOf(xs[1..], r[k]) + 1
  {
    assert xs[0] in next;
    assert r[k] in r;
    assert xs == [xs[0]] + xs[1..];
  }

  /** Appending values that are all already present changes nothing. */
  lemma {:induction false} AppendAbsentPresent<T(!new)>(acc: seq<T>, xs: seq<T>)
    requires forall x :: x in xs ==> x in acc
    ensures AppendAbsent(acc, xs) == acc
    decreases |xs|
  {
    if |xs| > 0 {
      AppendAbsentPresent(acc, xs[1..]);
    }
  }

  /** Processing one more element at the end appends it exactly when it is new. */
  lemma {:induction false} AppendAbsentSnoc<T(!new)>(acc: seq<T>, xs: seq<T>, y: T)
    ensures AppendAbsent(acc, xs + [y])
      == (var r := AppendAbsent(acc, xs); if y in r then r else r + [y])
    decreases |xs|
  {
    if |xs| == 0 {
      assert xs + [y] == [y];
      var one: seq<T> := [y];
      assert one[1..] == [];
    } else {
      var next := if xs[0] in acc then acc else acc + [xs[0]];
      assert (xs + [y])[0] == xs[0];
      assert (xs + [y])[1..] == xs[1..] + [y];
      AppendAbsentSnoc(next, xs[1..], y);
    }
  }

  /** `[...new Set(xs)]`: the distinct elements of `xs`. */
  function Dedup<T(==,!new)>(xs: seq<T>): seq<T> {
    AppendAbsent([], xs)
  }

  /** The position of the first occurrence of `x` in `s`. */
  function IndexOf<T(==,!new)>(s: seq<T>, x: T): (i: nat)
    requires x in s
    ensures i < |s| && s[i] == x && x !in s[..i]
    decreases |s|
  {
    if s[0] == x then 0
    else
      assert x in s[1..] by { assert s == [s[0]] + s[1..]; }
      var j := IndexOf(s[1..], x);
      assert s[..j + 1] == [s[0]] + s[1..][..j];
      j + 1
  }

  lemma {:induction false} IndexOfSnoc<T(!new)>(s: seq<T>, y: T, x: T)
    requires x in s
    ensures x in s + [y] && IndexOf(s + [y], x) == IndexOf(s, x)
    decreases |s|
  {
    if s[0] != x {
      assert x in s[1..] by { assert s == [s[0]] + s[1..]; }
      assert (s + [y])[1..] == s[1..] + [y];
      IndexOfSnoc(s[1..], y, x);
    }
  }

  /** Deduplicating one more element at the end appends it exactly when it is new. */
  lemma DedupSnoc<T(!new)>(xs: seq<T>, y: T)
    ensures Dedup(xs + [y]) == if y in xs then Dedup(xs) else Dedup(xs) + [y]
  {
    AppendAbsentSnoc([], xs, y);
  }

  /** `Dedup(xs)` holds every element of `xs` exactly once, and lists them in the
      order of their first occurrence in `xs`. */
  lemma {:induction false} DedupFirstOccurrenceOrder<T(!new)>(xs: seq<T>)
    ensures NoDup(Dedup(xs))
    ensures forall x :: x in Dedup(xs) <==> x in xs
    ensures forall i, j :: 0 <= i < j < |Dedup(xs)| ==>
      IndexOf(xs, Dedup(xs)[i]) < IndexOf(xs, Dedup(xs)[j])
    decreases |xs|
  {
    if |xs| > 0 {
      var init, y := xs[..|xs| - 1], xs[|xs| - 1];
      assert xs == init + [y];
      DedupFirstOccurrenceOrder(init);
      DedupSnoc(init, y);
      var d := Dedup(init);
      forall x | x in d ensures IndexOf(xs, x) == IndexOf(init, x) {
        IndexOfSnoc(init, y, x);
      }
      if y !in init {
        DedupNewLast(xs, init, y, d);
      }
    }
  }

  lemma DedupNewLast<T(!new)>(xs: seq<T>, init: seq<T>, y: T, d: seq<T>)
    requires xs == init + [y] && y !in init && d == Dedup(init)
    requires forall x :: x in d <==> x in init
    requires forall x :: x in d ==> IndexOf(xs, x) == IndexOf(init, x)
    requires forall i, j :: 0 <= i < j < |d| ==> IndexOf(init, d[i]) < IndexOf(init, d[j])
    ensures forall i, j :: 0 <= i < j < |d + [y]| ==>
      IndexOf(xs, (d + [y])[i]) < IndexOf(xs, (d + [y])[j])
  {
    assert IndexOf(xs, y) == |init|;
    forall i, j | 0 <= i < j < |d + [y]|
      ensures IndexOf(xs, (d + [y])[i]) < IndexOf(xs, (d + [y])[j])
    {
      assert (d + [y])[i] == d[i];
      if j < |d| {
        assert (d + [y])[j] == d[j];
      } else {
        assert d[i] in init;
      }
    }
  }
}
