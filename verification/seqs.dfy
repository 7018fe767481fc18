/** Sequence helpers shared by every part of the model: distinctness, ordered
    subsets, order-preserving de-duplication, flattening and fixed-size
    batching. */
module Seqs {
  import opened Wrappers

  /** No element occurs twice. */
  predicate Distinct<T(==)>(s: seq<T>) {
    forall i, j :: 0 <= i < |s| && 0 <= j < |s| && i != j ==> s[i] != s[j]
  }

  /** `a` is obtained from `b` by deleting elements: an ordered subset. */
  predicate IsSubsequence<T(==)>(a: seq<T>, b: seq<T>)
    decreases |b|
  {
    if |a| == 0 then true
    else if |b| == 0 then false
    else if a[0] == b[0] then IsSubsequence(a[1..], b[1..])
    else IsSubsequence(a, b[1..])
  }

  lemma {:induction false} SubsequenceOfTail<T>(a: seq<T>, b: seq<T>)
    requires |b| > 0 && IsSubsequence(a, b[1..])
    ensures IsSubsequence(a, b)
    decreases |a| + |b|
  {
    if |a| > 0 && a[0] == b[0] {
      SubsequenceDropHead(a, b[1..]);
    }
  }

  lemma {:induction false} SubsequenceDropHead<T>(a: seq<T>, b: seq<T>)
    requires |a| > 0 && IsSubsequence(a, b)
    ensures IsSubsequence(a[1..], b)
    decreases |a| + |b|
  {
    assert |b| > 0;
    if a[0] == b[0] {
      SubsequenceOfTail(a[1..], b);
    } else {
      SubsequenceDropHead(a, b[1..]);
      SubsequenceOfTail(a[1..], b);
    }
  }

  lemma {:induction false} SubsequenceElements<T>(a: seq<T>, b: seq<T>)
    requires IsSubsequence(a, b)
    ensures forall x :: x in a ==> x in b
    decreases |b|
  {
    if |a| > 0 {
      if a[0] == b[0] {
        SubsequenceElements(a[1..], b[1..]);
        assert forall x :: x in a ==> x == a[0] || x in a[1..];
      } else {
        SubsequenceElements(a, b[1..]);
      }
    }
  }

  lemma {:induction false} SubsequenceReflexive<T>(s: seq<T>)
    ensures IsSubsequence(s, s)
    decreases |s|
  {
    if |s| > 0 {
      SubsequenceReflexive(s[1..]);
    }
  }

  lemma {:induction false} SubsequenceTransitive<T>(a: seq<T>, b: seq<T>, c: seq<T>)
    requires IsSubsequence(a, b) && IsSubsequence(b, c)
    ensures IsSubsequence(a, c)
    decreases |c|
  {
    if |a| == 0 {
    } else {
      assert |b| > 0 && |c| > 0;
      if b[0] == c[0] {
        if a[0] == b[0] {
          SubsequenceTransitive(a[1..], b[1..], c[1..]);
        } else {
          SubsequenceTransitive(a, b[1..], c[1..]);
          SubsequenceOfTail(a, c);
        }
      } else {
        SubsequenceTransitive(a, b, c[1..]);
        SubsequenceOfTail(a, c);
      }
    }
  }

  /** Two duplicate-free sequences with no element in common concatenate to
      a duplicate-free sequence. */
  lemma DistinctConcat<T>(a: seq<T>, b: seq<T>)
    requires Distinct(a) && Distinct(b)
    requires forall x :: x in a ==> x !in b
    ensures Distinct(a + b)
  {
    var s := a + b;
    forall i, j | 0 <= i < |s| && 0 <= j < |s| && i != j ensures s[i] != s[j] {
      if i < |a| && j >= |a| {
        assert s[i] in a && s[j] == b[j - |a|];
      } else if j < |a| && i >= |a| {
        assert s[j] in a && s[i] == b[i - |a|];
      } else if i >= |a| {
        assert s[i] == b[i - |a|] && s[j] == b[j - |a|];
      }
    }
  }

  /** The elements of `s` that belong to `keep`, in their original order. */
  function FilterIn<T(==,!new)>(s: seq<T>, keep: set<T>): (r: seq<T>)
    ensures IsSubsequence(r, s)
    ensures forall x :: x in r <==> x in s && x in keep
    ensures |r| <= |s|
  {
    if |s| == 0 then []
    else if s[0] in keep then
      var tail := FilterIn(s[1..], keep);
      assert forall x :: x in s <==> x == s[0] || x in s[1..];
      [s[0]] + tail
    else
      var tail := FilterIn(s[1..], keep);
      assert forall x :: x in s <==> x == s[0] || x in s[1..];
      SubsequenceOfTail(tail, s);
      tail
  }

  lemma {:induction false} FilterInDistinct<T(!new)>(s: seq<T>, keep: set<T>)
    requires Distinct(s)
    ensures Distinct(FilterIn(s, keep))
    decreases |s|
  {
    if |s| > 0 {
      assert Distinct(s[1..]) by {
        forall i, j | 0 <= i < |s[1..]| && 0 <= j < |s[1..]| && i != j
          ensures s[1..][i] != s[1..][j]
        {
          assert s[1..][i] == s[i + 1] && s[1..][j] == s[j + 1];
        }
      }
      FilterInDistinct(s[1..], keep);
      if s[0] in keep {
        var tail := FilterIn(s[1..], keep);
        assert s[0] !in s[1..] by {
          forall k | 0 <= k < |s[1..]| ensures s[1..][k] != s[0] {
            assert s[1..][k] == s[k + 1];
          }
        }
        assert s[0] !in tail;
        var r := [s[0]] + tail;
        forall i, j | 0 <= i < |r| && 0 <= j < |r| && i != j ensures r[i] != r[j] {
          if i == 0 {
            assert r[j] == tail[j - 1];
          } else if j == 0 {
            assert r[i] == tail[i - 1];
          } else {
            assert r[i] == tail[i - 1] && r[j] == tail[j - 1];
          }
        }
      }
    }
  }

  /** Filtering by a set holding every element keeps the sequence. */
  lemma {:induction false} FilterInAll<T(!new)>(s: seq<T>, keep: set<T>)
    requires forall x :: x in s ==> x in keep
    ensures FilterIn(s, keep) == s
    decreases |s|
  {
    if |s| > 0 {
      assert forall x :: x in s[1..] ==> x in s;
      FilterInAll(s[1..], keep);
    }
  }

  /** Filtering by a set holding no element leaves nothing. */
  lemma {:induction false} FilterInNone<T(!new)>(s: seq<T>, keep: set<T>)
    requires forall j :: 0 <= j < |s| ==> s[j] !in keep
    ensures FilterIn(s, keep) == []
    decreases |s|
  {
    if |s| > 0 {
      FilterInNone(s[1..], keep);
    }
  }

  /** Filtering by a set that only one position meets keeps that element
      alone. */
  lemma {:induction false} FilterInUnique<T(!new)>(s: seq<T>, keep: set<T>, i: int)
    requires 0 <= i < |s|
    requires forall j :: 0 <= j < |s| ==> (s[j] in keep <==> j == i)
    ensures FilterIn(s, keep) == [s[i]]
    decreases |s|
  {
    var tail := FilterIn(s[1..], keep);
    if i == 0 {
      FilterInNone(s[1..], keep);
    } else {
      FilterInUnique(s[1..], keep, i - 1);
    }
  }

  /** Two kept positions leave at least two elements. */
  lemma {:induction false} FilterInTwo<T(!new)>(s: seq<T>, keep: set<T>, a: int, b: int)
    requires 0 <= a < b < |s|
    requires s[a] in keep && s[b] in keep
    ensures |FilterIn(s, keep)| >= 2
    decreases |s|
  {
    if a == 0 {
      assert s[1..][b - 1] in FilterIn(s[1..], keep);
    } else {
      FilterInTwo(s[1..], keep, a - 1, b - 1);
    }
  }

  /** Filtering by two sets that divide the elements between them splits the
      sequence: the two results have the lengths of the whole together. */
  lemma {:induction false} FilterInSplit<T(!new)>(s: seq<T>, keep: set<T>, other: set<T>)
    requires forall x :: x in s ==> (x in keep <==> x !in other)
    ensures |FilterIn(s, keep)| + |FilterIn(s, other)| == |s|
    decreases |s|
  {
    if |s| > 0 {
      assert forall x :: x in s[1..] ==> x in s;
      FilterInSplit(s[1..], keep, other);
    }
  }

  /** The least index `i` in `[from, n)` with `p(i)`, if there is one. */
  function FirstFrom(n: nat, from: nat, p: nat -> bool): (r: Option<nat>)
    requires from <= n
    ensures r.None? ==> forall i :: from <= i < n ==> !p(i)
    ensures r.Some? ==> from <= r.value < n && p(r.value) && forall i :: from <= i < r.value ==> !p(i)
    decreases n - from
  {
    if from == n then None
    else if p(from) then Some(from)
    else FirstFrom(n, from + 1, p)
  }

  /** Position of the first occurrence of `x` in `s`. */
  function FirstIndex<T(==)>(s: seq<T>, x: T): (k: nat)
    requires x in s
    ensures k < |s| && s[k] == x
    ensures forall j :: 0 <= j < k ==> s[j] != x
  {
    if s[0] == x then 0 else 1 + FirstIndex(s[1..], x)
  }

  lemma FirstIndexAppend<T>(s: seq<T>, x: T, y: T)
    requires y in s
    ensures FirstIndex(s + [x], y) == FirstIndex(s, y)
  {
    var k := FirstIndex(s, y);
    var k' := FirstIndex(s + [x], y);
    assert (s + [x])[k] == y;
    assert k' <= k;
    assert (s + [x])[k'] == s[k'];
  }

  lemma FirstIndexAppendNew<T>(s: seq<T>, x: T)
    requires x !in s
    ensures FirstIndex(s + [x], x) == |s|
  {
    assert (s + [x])[|s|] == x;
    assert forall j :: 0 <= j < |s| ==> (s + [x])[j] == s[j];
  }

  /** Order-preserving de-duplication: every element once, at the position of
      its first occurrence. */
  function Dedup<T(==,!new)>(s: seq<T>): (r: seq<T>)
    ensures Distinct(r)
    ensures forall x :: x in r <==> x in s
    ensures forall i, j :: 0 <= i < j < |r| ==> FirstIndex(s, r[i]) < FirstIndex(s, r[j])
    ensures |r| <= |s|
    decreases |s|
  {
    if |s| == 0 then []
    else
      var p := s[..|s| - 1];
      var x := s[|s| - 1];
      assert s == p + [x];
      var d := Dedup(p);
      forall y | y in p ensures FirstIndex(s, y) == FirstIndex(p, y) {
        FirstIndexAppend(p, x, y);
      }
      if x in d then
        d
      else
        FirstIndexAppendNew(p, x);
        var r := d + [x];
        assert forall i :: 0 <= i < |d| ==> r[i] == d[i] && r[i] in p;
        r
  }

  /** The defined images under `f` of the elements, in order. */
  function FilterMap<A, B>(s: seq<A>, f: A -> Option<B>): (r: seq<B>)
    ensures |r| <= |s|
    decreases |s|
  {
    if |s| == 0 then []
    else
      var p := FilterMap(s[..|s| - 1], f);
      match f(s[|s| - 1])
      case Some(b) => p + [b]
      case None => p
  }

  lemma FilterMapSnoc<A, B>(s: seq<A>, x: A, f: A -> Option<B>)
    ensures FilterMap(s + [x], f) == match f(x) case Some(b) => FilterMap(s, f) + [b] case None => FilterMap(s, f)
  {
    assert (s + [x])[..|s|] == s;
  }

  /** One more element at the end of both sequences keeps a subsequence
      one, with or without that element on the smaller side. */
  lemma {:induction false} SubsequenceSnoc<T>(a: seq<T>, b: seq<T>, x: T)
    requires IsSubsequence(a, b)
    ensures IsSubsequence(a + [x], b + [x]) && IsSubsequence(a, b + [x])
    decreases |b|
  {
    if |b| > 0 {
      assert (b + [x])[1..] == b[1..] + [x];
      if |a| == 0 {
        SubsequenceSnoc(a, b[1..], x);
      } else if a[0] == b[0] {
        assert (a + [x])[1..] == a[1..] + [x];
        SubsequenceSnoc(a[1..], b[1..], x);
      } else {
        SubsequenceSnoc(a, b[1..], x);
      }
    } else {
      assert a == [];
      assert IsSubsequence<T>([], []);
    }
  }

  /** Keeping some elements unchanged and dropping the others keeps them in
      their order. */
  lemma {:induction false} FilterMapSubsequence<T>(s: seq<T>, f: T -> Option<T>)
    requires forall x :: f(x).Some? ==> f(x).value == x
    ensures IsSubsequence(FilterMap(s, f), s)
    decreases |s|
  {
    if |s| > 0 {
      var p, x := s[..|s| - 1], s[|s| - 1];
      FilterMapSubsequence(p, f);
      SubsequenceSnoc(FilterMap(p, f), p, x);
      FrontLast(s, |s| - 1);
      FilterMapSnoc(p, x, f);
    }
  }

  /** An image is kept exactly when some element has it. */
  lemma {:induction false} FilterMapMembers<A, B>(s: seq<A>, f: A -> Option<B>, b: B)
    ensures b in FilterMap(s, f) <==> exists i :: 0 <= i < |s| && f(s[i]) == Some(b)
    decreases |s|
  {
    if |s| > 0 {
      var p := s[..|s| - 1];
      FilterMapMembers(p, f, b);
      if b in FilterMap(s, f) && b in FilterMap(p, f) {
        var i :| 0 <= i < |p| && f(p[i]) == Some(b);
        assert s[i] == p[i];
      }
      if exists i :: 0 <= i < |s| && f(s[i]) == Some(b) {
        var i :| 0 <= i < |s| && f(s[i]) == Some(b);
        if i < |p| {
          assert p[i] == s[i];
        }
      }
    }
  }

  /** The positions whose image is defined. */
  function Defined<A, B>(s: seq<A>, f: A -> Option<B>): set<int> {
    set i | 0 <= i < |s| && f(s[i]).Some?
  }

  /** One image is kept per element whose image is defined. */
  lemma {:induction false} FilterMapCount<A, B>(s: seq<A>, f: A -> Option<B>)
    ensures |FilterMap(s, f)| == |Defined(s, f)|
    decreases |s|
  {
    if |s| > 0 {
      var n := |s|;
      var p := s[..n - 1];
      FilterMapCount(p, f);
      if f(s[n - 1]).Some? {
        assert Defined(s, f) == Defined(p, f) + {n - 1};
      } else {
        assert Defined(s, f) == Defined(p, f);
      }
    }
  }

  /** The defined images of the elements, each once, in order of first
      appearance, kept by remembering the images already seen. */
  method DedupImages<A, B(==,!new)>(s: seq<A>, f: A -> Option<B>) returns (r: seq<B>)
    ensures r == Dedup(FilterMap(s, f))
  {
    r := [];
    var seen: set<B> := {};
    var i := 0;
    while i < |s|
      invariant 0 <= i <= |s|
      invariant r == Dedup(FilterMap(s[..i], f))
      invariant forall x :: x in seen <==> x in r
    {
      DedupImagesStep(s, i, f);
      match f(s[i]) {
        case Some(y) =>
          if y !in seen {
            assert y !in r;
            r := r + [y];
            seen := seen + {y};
          } else {
            assert y in r;
          }
        case None =>
      }
      i := i + 1;
    }
    assert s[..i] == s;
  }

  lemma DedupImagesStep<A, B(!new)>(s: seq<A>, i: nat, f: A -> Option<B>)
    requires i < |s|
    ensures var d := Dedup(FilterMap(s[..i], f));
            Dedup(FilterMap(s[..i + 1], f)) == match f(s[i]) case Some(y) => (if y in d then d else d + [y]) case None => d
  {
    assert s[..i + 1] == s[..i] + [s[i]];
    FilterMapSnoc(s[..i], s[i], f);
    if f(s[i]).Some? {
      DedupSnoc(FilterMap(s[..i], f), f(s[i]).value);
    }
  }

  /** De-duplicating one more element keeps it only when it is new. */
  lemma DedupSnoc<T(!new)>(p: seq<T>, x: T)
    ensures Dedup(p + [x]) == if x in p then Dedup(p) else Dedup(p) + [x]
  {
    assert (p + [x])[..|p|] == p;
  }

  /** Dedup of a sequence without repetitions changes nothing. */
  lemma {:induction false} DedupOfDistinct<T(!new)>(s: seq<T>)
    requires Distinct(s)
    ensures Dedup(s) == s
    decreases |s|
  {
    if |s| > 0 {
      var p := s[..|s| - 1];
      var x := s[|s| - 1];
      assert Distinct(p);
      DedupOfDistinct(p);
      assert x !in p by {
        forall k | 0 <= k < |p| ensures p[k] != x {
          assert p[k] == s[k];
        }
      }
      FrontLast(s, |s| - 1);
    }
  }

  /** The values the defined entries hold, in order. */
  function Values<T>(s: seq<Option<T>>): (r: seq<T>)
    ensures |r| <= |s|
    decreases |s|
  {
    if |s| == 0 then []
    else
      var p := Values(s[..|s| - 1]);
      match s[|s| - 1]
      case Some(x) => p + [x]
      case None => p
  }

  /** A non-empty sequence is its front and its last element. */
  lemma FrontLast<T>(s: seq<T>, n: nat)
    requires n + 1 == |s|
    ensures s == s[..n] + [s[n]]
  {
  }

  lemma ValuesSnoc<T>(s: seq<Option<T>>, x: Option<T>)
    ensures Values(s + [x]) == match x case Some(v) => Values(s) + [v] case None => Values(s)
  {
    assert (s + [x])[..|s|] == s;
  }

  /** A value is kept exactly when some entry holds it. */
  lemma {:induction false} ValuesMembers<T>(s: seq<Option<T>>, v: T)
    ensures v in Values(s) <==> Some(v) in s
    decreases |s|
  {
    if |s| > 0 {
      var p := s[..|s| - 1];
      ValuesMembers(p, v);
      assert s == p + [s[|s| - 1]];
    }
  }

  /** With every entry defined, every entry is kept. */
  lemma {:induction false} ValuesAllDefined<T>(s: seq<Option<T>>)
    requires forall i :: 0 <= i < |s| ==> s[i].Some?
    ensures |Values(s)| == |s|
    decreases |s|
  {
    if |s| > 0 {
      ValuesAllDefined(s[..|s| - 1]);
    }
  }

  /** Concatenation of a sequence of sequences. */
  function Flatten<T>(ss: seq<seq<T>>): (r: seq<T>)
    decreases |ss|
  {
    if |ss| == 0 then [] else ss[0] + Flatten(ss[1..])
  }

  lemma {:induction false} FlattenLength<T>(ss: seq<seq<T>>, n: nat)
    requires forall i :: 0 <= i < |ss| ==> |ss[i]| == n
    ensures |Flatten(ss)| == n * |ss|
    decreases |ss|
  {
    if |ss| > 0 {
      FlattenLength(ss[1..], n);
    }
  }

  /** An element of the concatenation comes from one of the parts. */
  lemma {:induction false} FlattenMembers<T>(ss: seq<seq<T>>, x: T)
    ensures x in Flatten(ss) <==> exists i :: 0 <= i < |ss| && x in ss[i]
    decreases |ss|
  {
    if |ss| > 0 {
      FlattenMembers(ss[1..], x);
      if exists i :: 0 <= i < |ss| && x in ss[i] {
        var i :| 0 <= i < |ss| && x in ss[i];
        if i > 0 {
          assert ss[1..][i - 1] == ss[i];
        }
      }
      if x in Flatten(ss[1..]) {
        var i :| 0 <= i < |ss[1..]| && x in ss[1..][i];
        assert ss[i + 1] == ss[1..][i];
      }
    }
  }

  /** Consecutive slices `s[i:i+k]` for `i` in `range(0, len(s), k)`: there
      are `ceil(|s| / k)` of them, stated as `(|r| - 1) * k < |s| <= |r| * k`. */
  function Chunks<T>(s: seq<T>, k: nat): (r: seq<seq<T>>)
    requires k > 0
    ensures Flatten(r) == s
    ensures (|r| - 1) * k < |s| <= |r| * k
    ensures forall i :: 0 <= i < |r| ==> 0 < |r[i]| <= k
    ensures forall i :: 0 <= i < |r| - 1 ==> |r[i]| == k
    decreases |s|
  {
    if |s| == 0 then []
    else if |s| <= k then
      assert Flatten([s]) == s + Flatten([s][1..]);
      [s]
    else
      var rest := Chunks(s[k..], k);
      var r := [s[..k]] + rest;
      assert r[1..] == rest;
      assert s == s[..k] + s[k..];
      assert (|r| - 1) * k == |rest| * k;
      assert |r| * k == |rest| * k + k;
      r
  }

  /** The images under `f` of the elements, in order. */
  function Image<T, U>(s: seq<T>, f: T -> U): (r: seq<U>)
    ensures |r| == |s|
    ensures forall i :: 0 <= i < |s| ==> r[i] == f(s[i])
  {
    seq(|s|, i requires 0 <= i < |s| => f(s[i]))
  }

  lemma ImageConcat<T, U>(p: seq<T>, q: seq<T>, f: T -> U)
    ensures Image(p + q, f) == Image(p, f) + Image(q, f)
  {
    assert forall i :: 0 <= i < |p + q| ==> Image(p + q, f)[i] == (Image(p, f) + Image(q, f))[i];
  }

  /** Permuting a sequence permutes its images. */
  lemma {:induction false} ImagePermutation<T, U>(a: seq<T>, b: seq<T>, f: T -> U)
    requires multiset(a) == multiset(b)
    ensures multiset(Image(a, f)) == multiset(Image(b, f))
    decreases |a|
  {
    if |a| == 0 {
      assert |b| == |multiset(b)| == 0;
    } else {
      var x := a[0];
      assert x in multiset(b);
      var j :| 0 <= j < |b| && b[j] == x;
      var b' := b[..j] + b[j + 1..];
      assert b == b[..j] + [x] + b[j + 1..];
      assert a == [x] + a[1..];
      assert multiset(a[1..]) == multiset(a) - multiset{x};
      assert multiset(b') == multiset(b) - multiset{x};
      ImagePermutation(a[1..], b', f);
      ImageConcat([x], a[1..], f);
      ImageConcat(b[..j] + [x], b[j + 1..], f);
      ImageConcat(b[..j], [x], f);
      ImageConcat(b[..j], b[j + 1..], f);
    }
  }
}
