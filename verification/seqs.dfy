/** Generic facts about sequences and their multisets. */
module Seqs {

  /** `f` applied to every element of `s`. */
  function Map<A, B>(f: A -> B, s: seq<A>): (r: seq<B>)
    ensures |r| == |s| && forall k :: 0 <= k < |s| ==> r[k] == f(s[k])
  {
    if s == [] then [] else Map(f, s[..|s| - 1]) + [f(s[|s| - 1])]
  }

  lemma MapAppend<A, B>(f: A -> B, u: seq<A>, v: seq<A>)
    ensures Map(f, u + v) == Map(f, u) + Map(f, v)
  {
    assert forall k :: 0 <= k < |u + v| ==> Map(f, u + v)[k] == (Map(f, u) + Map(f, v))[k];
  }

  lemma Assoc<T>(a: seq<T>, b: seq<T>, c: seq<T>)
    ensures (a + b) + c == a + (b + c)
  {
  }

  /** Re-attaching the head of a non-empty sequence. */
  lemma HeadBack<T>(a: seq<T>, xs: seq<T>)
    requires xs != []
    ensures a + [xs[0]] + xs[1..] == a + xs
  {
    assert [xs[0]] + xs[1..] == xs;
    Assoc(a, [xs[0]], xs[1..]);
  }

  /** A non-empty sequence is its head before its tail. */
  lemma Cons<T>(s: seq<T>)
    requires s != []
    ensures s == [s[0]] + s[1..]
  {
  }

  /** The image of a non-empty sequence: the image of its head before the image of its tail. */
  lemma MapCons<A, B>(f: A -> B, s: seq<A>)
    requires s != []
    ensures Map(f, s) == [f(s[0])] + Map(f, s[1..])
  {
    Cons(s);
    MapAppend(f, [s[0]], s[1..]);
    assert Map(f, [s[0]]) == [f(s[0])];
  }

  /** A longer prefix: the shorter one and the next `b` elements. */
  lemma TakeMore<T>(s: seq<T>, a: nat, b: nat)
    requires a + b <= |s|
    ensures s[..a + b] == s[..a] + s[a..][..b]
  {
  }

  /** An element appended: the prefix before it is the sequence, and the last element is it. */
  lemma Snoc<T>(s: seq<T>, x: T)
    ensures (s + [x])[..|s|] == s && (s + [x])[|s|] == x
  {
  }

  /** The prefix of the whole length is the whole. */
  lemma TakeAll<T>(s: seq<T>)
    ensures s[..|s|] == s
  {
  }

  /** A prefix one element longer. */
  lemma TakeSnoc<T>(s: seq<T>, a: nat)
    requires a < |s|
    ensures s[..a + 1] == s[..a] + [s[a]]
  {
  }

  lemma SplitAt<T>(b: seq<T>, j: nat)
    requires j < |b|
    ensures b == b[..j] + [b[j]] + b[j + 1..]
  {
    assert b[j..] == [b[j]] + b[j + 1..];
  }

  lemma RemoveOne<T>(a: seq<T>, u: seq<T>, x: T, v: seq<T>)
    requires multiset(a + [x]) == multiset(u + [x] + v)
    ensures multiset(a) == multiset(u + v)
  {
    assert multiset(a) == multiset(a + [x]) - multiset{x};
    assert multiset(u + v) == multiset(u + [x] + v) - multiset{x};
  }

  lemma MapSplit<A, B>(f: A -> B, u: seq<A>, x: A, v: seq<A>)
    ensures multiset(Map(f, u + [x] + v)) == multiset(Map(f, u + v)) + multiset{f(x)}
  {
    MapAppend(f, u, [x]);
    MapAppend(f, u + [x], v);
    MapAppend(f, u, v);
    var P, V := Map(f, u), Map(f, v);
    assert Map(f, [x]) == [f(x)];
    assert multiset(P + [f(x)] + V) == multiset(P) + multiset{f(x)} + multiset(V);
  }

  lemma {:induction false} MapPerm<A, B>(f: A -> B, a: seq<A>, b: seq<A>)
    requires multiset(a) == multiset(b)
    ensures multiset(Map(f, a)) == multiset(Map(f, b))
    decreases |a|
  {
    if a == [] {
      assert |multiset(b)| == 0;
    } else {
      var x := a[|a| - 1];
      var a' := a[..|a| - 1];
      assert a == a' + [x];
      assert x in multiset(b);
      var j :| 0 <= j < |b| && b[j] == x;
      var u, v := b[..j], b[j + 1..];
      SplitAt(b, j);
      RemoveOne(a', u, x, v);
      MapPerm(f, a', u + v);
      MapAppend(f, a', [x]);
      MapSplit(f, u, x, v);
    }
  }

  /** A value at two positions is counted at least twice. */
  lemma Repeated<T>(s: seq<T>, j: nat, k: nat)
    requires j < k < |s| && s[j] == s[k]
    ensures multiset(s)[s[k]] >= 2
  {
    SplitAt(s, k);
    assert s[..k][j] == s[k];
    assert multiset(s) == multiset(s[..k]) + multiset{s[k]} + multiset(s[k + 1..]);
  }

  /** How many times `x` occurs in `s`. */
  function Count<T(==)>(s: seq<T>, x: T): (c: nat)
    ensures c <= |s|
  {
    if s == [] then 0 else Count(s[..|s| - 1], x) + (if s[|s| - 1] == x then 1 else 0)
  }

  /** `a` and `b` hold the same elements, each as many times. */
  ghost predicate Perm<T(!new)>(a: seq<T>, b: seq<T>)
  {
    forall x :: Count(a, x) == Count(b, x)
  }

  /** Count is the multiplicity of the multiset of the sequence. */
  lemma {:induction false} CountMultiset<T>(s: seq<T>, x: T)
    ensures Count(s, x) == multiset(s)[x]
  {
    if s != [] {
      CountMultiset(s[..|s| - 1], x);
      assert s == s[..|s| - 1] + [s[|s| - 1]];
    }
  }

  /** A permutation in the sense of Perm has the same multiset. */
  lemma PermMultiset<T(!new)>(a: seq<T>, b: seq<T>)
    requires Perm(a, b)
    ensures multiset(a) == multiset(b)
  {
    forall x
      ensures multiset(a)[x] == multiset(b)[x]
    {
      CountMultiset(a, x);
      CountMultiset(b, x);
    }
  }

  lemma CountSnoc<T>(s: seq<T>, y: T, x: T)
    ensures Count(s + [y], x) == Count(s, x) + (if y == x then 1 else 0)
  {
    assert (s + [y])[..|s|] == s;
  }

  /** An element at some place is counted. */
  lemma {:induction false} CountAt<T>(s: seq<T>, k: nat)
    requires k < |s|
    ensures Count(s, s[k]) > 0
  {
    if k < |s| - 1 {
      CountAt(s[..|s| - 1], k);
    }
  }

  /** A counted element occurs at some place. */
  lemma {:induction false} CountIn<T>(s: seq<T>, x: T)
    requires Count(s, x) > 0
    ensures x in s
  {
    if s[|s| - 1] != x {
      CountIn(s[..|s| - 1], x);
    }
  }

  /** An element that does not occur is not counted. */
  lemma {:induction false} CountAbsent<T>(s: seq<T>, x: T)
    requires x !in s
    ensures Count(s, x) == 0
  {
    if s != [] {
      CountAbsent(s[..|s| - 1], x);
    }
  }

  /** In a sequence without repeats every element is counted at most once. */
  lemma {:induction false} CountDistinct<T>(s: seq<T>, x: T)
    requires forall j, k :: 0 <= j < k < |s| ==> s[j] != s[k]
    ensures Count(s, x) <= 1
  {
    if s != [] {
      var init := s[..|s| - 1];
      CountDistinct(init, x);
      if s[|s| - 1] == x {
        forall j | 0 <= j < |init|
          ensures init[j] != x
        {
          assert s[j] != s[|s| - 1];
        }
        CountAbsent(init, x);
      }
    }
  }

  /** Overwriting one place trades one occurrence of the old value for one of the new. */
  lemma {:induction false} CountPut<T>(s: seq<T>, i: nat, v: T, x: T)
    requires i < |s|
    ensures Count(s[i := v], x) + (if s[i] == x then 1 else 0) == Count(s, x) + (if v == x then 1 else 0)
    decreases |s|
  {
    var s' := s[i := v];
    assert s'[..|s| - 1] == if i == |s| - 1 then s[..|s| - 1] else s[..|s| - 1][i := v];
    if i < |s| - 1 {
      CountPut(s[..|s| - 1], i, v, x);
    }
  }

  /**
   * Moving the value at `j` into place `i` and then `x` into place `j`
   * holds the same elements as writing `x` into place `i`.
   */
  lemma Move<T(!new)>(h: seq<T>, i: nat, j: nat, x: T, r: seq<T>)
    requires i < |h| && j < |h| && i != j
    requires Perm(r, h[i := h[j]][j := x])
    ensures Perm(r, h[i := x])
  {
    forall y
      ensures Count(r, y) == Count(h[i := x], y)
    {
      CountPut(h[i := h[j]], j, x, y);
      CountPut(h, i, h[j], y);
      CountPut(h, i, x, y);
    }
  }
}
