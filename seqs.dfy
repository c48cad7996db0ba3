/** Sequence helpers standing in for the Array.prototype operations the
    renderer relies on: filter, map and reverse. */
module Seqs {

  /** Array.prototype.filter: the elements satisfying `p`, in their original order. */
  function Filter<T(!new)>(s: seq<T>, p: T -> bool): (r: seq<T>)
    ensures |r| <= |s|
    ensures forall x :: x in r <==> x in s && p(x)
    ensures (forall x :: x in s ==> !p(x)) ==> r == []
    decreases |s|
  {
    if s == [] then []
    else
      var init := s[..|s| - 1];
      assert s == init + [s[|s| - 1]];
      if p(s[|s| - 1]) then Filter(init, p) + [s[|s| - 1]] else Filter(init, p)
  }

  /** Filtering distributes over concatenation: what comes earlier stays earlier. */
  lemma {:induction false} FilterAppend<T(!new)>(a: seq<T>, b: seq<T>, p: T -> bool)
    ensures Filter(a + b, p) == Filter(a, p) + Filter(b, p)
    decreases |b|
  {
    if b == [] {
      assert a + b == a;
    } else {
      var init := b[..|b| - 1];
      assert (a + b)[..|a + b| - 1] == a + init;
      assert (a + b)[|a + b| - 1] == b[|b| - 1];
      FilterAppend(a, init, p);
    }
  }

  /** Each element occurs in the filtered sequence exactly as often as in the
      input when it satisfies `p`, and not at all otherwise. */
  lemma {:induction false} FilterCount<T(!new)>(s: seq<T>, p: T -> bool, x: T)
    ensures multiset(Filter(s, p))[x] == if p(x) then multiset(s)[x] else 0
    decreases |s|
  {
    if s != [] {
      var init := s[..|s| - 1];
      assert s == init + [s[|s| - 1]];
      FilterCount(init, p, x);
    }
  }

  /** Filtering a sequence whose every element satisfies the predicate keeps it whole. */
  lemma {:induction false} FilterAll<T(!new)>(s: seq<T>, p: T -> bool)
    requires forall i :: 0 <= i < |s| ==> p(s[i])
    ensures Filter(s, p) == s
    decreases |s|
  {
    if s != [] {
      var init := s[..|s| - 1];
      assert s == init + [s[|s| - 1]];
      FilterAll(init, p);
    }
  }

  /** Filtering by a disjunction of two exclusive predicates gives, as a multiset,
      the union of the two separate filterings. */
  lemma FilterSplit<T(!new)>(s: seq<T>, p: T -> bool, q: T -> bool, pq: T -> bool)
    requires forall x :: pq(x) <==> p(x) || q(x)
    requires forall x :: !(p(x) && q(x))
    ensures multiset(Filter(s, pq)) == multiset(Filter(s, p)) + multiset(Filter(s, q))
  {
    forall x
      ensures multiset(Filter(s, pq))[x] == (multiset(Filter(s, p)) + multiset(Filter(s, q)))[x]
    {
      FilterCount(s, pq, x);
      FilterCount(s, p, x);
      FilterCount(s, q, x);
    }
  }

  /** Array.prototype.map. */
  function Map<T, U>(s: seq<T>, f: T -> U): (r: seq<U>)
    ensures |r| == |s|
    ensures forall i :: 0 <= i < |s| ==> r[i] == f(s[i])
  {
    seq(|s|, i requires 0 <= i < |s| => f(s[i]))
  }

  /** An element of a mapped sequence is the image of an element. */
  lemma MapMembers<T, U>(s: seq<T>, f: T -> U, y: U)
    ensures y in Map(s, f) <==> exists x :: x in s && f(x) == y
  {
    if y in Map(s, f) {
      var i :| 0 <= i < |s| && Map(s, f)[i] == y;
      assert s[i] in s;
    }
    if x :| x in s && f(x) == y {
      var i :| 0 <= i < |s| && s[i] == x;
      assert Map(s, f)[i] == y;
    }
  }

  lemma MapAppend<T, U>(a: seq<T>, b: seq<T>, f: T -> U)
    ensures Map(a + b, f) == Map(a, f) + Map(b, f)
  {
    assert forall i :: 0 <= i < |a + b| ==> Map(a + b, f)[i] == (Map(a, f) + Map(b, f))[i];
  }

  /** Array.prototype.reverse, as a value: element i of the result is element
      |s| - 1 - i of the input. */
  function Reversed<T>(s: seq<T>): (r: seq<T>)
    ensures |r| == |s|
    ensures forall i :: 0 <= i < |s| ==> r[i] == s[|s| - 1 - i]
  {
    if s == [] then [] else Reversed(s[1..]) + [s[0]]
  }

  /** Reversing is a permutation. */
  lemma {:induction false} ReversedMultiset<T>(s: seq<T>)
    ensures multiset(Reversed(s)) == multiset(s)
  {
    if s != [] {
      assert s == [s[0]] + s[1..];
      ReversedMultiset(s[1..]);
    }
  }

  /** Concatenation is associative; stated once, generically, so that proofs
      about sequences of long strings need not rediscover it. */
  lemma AppendAssociative<T>(a: seq<T>, b: seq<T>, c: seq<T>)
    ensures (a + b) + c == a + (b + c)
  {
  }

  lemma AppendEmpty<T>(a: seq<T>)
    ensures a + [] == a
  {
  }

  /** The first two and the last of five concatenated pieces are its slices. */
  lemma PiecesSlices<T>(r: seq<T>, a: seq<T>, b: seq<T>, c: seq<T>, d: seq<T>, e: seq<T>)
    requires r == a + b + c + d + e
    ensures |a| + |b| <= |r| && |e| <= |r|
    ensures r[..|a|] == a
    ensures r[|a|..|a| + |b|] == b
    ensures r[|r| - |e|..] == e
  {
  }

  /** Five pieces regrouped as a head, a middle and a tail. */
  lemma Regroup<T>(a: seq<T>, b: seq<T>, c: seq<T>, d: seq<T>, e: seq<T>)
    ensures a + b + c + d + e == (a + b) + c + (d + e)
  {
  }

  /** A sequence with `m` inserted between `head` and `tail`, seen as the
      sequence without it, split where `m` goes. */
  lemma Splice<T>(r0: seq<T>, r: seq<T>, head: seq<T>, m: seq<T>, tail: seq<T>)
    requires r0 == head + [] + tail && r == head + m + tail
    ensures |head| <= |r0| && r == r0[..|head|] + m + r0[|head|..]
  {
    assert r0[..|head|] == head && r0[|head|..] == tail;
  }

  /** A concatenation starts with its first piece. */
  lemma HeadOfAppend<T>(h: seq<T>, a: seq<T>, b: seq<T>, c: seq<T>)
    ensures |h| <= |h + a + b + c| && (h + a + b + c)[..|h|] == h
  {
    assert (h + a + b + c)[..|h|] == ((h + a) + b + c)[..|h|];
  }
}
