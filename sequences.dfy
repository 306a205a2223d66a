/** Order-preserving filtering of sequences, the shape of JavaScript's
    `Array.prototype.filter`, with the facts the commands and the scheduler
    rely on: membership, subsequence, idempotence and counting. */
module Sequences {

  /** The elements of `s` that satisfy `p`, in their original order. */
  function Filter<T(==,!new)>(s: seq<T>, p: T -> bool): (r: seq<T>)
    ensures |r| <= |s|
    ensures forall x :: x in r <==> x in s && p(x)
  {
    if s == [] then []
    else (if p(s[0]) then [s[0]] else []) + Filter(s[1..], p)
  }

  /** `idx` lists, strictly increasing, positions of `b` holding the elements of `a`:
      `a` is `b` with some elements deleted and the rest in their original order. */
  ghost predicate Embeds<T>(idx: seq<nat>, a: seq<T>, b: seq<T>)
  {
    && |idx| == |a|
    && (forall i :: 0 <= i < |idx| ==> idx[i] < |b| && a[i] == b[idx[i]])
    && (forall i :: 0 < i < |idx| ==> idx[i - 1] < idx[i])
  }

  function Shift(idx: seq<nat>): (r: seq<nat>)
  {
    seq(|idx|, i requires 0 <= i < |idx| => idx[i] + 1)
  }

  /** The positions of `s` whose elements satisfy `p`. */
  function KeptIndices<T>(s: seq<T>, p: T -> bool): seq<nat>
  {
    if s == [] then []
    else if p(s[0]) then [0] + Shift(KeptIndices(s[1..], p))
    else Shift(KeptIndices(s[1..], p))
  }

  /** `KeptIndices` lists, in increasing order, exactly the positions of `s`
      whose elements satisfy `p`: no position is missed, duplicates included. */
  lemma KeptIndicesExact<T>(s: seq<T>, p: T -> bool)
    ensures forall k :: 0 <= k < |KeptIndices(s, p)| ==>
      KeptIndices(s, p)[k] < |s| && p(s[KeptIndices(s, p)[k]])
    ensures forall k :: 0 < k < |KeptIndices(s, p)| ==> KeptIndices(s, p)[k - 1] < KeptIndices(s, p)[k]
    ensures forall i: nat :: i in KeptIndices(s, p) <==> i < |s| && p(s[i])
  {
    KeptIndicesOrdered(s, p);
    KeptIndicesMembers(s, p);
  }

  lemma {:induction false} KeptIndicesOrdered<T>(s: seq<T>, p: T -> bool)
    ensures forall k :: 0 <= k < |KeptIndices(s, p)| ==>
      KeptIndices(s, p)[k] < |s| && p(s[KeptIndices(s, p)[k]])
    ensures forall k :: 0 < k < |KeptIndices(s, p)| ==> KeptIndices(s, p)[k - 1] < KeptIndices(s, p)[k]
  {
    if s != [] {
      var t := s[1..];
      KeptIndicesOrdered(t, p);
      ShiftFacts(KeptIndices(t, p));
      if p(s[0]) {
        assert KeptIndices(s, p) == [0] + Shift(KeptIndices(t, p));
      }
    }
  }

  lemma {:induction false} KeptIndicesMembers<T>(s: seq<T>, p: T -> bool)
    ensures forall i: nat :: i in KeptIndices(s, p) <==> i < |s| && p(s[i])
  {
    if s != [] {
      var t := s[1..];
      KeptIndicesMembers(t, p);
      ShiftFacts(KeptIndices(t, p));
      forall i: nat ensures i in KeptIndices(s, p) <==> i < |s| && p(s[i]) {
        if i > 0 && i < |s| {
          assert s[i] == t[i - 1];
        }
      }
    }
  }

  /** Shifting moves every position up by one and keeps the order. */
  lemma ShiftFacts(idx: seq<nat>)
    ensures |Shift(idx)| == |idx|
    ensures forall k :: 0 <= k < |idx| ==> Shift(idx)[k] == idx[k] + 1
    ensures forall i: nat :: i in Shift(idx) <==> i > 0 && (i - 1) in idx
  {
    var sh := Shift(idx);
    forall i: nat ensures i in sh <==> i > 0 && (i - 1) in idx {
      if i in sh {
        var k :| 0 <= k < |sh| && sh[k] == i;
      }
      if i > 0 && (i - 1) in idx {
        var k :| 0 <= k < |idx| && idx[k] == i - 1;
        assert sh[k] == i;
      }
    }
  }

  /** Appending an element appends its position when it satisfies `p`. */
  lemma {:induction false} KeptIndicesSnoc<T>(s: seq<T>, x: T, p: T -> bool)
    ensures KeptIndices(s + [x], p) == KeptIndices(s, p) + (if p(x) then [|s|] else [])
  {
    if s != [] {
      assert (s + [x])[0] == s[0];
      assert (s + [x])[1..] == s[1..] + [x];
      KeptIndicesSnoc(s[1..], x, p);
      var a := KeptIndices(s[1..], p);
      var b: seq<nat> := if p(x) then [|s| - 1] else [];
      assert Shift(a + b) == Shift(a) + Shift(b);
      assert Shift(b) == (if p(x) then [|s|] else []);
    } else {
      assert [] + [x] == [x];
      assert [x][1..] == [];
    }
  }

  /** A filtered sequence is a subsequence of its source. */
  lemma {:induction false} FilterSubsequence<T(!new)>(s: seq<T>, p: T -> bool)
    ensures Embeds(KeptIndices(s, p), Filter(s, p), s)
  {
    if s != [] {
      FilterSubsequence(s[1..], p);
      var tail := KeptIndices(s[1..], p);
      var sh := Shift(tail);
      assert Embeds(sh, Filter(s[1..], p), s) by {
        forall i | 0 <= i < |sh| ensures sh[i] < |s| && Filter(s[1..], p)[i] == s[sh[i]] {
          assert s[1..][tail[i]] == s[tail[i] + 1];
        }
      }
      if p(s[0]) {
        var idx := [0] + sh;
        var r := [s[0]] + Filter(s[1..], p);
        assert Filter(s, p) == r;
        assert KeptIndices(s, p) == idx;
        forall i | 0 <= i < |idx| ensures idx[i] < |s| && r[i] == s[idx[i]] {
          if i > 0 {
            assert idx[i] == sh[i - 1];
            assert r[i] == Filter(s[1..], p)[i - 1];
          }
        }
      } else {
        assert Filter(s, p) == Filter(s[1..], p);
      }
    }
  }

  /** Filtering keeps everything exactly when every element satisfies the
      predicate, and then it gives back the very same sequence. */
  lemma {:induction false} FilterKeepsAll<T(!new)>(s: seq<T>, p: T -> bool)
    ensures |Filter(s, p)| == |s| <==> forall x :: x in s ==> p(x)
    ensures (forall x :: x in s ==> p(x)) ==> Filter(s, p) == s
  {
    if s != [] {
      FilterKeepsAll(s[1..], p);
      assert s == [s[0]] + s[1..];
      if !p(s[0]) {
        assert |Filter(s, p)| < |s|;
      }
    }
  }

  /** Filtering twice by the same predicate is filtering once. */
  lemma FilterIdempotent<T(!new)>(s: seq<T>, p: T -> bool)
    ensures Filter(Filter(s, p), p) == Filter(s, p)
  {
    FilterKeepsAll(Filter(s, p), p);
  }

  /** Filtering by a weaker predicate first does not change the result of
      filtering by a stronger one. */
  lemma {:induction false} FilterNarrowed<T(!new)>(s: seq<T>, p: T -> bool, q: T -> bool)
    requires forall x :: q(x) ==> p(x)
    ensures Filter(Filter(s, p), q) == Filter(s, q)
  {
    if s != [] {
      FilterNarrowed(s[1..], p, q);
      FilterAppend((if p(s[0]) then [s[0]] else []), Filter(s[1..], p), q);
    }
  }

  /** Filtering distributes over concatenation. */
  lemma {:induction false} FilterAppend<T(!new)>(a: seq<T>, b: seq<T>, p: T -> bool)
    ensures Filter(a + b, p) == Filter(a, p) + Filter(b, p)
  {
    if a != [] {
      assert (a + b)[1..] == a[1..] + b;
      FilterAppend(a[1..], b, p);
    } else {
      assert a + b == b;
    }
  }

  /** A predicate and its negation split a sequence between them. */
  lemma {:induction false} FilterComplement<T(!new)>(s: seq<T>, p: T -> bool, q: T -> bool)
    requires forall x :: q(x) == !p(x)
    ensures |Filter(s, p)| + |Filter(s, q)| == |s|
  {
    if s != [] {
      FilterComplement(s[1..], p, q);
    }
  }
}
