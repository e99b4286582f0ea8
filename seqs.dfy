/** Sequence helpers shared by the model: `lo.Chunk`, flattening, order-keeping
    filtering and first-occurrence de-duplication. */
module Seqs {

  /** Concatenation of a sequence of chunks, in order. */
  function Flatten<T>(ss: seq<seq<T>>): seq<T>
  {
    if |ss| == 0 then [] else ss[0] + Flatten(ss[1..])
  }

  /** Flattening a one-longer prefix appends the next chunk. */
  lemma {:induction false} FlattenSnoc<T>(ss: seq<seq<T>>, k: nat)
    requires k < |ss|
    ensures Flatten(ss[..k + 1]) == Flatten(ss[..k]) + ss[k]
  {
    if k == 0 {
      assert ss[..1] == [ss[0]];
      assert ss[..1][1..] == [];
    } else {
      assert ss[..k + 1][1..] == ss[1..][..k];
      assert ss[..k][1..] == ss[1..][..k - 1];
      FlattenSnoc(ss[1..], k - 1);
    }
  }

  lemma AppendInit<T>(a: seq<T>, b: seq<T>)
    requires |b| > 0
    ensures (a + b)[..|a + b| - 1] == a + b[..|b| - 1]
    ensures (a + b)[|a + b| - 1] == b[|b| - 1]
  {
  }

  /** An element of one of the chunks is an element of their concatenation. */
  lemma {:induction false} FlattenHas<T>(ss: seq<seq<T>>, c: seq<T>, x: T)
    requires c in ss && x in c
    ensures x in Flatten(ss)
  {
    if ss[0] != c {
      FlattenHas(ss[1..], c, x);
    }
  }

  /** Every element of every chunk comes from the chunked sequence. */
  lemma ChunkMembers<T>(s: seq<T>, size: nat, c: seq<T>, x: T)
    requires size > 0
    requires c in Chunk(s, size) && x in c
    ensures x in s
  {
    FlattenHas(Chunk(s, size), c, x);
  }

  /** `lo.Chunk(s, size)`: splits `s`, in order, into pieces of `size`
      elements, the last one possibly shorter. `lo.Chunk` panics on a
      non-positive size, hence the precondition. */
  function Chunk<T>(s: seq<T>, size: nat): (r: seq<seq<T>>)
    requires size > 0
    ensures Flatten(r) == s
    ensures forall i :: 0 <= i < |r| ==> 0 < |r[i]| <= size
    ensures forall i :: 0 <= i < |r| - 1 ==> |r[i]| == size
    ensures |s| == 0 <==> |r| == 0
    decreases |s|
  {
    if |s| == 0 then []
    else if |s| <= size then [s]
    else [s[..size]] + Chunk(s[size..], size)
  }

  /** The elements of `s` that satisfy `p`, in their original order. */
  function Filter<T>(s: seq<T>, p: T -> bool): seq<T>
  {
    if |s| == 0 then []
    else Filter(s[..|s| - 1], p) + (if p(s[|s| - 1]) then [s[|s| - 1]] else [])
  }

  /** `Filter` keeps each element satisfying `p` as often as it occurs, and
      nothing else. */
  lemma {:induction false} FilterCount<T>(s: seq<T>, p: T -> bool, x: T)
    ensures multiset(Filter(s, p))[x] == if p(x) then multiset(s)[x] else 0
  {
    if |s| > 0 {
      var init, last := s[..|s| - 1], s[|s| - 1];
      assert s == init + [last];
      FilterCount(init, p, x);
    }
  }

  lemma FilterMembers<T>(s: seq<T>, p: T -> bool, x: T)
    ensures x in Filter(s, p) <==> x in s && p(x)
  {
    FilterCount(s, p, x);
    assert x in Filter(s, p) <==> multiset(Filter(s, p))[x] > 0;
    assert x in s <==> multiset(s)[x] > 0;
  }

  /** Filters that agree on the elements of `s` give the same result. */
  lemma {:induction false} FilterCongruent<T>(s: seq<T>, p: T -> bool, q: T -> bool)
    requires forall x :: x in s ==> p(x) == q(x)
    ensures Filter(s, p) == Filter(s, q)
  {
    if |s| > 0 {
      FilterCongruent(s[..|s| - 1], p, q);
    }
  }

  /** A sequence with no members is empty. */
  lemma NoMembersEmpty<T>(s: seq<T>)
    ensures (forall x :: x !in s) ==> s == []
  {
    if |s| > 0 {
      assert s[0] in s;
    }
  }

  ghost predicate Distinct<T>(s: seq<T>)
  {
    forall i, j :: 0 <= i < j < |s| ==> s[i] != s[j]
  }

  /** First-occurrence de-duplication: each element of `s` once, in the
      order of its first occurrence (what a loop guarded by a "seen" set
      visits). */
  function Dedup<T(==, !new)>(s: seq<T>): (r: seq<T>)
    ensures forall x :: x in r <==> x in s
    ensures Distinct(r)
  {
    if |s| == 0 then []
    else
      var init := Dedup(s[..|s| - 1]);
      if s[|s| - 1] in s[..|s| - 1] then init else init + [s[|s| - 1]]
  }
}
