/** A model of Go's `sort.SliceStable`: the unique stable ordering of a
    sequence under a "less" relation, computed as an insertion sort. The
    relation must be a strict weak order, as `sort` requires of its `less`. */
module StableSort {

  /** `lt` is asymmetric and negatively transitive: a strict weak order.
      The two laws are named so that a proof uses the instances it names. */
  ghost predicate StrictWeakOrder<T(!new)>(lt: (T, T) -> bool)
  {
    && (forall a, b :: Asymmetric(lt, a, b))
    && (forall a, b, c :: NegTransitive(lt, a, b, c))
  }

  predicate Asymmetric<T>(lt: (T, T) -> bool, a: T, b: T)
  {
    lt(a, b) ==> !lt(b, a)
  }

  predicate NegTransitive<T>(lt: (T, T) -> bool, a: T, b: T, c: T)
  {
    !lt(a, b) && !lt(b, c) ==> !lt(a, c)
  }

  /** No element is strictly less than one before it. */
  ghost predicate Sorted<T>(s: seq<T>, lt: (T, T) -> bool)
  {
    forall i, j :: 0 <= i < j < |s| ==> !lt(s[j], s[i])
  }

  /** Neither is less than the other: `sort` may not reorder them. */
  predicate Equivalent<T>(lt: (T, T) -> bool, a: T, b: T)
  {
    !lt(a, b) && !lt(b, a)
  }

  /** The elements of `s` equivalent to `e`, in their order in `s`. */
  function ClassOf<T>(s: seq<T>, e: T, lt: (T, T) -> bool): seq<T>
  {
    if |s| == 0 then []
    else (if Equivalent(lt, s[0], e) then [s[0]] else []) + ClassOf(s[1..], e, lt)
  }

  /** Inserts `x` before the first element that is not less than it. */
  function Insert<T>(x: T, s: seq<T>, lt: (T, T) -> bool): (r: seq<T>)
    ensures multiset(r) == multiset(s) + multiset{x}
  {
    if |s| == 0 then [x]
    else
      assert s == [s[0]] + s[1..];
      if lt(s[0], x) then [s[0]] + Insert(x, s[1..], lt) else [x] + s
  }

  /** `sort.SliceStable(s, lt)` as a value. */
  function SortStable<T>(s: seq<T>, lt: (T, T) -> bool): (r: seq<T>)
  {
    if |s| == 0 then [] else Insert(s[0], SortStable(s[1..], lt), lt)
  }

  /** The result is a permutation of the input. */
  lemma {:induction false} SortPermutes<T>(s: seq<T>, lt: (T, T) -> bool)
    ensures multiset(SortStable(s, lt)) == multiset(s)
    ensures |SortStable(s, lt)| == |s|
  {
    if |s| > 0 {
      SortPermutes(s[1..], lt);
      assert s == [s[0]] + s[1..];
    }
    assert |SortStable(s, lt)| == |multiset(SortStable(s, lt))|;
  }

  lemma {:induction false} InsertSorted<T(!new)>(x: T, s: seq<T>, lt: (T, T) -> bool)
    requires StrictWeakOrder(lt)
    requires Sorted(s, lt)
    ensures Sorted(Insert(x, s, lt), lt)
  {
    if |s| > 0 && lt(s[0], x) {
      InsertSorted(x, s[1..], lt);
      InsertBehind(x, s, lt);
    } else if |s| > 0 {
      InsertInFront(x, s, lt);
    }
  }

  /** `x` goes behind `s[0]`: nothing in the sorted rest is below `s[0]`. */
  lemma InsertBehind<T(!new)>(x: T, s: seq<T>, lt: (T, T) -> bool)
    requires StrictWeakOrder(lt)
    requires Sorted(s, lt) && |s| > 0 && lt(s[0], x)
    requires Sorted(Insert(x, s[1..], lt), lt)
    ensures Sorted(Insert(x, s, lt), lt)
  {
    var r := Insert(x, s, lt);
    var t := Insert(x, s[1..], lt);
    assert r == [s[0]] + t;
    forall j | 0 < j < |r| ensures !lt(r[j], s[0]) {
      assert Asymmetric(lt, s[0], x);
      assert r[j] in multiset(t);
      assert r[j] in multiset(s[1..]) + multiset{x};
      if r[j] != x {
        assert r[j] in s[1..];
        var k :| 0 <= k < |s[1..]| && s[1..][k] == r[j];
        assert s[k + 1] == r[j];
      }
    }
  }

  /** `x` goes in front of `s`: no element of `s` is below it. */
  lemma InsertInFront<T(!new)>(x: T, s: seq<T>, lt: (T, T) -> bool)
    requires StrictWeakOrder(lt)
    requires Sorted(s, lt) && |s| > 0 && !lt(s[0], x)
    ensures Sorted(Insert(x, s, lt), lt)
  {
    var r := Insert(x, s, lt);
    assert r == [x] + s;
    forall i, j | 0 <= i < j < |r| ensures !lt(r[j], r[i]) {
      if i == 0 {
        assert Asymmetric(lt, s[0], s[0]);
        assert NegTransitive(lt, s[j - 1], s[0], x);
      }
    }
  }

  /** The result is sorted. */
  lemma {:induction false} SortSorted<T(!new)>(s: seq<T>, lt: (T, T) -> bool)
    requires StrictWeakOrder(lt)
    ensures Sorted(SortStable(s, lt), lt)
  {
    if |s| > 0 {
      SortSorted(s[1..], lt);
      InsertSorted(s[0], SortStable(s[1..], lt), lt);
    }
  }

  lemma {:induction false} ClassOfAppend<T>(a: seq<T>, b: seq<T>, e: T, lt: (T, T) -> bool)
    ensures ClassOf(a + b, e, lt) == ClassOf(a, e, lt) + ClassOf(b, e, lt)
  {
    if |a| > 0 {
      assert (a + b)[1..] == a[1..] + b;
      ClassOfAppend(a[1..], b, e, lt);
    } else {
      assert a + b == b;
    }
  }

  lemma {:induction false} InsertClass<T(!new)>(x: T, s: seq<T>, e: T, lt: (T, T) -> bool)
    requires StrictWeakOrder(lt)
    ensures ClassOf(Insert(x, s, lt), e, lt)
         == (if Equivalent(lt, x, e) then [x] else []) + ClassOf(s, e, lt)
  {
    if |s| == 0 {
      assert Insert(x, s, lt) == [x] + s;
      ClassOfAppend([x], s, e, lt);
    } else if lt(s[0], x) {
      InsertClass(x, s[1..], e, lt);
      assert NegTransitive(lt, s[0], e, x);
      assert !(Equivalent(lt, x, e) && Equivalent(lt, s[0], e));
      assert Insert(x, s, lt) == [s[0]] + Insert(x, s[1..], lt);
      assert s == [s[0]] + s[1..];
      ConsClassCommutes(x, s[0], Insert(x, s[1..], lt), s[1..], e, lt);
    } else {
      assert Insert(x, s, lt) == [x] + s;
      ClassOfAppend([x], s, e, lt);
    }
  }

  /** Putting `y` in front commutes with `x`'s class contribution when `x`
      and `y` are not both equivalent to `e`. */
  lemma ConsClassCommutes<T>(x: T, y: T, r: seq<T>, rs: seq<T>, e: T, lt: (T, T) -> bool)
    requires !(Equivalent(lt, x, e) && Equivalent(lt, y, e))
    requires ClassOf(r, e, lt) == (if Equivalent(lt, x, e) then [x] else []) + ClassOf(rs, e, lt)
    ensures ClassOf([y] + r, e, lt) == (if Equivalent(lt, x, e) then [x] else []) + ClassOf([y] + rs, e, lt)
  {
    assert ([y] + r)[1..] == r;
    assert ([y] + rs)[1..] == rs;
    if Equivalent(lt, x, e) {
      assert ClassOf([y] + r, e, lt) == ClassOf(r, e, lt);
      assert ClassOf([y] + rs, e, lt) == ClassOf(rs, e, lt);
    } else {
      assert ClassOf(r, e, lt) == ClassOf(rs, e, lt);
    }
  }

  /** Stability: the elements equivalent to any `e` keep their relative
      order. */
  lemma {:induction false} SortKeepsClasses<T(!new)>(s: seq<T>, e: T, lt: (T, T) -> bool)
    requires StrictWeakOrder(lt)
    ensures ClassOf(SortStable(s, lt), e, lt) == ClassOf(s, e, lt)
  {
    if |s| > 0 {
      SortKeepsClasses(s[1..], e, lt);
      InsertClass(s[0], SortStable(s[1..], lt), e, lt);
    }
  }

  /** Go's `a < b` on strings: byte-wise lexicographic order. Characters are
      compared by code point, which orders strings as their UTF-8 bytes do. */
  predicate LexLess(a: string, b: string)
  {
    if |a| == 0 then |b| > 0
    else if |b| == 0 then false
    else if a[0] != b[0] then a[0] < b[0]
    else LexLess(a[1..], b[1..])
  }

  lemma {:induction false} LexLessTrichotomy(a: string, b: string)
    ensures a == b || LexLess(a, b) || LexLess(b, a)
    ensures !(LexLess(a, b) && LexLess(b, a))
    ensures !LexLess(a, a)
  {
    if |a| > 0 && |b| > 0 && a[0] == b[0] {
      LexLessTrichotomy(a[1..], b[1..]);
      if a[1..] == b[1..] {
        assert a == [a[0]] + a[1..] && b == [b[0]] + b[1..];
      }
    } else if |a| > 0 {
      LexLessTrichotomy(a[1..], a[1..]);
    }
  }

  lemma {:induction false} LexLessTransitive(a: string, b: string, c: string)
    requires LexLess(a, b) && LexLess(b, c)
    ensures LexLess(a, c)
  {
    if |a| > 0 && a[0] == b[0] && b[0] == c[0] {
      LexLessTransitive(a[1..], b[1..], c[1..]);
    }
  }

  /** Go's string order is a strict weak order, so sorting by it is sound. */
  lemma LexLessIsStrictWeakOrder()
    ensures StrictWeakOrder(LexLess)
  {
    forall a, b ensures Asymmetric(LexLess, a, b) {
      LexLessTrichotomy(a, b);
    }
    forall a, b, c ensures NegTransitive(LexLess, a, b, c) {
      if !LexLess(a, b) && !LexLess(b, c) {
        LexLessTrichotomy(a, b);
        LexLessTrichotomy(b, c);
        LexLessTrichotomy(a, c);
        if a != b && b != c {
          LexLessTransitive(c, b, a);
        }
      }
    }
  }
}
