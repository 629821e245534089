/** The Python list and set operations the generators rely on. */
module Lists {
  import Sorting

  /** `s.index(x)`: the first position holding `x`. */
  function IndexOf<T(==)>(s: seq<T>, x: T): (i: nat)
    requires x in s
    ensures i < |s| && s[i] == x
    ensures x !in s[..i]
  {
    if s[0] == x then 0
    else
      var j := IndexOf(s[1..], x);
      assert s[..j + 1] == [s[0]] + s[1..][..j];
      j + 1
  }

  /** `s.remove(x)`: drops the first occurrence of `x`; callers decide what an absent `x` means. */
  function RemoveFirst<T(==)>(s: seq<T>, x: T): (r: seq<T>)
    ensures x in s ==> multiset(r) == multiset(s) - multiset{x} && |r| == |s| - 1
    ensures x !in s ==> r == s
    ensures forall y :: y in r ==> y in s
  {
    if s == [] then []
    else if s[0] == x then
      assert s == [s[0]] + s[1..];
      s[1..]
    else
      assert s == [s[0]] + s[1..];
      [s[0]] + RemoveFirst(s[1..], x)
  }

  ghost predicate Distinct<T>(s: seq<T>)
  {
    forall i, j :: 0 <= i < j < |s| ==> s[i] != s[j]
  }

  /** In a list without repeats every element occurs once. */
  lemma {:induction false} DistinctCount<T>(s: seq<T>, x: T)
    requires Distinct(s)
    ensures multiset(s)[x] == if x in s then 1 else 0
  {
    if s != [] {
      var t := s[..|s| - 1];
      assert s == t + [s[|s| - 1]];
      assert Distinct(t);
      DistinctCount(t, x);
      if x == s[|s| - 1] {
        assert x !in t;
      }
    }
  }

  /** A value at two positions occurs at least twice. */
  lemma RepeatedCount<T>(s: seq<T>, i: nat, j: nat)
    requires i < j < |s| && s[i] == s[j]
    ensures multiset(s)[s[i]] >= 2
  {
    assert s == s[..j] + [s[j]] + s[j + 1..];
    assert s[i] == s[..j][i];
    assert s[i] in multiset(s[..j]);
  }

  /** A list whose contents are part of those of a list without repeats has no repeats. */
  lemma DistinctSub<T>(s: seq<T>, t: seq<T>)
    requires Distinct(t) && multiset(s) <= multiset(t)
    ensures Distinct(s)
  {
    forall i, j | 0 <= i < j < |s|
      ensures s[i] != s[j]
    {
      if s[i] == s[j] {
        RepeatedCount(s, i, j);
        DistinctCount(t, s[i]);
        assert false;
      }
    }
  }

  /** A permutation of a list without repeats has no repeats. */
  lemma DistinctPermutation<T>(s: seq<T>, t: seq<T>)
    requires Distinct(t) && multiset(s) == multiset(t)
    ensures Distinct(s)
  {
    DistinctSub(s, t);
  }

  /** Removing an element from a list without repeats leaves no copy of it. */
  lemma DistinctRemove<T>(s: seq<T>, x: T)
    requires Distinct(s)
    ensures x !in RemoveFirst(s, x)
  {
    DistinctCount(s, x);
  }

  /** `set(range(a, b))`. */
  function RangeSet(a: int, b: int): (r: set<int>)
    ensures forall j :: j in r <==> a <= j < b
    ensures |r| == if a < b then b - a else 0
    decreases b - a
  {
    if b <= a then {}
    else
      var r := RangeSet(a, b - 1);
      assert b - 1 !in r;
      r + {b - 1}
  }

  /** `indices.discard(x)` shrinks the set by at most one element. */
  lemma CardDiscard(s: set<int>, x: int)
    ensures |s - {x}| == if x in s then |s| - 1 else |s|
  {
    if x in s {
      assert s == (s - {x}) + {x};
    } else {
      assert s - {x} == s;
    }
  }

  /** A non-empty set of integers has a member (stated for `:|` over candidate sets). */
  lemma NonEmptyHasMember(t: set<int>)
    ensures t != {} ==> exists y :: y in t
  {
    if forall y :: y !in t {
      assert t == {};
    }
  }

  /** Discarding the members of `t` shrinks `s` by at most `|t|`. */
  lemma {:induction false} CardDiscardAll(s: set<int>, t: set<int>)
    ensures |s - t| >= |s| - |t|
    decreases |t|
  {
    NonEmptyHasMember(t);
    if t != {} {
      var x :| x in t;
      CardDiscardAll(s, t - {x});
      CardDiscard(s - (t - {x}), x);
      assert s - t == (s - (t - {x})) - {x};
    }
  }

  /** `k` copies of the multiset `m`. */
  function Repeat<T>(m: multiset<T>, k: nat): multiset<T>
  {
    if k == 0 then multiset{} else Repeat(m, k - 1) + m
  }

  /** Each element occurs `k` times as often in `k` copies. */
  lemma {:induction false} RepeatCount<T>(m: multiset<T>, k: nat, x: T)
    ensures Repeat(m, k)[x] == k * m[x]
  {
    if k > 0 {
      RepeatCount(m, k - 1, x);
      assert Repeat(m, k)[x] == Repeat(m, k - 1)[x] + m[x];
      assert k * m[x] == (k - 1) * m[x] + m[x];
    }
  }

  /** Items taken from copies of `pool` come from `pool`. */
  lemma {:induction false} RepeatMembers<T>(taken: seq<T>, pending: multiset<T>, pool: seq<T>, full: nat)
    requires multiset(taken) + pending == Repeat(multiset(pool), full)
    ensures forall m :: 0 <= m < |taken| ==> taken[m] in pool
  {
    forall m | 0 <= m < |taken|
      ensures taken[m] in pool
    {
      var x := taken[m];
      RepeatCount(multiset(pool), full, x);
      assert x in multiset(taken);
      assert multiset(pool)[x] != 0;
    }
  }

  /** Every two syllables of `pool` occur in `ts` a number of times that differ by at most one. */
  predicate Balanced<T(==)>(ts: seq<T>, pool: seq<T>)
  {
    forall x, y :: x in pool && y in pool ==> multiset(ts)[x] <= multiset(ts)[y] + 1
  }

  /**
   * Items taken one by one from successive shuffled copies of a repeat-free `pool`
   * (`pending` being what is left of the current copy) are balanced and come from `pool`.
   */
  lemma BalancedPrefix<T>(taken: seq<T>, pending: multiset<T>, pool: seq<T>, full: nat)
    requires Distinct(pool)
    requires multiset(taken) + pending == Repeat(multiset(pool), full)
    requires pending <= multiset(pool)
    ensures Balanced(taken, pool)
    ensures forall x :: x in taken ==> x in pool
  {
    forall x | x in pool
      ensures full - 1 <= multiset(taken)[x] <= full
    {
      DistinctCount(pool, x);
      RepeatCount(multiset(pool), full, x);
      assert (multiset(taken) + pending)[x] == full;
    }
    forall x | x in taken
      ensures x in pool
    {
      DistinctCount(pool, x);
      RepeatCount(multiset(pool), full, x);
      assert (multiset(taken) + pending)[x] >= 1;
    }
  }

  /** `a` and `b` are at least `gap` apart. */
  ghost predicate Far(a: int, b: int, gap: nat)
  {
    a + gap <= b || b + gap <= a
  }

  /** Any two of the integers in `s` are at least `gap` apart. */
  ghost predicate Spaced(s: seq<int>, gap: nat)
  {
    forall p, q :: 0 <= p < q < |s| ==> Far(s[p], s[q], gap)
  }

  lemma SpacedAppend(s: seq<int>, x: int, gap: nat)
    requires Spaced(s, gap)
    requires forall p :: 0 <= p < |s| ==> Far(s[p], x, gap)
    ensures Spaced(s + [x], gap)
  {
  }

  /** Sorting integers that are pairwise at least `gap` apart gives a list rising by at least `gap` at each step. */
  lemma SpacedSorted(s: seq<int>, gap: nat)
    requires gap >= 1 && Spaced(s, gap)
    ensures forall p, q :: 0 <= p < q < |s| ==> Sorting.SortInts(s)[p] + gap <= Sorting.SortInts(s)[q]
  {
    var r := Sorting.SortInts(s);
    DistinctPermutation(r, s);
    forall p, q | 0 <= p < q < |r|
      ensures r[p] + gap <= r[q]
    {
      assert r[p] in multiset(s) && r[q] in multiset(s);
      var a :| 0 <= a < |s| && s[a] == r[p];
      var b :| 0 <= b < |s| && s[b] == r[q];
      assert a < b ==> Far(s[a], s[b], gap);
      assert b < a ==> Far(s[b], s[a], gap);
    }
  }

  /** `rng.shuffle(s)`: a Fisher-Yates pass whose swap positions are arbitrary. */
  method Shuffle<T>(s: seq<T>) returns (r: seq<T>)
    ensures multiset(r) == multiset(s) && |r| == |s|
  {
    r := s;
    var i := |r|;
    while i > 1
      invariant 0 <= i <= |r| == |s|
      invariant multiset(r) == multiset(s)
    {
      i := i - 1;
      var j :| 0 <= j <= i;
      r := r[i := r[j]][j := r[i]];
    }
  }
}
