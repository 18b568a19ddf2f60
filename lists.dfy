/** Sequence operations behind the .NET `List<T>` calls of the combat engine
    and the room: `Contains`-guarded `Add`, `Remove` (first occurrence) and
    what they preserve. */
module Lists {

  datatype Option<+T> = None | Some(value: T)

  ghost predicate Distinct<T>(s: seq<T>) {
    forall i, j | 0 <= i < j < |s| :: s[i] != s[j]
  }

  /** `if (!list.Contains(x)) list.Add(x)`. */
  function Admit<T(==)>(s: seq<T>, x: T): (r: seq<T>)
    ensures x in r
    ensures forall y | y in r :: y in s || y == x
    ensures forall y | y in s :: y in r
  {
    if x in s then s else s + [x]
  }

  /** `list.Remove(x)`: drops the first occurrence of `x`, if any. */
  function RemoveFirst<T(==)>(s: seq<T>, x: T): (r: seq<T>)
    ensures x !in s ==> r == s
  {
    if s == [] then []
    else if s[0] == x then s[1..]
    else [s[0]] + RemoveFirst(s[1..], x)
  }

  /** `Remove` takes away one occurrence of `x` when there is one. */
  lemma {:induction false} RemoveFirstCounts<T>(s: seq<T>, x: T)
    ensures multiset(RemoveFirst(s, x)) == multiset(s) - multiset{x}
  {
    if s != [] {
      var h, t := s[0], s[1..];
      assert multiset(s) == multiset{h} + multiset(t) by {
        assert s == [h] + t;
      }
      if h != x {
        var r := RemoveFirst(t, x);
        assert multiset(RemoveFirst(s, x)) == multiset{h} + multiset(r) by {
          assert RemoveFirst(s, x) == [h] + r;
        }
        RemoveFirstCounts(t, x);
      }
    }
  }

  /** `Remove` only ever takes elements away. */
  lemma RemoveFirstWithin<T>(s: seq<T>, x: T)
    ensures forall y | y in RemoveFirst(s, x) :: y in s
  {
    RemoveFirstCounts(s, x);
    forall y | y in RemoveFirst(s, x) ensures y in s {
      assert multiset(RemoveFirst(s, x))[y] > 0;
    }
  }

  /** `list.Remove(x)` once for each `x` of `xs`, in order. */
  function RemoveEach<T(==)>(s: seq<T>, xs: seq<T>): seq<T> {
    if xs == [] then s
    else RemoveFirst(RemoveEach(s, xs[..|xs| - 1]), xs[|xs| - 1])
  }

  /** Removing each element of `xs` takes away exactly the occurrences `xs`
      holds, as far as `s` has them. */
  lemma {:induction false} RemoveEachCounts<T>(s: seq<T>, xs: seq<T>)
    ensures multiset(RemoveEach(s, xs)) == multiset(s) - multiset(xs)
  {
    if xs != [] {
      var init, x := xs[..|xs| - 1], xs[|xs| - 1];
      assert xs == init + [x];
      RemoveEachCounts(s, init);
      RemoveFirstCounts(RemoveEach(s, init), x);
    }
  }

  /** The elements of `s` other than `x`, in their order. */
  function Without<T(==)>(s: seq<T>, x: T): (r: seq<T>)
    ensures forall y | y in r :: y in s && y != x
    ensures forall y | y in s && y != x :: y in r
  {
    if s == [] then []
    else (if s[0] == x then [] else [s[0]]) + Without(s[1..], x)
  }

  /** The number of occurrences of `x` among the first `n` elements of `s`. */
  function CountIn<T(==)>(s: seq<T>, n: nat, x: T): nat
    requires n <= |s|
  {
    if n == 0 then 0 else CountIn(s, n - 1, x) + (if s[n - 1] == x then 1 else 0)
  }

  /** The number of occurrences of `x` in `s`. */
  function Count<T(==)>(s: seq<T>, x: T): nat {
    CountIn(s, |s|, x)
  }

  /** An element occurs in a prefix exactly when it is counted there. */
  lemma {:induction false} CountInPositive<T>(s: seq<T>, n: nat, x: T)
    requires n <= |s|
    ensures CountIn(s, n, x) > 0 <==> x in s[..n]
  {
    if n > 0 {
      CountInPositive(s, n - 1, x);
      assert s[..n] == s[..n - 1] + [s[n - 1]];
    }
  }

  /** `n` copies of `s`, one after the other. */
  function Repeat<T>(s: seq<T>, n: nat): seq<T> {
    if n == 0 then [] else Repeat(s, n - 1) + s
  }

  /** Every element of `wanted` occurs in `possible`. */
  predicate AllIn<T(==)>(wanted: seq<T>, possible: seq<T>) {
    forall k | k in wanted :: k in possible
  }

  /** Adding an element that is already present changes nothing, so adding
      twice is adding once. */
  lemma AdmitIdempotent<T>(s: seq<T>, x: T)
    ensures Admit(Admit(s, x), x) == Admit(s, x)
  {
  }

  /** The guarded add never creates a duplicate. */
  lemma AdmitKeepsDistinct<T>(s: seq<T>, x: T)
    requires Distinct(s)
    ensures Distinct(Admit(s, x))
  {
  }

  lemma DistinctTail<T>(s: seq<T>)
    requires s != [] && Distinct(s)
    ensures Distinct(s[1..]) && s[0] !in s[1..]
  {
    forall i, j | 0 <= i < j < |s[1..]| ensures s[1..][i] != s[1..][j] {
      assert s[i + 1] != s[j + 1];
    }
  }

  lemma DistinctCons<T>(x: T, t: seq<T>)
    requires Distinct(t) && x !in t
    ensures Distinct([x] + t)
  {
    forall i, j | 0 <= i < j < |[x] + t| ensures ([x] + t)[i] != ([x] + t)[j] {
      if i > 0 { assert ([x] + t)[i] == t[i - 1]; }
      assert ([x] + t)[j] == t[j - 1];
    }
  }

  lemma DistinctInit<T>(s: seq<T>)
    requires s != [] && Distinct(s)
    ensures Distinct(s[..|s| - 1]) && s[|s| - 1] !in s[..|s| - 1]
  {
  }

  lemma DistinctSnoc<T>(t: seq<T>, x: T)
    requires Distinct(t) && x !in t
    ensures Distinct(t + [x])
  {
    forall i, j | 0 <= i < j < |t + [x]| ensures (t + [x])[i] != (t + [x])[j] {
      assert (t + [x])[i] == t[i];
      if j < |t| { assert (t + [x])[j] == t[j]; }
    }
  }

  /** A list without duplicates holds each of its elements once. */
  lemma {:induction false} DistinctOnce<T>(s: seq<T>, x: T)
    requires Distinct(s)
    ensures multiset(s)[x] == if x in s then 1 else 0
  {
    if s != [] {
      var init := s[..|s| - 1];
      DistinctInit(s);
      DistinctOnce(init, x);
      assert s == init + [s[|s| - 1]];
    }
  }

  /** Two lists without duplicates and without a common element make a list
      without duplicates. */
  lemma DistinctConcat<T>(a: seq<T>, b: seq<T>)
    requires Distinct(a) && Distinct(b) && forall x | x in a :: x !in b
    ensures Distinct(a + b)
  {
    forall i, j | 0 <= i < j < |a + b| ensures (a + b)[i] != (a + b)[j] {
      if j < |a| {
        assert (a + b)[i] == a[i] && (a + b)[j] == a[j];
      } else if i < |a| {
        assert (a + b)[i] == a[i] && (a + b)[j] == b[j - |a|];
        assert a[i] in a;
      } else {
        assert (a + b)[i] == b[i - |a|] && (a + b)[j] == b[j - |a|];
      }
    }
  }

  /** Removing elements only ever takes elements away. */
  lemma RemoveEachWithin<T>(s: seq<T>, xs: seq<T>)
    ensures forall y | y in RemoveEach(s, xs) :: y in s
  {
    RemoveEachCounts(s, xs);
    forall y | y in RemoveEach(s, xs) ensures y in s {
      assert multiset(RemoveEach(s, xs))[y] > 0;
    }
  }

  /** On a list without duplicates, `Remove` leaves the element absent and the
      other elements in their relative order. */
  lemma {:induction false} RemoveFirstOfDistinct<T>(s: seq<T>, x: T)
    requires Distinct(s)
    ensures RemoveFirst(s, x) == Without(s, x)
    ensures x !in RemoveFirst(s, x)
  {
    if s != [] {
      DistinctTail(s);
      RemoveFirstOfDistinct(s[1..], x);
      if s[0] == x {
        WithoutAbsent(s[1..], x);
      }
    }
  }

  /** `Remove` never creates a duplicate. */
  lemma {:induction false} RemoveFirstKeepsDistinct<T>(s: seq<T>, x: T)
    requires Distinct(s)
    ensures Distinct(RemoveFirst(s, x))
  {
    if s != [] {
      DistinctTail(s);
      if s[0] != x {
        RemoveFirstKeepsDistinct(s[1..], x);
        var t := RemoveFirst(s[1..], x);
        RemoveFirstCounts(s[1..], x);
        assert s[0] !in t by {
          assert multiset(t) <= multiset(s[1..]);
          assert multiset(s[1..])[s[0]] == 0;
          assert multiset(t)[s[0]] == 0;
        }
        DistinctCons(s[0], t);
      }
    }
  }

  lemma {:induction false} WithoutAbsent<T>(s: seq<T>, x: T)
    requires x !in s
    ensures Without(s, x) == s
  {
    if s != [] {
      WithoutAbsent(s[1..], x);
      assert [s[0]] + s[1..] == s;
    }
  }

  /** Removing an element absent from a prefix removes it from the rest. */
  lemma {:induction false} RemoveFirstAfter<T>(a: seq<T>, b: seq<T>, x: T)
    requires x !in a
    ensures RemoveFirst(a + b, x) == a + RemoveFirst(b, x)
  {
    if a == [] {
      assert a + b == b;
    } else {
      assert (a + b)[0] == a[0] && (a + b)[1..] == a[1..] + b;
      RemoveFirstAfter(a[1..], b, x);
      assert RemoveFirst(a + b, x) == [a[0]] + RemoveFirst(a[1..] + b, x);
      assert [a[0]] + (a[1..] + RemoveFirst(b, x)) == a + RemoveFirst(b, x);
    }
  }
}
