/** The vector idioms the window manager is built from: erase(remove(..)), erase of the first match,
    find_if over a range, and the split of a stacking order into two blocks. */
module Sequences {

  datatype Option<+T> = None | Some(value: T)

  ghost predicate NoDup<T(!new)>(s: seq<T>) {
    forall i, j :: 0 <= i < j < |s| ==> s[i] != s[j]
  }

  /** The elements of s that lie in keep, in their order in s. */
  function Within<T(==,!new)>(s: seq<T>, keep: set<T>): (r: seq<T>)
    ensures forall x :: x in r <==> x in s && x in keep
    ensures |r| <= |s|
  {
    if s == [] then []
    else Within(s[..|s| - 1], keep) + if s[|s| - 1] in keep then [s[|s| - 1]] else []
  }

  /** The elements of s outside drop, in their order in s. */
  function Without<T(==,!new)>(s: seq<T>, drop: set<T>): (r: seq<T>)
    ensures forall x :: x in r <==> x in s && x !in drop
    ensures |r| <= |s|
  {
    if s == [] then []
    else Without(s[..|s| - 1], drop) + if s[|s| - 1] in drop then [] else [s[|s| - 1]]
  }

  /** s without the first occurrence of x. */
  function RemoveFirst<T(==,!new)>(s: seq<T>, x: T): (r: seq<T>)
    ensures x !in s ==> r == s
    ensures forall y :: y != x ==> (y in r <==> y in s)
  {
    if s == [] then []
    else if s[0] == x then s[1..]
    else [s[0]] + RemoveFirst(s[1..], x)
  }

  lemma {:induction false} RemoveFirstNoDup<T(!new)>(s: seq<T>, x: T)
    requires NoDup(s)
    ensures NoDup(RemoveFirst(s, x)) && x !in RemoveFirst(s, x)
  {
    if s != [] {
      RemoveFirstNoDup(s[1..], x);
      if s[0] != x {
        assert s[0] !in s[1..];
        assert s[0] !in RemoveFirst(s[1..], x);
      }
    }
  }

  lemma {:induction false} WithoutNoDup<T(!new)>(s: seq<T>, drop: set<T>)
    requires NoDup(s)
    ensures NoDup(Without(s, drop))
  {
    if s != [] {
      WithoutNoDup(s[..|s| - 1], drop);
      assert s[|s| - 1] !in s[..|s| - 1];
      assert s[|s| - 1] !in Without(s[..|s| - 1], drop);
    }
  }

  lemma {:induction false} RemoveFirstIsWithout<T(!new)>(s: seq<T>, x: T)
    requires NoDup(s)
    ensures RemoveFirst(s, x) == Without(s, {x})
  {
    hide Without;
    if s == [] {
      WithoutEverything(s, {x});
    } else {
      var rest := s[1..];
      assert s == [s[0]] + rest && NoDup(rest) && s[0] !in rest;
      hide NoDup;
      WithoutConcat([s[0]], rest, {x});
      WithoutOne(s[0], {x});
      if s[0] == x {
        WithoutNothing(rest, {x});
      } else {
        RemoveFirstIsWithout(rest, x);
      }
    }
  }

  lemma {:induction false} WithoutOne<T(!new)>(x: T, drop: set<T>)
    ensures Without([x], drop) == if x in drop then [] else [x]
  {
    assert [x][..0] == [];
  }

  lemma {:induction false} WithinNoDup<T(!new)>(s: seq<T>, keep: set<T>)
    requires NoDup(s)
    ensures NoDup(Within(s, keep))
  {
    if s != [] {
      WithinNoDup(s[..|s| - 1], keep);
      assert s[|s| - 1] !in s[..|s| - 1];
      assert s[|s| - 1] !in Within(s[..|s| - 1], keep);
    }
  }

  lemma {:induction false} ConcatNoDup<T(!new)>(a: seq<T>, b: seq<T>)
    requires NoDup(a) && NoDup(b)
    requires forall x :: x in a ==> x !in b
    ensures NoDup(a + b)
  {
    forall i, j | 0 <= i < j < |a + b|
      ensures (a + b)[i] != (a + b)[j]
    {
      if i < |a| <= j {
        assert a[i] in a && b[j - |a|] in b;
      }
    }
  }

  lemma {:induction false} WithinConcat<T(!new)>(a: seq<T>, b: seq<T>, keep: set<T>)
    ensures Within(a + b, keep) == Within(a, keep) + Within(b, keep)
  {
    if b == [] {
      assert a + b == a;
    } else {
      assert (a + b)[..|a + b| - 1] == a + b[..|b| - 1];
      WithinConcat(a, b[..|b| - 1], keep);
    }
  }

  lemma {:induction false} WithoutConcat<T(!new)>(a: seq<T>, b: seq<T>, drop: set<T>)
    ensures Without(a + b, drop) == Without(a, drop) + Without(b, drop)
  {
    if b == [] {
      assert a + b == a;
    } else {
      assert (a + b)[..|a + b| - 1] == a + b[..|b| - 1];
      WithoutConcat(a, b[..|b| - 1], drop);
    }
  }

  lemma {:induction false} WithinWithin<T(!new)>(s: seq<T>, a: set<T>, b: set<T>)
    ensures Within(Within(s, a), b) == Within(s, a * b)
  {
    if s != [] {
      var last := s[|s| - 1];
      WithinWithin(s[..|s| - 1], a, b);
      WithinConcat(Within(s[..|s| - 1], a), if last in a then [last] else [], b);
      assert [last][..0] == [];
    }
  }

  lemma {:induction false} WithoutWithin<T(!new)>(s: seq<T>, a: set<T>, b: set<T>)
    ensures Without(Within(s, a), b) == Within(s, a - b)
  {
    if s != [] {
      var last := s[|s| - 1];
      WithoutWithin(s[..|s| - 1], a, b);
      WithoutConcat(Within(s[..|s| - 1], a), if last in a then [last] else [], b);
      assert [last][..0] == [];
    }
  }

  lemma {:induction false} WithinEverything<T(!new)>(s: seq<T>, keep: set<T>)
    requires forall x :: x in s ==> x in keep
    ensures Within(s, keep) == s
  {
    if s != [] {
      assert s[|s| - 1] in s && s == s[..|s| - 1] + [s[|s| - 1]];
      assert forall x :: x in s[..|s| - 1] ==> x in s;
      WithinEverything(s[..|s| - 1], keep);
    }
  }

  lemma {:induction false} WithinNothing<T(!new)>(s: seq<T>, keep: set<T>)
    requires forall x :: x in s ==> x !in keep
    ensures Within(s, keep) == []
  {
    if s != [] {
      assert s[|s| - 1] in s;
      WithinNothing(s[..|s| - 1], keep);
    }
  }

  lemma {:induction false} WithoutEverything<T(!new)>(s: seq<T>, drop: set<T>)
    requires forall x :: x in s ==> x in drop
    ensures Without(s, drop) == []
  {
    if s != [] {
      assert s[|s| - 1] in s;
      WithoutEverything(s[..|s| - 1], drop);
    }
  }

  lemma {:induction false} WithoutNothing<T(!new)>(s: seq<T>, drop: set<T>)
    requires forall x :: x in s ==> x !in drop
    ensures Without(s, drop) == s
  {
    if s != [] {
      var front, last := s[..|s| - 1], s[|s| - 1];
      assert s == front + [last];
      assert last in s;
      WithoutNothing(front, drop);
      assert Without(s, drop) == Without(front, drop) + [last];
    }
  }

  lemma {:induction false} OnlyOneMissing<T(!new)>(s: seq<T>, drop: set<T>, x: T)
    requires NoDup(s) && x in s && x !in drop && forall y :: y in s && y != x ==> y in drop
    ensures Without(s, drop) == [x]
  {
    var front, last := s[..|s| - 1], s[|s| - 1];
    if last == x {
      assert forall y :: y in front ==> y != x;
      WithoutEverything(front, drop);
    } else {
      assert x in front;
      OnlyOneMissing(front, drop, x);
    }
  }

  lemma {:induction false} SplitLast<T>(a: seq<T>, b: seq<T>)
    requires b != []
    ensures a + b == (a + b[..|b| - 1]) + [b[|b| - 1]]
  {
  }

  /** The last element of s that is in good. */
  function LastIn<T(==,!new)>(s: seq<T>, good: set<T>): (r: Option<T>)
    ensures r.Some? ==> r.value in s && r.value in good
    ensures r.None? <==> forall x :: x in s ==> x !in good
  {
    if s == [] then None
    else if s[|s| - 1] in good then Some(s[|s| - 1])
    else LastIn(s[..|s| - 1], good)
  }

  /** Nothing in good comes after LastIn. */
  lemma {:induction false} LastInIsLast<T(!new)>(s: seq<T>, good: set<T>) returns (i: nat)
    requires LastIn(s, good).Some?
    ensures i < |s| && s[i] == LastIn(s, good).value
    ensures forall j :: i < j < |s| ==> s[j] !in good
  {
    i := |s| - 1;
    if s[i] !in good {
      i := LastInIsLast(s[..|s| - 1], good);
    }
  }
}
