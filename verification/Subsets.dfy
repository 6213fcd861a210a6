/** The subsets of a given size, as the join optimizer enumerates them. */
module Subsets {

  ghost predicate NoRepeats<T>(v: seq<T>) {
    forall i, j :: 0 <= i < j < |v| ==> v[i] != v[j]
  }

  function Elements<T(==)>(v: seq<T>): set<T> {
    set x | x in v
  }

  /** erase: v without element i. */
  function Without<T>(v: seq<T>, i: nat): (r: seq<T>)
    requires i < |v|
    ensures |r| == |v| - 1
  {
    v[..i] + v[i + 1..]
  }

  /** insert of x into each of the sets. */
  function WithEach<T>(sets: seq<set<T>>, x: T): (r: seq<set<T>>)
    ensures |r| == |sets|
  {
    if sets == [] then [] else WithEach(sets[..|sets| - 1], x) + [sets[|sets| - 1] + {x}]
  }

  /** The sets that enumerateSubsets returns, in order. */
  function Enumerated<T(==)>(v: seq<T>, size: int): seq<set<T>>
    decreases |v|, |v| + 1
  {
    if size == 0 then [{}] else EnumeratedUpTo(v, size, |v|)
  }

  /** Those that it has after the first n rounds of its outer loop. */
  function EnumeratedUpTo<T(==)>(v: seq<T>, size: int, n: nat): seq<set<T>>
    requires n <= |v|
    decreases |v|, n
  {
    if n == 0 then []
    else EnumeratedUpTo(v, size, n - 1) + WithEach(Enumerated(Without(v, n - 1), size - 1), v[n - 1])
  }

  /** enumerateSubsets. */
  method EnumerateSubsets<T(==)>(v: seq<T>, size: int) returns (ret: seq<set<T>>)
    ensures ret == Enumerated(v, size)
    decreases |v|
  {
    ret := [];
    if size == 0 {
      ret := ret + [{}];
      return;
    }
    for i := 0 to |v|
      invariant ret == EnumeratedUpTo(v, size, i)
    {
      var copy := v[..i] + v[i + 1..];
      var smaller := EnumerateSubsets(copy, size - 1);
      assert copy == Without(v, i);
      ghost var before := ret;
      for k := 0 to |smaller|
        invariant ret == before + WithEach(smaller[..k], v[i])
      {
        assert smaller[..k + 1][..k] == smaller[..k];
        ret := ret + [smaller[k] + {v[i]}];
      }
      assert smaller[..|smaller|] == smaller;
    }
  }

  // ------------------------------------------------------------------ how often

  function Factorial(n: nat): (r: nat)
    ensures r > 0
  {
    if n == 0 then 1 else n * Factorial(n - 1)
  }

  /** How often a set is among the sets. */
  function Count<T(==)>(sets: seq<set<T>>, s: set<T>): nat {
    multiset(sets)[s]
  }

  lemma CountAppend<T>(a: seq<set<T>>, b: seq<set<T>>, s: set<T>)
    ensures Count(a + b, s) == Count(a, s) + Count(b, s)
  {
  }

  /** A set with x in it comes from the set without x, when x is in none of the sets. */
  lemma {:induction false} CountWithEach<T>(sets: seq<set<T>>, x: T, s: set<T>)
    requires forall i :: 0 <= i < |sets| ==> x !in sets[i]
    ensures Count(WithEach(sets, x), s) == if x in s then Count(sets, s - {x}) else 0
  {
    hide Count;
    if sets != [] {
      var n := |sets| - 1;
      CountWithEach(sets[..n], x, s);
      CountLast(sets[..n], sets[n], s - {x});
      CountLast(WithEach(sets[..n], x), sets[n] + {x}, s);
      assert sets == sets[..n] + [sets[n]];
      assert sets[n] + {x} == s <==> x in s && sets[n] == s - {x};
    } else {
      CountNone<T>(s);
      CountNone<T>(s - {x});
    }
  }

  lemma CountLast<T>(sets: seq<set<T>>, last: set<T>, s: set<T>)
    ensures Count(sets + [last], s) == Count(sets, s) + (if last == s then 1 else 0)
  {
  }

  lemma CountNone<T>(s: set<T>)
    ensures Count([], s) == 0
  {
  }

  /** How many of the first n elements of v are in s. */
  function Hits<T(==)>(v: seq<T>, n: nat, s: set<T>): nat
    requires n <= |v|
  {
    if n == 0 then 0 else Hits(v, n - 1, s) + (if v[n - 1] in s then 1 else 0)
  }

  lemma {:induction false} HitsAll<T>(v: seq<T>, n: nat, s: set<T>)
    requires NoRepeats(v) && n <= |v| && s <= Elements(v[..n])
    ensures Hits(v, n, s) == |s|
  {
    if n == 0 {
      assert s == {};
    } else {
      var x := v[n - 1];
      assert v[..n] == v[..n - 1] + [x];
      assert x !in v[..n - 1];
      HitsAll(v, n - 1, s - {x});
      HitsSame(v, n - 1, s, x);
    }
  }

  lemma {:induction false} HitsSame<T>(v: seq<T>, n: nat, s: set<T>, x: T)
    requires n <= |v| && x !in v[..n]
    ensures Hits(v, n, s) == Hits(v, n, s - {x})
  {
    if n > 0 {
      assert v[..n] == v[..n - 1] + [v[n - 1]];
      assert v[n - 1] in v[..n];
      HitsSame(v, n - 1, s, x);
    }
  }

  lemma WithoutElements<T>(v: seq<T>, i: nat)
    requires NoRepeats(v) && i < |v|
    ensures NoRepeats(Without(v, i)) && Elements(Without(v, i)) == Elements(v) - {v[i]}
  {
    var w := Without(v, i);
    forall x | x in Elements(v) - {v[i]}
      ensures x in Elements(w)
    {
      var j :| 0 <= j < |v| && v[j] == x;
      assert w[if j < i then j else j - 1] == x;
    }
    forall k | 0 <= k < |w|
      ensures w[k] == v[if k < i then k else k + 1]
    {
    }
  }

  /** A subset of size size, of the elements of v. */
  ghost predicate Wanted<T>(v: seq<T>, size: int, s: set<T>) {
    |s| == size && s <= Elements(v)
  }

  lemma WantedSmaller<T>(v: seq<T>, size: int, i: nat, s: set<T>)
    requires NoRepeats(v) && i < |v| && v[i] in s
    ensures Wanted(Without(v, i), size - 1, s - {v[i]}) <==> Wanted(v, size, s)
  {
    WithoutElements(v, i);
    assert s == (s - {v[i]}) + {v[i]};
    assert v[i] in Elements(v);
  }

  /** Only subsets of size size are returned, and every one of them size! times. */
  lemma {:induction false} EachSubset<T>(v: seq<T>, size: nat, s: set<T>)
    requires NoRepeats(v)
    ensures Count(Enumerated(v, size), s) == if Wanted(v, size, s) then Factorial(size) else 0
    decreases |v|, |v| + 1
  {
    if size == 0 {
      assert Wanted(v, 0, s) <==> s == {};
    } else {
      EachSubsetUpTo(v, size, |v|, s);
      if Wanted(v, size, s) {
        assert v[..|v|] == v;
        HitsAll(v, |v|, s);
      }
    }
  }

  lemma {:induction false} EachSubsetUpTo<T>(v: seq<T>, size: nat, n: nat, s: set<T>)
    requires NoRepeats(v) && n <= |v| && size > 0
    ensures Count(EnumeratedUpTo(v, size, n), s) == if Wanted(v, size, s) then Hits(v, n, s) * Factorial(size - 1) else 0
    decreases |v|, n
  {
    hide Hits, Factorial, Count, Enumerated, WithEach, Wanted, NoRepeats;
    if n == 0 {
      NoHits(v, s, Factorial(size - 1));
    } else {
      var x, w := v[n - 1], Without(v, n - 1);
      var smaller := Enumerated(w, size - 1);
      EachSubsetUpTo(v, size, n - 1, s);
      HitsNext(v, n, s, Factorial(size - 1));
      CountAppend(EnumeratedUpTo(v, size, n - 1), WithEach(smaller, x), s);
      WithoutElements(v, n - 1);
      forall i | 0 <= i < |smaller|
        ensures x !in smaller[i]
      {
        EachSubset(w, size - 1, smaller[i]);
        CountedIsWanted(smaller, i, w, size - 1);
      }
      CountWithEach(smaller, x, s);
      if x in s {
        WantedSmaller(v, size, n - 1, s);
        EachSubset(w, size - 1, s - {x});
      }
    }
  }

  lemma NoHits<T>(v: seq<T>, s: set<T>, f: nat)
    ensures Count([], s) == 0 && Hits(v, 0, s) * f == 0
  {
  }

  lemma HitsNext<T>(v: seq<T>, n: nat, s: set<T>, f: nat)
    requires 0 < n <= |v|
    ensures Hits(v, n, s) * f == Hits(v, n - 1, s) * f + (if v[n - 1] in s then f else 0)
  {
    Distribute(Hits(v, n - 1, s), f);
  }

  lemma CountedIsWanted<T>(sets: seq<set<T>>, i: nat, w: seq<T>, size: int)
    requires i < |sets| && (Count(sets, sets[i]) > 0 ==> Wanted(w, size, sets[i]))
    ensures sets[i] <= Elements(w)
  {
    assert sets[i] in multiset(sets);
  }

  lemma Distribute(a: nat, b: nat)
    ensures (a + 1) * b == a * b + b
  {
  }

  // ------------------------------------------------------------------ how many

  /** |v|! / (|v| - size)! sets are returned, */
  lemma {:induction false} HowMany<T>(v: seq<T>, size: nat)
    requires size <= |v|
    ensures |Enumerated(v, size)| * Factorial(|v| - size) == Factorial(|v|)
    decreases |v|, |v| + 1
  {
    if size > 0 {
      HowManyUpTo(v, size, |v|);
    }
  }

  lemma {:induction false} HowManyUpTo<T>(v: seq<T>, size: nat, n: nat)
    requires 0 < size <= |v| && n <= |v|
    ensures |EnumeratedUpTo(v, size, n)| * Factorial(|v| - size) == n * Factorial(|v| - 1)
    decreases |v|, n
  {
    hide Factorial, Enumerated, WithEach;
    if n > 0 {
      var w := Without(v, n - 1);
      HowManyUpTo(v, size, n - 1);
      HowMany(w, size - 1);
      var a, b, f := |EnumeratedUpTo(v, size, n - 1)|, |Enumerated(w, size - 1)|, Factorial(|v| - size);
      assert |w| - (size - 1) == |v| - size;
      AddRounds(a, b, f, n, Factorial(|v| - 1));
    }
  }

  lemma AddRounds(a: nat, b: nat, f: nat, n: nat, g: nat)
    requires n > 0 && a * f == (n - 1) * g && b * f == g
    ensures (a + b) * f == n * g
  {
    assert (a + b) * f == a * f + b * f;
    Distribute(n - 1, g);
  }

  /** and none when there is no subset of the size. */
  lemma {:induction false} NoneTooLarge<T>(v: seq<T>, size: int)
    requires size < 0 || size > |v|
    ensures Enumerated(v, size) == []
    decreases |v|, |v| + 1
  {
    NoneUpTo(v, size, |v|);
  }

  lemma {:induction false} NoneUpTo<T>(v: seq<T>, size: int, n: nat)
    requires (size < 0 || size > |v|) && n <= |v|
    ensures EnumeratedUpTo(v, size, n) == []
    decreases |v|, n
  {
    hide Enumerated, WithEach;
    if n > 0 {
      NoneUpTo(v, size, n - 1);
      NoneTooLarge(Without(v, n - 1), size - 1);
    }
  }
}
