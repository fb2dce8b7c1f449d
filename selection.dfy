/** Top-K selection: `heapq.nsmallest(k, xs, key)`, whose documented
    meaning is `sorted(xs, key=key)[:k]`. Python's sort is stable, so
    records with equal keys keep their input order. The specification is
    a stable insertion sort truncated to k; the method NSmallest computes
    it with a bounded sorted buffer. */
module Selection {
  import opened Base

  /** Non-decreasing by key. */
  predicate SortedBy<T>(s: seq<T>, key: T -> Ext) {
    forall i, j :: 0 <= i < j < |s| ==> Le(key(s[i]), key(s[j]))
  }

  /** Inserts x into a sorted sequence after every element whose key is not
      greater than x's: later elements follow earlier equal ones. */
  function Insert<T>(s: seq<T>, x: T, key: T -> Ext): (r: seq<T>)
  {
    if s == [] then [x]
    else if Lt(key(x), key(s[0])) then [x] + s
    else [s[0]] + Insert(s[1..], x, key)
  }

  /** `sorted(xs, key=key)`: stable insertion sort in input order. */
  function SortBy<T>(xs: seq<T>, key: T -> Ext): (r: seq<T>)
  {
    if xs == [] then []
    else Insert(SortBy(xs[..|xs| - 1], key), xs[|xs| - 1], key)
  }

  /** The documented result of `nsmallest(k, xs, key)`. */
  function Smallest<T>(k: nat, xs: seq<T>, key: T -> Ext): (top: seq<T>)
  {
    Take(k, SortBy(xs, key))
  }

  /** The elements of s whose key equals v, in order. */
  function WithKey<T>(s: seq<T>, key: T -> Ext, v: Ext): (r: seq<T>)
  {
    if s == [] then []
    else WithKey(s[..|s| - 1], key, v) + (if key(s[|s| - 1]) == v then [s[|s| - 1]] else [])
  }

  lemma {:induction false} InsertPermutes<T>(s: seq<T>, x: T, key: T -> Ext)
    ensures multiset(Insert(s, x, key)) == multiset(s) + multiset{x}
  {
    if s != [] && !Lt(key(x), key(s[0])) {
      InsertPermutes(s[1..], x, key);
      assert s == [s[0]] + s[1..];
    }
  }

  lemma SortedTail<T>(s: seq<T>, key: T -> Ext)
    requires SortedBy(s, key) && s != []
    ensures SortedBy(s[1..], key)
  {
    forall i, j | 0 <= i < j < |s| - 1 ensures Le(key(s[1..][i]), key(s[1..][j])) {
      assert s[1..][i] == s[i + 1] && s[1..][j] == s[j + 1];
    }
  }

  /** Every element of Insert(s, x) is x or an element of s. */
  lemma InsertElements<T>(s: seq<T>, x: T, key: T -> Ext, e: T)
    requires e in Insert(s, x, key)
    ensures e == x || e in s
  {
    InsertPermutes(s, x, key);
    assert e in multiset(Insert(s, x, key));
  }

  /** Putting y in front of a sorted sequence whose keys are all at least
      y's keeps it sorted. */
  lemma ConsSorted<T>(y: T, r: seq<T>, key: T -> Ext)
    requires SortedBy(r, key)
    requires forall i :: 0 <= i < |r| ==> Le(key(y), key(r[i]))
    ensures SortedBy([y] + r, key)
  {
    var s := [y] + r;
    forall i, j | 0 <= i < j < |s| ensures Le(key(s[i]), key(s[j])) {
      assert s[j] == r[j - 1];
      if i > 0 {
        assert s[i] == r[i - 1];
      }
    }
  }

  lemma {:induction false} InsertKeepsSorted<T>(s: seq<T>, x: T, key: T -> Ext)
    requires SortedBy(s, key)
    ensures SortedBy(Insert(s, x, key), key)
  {
    if s == [] {
    } else if Lt(key(x), key(s[0])) {
      forall i | 0 <= i < |s| ensures Le(key(x), key(s[i])) {
        if i > 0 {
          assert Le(key(s[0]), key(s[i]));
        }
      }
      ConsSorted(x, s, key);
    } else {
      var t := s[1..];
      SortedTail(s, key);
      InsertKeepsSorted(t, x, key);
      var r := Insert(t, x, key);
      forall i | 0 <= i < |r| ensures Le(key(s[0]), key(r[i])) {
        InsertElements(t, x, key, r[i]);
        if r[i] != x {
          var m :| 0 <= m < |t| && t[m] == r[i];
          assert s[m + 1] == r[i];
        }
      }
      ConsSorted(s[0], r, key);
    }
  }

  /** The result of sorting is sorted and is a permutation of the input. */
  lemma {:induction false} SortByIsSortedPermutation<T>(xs: seq<T>, key: T -> Ext)
    ensures SortedBy(SortBy(xs, key), key)
    ensures multiset(SortBy(xs, key)) == multiset(xs)
  {
    if xs != [] {
      var init, last := xs[..|xs| - 1], xs[|xs| - 1];
      SortByIsSortedPermutation(init, key);
      InsertKeepsSorted(SortBy(init, key), last, key);
      InsertPermutes(SortBy(init, key), last, key);
      assert xs == init + [last];
    }
  }

  lemma {:induction false} WithKeyAppend<T>(s: seq<T>, t: seq<T>, key: T -> Ext, v: Ext)
    ensures WithKey(s + t, key, v) == WithKey(s, key, v) + WithKey(t, key, v)
  {
    if t != [] {
      var t' := t[..|t| - 1];
      WithKeyAppend(s, t', key, v);
      assert (s + t)[..|s + t| - 1] == s + t';
    } else {
      assert s + t == s;
    }
  }

  lemma {:induction false} WithKeyOfGreater<T>(s: seq<T>, key: T -> Ext, v: Ext)
    requires forall i :: 0 <= i < |s| ==> Lt(v, key(s[i]))
    ensures WithKey(s, key, v) == []
  {
    if s != [] {
      WithKeyOfGreater(s[..|s| - 1], key, v);
    }
  }

  /** In a sorted sequence, a key below the head is below every element. */
  lemma SortedAboveHead<T>(s: seq<T>, key: T -> Ext, v: Ext)
    requires SortedBy(s, key) && s != [] && Lt(v, key(s[0]))
    ensures forall i :: 0 <= i < |s| ==> Lt(v, key(s[i]))
  {
    forall i | 0 < i < |s| ensures Lt(v, key(s[i])) {
      assert Le(key(s[0]), key(s[i]));
    }
  }

  lemma WithKeySingleton<T>(x: T, key: T -> Ext, v: Ext)
    ensures WithKey([x], key, v) == if key(x) == v then [x] else []
  {
    assert [x][..0] == [];
  }

  lemma {:induction false} WithKeyInsert<T>(s: seq<T>, x: T, key: T -> Ext, v: Ext)
    requires SortedBy(s, key)
    ensures WithKey(Insert(s, x, key), key, v) == WithKey(s, key, v) + WithKey([x], key, v)
  {
    if s == [] {
    } else if Lt(key(x), key(s[0])) {
      assert Insert(s, x, key) == [x] + s;
      WithKeyAppend([x], s, key, v);
      WithKeySingleton(x, key, v);
      if key(x) == v {
        SortedAboveHead(s, key, v);
        WithKeyOfGreater(s, key, v);
      }
    } else {
      var t := s[1..];
      assert s == [s[0]] + t;
      assert Insert(s, x, key) == [s[0]] + Insert(t, x, key);
      SortedTail(s, key);
      WithKeyInsert(t, x, key, v);
      WithKeyAppend([s[0]], Insert(t, x, key), key, v);
      WithKeyAppend([s[0]], t, key, v);
    }
  }

  /** Stability: among elements with equal keys, sorting keeps input order. */
  lemma {:induction false} SortByIsStable<T>(xs: seq<T>, key: T -> Ext, v: Ext)
    ensures WithKey(SortBy(xs, key), key, v) == WithKey(xs, key, v)
  {
    if xs != [] {
      var init, last := xs[..|xs| - 1], xs[|xs| - 1];
      var sorted := SortBy(init, key);
      assert SortBy(xs, key) == Insert(sorted, last, key);
      assert xs == init + [last];
      calc {
        WithKey(Insert(sorted, last, key), key, v);
        { SortByIsSortedPermutation(init, key);
          WithKeyInsert(sorted, last, key, v); }
        WithKey(sorted, key, v) + WithKey([last], key, v);
        { SortByIsStable(init, key, v); }
        WithKey(init, key, v) + WithKey([last], key, v);
        { WithKeyAppend(init, [last], key, v); }
        WithKey(xs, key, v);
      }
    }
  }

  /** The result of nsmallest is sorted, holds min(k, |xs|) elements, and
      takes each of them from xs. */
  lemma SmallestIsSortedSubMultiset<T>(k: nat, xs: seq<T>, key: T -> Ext)
    ensures |Smallest(k, xs, key)| == Min(k, |xs|)
    ensures SortedBy(Smallest(k, xs, key), key)
    ensures multiset(Smallest(k, xs, key)) <= multiset(xs)
  {
    var s := SortBy(xs, key);
    SortByIsSortedPermutation(xs, key);
    var top := Smallest(k, xs, key);
    assert s == top + s[|top|..];
  }

  /** Nothing that nsmallest leaves out has a smaller key than anything it
      keeps. */
  lemma SmallestOmitsNothingSmaller<T>(k: nat, xs: seq<T>, key: T -> Ext)
    ensures forall y, z ::
              y in multiset(xs) - multiset(Smallest(k, xs, key)) && z in Smallest(k, xs, key) ==>
                Le(key(z), key(y))
  {
    var s := SortBy(xs, key);
    SortByIsSortedPermutation(xs, key);
    var top := Smallest(k, xs, key);
    var rest := s[|top|..];
    assert s == top + rest;
    assert multiset(xs) - multiset(top) == multiset(rest);
    forall y, z | y in multiset(rest) && z in top ensures Le(key(z), key(y)) {
      assert y in rest;
      var j :| 0 <= j < |rest| && rest[j] == y;
      var i :| 0 <= i < |top| && top[i] == z;
      assert s[i] == z && s[|top| + j] == y;
    }
  }

  /** The first element of the result is a global minimum of the key. */
  lemma SmallestHeadIsArgmin<T>(k: nat, xs: seq<T>, key: T -> Ext)
    requires |Smallest(k, xs, key)| > 0
    ensures forall y :: y in xs ==> Le(key(Smallest(k, xs, key)[0]), key(y))
  {
    var s := SortBy(xs, key);
    SortByIsSortedPermutation(xs, key);
    forall y | y in xs ensures Le(key(s[0]), key(y)) {
      assert y in multiset(s);
      var j :| 0 <= j < |s| && s[j] == y;
      if j > 0 {
        assert Le(key(s[0]), key(s[j]));
      }
    }
  }

  /** Line 93 of the scanner: the best record is the head of nsmallest.
      There is none (the source raises IndexError) exactly when the
      selection is empty. */
  function Best<T>(k: nat, xs: seq<T>, key: T -> Ext): (b: Option<T>)
    ensures b.None? <==> (k == 0 || xs == [])
    ensures b.Some? ==> b.value in xs && forall y :: y in xs ==> Le(key(b.value), key(y))
  {
    var top := Smallest(k, xs, key);
    SmallestIsSortedSubMultiset(k, xs, key);
    if top == [] then None
    else
      SmallestHeadIsArgmin(k, xs, key);
      assert top[0] in multiset(xs);
      Some(top[0])
  }

  /** Insert places x at the first position whose key is greater. */
  lemma {:induction false} InsertAt<T>(s: seq<T>, x: T, key: T -> Ext, j: nat)
    requires j <= |s|
    requires forall m :: 0 <= m < j ==> !Lt(key(x), key(s[m]))
    requires j == |s| || Lt(key(x), key(s[j]))
    ensures Insert(s, x, key) == s[..j] + [x] + s[j..]
  {
    if j > 0 {
      InsertAt(s[1..], x, key, j - 1);
      assert s[1..][..j - 1] == s[1..j];
      assert s[..j] == [s[0]] + s[1..j];
    }
  }

  lemma TakeCons<T>(k: nat, y: T, r: seq<T>)
    requires k > 0
    ensures Take(k, [y] + r) == [y] + Take(k - 1, r)
  {
  }

  /** Inserting into the first k elements and keeping k of the result is the
      same as inserting into the whole and keeping k: the bounded buffer
      loses nothing. */
  lemma {:induction false} TakeInsert<T>(k: nat, s: seq<T>, x: T, key: T -> Ext)
    ensures Take(k, Insert(Take(k, s), x, key)) == Take(k, Insert(s, x, key))
  {
    if k == 0 || s == [] {
    } else if Lt(key(x), key(s[0])) {
      var p := Take(k, s);
      assert p[0] == s[0];
      assert Insert(p, x, key) == [x] + p;
      assert Insert(s, x, key) == [x] + s;
      TakeCons(k, x, p);
      TakeCons(k, x, s);
      assert Take(k - 1, p) == Take(k - 1, s);
    } else {
      var t := s[1..];
      TakeInsert(k - 1, t, x, key);
      var p := Take(k, s);
      assert p == [s[0]] + Take(k - 1, t);
      assert Insert(p, x, key) == [s[0]] + Insert(Take(k - 1, t), x, key);
      assert Insert(s, x, key) == [s[0]] + Insert(t, x, key);
      TakeCons(k, s[0], Insert(Take(k - 1, t), x, key));
      TakeCons(k, s[0], Insert(t, x, key));
    }
  }

  /** `nsmallest(k, xs, key)`: one pass over xs keeping a sorted buffer of
      at most k elements. */
  method NSmallest<T>(k: nat, xs: seq<T>, key: T -> Ext) returns (top: seq<T>)
    ensures top == Smallest(k, xs, key)
    ensures |top| == Min(k, |xs|) && SortedBy(top, key)
  {
    top := [];
    for i := 0 to |xs|
      invariant top == Smallest(k, xs[..i], key)
    {
      var x := xs[i];
      var j := 0;
      while j < |top| && !Lt(key(x), key(top[j]))
        invariant 0 <= j <= |top|
        invariant forall m :: 0 <= m < j ==> !Lt(key(x), key(top[m]))
      {
        j := j + 1;
      }
      InsertAt(top, x, key, j);
      TakeInsert(k, SortBy(xs[..i], key), x, key);
      assert xs[..i + 1][..i] == xs[..i];
      top := top[..j] + [x] + top[j..];
      if |top| > k {
        top := top[..k];
      }
    }
    assert xs[..|xs|] == xs;
    SmallestIsSortedSubMultiset(k, xs, key);
  }
}
