/** Values shared by every part of the mesh tools: points, optional and
    failing results, and the few list facts the scripts rely on. */
module Common {

  /** A node coordinate; the scripts only add, subtract, multiply and divide
      coordinates in the parts modelled here. */
  datatype Point = Point(x: real, y: real, z: real)

  datatype Option<T> = None | Some(value: T)

  datatype Result<T, E> = Ok(value: T) | Err(error: E)

  /** No element occurs twice. */
  predicate Distinct<T(==)>(s: seq<T>)
  {
    forall i, j :: 0 <= i < j < |s| ==> s[i] != s[j]
  }

  /** Number of occurrences of x in s. */
  function Count<T(==)>(s: seq<T>, x: T): (n: nat)
    ensures n <= |s|
    ensures n == 0 <==> x !in s
  {
    if s == [] then 0 else (if s[0] == x then 1 else 0) + Count(s[1..], x)
  }

  lemma {:induction false} CountAppend<T>(a: seq<T>, b: seq<T>, x: T)
    ensures Count(a + b, x) == Count(a, x) + Count(b, x)
  {
    if a == [] {
      assert a + b == b;
    } else {
      assert (a + b)[1..] == a[1..] + b;
      CountAppend(a[1..], b, x);
    }
  }

  /** `[x] * k`. */
  function Repeat<T>(x: T, k: nat): (r: seq<T>)
    ensures |r| == k && forall j :: 0 <= j < k ==> r[j] == x
  {
    if k == 0 then [] else Repeat(x, k - 1) + [x]
  }

  lemma {:induction false} RepeatCount<T>(x: T, k: nat, y: T)
    ensures Count(Repeat(x, k), y) == if x == y then k else 0
  {
    if k > 0 {
      CountAppend(Repeat(x, k - 1), [x], y);
      RepeatCount(x, k - 1, y);
    }
  }

  /** Python's `reversed(s)` / `s[::-1]`. */
  function Reverse<T>(s: seq<T>): (r: seq<T>)
    ensures |r| == |s|
    ensures forall i :: 0 <= i < |s| ==> r[i] == s[|s| - 1 - i]
  {
    if s == [] then [] else Reverse(s[1..]) + [s[0]]
  }

  /** Reversing twice gives the list back. */
  lemma ReverseReverse<T>(s: seq<T>)
    ensures Reverse(Reverse(s)) == s
  {
    var r := Reverse(Reverse(s));
    assert |r| == |s|;
    forall i | 0 <= i < |s| ensures r[i] == s[i] {
      assert r[i] == Reverse(s)[|s| - 1 - i];
    }
  }

  /** Python's `max(s)` over a non-empty list of integers. */
  function Max(s: seq<int>): (m: int)
    requires |s| > 0
    ensures m in s
    ensures forall i :: 0 <= i < |s| ==> s[i] <= m
  {
    if |s| == 1 then s[0]
    else
      var rest := Max(s[1..]);
      assert forall i :: 1 <= i < |s| ==> s[i] == s[1..][i - 1];
      if s[0] >= rest then s[0] else rest
  }

  /** Strictly ascending. */
  predicate Ascending(s: seq<int>)
  {
    forall i, j :: 0 <= i < j < |s| ==> s[i] < s[j]
  }

  /** Python's `sorted(s)` on a list of integers. */
  function SortedList(s: seq<int>): (r: seq<int>)
    ensures NonDecreasing(r)
    ensures multiset(r) == multiset(s)
  {
    if s == [] then []
    else
      var rest := SortedList(s[1..]);
      InsertSorted(s[0], rest);
      InsertMultiset(s[0], rest);
      assert s == [s[0]] + s[1..];
      Insert(s[0], rest)
  }

  predicate NonDecreasing(s: seq<int>)
  {
    forall i, j :: 0 <= i < j < |s| ==> s[i] <= s[j]
  }

  /** Inserts x before the first element not below it. */
  function Insert(x: int, s: seq<int>): seq<int>
  {
    if s == [] || x <= s[0] then [x] + s else [s[0]] + Insert(x, s[1..])
  }

  lemma {:induction false} InsertSorted(x: int, s: seq<int>)
    requires NonDecreasing(s)
    ensures NonDecreasing(Insert(x, s))
  {
    if s != [] && x > s[0] {
      var t := Insert(x, s[1..]);
      assert NonDecreasing(s[1..]) by {
        forall i, j | 0 <= i < j < |s[1..]| ensures s[1..][i] <= s[1..][j] {
          assert s[1..][i] == s[i + 1] && s[1..][j] == s[j + 1];
        }
      }
      InsertSorted(x, s[1..]);
      InsertLowerBound(x, s[1..], s[0]);
      var r := [s[0]] + t;
      assert Insert(x, s) == r;
      forall i, j | 0 <= i < j < |r| ensures r[i] <= r[j] {
        assert r[j] == t[j - 1];
        if i > 0 {
          assert r[i] == t[i - 1];
        }
      }
    }
  }

  lemma {:induction false} InsertMultiset(x: int, s: seq<int>)
    ensures multiset(Insert(x, s)) == multiset(s) + multiset{x}
  {
    if s != [] && x > s[0] {
      InsertMultiset(x, s[1..]);
      assert s == [s[0]] + s[1..];
    }
  }

  lemma {:induction false} InsertLowerBound(x: int, s: seq<int>, lo: int)
    requires lo <= x && forall k :: 0 <= k < |s| ==> lo <= s[k]
    ensures forall k :: 0 <= k < |Insert(x, s)| ==> lo <= Insert(x, s)[k]
  {
    if s != [] && x > s[0] {
      InsertLowerBound(x, s[1..], lo);
      var t := Insert(x, s[1..]);
      forall k | 0 <= k < |t| + 1 ensures lo <= ([s[0]] + t)[k] {
        if k > 0 {
          assert ([s[0]] + t)[k] == t[k - 1];
        }
      }
    }
  }

  /** Sorting a list without repetitions gives a strictly ascending list of
      the same elements. */
  lemma SortedDistinct(s: seq<int>)
    requires Distinct(s)
    ensures Ascending(SortedList(s))
    ensures forall x :: x in SortedList(s) <==> x in s
    ensures |SortedList(s)| == |s|
  {
    var r := SortedList(s);
    assert forall x :: x in r <==> x in multiset(s);
    assert |r| == |multiset(r)| == |multiset(s)| == |s|;
    DistinctMultiset(s);
    forall i, j | 0 <= i < j < |r| ensures r[i] < r[j] {
      if r[i] == r[j] {
        CountTwo(r, i, j);
      }
    }
  }

  lemma {:induction false} DistinctMultiset(s: seq<int>)
    requires Distinct(s)
    ensures forall x :: multiset(s)[x] <= 1
  {
    if s != [] {
      assert s == [s[0]] + s[1..];
      DistinctMultiset(s[1..]);
      assert s[0] !in s[1..];
    }
  }

  lemma {:induction false} CountTwo(r: seq<int>, i: nat, j: nat)
    requires i < j < |r| && r[i] == r[j]
    ensures multiset(r)[r[i]] >= 2
  {
    assert r == r[..i] + [r[i]] + r[i + 1..j] + [r[j]] + r[j + 1..];
  }

  /** The elements of the list `0, 1, ..., n - 1` shifted by `lo`. */
  function Range(lo: int, n: nat): (r: seq<int>)
    ensures |r| == n
    ensures forall i :: 0 <= i < n ==> r[i] == lo + i
  {
    seq(n, i => lo + i)
  }

  lemma RangeDistinct(lo: int, n: nat)
    ensures Distinct(Range(lo, n)) && Ascending(Range(lo, n))
  {
  }

  /** An element's node list with every `o` replaced by `n`. */
  function Replace(ns: seq<int>, o: int, n: int): (r: seq<int>)
    ensures |r| == |ns|
    ensures forall i :: 0 <= i < |ns| ==> r[i] == if ns[i] == o then n else ns[i]
    decreases |ns|
  {
    if ns == [] then [] else [if ns[0] == o then n else ns[0]] + Replace(ns[1..], o, n)
  }

  /** The loop building `new_nodes_in_this_elm` (the same loop appears in
      the fragment merge and in the node equivalencer). */
  method ReplaceNode(ns: seq<int>, o: int, n: int) returns (r: seq<int>)
    ensures r == Replace(ns, o, n)
  {
    r := [];
    for p := 0 to |ns|
      invariant |r| == p
      invariant forall i :: 0 <= i < p ==> r[i] == if ns[i] == o then n else ns[i]
    {
      if ns[p] == o {
        r := r + [n];
      } else {
        r := r + [ns[p]];
      }
    }
  }

  /** Replacing twice is replacing once, as long as the new ID differs. */
  lemma ReplaceTwice(ns: seq<int>, o: int, n: int)
    requires o != n
    ensures Replace(Replace(ns, o, n), o, n) == Replace(ns, o, n)
  {
  }

  /** The empty list is a unit of concatenation. */
  lemma AppendEmpty<T>(s: seq<T>)
    ensures s + [] == s && [] + s == s
  {
  }

  /** Appending after a concatenation. */
  lemma SliceMiddle<T>(a: seq<T>, b: seq<T>, c: seq<T>)
    ensures (a + b + c)[|a|..|a| + |b|] == b
  {
  }

  lemma SnocAssoc<T>(a: seq<T>, b: seq<T>, v: T)
    ensures a + b + [v] == a + (b + [v])
  {
  }

  /** Concatenation is associative. */
  lemma ConcatAssoc<T>(a: seq<T>, b: seq<T>, c: seq<T>)
    ensures a + (b + c) == a + b + c
  {
  }
}
