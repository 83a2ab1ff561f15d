/** Go's ordering of strings and `sort.Strings`, as a pure insertion sort and
    as an in-place insertion sort on an array. */
module Sorting {
  import opened Bytes

  /** Go's `a <= b` on strings: byte-wise lexicographic comparison, where a
      proper prefix comes first. */
  predicate LessEq(a: Bytes, b: Bytes)
    ensures a <= b ==> LessEq(a, b)
  {
    |a| == 0 || (|b| > 0 && (a[0] < b[0] || (a[0] == b[0] && LessEq(a[1..], b[1..]))))
  }

  lemma {:induction false} LessEqReflexive(a: Bytes)
    ensures LessEq(a, a)
  {
    if |a| > 0 {
      LessEqReflexive(a[1..]);
    }
  }

  lemma {:induction false} LessEqTotal(a: Bytes, b: Bytes)
    ensures LessEq(a, b) || LessEq(b, a)
  {
    if |a| > 0 && |b| > 0 && a[0] == b[0] {
      LessEqTotal(a[1..], b[1..]);
    }
  }

  lemma {:induction false} LessEqAntisymmetric(a: Bytes, b: Bytes)
    requires LessEq(a, b) && LessEq(b, a)
    ensures a == b
  {
    if |a| > 0 && |b| > 0 {
      LessEqAntisymmetric(a[1..], b[1..]);
      assert a == [a[0]] + a[1..] && b == [b[0]] + b[1..];
    }
  }

  lemma {:induction false} LessEqTransitive(a: Bytes, b: Bytes, c: Bytes)
    requires LessEq(a, b) && LessEq(b, c)
    ensures LessEq(a, c)
  {
    if |a| > 0 && a[0] == b[0] && b[0] == c[0] {
      LessEqTransitive(a[1..], b[1..], c[1..]);
    }
  }

  /** A common prefix does not change how two strings compare. */
  lemma {:induction false} LessEqCommonPrefix(p: Bytes, a: Bytes, b: Bytes)
    ensures LessEq(p + a, p + b) <==> LessEq(a, b)
  {
    if |p| == 0 {
      assert p + a == a && p + b == b;
    } else {
      assert (p + a)[0] == (p + b)[0];
      assert (p + a)[1..] == p[1..] + a;
      assert (p + b)[1..] == p[1..] + b;
      LessEqCommonPrefix(p[1..], a, b);
    }
  }

  /** Every element is at most every later element. */
  ghost predicate Sorted(s: seq<Bytes>)
  {
    forall i, j :: 0 <= i < j < |s| ==> LessEq(s[i], s[j])
  }

  /** Puts `x` before the first element it is at most; the result holds
      the elements of `s` and one more `x`. */
  function Insert(x: Bytes, s: seq<Bytes>): (r: seq<Bytes>)
    ensures multiset(r) == multiset(s) + multiset{x}
  {
    if |s| == 0 then [x]
    else if LessEq(x, s[0]) then [x] + s
    else
      assert s == [s[0]] + s[1..];
      [s[0]] + Insert(x, s[1..])
  }

  /** Insertion sort: the model of `sort.Strings`. It permutes its input. */
  function Sort(s: seq<Bytes>): (r: seq<Bytes>)
    ensures multiset(r) == multiset(s)
  {
    if |s| == 0 then []
    else
      assert s == [s[0]] + s[1..];
      Insert(s[0], Sort(s[1..]))
  }

  lemma {:induction false} InsertKeepsSorted(x: Bytes, s: seq<Bytes>)
    requires Sorted(s)
    ensures Sorted(Insert(x, s))
  {
    if |s| == 0 {
    } else if LessEq(x, s[0]) {
      var r := [x] + s;
      forall i, j | 0 <= i < j < |r| ensures LessEq(r[i], r[j]) {
        if i == 0 && j > 1 {
          LessEqTransitive(x, s[0], s[j - 1]);
        }
      }
    } else {
      var t := Insert(x, s[1..]);
      InsertKeepsSorted(x, s[1..]);
      LessEqTotal(x, s[0]);
      var r := [s[0]] + t;
      forall i, j | 0 <= i < j < |r| ensures LessEq(r[i], r[j]) {
        if i == 0 {
          assert r[j] in multiset(t);
          assert r[j] in multiset(s[1..]) || r[j] == x;
          if r[j] != x {
            var k :| 0 <= k < |s[1..]| && s[1..][k] == r[j];
            assert s[k + 1] == r[j];
          }
        }
      }
    }
  }

  /** `Sort` yields an ordered sequence. */
  lemma {:induction false} SortIsOrdered(s: seq<Bytes>)
    ensures Sorted(Sort(s))
  {
    if |s| > 0 {
      SortIsOrdered(s[1..]);
      InsertKeepsSorted(s[0], Sort(s[1..]));
    }
  }

  /** The first element of an ordered sequence is at most each of its elements. */
  lemma HeadIsLeast(s: seq<Bytes>, x: Bytes)
    requires Sorted(s) && x in multiset(s)
    ensures LessEq(s[0], x)
  {
    var j :| 0 <= j < |s| && s[j] == x;
    if j == 0 { LessEqReflexive(x); }
  }

  lemma HeadAndTail(s: seq<Bytes>, t: seq<Bytes>)
    requires |s| == |t| > 0 && s[0] == t[0] && s[1..] == t[1..]
    ensures s == t
  {
    assert s == [s[0]] + s[1..] && t == [t[0]] + t[1..];
  }

  /** Two ordered permutations of each other start with the same element. */
  lemma SameHead(s: seq<Bytes>, t: seq<Bytes>)
    requires |s| > 0 && Sorted(s) && Sorted(t) && multiset(s) == multiset(t)
    ensures |t| == |s| && s[0] == t[0]
  {
    assert |t| == |multiset(t)| == |s|;
    assert s[0] in multiset(s) && t[0] in multiset(t);
    HeadIsLeast(s, t[0]);
    HeadIsLeast(t, s[0]);
    LessEqAntisymmetric(s[0], t[0]);
  }

  lemma TailMultiset(s: seq<Bytes>)
    requires |s| > 0
    ensures multiset(s[1..]) == multiset(s) - multiset{s[0]}
  {
    assert s == [s[0]] + s[1..];
  }

  lemma SortedTail(s: seq<Bytes>)
    requires |s| > 0 && Sorted(s)
    ensures Sorted(s[1..])
  {
    forall i, j | 0 <= i < j < |s[1..]| ensures LessEq(s[1..][i], s[1..][j]) {
      assert s[1..][i] == s[i + 1] && s[1..][j] == s[j + 1];
    }
  }

  /** There is only one ordered permutation of a sequence of strings, so every
      correct sorting algorithm, stable or not, gives the result of `Sort`. */
  lemma {:induction false} OrderedPermutationUnique(s: seq<Bytes>, t: seq<Bytes>)
    requires Sorted(s) && Sorted(t) && multiset(s) == multiset(t)
    ensures s == t
  {
    if |s| == 0 {
      assert |t| == |multiset(t)| == 0;
    } else {
      SameHead(s, t);
      TailMultiset(s);
      TailMultiset(t);
      SortedTail(s);
      SortedTail(t);
      OrderedPermutationUnique(s[1..], t[1..]);
      HeadAndTail(s, t);
    }
  }

  /** Any result of a correct sort is the result of `Sort`. */
  lemma SortIsTheSort(s: seq<Bytes>, r: seq<Bytes>)
    requires Sorted(r) && multiset(r) == multiset(s)
    ensures r == Sort(s)
  {
    SortIsOrdered(s);
    OrderedPermutationUnique(r, Sort(s));
  }

  /** Exchanges `a[j - 1]` and `a[j]`. */
  method SwapDown(a: array<Bytes>, j: int)
    requires 0 < j < a.Length
    modifies a
    ensures a[j - 1] == old(a[j]) && a[j] == old(a[j - 1])
    ensures forall m :: 0 <= m < a.Length && m != j - 1 && m != j ==> a[m] == old(a[m])
    ensures multiset(a[..]) == multiset(old(a[..]))
    ensures a[..] == old(a[..])[j - 1 := old(a[j])][j := old(a[j - 1])]
  {
    a[j - 1], a[j] := a[j], a[j - 1];
  }

  /** Exchanging two adjacent slots below `n` leaves everything from `n` on
      as it was and keeps the multiset of the first `n` elements. */
  lemma SwapKeepsPrefix(s: seq<Bytes>, j: int, n: int)
    requires 0 < j < n <= |s|
    ensures multiset(s[j - 1 := s[j]][j := s[j - 1]][..n]) == multiset(s[..n])
    ensures s[j - 1 := s[j]][j := s[j - 1]][n..] == s[n..]
  {
    var t := s[j - 1 := s[j]][j := s[j - 1]];
    assert t[..n] == s[..n][j - 1 := s[j]][j := s[j - 1]];
  }

  /** Moves `a[i]` down into the ordered prefix `a[..i]`, so that `a[..i + 1]`
      is ordered. */
  method SinkInto(a: array<Bytes>, i: int)
    requires 0 <= i < a.Length
    requires forall p, q :: 0 <= p < q < i ==> LessEq(a[p], a[q])
    modifies a
    ensures forall p, q :: 0 <= p < q <= i ==> LessEq(a[p], a[q])
    ensures multiset(a[..]) == multiset(old(a[..]))
    ensures multiset(a[..i + 1]) == multiset(old(a[..i + 1]))
    ensures a[i + 1..] == old(a[i + 1..])
  {
    var j := i;
    while j > 0 && !LessEq(a[j - 1], a[j])
      invariant 0 <= j <= i
      invariant forall p, q :: 0 <= p < q <= i && p != j && q != j ==> LessEq(a[p], a[q])
      invariant forall q :: j < q <= i ==> LessEq(a[j], a[q])
      invariant multiset(a[..]) == multiset(old(a[..]))
      invariant multiset(a[..i + 1]) == multiset(old(a[..i + 1]))
      invariant a[i + 1..] == old(a[i + 1..])
    {
      LessEqTotal(a[j - 1], a[j]);
      SwapKeepsPrefix(a[..], j, i + 1);
      SwapDown(a, j);
      j := j - 1;
    }
    forall p | 0 <= p < j ensures LessEq(a[p], a[j]) {
      if p < j - 1 {
        LessEqTransitive(a[p], a[j - 1], a[j]);
      }
    }
  }

  /** `sort.Strings(lines)`: sorts the slice in place. The algorithm here is
      an insertion sort, not Go's; by `OrderedPermutationUnique` the sorted
      result is the same. */
  method SortInPlace(a: array<Bytes>)
    modifies a
    ensures a[..] == Sort(old(a[..]))
  {
    var i := 0;
    while i < a.Length
      invariant 0 <= i <= a.Length
      invariant forall p, q :: 0 <= p < q < i ==> LessEq(a[p], a[q])
      invariant multiset(a[..]) == multiset(old(a[..]))
    {
      SinkInto(a, i);
      i := i + 1;
    }
    SortIsTheSort(old(a[..]), a[..]);
  }
}
