/** Sorting helpers shared by the line remover (ascending row indices) and the
    high-score table (descending score). Both call sites in the program use
    `std::sort` (followed by `std::unique` for row indices); here the sort is an
    insertion sort on sequences, specified by "sorted and a permutation". */
module Sorting {

  /** `s` is ordered by ascending `key`. */
  ghost predicate SortedBy<T>(s: seq<T>, key: T -> int) {
    forall i, j :: 0 <= i < j < |s| ==> key(s[i]) <= key(s[j])
  }

  /** `s` is strictly ascending: sorted and free of repetitions. */
  ghost predicate StrictlyAscending(s: seq<int>) {
    forall i, j :: 0 <= i < j < |s| ==> s[i] < s[j]
  }

  /** Inserts `x` into the sorted `s`, after every element whose key does not exceed `x`'s. */
  function InsertBy<T>(x: T, s: seq<T>, key: T -> int): (r: seq<T>)
    requires SortedBy(s, key)
    ensures SortedBy(r, key)
    ensures multiset(r) == multiset(s) + multiset{x}
    ensures |r| == |s| + 1
    ensures forall z :: z in r ==> z == x || z in s
  {
    if |s| == 0 then [x]
    else
      SortedTail(s, key);
      assert s == [s[0]] + s[1..];
      if key(x) < key(s[0]) then
        ConsSorted(x, s, key);
        [x] + s
      else
        var rest := InsertBy(x, s[1..], key);
        ConsSorted(s[0], rest, key);
        assert multiset([s[0]] + rest) == multiset{s[0]} + multiset(rest);
        [s[0]] + rest
  }

  /** The tail of a sorted list is sorted, and its head comes first. */
  lemma SortedTail<T>(s: seq<T>, key: T -> int)
    requires SortedBy(s, key) && |s| > 0
    ensures SortedBy(s[1..], key)
    ensures forall z :: z in s[1..] ==> key(s[0]) <= key(z)
  {
    forall i, j | 0 <= i < j < |s[1..]|
      ensures key(s[1..][i]) <= key(s[1..][j])
    {
      assert s[1..][i] == s[i + 1] && s[1..][j] == s[j + 1];
    }
  }

  lemma ConsSorted<T>(h: T, t: seq<T>, key: T -> int)
    requires SortedBy(t, key)
    requires forall z :: z in t ==> key(h) <= key(z)
    ensures SortedBy([h] + t, key)
  {
    forall i, j | 0 <= i < j < |[h] + t|
      ensures key(([h] + t)[i]) <= key(([h] + t)[j])
    {
      assert ([h] + t)[j] == t[j - 1] && t[j - 1] in t;
    }
  }

  /** Insertion sort: the result is ordered by `key` and is a permutation of `s`. */
  function SortBy<T>(s: seq<T>, key: T -> int): (r: seq<T>)
    ensures SortedBy(r, key)
    ensures multiset(r) == multiset(s)
    ensures |r| == |s|
  {
    if |s| == 0 then []
    else
      assert s == s[..|s| - 1] + [s[|s| - 1]];
      InsertBy(s[|s| - 1], SortBy(s[..|s| - 1], key), key)
  }

  function Identity(x: int): int { x }

  /** Drops every element equal to its predecessor, as `std::unique` does. */
  function Dedup(s: seq<int>): (r: seq<int>)
    requires SortedBy(s, Identity)
    ensures StrictlyAscending(r)
    ensures forall x :: x in r <==> x in s
    ensures |r| <= |s|
    ensures |s| > 0 ==> |r| > 0 && r[0] == s[0]
  {
    if |s| <= 1 then s
    else
      var rest := Dedup(s[1..]);
      if s[0] == s[1] then rest
      else
        assert s[0] < rest[0];
        [s[0]] + rest
  }

  /** Sort ascending, then drop repetitions: the normalisation `removeLines` applies. */
  function SortedUnique(s: seq<int>): (r: seq<int>)
    ensures StrictlyAscending(r)
    ensures forall x :: x in r <==> x in s
  {
    var sorted := SortBy(s, Identity);
    assert forall x :: x in sorted <==> x in multiset(sorted);
    Dedup(sorted)
  }

  /** Two strictly ascending lists with the same members are equal. */
  lemma {:induction false} AscendingUnique(a: seq<int>, b: seq<int>)
    requires StrictlyAscending(a) && StrictlyAscending(b)
    requires forall x :: x in a <==> x in b
    ensures a == b
    decreases |a|
  {
    if |a| > 0 && |b| > 0 {
      assert a[0] in a && b[0] in b;
      assert a[0] == b[0] by {
        assert a[0] in b && b[0] in a;
      }
      forall x
        ensures x in a[1..] <==> x in b[1..]
      {
        if x in a[1..] {
          TailMember(a, b, x);
        }
        if x in b[1..] {
          TailMember(b, a, x);
        }
      }
      AscendingUnique(a[1..], b[1..]);
      assert a == [a[0]] + a[1..] && b == [b[0]] + b[1..];
    } else if |a| > 0 {
      HeadIsMember(a);
      assert false;
    } else if |b| > 0 {
      HeadIsMember(b);
      assert false;
    }
  }

  /** With equal heads and the same members, a member of one tail is a member
      of the other: it exceeds the shared head, so it is not the head. */
  lemma TailMember(a: seq<int>, b: seq<int>, x: int)
    requires StrictlyAscending(a) && StrictlyAscending(b) && |a| > 0 && |b| > 0 && a[0] == b[0]
    requires forall y :: y in a <==> y in b
    requires x in a[1..]
    ensures x in b[1..]
  {
    var i :| 0 <= i < |a[1..]| && a[1..][i] == x;
    assert a[i + 1] == x && x > a[0] && x in b;
    var j :| 0 <= j < |b| && b[j] == x;
    assert j != 0;
    assert b[1..][j - 1] == x;
  }

  lemma HeadIsMember(s: seq<int>)
    requires |s| > 0
    ensures s[0] in s
  {
  }

  /** Lists with the same members are both empty or both nonempty. */
  lemma SameMembersEmpty(a: seq<int>, b: seq<int>)
    requires forall x :: x in a <==> x in b
    ensures |a| == 0 <==> |b| == 0
  {
    if |a| > 0 {
      var x := a[0];
      assert x in a;
      assert x in b;
    }
    if |b| > 0 {
      var x := b[0];
      assert x in b;
      assert x in a;
    }
  }

  /** Sorting and deduplicating yields the one strictly ascending list with the
      same members: order and repetitions in the input do not matter. */
  lemma SortedUniqueCanonical(a: seq<int>, b: seq<int>)
    requires forall x :: x in a <==> x in b
    ensures SortedUnique(a) == SortedUnique(b)
  {
    AscendingUnique(SortedUnique(a), SortedUnique(b));
  }

  /** A list that is already strictly ascending is left as it is. */
  lemma SortedUniqueFixed(s: seq<int>)
    requires StrictlyAscending(s)
    ensures SortedUnique(s) == s
  {
    AscendingUnique(SortedUnique(s), s);
  }
}
