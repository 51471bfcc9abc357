/** Ordered integer sequences: the element-level vocabulary shared by the set
    operations (sortedness, duplicates, boolean-mask indexing, sorting and
    removal of adjacent repeats) and the facts about multiplicities that the
    set-algebra proofs rest on. */
module Sequences {

  predicate Sorted(s: seq<int>) {
    forall i, j :: 0 <= i < j < |s| ==> s[i] <= s[j]
  }

  predicate StrictlyIncreasing(s: seq<int>) {
    forall i, j :: 0 <= i < j < |s| ==> s[i] < s[j]
  }

  predicate NoDuplicates(s: seq<int>) {
    forall i, j :: 0 <= i < j < |s| ==> s[i] != s[j]
  }

  /** The number of true entries of a mask. */
  function CountTrue(mask: seq<bool>): (n: nat)
    ensures n <= |mask|
  {
    if mask == [] then 0 else (if mask[0] then 1 else 0) + CountTrue(mask[1..])
  }

  /** Boolean-mask indexing `xs[mask]`: the elements of `xs` whose mask entry
      is true, in their original order; one element per true entry, and all
      of `xs` under an all-true mask. */
  function Compress(xs: seq<int>, mask: seq<bool>): (r: seq<int>)
    requires |xs| == |mask|
    ensures |r| == CountTrue(mask) && |r| <= |xs|
    ensures forall x :: x in r <==> exists i :: 0 <= i < |xs| && mask[i] && xs[i] == x
    ensures (forall i :: 0 <= i < |mask| ==> mask[i]) ==> r == xs
  {
    if xs == [] then []
    else
      var tail := Compress(xs[1..], mask[1..]);
      assert forall x :: x in tail <==> exists i :: 1 <= i < |xs| && mask[i] && xs[i] == x by {
        forall x | x in tail ensures exists i :: 1 <= i < |xs| && mask[i] && xs[i] == x {
          var k :| 0 <= k < |xs| - 1 && mask[1..][k] && xs[1..][k] == x;
          assert mask[k + 1] && xs[k + 1] == x;
        }
        forall x | (exists i :: 1 <= i < |xs| && mask[i] && xs[i] == x) ensures x in tail {
          var i :| 1 <= i < |xs| && mask[i] && xs[i] == x;
          assert mask[1..][i - 1] && xs[1..][i - 1] == x;
        }
      }
      assert (forall i :: 0 <= i < |mask| ==> mask[i]) ==> tail == xs[1..] by {
        if forall i :: 0 <= i < |mask| ==> mask[i] {
          assert forall i :: 0 <= i < |mask| - 1 ==> mask[1..][i] == mask[i + 1];
        }
      }
      (if mask[0] then [xs[0]] else []) + tail
  }

  /** Masking keeps order and repeats: a selected element lands at the
      position given by the number of selected elements before it. */
  lemma {:induction false} CompressPlacement(xs: seq<int>, mask: seq<bool>, i: int)
    requires |xs| == |mask| && 0 <= i < |xs| && mask[i]
    ensures CountTrue(mask[..i]) < |Compress(xs, mask)|
    ensures Compress(xs, mask)[CountTrue(mask[..i])] == xs[i]
  {
    var tail := Compress(xs[1..], mask[1..]);
    var head := if mask[0] then 1 else 0;
    if i > 0 {
      CompressPlacement(xs[1..], mask[1..], i - 1);
      assert mask[..i][0] == mask[0] && mask[..i][1..] == mask[1..][..i - 1];
      assert CountTrue(mask[..i]) == head + CountTrue(mask[1..][..i - 1]);
    } else {
      assert mask[..0] == [];
    }
  }

  /** Masking keeps order: if every two selected elements are strictly
      increasing, so is the compressed sequence. */
  lemma {:induction false} CompressStrictlyIncreasing(xs: seq<int>, mask: seq<bool>)
    requires |xs| == |mask|
    requires forall i, j :: 0 <= i < j < |xs| && mask[i] && mask[j] ==> xs[i] < xs[j]
    ensures StrictlyIncreasing(Compress(xs, mask))
  {
    if xs != [] {
      var tailXs, tailMask := xs[1..], mask[1..];
      forall i, j | 0 <= i < j < |tailXs| && tailMask[i] && tailMask[j]
        ensures tailXs[i] < tailXs[j]
      {
        assert mask[i + 1] && mask[j + 1];
      }
      CompressStrictlyIncreasing(tailXs, tailMask);
      var tail := Compress(tailXs, tailMask);
      if mask[0] {
        forall y | y in tail ensures xs[0] < y {
          var k :| 0 <= k < |tailXs| && tailMask[k] && tailXs[k] == y;
          assert mask[k + 1] && xs[k + 1] == y;
        }
        var r := [xs[0]] + tail;
        forall i, j | 0 <= i < j < |r| ensures r[i] < r[j] {
          if i == 0 {
            assert r[j] == tail[j - 1];
            assert tail[j - 1] in tail;
          } else {
            assert r[i] == tail[i - 1] && r[j] == tail[j - 1];
          }
        }
      }
    }
  }

  /** Without duplicates, every value occurs at most once. */
  lemma {:induction false} NoDuplicatesCount(s: seq<int>, x: int)
    requires NoDuplicates(s)
    ensures multiset(s)[x] <= 1
  {
    if s != [] {
      assert s == [s[0]] + s[1..];
      NoDuplicatesCount(s[1..], x);
      if s[0] == x {
        assert x !in s[1..];
      }
    }
  }

  /** Two distinct positions holding one value mean it occurs at least
      twice. */
  lemma TwoPositionsCount(s: seq<int>, i: int, j: int)
    requires 0 <= i < j < |s|
    ensures s[i] == s[j] ==> multiset(s)[s[i]] >= 2
  {
    assert s == s[..i] + [s[i]] + s[i + 1..j] + [s[j]] + s[j + 1..];
  }

  /** Three adjacent equal positions mean the value occurs at least three times. */
  lemma ThreeAdjacentCount(s: seq<int>, i: int)
    requires 0 <= i && i + 2 < |s|
    ensures s[i] == s[i + 1] == s[i + 2] ==> multiset(s)[s[i]] >= 3
  {
    assert s == s[..i] + [s[i], s[i + 1], s[i + 2]] + s[i + 3..];
  }

  /** A value found at one position only occurs exactly once. */
  lemma SinglePositionCount(s: seq<int>, i: int)
    requires 0 <= i < |s|
    requires forall p :: 0 <= p < |s| && p != i ==> s[p] != s[i]
    ensures multiset(s)[s[i]] == 1
  {
    assert s == s[..i] + [s[i]] + s[i + 1..];
    assert s[i] !in s[..i] by {
      forall p | 0 <= p < i ensures s[..i][p] != s[i] {
        assert s[..i][p] == s[p];
      }
    }
    var tail := s[i + 1..];
    assert s[i] !in tail by {
      forall p | 0 <= p < |tail| ensures tail[p] != s[i] {
        assert tail[p] == s[i + 1 + p];
      }
    }
  }

  /** A value occurring at least twice sits at two distinct positions. */
  lemma CountTwoPositions(s: seq<int>, x: int)
    requires multiset(s)[x] >= 2
    ensures exists i, j :: 0 <= i < j < |s| && s[i] == x && s[j] == x
  {
    assert x in multiset(s);
    var i :| 0 <= i < |s| && s[i] == x;
    var rest := s[..i] + s[i + 1..];
    assert s == s[..i] + [s[i]] + s[i + 1..];
    assert multiset(rest)[x] >= 1;
    assert x in rest;
    var k :| 0 <= k < |rest| && rest[k] == x;
    if k < i {
      assert s[k] == x;
    } else {
      assert s[k + 1] == x;
    }
  }

  /** A lower bound of a sorted sequence can be put in front of it. */
  lemma ConsSorted(h: int, t: seq<int>)
    requires Sorted(t)
    requires forall y :: y in multiset(t) ==> h <= y
    ensures Sorted([h] + t)
  {
    var r := [h] + t;
    forall i, j | 0 <= i < j < |r| ensures r[i] <= r[j] {
      assert r[j] == t[j - 1];
      if i == 0 {
        assert t[j - 1] in multiset(t);
      } else {
        assert r[i] == t[i - 1];
      }
    }
  }

  /** Inserting into a sorted sequence: sorted, and exactly one more `x`. */
  function Insert(x: int, s: seq<int>): (r: seq<int>)
    requires Sorted(s)
    ensures Sorted(r)
    ensures multiset(r) == multiset(s) + multiset{x}
  {
    if s == [] || x <= s[0] then
      ConsSorted(x, s);
      [x] + s
    else
      var tail := Insert(x, s[1..]);
      assert s == [s[0]] + s[1..];
      assert forall y :: y in multiset(s[1..]) ==> s[0] <= y;
      ConsSorted(s[0], tail);
      [s[0]] + tail
  }

  /** Ascending sort: stands for `aux[argsort(aux)]`; sorted and a
      permutation of the input. */
  function SortAsc(s: seq<int>): (r: seq<int>)
    ensures Sorted(r)
    ensures multiset(r) == multiset(s)
  {
    if s == [] then []
    else
      assert s == [s[0]] + s[1..];
      Insert(s[0], SortAsc(s[1..]))
  }

  /** Sorted arrangements of one multiset start with the same (least) value. */
  lemma SortedPermutationHead(r1: seq<int>, r2: seq<int>)
    requires Sorted(r1) && Sorted(r2)
    requires multiset(r1) == multiset(r2)
    requires r1 != []
    ensures r2 != [] && r1[0] == r2[0]
  {
    assert r1[0] in multiset(r2);
    var j :| 0 <= j < |r2| && r2[j] == r1[0];
    assert r2[0] in multiset(r1);
    var k :| 0 <= k < |r1| && r1[k] == r2[0];
    assert r2[0] <= r2[j] && r1[0] <= r1[k];
  }

  /** Dropping an equal head from both sides keeps the multisets equal. */
  lemma SameHeadTails(r1: seq<int>, r2: seq<int>)
    requires multiset(r1) == multiset(r2)
    requires r1 != [] && r2 != [] && r1[0] == r2[0]
    ensures multiset(r1[1..]) == multiset(r2[1..])
  {
    assert r1 == [r1[0]] + r1[1..] && r2 == [r2[0]] + r2[1..];
    assert multiset(r1[1..]) == multiset(r1) - multiset{r1[0]};
    assert multiset(r2[1..]) == multiset(r2) - multiset{r2[0]};
  }

  /** Any two sorted arrangements of the same multiset are equal, so every
      correct argsort yields the same sorted array as `SortAsc`. */
  lemma {:induction false} SortedPermutationUnique(r1: seq<int>, r2: seq<int>)
    requires Sorted(r1) && Sorted(r2)
    requires multiset(r1) == multiset(r2)
    ensures r1 == r2
  {
    if r1 == [] {
      assert |r2| == |multiset(r2)| == |multiset(r1)| == 0;
    } else {
      SortedPermutationHead(r1, r2);
      SameHeadTails(r1, r2);
      SortedPermutationUnique(r1[1..], r2[1..]);
      assert r1 == [r1[0]] + r1[1..] && r2 == [r2[0]] + r2[1..];
    }
  }

  /** Removes adjacent repeats of a sorted sequence. */
  function Dedup(s: seq<int>): (r: seq<int>)
    requires Sorted(s)
    ensures StrictlyIncreasing(r)
    ensures forall x :: x in r <==> x in s
    ensures |s| > 0 ==> |r| > 0 && r[0] == s[0]
  {
    if |s| <= 1 then s
    else if s[0] == s[1] then
      var r := Dedup(s[1..]);
      assert s == [s[0]] + s[1..];
      r
    else
      var tail := Dedup(s[1..]);
      assert s == [s[0]] + s[1..];
      var r := [s[0]] + tail;
      assert forall y :: y in tail ==> s[0] < y by {
        forall y | y in tail ensures s[0] < y {
          var k :| 1 <= k < |s| && s[k] == y;
          assert s[0] <= s[1] <= s[k];
        }
      }
      assert forall i :: 0 < i < |r| ==> r[i] == tail[i - 1] && tail[i - 1] in tail;
      r
  }

  /** With equal heads and equal element sets, an element after the head
      of one strictly increasing sequence comes after the head of the other. */
  lemma TailMember(r1: seq<int>, r2: seq<int>, x: int)
    requires StrictlyIncreasing(r1) && StrictlyIncreasing(r2)
    requires forall y :: y in r1 <==> y in r2
    requires r1 != [] && r2 != [] && r1[0] == r2[0]
    requires x in r1[1..]
    ensures x in r2[1..]
  {
    var k :| 0 <= k < |r1| - 1 && r1[1..][k] == x;
    assert r1[k + 1] == x && r1[0] < x;
    assert x in r2;
    var m :| 0 <= m < |r2| && r2[m] == x;
    assert m != 0;
    assert r2[1..][m - 1] == x;
  }

  /** Two strictly increasing sequences with the same elements are equal:
      sorted unique output is determined by its element set. */
  lemma {:induction false} StrictlyIncreasingUnique(r1: seq<int>, r2: seq<int>)
    requires StrictlyIncreasing(r1) && StrictlyIncreasing(r2)
    requires forall x :: x in r1 <==> x in r2
    ensures r1 == r2
  {
    assert r1 != [] ==> r1[0] in r1;
    assert r2 != [] ==> r2[0] in r2;
    if r1 != [] {
      assert r1[0] == r2[0];
      forall x ensures x in r1[1..] <==> x in r2[1..] {
        if x in r1[1..] {
          TailMember(r1, r2, x);
        }
        if x in r2[1..] {
          TailMember(r2, r1, x);
        }
      }
      StrictlyIncreasingUnique(r1[1..], r2[1..]);
      assert r1 == [r1[0]] + r1[1..] && r2 == [r2[0]] + r2[1..];
    }
  }
}
