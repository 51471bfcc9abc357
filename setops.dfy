/** The client-side set operations on pdarrays: `unique` and `in1d` as
    specified helpers, and the empty-operand short-circuits and non-server
    fallbacks of `union1d`, `intersect1d`, `setdiff1d` and `setxor1d`.
    A pdarray is a `Column`: its dtype and its elements, read as integers. */
module SetOps {
  import opened Sequences
  import C = Concatenation

  datatype Column = Column(dtype: C.DType, values: seq<int>)

  /** What a set operation yields on the client: a column, a request handed
      to the server's integer fast path, the exception raised by the
      `concatenate` call inside the fallback, or a concatenate request for a
      float64 array followed by one of another dtype, which the client lets
      through and whose answer this model does not follow. */
  datatype SetOpOutcome =
    | Done(result: Column)
    | ServerFastPath
    | Failed(error: C.ConcatError)
    | MixedDtypeRequest

  // ---------------------------------------------------------------------
  // Helpers: unique, in1d, and the masks of the sorted-merge fallbacks
  // ---------------------------------------------------------------------

  /** `unique(pda)`: the distinct values, in ascending order. */
  function Unique(s: seq<int>): (r: seq<int>)
    ensures StrictlyIncreasing(r)
    ensures forall x :: x in r <==> x in s
  {
    var sorted := SortAsc(s);
    assert forall x :: x in sorted <==> x in s by {
      forall x ensures x in sorted <==> x in s {
        assert x in sorted <==> x in multiset(sorted);
        assert x in s <==> x in multiset(s);
      }
    }
    Dedup(sorted)
  }

  /** `unique` is determined by its input's element set: any sorted,
      duplicate-free sequence of the same values is the one it returns. */
  lemma UniqueCanonical(s: seq<int>, r: seq<int>)
    requires StrictlyIncreasing(r)
    requires forall x :: x in r <==> x in s
    ensures r == Unique(s)
  {
    StrictlyIncreasingUnique(r, Unique(s));
  }

  /** `unique` is non-empty exactly when its input is. */
  lemma UniqueNonEmpty(s: seq<int>)
    ensures |Unique(s)| > 0 <==> |s| > 0
  {
    var u := Unique(s);
    assert |s| > 0 ==> s[0] in u;
    assert |u| > 0 ==> u[0] in s;
  }

  /** `in1d(a, b, invert)`: one entry per element of `a`, true where that
      element occurs in `b` (false there when `invert` is set). */
  function In1d(a: seq<int>, b: seq<int>, invert: bool): (m: seq<bool>)
    ensures |m| == |a|
  {
    seq(|a|, i requires 0 <= i < |a| => (a[i] in b) != invert)
  }

  /** `in1d(a, b)` is `[item in b for item in a]`, and `invert=True` is the
      element-wise negation of it. */
  lemma In1dMembership(a: seq<int>, b: seq<int>)
    ensures forall i :: 0 <= i < |a| ==> (In1d(a, b, false)[i] <==> a[i] in b)
    ensures forall i :: 0 <= i < |a| ==> In1d(a, b, true)[i] == !In1d(a, b, false)[i]
  {
  }

  /** `aux[1:] == aux[:-1]`: entry `i` tells whether `aux[i]` equals its
      successor. */
  function RepeatMask(aux: seq<int>): (mask: seq<bool>)
    ensures |mask| == if |aux| == 0 then 0 else |aux| - 1
  {
    if |aux| == 0 then []
    else seq(|aux| - 1, i requires 0 <= i < |aux| - 1 => aux[i + 1] == aux[i])
  }

  /** `aux[:-1][aux[1:] == aux[:-1]]`: each element equal to its successor. */
  function KeepRepeated(aux: seq<int>): seq<int> {
    var mask := RepeatMask(aux);
    Compress(aux[..|mask|], mask)
  }

  /** `concatenate(([True], aux[1:] != aux[:-1], [True]))`: a boundary flag
      before the first element, between every two neighbours and after the
      last. */
  function BoundaryFlags(aux: seq<int>): (flag: seq<bool>)
    requires |aux| > 0
    ensures |flag| == |aux| + 1
  {
    [true] + seq(|aux| - 1, i requires 0 <= i < |aux| - 1 => aux[i + 1] != aux[i]) + [true]
  }

  /** `flag[1:] & flag[:-1]`. */
  function SingletonMask(aux: seq<int>): (mask: seq<bool>)
    requires |aux| > 0
    ensures |mask| == |aux|
  {
    var flag := BoundaryFlags(aux);
    seq(|aux|, i requires 0 <= i < |aux| => flag[i + 1] && flag[i])
  }

  /** The flag construction keeps exactly the elements that differ from
      both of their neighbours (the ends having one neighbour each). */
  lemma SingletonMaskMeaning(aux: seq<int>, i: int)
    requires 0 <= i < |aux|
    ensures SingletonMask(aux)[i] <==>
            (i == 0 || aux[i - 1] != aux[i]) && (i == |aux| - 1 || aux[i + 1] != aux[i])
  {
    var flag := BoundaryFlags(aux);
    var inner := seq(|aux| - 1, k requires 0 <= k < |aux| - 1 => aux[k + 1] != aux[k]);
    assert flag == [true] + inner + [true];
    assert i > 0 ==> flag[i] == inner[i - 1];
    assert i < |aux| - 1 ==> flag[i + 1] == inner[i];
  }

  /** `aux[flag[1:] & flag[:-1]]`. */
  function KeepSingletons(aux: seq<int>): seq<int>
    requires |aux| > 0
  {
    Compress(aux, SingletonMask(aux))
  }

  // ---------------------------------------------------------------------
  // The fallback algorithms on element sequences
  // ---------------------------------------------------------------------

  /** Values of a sorted merge of two duplicate-free sequences occur at most
      twice. */
  lemma MergedCountsAtMostTwo(u1: seq<int>, u2: seq<int>, x: int)
    requires NoDuplicates(u1) && NoDuplicates(u2)
    ensures multiset(u1)[x] <= 1 && multiset(u2)[x] <= 1
    ensures multiset(SortAsc(u1 + u2))[x] == multiset(u1)[x] + multiset(u2)[x] <= 2
  {
    NoDuplicatesCount(u1, x);
    NoDuplicatesCount(u2, x);
  }

  /** A value occurs twice in the merge of two duplicate-free sequences
      exactly when it is in both. */
  lemma MergedTwiceIffBoth(u1: seq<int>, u2: seq<int>, x: int)
    requires NoDuplicates(u1) && NoDuplicates(u2)
    ensures multiset(SortAsc(u1 + u2))[x] >= 2 <==> x in u1 && x in u2
  {
    MergedCountsAtMostTwo(u1, u2, x);
    assert x in u1 <==> x in multiset(u1);
    assert x in u2 <==> x in multiset(u2);
  }

  /** A value occurs once in the merge of two duplicate-free sequences
      exactly when it is in one of them only. */
  lemma MergedOnceIffOne(u1: seq<int>, u2: seq<int>, x: int)
    requires NoDuplicates(u1) && NoDuplicates(u2)
    ensures multiset(SortAsc(u1 + u2))[x] == 1 <==> ((x in u1) != (x in u2))
  {
    MergedCountsAtMostTwo(u1, u2, x);
    assert x in u1 <==> x in multiset(u1);
    assert x in u2 <==> x in multiset(u2);
  }

  /** In a sorted sequence holding no value three times, the elements equal
      to their successor ascend strictly. */
  lemma RepeatedAscending(aux: seq<int>)
    requires Sorted(aux)
    requires forall x :: multiset(aux)[x] <= 2
    ensures StrictlyIncreasing(KeepRepeated(aux))
  {
    var mask := RepeatMask(aux);
    var n := |mask|;
    var xs := aux[..n];
    forall i, j | 0 <= i < j < n && mask[i] && mask[j] ensures xs[i] < xs[j] {
      ThreeAdjacentCount(aux, i);
      assert multiset(aux)[aux[i]] <= 2;
      assert aux[i] <= aux[i + 1] <= aux[i + 2] <= aux[j + 1];
    }
    CompressStrictlyIncreasing(xs, mask);
  }

  /** A value kept by the repeat mask occurs at least twice. */
  lemma RepeatedOccursTwice(aux: seq<int>, x: int)
    requires x in KeepRepeated(aux)
    ensures multiset(aux)[x] >= 2
  {
    var mask := RepeatMask(aux);
    var xs := aux[..|mask|];
    var i :| 0 <= i < |mask| && mask[i] && xs[i] == x;
    TwoPositionsCount(aux, i, i + 1);
  }

  /** In a sorted sequence, a value occurring twice is equal to its
      successor at its first position, so the repeat mask keeps it. */
  lemma TwiceIsRepeated(aux: seq<int>, x: int)
    requires Sorted(aux)
    requires multiset(aux)[x] >= 2
    ensures x in KeepRepeated(aux)
  {
    var mask := RepeatMask(aux);
    var xs := aux[..|mask|];
    CountTwoPositions(aux, x);
    var p, q :| 0 <= p < q < |aux| && aux[p] == x && aux[q] == x;
    assert aux[p] <= aux[p + 1] <= aux[q];
    assert mask[p] && xs[p] == x;
  }

  /** In a sorted sequence, a value is equal to its successor somewhere
      exactly when it occurs at least twice. */
  lemma RepeatedIffTwice(aux: seq<int>, x: int)
    requires Sorted(aux)
    ensures x in KeepRepeated(aux) <==> multiset(aux)[x] >= 2
  {
    if x in KeepRepeated(aux) {
      RepeatedOccursTwice(aux, x);
    }
    if multiset(aux)[x] >= 2 {
      TwiceIsRepeated(aux, x);
    }
  }

  /** The intersection fallback: in the sorted merge of two duplicate-free
      sequences, the elements equal to their successor are, in ascending
      order, exactly the values common to both. */
  lemma IntersectionOfMerge(u1: seq<int>, u2: seq<int>)
    requires NoDuplicates(u1) && NoDuplicates(u2)
    ensures StrictlyIncreasing(KeepRepeated(SortAsc(u1 + u2)))
    ensures forall x :: x in KeepRepeated(SortAsc(u1 + u2)) <==> x in u1 && x in u2
  {
    var aux := SortAsc(u1 + u2);
    var r := KeepRepeated(aux);
    forall x ensures multiset(aux)[x] <= 2 {
      MergedCountsAtMostTwo(u1, u2, x);
    }
    RepeatedAscending(aux);
    forall x ensures x in r <==> x in u1 && x in u2 {
      MergedTwiceIffBoth(u1, u2, x);
      RepeatedIffTwice(aux, x);
    }
  }

  /** In a sorted sequence, the elements unlike both neighbours ascend
      strictly. */
  lemma SingletonsAscending(aux: seq<int>)
    requires Sorted(aux) && |aux| > 0
    ensures StrictlyIncreasing(KeepSingletons(aux))
  {
    var mask := SingletonMask(aux);
    forall i, j | 0 <= i < j < |aux| && mask[i] && mask[j] ensures aux[i] < aux[j] {
      SingletonMaskMeaning(aux, i);
      assert aux[i] <= aux[i + 1] <= aux[j];
    }
    CompressStrictlyIncreasing(aux, mask);
  }

  /** In a sorted sequence, an element unlike both neighbours is unlike
      every other element. */
  lemma IsolatedIsUnique(aux: seq<int>, i: int)
    requires Sorted(aux) && 0 <= i < |aux|
    requires (i == 0 || aux[i - 1] != aux[i]) && (i == |aux| - 1 || aux[i + 1] != aux[i])
    ensures forall p :: 0 <= p < |aux| && p != i ==> aux[p] != aux[i]
  {
    forall p | 0 <= p < |aux| && p != i ensures aux[p] != aux[i] {
      if p < i {
        assert aux[p] <= aux[i - 1] < aux[i];
      } else {
        assert aux[i] < aux[i + 1] <= aux[p];
      }
    }
  }

  /** In a sorted sequence, a value kept by the singleton mask occurs once. */
  lemma SingletonOccursOnce(aux: seq<int>, x: int)
    requires Sorted(aux) && |aux| > 0
    requires x in KeepSingletons(aux)
    ensures multiset(aux)[x] == 1
  {
    var mask := SingletonMask(aux);
    assert x in Compress(aux, mask);
    var i :| 0 <= i < |aux| && mask[i] && aux[i] == x;
    SingletonMaskMeaning(aux, i);
    IsolatedIsUnique(aux, i);
    SinglePositionCount(aux, i);
  }

  /** A value occurring once differs from its neighbours, so the singleton
      mask keeps it. */
  lemma OnceIsSingleton(aux: seq<int>, x: int)
    requires |aux| > 0
    requires multiset(aux)[x] == 1
    ensures x in KeepSingletons(aux)
  {
    var mask := SingletonMask(aux);
    assert x in multiset(aux);
    var i :| 0 <= i < |aux| && aux[i] == x;
    SingletonMaskMeaning(aux, i);
    if i > 0 {
      TwoPositionsCount(aux, i - 1, i);
    }
    if i < |aux| - 1 {
      TwoPositionsCount(aux, i, i + 1);
    }
    assert mask[i];
  }

  /** In a sorted sequence, a value sits somewhere unlike both neighbours
      exactly when it occurs once. */
  lemma SingletonIffOnce(aux: seq<int>, x: int)
    requires Sorted(aux) && |aux| > 0
    ensures x in KeepSingletons(aux) <==> multiset(aux)[x] == 1
  {
    if x in KeepSingletons(aux) {
      SingletonOccursOnce(aux, x);
    }
    if multiset(aux)[x] == 1 {
      OnceIsSingleton(aux, x);
    }
  }

  /** The symmetric-difference fallback: in the sorted merge of two
      duplicate-free sequences, the elements unlike both neighbours are, in
      ascending order, exactly the values in one sequence but not both. */
  lemma SymmetricDifferenceOfMerge(u1: seq<int>, u2: seq<int>)
    requires NoDuplicates(u1) && NoDuplicates(u2)
    requires |u1 + u2| > 0
    ensures |SortAsc(u1 + u2)| > 0
    ensures StrictlyIncreasing(KeepSingletons(SortAsc(u1 + u2)))
    ensures forall x :: x in KeepSingletons(SortAsc(u1 + u2)) <==> ((x in u1) != (x in u2))
  {
    var aux := SortAsc(u1 + u2);
    assert |aux| == |multiset(aux)| == |u1 + u2|;
    forall x ensures x in KeepSingletons(aux) <==> ((x in u1) != (x in u2)) {
      MergedOnceIffOne(u1, u2, x);
      SingletonIffOnce(aux, x);
    }
    SingletonsAscending(aux);
  }

  /** The difference fallback: the elements of `u1` flagged by the inverted
      membership test against `u2` are exactly those not in `u2`, kept in
      their order. */
  lemma DifferenceByMask(u1: seq<int>, u2: seq<int>)
    ensures forall x :: x in Compress(u1, In1d(u1, u2, true)) <==> x in u1 && x !in u2
    ensures StrictlyIncreasing(u1) ==> StrictlyIncreasing(Compress(u1, In1d(u1, u2, true)))
  {
    var mask := In1d(u1, u2, true);
    if StrictlyIncreasing(u1) {
      CompressStrictlyIncreasing(u1, mask);
    }
  }

  /** The union fallback `unique(concatenate((unique(a), unique(b))))`. */
  function UnionOfUniques(a: seq<int>, b: seq<int>): seq<int> {
    Unique(Unique(a) + Unique(b))
  }

  /** The union fallback is the ascending sequence of the values in either
      input: it is the `unique` of the plain concatenation. */
  lemma UnionOfUniquesIsUnion(a: seq<int>, b: seq<int>)
    ensures StrictlyIncreasing(UnionOfUniques(a, b))
    ensures forall x :: x in UnionOfUniques(a, b) <==> x in a || x in b
    ensures UnionOfUniques(a, b) == Unique(a + b)
  {
    UniqueCanonical(a + b, UnionOfUniques(a, b));
  }

  // ---------------------------------------------------------------------
  // The four operations as written
  // ---------------------------------------------------------------------

  /** Both operands non-empty and int64: the server computes the result. */
  predicate ServerHandles(a: Column, b: Column) {
    |a.values| > 0 && |b.values| > 0 && a.dtype == C.Int64 && b.dtype == C.Int64
  }

  /** Both operands non-empty, not both int64, and of different dtypes: the
      `concatenate` of the fallback is handed two dtypes. */
  predicate MixedDtypes(a: Column, b: Column) {
    |a.values| > 0 && |b.values| > 0 && !(a.dtype == C.Int64 && b.dtype == C.Int64) &&
    a.dtype != b.dtype
  }

  /** `unique(pda1)` and `unique(pda2)` unless the caller vouches that the
      inputs are unique already. */
  function Prepared(s: seq<int>, assumeUnique: bool): seq<int> {
    if assumeUnique then s else Unique(s)
  }

  /** The fallback's `concatenate((x, y))` on non-empty pdarrays whose
      dtypes differ: a ValueError, unless the first is float64, whose dtype
      the loop takes for "none stored yet". */
  function MixedConcatenation(x: Column): SetOpOutcome {
    if x.dtype == C.Float64 then MixedDtypeRequest else Failed(C.DtypeMismatch)
  }

  function Union1d(a: Column, b: Column): SetOpOutcome {
    if |a.values| == 0 then Done(b)
    else if |b.values| == 0 then Done(a)
    else if a.dtype == C.Int64 && b.dtype == C.Int64 then ServerFastPath
    else if a.dtype != b.dtype then MixedConcatenation(a)
    else Done(Column(a.dtype, UnionOfUniques(a.values, b.values)))
  }

  function Intersect1d(a: Column, b: Column, assumeUnique: bool): SetOpOutcome {
    if |a.values| == 0 then Done(a)
    else if |b.values| == 0 then Done(b)
    else if a.dtype == C.Int64 && b.dtype == C.Int64 then ServerFastPath
    else if a.dtype != b.dtype then MixedConcatenation(a)
    else
      var aux := SortAsc(Prepared(a.values, assumeUnique) + Prepared(b.values, assumeUnique));
      Done(Column(a.dtype, KeepRepeated(aux)))
  }

  function SetDiff1d(a: Column, b: Column, assumeUnique: bool): SetOpOutcome {
    if |a.values| == 0 then Done(a)
    else if |b.values| == 0 then Done(a)
    else if a.dtype == C.Int64 && b.dtype == C.Int64 then ServerFastPath
    else
      var u1 := Prepared(a.values, assumeUnique);
      Done(Column(a.dtype, Compress(u1, In1d(u1, Prepared(b.values, assumeUnique), true))))
  }

  function SetXor1d(a: Column, b: Column, assumeUnique: bool): SetOpOutcome {
    if |a.values| == 0 then Done(b)
    else if |b.values| == 0 then Done(a)
    else if a.dtype == C.Int64 && b.dtype == C.Int64 then ServerFastPath
    else if a.dtype != b.dtype then MixedConcatenation(a)
    else
      var u1, u2 := Prepared(a.values, assumeUnique), Prepared(b.values, assumeUnique);
      UniqueNonEmpty(a.values);
      Done(Column(a.dtype, KeepSingletons(SortAsc(u1 + u2))))
  }

  /** The pair `concatenate` inside the fallbacks, on two non-empty pdarrays
      in order, raises a ValueError exactly when their dtypes differ and the
      first is not float64, and otherwise sends an append request; on
      differing dtypes that is what `MixedConcatenation` says. */
  lemma FallbackConcatenation(n1: string, n2: string, x: Column, y: Column)
    requires |x.values| > 0 && |y.values| > 0
    ensures var spec := C.ConcatenateSpec(C.AsWritten, [C.PdArray(n1, x.dtype, |x.values|),
                                                        C.PdArray(n2, y.dtype, |y.values|)], true);
            (spec.Raised? <==> x.dtype != y.dtype && x.dtype != C.Float64) &&
            (spec.Raised? ==> spec.error == C.DtypeMismatch && C.ExceptionClass(spec.error) == "ValueError") &&
            (!spec.Raised? ==> spec.Sent?) &&
            (x.dtype != y.dtype ==>
               MixedConcatenation(x) == if spec.Raised? then Failed(spec.error) else MixedDtypeRequest)
  {
    C.PairConcatenation(C.AsWritten, C.PdArray(n1, x.dtype, |x.values|), C.PdArray(n2, y.dtype, |y.values|), true);
  }

  /** How `union1d` decides: the fast path for two non-empty int64 operands,
      for mixed dtypes the concatenate error or, after a float64 operand, an
      unchecked request, otherwise the ascending union of the values; an
      empty operand yields the other one unchanged. */
  lemma Union1dOutcome(a: Column, b: Column)
    ensures Union1d(a, b).ServerFastPath? <==> ServerHandles(a, b)
    ensures Union1d(a, b).Failed? <==> MixedDtypes(a, b) && a.dtype != C.Float64
    ensures Union1d(a, b).MixedDtypeRequest? <==> MixedDtypes(a, b) && a.dtype == C.Float64
    ensures Union1d(a, b).Failed? ==> Union1d(a, b).error == C.DtypeMismatch
    ensures |a.values| == 0 ==> Union1d(a, b) == Done(b)
    ensures |a.values| > 0 && |b.values| == 0 ==> Union1d(a, b) == Done(a)
    ensures |a.values| > 0 && |b.values| > 0 && Union1d(a, b).Done? ==>
            Union1d(a, b).result == Column(a.dtype, Unique(a.values + b.values))
  {
    if |a.values| > 0 && |b.values| > 0 && !ServerHandles(a, b) && !MixedDtypes(a, b) {
      UnionOfUniquesIsUnion(a.values, b.values);
    }
  }

  /** `intersect1d` returns, in ascending order and without repeats, exactly
      the values in both operands, whenever its `assume_unique` promise is
      kept; otherwise it is the fast path, or for mixed dtypes the
      concatenate error or an unchecked request. An empty operand is
      returned as it is, the first one if both are empty. */
  lemma Intersect1dOutcome(a: Column, b: Column, assumeUnique: bool)
    requires assumeUnique ==> NoDuplicates(a.values) && NoDuplicates(b.values)
    ensures |a.values| == 0 ==> Intersect1d(a, b, assumeUnique) == Done(a)
    ensures |a.values| > 0 && |b.values| == 0 ==> Intersect1d(a, b, assumeUnique) == Done(b)
    ensures Intersect1d(a, b, assumeUnique).ServerFastPath? <==> ServerHandles(a, b)
    ensures Intersect1d(a, b, assumeUnique).Failed? <==> MixedDtypes(a, b) && a.dtype != C.Float64
    ensures Intersect1d(a, b, assumeUnique).MixedDtypeRequest? <==> MixedDtypes(a, b) && a.dtype == C.Float64
    ensures Intersect1d(a, b, assumeUnique).Failed? ==>
            Intersect1d(a, b, assumeUnique).error == C.DtypeMismatch
    ensures Intersect1d(a, b, assumeUnique).Done? ==>
            var c := Intersect1d(a, b, assumeUnique).result;
            StrictlyIncreasing(c.values) &&
            forall x :: x in c.values <==> x in a.values && x in b.values
  {
    if Intersect1d(a, b, assumeUnique).Done? && |a.values| > 0 && |b.values| > 0 {
      var u1, u2 := Prepared(a.values, assumeUnique), Prepared(b.values, assumeUnique);
      assert NoDuplicates(u1) && NoDuplicates(u2);
      IntersectionOfMerge(u1, u2);
    }
  }

  /** `setdiff1d` keeps exactly the values of the first operand that the
      second lacks; sorted and without repeats unless the caller vouched
      for uniqueness (then the first operand's order is kept). An empty
      operand gives back the first one as it is. It meets no concatenate
      error and sends no mixed request, as it concatenates nothing. */
  lemma SetDiff1dOutcome(a: Column, b: Column, assumeUnique: bool)
    ensures |a.values| == 0 || |b.values| == 0 ==> SetDiff1d(a, b, assumeUnique) == Done(a)
    ensures SetDiff1d(a, b, assumeUnique).ServerFastPath? <==> ServerHandles(a, b)
    ensures !SetDiff1d(a, b, assumeUnique).Failed? && !SetDiff1d(a, b, assumeUnique).MixedDtypeRequest?
    ensures SetDiff1d(a, b, assumeUnique).Done? ==>
            forall x :: x in SetDiff1d(a, b, assumeUnique).result.values <==> x in a.values && x !in b.values
    ensures SetDiff1d(a, b, assumeUnique).Done? && |b.values| > 0 &&
            (!assumeUnique || StrictlyIncreasing(a.values)) ==>
            StrictlyIncreasing(SetDiff1d(a, b, assumeUnique).result.values)
  {
    if |a.values| > 0 && |b.values| > 0 {
      DifferenceByMask(Prepared(a.values, assumeUnique), Prepared(b.values, assumeUnique));
    }
  }

  /** With `assume_unique` set, `setdiff1d` keeps the first operand's order
      and repeats: every element the second operand lacks stays, at the
      position given by the number of such elements before it, and operands
      with no common value give back the first one as it is. */
  lemma SetDiff1dAssumeUniqueKeepsOrder(a: Column, b: Column)
    requires |a.values| > 0 && |b.values| > 0 && !ServerHandles(a, b)
    ensures var r := SetDiff1d(a, b, true).result.values;
            var keep := In1d(a.values, b.values, true);
            |r| == CountTrue(keep) &&
            forall i :: 0 <= i < |a.values| && a.values[i] !in b.values ==>
              CountTrue(keep[..i]) < |r| && r[CountTrue(keep[..i])] == a.values[i]
    ensures (forall x :: x in a.values ==> x !in b.values) ==> SetDiff1d(a, b, true) == Done(a)
  {
    var keep := In1d(a.values, b.values, true);
    forall i | 0 <= i < |a.values| && a.values[i] !in b.values
      ensures CountTrue(keep[..i]) < |Compress(a.values, keep)|
      ensures Compress(a.values, keep)[CountTrue(keep[..i])] == a.values[i]
    {
      CompressPlacement(a.values, keep, i);
    }
    if forall x :: x in a.values ==> x !in b.values {
      assert forall i :: 0 <= i < |keep| ==> keep[i];
    }
  }

  /** `setxor1d` on two non-empty operands whose `assume_unique` promise is
      kept returns, ascending and without repeats, exactly the values in one
      operand but not both; an empty operand yields the other unchanged. */
  lemma SetXor1dOutcome(a: Column, b: Column, assumeUnique: bool)
    requires assumeUnique ==> NoDuplicates(a.values) && NoDuplicates(b.values)
    ensures SetXor1d(a, b, assumeUnique).ServerFastPath? <==> ServerHandles(a, b)
    ensures SetXor1d(a, b, assumeUnique).Failed? <==> MixedDtypes(a, b) && a.dtype != C.Float64
    ensures SetXor1d(a, b, assumeUnique).MixedDtypeRequest? <==> MixedDtypes(a, b) && a.dtype == C.Float64
    ensures SetXor1d(a, b, assumeUnique).Failed? ==> SetXor1d(a, b, assumeUnique).error == C.DtypeMismatch
    ensures |a.values| == 0 ==> SetXor1d(a, b, assumeUnique) == Done(b)
    ensures |a.values| > 0 && |b.values| == 0 ==> SetXor1d(a, b, assumeUnique) == Done(a)
    ensures |a.values| > 0 && |b.values| > 0 && SetXor1d(a, b, assumeUnique).Done? ==>
            var c := SetXor1d(a, b, assumeUnique).result;
            StrictlyIncreasing(c.values) &&
            forall x :: x in c.values <==> ((x in a.values) != (x in b.values))
  {
    if SetXor1d(a, b, assumeUnique).Done? && |a.values| > 0 && |b.values| > 0 {
      var u1, u2 := Prepared(a.values, assumeUnique), Prepared(b.values, assumeUnique);
      assert NoDuplicates(u1) && NoDuplicates(u2);
      UniqueNonEmpty(a.values);
      assert |u1 + u2| > 0;
      SymmetricDifferenceOfMerge(u1, u2);
    }
  }

  // ---------------------------------------------------------------------
  // The short-circuits return an operand as it is
  // ---------------------------------------------------------------------

  /** `union1d` with an empty first operand returns the second one as it
      is, repeats and disorder included. */
  lemma Union1dShortCircuitUnsorted()
    ensures Union1d(Column(C.Int64, []), Column(C.Int64, [2, 1, 2])) == Done(Column(C.Int64, [2, 1, 2]))
    ensures !StrictlyIncreasing([2, 1, 2])
  {
    var s := [2, 1, 2];
    assert s[0] >= s[1];
  }

  /** `setxor1d` with an empty operand returns the other one as it is. */
  lemma SetXor1dShortCircuitUnsorted()
    ensures SetXor1d(Column(C.Int64, [3, 3]), Column(C.Int64, []), false) == Done(Column(C.Int64, [3, 3]))
    ensures !StrictlyIncreasing([3, 3])
  {
    var s := [3, 3];
    assert s[0] >= s[1];
  }

  /** `setdiff1d` with an empty second operand returns the first as it is. */
  lemma SetDiff1dShortCircuitUnsorted()
    ensures SetDiff1d(Column(C.Int64, [2, 1]), Column(C.Int64, []), false) == Done(Column(C.Int64, [2, 1]))
    ensures !StrictlyIncreasing([2, 1])
  {
    var s := [2, 1];
    assert s[0] >= s[1];
  }

  /** `union1d` with the short-circuits returning the `unique` of the other
      operand, as the fallback does. */
  function CorrectedUnion1d(a: Column, b: Column): SetOpOutcome {
    if |a.values| == 0 then Done(Column(b.dtype, Unique(b.values)))
    else if |b.values| == 0 then Done(Column(a.dtype, Unique(a.values)))
    else Union1d(a, b)
  }

  /** `setxor1d` with the short-circuits returning the `unique` of the other
      operand. */
  function CorrectedSetXor1d(a: Column, b: Column, assumeUnique: bool): SetOpOutcome {
    if |a.values| == 0 then Done(Column(b.dtype, Unique(b.values)))
    else if |b.values| == 0 then Done(Column(a.dtype, Unique(a.values)))
    else SetXor1d(a, b, assumeUnique)
  }

  /** `setdiff1d` with the empty-second-operand short-circuit preparing the
      first operand as the fallback does. */
  function CorrectedSetDiff1d(a: Column, b: Column, assumeUnique: bool): SetOpOutcome {
    if |a.values| > 0 && |b.values| == 0 then Done(Column(a.dtype, Prepared(a.values, assumeUnique)))
    else SetDiff1d(a, b, assumeUnique)
  }

  /** Whatever the operands, the corrected `union1d` that does not defer to
      the server returns the ascending union of their values. */
  lemma CorrectedUnion1dIsSortedUnion(a: Column, b: Column)
    ensures CorrectedUnion1d(a, b).Done? ==>
            StrictlyIncreasing(CorrectedUnion1d(a, b).result.values) &&
            forall x :: x in CorrectedUnion1d(a, b).result.values <==> x in a.values || x in b.values
  {
    if |a.values| == 0 {
      assert forall x :: x !in a.values;
    } else if |b.values| == 0 {
      assert forall x :: x !in b.values;
    } else if !ServerHandles(a, b) && !MixedDtypes(a, b) {
      UnionOfUniquesIsUnion(a.values, b.values);
    }
  }

  /** Whatever the operands (within the `assume_unique` promise), the
      corrected `setxor1d` returns the ascending symmetric difference. */
  lemma CorrectedSetXor1dIsSortedXor(a: Column, b: Column, assumeUnique: bool)
    requires assumeUnique ==> NoDuplicates(a.values) && NoDuplicates(b.values)
    ensures CorrectedSetXor1d(a, b, assumeUnique).Done? ==>
            StrictlyIncreasing(CorrectedSetXor1d(a, b, assumeUnique).result.values) &&
            forall x :: x in CorrectedSetXor1d(a, b, assumeUnique).result.values <==>
                        ((x in a.values) != (x in b.values))
  {
    if |a.values| > 0 && |b.values| > 0 {
      SetXor1dOutcome(a, b, assumeUnique);
    }
  }

  /** Whatever the operands, the corrected `setdiff1d` returns the values of
      the first operand missing from the second, ascending unless the caller
      vouched for uniqueness. */
  lemma CorrectedSetDiff1dIsSortedDifference(a: Column, b: Column, assumeUnique: bool)
    ensures CorrectedSetDiff1d(a, b, assumeUnique).Done? ==>
            (forall x :: x in CorrectedSetDiff1d(a, b, assumeUnique).result.values <==>
                         x in a.values && x !in b.values) &&
            (!assumeUnique ==> StrictlyIncreasing(CorrectedSetDiff1d(a, b, assumeUnique).result.values))
  {
    SetDiff1dOutcome(a, b, assumeUnique);
  }
}
