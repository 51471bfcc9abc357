# arkouda set operations and `concatenate`, modelled in Dafny

This project models the client-side core of `arkouda/pdarraysetops.py` from
arkouda, the Python front end of a distributed array server. The core has two
parts.

**The `concatenate` front end.** It takes a list of operands. Each operand is
a `pdarray` (a server array with a name, a dtype and a size), a `Strings`
object (a pair of server arrays, segment offsets and bytes), or anything else.
The front end:

- rejects an empty list;
- hands back a single argument as it is;
- walks the list once, checking every operand against the object type of the
  first one and every pdarray against the dtype stored last, collecting name
  tokens and adding up sizes;
- short-circuits when the total size is zero;
- otherwise builds the request text
  `concatenate <count> <objtype> <mode> <names...>`.

The walk tests "no dtype stored yet" with `dtype == None`. numpy answers that
comparison True for a stored float64 dtype, because `np.dtype(None)` is
float64. So the pdarray after a float64 one is never checked. The model keeps
two dtype rules: `AsWritten`, what the loop does, and `SameAsFirst`, the
documented promise that all pdarrays share the first one's dtype.

The walk is the imperative method `Concatenation.Concatenate`. It is proved
equal to the whole-list specification `Concatenation.ConcatenateSpec` under
the `AsWritten` rule. Lemmas about that specification state each error path,
under both rules, and the request format. One of them shows that the request
splits back into its fields.

**The set-operation fallbacks.** These are the client-side algorithms of
`union1d`, `intersect1d`, `setdiff1d` and `setxor1d`. They run when the two
operands are not both int64, after the empty-operand short-circuits. A pdarray
is a `SetOps.Column`: a dtype and its elements, read as integers.

- `unique` is the ascending sequence of distinct values.
- `argsort` followed by indexing is `Sequences.SortAsc`, a sorted permutation.
  Every correct argsort gives the same array (`Sequences.SortedPermutationUnique`).
- Boolean-mask indexing is `Sequences.Compress`.
- `in1d` is the per-element membership test.

The union, intersection and symmetric-difference fallbacks are proved to
return, in ascending order and without repeats, exactly the values of the set
operation they implement. For intersection and symmetric difference this
needs the caller to keep the `assume_unique` promise. The difference fallback
keeps exactly the values of the first operand missing from the second. It is
ascending and repeat-free when `assume_unique` is false. When it is true, the
fallback keeps the first operand's order and repeats.

On two non-empty operands of different dtypes, the `concatenate` inside a
fallback raises ValueError. The exception is a float64 first operand: its
dtype counts as none stored, so the request is sent.

Modules:

- `Sequences`: sortedness, masks, sorting, deduplication, multiplicities.
- `Text`: decimal rendering, `join`, `split`.
- `Concatenation`: the front end.
- `SetOps`: the set operations.

## Model

| member | source | states |
|---|---|---|
| Concatenation.Concatenate | arkouda/pdarraysetops.py:185-223 | The loop ends in exactly the outcome of `ConcatenateSpec` under the as-written dtype rule. The loop fixes objtype from the first element, checks each element, treats a stored float64 dtype as none stored, appends name tokens and sums sizes. That outcome is a ValueError for no arguments and the argument itself for one. Otherwise it is the first failing element's exception, the read of a Strings `name`, `zeros_like` or the first operand for a zero total, or the request. |
| Concatenation.ModeName | arkouda/pdarraysetops.py:189-192 | The mode word is `append` exactly when `ordered` holds, and it contains no space. |
| Concatenation.FirstError | arkouda/pdarraysetops.py:199-215 | The loop passes the first n elements exactly when each passes its check, and then none of them is foreign. Otherwise it stops at an element that fails, all elements before which passed. |
| Concatenation.FirstErrorAt | arkouda/pdarraysetops.py:199-215 | The loop stops at the first failing element: if all elements before position i pass and element i fails, the loop stops as element i's check says. |
| Concatenation.Names | arkouda/pdarraysetops.py:210-212 | One name token per argument, in argument order: a pdarray's name, or `offsets+bytes` for Strings. |
| Concatenation.ShortArgumentLists | arkouda/pdarraysetops.py:193-196 | No arguments raises ValueError. A single argument of any kind is returned unchanged and nothing is sent. |
| Concatenation.RaisedIffSomeElementRejected | arkouda/pdarraysetops.py:199-215 | With two or more arguments, the call stops before a request exactly when some element fails its check. An exception raised is that of an element preceded only by accepted ones. Under the documented rule, a Strings `name` is never read among pdarrays. |
| Concatenation.ForeignElementRaisesTypeError | arkouda/pdarraysetops.py:200-202 | An element that is neither pdarray nor Strings always prevents the request. When every element before it is accepted, the exception is TypeError. |
| Concatenation.AsWrittenDtypeCheck | arkouda/pdarraysetops.py:203-209 | For pdarray arguments, as written, a ValueError is raised exactly when some pdarray's dtype differs from its predecessor's and that predecessor is not float64. No other exception is possible there, and no Strings name is read. |
| Concatenation.PdarrayCheck | arkouda/pdarraysetops.py:205-209 | Among pdarrays, the as-written check of element i fails exactly when its dtype differs from that of a non-float64 predecessor, and then with ValueError. |
| Concatenation.DtypeMismatchRaisesValueError | arkouda/pdarraysetops.py:171-173 | Under the documented rule, for pdarray arguments, a ValueError is raised exactly when some dtype differs from the first one's. It is the only exception possible there. |
| Concatenation.StringsAfterFloat64ReadsName | arkouda/pdarraysetops.py:205-210 | As written, a Strings object right after a float64 pdarray, in a pdarray call whose earlier elements passed, passes the dtype test and the loop reads its `name`. |
| Concatenation.Float64FirstSkipsDtypeCheck | arkouda/pdarraysetops.py:203-209 | As written, a float64 pdarray then an int64 one gives `concatenate 2 pdarray append A B`, or `zeros_like` of the first when both are empty. The documented rule raises ValueError on the same input. |
| Concatenation.TotalSizeZero | arkouda/pdarraysetops.py:216-217 | The accumulated size is zero if and only if every operand is empty. |
| Concatenation.EmptyOperandsSendNothing | arkouda/pdarraysetops.py:217-221 | For accepted operands, no request is sent if and only if all are empty. Then pdarrays give `zeros_like(arrays[0])` and Strings give `arrays[0]`. |
| Concatenation.RequestSplit | arkouda/pdarraysetops.py:222-223 | Splitting the request text on spaces gives back the command word, the decimal count, the object type, the mode and the names, provided no field contains a space. |
| Concatenation.AcceptedRequestSplit | arkouda/pdarraysetops.py:222-223 | The same round trip for the request built from an accepted argument list. |
| Concatenation.RequestTokens | arkouda/pdarraysetops.py:222-223 | A sent request has four header tokens plus one name token per argument. The count token parses to the number of arguments, the object type is the first argument's, the mode token is `ModeName(ordered)` and the tail is the name list. |
| Concatenation.StringsTokenSplits | arkouda/pdarraysetops.py:212 | A Strings name token `offsets+bytes` splits on `+` back into the two array names. |
| Concatenation.PairConcatenation | arkouda/pdarraysetops.py:199-223 | For two pdarrays in order, the result is a ValueError when their dtypes differ, under the as-written rule only if the first is not float64. Otherwise it is `zeros_like` of the first when both are empty, and the request naming both when not. |
| Concatenation.PairRequestText | arkouda/pdarraysetops.py:222-223 | That request is the text `concatenate 2 pdarray append <name1> <name2>`. |
| Text.ParseNatToString | arkouda/pdarraysetops.py:223 | The decimal count written into the request reads back as the count. |
| Text.SplitJoin | arkouda/pdarraysetops.py:223 | Splitting the space-joined names gives back the names, when none contains a space. |
| Sequences.Compress | arkouda/pdarraysetops.py:327 | Mask indexing keeps exactly the elements whose mask entry is true, one per true entry. An all-true mask returns the array itself. |
| Sequences.CompressPlacement | arkouda/pdarraysetops.py:381 | Mask indexing keeps order and repeats: a selected element lands at the position given by the number of true entries before it. |
| Sequences.CompressStrictlyIncreasing | arkouda/pdarraysetops.py:381 | Mask indexing preserves ascending order. |
| Sequences.SortAsc | arkouda/pdarraysetops.py:324-325 | `aux[argsort(aux)]` is sorted and a permutation of `aux`. |
| Sequences.SortedPermutationUnique | arkouda/pdarraysetops.py:324-325 | Two sorted permutations of the same array are equal, so the result does not depend on which argsort is used. |
| Sequences.StrictlyIncreasingUnique | arkouda/pdarraysetops.py:25 | Two ascending, repeat-free sequences with the same elements are equal. |
| SetOps.Unique | arkouda/pdarraysetops.py:25 | `unique` returns the input's values, ascending and without repeats. |
| SetOps.UniqueCanonical | arkouda/pdarraysetops.py:40 | Any ascending, repeat-free sequence of the input's values is what `unique` returns. |
| SetOps.UniqueNonEmpty | arkouda/pdarraysetops.py:321-322 | `unique` of an array is non-empty exactly when the array is. |
| SetOps.In1dMembership | arkouda/pdarraysetops.py:123-126 | `in1d(a, b)` has entry i true exactly when `a[i]` is in `b`, and `invert=True` negates every entry. |
| SetOps.SingletonMaskMeaning | arkouda/pdarraysetops.py:435-436 | `flag[1:] & flag[:-1]` is true at i exactly when `aux[i]` differs from each neighbour it has. |
| SetOps.RepeatedIffTwice | arkouda/pdarraysetops.py:326-327 | In a sorted array, a value is kept by `aux[:-1][aux[1:] == aux[:-1]]` exactly when it occurs at least twice. |
| SetOps.RepeatedAscending | arkouda/pdarraysetops.py:326-327 | If no value occurs three times, the kept values ascend strictly. |
| SetOps.SingletonIffOnce | arkouda/pdarraysetops.py:435-436 | In a sorted array, a value is kept by the boundary-flag mask exactly when it occurs once. |
| SetOps.SingletonsAscending | arkouda/pdarraysetops.py:435-436 | The values kept by the boundary-flag mask ascend strictly. |
| SetOps.MergedTwiceIffBoth | arkouda/pdarraysetops.py:323-325 | In the sorted concatenation of two repeat-free arrays, a value occurs twice exactly when it is in both arrays. |
| SetOps.MergedOnceIffOne | arkouda/pdarraysetops.py:432-434 | In the sorted concatenation of two repeat-free arrays, a value occurs once exactly when it is in one array but not both. |
| SetOps.IntersectionOfMerge | arkouda/pdarraysetops.py:323-328 | The intersection fallback returns, ascending and without repeats, exactly the values in both repeat-free inputs. |
| SetOps.SymmetricDifferenceOfMerge | arkouda/pdarraysetops.py:432-436 | The symmetric-difference fallback returns, ascending and without repeats, exactly the values in one repeat-free input but not both. |
| SetOps.DifferenceByMask | arkouda/pdarraysetops.py:381 | `pda1[in1d(pda1, pda2, invert=True)]` keeps exactly the values of `pda1` not in `pda2`, ascending when `pda1` is. |
| SetOps.UnionOfUniquesIsUnion | arkouda/pdarraysetops.py:272 | `unique(concatenate((unique(a), unique(b))))` is ascending, holds exactly the values of either input, and equals `unique` of the plain concatenation. |
| SetOps.FallbackConcatenation | arkouda/pdarraysetops.py:323 | The concatenate inside a fallback, on two non-empty pdarrays, raises ValueError exactly when their dtypes differ and the first is not float64. Otherwise it sends the append request. On differing dtypes this is what the fallbacks' `MixedConcatenation` outcome says. |
| SetOps.Union1dOutcome | arkouda/pdarraysetops.py:264-272 | `union1d` takes the server path exactly for two non-empty int64 operands. For non-empty operands of different dtypes it raises, except after a float64 first operand, where the mixed request is sent. An empty operand yields the other unchanged. Otherwise the result is `unique(a ++ b)` with the first operand's dtype. |
| SetOps.Intersect1dOutcome | arkouda/pdarraysetops.py:312-328 | An empty first operand is returned as it is, and so is an empty second one after a non-empty first. The server path is taken exactly for two non-empty int64 operands. Mixed dtypes raise or send the mixed request, as for union. Under the `assume_unique` promise, every other result holds exactly the common values, ascending and without repeats. |
| SetOps.SetDiff1dOutcome | arkouda/pdarraysetops.py:370-381 | An empty operand gives back the first operand as it is. The server path is taken exactly for two non-empty int64 operands. `setdiff1d` meets no concatenate error, and a client-side result keeps exactly the values of the first operand absent from the second. Past the short-circuits it is ascending unless `assume_unique` is given with an unsorted first operand. |
| SetOps.SetDiff1dAssumeUniqueKeepsOrder | arkouda/pdarraysetops.py:378-381 | With `assume_unique=True`, every element of the first operand that the second lacks is kept, repeats included, at the position given by the number of such elements before it. If the operands share no value, the first is returned as it is. |
| SetOps.SetXor1dOutcome | arkouda/pdarraysetops.py:421-436 | An empty operand yields the other unchanged. The server path is taken exactly for two non-empty int64 operands, and mixed dtypes raise or send the mixed request, as for union. Under the `assume_unique` promise, two other non-empty operands give the ascending, repeat-free values in exactly one of them. |
| SetOps.Union1dShortCircuitUnsorted | arkouda/pdarraysetops.py:264-265 | `union1d([], [2, 1, 2])` returns `[2, 1, 2]`, which is not ascending and repeat-free. |
| SetOps.SetXor1dShortCircuitUnsorted | arkouda/pdarraysetops.py:423-424 | `setxor1d([3, 3], [])` returns `[3, 3]`, which is not ascending and repeat-free. |
| SetOps.SetDiff1dShortCircuitUnsorted | arkouda/pdarraysetops.py:372-373 | `setdiff1d([2, 1], [])` returns `[2, 1]`, which is not ascending. |
| SetOps.CorrectedUnion1dIsSortedUnion | arkouda/pdarraysetops.py:235 | With the short-circuits returning `unique` of the other operand, every client-side result of `union1d` is the ascending union. |
| SetOps.CorrectedSetXor1dIsSortedXor | arkouda/pdarraysetops.py:390 | With the same correction, every client-side result of `setxor1d` is the ascending symmetric difference. |
| SetOps.CorrectedSetDiff1dIsSortedDifference | arkouda/pdarraysetops.py:337 | With the same correction, every client-side result of `setdiff1d` is the difference, ascending unless `assume_unique` is set. |

## Left out

- The server round trips are not modelled: `generic_msg`, `create_pdarray`, building a `Strings` from the reply, and splitting the reply on `+`. The request text is the output of `concatenate`, and the server's reply is not visible.
- The integer fast paths of `union1d`, `intersect1d`, `setdiff1d` and `setxor1d` become the outcome `ServerFastPath`; what the server computes there is not modelled.
- `unique` and `in1d` on pdarrays and Strings are server calls; the model uses their documented results. Their Strings and Categorical branches are not modelled, nor the TypeError `in1d` raises for mixed operands.
- The `hasattr(..., 'unique' / 'in1d' / 'concatenate')` delegation to Categorical or other objects is not modelled: that code is not part of this model. A first argument of such a type is modelled like any other non-pdarray, non-Strings element.
- The logger and the `@typechecked` decorator are not modelled. The decorator's rejection of non-pdarray arguments to the set operations is assumed away by the `Column` type.
- Element values are integers. Float dtypes keep their tag, but float comparison and NaN are not modelled.
- For `interleave` mode, the model gives only the request text. The block order the server then chooses is not modelled, and neither is what the server does with an `append` request.
- The NotImplementedError branch of `concatenate` is absent: `objtype` can only be `pdarray` or `str` there, so the branch cannot be reached.
- `Concatenation.ElementError`: a Strings element among pdarrays raises ValueError when the stored dtype is not float64. This assumes `Strings.dtype` is the string dtype, which equals no pdarray dtype. `arkouda/strings.py` is not part of this model.
- `Concatenation.Concatenate`: a Strings element right after a float64 pdarray passes the dtype test, and the loop then reads its `name` at line 210. The model stops there with the outcome `ReadsStringsName`, because what `Strings.name` yields is defined in `arkouda/strings.py`, which is not part of this model.
- On a float64 first operand and a second operand of another dtype, `union1d`, `intersect1d` and `setxor1d` end in `MixedDtypeRequest`. The concatenate request is sent, but the server's answer, and what `unique` and `argsort` then do with it, are not modelled.
- Errors raised by the server are not modelled. That covers the RuntimeError that `unique` documents at lines 47-50, and any failure of `in1d` or `concatenate` on the server. Where a lemma says an operation raises nothing, it means the client-side checks of `concatenate`.
- `SetOps.Unique`: returns sorted values for every dtype, while the source promises order only for int64. The sortedness proved for the `union1d` and `setdiff1d` fallbacks rests on this. The `intersect1d` and `setxor1d` fallbacks sort again with `argsort`, so they need only the absence of repeats.
- `SetOps.Intersect1dOutcome`, `SetOps.SetXor1dOutcome`: require that inputs passed with `assume_unique=True` have no repeats. The source does not check this.
- `SetOps.SetDiff1dOutcome`: promises ascending order only when `assume_unique` is false or the first operand is already ascending. With `assume_unique=True` the source keeps the first operand's order, which `SetOps.SetDiff1dAssumeUniqueKeepsOrder` states instead.

## Findings

| source | as written | input that shows it | evidently intended | confidence | as-written member | corrected member |
|---|---|---|---|---|---|---|
| arkouda/pdarraysetops.py:264-267 | `union1d` returns the non-empty operand as it is when the other is empty | `union1d(ak.array([]), ak.array([2, 1, 2]))` gives `[2, 1, 2]` | the unique, sorted union promised at line 235, here `[1, 2]` | not executed; medium | SetOps.Union1dShortCircuitUnsorted | SetOps.CorrectedUnion1dIsSortedUnion |
| arkouda/pdarraysetops.py:421-424 | `setxor1d` returns the non-empty operand as it is when the other is empty | `setxor1d(ak.array([3, 3]), ak.array([]))` gives `[3, 3]` | the sorted, unique values promised at line 390, here `[3]` | not executed; medium | SetOps.SetXor1dShortCircuitUnsorted | SetOps.CorrectedSetXor1dIsSortedXor |
| arkouda/pdarraysetops.py:372-373 | `setdiff1d` returns `pda1` as it is when `pda2` is empty | `setdiff1d(ak.array([2, 1]), ak.array([]))` gives `[2, 1]` | the sorted, unique values promised at line 337, here `[1, 2]` | not executed; medium | SetOps.SetDiff1dShortCircuitUnsorted | SetOps.CorrectedSetDiff1dIsSortedDifference |
| arkouda/pdarraysetops.py:205-209 | the loop tests "no dtype stored yet" with `dtype == None`, which numpy answers True for a stored float64 dtype, so the dtype of the pdarray after a float64 one is never checked | `concatenate([A, B])` with `A` float64 and `B` int64, one element each, sends `concatenate 2 pdarray append A B` | the ValueError promised at lines 171-173 for pdarrays with differing dtypes | not executed; medium | Concatenation.Float64FirstSkipsDtypeCheck | Concatenation.DtypeMismatchRaisesValueError |
