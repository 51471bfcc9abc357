/** The client-side front end of `concatenate` (arkouda/pdarraysetops.py):
    argument validation, choice of placement mode, the size short-circuit
    and the exact request text sent to the array server. The server's reply
    and the distributed copy it triggers are not part of this model; the
    request string is the output.

    The dtype check is modelled twice. `AsWritten` is what the loop does:
    it compares each pdarray's dtype with the one it stored last, and tests
    "nothing stored yet" with `dtype == None`, which numpy answers True for
    a stored float64 dtype (`np.dtype(None)` is float64). `SameAsFirst` is
    what the documentation promises: every pdarray must have the first
    one's dtype. */
module Concatenation {
  import opened Text

  datatype Option<T> = None | Some(value: T)

  /** Element types a pdarray can carry. */
  datatype DType = Bool | Int64 | Float64 | UInt8

  /** One element of the `arrays` argument, reduced to the attributes the
      front end reads. A `Strings` object is a pair of server arrays, the
      segment offsets and the byte values. `Foreign` is anything else. */
  datatype Operand =
    | PdArray(name: string, dtype: DType, size: nat)
    | Strings(offsetsName: string, bytesName: string, size: nat)
    | Foreign

  /** The `objtype` attribute: "pdarray" or "str". */
  datatype ObjType = PdarrayObj | StrObj

  function ObjTypeName(t: ObjType): string {
    match t
    case PdarrayObj => "pdarray"
    case StrObj => "str"
  }

  function ObjTypeOf(a: Operand): ObjType
    requires !a.Foreign?
  {
    if a.PdArray? then PdarrayObj else StrObj
  }

  /** The exceptions `concatenate` raises before any request is sent. */
  datatype ConcatError =
    | EmptyIterable        // ValueError: no arrays at all
    | NotPdarrayOrStrings  // TypeError: an element is neither pdarray nor Strings
    | DtypeMismatch        // ValueError: a pdarray's dtype differs from the one compared against
    | MissingOffsets       // AttributeError: a pdarray among Strings has no `offsets`

  function ExceptionClass(e: ConcatError): string {
    match e
    case EmptyIterable => "ValueError"
    case NotPdarrayOrStrings => "TypeError"
    case DtypeMismatch => "ValueError"
    case MissingOffsets => "AttributeError"
  }

  /** Which dtype a pdarray is checked against. */
  datatype DtypeRule =
    | AsWritten    // the last stored dtype, a stored float64 counting as none
    | SameAsFirst  // the first pdarray's dtype

  /** Why the loop stops at an element: an exception, or (as written only)
      a Strings object taken into a pdarray call, whose `name` attribute the
      loop then reads. */
  datatype Stop = Raise(error: ConcatError) | ReadName

  /** What a call ends in: an exception, the first operand handed back as it
      is, a zero-filled copy of the first operand's shape, a request, or the
      loop reading `name` of a Strings object, past which this model does
      not follow the call. */
  datatype Outcome =
    | Raised(error: ConcatError)
    | Unchanged(operand: Operand)
    | ZerosLike(template: Operand)
    | Sent(request: string)
    | ReadsStringsName

  /** The mode word of the request: `append` keeps the arguments' order,
      `interleave` leaves it to the server. */
  function ModeName(ordered: bool): (m: string)
    ensures ' ' !in m
    ensures m == "append" <==> ordered
  {
    if ordered then "append" else "interleave"
  }

  /** The name token of one operand; a Strings object is named by its two
      component arrays joined with '+'. */
  function NameToken(a: Operand): string
    requires !a.Foreign?
  {
    match a
    case PdArray(name, _, _) => name
    case Strings(offsetsName, bytesName, _) => offsetsName + "+" + bytesName
  }

  /** `dtype == None` as numpy evaluates it. */
  predicate EqualsNone(d: Option<DType>) {
    d == None || d == Some(Float64)
  }

  /** The check one loop iteration applies to `a`, once the first element
      has fixed the object type, comparing a pdarray with the dtype of `ref`.
      A Strings object reports the string dtype, which no pdarray dtype
      equals. An accepted element has the first one's object type. */
  function ElementError(rule: DtypeRule, first: Operand, ref: Operand, a: Operand): (r: Option<Stop>)
    ensures r.None? ==> !a.Foreign? && !first.Foreign? && (a.PdArray? <==> first.PdArray?)
  {
    if a.Foreign? || first.Foreign? then Some(Raise(NotPdarrayOrStrings))
    else if first.PdArray? then
      if rule.AsWritten? && ref.PdArray? && ref.dtype == Float64 then
        if a.Strings? then Some(ReadName) else None
      else if a.PdArray? && ref.PdArray? && a.dtype == ref.dtype then None
      else Some(Raise(DtypeMismatch))
    else if a.Strings? then None
    else Some(Raise(MissingOffsets))
  }

  /** The operand whose dtype element `i` is compared with. As written that
      is the dtype stored last, which after an accepted element is that
      element's dtype; element 0 is taken as it is. */
  function Reference(rule: DtypeRule, s: seq<Operand>, i: int): Operand
    requires 0 <= i < |s|
  {
    if rule.SameAsFirst? || i == 0 then s[0] else s[i - 1]
  }

  function Check(rule: DtypeRule, s: seq<Operand>, i: int): Option<Stop>
    requires 0 <= i < |s|
  {
    ElementError(rule, s[0], Reference(rule, s, i), s[i])
  }

  /** The first `n` elements pass the loop's checks. */
  predicate AllAccepted(rule: DtypeRule, s: seq<Operand>, n: nat)
    requires n <= |s|
  {
    forall i :: 0 <= i < n ==> Check(rule, s, i).None?
  }

  predicate NoForeign(s: seq<Operand>, n: nat)
    requires n <= |s|
  {
    forall i :: 0 <= i < n ==> !s[i].Foreign?
  }

  /** Where the loop stops among the first `n` elements, if it does: the
      first element that fails its check. */
  function FirstError(rule: DtypeRule, s: seq<Operand>, n: nat): (r: Option<Stop>)
    requires n <= |s|
    ensures r.None? <==> AllAccepted(rule, s, n)
    ensures r.None? ==> NoForeign(s, n)
    ensures r.Some? ==> exists k :: 0 <= k < n && Check(rule, s, k) == r && AllAccepted(rule, s, k)
  {
    if n == 0 then None
    else
      var e := FirstError(rule, s, n - 1);
      if e.Some? then e else Check(rule, s, n - 1)
  }

  /** The name tokens of the first `n` operands, in argument order. */
  function Names(s: seq<Operand>, n: nat): (names: seq<string>)
    requires n <= |s| && NoForeign(s, n)
    ensures |names| == n
    ensures forall i :: 0 <= i < n ==> names[i] == NameToken(s[i])
  {
    if n == 0 then [] else Names(s, n - 1) + [NameToken(s[n - 1])]
  }

  /** The sum of the sizes of the first `n` operands. */
  function TotalSize(s: seq<Operand>, n: nat): nat
    requires n <= |s| && NoForeign(s, n)
  {
    if n == 0 then 0 else TotalSize(s, n - 1) + s[n - 1].size
  }

  /** "concatenate <count> <objtype> <mode> <name> <name> ..." */
  function RequestText(count: nat, objtype: ObjType, mode: string, names: seq<string>): string {
    "concatenate" + " " + NatToString(count) + " " + ObjTypeName(objtype) + " " + mode + " " + Join(names, ' ')
  }

  /** What `concatenate(arrays, ordered)` does under a dtype rule, stated
      over the whole argument list at once. */
  function ConcatenateSpec(rule: DtypeRule, arrays: seq<Operand>, ordered: bool): Outcome {
    if |arrays| == 0 then Raised(EmptyIterable)
    else if |arrays| == 1 then Unchanged(arrays[0])
    else
      match FirstError(rule, arrays, |arrays|)
      case Some(Raise(e)) => Raised(e)
      case Some(ReadName) => ReadsStringsName
      case None =>
        if TotalSize(arrays, |arrays|) == 0 then
          if arrays[0].PdArray? then ZerosLike(arrays[0]) else Unchanged(arrays[0])
        else
          Sent(RequestText(|arrays|, ObjTypeOf(arrays[0]), ModeName(ordered), Names(arrays, |arrays|)))
  }

  /** The front end as the source runs it: one pass over the arguments that
      fixes the object type from the first element, checks every element,
      collects the name tokens and adds up the sizes. */
  method Concatenate(arrays: seq<Operand>, ordered: bool) returns (r: Outcome)
    ensures r == ConcatenateSpec(AsWritten, arrays, ordered)
  {
    var size := 0;
    var objtype: Option<ObjType> := None;
    var dtype: Option<DType> := None;
    var names: seq<string> := [];
    var mode := if ordered then "append" else "interleave";
    if |arrays| < 1 {
      return Raised(EmptyIterable);
    }
    if |arrays| == 1 {
      return Unchanged(arrays[0]);
    }
    for i := 0 to |arrays|
      invariant AllAccepted(AsWritten, arrays, i)
      invariant NoForeign(arrays, i)
      invariant objtype == if i == 0 then None else Some(ObjTypeOf(arrays[0]))
      invariant (i == 0 || !arrays[0].PdArray?) ==> dtype == None
      invariant (i > 0 && arrays[0].PdArray?) ==> arrays[i - 1].PdArray? && dtype == Some(arrays[i - 1].dtype)
      invariant names == Names(arrays, i)
      invariant size == TotalSize(arrays, i)
    {
      var a := arrays[i];
      if !a.PdArray? && !a.Strings? {
        StopsAt(AsWritten, arrays, ordered, i);
        return Raised(NotPdarrayOrStrings);
      }
      if objtype == None {
        objtype := Some(ObjTypeOf(a));
      }
      match objtype.value {
        case PdarrayObj =>
          if EqualsNone(dtype) {
            if a.Strings? {
              StopsAt(AsWritten, arrays, ordered, i);
              return ReadsStringsName;
            }
            dtype := Some(a.dtype);
          } else if !a.PdArray? || dtype.value != a.dtype {
            StopsAt(AsWritten, arrays, ordered, i);
            return Raised(DtypeMismatch);
          }
          names := names + [a.name];
        case StrObj =>
          if !a.Strings? {
            StopsAt(AsWritten, arrays, ordered, i);
            return Raised(MissingOffsets);
          }
          names := names + [a.offsetsName + "+" + a.bytesName];
      }
      AcceptOne(AsWritten, arrays, i);
      size := size + a.size;
    }
    RunsToEnd(AsWritten, arrays, ordered);
    if size == 0 {
      if objtype == Some(PdarrayObj) {
        return ZerosLike(arrays[0]);
      } else {
        return Unchanged(arrays[0]);
      }
    }
    r := Sent(RequestText(|arrays|, objtype.value, mode, names));
  }

  /** When everything before position `i` is accepted, the loop stops at
      element `i` exactly as its check says. */
  lemma FirstErrorAt(rule: DtypeRule, s: seq<Operand>, i: int)
    requires 0 <= i < |s|
    requires AllAccepted(rule, s, i)
    requires Check(rule, s, i).Some?
    ensures FirstError(rule, s, |s|) == Check(rule, s, i)
  {
    var r := FirstError(rule, s, |s|);
    assert !Check(rule, s, i).None?;
    var k :| 0 <= k < |s| && Check(rule, s, k) == r && AllAccepted(rule, s, k);
    assert k == i;
  }

  /** A call whose loop stops at element `i` ends in that element's error. */
  lemma StopsAt(rule: DtypeRule, arrays: seq<Operand>, ordered: bool, i: int)
    requires 2 <= |arrays| && 0 <= i < |arrays|
    requires AllAccepted(rule, arrays, i)
    requires Check(rule, arrays, i).Some?
    ensures ConcatenateSpec(rule, arrays, ordered) ==
            match Check(rule, arrays, i).value
            case Raise(e) => Raised(e)
            case ReadName => ReadsStringsName
  {
    FirstErrorAt(rule, arrays, i);
  }

  /** A call whose loop accepts every element ends in the size test. */
  lemma RunsToEnd(rule: DtypeRule, arrays: seq<Operand>, ordered: bool)
    requires 2 <= |arrays| && AllAccepted(rule, arrays, |arrays|) && NoForeign(arrays, |arrays|)
    ensures ConcatenateSpec(rule, arrays, ordered) ==
            if TotalSize(arrays, |arrays|) == 0 then
              if arrays[0].PdArray? then ZerosLike(arrays[0]) else Unchanged(arrays[0])
            else
              Sent(RequestText(|arrays|, ObjTypeOf(arrays[0]), ModeName(ordered), Names(arrays, |arrays|)))
  {
  }

  /** An accepted element extends the accepted prefix by one. */
  lemma AcceptOne(rule: DtypeRule, s: seq<Operand>, i: int)
    requires 0 <= i < |s| && AllAccepted(rule, s, i) && NoForeign(s, i)
    requires Check(rule, s, i).None?
    ensures AllAccepted(rule, s, i + 1) && NoForeign(s, i + 1)
  {
  }

  /** No arguments is a ValueError; a single argument comes back as it is,
      whatever it is, and nothing is sent. */
  lemma ShortArgumentLists(rule: DtypeRule, a: Operand, ordered: bool)
    ensures ConcatenateSpec(rule, [], ordered) == Raised(EmptyIterable)
    ensures ExceptionClass(ConcatenateSpec(rule, [], ordered).error) == "ValueError"
    ensures ConcatenateSpec(rule, [a], ordered) == Unchanged(a)
  {
  }

  /** With two or more arguments the call stops before any request exactly
      when some element fails its check, at the first one that does; only
      the as-written check lets a Strings object through to `name`. */
  lemma RaisedIffSomeElementRejected(rule: DtypeRule, arrays: seq<Operand>, ordered: bool)
    requires |arrays| >= 2
    ensures var o := ConcatenateSpec(rule, arrays, ordered);
            o.Raised? || o.ReadsStringsName? <==>
            exists i :: 0 <= i < |arrays| && Check(rule, arrays, i).Some?
    ensures var o := ConcatenateSpec(rule, arrays, ordered);
            o.Raised? ==> exists k :: 0 <= k < |arrays| &&
                            Check(rule, arrays, k) == Some(Raise(o.error)) && AllAccepted(rule, arrays, k)
    ensures rule.SameAsFirst? ==> !ConcatenateSpec(rule, arrays, ordered).ReadsStringsName?
  {
    var r := FirstError(rule, arrays, |arrays|);
    if r.Some? {
      var k :| 0 <= k < |arrays| && Check(rule, arrays, k) == r && AllAccepted(rule, arrays, k);
    }
  }

  /** An element that is neither a pdarray nor a Strings object, reached
      with everything before it accepted, raises TypeError; any such element
      anywhere prevents a request. */
  lemma ForeignElementRaisesTypeError(rule: DtypeRule, arrays: seq<Operand>, ordered: bool, k: int)
    requires |arrays| >= 2 && 0 <= k < |arrays| && arrays[k].Foreign?
    ensures var o := ConcatenateSpec(rule, arrays, ordered); o.Raised? || o.ReadsStringsName?
    ensures AllAccepted(rule, arrays, k) ==>
            ConcatenateSpec(rule, arrays, ordered) == Raised(NotPdarrayOrStrings) &&
            ExceptionClass(NotPdarrayOrStrings) == "TypeError"
  {
    assert Check(rule, arrays, k).Some?;
    RaisedIffSomeElementRejected(rule, arrays, ordered);
    if AllAccepted(rule, arrays, k) {
      FirstErrorAt(rule, arrays, k);
    }
  }

  /** As written, among pdarrays a ValueError is raised exactly when some
      pdarray's dtype differs from its predecessor's and that predecessor
      is not float64; a change of dtype after a float64 pdarray goes
      unchecked. */
  lemma AsWrittenDtypeCheck(arrays: seq<Operand>, ordered: bool)
    requires |arrays| >= 2
    requires forall i :: 0 <= i < |arrays| ==> arrays[i].PdArray?
    ensures ConcatenateSpec(AsWritten, arrays, ordered) == Raised(DtypeMismatch) <==>
            exists i :: 0 <= i < |arrays| && DtypeChangeAfter(arrays, i)
    ensures !ConcatenateSpec(AsWritten, arrays, ordered).ReadsStringsName?
    ensures ConcatenateSpec(AsWritten, arrays, ordered).Raised? ==>
            ConcatenateSpec(AsWritten, arrays, ordered).error == DtypeMismatch
  {
    forall i | 0 <= i < |arrays|
      ensures Check(AsWritten, arrays, i) ==
              if DtypeChangeAfter(arrays, i) then Some(Raise(DtypeMismatch)) else None
    {
      PdarrayCheck(arrays, i);
    }
    RaisedIffSomeElementRejected(AsWritten, arrays, ordered);
  }

  /** Element `i` changes dtype after a pdarray that is not float64. */
  predicate DtypeChangeAfter(arrays: seq<Operand>, i: int)
    requires 0 <= i < |arrays|
    requires forall j :: 0 <= j < |arrays| ==> arrays[j].PdArray?
  {
    1 <= i && arrays[i - 1].dtype != Float64 && arrays[i].dtype != arrays[i - 1].dtype
  }

  /** Among pdarrays the as-written check fails exactly on a change of
      dtype after a pdarray that is not float64. */
  lemma PdarrayCheck(arrays: seq<Operand>, i: int)
    requires 0 <= i < |arrays|
    requires forall j :: 0 <= j < |arrays| ==> arrays[j].PdArray?
    ensures Check(AsWritten, arrays, i) ==
            if DtypeChangeAfter(arrays, i) then Some(Raise(DtypeMismatch)) else None
  {
    assert arrays[0].PdArray? && arrays[i].PdArray?;
    if i > 0 {
      assert arrays[i - 1].PdArray?;
    }
  }

  /** Under the documented rule, among pdarrays a dtype that differs from
      the first one's is exactly what raises ValueError, and then no request
      is sent. */
  lemma DtypeMismatchRaisesValueError(arrays: seq<Operand>, ordered: bool)
    requires |arrays| >= 2
    requires forall i :: 0 <= i < |arrays| ==> arrays[i].PdArray?
    ensures ConcatenateSpec(SameAsFirst, arrays, ordered) == Raised(DtypeMismatch) <==>
            exists i :: 0 <= i < |arrays| && arrays[i].dtype != arrays[0].dtype
    ensures ConcatenateSpec(SameAsFirst, arrays, ordered).Raised? ==>
            ConcatenateSpec(SameAsFirst, arrays, ordered).error == DtypeMismatch &&
            ExceptionClass(DtypeMismatch) == "ValueError"
  {
    RaisedIffSomeElementRejected(SameAsFirst, arrays, ordered);
    if exists i :: 0 <= i < |arrays| && arrays[i].dtype != arrays[0].dtype {
      var i :| 0 <= i < |arrays| && arrays[i].dtype != arrays[0].dtype;
      assert Check(SameAsFirst, arrays, i).Some?;
    }
  }

  /** As written, a Strings object that follows a float64 pdarray in a
      pdarray call passes the dtype test, and the loop reads its `name`. */
  lemma StringsAfterFloat64ReadsName(arrays: seq<Operand>, ordered: bool, k: int)
    requires 0 < k < |arrays|
    requires arrays[0].PdArray? && arrays[k - 1].PdArray? && arrays[k - 1].dtype == Float64
    requires arrays[k].Strings?
    requires AllAccepted(AsWritten, arrays, k)
    ensures ConcatenateSpec(AsWritten, arrays, ordered) == ReadsStringsName
  {
    FirstErrorAt(AsWritten, arrays, k);
  }

  /** The accumulated size is zero exactly when every operand is empty. */
  lemma {:induction false} TotalSizeZero(s: seq<Operand>, n: nat)
    requires n <= |s| && NoForeign(s, n)
    ensures TotalSize(s, n) == 0 <==> forall i :: 0 <= i < n ==> s[i].size == 0
  {
    if n > 0 {
      TotalSizeZero(s, n - 1);
    }
  }

  /** Accepted operands that are all empty send no request: pdarrays give
      `zeros_like` of the first, Strings give the first back. */
  lemma EmptyOperandsSendNothing(rule: DtypeRule, arrays: seq<Operand>, ordered: bool)
    requires |arrays| >= 2
    requires AllAccepted(rule, arrays, |arrays|)
    ensures NoForeign(arrays, |arrays|)
    ensures (forall i :: 0 <= i < |arrays| ==> arrays[i].size == 0) <==>
            !ConcatenateSpec(rule, arrays, ordered).Sent?
    ensures (forall i :: 0 <= i < |arrays| ==> arrays[i].size == 0) ==>
            ConcatenateSpec(rule, arrays, ordered) ==
              if arrays[0].PdArray? then ZerosLike(arrays[0]) else Unchanged(arrays[0])
  {
    assert FirstError(rule, arrays, |arrays|).None?;
    TotalSizeZero(arrays, |arrays|);
  }

  predicate SpaceFreeNames(a: Operand) {
    match a
    case PdArray(name, _, _) => ' ' !in name
    case Strings(offsetsName, bytesName, _) => ' ' !in offsetsName && ' ' !in bytesName
    case Foreign => true
  }

  lemma JoinCons(x: string, rest: seq<string>, sep: char)
    requires |rest| > 0
    ensures Join([x] + rest, sep) == x + [sep] + Join(rest, sep)
  {
    assert ([x] + rest)[1..] == rest;
  }

  /** Joining a command word, three fields and the names with spaces gives
      the same text as spelling the separators out. */
  lemma {:induction false} SpacedFieldsAreJoin(k: string, c: string, o: string, m: string, names: seq<string>)
    requires |names| > 0
    ensures Join([k, c, o, m] + names, ' ') == k + " " + c + " " + o + " " + m + " " + Join(names, ' ')
  {
    var t3 := [m] + names;
    var t2 := [o] + t3;
    var t1 := [c] + t2;
    assert [k] + t1 == [k, c, o, m] + names;
    JoinCons(m, names, ' ');
    JoinCons(o, t3, ' ');
    JoinCons(c, t2, ' ');
    JoinCons(k, t1, ' ');
  }

  /** The name tokens of operands with space-free names are space-free. */
  lemma NamesSpaceFree(arrays: seq<Operand>)
    requires NoForeign(arrays, |arrays|)
    requires forall i :: 0 <= i < |arrays| ==> SpaceFreeNames(arrays[i])
    ensures forall p :: p in Names(arrays, |arrays|) ==> ' ' !in p
  {
    var names := Names(arrays, |arrays|);
    forall p | p in names ensures ' ' !in p {
      var i :| 0 <= i < |names| && names[i] == p;
      assert SpaceFreeNames(arrays[i]);
    }
  }

  /** Splitting a request on spaces gives back its fields and names. */
  lemma RequestSplit(count: nat, objtype: ObjType, mode: string, names: seq<string>)
    requires |names| > 0 && ' ' !in mode
    requires forall p :: p in names ==> ' ' !in p
    ensures Split(RequestText(count, objtype, mode, names), ' ') ==
            ["concatenate", NatToString(count), ObjTypeName(objtype), mode] + names
  {
    var c, o := NatToString(count), ObjTypeName(objtype);
    var tokens := ["concatenate", c, o, mode] + names;
    SpacedFieldsAreJoin("concatenate", c, o, mode, names);
    assert forall p :: p in tokens ==> ' ' !in p by {
      assert forall p :: p in tokens ==> p in names || p == "concatenate" || p == c || p == o || p == mode;
    }
    SplitJoin(tokens, ' ');
  }

  /** The request of accepted operands, for any space-free mode word, splits
      on spaces into the command word, the count, the object type, the mode
      and one name per argument. */
  lemma AcceptedRequestSplit(arrays: seq<Operand>, mode: string)
    requires |arrays| >= 2 && NoForeign(arrays, |arrays|) && ' ' !in mode
    requires forall i :: 0 <= i < |arrays| ==> SpaceFreeNames(arrays[i])
    ensures Split(RequestText(|arrays|, ObjTypeOf(arrays[0]), mode, Names(arrays, |arrays|)), ' ') ==
            ["concatenate", NatToString(|arrays|), ObjTypeName(ObjTypeOf(arrays[0])), mode] +
            Names(arrays, |arrays|)
  {
    NamesSpaceFree(arrays);
    RequestSplit(|arrays|, ObjTypeOf(arrays[0]), mode, Names(arrays, |arrays|));
  }

  /** The request reads back, token by token, as the command word, the
      argument count, the object type, the mode and one name per argument;
      the count token parses to the number of name tokens. */
  lemma RequestTokens(rule: DtypeRule, arrays: seq<Operand>, ordered: bool)
    requires ConcatenateSpec(rule, arrays, ordered).Sent?
    requires forall i :: 0 <= i < |arrays| ==> SpaceFreeNames(arrays[i])
    ensures |arrays| >= 2 && AllAccepted(rule, arrays, |arrays|) && NoForeign(arrays, |arrays|)
    ensures var tokens := Split(ConcatenateSpec(rule, arrays, ordered).request, ' ');
            |tokens| == |arrays| + 4 && tokens[0] == "concatenate" &&
            AllDigits(tokens[1]) && ParseNat(tokens[1]) == |arrays| &&
            tokens[2] == ObjTypeName(ObjTypeOf(arrays[0])) &&
            tokens[3] == ModeName(ordered) &&
            tokens[4..] == Names(arrays, |arrays|)
  {
    AcceptedRequestSplit(arrays, ModeName(ordered));
    ParseNatToString(|arrays|);
  }

  /** A Strings name token splits on '+' back into its offsets and bytes
      names. */
  lemma StringsTokenSplits(a: Operand)
    requires a.Strings? && '+' !in a.offsetsName && '+' !in a.bytesName
    ensures Split(NameToken(a), '+') == [a.offsetsName, a.bytesName]
  {
    JoinCons(a.offsetsName, [a.bytesName], '+');
    SplitJoin([a.offsetsName, a.bytesName], '+');
  }

  /** Two pdarrays, as the set-operation fallbacks pass them: a ValueError
      when their dtypes differ (as written, only when the first is not
      float64), otherwise `zeros_like` of the first when both are empty and
      a request naming both when not. */
  lemma PairConcatenation(rule: DtypeRule, x: Operand, y: Operand, ordered: bool)
    requires x.PdArray? && y.PdArray?
    ensures ConcatenateSpec(rule, [x, y], ordered) ==
            if x.dtype != y.dtype && (rule.SameAsFirst? || x.dtype != Float64) then Raised(DtypeMismatch)
            else if x.size + y.size == 0 then ZerosLike(x)
            else Sent(RequestText(2, PdarrayObj, ModeName(ordered), [x.name, y.name]))
  {
    var s := [x, y];
    if x.dtype != y.dtype && (rule.SameAsFirst? || x.dtype != Float64) {
      assert AllAccepted(rule, s, 1);
      assert Check(rule, s, 1) == Some(Raise(DtypeMismatch));
      FirstErrorAt(rule, s, 1);
    } else {
      assert Check(rule, s, 0).None? && Check(rule, s, 1).None?;
      assert AllAccepted(rule, s, 2);
      assert TotalSize(s, 1) == x.size;
      assert TotalSize(s, 2) == x.size + y.size;
      assert Names(s, 2) == [x.name, y.name];
    }
  }

  /** The request for two pdarrays, written out. */
  lemma PairRequestText(a: string, b: string)
    ensures RequestText(2, PdarrayObj, ModeName(true), [a, b]) == "concatenate 2 pdarray append " + a + " " + b
  {
    JoinCons(a, [b], ' ');
    assert NatToString(2) == "2";
  }

  /** A float64 pdarray followed by an int64 one: as written the pair is
      sent to the server, or turned into `zeros_like` of the first when both
      are empty; the documented rule raises ValueError. */
  lemma Float64FirstSkipsDtypeCheck()
    ensures ConcatenateSpec(AsWritten, [PdArray("A", Float64, 1), PdArray("B", Int64, 1)], true) ==
            Sent("concatenate 2 pdarray append A B")
    ensures ConcatenateSpec(AsWritten, [PdArray("A", Float64, 0), PdArray("B", Int64, 0)], true) ==
            ZerosLike(PdArray("A", Float64, 0))
    ensures ConcatenateSpec(SameAsFirst, [PdArray("A", Float64, 1), PdArray("B", Int64, 1)], true) ==
            Raised(DtypeMismatch)
  {
    PairConcatenation(AsWritten, PdArray("A", Float64, 1), PdArray("B", Int64, 1), true);
    PairRequestText("A", "B");
    PairConcatenation(AsWritten, PdArray("A", Float64, 0), PdArray("B", Int64, 0), true);
    PairConcatenation(SameAsFirst, PdArray("A", Float64, 1), PdArray("B", Int64, 1), true);
  }
}
