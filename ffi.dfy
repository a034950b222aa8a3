/**
 * The translation of descriptor types into libffi's type descriptions
 * (`FuncDescHelper` in src/interface.rs) and `FuncHandle::new`, which parses
 * a descriptor, translates it and asks libffi to prepare a call interface.
 * libffi itself is not modelled: a type description is a value of
 * `FfiType`, and the preparation status is a parameter.
 */
module Ffi {
  import opened Wrappers
  import opened Errors
  import opened Types
  import opened Descriptor

  /**
   * libffi's built-in type descriptions, and a `FFI_TYPE_STRUCT`
   * description whose element list ends in a null entry (`None`).
   */
  datatype FfiType =
    | FfiVoid
    | FfiSint8 | FfiSint16 | FfiSint32 | FfiSint64
    | FfiUint8 | FfiUint16 | FfiUint32 | FfiUint64
    | FfiFloat | FfiDouble | FfiLongDouble
    | FfiPointer
    | FfiStruct(elements: seq<Option<FfiType>>)

  /** The byte width libffi gives a built-in description (x86-64 System V; long double is 16 bytes). */
  function FfiWidth(f: FfiType): nat {
    match f
    case FfiVoid | FfiStruct(_) => 0
    case FfiSint8 | FfiUint8 => 1
    case FfiSint16 | FfiUint16 => 2
    case FfiSint32 | FfiUint32 | FfiFloat => 4
    case FfiSint64 | FfiUint64 | FfiDouble | FfiPointer => 8
    case FfiLongDouble => 16
  }

  /** The text of the error for Auto, which has no native type. */
  const AutoNotSupported := "Type 'auto' not supported for call"

  /**
   * The scalar arms of `type_into_ffi_type` as written: `Int` and `ISize`
   * test `size_of::<_>() == 32`, which compares a byte count with 32 and is
   * never true, so both take the 64-bit branch (and `USize` the unsigned one).
   */
  function ScalarFfiAsWritten(t: FuncType): (r: FfiType)
    requires !t.Auto? && !t.Struct?
    ensures t.Int? ==> r == FfiSint64
    ensures !t.Int? ==> r == ScalarFfi(t)
  {
    match t
    case Void => FfiVoid
    case Int => FfiSint64
    case Float => FfiFloat
    case Double => FfiDouble
    case LongDouble => FfiLongDouble
    case ISize => FfiSint64
    case USize => FfiUint64
    case S8 => FfiSint8
    case S16 => FfiSint16
    case S32 => FfiSint32
    case S64 => FfiSint64
    case U8 => FfiUint8
    case U16 => FfiUint16
    case U32 => FfiUint32
    case U64 => FfiUint64
    case F32 => FfiFloat
    case F64 => FfiDouble
    case F128 => FfiLongDouble
    case Pointer | RefStringPtr | BorrowStringPtr | RefArrayPtr | BorrowArrayPtr => FfiPointer
  }

  /**
   * The scalar arms as evidently intended: the width test compares with 4
   * bytes, so the 32-bit `c_int` is described as `sint32`. On a 64-bit
   * target `isize`/`usize` are 8 bytes, so they keep the 64-bit types.
   */
  function ScalarFfi(t: FuncType): FfiType
    requires !t.Auto? && !t.Struct?
  {
    match t
    case Void => FfiVoid
    case Int => FfiSint32
    case Float => FfiFloat
    case Double => FfiDouble
    case LongDouble => FfiLongDouble
    case ISize => FfiSint64
    case USize => FfiUint64
    case S8 => FfiSint8
    case S16 => FfiSint16
    case S32 => FfiSint32
    case S64 => FfiSint64
    case U8 => FfiUint8
    case U16 => FfiUint16
    case U32 => FfiUint32
    case U64 => FfiUint64
    case F32 => FfiFloat
    case F64 => FfiDouble
    case F128 => FfiLongDouble
    case Pointer | RefStringPtr | BorrowStringPtr | RefArrayPtr | BorrowArrayPtr => FfiPointer
  }

  /** As written, `Int` is described to libffi with a width different from its own `size()`. */
  lemma IntWidthMismatchAsWritten()
    ensures FfiWidth(ScalarFfiAsWritten(Int)) == 8
    ensures Size(Int) == 4
  {
  }

  /** As intended, every scalar is described with exactly the width the adapter moves for it. */
  lemma ScalarWidthMatches(t: FuncType)
    requires !t.Auto? && !t.Struct?
    ensures FfiWidth(ScalarFfi(t)) == NativeWidth(t)
    ensures !IsPointerWord(t) ==> FfiWidth(ScalarFfi(t)) == Size(t)
  {
  }

  /** Whether Auto occurs anywhere in `t`, aggregates included. */
  predicate ContainsAuto(t: FuncType)
    decreases t, 1
  {
    match t
    case Auto => true
    case Struct(st) => AnyFieldAuto(st, 0)
    case _ => false
  }

  /** Whether Auto occurs in member `i` of `st` or a later one. */
  predicate AnyFieldAuto(st: StructType, i: nat)
    decreases st, |st.fields| - i
  {
    i < |st.fields| && (ContainsAuto(st.fields[i].ty) || AnyFieldAuto(st, i + 1))
  }

  /** `type_into_ffi_type`: Auto is refused; an aggregate maps member by member, then a null terminator. */
  function IntoFfiType(t: FuncType): Result<FfiType>
    decreases t, 1
  {
    match t
    case Auto => InvalidDesc(AutoNotSupported)
    case Struct(st) =>
      var elements :- FieldsIntoFfi(st, 0);
      Ok(FfiStruct(elements + [None]))
    case _ => Ok(ScalarFfi(t))
  }

  /** The descriptions of members `i..` of `st`, stopping at the first failure. */
  function FieldsIntoFfi(st: StructType, i: nat): Result<seq<Option<FfiType>>>
    decreases st, |st.fields| - i
  {
    if i >= |st.fields| then Ok([])
    else
      var head :- IntoFfiType(st.fields[i].ty);
      var tail :- FieldsIntoFfi(st, i + 1);
      Ok([Some(head)] + tail)
  }

  /** Translation fails exactly when Auto occurs somewhere in the type, and always with the same error. */
  lemma {:induction false} IntoFfiTypeFails(t: FuncType)
    ensures IntoFfiType(t).Err? <==> ContainsAuto(t)
    ensures IntoFfiType(t).Err? ==> IntoFfiType(t).error == InvalidDescriptor(Some(AutoNotSupported))
    decreases t, 1
  {
    match t
    case Struct(st) => FieldsIntoFfiFails(st, 0);
    case _ =>
  }

  lemma {:induction false} FieldsIntoFfiFails(st: StructType, i: nat)
    ensures FieldsIntoFfi(st, i).Err? <==> AnyFieldAuto(st, i)
    ensures FieldsIntoFfi(st, i).Err? ==> FieldsIntoFfi(st, i).error == InvalidDescriptor(Some(AutoNotSupported))
    decreases st, |st.fields| - i
  {
    if i < |st.fields| {
      IntoFfiTypeFails(st.fields[i].ty);
      FieldsIntoFfiFails(st, i + 1);
    }
  }

  /** A translated member list has one entry per member, each the member's own translation. */
  lemma {:induction false} FieldsIntoFfiShape(st: StructType, i: nat)
    requires i <= |st.fields| && FieldsIntoFfi(st, i).Ok?
    ensures |FieldsIntoFfi(st, i).value| == |st.fields| - i
    ensures forall k :: i <= k < |st.fields| ==>
      IntoFfiType(st.fields[k].ty).Ok? && FieldsIntoFfi(st, i).value[k - i] == Some(IntoFfiType(st.fields[k].ty).value)
    decreases |st.fields| - i
  {
    if i < |st.fields| {
      var head := IntoFfiType(st.fields[i].ty);
      var tail := FieldsIntoFfi(st, i + 1);
      var all := FieldsIntoFfi(st, i).value;
      assert head.Ok? && tail.Ok? && all == [Some(head.value)] + tail.value;
      FieldsIntoFfiShape(st, i + 1);
      forall k | i <= k < |st.fields|
        ensures IntoFfiType(st.fields[k].ty).Ok? && all[k - i] == Some(IntoFfiType(st.fields[k].ty).value)
      {
        if k > i {
          assert all[k - i] == tail.value[k - (i + 1)];
        }
      }
    }
  }

  /** An aggregate becomes a struct description of `fields + 1` entries, the last one null. */
  lemma StructIntoFfi(st: StructType)
    requires IntoFfiType(Struct(st)).Ok?
    ensures var f := IntoFfiType(Struct(st)).value;
      f.FfiStruct? && |f.elements| == |st.fields| + 1 && f.elements[|st.fields|] == None
      && forall k :: 0 <= k < |st.fields| ==> f.elements[k].Some? && IntoFfiType(st.fields[k].ty) == Ok(f.elements[k].value)
  {
    var elements := FieldsIntoFfi(st, 0).value;
    assert IntoFfiType(Struct(st)) == Ok(FfiStruct(elements + [None]));
    FieldsIntoFfiShape(st, 0);
    var f := FfiStruct(elements + [None]);
    forall k | 0 <= k < |st.fields|
      ensures f.elements[k].Some? && IntoFfiType(st.fields[k].ty) == Ok(f.elements[k].value)
    {
      assert f.elements[k] == elements[k];
      assert IntoFfiType(st.fields[k].ty).Ok?;
      assert elements[k] == Some(IntoFfiType(st.fields[k].ty).value);
    }
  }

  /** `prefix` put in front of a successful list; a failure passes through. */
  function Prefixed<T>(prefix: seq<T>, r: Result<seq<T>>): Result<seq<T>> {
    if r.Ok? then Ok(prefix + r.value) else r
  }

  /** Moving one element from the list into the prefix. */
  lemma PrefixedAppend<T>(prefix: seq<T>, x: T, r: Result<seq<T>>)
    ensures Prefixed(prefix, Prefixed([x], r)) == Prefixed(prefix + [x], r)
  {
    if r.Ok? {
      assert prefix + ([x] + r.value) == (prefix + [x]) + r.value;
    }
  }

  /**
   * `type_into_ffi_type` with its loop over an aggregate's members, pushing
   * each translation and returning the first error.
   */
  method TypeIntoFfiType(t: FuncType) returns (r: Result<FfiType>)
    ensures r == IntoFfiType(t)
    decreases t
  {
    match t {
      case Auto =>
        return InvalidDesc(AutoNotSupported);
      case Struct(st) =>
        var elements: seq<Option<FfiType>> := [];
        if FieldsIntoFfi(st, 0).Ok? {
          assert [] + FieldsIntoFfi(st, 0).value == FieldsIntoFfi(st, 0).value;
        }
        for i := 0 to |st.fields|
          invariant FieldsIntoFfi(st, 0) == Prefixed(elements, FieldsIntoFfi(st, i))
        {
          var head := TypeIntoFfiType(st.fields[i].ty);
          if head.Err? {
            return Err(head.error);
          }
          assert FieldsIntoFfi(st, i) == Prefixed([Some(head.value)], FieldsIntoFfi(st, i + 1));
          assert forall tail :: elements + ([Some(head.value)] + tail) == (elements + [Some(head.value)]) + tail;
          elements := elements + [Some(head.value)];
        }
        assert FieldsIntoFfi(st, 0) == Ok(elements + []);
        assert elements + [] == elements;
        return Ok(FfiStruct(elements + [None]));
      case _ =>
        return Ok(ScalarFfi(t));
    }
  }

  /** The translated return type and argument types a call interface is prepared from. */
  datatype Helper = Helper(returnType: FfiType, argumentTypes: seq<FfiType>)

  /** The translations of `args` in order, stopping at the first failure. */
  function ArgsIntoFfi(args: seq<FuncType>): Result<seq<FfiType>> {
    if |args| == 0 then Ok([])
    else
      var head :- IntoFfiType(args[0]);
      var tail :- ArgsIntoFfi(args[1..]);
      Ok([head] + tail)
  }

  /** `FuncDescHelper::new`: the return type is translated first, then the arguments. */
  function HelperOf(ret: FuncType, args: seq<FuncType>): Result<Helper> {
    var returnType :- IntoFfiType(ret);
    var argumentTypes :- ArgsIntoFfi(args);
    Ok(Helper(returnType, argumentTypes))
  }

  /** Argument translation fails exactly when some argument contains Auto; otherwise it is elementwise. */
  lemma {:induction false} ArgsIntoFfiSpec(args: seq<FuncType>)
    ensures ArgsIntoFfi(args).Err? <==> exists i :: 0 <= i < |args| && ContainsAuto(args[i])
    ensures ArgsIntoFfi(args).Err? ==> ArgsIntoFfi(args).error == InvalidDescriptor(Some(AutoNotSupported))
    ensures ArgsIntoFfi(args).Ok? ==>
      && |ArgsIntoFfi(args).value| == |args|
      && forall i :: 0 <= i < |args| ==> IntoFfiType(args[i]) == Ok(ArgsIntoFfi(args).value[i])
  {
    if |args| > 0 {
      IntoFfiTypeFails(args[0]);
      ArgsIntoFfiSpec(args[1..]);
      if ArgsIntoFfi(args).Err? && !ContainsAuto(args[0]) {
        var i :| 0 <= i < |args[1..]| && ContainsAuto(args[1..][i]);
        assert ContainsAuto(args[i + 1]);
      }
      if exists i :: 0 <= i < |args| && ContainsAuto(args[i]) {
        var i :| 0 <= i < |args| && ContainsAuto(args[i]);
        if i > 0 {
          assert ContainsAuto(args[1..][i - 1]);
        }
      }
      if ArgsIntoFfi(args).Ok? {
        forall i | 0 <= i < |args|
          ensures IntoFfiType(args[i]) == Ok(ArgsIntoFfi(args).value[i])
        {
          if i > 0 {
            assert args[1..][i - 1] == args[i];
          }
        }
      }
    }
  }

  /** The helper is built exactly when no type of the signature contains Auto. */
  lemma HelperOfSpec(ret: FuncType, args: seq<FuncType>)
    ensures HelperOf(ret, args).Ok? <==> !ContainsAuto(ret) && forall i :: 0 <= i < |args| ==> !ContainsAuto(args[i])
    ensures HelperOf(ret, args).Err? ==> HelperOf(ret, args).error == InvalidDescriptor(Some(AutoNotSupported))
    ensures HelperOf(ret, args).Ok? ==> var h := HelperOf(ret, args).value;
      IntoFfiType(ret) == Ok(h.returnType) && |h.argumentTypes| == |args|
      && forall i :: 0 <= i < |args| ==> IntoFfiType(args[i]) == Ok(h.argumentTypes[i])
  {
    IntoFfiTypeFails(ret);
    ArgsIntoFfiSpec(args);
  }

  /** `FuncDescHelper::new` with its loop over the argument types. */
  method NewHelper(ret: FuncType, args: seq<FuncType>) returns (r: Result<Helper>)
    ensures r == HelperOf(ret, args)
  {
    var returnType := TypeIntoFfiType(ret);
    if returnType.Err? {
      return Err(returnType.error);
    }
    var argumentTypes: seq<FfiType> := [];
    assert args[0..] == args;
    if ArgsIntoFfi(args).Ok? {
      assert [] + ArgsIntoFfi(args).value == ArgsIntoFfi(args).value;
    }
    for i := 0 to |args|
      invariant ArgsIntoFfi(args) == Prefixed(argumentTypes, ArgsIntoFfi(args[i..]))
    {
      var a := TypeIntoFfiType(args[i]);
      if a.Err? {
        return Err(a.error);
      }
      assert args[i..][1..] == args[i + 1..];
      assert ArgsIntoFfi(args[i..]) == Prefixed([a.value], ArgsIntoFfi(args[i + 1..]));
      assert forall tail :: argumentTypes + ([a.value] + tail) == (argumentTypes + [a.value]) + tail;
      argumentTypes := argumentTypes + [a.value];
    }
    assert ArgsIntoFfi(args) == Ok(argumentTypes + []);
    assert argumentTypes + [] == argumentTypes;
    return Ok(Helper(returnType.value, argumentTypes));
  }

  /** The statuses `ffi_prep_cif` reports. */
  datatype PrepStatus = PrepOk | PrepBadTypedef | PrepBadAbi | PrepBadArgType

  /** A prepared function: its descriptor and the address of its symbol. */
  datatype FuncHandle = FuncHandle(desc: FuncDesc, symbol: nat)

  /** The part of `FuncHandle::new` after parsing: translate `desc`, then map libffi's status. */
  function Prepare(symbol: nat, desc: FuncDesc, prep: Helper -> PrepStatus): (r: Result<FuncHandle>)
    ensures HelperOf(desc.returnType, desc.argumentTypes).Err? ==> r == Err(HelperOf(desc.returnType, desc.argumentTypes).error)
    ensures HelperOf(desc.returnType, desc.argumentTypes).Ok? ==>
      var status := prep(HelperOf(desc.returnType, desc.argumentTypes).value);
      && (status == PrepOk ==> r == Ok(FuncHandle(desc, symbol)))
      && (status == PrepBadTypedef ==> r == Err(FFIBadTypeDef))
      && (status == PrepBadAbi ==> r == Err(FFIBadABI))
      && (status == PrepBadArgType ==> r == Err(FFIBadArgType))
  {
    var helper :- HelperOf(desc.returnType, desc.argumentTypes);
    match prep(helper)
    case PrepOk => Ok(FuncHandle(desc, symbol))
    case PrepBadTypedef => Err(FFIBadTypeDef)
    case PrepBadAbi => Err(FFIBadABI)
    case PrepBadArgType => Err(FFIBadArgType)
  }

  /** `FuncHandle::new`: the descriptor is parsed first, so a parse error wins over everything else. */
  function FuncHandleNew(symbol: nat, text: string, prep: Helper -> PrepStatus): (r: Result<FuncHandle>)
    ensures ParseFuncDesc(text).Err? ==> r == Err(ParseFuncDesc(text).error)
    ensures ParseFuncDesc(text).Ok? ==> r == Prepare(symbol, ParseFuncDesc(text).value, prep)
  {
    var desc :- ParseFuncDesc(text);
    Prepare(symbol, desc, prep)
  }

  /** No type of the signature contains Auto. */
  predicate NoAuto(d: FuncDesc) {
    !ContainsAuto(d.returnType) && forall i :: 0 <= i < |d.argumentTypes| ==> !ContainsAuto(d.argumentTypes[i])
  }

  /** A handle is prepared exactly when the signature has no Auto in it and libffi accepts it. */
  lemma PrepareOk(symbol: nat, d: FuncDesc, prep: Helper -> PrepStatus)
    ensures NoAuto(d) <==> HelperOf(d.returnType, d.argumentTypes).Ok?
    ensures Prepare(symbol, d, prep).Ok? <==> NoAuto(d) && prep(HelperOf(d.returnType, d.argumentTypes).value) == PrepOk
    ensures Prepare(symbol, d, prep).Ok? ==> Prepare(symbol, d, prep).value == FuncHandle(d, symbol)
    ensures Prepare(symbol, d, prep).Err? && !NoAuto(d) ==>
      Prepare(symbol, d, prep).error == InvalidDescriptor(Some(AutoNotSupported))
  {
    HelperOfSpec(d.returnType, d.argumentTypes);
  }

  /** The three failing statuses give three different errors, none of them a descriptor error. */
  lemma PrepErrorsDistinct(symbol: nat, d: FuncDesc, p1: Helper -> PrepStatus, p2: Helper -> PrepStatus)
    requires HelperOf(d.returnType, d.argumentTypes).Ok?
    requires var h := HelperOf(d.returnType, d.argumentTypes).value;
      p1(h) != PrepOk && p2(h) != PrepOk && p1(h) != p2(h)
    ensures Prepare(symbol, d, p1).Err? && Prepare(symbol, d, p2).Err?
    ensures Prepare(symbol, d, p1).error != Prepare(symbol, d, p2).error
    ensures !Prepare(symbol, d, p1).error.InvalidDescriptor?
  {
  }
}
