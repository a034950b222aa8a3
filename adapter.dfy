/**
 * `Adapter` (src/adapter.rs): a target signature through which values are
 * passed to a prepared function, or stored into and loaded from an
 * aggregate's members, each value going through the coercion matrix of
 * module `Coerce`.
 */
module Adapters {
  import opened StrUtil
  import opened Bytes
  import opened CText
  import opened Errors
  import opened Internal
  import opened Types
  import opened Descriptor
  import opened DescriptorProps
  import opened Structure
  import opened Ffi
  import opened Coerce

  datatype Adapter = Adapter(target: FuncDesc)

  /** An adapter whose target is the function descriptor `text`. */
  function AdapterOf(text: string): (r: Result<Adapter>)
    ensures r.Ok? <==> ParseFuncDesc(text).Ok?
    ensures r.Ok? ==> r.value.target == ParseFuncDesc(text).value
    ensures r.Err? ==> r.error == ParseFuncDesc(text).error
  {
    var d :- ParseFuncDesc(text);
    Ok(Adapter(d))
  }

  /**
   * `Adapter::from_str`: after leading whitespace, `[T1,...,Tn]` is read as
   * `(T1,...,Tn)void` and must end in `]`; any other text is a function
   * descriptor.
   */
  function AdapterFromStr(s: string): (r: Result<Adapter>)
    ensures var t := TrimStart(s);
      StartsWith(t, '[') && !EndsWith(t, ']') ==> r == InvalidDesc("Invalid descriptor end")
  {
    var t := TrimStart(s);
    if StartsWith(t, '[') then
      if EndsWith(t, ']') then AdapterOf("(" + t[1..|t| - 1] + ")void")
      else InvalidDesc("Invalid descriptor end")
    else AdapterOf(t)
  }

  /** Trimming the front twice is trimming it once. */
  lemma TrimStartIdempotent(s: string)
    ensures TrimStart(TrimStart(s)) == TrimStart(s)
  {
  }

  /** Text that does not start with `[` is read exactly as a function descriptor. */
  lemma AdapterFromFuncDesc(s: string)
    requires !StartsWith(TrimStart(s), '[')
    ensures AdapterFromStr(s).Ok? <==> ParseFuncDesc(s).Ok?
    ensures AdapterFromStr(s).Ok? ==> AdapterFromStr(s).value == Adapter(ParseFuncDesc(s).value)
    ensures AdapterFromStr(s).Err? ==> AdapterFromStr(s).error == ParseFuncDesc(s).error
  {
    assert AdapterFromStr(s) == AdapterOf(TrimStart(s));
    assert ParseFuncDesc(TrimStart(s)) == ParseFuncDesc(s) by {
      ParseAfterTrimStart(s);
    }
  }

  /** The function-descriptor parser trims anyway, so trimming the front first changes nothing. */
  lemma ParseAfterTrimStart(s: string)
    ensures ParseFuncDesc(TrimStart(s)) == ParseFuncDesc(s)
  {
    TrimStartIdempotent(s);
    assert Trim(TrimStart(s)) == Trim(s);
  }

  /** ASCII text in brackets is unwrapped into the argument list of a void function descriptor. */
  lemma AdapterFromBracket(inner: string)
    requires IsAscii(inner)
    ensures AdapterFromStr("[" + inner + "]") == AdapterOf("(" + inner + ")void")
  {
    BracketText(inner);
    BracketBranch("[" + inner + "]");
  }

  /** The bracketed text is not trimmed, is ASCII, and its inside is `inner`. */
  lemma BracketText(inner: string)
    requires IsAscii(inner)
    ensures var s := "[" + inner + "]";
      && |s| > 0 && TrimStart(s) == s && StartsWith(s, '[') && IsAscii(s) && s[|s| - 1] == ']'
      && s[1..|s| - 1] == inner
  {
    var s := "[" + inner + "]";
    assert !IsWhitespace(s[0]);
    forall i | 0 <= i < |s| ensures s[i] as int < 0x80 {
      if 0 < i < |s| - 1 {
        assert s[i] == inner[i - 1];
      }
    }
    assert s[1..|s| - 1] == inner;
  }

  /** Untrimmable text in brackets takes the unwrapping branch. */
  lemma BracketBranch(s: string)
    requires |s| > 0 && TrimStart(s) == s && StartsWith(s, '[') && IsAscii(s) && s[|s| - 1] == ']'
    ensures AdapterFromStr(s) == AdapterOf("(" + s[1..|s| - 1] + ")void")
  {
    assert EndsWith(s, ']');
  }

  /** `[T1,...,Tn]` gives the adapter with arguments T1..Tn and return type void. */
  lemma AdapterFromList(ts: seq<FuncType>)
    requires ListPrintable(ts) && IsAscii(Join(ts))
    ensures AdapterFromStr("[" + Join(ts) + "]") == Ok(Adapter(FuncDesc(ts, Void)))
  {
    var d := FuncDesc(ts, Void);
    AdapterFromBracket(Join(ts));
    VoidDescText(ts);
    FuncDescRoundTrip(d);
    assert AdapterOf(EmitDesc(d)) == Ok(Adapter(d));
  }

  lemma VoidDescText(ts: seq<FuncType>)
    ensures "(" + Join(ts) + ")void" == EmitDesc(FuncDesc(ts, Void))
  {
    assert Emit(Void) == "void";
  }

  /** `_call_check_arguments`: the callee's argument count is compared first, then the supplied count. */
  function CheckCall(target: FuncDesc, callee: FuncDesc, argc: nat): (r: Result<()>)
    ensures r.Ok? <==> |callee.argumentTypes| == |target.argumentTypes| == argc
    ensures |callee.argumentTypes| != |target.argumentTypes| ==>
      r == InvalidArgs("Function invalid arguments count (" + Decimal(|callee.argumentTypes|) + " / " + Decimal(|target.argumentTypes|) + ")")
    ensures |callee.argumentTypes| == |target.argumentTypes| != argc ==>
      r == InvalidArgs("Accepted invalid arguments count (" + Decimal(argc) + " / " + Decimal(|target.argumentTypes|) + ")")
  {
    var targetArgc := |target.argumentTypes|;
    var funcArgc := |callee.argumentTypes|;
    if targetArgc != funcArgc then
      InvalidArgs("Function invalid arguments count (" + Decimal(funcArgc) + " / " + Decimal(targetArgc) + ")")
    else if targetArgc != argc then
      InvalidArgs("Accepted invalid arguments count (" + Decimal(argc) + " / " + Decimal(targetArgc) + ")")
    else Ok(())
  }

  /** `_access_check_arguments`: the index is checked against the target first, then the member count. */
  function CheckAccess(target: FuncDesc, st: StructType, index: nat): (r: Result<()>)
    ensures r.Ok? <==> index < |target.argumentTypes| == |st.fields|
    ensures index >= |target.argumentTypes| ==>
      r == InvalidArgs("Invalid index (" + Decimal(index) + " / " + Decimal(|target.argumentTypes|) + ")")
    ensures index < |target.argumentTypes| != |st.fields| ==>
      r == InvalidArgs("Structure invalid fields count (" + Decimal(|st.fields|) + " / " + Decimal(|target.argumentTypes|) + ")")
  {
    var targetCount := |target.argumentTypes|;
    if targetCount <= index then
      InvalidArgs("Invalid index (" + Decimal(index) + " / " + Decimal(targetCount) + ")")
    else if targetCount != |st.fields| then
      InvalidArgs("Structure invalid fields count (" + Decimal(|st.fields|) + " / " + Decimal(targetCount) + ")")
    else Ok(())
  }

  /** What `_set` needs of its buffers once the access check has passed. */
  predicate SetFits(a: Adapter, st: StructType, index: nat, avalueLen: nat, memLen: nat) {
    CheckAccess(a.target, st, index).Ok? ==>
      var from := a.target.argumentTypes[index];
      var f := st.fields[index];
      CastDefined(from, f.ty) && avalueLen >= ReadWidth(from, f.ty) && f.offset + WriteWidth(from, f.ty) <= memLen
  }

  /** The aggregate memory after `_set`: target argument `index`'s value cast into member `index`. */
  function SetSpec(a: Adapter, st: StructType, mem: seq<byte>, index: nat, avalue: seq<byte>, n: Natives): (r: Result<seq<byte>>)
    requires SetFits(a, st, index, |avalue|, |mem|)
    ensures r.Ok? ==> |r.value| == |mem|
    ensures CheckAccess(a.target, st, index).Err? ==> r == Err(CheckAccess(a.target, st, index).error)
  {
    var _ :- CheckAccess(a.target, st, index);
    var f := st.fields[index];
    var bytes :- Cast(a.target.argumentTypes[index], f.ty, avalue, n);
    Ok(Overwrite(mem, f.offset, bytes))
  }

  /** What `_get` needs of its buffers once the access check has passed. */
  predicate GetFits(a: Adapter, st: StructType, index: nat, memLen: nat, rvalueLen: nat) {
    CheckAccess(a.target, st, index).Ok? ==>
      var into := a.target.argumentTypes[index];
      var f := st.fields[index];
      CastDefined(f.ty, into) && f.offset + ReadWidth(f.ty, into) <= memLen && WriteWidth(f.ty, into) <= rvalueLen
  }

  /** The destination after `_get`: member `index` cast into target argument `index`'s type. */
  function GetSpec(a: Adapter, st: StructType, mem: seq<byte>, index: nat, rvalue: seq<byte>, n: Natives): (r: Result<seq<byte>>)
    requires GetFits(a, st, index, |mem|, |rvalue|)
    ensures r.Ok? ==> |r.value| == |rvalue|
    ensures CheckAccess(a.target, st, index).Err? ==> r == Err(CheckAccess(a.target, st, index).error)
  {
    var _ :- CheckAccess(a.target, st, index);
    var f := st.fields[index];
    var bytes :- Cast(f.ty, a.target.argumentTypes[index], mem[f.offset..], n);
    Ok(Overwrite(rvalue, 0, bytes))
  }

  /** `Adapter::_set`: stores a value into one member of an aggregate, or changes nothing on error. */
  method Set(a: Adapter, st: StructType, structure: array<byte>, index: nat, avalue: seq<byte>, n: Natives) returns (r: Result<()>)
    requires SetFits(a, st, index, |avalue|, structure.Length)
    modifies structure
    ensures r.Ok? <==> SetSpec(a, st, old(structure[..]), index, avalue, n).Ok?
    ensures r.Ok? ==> structure[..] == SetSpec(a, st, old(structure[..]), index, avalue, n).value
    ensures r.Err? ==> structure[..] == old(structure[..]) && r.error == SetSpec(a, st, old(structure[..]), index, avalue, n).error
  {
    var check := CheckAccess(a.target, st, index);
    if check.Err? {
      return Err(check.error);
    }
    var f := st.fields[index];
    r := CallCastType(a.target.argumentTypes[index], f.ty, avalue, structure, f.offset, n);
  }

  /** `Adapter::_get`: loads one member of an aggregate into `rvalue`, or changes nothing on error. */
  method Get(a: Adapter, st: StructType, structure: seq<byte>, index: nat, rvalue: array<byte>, n: Natives) returns (r: Result<()>)
    requires GetFits(a, st, index, |structure|, rvalue.Length)
    modifies rvalue
    ensures r.Ok? <==> GetSpec(a, st, structure, index, old(rvalue[..]), n).Ok?
    ensures r.Ok? ==> rvalue[..] == GetSpec(a, st, structure, index, old(rvalue[..]), n).value
    ensures r.Err? ==> rvalue[..] == old(rvalue[..]) && r.error == GetSpec(a, st, structure, index, old(rvalue[..]), n).error
  {
    var check := CheckAccess(a.target, st, index);
    if check.Err? {
      return Err(check.error);
    }
    var f := st.fields[index];
    r := CallCastType(f.ty, a.target.argumentTypes[index], structure[f.offset..], rvalue, 0, n);
  }

  /**
   * Storing through an adapter whose argument type is the member's own
   * integer or word-sized type, then loading the member back, returns the
   * bytes stored.
   */
  lemma SetThenGet(a: Adapter, st: StructType, mem: seq<byte>, index: nat, avalue: seq<byte>, rvalue: seq<byte>, n: Natives)
    requires CheckAccess(a.target, st, index).Ok?
    requires var t := st.fields[index].ty;
      a.target.argumentTypes[index] == t && (IsSigned(t) || IsUnsigned(t) || IsPointerWord(t))
    requires var f := st.fields[index];
      |avalue| >= NativeWidth(f.ty) && f.offset + NativeWidth(f.ty) <= |mem| && NativeWidth(f.ty) <= |rvalue|
    ensures SetSpec(a, st, mem, index, avalue, n).Ok?
    ensures var stored := SetSpec(a, st, mem, index, avalue, n).value;
      GetSpec(a, st, stored, index, rvalue, n).Ok?
      && GetSpec(a, st, stored, index, rvalue, n).value[..NativeWidth(st.fields[index].ty)] == avalue[..NativeWidth(st.fields[index].ty)]
  {
    var f := st.fields[index];
    var w := NativeWidth(f.ty);
    SameTypeIdentity(f.ty, avalue, n);
    var stored := Overwrite(mem, f.offset, avalue[..w]);
    assert SetSpec(a, st, mem, index, avalue, n) == Ok(stored);
    assert stored[f.offset..][..w] == avalue[..w];
    SameTypeIdentity(f.ty, stored[f.offset..], n);
  }

  /** The counts match and every argument buffer is wide enough for its cast. */
  predicate ArgsFit(a: Adapter, callee: FuncDesc, args: seq<seq<byte>>) {
    && |callee.argumentTypes| == |a.target.argumentTypes| == |args|
    && forall i :: 0 <= i < |args| ==>
      !callee.argumentTypes[i].Struct? && |args[i]| >= ReadWidth(a.target.argumentTypes[i], callee.argumentTypes[i])
  }

  /** Argument `k` cast from the adapter's type into the callee's. */
  function ArgCast(a: Adapter, callee: FuncDesc, args: seq<seq<byte>>, k: nat, n: Natives): Result<seq<byte>>
    requires ArgsFit(a, callee, args) && NoAuto(callee) && k < |args|
  {
    Cast(a.target.argumentTypes[k], callee.argumentTypes[k], args[k], n)
  }

  /** Every argument's cast, by index (indices past the end are not used). */
  function ArgCasts(a: Adapter, callee: FuncDesc, args: seq<seq<byte>>, n: Natives): (f: nat -> Result<seq<byte>>)
    requires ArgsFit(a, callee, args) && NoAuto(callee)
    ensures forall k: nat :: k < |args| ==> f(k) == ArgCast(a, callee, args, k, n)
  {
    (k: nat) => if k < |args| then ArgCast(a, callee, args, k, n) else Ok([])
  }

  /** The arguments from index `i` on, each cast from the adapter's type into the callee's, stopping at the first error. */
  function CastArgs(a: Adapter, callee: FuncDesc, args: seq<seq<byte>>, i: nat, n: Natives): (r: Result<seq<seq<byte>>>)
    requires ArgsFit(a, callee, args) && NoAuto(callee) && i <= |args|
    ensures r.Ok? ==> |r.value| == |args| - i
  {
    Collect(ArgCasts(a, callee, args, n), i, |args|)
  }

  /** The results `f(i)` up to `f(end - 1)`, in order, or the first error among them. */
  function Collect<T>(f: nat -> Result<T>, i: nat, end: nat): (r: Result<seq<T>>)
    requires i <= end
    ensures r.Ok? ==> |r.value| == end - i
    decreases end - i
  {
    if i == end then Ok([])
    else
      var head :- f(i);
      var tail :- Collect(f, i + 1, end);
      Ok([head] + tail)
  }

  /** One step of the collection: the first result's error, or the first result in front of the rest. */
  lemma CollectStep<T>(f: nat -> Result<T>, i: nat, end: nat)
    requires i < end
    ensures f(i).Err? ==> Collect(f, i, end) == Err(f(i).error)
    ensures f(i).Ok? ==> Collect(f, i, end) == Prefixed([f(i).value], Collect(f, i + 1, end))
  {
  }

  /** A successful collection from `i` holds, from position `k - i`, the collection from `k`. */
  lemma {:induction false} CollectShift<T>(f: nat -> Result<T>, i: nat, k: nat, end: nat)
    requires i <= k <= end && Collect(f, i, end).Ok?
    ensures Collect(f, k, end).Ok? && Collect(f, i, end).value[k - i..] == Collect(f, k, end).value
    decreases k - i
  {
    if i < k {
      CollectStep(f, i, end);
      var all := Collect(f, i, end).value;
      assert all[1..] == Collect(f, i + 1, end).value;
      CollectShift(f, i + 1, k, end);
      assert all[1..][k - i - 1..] == all[k - i..];
    }
  }

  /** A successful collection holds every result, in order. */
  lemma CollectOk<T>(f: nat -> Result<T>, i: nat, end: nat)
    requires i <= end && Collect(f, i, end).Ok?
    ensures forall k :: i <= k < end ==> f(k) == Ok(Collect(f, i, end).value[k - i])
  {
    forall k | i <= k < end ensures f(k) == Ok(Collect(f, i, end).value[k - i]) {
      CollectShift(f, i, k, end);
      CollectStep(f, k, end);
    }
  }

  /** A failed collection carries the error of the first failing result; every earlier result succeeded. */
  lemma {:induction false} CollectFirstError<T>(f: nat -> Result<T>, i: nat, end: nat)
    requires i <= end && Collect(f, i, end).Err?
    ensures exists k :: i <= k < end && f(k).Err? && Collect(f, i, end).error == f(k).error
                        && (forall j :: i <= j < k ==> f(j).Ok?)
    decreases end - i
  {
    CollectStep(f, i, end);
    if f(i).Ok? {
      CollectFirstError(f, i + 1, end);
      var k :| i + 1 <= k < end && f(k).Err? && Collect(f, i + 1, end).error == f(k).error
               && (forall j :: i + 1 <= j < k ==> f(j).Ok?);
      assert forall j :: i <= j < k ==> f(j).Ok?;
    }
  }

  /** What `_call` needs: a callee without Auto (as every prepared handle is) and, once the counts match, wide enough arguments and no aggregate in the callee's signature. */
  predicate CallFits(a: Adapter, callee: FuncDesc, args: seq<seq<byte>>) {
    && NoAuto(callee)
    && (CheckCall(a.target, callee, |args|).Ok? ==> ArgsFit(a, callee, args) && !callee.returnType.Struct?)
  }

  /** The native function fills a return buffer at least as wide as its declared return type. */
  ghost predicate ReturnsWidth(invoke: seq<seq<byte>> -> seq<byte>, t: FuncType) {
    forall args :: |invoke(args)| >= NativeWidth(t)
  }

  /** Whether `_call` reaches the native function: the counts match and every argument casts. */
  predicate Invokes(a: Adapter, callee: FuncDesc, args: seq<seq<byte>>, n: Natives)
    requires CallFits(a, callee, args)
  {
    CheckCall(a.target, callee, |args|).Ok? && CastArgs(a, callee, args, 0, n).Ok?
  }

  /**
   * `Adapter::_call`: check the counts, cast every argument into the
   * callee's type, run the callee (`invoke`), then cast its return value
   * into the adapter's return type: the bytes written into `result`, or the
   * error.
   */
  function CallSpec(a: Adapter, func: FuncHandle, args: seq<seq<byte>>, invoke: seq<seq<byte>> -> seq<byte>, n: Natives): (r: Result<seq<byte>>)
    requires CallFits(a, func.desc, args) && ReturnsWidth(invoke, func.desc.returnType)
    ensures !Invokes(a, func.desc, args, n) ==> r.Err?
    ensures CheckCall(a.target, func.desc, |args|).Err? ==> r == Err(CheckCall(a.target, func.desc, |args|).error)
    ensures r.Ok? ==> |r.value| == WriteWidth(func.desc.returnType, a.target.returnType)
  {
    var _ :- CheckCall(a.target, func.desc, |args|);
    var converted :- CastArgs(a, func.desc, args, 0, n);
    Cast(func.desc.returnType, a.target.returnType, invoke(converted), n)
  }

  /** One pass of `_call`'s argument loop: argument `i` cast into a fresh buffer of the callee's type. */
  method CastArgument(a: Adapter, callee: FuncDesc, args: seq<seq<byte>>, i: nat, n: Natives) returns (r: Result<seq<byte>>)
    requires ArgsFit(a, callee, args) && NoAuto(callee) && i < |args|
    ensures r == ArgCast(a, callee, args, i, n)
  {
    var from := a.target.argumentTypes[i];
    var into := callee.argumentTypes[i];
    var buffer := new byte[NativeWidth(into)](_ => 0);
    var cast := CallCastType(from, into, args[i], buffer, 0, n);
    if cast.Err? {
      return Err(cast.error);
    }
    ghost var bytes := Cast(from, into, args[i], n).value;
    assert buffer[..] == bytes by {
      assert buffer[..] == buffer[..][0..|bytes|];
    }
    return Ok(buffer[..]);
  }

  /** `Adapter::_call` with its loop over the arguments; `invoked` tells whether the native function ran. */
  method Call(a: Adapter, func: FuncHandle, result: array<byte>, args: seq<seq<byte>>,
              invoke: seq<seq<byte>> -> seq<byte>, n: Natives) returns (r: Result<()>, invoked: bool)
    requires CallFits(a, func.desc, args) && ReturnsWidth(invoke, func.desc.returnType)
    requires CheckCall(a.target, func.desc, |args|).Ok? ==>
      WriteWidth(func.desc.returnType, a.target.returnType) <= result.Length
    modifies result
    ensures invoked <==> Invokes(a, func.desc, args, n)
    ensures r.Ok? <==> CallSpec(a, func, args, invoke, n).Ok?
    ensures r.Ok? ==> result[..] == Overwrite(old(result[..]), 0, CallSpec(a, func, args, invoke, n).value)
    ensures r.Err? ==> result[..] == old(result[..]) && r.error == CallSpec(a, func, args, invoke, n).error
  {
    var check := CheckCall(a.target, func.desc, |args|);
    if check.Err? {
      return Err(check.error), false;
    }
    var converted: seq<seq<byte>> := [];
    if CastArgs(a, func.desc, args, 0, n).Ok? {
      assert [] + CastArgs(a, func.desc, args, 0, n).value == CastArgs(a, func.desc, args, 0, n).value;
    }
    for i := 0 to |args|
      invariant CastArgs(a, func.desc, args, 0, n) == Prefixed(converted, CastArgs(a, func.desc, args, i, n))
      invariant result[..] == old(result[..])
    {
      var cast := CastArgument(a, func.desc, args, i, n);
      CollectStep(ArgCasts(a, func.desc, args, n), i, |args|);
      if cast.Err? {
        return Err(cast.error), false;
      }
      PrefixedAppend(converted, cast.value, CastArgs(a, func.desc, args, i + 1, n));
      converted := converted + [cast.value];
    }
    assert CastArgs(a, func.desc, args, 0, n) == Ok(converted + []);
    assert converted + [] == converted;
    var ret := invoke(converted);
    invoked := true;
    r := CallCastType(func.desc.returnType, a.target.returnType, ret, result, 0, n);
  }

  /** When all argument casts succeed, the cast buffers are the arguments' casts, in order. */
  lemma CastArgsOk(a: Adapter, callee: FuncDesc, args: seq<seq<byte>>, i: nat, n: Natives)
    requires ArgsFit(a, callee, args) && NoAuto(callee) && i <= |args|
    requires CastArgs(a, callee, args, i, n).Ok?
    ensures forall k :: i <= k < |args| ==> ArgCast(a, callee, args, k, n) == Ok(CastArgs(a, callee, args, i, n).value[k - i])
  {
    CollectOk(ArgCasts(a, callee, args, n), i, |args|);
  }

  /** When an argument cast fails, the error is that of the first failing argument; the later ones are never cast. */
  lemma CastArgsFirstError(a: Adapter, callee: FuncDesc, args: seq<seq<byte>>, i: nat, n: Natives)
    requires ArgsFit(a, callee, args) && NoAuto(callee) && i <= |args|
    requires CastArgs(a, callee, args, i, n).Err?
    ensures exists k ::
      && i <= k < |args|
      && ArgCast(a, callee, args, k, n).Err?
      && CastArgs(a, callee, args, i, n).error == ArgCast(a, callee, args, k, n).error
      && forall j :: i <= j < k ==> ArgCast(a, callee, args, j, n).Ok?
  {
    var f := ArgCasts(a, callee, args, n);
    CollectFirstError(f, i, |args|);
    var k :| i <= k < |args| && f(k).Err? && Collect(f, i, |args|).error == f(k).error
             && (forall j :: i <= j < k ==> f(j).Ok?);
    assert ArgCast(a, callee, args, k, n).Err?;
  }

  /**
   * An adapter returning `void` cannot complete a call: the callee runs, and
   * then casting its return value into `void` fails, whatever it returned.
   */
  lemma VoidTargetFailsAfterCall(a: Adapter, func: FuncHandle, args: seq<seq<byte>>,
                                 invoke: seq<seq<byte>> -> seq<byte>, n: Natives)
    requires CallFits(a, func.desc, args) && ReturnsWidth(invoke, func.desc.returnType)
    requires a.target.returnType == Void && Invokes(a, func.desc, args, n)
    ensures CallSpec(a, func, args, invoke, n).Err?
    ensures CallSpec(a, func, args, invoke, n).error.InvalidCast?
    ensures func.desc.returnType == Void ==>
      CallSpec(a, func, args, invoke, n) == InvalidCastMsg("Cast from 'void' into 'void' unsupported")
  {
    var converted := CastArgs(a, func.desc, args, 0, n).value;
    var ret := invoke(converted);
    CastOutcome(func.desc.returnType, Void, ret, n);
    if func.desc.returnType == Void {
      VoidIntoVoid(ret, n);
    }
  }
}
