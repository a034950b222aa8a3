/**
 * The adapter's coercion matrix, `Adapter::_call_cast_type`
 * (src/adapter.rs): how a value of one descriptor type is read from one
 * buffer and written into another as a value of a second type. The rules
 * apply in order: an Auto side copies the concrete side verbatim; two
 * word-sized kinds copy the word (a string reference into a borrowed string
 * duplicates it); a signed, unsigned or floating source is converted into
 * any numeric destination; everything else is an `InvalidCast` error.
 */
module Coerce {
  import opened StrUtil
  import opened Bytes
  import opened Errors
  import opened Types
  import opened Structure

  /**
   * The native operations the matrix relies on, which the model does not
   * interpret: integer-to-float conversion (yielding the float's bits),
   * every conversion out of the float family (from the source's bits), and
   * `strdup` (from a string address to the duplicate's address).
   */
  datatype Natives = Natives(
    intToFloat: (int, FuncType) -> int,
    floatCast: (FuncType, int, FuncType) -> int,
    strdup: int -> int)

  /** Sources read as `i64`. */
  predicate IsSigned(t: FuncType) {
    t.Int? || t.ISize? || t.S8? || t.S16? || t.S32? || t.S64?
  }

  /** Sources read as `u64`. */
  predicate IsUnsigned(t: FuncType) {
    t.USize? || t.U8? || t.U16? || t.U32? || t.U64?
  }

  /** Sources read as `f64` (LongDouble and F128 are read as `i128` first). */
  predicate IsFloating(t: FuncType) {
    t.Float? || t.Double? || t.LongDouble? || t.F32? || t.F64? || t.F128?
  }

  /** The destinations a converted number may be written into; the same set as the three source families. */
  predicate IsNumeric(t: FuncType)
    ensures IsNumeric(t) <==> IsSigned(t) || IsUnsigned(t) || IsFloating(t)
    ensures IsNumeric(t) ==> !t.Auto? && !t.Void? && !t.Struct? && !IsPointerWord(t)
  {
    !t.Auto? && !t.Void? && !t.Struct? && !IsPointerWord(t)
  }

  /** Destinations written with a float conversion (LongDouble and F128 are written as `i128`). */
  predicate IsFloatStore(t: FuncType) {
    t.Float? || t.Double? || t.F32? || t.F64?
  }

  /** The pairs for which the matrix does not panic: Auto to Auto is unreachable, Auto with an aggregate is unimplemented. */
  predicate CastDefined(from: FuncType, into: FuncType) {
    && !(from.Auto? && (into.Auto? || into.Struct?))
    && !(into.Auto? && from.Struct?)
  }

  /** How many source bytes the matrix reads for the pair. */
  function ReadWidth(from: FuncType, into: FuncType): (r: nat)
    ensures !from.Auto? ==> r <= NativeWidth(from)
  {
    if from.Auto? then NativeWidth(into)
    else if into.Auto? then NativeWidth(from)
    else if IsPtr(from) && IsPtr(into) then 8
    else if IsNumeric(from) then NativeWidth(from)
    else 0
  }

  /** How many destination bytes a successful cast writes. */
  function WriteWidth(from: FuncType, into: FuncType): nat {
    if into.Auto? then NativeWidth(from) else NativeWidth(into)
  }

  function InvalidCastText(from: FuncType, into: FuncType): string {
    "Invalid cast from '" + Display(from) + "' into '" + Display(into) + "'"
  }

  function UnsupportedCastText(from: FuncType, into: FuncType): string {
    "Cast from '" + Display(from) + "' into '" + Display(into) + "' unsupported"
  }

  /** Writing an integer read from a signed or unsigned source: `value as T`, i.e. modulo 2^width for integers. */
  function StoreInteger(from: FuncType, into: FuncType, value: int, n: Natives): (r: Result<seq<byte>>)
    ensures r.Ok? <==> IsNumeric(into)
    ensures r.Err? ==> r == InvalidCastMsg(InvalidCastText(from, into))
    ensures r.Ok? ==> |r.value| == NativeWidth(into)
    ensures r.Ok? && !IsFloatStore(into) ==> FromLE(r.value) == value % Pow256(NativeWidth(into))
  {
    if !IsNumeric(into) then InvalidCastMsg(InvalidCastText(from, into))
    else if IsFloatStore(into) then Ok(ToLE(n.intToFloat(value, into), NativeWidth(into)))
    else
      FromToLE(value, NativeWidth(into));
      Ok(ToLE(value, NativeWidth(into)))
  }

  /** The value a signed source holds in its first `NativeWidth` bytes. */
  function SignedValue(t: FuncType, src: seq<byte>): int
    requires IsSigned(t) && |src| >= NativeWidth(t)
  {
    ToSigned(FromLE(src[..NativeWidth(t)]), NativeWidth(t))
  }

  /**
   * `_call_cast_type`: the bytes written into the destination for a value
   * of type `from` held in `src`, converted to `into`, or the error.
   */
  function Cast(from: FuncType, into: FuncType, src: seq<byte>, n: Natives): (r: Result<seq<byte>>)
    requires CastDefined(from, into) && |src| >= ReadWidth(from, into)
    ensures r.Ok? ==> |r.value| == WriteWidth(from, into)
  {
    if from.Auto? then Ok(src[..NativeWidth(into)])
    else if into.Auto? then Ok(src[..NativeWidth(from)])
    else if IsPtr(from) && IsPtr(into) then
      if IsRefStr(from) && IsBorrowStr(into) then Ok(ToLE(n.strdup(FromLE(src[..8])), 8))
      else Ok(src[..8])
    else if IsSigned(from) then StoreInteger(from, into, SignedValue(from, src), n)
    else if IsUnsigned(from) then StoreInteger(from, into, FromLE(src[..NativeWidth(from)]), n)
    else if IsFloating(from) then
      if IsNumeric(into) then Ok(ToLE(n.floatCast(from, FromLE(src[..NativeWidth(from)]), into), NativeWidth(into)))
      else InvalidCastMsg(InvalidCastText(from, into))
    else InvalidCastMsg(UnsupportedCastText(from, into))
  }

  /**
   * When a cast succeeds, and which message a failing one carries: a
   * numeric source into a non-numeric destination is an invalid cast; a
   * source in no family is unsupported.
   */
  lemma CastOutcome(from: FuncType, into: FuncType, src: seq<byte>, n: Natives)
    requires CastDefined(from, into) && |src| >= ReadWidth(from, into)
    ensures Cast(from, into, src, n).Ok? <==>
      from.Auto? || into.Auto? || (IsPtr(from) && IsPtr(into)) || (IsNumeric(from) && IsNumeric(into))
    ensures Cast(from, into, src, n).Err? && IsNumeric(from) ==>
      Cast(from, into, src, n) == InvalidCastMsg(InvalidCastText(from, into))
    ensures Cast(from, into, src, n).Err? && !IsNumeric(from) ==>
      Cast(from, into, src, n) == InvalidCastMsg(UnsupportedCastText(from, into))
  {
    var r := Cast(from, into, src, n);
    if from.Auto? || into.Auto? || (IsPtr(from) && IsPtr(into)) {
      assert r.Ok?;
    } else if IsSigned(from) {
      assert r == StoreInteger(from, into, SignedValue(from, src), n);
    } else if IsUnsigned(from) {
      assert r == StoreInteger(from, into, FromLE(src[..NativeWidth(from)]), n);
    } else if IsFloating(from) {
      assert IsNumeric(into) ==> r.Ok?;
      assert !IsNumeric(into) ==> r == InvalidCastMsg(InvalidCastText(from, into));
    } else {
      assert r == InvalidCastMsg(UnsupportedCastText(from, into));
      assert !IsNumeric(from);
    }
  }

  /** `void` into `void` is not a cast the matrix knows. */
  lemma VoidIntoVoid(src: seq<byte>, n: Natives)
    ensures Cast(Void, Void, src, n) == InvalidCastMsg("Cast from 'void' into 'void' unsupported")
  {
    assert Display(Void) == "void";
    assert UnsupportedCastText(Void, Void) == "Cast from 'void' into 'void' unsupported";
  }

  /** A signed or unsigned source into an integer destination stores the source's value modulo 2^width. */
  lemma IntegerCastModulo(from: FuncType, into: FuncType, src: seq<byte>, n: Natives)
    requires IsSigned(from) || IsUnsigned(from)
    requires IsNumeric(into) && !IsFloatStore(into) && !(IsPtr(from) && IsPtr(into))
    requires |src| >= NativeWidth(from)
    ensures Cast(from, into, src, n).Ok?
    ensures var v := if IsSigned(from) then SignedValue(from, src) else FromLE(src[..NativeWidth(from)]);
      FromLE(Cast(from, into, src, n).value) == v % Pow256(NativeWidth(into))
  {
  }

  /** `-1i32` cast to `u32` is 4294967295. */
  lemma MinusOneIntoU32(n: Natives)
    ensures Cast(S32, U32, ToLE(-1, 4), n).Ok?
    ensures FromLE(Cast(S32, U32, ToLE(-1, 4), n).value) == 4294967295
  {
    SignedRoundTrip(-1, 4);
    IntegerCastModulo(S32, U32, ToLE(-1, 4), n);
    assert ToLE(-1, 4)[..4] == ToLE(-1, 4);
  }

  /** `-1i8` cast to `i64` is still -1. */
  lemma MinusOneIntoI64(n: Natives)
    ensures Cast(S8, S64, ToLE(-1, 1), n).Ok?
    ensures ToSigned(FromLE(Cast(S8, S64, ToLE(-1, 1), n).value), 8) == -1
  {
    SignedRoundTrip(-1, 1);
    assert ToLE(-1, 1)[..1] == ToLE(-1, 1);
    assert Cast(S8, S64, ToLE(-1, 1), n) == Ok(ToLE(-1, 8));
    SignedRoundTrip(-1, 8);
  }

  /** Widening a signed value: the wide bytes hold the same signed value. */
  lemma SignedWiden(from: FuncType, into: FuncType, src: seq<byte>, n: Natives)
    requires IsSigned(from) && IsSigned(into) && NativeWidth(from) <= NativeWidth(into)
    requires !(IsPtr(from) && IsPtr(into))
    requires |src| >= NativeWidth(from)
    ensures Cast(from, into, src, n) == Ok(ToLE(SignedValue(from, src), NativeWidth(into)))
    ensures SignedValue(into, ToLE(SignedValue(from, src), NativeWidth(into))) == SignedValue(from, src)
  {
    var w := NativeWidth(from);
    var wide := NativeWidth(into);
    var v := SignedValue(from, src);
    assert Cast(from, into, src, n) == StoreInteger(from, into, v, n);
    SignedFits(FromLE(src[..w]), w, wide);
    SignedRoundTrip(v, wide);
    assert ToLE(v, wide)[..wide] == ToLE(v, wide);
  }

  /** The signed reading of w bytes lies in the signed range of any wider width. */
  lemma SignedFits(u: nat, w: nat, wide: nat)
    requires 0 < w <= wide && u < Pow256(w)
    ensures -(Pow256(wide) / 2) <= ToSigned(u, w) < Pow256(wide) / 2
  {
    Pow256Monotone(w, wide);
    var p, q := Pow256(w), Pow256(wide);
    assert p == 256 * Pow256(w - 1);
    assert p == 2 * (p / 2) && p / 2 <= q / 2;
    if u >= p / 2 {
      assert ToSigned(u, w) == u - p;
    } else {
      assert ToSigned(u, w) == u;
    }
  }

  /** A signed value widened to a signed type at least as wide and narrowed back is unchanged. */
  lemma SignedWidenNarrow(from: FuncType, into: FuncType, src: seq<byte>, n: Natives)
    requires IsSigned(from) && IsSigned(into) && NativeWidth(from) <= NativeWidth(into)
    requires |src| >= NativeWidth(from)
    ensures Cast(from, into, src, n).Ok?
    ensures var wide := Cast(from, into, src, n).value;
      |wide| >= ReadWidth(into, from) && Cast(into, from, wide, n) == Ok(src[..NativeWidth(from)])
  {
    if IsPtr(from) && IsPtr(into) {
      assert from.ISize? && into.ISize?;
      assert src[..8][..8] == src[..8];
    } else {
      SignedWiden(from, into, src, n);
      var wide := ToLE(SignedValue(from, src), NativeWidth(into));
      assert Cast(into, from, wide, n) == StoreInteger(into, from, SignedValue(from, src), n);
      SignedLoadStore(src[..NativeWidth(from)]);
    }
  }

  /** Casting an integer or word-sized value to its own type copies it unchanged. */
  lemma SameTypeIdentity(t: FuncType, src: seq<byte>, n: Natives)
    requires IsSigned(t) || IsUnsigned(t) || IsPointerWord(t)
    requires |src| >= NativeWidth(t)
    ensures Cast(t, t, src, n) == Ok(src[..NativeWidth(t)])
  {
    if !IsPtr(t) {
      if IsSigned(t) {
        SignedLoadStore(src[..NativeWidth(t)]);
      } else {
        ToFromLE(src[..NativeWidth(t)]);
      }
    }
  }

  /** Through Auto and back: writing a concrete value into Auto and reading it out again returns the same bytes. */
  lemma AutoRoundTrip(t: FuncType, src: seq<byte>, n: Natives)
    requires !t.Auto? && !t.Struct? && |src| >= NativeWidth(t)
    ensures Cast(t, Auto, src, n) == Ok(src[..NativeWidth(t)])
    ensures Cast(Auto, t, src[..NativeWidth(t)], n) == Ok(src[..NativeWidth(t)])
  {
    assert src[..NativeWidth(t)][..NativeWidth(t)] == src[..NativeWidth(t)];
  }

  /** Two word-sized kinds copy the word verbatim, except a string reference into a borrowed string, which stores a duplicate's address. */
  lemma PointerWords(from: FuncType, into: FuncType, src: seq<byte>, n: Natives)
    requires IsPtr(from) && IsPtr(into) && |src| >= 8
    ensures IsRefStr(from) && IsBorrowStr(into) ==> Cast(from, into, src, n) == Ok(ToLE(n.strdup(FromLE(src[..8])), 8))
    ensures !(IsRefStr(from) && IsBorrowStr(into)) ==> Cast(from, into, src, n) == Ok(src[..8])
  {
  }

  /** `_call_cast_type` on buffers: writes the cast value at offset `at` of `dst`, or leaves `dst` untouched on error. */
  method CallCastType(from: FuncType, into: FuncType, src: seq<byte>, dst: array<byte>, at: nat, n: Natives) returns (r: Result<()>)
    requires CastDefined(from, into) && |src| >= ReadWidth(from, into)
    requires at + WriteWidth(from, into) <= dst.Length
    modifies dst
    ensures r.Ok? <==> Cast(from, into, src, n).Ok?
    ensures r.Ok? ==> dst[..] == Overwrite(old(dst[..]), at, Cast(from, into, src, n).value)
    ensures r.Err? ==> dst[..] == old(dst[..]) && r.error == Cast(from, into, src, n).error
  {
    var bytes := Cast(from, into, src, n);
    if bytes.Err? {
      return Err(bytes.error);
    }
    CopyInto(dst, at, bytes.value);
    return Ok(());
  }
}
