/**
 * The type model of the descriptor language: `FuncType`, `FuncDesc` and the
 * packed aggregate `StructType` (src/interface.rs, src/structure.rs).
 * `FuncType` and `StructType` refer to each other, so they share a module.
 */
module Types {
  import opened StrUtil

  datatype FuncType =
    | Auto | Void
    | Int | Float | Double | LongDouble | ISize | USize
    | S8 | S16 | S32 | S64 | U8 | U16 | U32 | U64 | F32 | F64 | F128
    | Pointer
    | RefStringPtr | BorrowStringPtr
    | RefArrayPtr | BorrowArrayPtr
    | Struct(structure: StructType)

  /** One aggregate member: its type and its byte offset. */
  datatype Field = Field(ty: FuncType, offset: nat)

  /** An aggregate: its members with offsets, and its total size. */
  datatype StructType = StructType(fields: seq<Field>, size: nat)

  datatype FuncDesc = FuncDesc(argumentTypes: seq<FuncType>, returnType: FuncType)

  /**
   * What `size()` yields for the five pointer kinds. The source casts the
   * function item `size_of::<isize>` (not its result) to `c_uint`, so the
   * value is the low 32 bits of a code address, unknown here.
   */
  const PointerFieldSize: nat

  /** The five kinds whose `size()` is `PointerFieldSize`. */
  predicate IsPointerWord(t: FuncType) {
    t.Pointer? || t.RefStringPtr? || t.BorrowStringPtr? || t.RefArrayPtr? || t.BorrowArrayPtr?
  }

  /**
   * How many bytes the adapter reads or writes for a value of this type:
   * the width of the Rust type named in its `read`/`write` calls (c_int is
   * 32 bits, isize and usize 64, LongDouble and F128 are handled as i128,
   * pointers as isize). Void moves nothing; Auto and Struct are never moved.
   */
  function NativeWidth(t: FuncType): nat {
    match t
    case Auto | Void | Struct(_) => 0
    case S8 | U8 => 1
    case S16 | U16 => 2
    case Int | Float | S32 | U32 | F32 => 4
    case Double | ISize | USize | S64 | U64 | F64 => 8
    case LongDouble | F128 => 16
    case Pointer | RefStringPtr | BorrowStringPtr | RefArrayPtr | BorrowArrayPtr => 8
  }

  /** `FuncType::size`: the layout size, which is the moved width except for pointer kinds and aggregates. */
  function Size(t: FuncType): (r: nat)
    ensures t.Struct? ==> r == t.structure.size
    ensures IsPointerWord(t) ==> r == PointerFieldSize
    ensures !t.Struct? && !IsPointerWord(t) ==> r == NativeWidth(t)
    ensures t.Auto? || t.Void? ==> r == 0
  {
    match t
    case Auto | Void => 0
    case Int => 4
    case Float => 4
    case Double => 8
    case LongDouble => 16
    case ISize | USize => 8
    case S8 | U8 => 1
    case S16 | U16 => 2
    case S32 | U32 => 4
    case S64 | U64 => 8
    case F32 => 4
    case F64 => 8
    case F128 => 16
    case Pointer | RefStringPtr | BorrowStringPtr | RefArrayPtr | BorrowArrayPtr => PointerFieldSize
    case Struct(st) => st.size
  }

  predicate IsAuto(t: FuncType) { t.Auto? }

  /** `is_ptr`: word-sized kinds the adapter copies verbatim, including ISize and USize. */
  predicate IsPtr(t: FuncType)
    ensures IsPtr(t) ==> NativeWidth(t) == 8 && !IsAuto(t)
    ensures IsPointerWord(t) ==> IsPtr(t)
  {
    t.ISize? || t.USize? || IsPointerWord(t)
  }

  predicate IsRefStr(t: FuncType) { t.RefStringPtr? }

  predicate IsBorrowStr(t: FuncType) { t.BorrowStringPtr? }

  /** The sum of the sizes of `types`, i.e. the offset just past them when packed. */
  function SumSizes(types: seq<FuncType>): nat {
    if |types| == 0 then 0 else SumSizes(types[..|types| - 1]) + Size(types[|types| - 1])
  }

  /** The member types of an aggregate. */
  function FieldTypes(st: StructType): (r: seq<FuncType>)
    ensures |r| == |st.fields|
    ensures forall i :: 0 <= i < |r| ==> r[i] == st.fields[i].ty
  {
    seq(|st.fields|, i requires 0 <= i < |st.fields| => st.fields[i].ty)
  }

  /** The packed layout `StructType::new` builds: each offset is the sum of the sizes before it. */
  ghost function Layout(types: seq<FuncType>): StructType {
    StructType(seq(|types|, i requires 0 <= i < |types| => Field(types[i], SumSizes(types[..i]))), SumSizes(types))
  }

  /** `StructType::new`: a running offset, each field placed at it and the offset advanced by its size. */
  method NewStruct(types: seq<FuncType>) returns (st: StructType)
    ensures st == Layout(types)
    ensures FieldTypes(st) == types
  {
    var offset := 0;
    var fields: seq<Field> := [];
    for i := 0 to |types|
      invariant |fields| == i
      invariant offset == SumSizes(types[..i])
      invariant forall k :: 0 <= k < i ==> fields[k] == Field(types[k], SumSizes(types[..k]))
    {
      assert types[..i + 1][..i] == types[..i];
      fields := fields + [Field(types[i], offset)];
      offset := offset + Size(types[i]);
    }
    assert types[..|types|] == types;
    st := StructType(fields, offset);
  }

  /** `Layout` as a value, for the parser (which is a function and cannot call `NewStruct`). */
  function New(types: seq<FuncType>): (st: StructType)
    ensures st == Layout(types)
    ensures FieldTypes(st) == types
  {
    StructType(seq(|types|, i requires 0 <= i < |types| => Field(types[i], SumSizes(types[..i]))), SumSizes(types))
  }

  lemma {:induction false} SumSizesAppend(types: seq<FuncType>, i: nat)
    requires i < |types|
    ensures SumSizes(types[..i + 1]) == SumSizes(types[..i]) + Size(types[i])
  {
    assert types[..i + 1][..i] == types[..i];
  }

  /** The first field sits at offset 0, each next one right after its predecessor, and the size ends the last. */
  lemma LayoutOffsets(types: seq<FuncType>)
    ensures |types| > 0 ==> New(types).fields[0].offset == 0
    ensures forall i :: 0 <= i < |types| - 1 ==>
      New(types).fields[i + 1].offset == New(types).fields[i].offset + Size(types[i])
    ensures |types| > 0 ==> New(types).size == New(types).fields[|types| - 1].offset + Size(types[|types| - 1])
    ensures |types| == 0 ==> New(types).size == 0
  {
    forall i | 0 <= i < |types| - 1
      ensures New(types).fields[i + 1].offset == New(types).fields[i].offset + Size(types[i])
    {
      SumSizesAppend(types, i);
    }
    if |types| > 0 {
      SumSizesAppend(types, |types| - 1);
      assert types[..|types|] == types;
    }
  }

  lemma {:induction false} SumSizesMonotone(types: seq<FuncType>, i: nat, j: nat)
    requires i <= j <= |types|
    ensures SumSizes(types[..i]) <= SumSizes(types[..j])
    decreases j - i
  {
    if i < j {
      SumSizesAppend(types, j - 1);
      SumSizesMonotone(types, i, j - 1);
    }
  }

  /** Packed fields never overlap and all lie inside the aggregate. */
  lemma LayoutDisjoint(types: seq<FuncType>, i: nat, j: nat)
    requires i < j < |types|
    ensures New(types).fields[i].offset + Size(types[i]) <= New(types).fields[j].offset
    ensures New(types).fields[j].offset + Size(types[j]) <= New(types).size
  {
    SumSizesAppend(types, i);
    SumSizesMonotone(types, i + 1, j);
    assert New(types).fields[i].offset == SumSizes(types[..i]);
    assert New(types).fields[j].offset == SumSizes(types[..j]);
    LayoutWithin(types, j);
  }

  /** Every field of a laid-out aggregate lies inside it. */
  lemma LayoutWithin(types: seq<FuncType>, i: nat)
    requires i < |types|
    ensures New(types).fields[i].offset + Size(types[i]) <= New(types).size
  {
    SumSizesAppend(types, i);
    SumSizesMonotone(types, i + 1, |types|);
    assert types[..|types|] == types;
  }

  /** `Display for FuncType`: the keyword, except three kinds, and an aggregate's member list. */
  function Display(t: FuncType): (r: string)
    ensures |r| > 0 && (r[0] == '[' <==> t.Struct?)
    decreases t, 0
  {
    match t
    case Auto => "auto"
    case Void => "void"
    case Int => "int"
    case Float => "float"
    case Double => "double"
    case LongDouble => "long double"
    case ISize => "isize"
    case USize => "usize"
    case S8 => "i8"
    case S16 => "i16"
    case S32 => "i32"
    case S64 => "i64"
    case U8 => "u8"
    case U16 => "u16"
    case U32 => "u32"
    case U64 => "u64"
    case F32 => "f32"
    case F64 => "f64"
    case F128 => "f128"
    case Pointer => "*"
    case RefStringPtr => "&str"
    case BorrowStringPtr => "&mut str"
    case RefArrayPtr => "&[]"
    case BorrowArrayPtr => "&mut []"
    case Struct(st) => DisplayStruct(st)
  }

  /** `Display for StructType`: `[ty@0xOFF, ...] (size: N)`. */
  function DisplayStruct(st: StructType): (r: string)
    ensures |r| > 0 && r[0] == '['
    decreases st, |st.fields| + 1
  {
    "[" + DisplayFieldsFrom(st, 0) + "] (size: " + Decimal(st.size) + ")"
  }

  /** The members from index `i` on, each as `ty@0xOFF`, separated by `, `. */
  function DisplayFieldsFrom(st: StructType, i: nat): string
    requires i <= |st.fields|
    decreases st, |st.fields| - i
  {
    if i == |st.fields| then ""
    else
      var f := st.fields[i];
      assert f in st.fields;
      (if i > 0 then ", " else "") + Display(f.ty) + "@" + AltHex(f.offset) + DisplayFieldsFrom(st, i + 1)
  }
}
