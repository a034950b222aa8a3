/** What the descriptor parser promises: its keyword table, printing, round trips and quirks. */
module DescriptorProps {
  import opened Wrappers
  import opened StrUtil
  import opened Errors
  import opened Internal
  import opened Types
  import opened Descriptor

  /** The canonical keyword of each atom (the first one the table lists). */
  function KeywordOf(t: FuncType): (k: string)
    requires !t.Struct?
    ensures |k| > 0
  {
    match t
    case Auto => "auto"
    case Void => "void"
    case Int => "int"
    case Float => "float"
    case Double => "double"
    case LongDouble => "longdouble"
    case ISize => "isize"
    case USize => "usize"
    case S8 => "i8"
    case S16 => "i16"
    case S32 => "i32"
    case S64 => "i64"
    case U8 => "u8"
    case U16 => "u16"
    case U32 => "u32"
    case U64 => "u64"
    case F32 => "f32"
    case F64 => "f64"
    case F128 => "f128"
    case Pointer => "*"
    case RefStringPtr => "&str"
    case BorrowStringPtr => "*str"
    case RefArrayPtr => "&[]"
    case BorrowArrayPtr => "*[]"
  }

  /** The characters a keyword can and cannot hold. */
  lemma KeywordChars(t: FuncType)
    requires !t.Struct?
    ensures ',' !in KeywordOf(t) && ')' !in KeywordOf(t) && '(' !in KeywordOf(t)
    ensures KeywordOf(t)[0] != '[' && KeywordOf(t)[0] != ']' && KeywordOf(t)[0] != ','
    ensures !IsWhitespace(KeywordOf(t)[|KeywordOf(t)| - 1])
    ensures ']' in KeywordOf(t) <==> t.RefArrayPtr? || t.BorrowArrayPtr?
  {
    match t
    case Auto => KeywordCharsOf(KeywordOf(t));
    case Void => KeywordCharsOf(KeywordOf(t));
    case Int => KeywordCharsOf(KeywordOf(t));
    case Float => KeywordCharsOf(KeywordOf(t));
    case Double => KeywordCharsOf(KeywordOf(t));
    case LongDouble => KeywordCharsOf(KeywordOf(t));
    case ISize => KeywordCharsOf(KeywordOf(t));
    case USize => KeywordCharsOf(KeywordOf(t));
    case S8 => KeywordCharsOf(KeywordOf(t));
    case S16 => KeywordCharsOf(KeywordOf(t));
    case S32 => KeywordCharsOf(KeywordOf(t));
    case S64 => KeywordCharsOf(KeywordOf(t));
    case U8 => KeywordCharsOf(KeywordOf(t));
    case U16 => KeywordCharsOf(KeywordOf(t));
    case U32 => KeywordCharsOf(KeywordOf(t));
    case U64 => KeywordCharsOf(KeywordOf(t));
    case F32 => KeywordCharsOf(KeywordOf(t));
    case F64 => KeywordCharsOf(KeywordOf(t));
    case F128 => KeywordCharsOf(KeywordOf(t));
    case Pointer => KeywordCharsOf(KeywordOf(t));
    case RefStringPtr => KeywordCharsOf(KeywordOf(t));
    case BorrowStringPtr => KeywordCharsOf(KeywordOf(t));
    case RefArrayPtr => KeywordCharsOf(KeywordOf(t));
    case BorrowArrayPtr => KeywordCharsOf(KeywordOf(t));
  }

  /** The character facts of one keyword, checked on its text alone. */
  lemma KeywordCharsOf(k: string)
    requires k in {"auto", "void", "int", "float", "double", "longdouble", "isize", "usize", "i8", "i16", "i32", "i64",
                   "u8", "u16", "u32", "u64", "f32", "f64", "f128", "*", "&str", "*str", "&[]", "*[]"}
    ensures |k| > 0 && ',' !in k && ')' !in k && '(' !in k
    ensures k[0] != '[' && k[0] != ']' && k[0] != ',' && !IsWhitespace(k[|k| - 1])
    ensures ']' in k <==> k == "&[]" || k == "*[]"
  {
  }

  /** Every atom's keyword parses back to it. */
  lemma KeywordOfParses(t: FuncType)
    requires !t.Struct?
    ensures Keyword(KeywordOf(t)) == Some(t)
  {
  }

  /** A token that parses to an atom is that atom's keyword, or `?` for Auto. */
  lemma {:induction false} KeywordExact(token: string, t: FuncType)
    requires Keyword(token) == Some(t)
    ensures token == KeywordOf(t) || (t.Auto? && token == "?")
  {
    if token == "auto" || token == "?" {
    } else if token == "void" {
    } else if token == "int" {
    } else if token == "float" {
    } else if token == "double" {
    } else if token == "longdouble" {
    } else if token == "isize" {
    } else if token == "usize" {
    } else if token == "i8" {
    } else if token == "i16" {
    } else if token == "i32" {
    } else if token == "i64" {
    } else if token == "u8" {
    } else if token == "u16" {
    } else if token == "u32" {
    } else if token == "u64" {
    } else if token == "f32" {
    } else if token == "f64" {
    } else if token == "f128" {
    } else if token == "*" {
    } else if token == "&str" {
    } else if token == "*str" {
    } else if token == "&[]" {
    } else if token == "*[]" {
    }
  }

  /** Atoms map by exact match: a token names an atom iff it is its keyword, or `?` for Auto. */
  lemma KeywordTable(token: string, t: FuncType)
    requires !t.Struct?
    ensures Keyword(token) == Some(t) <==> token == KeywordOf(t) || (t.Auto? && token == "?")
  {
    if Keyword(token) == Some(t) {
      KeywordExact(token, t);
    }
    KeywordOfParses(t);
  }

  /** Printing an atom gives back its keyword except for LongDouble, BorrowStringPtr and BorrowArrayPtr, whose printed forms no keyword matches. */
  lemma DisplayParses(t: FuncType)
    requires !t.Struct?
    ensures !(t.LongDouble? || t.BorrowStringPtr? || t.BorrowArrayPtr?) ==> Keyword(Display(t)) == Some(t)
    ensures t.LongDouble? || t.BorrowStringPtr? || t.BorrowArrayPtr? ==> Keyword(Display(t)) == None
  {
  }

  /** A type whose aggregates all have the packed layout `StructType::new` gives, as every parsed type does. */
  ghost predicate LaidOut(t: FuncType)
    decreases t, 1
  {
    t.Struct? ==> LaidOutStruct(t.structure)
  }

  ghost predicate LaidOutStruct(st: StructType)
    decreases st, 0
  {
    st == New(FieldTypes(st)) && forall f | f in st.fields :: LaidOut(f.ty)
  }

  /** The descriptor text of a type: keywords, and `[m1,...,mn]` for an aggregate. */
  function Emit(t: FuncType): (s: string)
    ensures |s| > 0 && (s[0] == '[' <==> t.Struct?)
    decreases t, 1
  {
    match t
    case Struct(st) => EmitStruct(st)
    case _ => KeywordOf(t)
  }

  function EmitStruct(st: StructType): (s: string)
    ensures |s| > 0 && s[0] == '['
    decreases st, |st.fields| + 1
  {
    "[" + EmitMembers(st, 0) + "]"
  }

  /** Members `i..` of an aggregate, comma-separated. */
  function EmitMembers(st: StructType, i: nat): string
    requires i <= |st.fields|
    decreases st, |st.fields| - i
  {
    if i == |st.fields| then ""
    else
      assert st.fields[i] in st.fields;
      Emit(st.fields[i].ty) + (if i + 1 < |st.fields| then "," else "") + EmitMembers(st, i + 1)
  }

  /**
   * Whether `Emit(t)` reads back as `t` when the text after it holds a comma
   * (`commaAfter`) or not. An aggregate's last atom member is delimited by
   * its `]` only when no comma follows anywhere, and `&[]`/`*[]` hold a `]`
   * themselves; a member aggregate that is followed by a sibling sees that
   * sibling's comma.
   */
  ghost predicate Printable(t: FuncType, commaAfter: bool)
    decreases t, 1
  {
    t.Struct? ==> PrintableMembers(t.structure, 0, commaAfter)
  }

  ghost predicate PrintableMembers(st: StructType, i: nat, commaAfter: bool)
    requires i <= |st.fields|
    decreases st, |st.fields| - i
  {
    if i == |st.fields| then true
    else
      assert st.fields[i] in st.fields;
      var m := st.fields[i].ty;
      var last := i + 1 == |st.fields|;
      (if m.Struct? then Printable(m, commaAfter || !last)
       else !last || (!commaAfter && !(m.RefArrayPtr? || m.BorrowArrayPtr?)))
      && PrintableMembers(st, i + 1, commaAfter)
  }

  /** An atom's keyword is read as that atom, and the comma after it is consumed. */
  lemma AtomItem(t: FuncType, rest: string)
    requires !t.Struct?
    ensures ParseItem(KeywordOf(t) + "," + rest) == Ok((rest, t))
    ensures ParseItem(KeywordOf(t)) == Ok(([], t))
  {
    var k := KeywordOf(t);
    var s := k + "," + rest;
    KeywordChars(t);
    KeywordOfParses(t);
    assert s == k + ("," + rest);
    IndexOfAfter(k, "," + rest, ',');
    assert IndexOf("," + rest, ',') == Some(0);
    assert s[..|k|] == k;
    assert s[|k| + 1..] == rest;
    assert k[..|k|] == k;
  }

  /** One atom member followed by a comma: the loop reads it and moves past the comma. */
  lemma AtomMemberStep(m: FuncType, more: string, acc: seq<FuncType>)
    requires !m.Struct?
    ensures ParseFields(KeywordOf(m) + ("," + more), acc) == ParseFields(more, acc + [m])
  {
    var k := KeywordOf(m);
    var str := k + ("," + more);
    KeywordChars(m);
    AtomItem(m, "");
    assert str == k + ("," + more);
    IndexOfAfter(k, "," + more, ',');
    assert IndexOf("," + more, ',') == Some(0);
    assert str[..|k|] == k;
    assert str[|k|..] == "," + more;
  }

  /** The last atom member: with no comma after it, its token ends at the `]`, unless the keyword holds one. */
  lemma AtomLastStep(m: FuncType, tail: string, acc: seq<FuncType>)
    requires !m.Struct? && !(m.RefArrayPtr? || m.BorrowArrayPtr?) && ',' !in tail
    ensures ParseFields(KeywordOf(m) + ("]" + tail), acc) == ParseFields("]" + tail, acc + [m])
  {
    var k := KeywordOf(m);
    var str := k + ("]" + tail);
    KeywordChars(m);
    AtomItem(m, "");
    assert str == k + ("]" + tail);
    IndexOfAfter(k, "]" + tail, ',');
    IndexOfAfter(k, "]" + tail, ']');
    assert IndexOf("]" + tail, ']') == Some(0);
    assert str[..|k|] == k;
    assert str[|k|..] == "]" + tail;
  }

  /** One aggregate member: the loop reads it by recursion and drops one comma after it. */
  lemma NestedStep(text: string, after: string, inner: StructType, acc: seq<FuncType>)
    requires |text| > 0 && text[0] == '['
    requires ParseStruct(text + after) == Ok((after, inner))
    ensures ParseFields(text + after, acc) == ParseFields(SkipComma(after), acc + [Struct(inner)])
  {
  }

  lemma StructMemberStep(inner: StructType, after: string, acc: seq<FuncType>)
    requires ParseStruct(EmitStruct(inner) + after) == Ok((after, inner))
    ensures ParseFields(EmitStruct(inner) + after, acc) == ParseFields(SkipComma(after), acc + [Struct(inner)])
  {
    NestedStep(EmitStruct(inner), after, inner, acc);
  }

  /** The loop opens after the first character and closes at a `]`, yielding the packed layout of what it read. */
  lemma OpenClose(rest: string, tail: string, acc: seq<FuncType>)
    ensures ParseStruct("[" + rest) == ParseFields(rest, [])
    ensures ParseFields("]" + tail, acc) == Ok((tail, New(acc)))
  {
    assert ("[" + rest)[1..] == rest;
    assert ("]" + tail)[1..] == tail;
  }

  /** An aggregate's text, followed by any `tail` its members tolerate, parses back to the aggregate and leaves `tail`. */
  lemma {:induction false} StructRoundTrip(st: StructType, tail: string)
    requires LaidOutStruct(st) && PrintableMembers(st, 0, ',' in tail)
    ensures ParseStruct(EmitStruct(st) + tail) == Ok((tail, st))
    decreases st, |st.fields| + 1
  {
    OpenStruct(st, tail);
    MembersRoundTrip(st, 0, tail);
  }

  /** Reading an aggregate's text starts the member loop after its `[` with nothing read yet. */
  lemma OpenStruct(st: StructType, tail: string)
    ensures ParseStruct(EmitStruct(st) + tail) == ParseFields(EmitMembers(st, 0) + "]" + tail, FieldTypes(st)[..0])
  {
    var rest := EmitMembers(st, 0) + "]" + tail;
    assert EmitStruct(st) + tail == "[" + rest;
    assert ParseStruct("[" + rest) == ParseFields(rest, []) by {
      OpenClose(rest, "", []);
    }
    assert FieldTypes(st)[..0] == [];
  }

  lemma {:induction false} MembersRoundTrip(st: StructType, i: nat, tail: string)
    requires i <= |st.fields|
    requires LaidOutStruct(st) && PrintableMembers(st, i, ',' in tail)
    ensures ParseFields(EmitMembers(st, i) + "]" + tail, FieldTypes(st)[..i]) == Ok((tail, st))
    decreases st, |st.fields| - i, 2
  {
    var types := FieldTypes(st);
    if i == |st.fields| {
      assert EmitMembers(st, i) + "]" + tail == "]" + tail;
      assert types[..i] == types;
    } else {
      MemberStep(st, i, tail);
      MembersRoundTrip(st, i + 1, tail);
    }
  }

  /** The text of member `i` and what follows it. */
  lemma EmitMembersUnfold(st: StructType, i: nat, tail: string)
    requires i < |st.fields|
    ensures i + 1 < |st.fields| ==>
      EmitMembers(st, i) + "]" + tail == Emit(st.fields[i].ty) + ("," + (EmitMembers(st, i + 1) + "]" + tail))
    ensures i + 1 == |st.fields| ==>
      EmitMembers(st, i) + "]" + tail == Emit(st.fields[i].ty) + ("]" + tail)
  {
  }

  lemma PrintableUnfold(st: StructType, i: nat, commaAfter: bool)
    requires i < |st.fields| && PrintableMembers(st, i, commaAfter)
    ensures PrintableMembers(st, i + 1, commaAfter)
    ensures st.fields[i].ty.Struct? ==> Printable(st.fields[i].ty, commaAfter || i + 1 < |st.fields|)
    ensures !st.fields[i].ty.Struct? && i + 1 == |st.fields| ==>
      !commaAfter && !(st.fields[i].ty.RefArrayPtr? || st.fields[i].ty.BorrowArrayPtr?)
  {
  }

  lemma LaidOutMember(st: StructType, i: nat)
    requires i < |st.fields| && LaidOutStruct(st) && st.fields[i].ty.Struct?
    ensures LaidOutStruct(st.fields[i].ty.structure)
  {
    assert st.fields[i] in st.fields;
  }

  /** Reading member `i` of an aggregate's text advances the loop to member `i + 1`. */
  lemma {:induction false} MemberStep(st: StructType, i: nat, tail: string)
    requires i < |st.fields|
    requires LaidOutStruct(st) && PrintableMembers(st, i, ',' in tail)
    ensures PrintableMembers(st, i + 1, ',' in tail)
    ensures ParseFields(EmitMembers(st, i) + "]" + tail, FieldTypes(st)[..i])
         == ParseFields(EmitMembers(st, i + 1) + "]" + tail, FieldTypes(st)[..i + 1])
    decreases st, |st.fields| - i, 1
  {
    var m := st.fields[i].ty;
    PrintableUnfold(st, i, ',' in tail);
    if m.Struct? {
      LaidOutMember(st, i);
      StructMemberCase(st, i, tail);
    } else {
      AtomMemberCase(st, i, tail);
    }
  }

  lemma {:induction false} StructMemberCase(st: StructType, i: nat, tail: string)
    requires i < |st.fields| && st.fields[i].ty.Struct?
    requires LaidOutStruct(st.fields[i].ty.structure)
    requires Printable(st.fields[i].ty, ',' in tail || i + 1 < |st.fields|)
    ensures ParseFields(EmitMembers(st, i) + "]" + tail, FieldTypes(st)[..i])
         == ParseFields(EmitMembers(st, i + 1) + "]" + tail, FieldTypes(st)[..i + 1])
    decreases st, |st.fields| - i, 0
  {
    assert st.fields[i] in st.fields;
    var inner := st.fields[i].ty.structure;
    if i + 1 == |st.fields| {
      var after := "]" + tail;
      assert ',' in after <==> ',' in tail;
      StructRoundTrip(inner, after);
      StructLastGlue(st, i, tail, inner);
    } else {
      var after := "," + (EmitMembers(st, i + 1) + "]" + tail);
      assert ',' in after;
      StructRoundTrip(inner, after);
      StructInnerGlue(st, i, tail, inner);
    }
  }

  /** The last member is an aggregate: reading it leaves the closing `]`. */
  lemma StructLastGlue(st: StructType, i: nat, tail: string, inner: StructType)
    requires i + 1 == |st.fields| && st.fields[i].ty == Struct(inner)
    requires ParseStruct(EmitStruct(inner) + ("]" + tail)) == Ok(("]" + tail, inner))
    ensures ParseFields(EmitMembers(st, i) + "]" + tail, FieldTypes(st)[..i])
         == ParseFields(EmitMembers(st, i + 1) + "]" + tail, FieldTypes(st)[..i + 1])
  {
    var rest := "]" + tail;
    var acc := FieldTypes(st)[..i];
    assert EmitMembers(st, i) + "]" + tail == EmitStruct(inner) + rest by {
      EmitMembersUnfold(st, i, tail);
    }
    assert EmitMembers(st, i + 1) + "]" + tail == rest;
    assert ParseFields(EmitStruct(inner) + rest, acc) == ParseFields(rest, acc + [Struct(inner)]) by {
      StructMemberStep(inner, rest, acc);
      assert !StartsWith(rest, ',');
    }
    FieldTypesSnoc(st, i);
  }

  /** A member before the last is an aggregate: reading it consumes the comma after its `]`. */
  lemma StructInnerGlue(st: StructType, i: nat, tail: string, inner: StructType)
    requires i + 1 < |st.fields| && st.fields[i].ty == Struct(inner)
    requires var after := "," + (EmitMembers(st, i + 1) + "]" + tail);
      ParseStruct(EmitStruct(inner) + after) == Ok((after, inner))
    ensures ParseFields(EmitMembers(st, i) + "]" + tail, FieldTypes(st)[..i])
         == ParseFields(EmitMembers(st, i + 1) + "]" + tail, FieldTypes(st)[..i + 1])
  {
    var more := EmitMembers(st, i + 1) + "]" + tail;
    var acc := FieldTypes(st)[..i];
    assert EmitMembers(st, i) + "]" + tail == EmitStruct(inner) + ("," + more) by {
      EmitMembersUnfold(st, i, tail);
    }
    assert ParseFields(EmitStruct(inner) + ("," + more), acc) == ParseFields(more, acc + [Struct(inner)]) by {
      StructMemberStep(inner, "," + more, acc);
      assert ("," + more)[1..] == more;
    }
    FieldTypesSnoc(st, i);
  }

  /** The member types up to `i + 1` are those up to `i` and member `i`'s. */
  lemma FieldTypesSnoc(st: StructType, i: nat)
    requires i < |st.fields|
    ensures FieldTypes(st)[..i + 1] == FieldTypes(st)[..i] + [st.fields[i].ty]
  {
  }

  /** A member that is an atom is read as its keyword, with the separator after it. */
  lemma AtomMemberCase(st: StructType, i: nat, tail: string)
    requires i < |st.fields| && !st.fields[i].ty.Struct?
    requires i + 1 == |st.fields| ==> ',' !in tail && !(st.fields[i].ty.RefArrayPtr? || st.fields[i].ty.BorrowArrayPtr?)
    ensures ParseFields(EmitMembers(st, i) + "]" + tail, FieldTypes(st)[..i])
         == ParseFields(EmitMembers(st, i + 1) + "]" + tail, FieldTypes(st)[..i + 1])
  {
    if i + 1 == |st.fields| {
      AtomLastGlue(st, i, tail);
    } else {
      AtomInnerGlue(st, i, tail);
    }
  }

  /** The last member is an atom: its keyword is followed by the closing `]`. */
  lemma AtomLastGlue(st: StructType, i: nat, tail: string)
    requires i + 1 == |st.fields| && !st.fields[i].ty.Struct?
    requires ',' !in tail && !(st.fields[i].ty.RefArrayPtr? || st.fields[i].ty.BorrowArrayPtr?)
    ensures ParseFields(EmitMembers(st, i) + "]" + tail, FieldTypes(st)[..i])
         == ParseFields(EmitMembers(st, i + 1) + "]" + tail, FieldTypes(st)[..i + 1])
  {
    var m := st.fields[i].ty;
    var acc := FieldTypes(st)[..i];
    assert EmitMembers(st, i) + "]" + tail == KeywordOf(m) + ("]" + tail) by {
      EmitMembersUnfold(st, i, tail);
    }
    assert EmitMembers(st, i + 1) + "]" + tail == "]" + tail;
    AtomLastStep(m, tail, acc);
    FieldTypesSnoc(st, i);
  }

  /** A member before the last is an atom: its keyword is followed by a comma. */
  lemma AtomInnerGlue(st: StructType, i: nat, tail: string)
    requires i + 1 < |st.fields| && !st.fields[i].ty.Struct?
    ensures ParseFields(EmitMembers(st, i) + "]" + tail, FieldTypes(st)[..i])
         == ParseFields(EmitMembers(st, i + 1) + "]" + tail, FieldTypes(st)[..i + 1])
  {
    var m := st.fields[i].ty;
    var more := EmitMembers(st, i + 1) + "]" + tail;
    var acc := FieldTypes(st)[..i];
    assert EmitMembers(st, i) + "]" + tail == KeywordOf(m) + ("," + more) by {
      EmitMembersUnfold(st, i, tail);
    }
    AtomMemberStep(m, more, acc);
    FieldTypesSnoc(st, i);
  }

  /** An aggregate item is read to its matching `]`; nothing after it is consumed. */
  lemma StructItem(st: StructType, tail: string)
    requires LaidOutStruct(st) && PrintableMembers(st, 0, ',' in tail)
    ensures ParseItem(EmitStruct(st) + tail) == Ok((tail, Struct(st)))
  {
    StructRoundTrip(st, tail);
  }

  /** `FuncType::from_str` reads back every printable type from its text. */
  lemma FromStrRoundTrip(t: FuncType)
    requires LaidOut(t) && Printable(t, false)
    ensures FromStr(Emit(t)) == Ok(t)
  {
    if t.Struct? {
      StructItem(t.structure, "");
      assert EmitStruct(t.structure) + "" == Emit(t);
    } else {
      AtomItem(t, "");
    }
  }

  /** `FuncType::from_str` keeps the first item and discards any text after it. */
  lemma FromStrDiscardsRest(t: FuncType, rest: string)
    requires !t.Struct?
    ensures FromStr(KeywordOf(t) + "," + rest) == Ok(t)
  {
    AtomItem(t, rest);
  }

  /** Items separated by commas, as argument lists are written. */
  function Join(ts: seq<FuncType>): string
    decreases |ts|
  {
    if |ts| == 0 then ""
    else if |ts| == 1 then Emit(ts[0])
    else Emit(ts[0]) + "," + Join(ts[1..])
  }

  /** A list reads back when only its last item is an aggregate (one followed by a comma is rejected). */
  ghost predicate ListPrintable(ts: seq<FuncType>) {
    (forall i :: 0 <= i < |ts| - 1 ==> !ts[i].Struct?)
    && (|ts| > 0 ==> LaidOut(ts[|ts| - 1]) && Printable(ts[|ts| - 1], false))
  }

  /** The list loop reads one item, then the rest of the list from where the item ended. */
  lemma ParseListStep(s: string, t: FuncType, rest: string, tail: seq<FuncType>)
    requires |s| > 0 && ParseItem(s) == Ok((rest, t)) && ParseList(rest) == Ok(tail)
    ensures ParseList(s) == Ok([t] + tail)
  {
  }

  /** The list's text: the first item's, then a comma and the rest when there is more. */
  lemma JoinUnfold(ts: seq<FuncType>)
    requires |ts| > 1 && !ts[0].Struct?
    ensures Join(ts) == KeywordOf(ts[0]) + "," + Join(ts[1..])
  {
  }

  /** The rest of a printable list is printable. */
  lemma ListPrintableTail(ts: seq<FuncType>)
    requires |ts| > 1 && ListPrintable(ts)
    ensures ListPrintable(ts[1..]) && !ts[0].Struct?
  {
    assert forall i :: 0 <= i < |ts[1..]| - 1 ==> ts[1..][i] == ts[i + 1];
    assert ts[1..][|ts[1..]| - 1] == ts[|ts| - 1];
  }

  /** `FuncType::from_str_list` reads back a comma-separated list. */
  lemma {:induction false} ListRoundTrip(ts: seq<FuncType>)
    requires ListPrintable(ts)
    ensures ParseList(Join(ts)) == Ok(ts)
    decreases |ts|
  {
    if |ts| == 1 {
      SingleItemList(ts);
    } else if |ts| > 1 {
      ListPrintableTail(ts);
      ListRoundTrip(ts[1..]);
      ListStep(ts);
    }
  }

  /** A list of one printable item reads back. */
  lemma SingleItemList(ts: seq<FuncType>)
    requires |ts| == 1 && ListPrintable(ts)
    ensures ParseList(Join(ts)) == Ok(ts)
  {
    var t := ts[0];
    assert Join(ts) == Emit(t);
    if t.Struct? {
      StructItem(t.structure, "");
      assert EmitStruct(t.structure) + "" == Join(ts);
    } else {
      AtomItem(t, "");
    }
    assert ParseList([]) == Ok([]);
    ParseListStep(Join(ts), t, [], []);
    assert [t] + [] == ts;
  }

  /** The step of `ListRoundTrip`: an atom and its comma in front of a tail that reads back. */
  lemma ListStep(ts: seq<FuncType>)
    requires |ts| > 1 && !ts[0].Struct? && ParseList(Join(ts[1..])) == Ok(ts[1..])
    ensures ParseList(Join(ts)) == Ok(ts)
  {
    AtomTrailingComma(ts[0], Join(ts[1..]), ts[1..]);
    assert Join(ts) == KeywordOf(ts[0]) + "," + Join(ts[1..]) by {
      JoinUnfold(ts);
    }
    assert [ts[0]] + ts[1..] == ts;
  }

  /** A trailing comma after a list whose last item is an atom is accepted and ignored. */
  lemma {:induction false} ListTrailingComma(ts: seq<FuncType>)
    requires ListPrintable(ts) && |ts| > 0 && !ts[|ts| - 1].Struct?
    ensures ParseList(Join(ts) + ",") == Ok(ts)
    decreases |ts|
  {
    if |ts| == 1 {
      AtomTrailingComma(ts[0], [], []);
      assert Join(ts) + "," == KeywordOf(ts[0]) + "," + [];
      assert [ts[0]] + [] == ts;
    } else {
      ListPrintableTail(ts);
      ListTrailingComma(ts[1..]);
      TrailingCommaStep(ts);
    }
  }

  /** The step of `ListTrailingComma`: an atom and its comma in front of a tail that reads back. */
  lemma TrailingCommaStep(ts: seq<FuncType>)
    requires |ts| > 1 && !ts[0].Struct? && ParseList(Join(ts[1..]) + ",") == Ok(ts[1..])
    ensures ParseList(Join(ts) + ",") == Ok(ts)
  {
    var tailText := Join(ts[1..]) + ",";
    AtomTrailingComma(ts[0], tailText, ts[1..]);
    assert Join(ts) + "," == KeywordOf(ts[0]) + "," + tailText by {
      JoinUnfold(ts);
    }
    assert [ts[0]] + ts[1..] == ts;
  }

  /** An atom and its comma in front of a list that reads back. */
  lemma AtomTrailingComma(t: FuncType, rest: string, tail: seq<FuncType>)
    requires !t.Struct? && ParseList(rest) == Ok(tail)
    ensures ParseList(KeywordOf(t) + "," + rest) == Ok([t] + tail)
  {
    AtomItem(t, rest);
    ParseListStep(KeywordOf(t) + "," + rest, t, rest, tail);
  }

  /** The list stops at the first item that is rejected. */
  lemma ParseListHalts(s: string, t: FuncType, rest: string)
    requires |s| > 0 && ParseItem(s) == Ok((rest, t)) && ParseList(rest).Err?
    ensures ParseList(s) == Err(ParseList(rest).error)
  {
  }

  /** An aggregate followed by another list item is rejected: the comma left after its `]` is read as an empty token. */
  lemma AggregateThenItem(st: StructType, rest: string)
    requires LaidOutStruct(st) && PrintableMembers(st, 0, true)
    ensures ParseList(EmitStruct(st) + "," + rest) == InvalidDesc("Unknown type: ")
  {
    var r := "," + rest;
    assert ',' in r;
    StructItem(st, r);
    EmptyTokenRejected(r, rest);
    ParseListHalts(EmitStruct(st) + r, Struct(st), r);
    assert EmitStruct(st) + "," + rest == EmitStruct(st) + r;
  }

  /** Text that starts with a comma holds an empty token, which is no type. */
  lemma EmptyTokenRejected(r: string, rest: string)
    requires r == "," + rest
    ensures ParseList(r) == InvalidDesc("Unknown type: ")
  {
    AtomToken("", rest);
    assert "" + "," + rest == r;
    assert Keyword("").None?;
    assert "Unknown type: " + "" == "Unknown type: ";
  }

  /**
   * An atom is the text up to the first comma, or all of the text: a token
   * that is no keyword is reported as "Unknown type: " followed by the
   * token, and a keyword is read with its comma consumed.
   */
  lemma AtomToken(token: string, rest: string)
    requires ',' !in token && !StartsWith(token, '[')
    ensures Keyword(token).None? ==> ParseItem(token + "," + rest) == InvalidDesc("Unknown type: " + token)
    ensures Keyword(token).None? ==> ParseItem(token) == InvalidDesc("Unknown type: " + token)
    ensures Keyword(token).Some? ==> ParseItem(token + "," + rest) == Ok((rest, Keyword(token).value))
    ensures Keyword(token).Some? ==> ParseItem(token) == Ok(([], Keyword(token).value))
  {
    var s := token + "," + rest;
    assert s == token + ("," + rest);
    IndexOfAfter(token, "," + rest, ',');
    assert IndexOf("," + rest, ',') == Some(0);
    assert s[..|token|] == token;
    assert s[|token| + 1..] == rest;
    assert token[..|token|] == token;
    assert !StartsWith(s, '[');
  }

  /** The empty text is an unknown type. */
  lemma FromStrEmpty()
    ensures FromStr("") == InvalidDesc("Unknown type: ")
  {
    assert IndexOf("", ',') == None;
    assert ""[..0] == "";
    assert "Unknown type: " + "" == "Unknown type: ";
  }

  /** No type's text holds a `)`, so a descriptor's first `)` closes its argument list. */
  lemma {:induction false} EmitNoParen(t: FuncType)
    ensures ')' !in Emit(t)
    decreases t, 0
  {
    if t.Struct? {
      MembersNoParen(t.structure, 0);
    } else {
      KeywordChars(t);
    }
  }

  lemma {:induction false} MembersNoParen(st: StructType, i: nat)
    requires i <= |st.fields|
    ensures ')' !in EmitMembers(st, i)
    decreases st, |st.fields| - i
  {
    if i < |st.fields| {
      assert st.fields[i] in st.fields;
      EmitNoParen(st.fields[i].ty);
      MembersNoParen(st, i + 1);
    }
  }

  lemma {:induction false} JoinNoParen(ts: seq<FuncType>)
    ensures ')' !in Join(ts)
    decreases |ts|
  {
    if |ts| > 0 {
      EmitNoParen(ts[0]);
      if |ts| > 1 {
        JoinNoParen(ts[1..]);
      }
    }
  }

  /** The text `FuncDesc::from_str` reads: `(args)ret`. */
  function EmitDesc(d: FuncDesc): string {
    "(" + Join(d.argumentTypes) + ")" + Emit(d.returnType)
  }

  /** A descriptor `(args)ret` splits at its `)`: the return text is read first, then the argument list. */
  lemma DescSplit(args: string, ret: string)
    requires ')' !in args && |ret| > 0 && !IsWhitespace(ret[|ret| - 1])
    ensures ParseFuncDesc("(" + args + ")" + ret)
         == (match FromStr(ret)
             case Err(e) => Err(e)
             case Ok(r) => match ParseList(args) case Err(e) => Err(e) case Ok(a) => Ok(FuncDesc(a, r)))
  {
    var s := "(" + args + ")" + ret;
    assert Trim(s) == s by {
      assert s[|s| - 1] == ret[|ret| - 1];
      TrimNoop(s);
    }
    var body := s[1..];
    assert body == args + (")" + ret);
    assert IndexOf(body, ')') == Some(|args|) by {
      IndexOfAfter(args, ")" + ret, ')');
    }
    assert body[|args| + 1..] == ret;
    assert body[..|args|] == args;
  }

  /** `FuncDesc::from_str` reads back every descriptor whose argument list and return type read back. */
  lemma FuncDescRoundTrip(d: FuncDesc)
    requires ListPrintable(d.argumentTypes) && LaidOut(d.returnType) && Printable(d.returnType, false)
    ensures ParseFuncDesc(EmitDesc(d)) == Ok(d)
  {
    var e := Emit(d.returnType);
    if d.returnType.Struct? {
      var st := d.returnType.structure;
      assert d.returnType == Struct(st);
      assert e == EmitStruct(st) == "[" + EmitMembers(st, 0) + "]";
    } else {
      KeywordChars(d.returnType);
    }
    JoinNoParen(d.argumentTypes);
    DescSplit(Join(d.argumentTypes), e);
    FromStrRoundTrip(d.returnType);
    ListRoundTrip(d.argumentTypes);
  }

  /** Without a leading `(` (after trimming) the descriptor is rejected. */
  lemma FuncDescBadStart(s: string)
    requires !StartsWith(Trim(s), '(')
    ensures ParseFuncDesc(s) == InvalidDesc("Invalid descriptor start")
  {
  }

  /** Without a `)` after the `(` the descriptor is rejected. */
  lemma FuncDescBadEnd(s: string)
    requires StartsWith(Trim(s), '(') && ')' !in Trim(s)
    ensures ParseFuncDesc(s) == InvalidDesc("Invalid descriptor end")
  {
    assert ')' !in Trim(s)[1..];
  }

  /** The return type is parsed before the arguments, so its error is the one reported whatever the arguments hold. */
  lemma FuncDescReturnFirst(args: string, ret: string)
    requires ')' !in args && |ret| > 0 && !IsWhitespace(ret[|ret| - 1]) && FromStr(ret).Err?
    ensures ParseFuncDesc("(" + args + ")" + ret) == Err(FromStr(ret).error)
  {
    DescSplit(args, ret);
  }
}
