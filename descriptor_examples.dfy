/**
 * The descriptor examples the repository's unit tests check
 * (src/interface.rs:412-440, src/structure.rs:113-123), as instances of
 * the round-trip theorems of `DescriptorProps`, and the parser's quirks on
 * concrete text.
 */
module DescriptorExamples {
  import opened Wrappers
  import opened StrUtil
  import opened Errors
  import opened Internal
  import opened Types
  import opened Descriptor
  import opened DescriptorProps

  /** `test_simple`: atoms parse to their kinds. */
  lemma AtomExamples(text: string, t: FuncType)
    requires || (text == "void" && t == Void) || (text == "float" && t == Float) || (text == "i64" && t == S64)
             || (text == "&str" && t == RefStringPtr) || (text == "*" && t == Pointer)
    ensures FromStr(text) == Ok(t)
  {
    AtomItem(t, "");
    assert text == KeywordOf(t);
  }

  const Empty := New([])
  const OfF32 := New([F32])
  const OfF32F64 := New([F32, F64])
  const OfI32I64 := New([S32, S64])
  const OfI64 := New([S64])
  const OfI32OfI64 := New([S32, Struct(OfI64)])

  /** The text and readability of an aggregate with no members. */
  lemma EmptyText()
    ensures EmitStruct(Empty) == "[]"
    ensures LaidOutStruct(Empty) && PrintableMembers(Empty, 0, false) && PrintableMembers(Empty, 0, true)
  {
  }

  lemma F32Text()
    ensures EmitStruct(OfF32) == "[f32]"
    ensures LaidOutStruct(OfF32) && PrintableMembers(OfF32, 0, false)
  {
    assert OfF32.fields[0].ty == F32;
    assert EmitMembers(OfF32, 1) == "";
    assert PrintableMembers(OfF32, 1, false);
  }

  lemma F32F64Text()
    ensures EmitStruct(OfF32F64) == "[f32,f64]"
    ensures LaidOutStruct(OfF32F64) && PrintableMembers(OfF32F64, 0, false)
  {
    var st := OfF32F64;
    assert st.fields[0].ty == F32 && st.fields[1].ty == F64;
    assert EmitMembers(st, 2) == "";
    assert EmitMembers(st, 1) == "f64";
    assert PrintableMembers(st, 1, false);
  }

  lemma I32I64Text()
    ensures EmitStruct(OfI32I64) == "[i32,i64]"
    ensures LaidOutStruct(OfI32I64) && PrintableMembers(OfI32I64, 0, false)
  {
    var st := OfI32I64;
    assert st.fields[0].ty == S32 && st.fields[1].ty == S64;
    assert EmitMembers(st, 2) == "";
    assert EmitMembers(st, 1) == "i64";
    assert PrintableMembers(st, 1, false);
  }

  lemma I64Text()
    ensures EmitStruct(OfI64) == "[i64]"
    ensures LaidOutStruct(OfI64) && PrintableMembers(OfI64, 0, false)
  {
    assert OfI64.fields[0].ty == S64;
    assert EmitMembers(OfI64, 1) == "";
    assert PrintableMembers(OfI64, 1, false);
  }

  lemma I32OfI64Text()
    ensures EmitStruct(OfI32OfI64) == "[i32,[i64]]"
    ensures LaidOutStruct(OfI32OfI64) && PrintableMembers(OfI32OfI64, 0, false)
  {
    var st := OfI32OfI64;
    I64Text();
    assert st.fields[0].ty == S32 && st.fields[1].ty == Struct(OfI64);
    assert EmitMembers(st, 2) == "";
    assert Emit(Struct(OfI64)) == "[i64]";
    assert EmitMembers(st, 1) == "[i64]";
    assert EmitMembers(st, 0) == "i32" + "," + "[i64]";
    assert "[" + ("i32" + "," + "[i64]") + "]" == "[i32,[i64]]";
    assert PrintableMembers(st, 2, false);
    assert Printable(Struct(OfI64), false);
    assert PrintableMembers(st, 1, false);
    assert forall f | f in st.fields :: LaidOut(f.ty);
  }

  /** A two-member aggregate of two given members. */
  lemma PairText(a: FuncType, b: StructType, aText: string, bText: string)
    requires !a.Struct? && KeywordOf(a) == aText
    requires EmitStruct(b) == bText && LaidOutStruct(b) && PrintableMembers(b, 0, false)
    ensures EmitStruct(New([a, Struct(b)])) == "[" + (aText + "," + bText) + "]"
    ensures LaidOutStruct(New([a, Struct(b)])) && PrintableMembers(New([a, Struct(b)]), 0, false)
  {
    var st := New([a, Struct(b)]);
    assert st.fields[0].ty == a && st.fields[1].ty == Struct(b);
    assert EmitMembers(st, 2) == "";
    assert Emit(Struct(b)) == bText;
    assert EmitMembers(st, 1) == bText;
    assert EmitMembers(st, 0) == aText + "," + bText;
    assert PrintableMembers(st, 2, false);
    assert Printable(Struct(b), false);
    assert PrintableMembers(st, 1, false);
    assert forall f | f in st.fields :: LaidOut(f.ty);
  }

  /** `test_struct`. */
  lemma StructExamples(text: string, st: StructType)
    requires || (text == "[]" && st == Empty) || (text == "[f32]" && st == OfF32)
             || (text == "[f32,f64]" && st == OfF32F64)
    ensures FromStr(text) == Ok(Struct(st))
  {
    if st == Empty {
      EmptyText();
    } else if st == OfF32 {
      F32Text();
    } else {
      F32F64Text();
    }
    assert Emit(Struct(st)) == text;
    FromStrRoundTrip(Struct(st));
  }

  /** `test_inner_struct`: `[[]]`. */
  lemma NestedEmptyExample(text: string)
    requires text == "[[]]"
    ensures FromStr(text) == Ok(Struct(New([Struct(Empty)])))
  {
    EmptyText();
    var one := New([Struct(Empty)]);
    assert one.fields[0].ty == Struct(Empty);
    assert EmitMembers(one, 1) == "";
    assert Emit(Struct(Empty)) == "[]";
    assert EmitMembers(one, 0) == "[]";
    assert forall f | f in one.fields :: LaidOut(f.ty);
    assert PrintableMembers(one, 1, false);
    var t := Struct(one);
    assert Emit(t) == EmitStruct(one);
    assert "[" + "[]" + "]" == text;
    FromStrRoundTrip(t);
  }

  /** `test_inner_struct`: `[[],[]]`. */
  lemma TwoEmptyExample(text: string)
    requires text == "[[],[]]"
    ensures FromStr(text) == Ok(Struct(New([Struct(Empty), Struct(Empty)])))
  {
    EmptyText();
    var two := New([Struct(Empty), Struct(Empty)]);
    assert two.fields[0].ty == Struct(Empty) && two.fields[1].ty == Struct(Empty);
    assert EmitMembers(two, 2) == "";
    assert Emit(Struct(Empty)) == "[]";
    assert EmitMembers(two, 1) == "[]";
    assert EmitMembers(two, 0) == "[]" + "," + "[]";
    assert PrintableMembers(two, 2, false);
    assert Printable(Struct(Empty), false) && Printable(Struct(Empty), true);
    assert PrintableMembers(two, 1, false);
    assert forall f | f in two.fields :: LaidOut(f.ty);
    var t := Struct(two);
    assert Emit(t) == EmitStruct(two);
    assert "[" + ("[]" + "," + "[]") + "]" == text;
    FromStrRoundTrip(t);
  }

  /** A two-member aggregate of an atom and an aggregate reads back from its text. */
  lemma PairFromStr(a: FuncType, b: StructType, aText: string, bText: string, text: string)
    requires !a.Struct? && KeywordOf(a) == aText
    requires EmitStruct(b) == bText && LaidOutStruct(b) && PrintableMembers(b, 0, false)
    requires text == "[" + (aText + "," + bText) + "]"
    ensures FromStr(text) == Ok(Struct(New([a, Struct(b)])))
  {
    PairText(a, b, aText, bText);
    var t := Struct(New([a, Struct(b)]));
    assert Emit(t) == EmitStruct(t.structure);
    FromStrRoundTrip(t);
  }

  /** `test_inner_struct`: `[f32,[]]`. */
  lemma F32EmptyExample(text: string)
    requires text == "[f32,[]]"
    ensures FromStr(text) == Ok(Struct(New([F32, Struct(Empty)])))
  {
    EmptyText();
    assert "[" + ("f32" + "," + "[]") + "]" == text;
    PairFromStr(F32, Empty, "f32", "[]", text);
  }

  /** `test_inner_struct`: `[f32,[i32,i64]]`. */
  lemma F32OfI32I64Example(text: string)
    requires text == "[f32,[i32,i64]]"
    ensures FromStr(text) == Ok(Struct(New([F32, Struct(OfI32I64)])))
  {
    I32I64Text();
    assert "[" + ("f32" + "," + "[i32,i64]") + "]" == text;
    PairFromStr(F32, OfI32I64, "f32", "[i32,i64]", text);
  }

  /** `test_inner_struct`: `[f32,[i32,[i64]]]`. */
  lemma DeepExample(text: string)
    requires text == "[f32,[i32,[i64]]]"
    ensures FromStr(text) == Ok(Struct(New([F32, Struct(OfI32OfI64)])))
  {
    I32OfI64Text();
    assert "[" + ("f32" + "," + "[i32,[i64]]") + "]" == text;
    PairFromStr(F32, OfI32OfI64, "f32", "[i32,[i64]]", text);
  }

  /** `test_simple_desc`: `(i8,i8)i16`. */
  lemma DescExample()
    ensures ParseFuncDesc("(i8,i8)i16") == Ok(FuncDesc([S8, S8], S16))
  {
    var d := FuncDesc([S8, S8], S16);
    assert Join([S8, S8][1..]) == "i8";
    assert Join([S8, S8]) == "i8,i8";
    assert EmitDesc(d) == "(i8,i8)i16";
    FuncDescRoundTrip(d);
  }

  /** structure.rs `test_simple`: `StructType::from_str("[]")`. */
  lemma StructFromStrEmpty()
    ensures StructFromStr("[]") == Ok(Empty)
  {
    EmptyText();
    StructRoundTrip(Empty, "");
    assert "[]" + "" == "[]";
  }

  lemma LiteralInner(text: string)
    requires text == "[i32,[f32]]"
    ensures "[" + ("i32" + "," + "[f32]") + "]" == text
  {
  }

  /** structure.rs `test_inner`: `StructType::from_str("[i32,[f32]]")`. */
  lemma StructFromStrInner(text: string)
    requires text == "[i32,[f32]]"
    ensures StructFromStr(text) == Ok(New([S32, Struct(OfF32)]))
  {
    F32Text();
    PairText(S32, OfF32, "i32", "[f32]");
    var st := New([S32, Struct(OfF32)]);
    StructRoundTrip(st, "");
    LiteralInner(text);
    assert EmitStruct(st) + "" == EmitStruct(st);
  }

  /**
   * A member aggregate followed by a sibling: the inner atom's token runs to
   * the sibling's comma, so `[[i32],f32]` fails on the token `i32]`.
   */
  lemma NestedThenSibling(text: string)
    requires text == "[[i32],f32]"
    ensures FromStr(text) == InvalidDesc("Unknown type: i32]")
  {
    var inner := "[i32],f32]";
    OpenClose(inner, "", []);
    assert text == "[" + inner;
    InnerThenSibling(inner);
    OuterSeesInnerError(inner);
  }

  lemma OuterSeesInnerError(inner: string)
    requires inner == "[i32],f32]"
    requires ParseStruct(inner) == InvalidDesc("Unknown type: i32]")
    ensures ParseFields(inner, []) == InvalidDesc("Unknown type: i32]")
  {
    assert StartsWith(inner, '[') && !StartsWith(inner, ']');
  }

  lemma InnerThenSibling(inner: string)
    requires inner == "[i32],f32]"
    ensures ParseStruct(inner) == InvalidDesc("Unknown type: i32]")
  {
    assert inner[1..] == "i32],f32]";
    SiblingToken(inner[1..]);
  }

  lemma SiblingToken(str: string)
    requires str == "i32],f32]"
    ensures ParseFields(str, []) == InvalidDesc("Unknown type: i32]")
  {
    assert IndexOf(str, ',') == Some(4);
    assert str[..4] == "i32]";
    UnknownToken(str[..4]);
  }

  /** A token with no comma that is no keyword is reported as unknown. */
  lemma UnknownToken(token: string)
    requires token == "i32]"
    ensures ParseItem(token) == InvalidDesc("Unknown type: i32]")
  {
    assert !StartsWith(token, '[');
    assert IndexOf(token, ',') == None;
    assert token[..|token|] == token;
    assert Keyword(token) == None;
    assert "Unknown type: " + token == "Unknown type: i32]";
  }

  /** Text that ends before a `]` is found: "Struct without end". */
  lemma StructWithoutEnd(text: string)
    requires text == "[" || text == "[i32" || text == "[i32,"
    ensures FromStr(text) == InvalidDesc("Struct without end")
  {
    if text == "[" {
      OpenOnly(text);
    } else if text == "[i32" {
      OpenAtom(text);
    } else {
      OpenAtomComma(text);
    }
  }

  lemma OpenOnly(text: string)
    requires text == "["
    ensures FromStr(text) == InvalidDesc("Struct without end")
  {
    OpenClose("", "", []);
    assert text == "[" + "";
  }

  lemma OpenAtom(text: string)
    requires text == "[i32"
    ensures FromStr(text) == InvalidDesc("Struct without end")
  {
    OpenClose("i32", "", []);
    assert text == "[" + "i32";
    assert IndexOf("i32", ',') == None && IndexOf("i32", ']') == None;
  }

  lemma OpenAtomComma(text: string)
    requires text == "[i32,"
    ensures FromStr(text) == InvalidDesc("Struct without end")
  {
    AtomThenEnd(S32);
    assert text == "[" + (KeywordOf(S32) + ("," + ""));
  }

  /** An atom and its comma, with no `]` after them. */
  lemma AtomThenEnd(t: FuncType)
    requires !t.Struct?
    ensures FromStr("[" + (KeywordOf(t) + ("," + ""))) == InvalidDesc("Struct without end")
  {
    var rest := KeywordOf(t) + ("," + "");
    OpenClose(rest, "", []);
    AtomMemberStep(t, "", []);
    assert ParseFields("", [t]) == InvalidDesc("Struct without end");
    assert StartsWith("[" + rest, '[');
  }

  /** A trailing comma before `]` is accepted. */
  lemma TrailingCommaInStruct(text: string)
    requires text == "[i32,]"
    ensures FromStr(text) == Ok(Struct(New([S32])))
  {
    AtomCommaClose(S32);
    assert text == "[" + (KeywordOf(S32) + ("," + "]"));
  }

  /** An atom, its comma and the closing `]`. */
  lemma AtomCommaClose(t: FuncType)
    requires !t.Struct?
    ensures FromStr("[" + (KeywordOf(t) + ("," + "]"))) == Ok(Struct(New([t])))
  {
    var rest := KeywordOf(t) + ("," + "]");
    OpenClose(rest, "", [t]);
    AtomMemberStep(t, "]", []);
    assert "]" == "]" + "";
    assert [] + [t] == [t];
    assert StartsWith("[" + rest, '[');
  }

  /** `StructType::from_str` discards the text after the closing `]`. */
  lemma StructFromStrDiscardsRest(text: string)
    requires text == "[]i32"
    ensures StructFromStr(text) == Ok(Empty)
  {
    OpenClose("]i32", "i32", []);
    assert text == "[" + ("]" + "i32");
  }

  /** An aggregate argument followed by another argument is rejected. */
  lemma AggregateArgumentFirst(text: string)
    requires text == "[],i32"
    ensures ParseList(text) == InvalidDesc("Unknown type: ")
  {
    EmptyText();
    AggregateThenItem(Empty, "i32");
    assert EmitStruct(Empty) + "," + "i32" == text;
  }
}
