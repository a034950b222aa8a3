/**
 * The descriptor language: atoms from a fixed keyword table, `[...]`
 * aggregates and `(args)ret` function descriptors (src/interface.rs,
 * src/structure.rs). The source slices by byte offsets; every delimiter
 * it looks for is ASCII, so its offsets and the character offsets used
 * here mark the same places.
 */
module Descriptor {
  import opened Wrappers
  import opened StrUtil
  import opened Errors
  import opened Internal
  import opened Types

  /** `FuncType::_from_str`: exact match against the keyword table. */
  function Keyword(token: string): (r: Option<FuncType>)
    ensures r.Some? ==> |token| > 0 && !r.value.Struct?
  {
    if token == "auto" || token == "?" then Some(Auto)
    else if token == "void" then Some(Void)
    else if token == "int" then Some(Int)
    else if token == "float" then Some(Float)
    else if token == "double" then Some(Double)
    else if token == "longdouble" then Some(LongDouble)
    else if token == "isize" then Some(ISize)
    else if token == "usize" then Some(USize)
    else if token == "i8" then Some(S8)
    else if token == "i16" then Some(S16)
    else if token == "i32" then Some(S32)
    else if token == "i64" then Some(S64)
    else if token == "u8" then Some(U8)
    else if token == "u16" then Some(U16)
    else if token == "u32" then Some(U32)
    else if token == "u64" then Some(U64)
    else if token == "f32" then Some(F32)
    else if token == "f64" then Some(F64)
    else if token == "f128" then Some(F128)
    else if token == "*" then Some(Pointer)
    else if token == "&str" then Some(RefStringPtr)
    else if token == "*str" then Some(BorrowStringPtr)
    else if token == "&[]" then Some(RefArrayPtr)
    else if token == "*[]" then Some(BorrowArrayPtr)
    else None
  }

  /** Drops one leading comma, as the aggregate loop does after every member. */
  function SkipComma(s: string): (r: string)
    ensures r == s || (|s| > 0 && s[0] == ',' && r == s[1..])
  {
    if StartsWith(s, ',') then s[1..] else s
  }

  /**
   * `FuncType::__from_str`: one item and the text after it. An aggregate
   * runs to its matching `]`; an atom runs to the first comma (or the end),
   * and that comma, if any, is consumed.
   */
  function ParseItem(s: string): (r: Result<(string, FuncType)>)
    ensures r.Ok? ==> |r.value.0| < |s|
    decreases |s|, 2
  {
    if StartsWith(s, '[') then
      var p :- ParseStruct(s);
      Ok((p.0, Struct(p.1)))
    else
      var next := match IndexOf(s, ',') case Some(i) => i case None => |s|;
      match Keyword(s[..next])
      case None => InvalidDesc("Unknown type: " + s[..next])
      case Some(t) => Ok((s[Min(next + 1, |s|)..], t))
  }

  /**
   * `StructType::_from_str`: drops the first character unchecked (slicing
   * after a non-ASCII one would panic), then reads members up to `]`.
   */
  function ParseStruct(s: string): (r: Result<(string, StructType)>)
    requires |s| > 0 && (s[0] as int) < 128
    ensures r.Ok? ==> |r.value.0| < |s|
    decreases |s|, 1
  {
    ParseFields(s[1..], [])
  }

  /** The member loop of `StructType::_from_str`, with the members read so far. */
  function ParseFields(str: string, fields: seq<FuncType>): (r: Result<(string, StructType)>)
    ensures r.Ok? ==> |r.value.0| < |str|
    decreases |str|, 2
  {
    if StartsWith(str, ']') then Ok((str[1..], New(fields)))
    else if StartsWith(str, '[') then
      var p :- ParseStruct(str);
      ParseFields(SkipComma(p.0), fields + [Struct(p.1)])
    else
      match (match IndexOf(str, ',') case Some(i) => Some(i) case None => IndexOf(str, ']'))
      case None => InvalidDesc("Struct without end")
      case Some(next) =>
        var item :- ParseItem(str[..next]);
        ParseFields(SkipComma(str[next..]), fields + [item.1])
  }

  /** The list `FuncType::from_str_list` builds: items read until no text is left. */
  function ParseList(s: string): (r: Result<seq<FuncType>>)
    decreases |s|
  {
    if |s| == 0 then Ok([])
    else
      var p :- ParseItem(s);
      var rest :- ParseList(p.0);
      Ok([p.1] + rest)
  }

  /** `FuncType::from_str`: the first item; whatever follows it is discarded. */
  function FromStr(s: string): (r: Result<FuncType>)
    ensures r.Ok? <==> ParseItem(s).Ok?
    ensures r.Ok? ==> r.value == ParseItem(s).value.1
  {
    var p :- ParseItem(s);
    Ok(p.1)
  }

  /** `StructType::from_str`: the aggregate; whatever follows its `]` is discarded. */
  function StructFromStr(s: string): (r: Result<StructType>)
    requires |s| > 0 && (s[0] as int) < 128
    ensures r.Ok? <==> ParseStruct(s).Ok?
    ensures r.Ok? ==> r.value == ParseStruct(s).value.1
  {
    var p :- ParseStruct(s);
    Ok(p.1)
  }

  /**
   * `FuncDesc::from_str`: trimmed text `(args)ret`. The return type (the
   * text after the first `)`) is parsed before the argument list.
   */
  function ParseFuncDesc(s: string): (r: Result<FuncDesc>)
  {
    ParseTrimmedDesc(Trim(s))
  }

  /** The descriptor parser once the text is trimmed. */
  function ParseTrimmedDesc(t: string): (r: Result<FuncDesc>)
  {
    if !StartsWith(t, '(') then InvalidDesc("Invalid descriptor start")
    else
      var body := t[1..];
      match IndexOf(body, ')')
      case None => InvalidDesc("Invalid descriptor end")
      case Some(end) =>
        var ret :- FromStr(body[end + 1..]);
        var args :- ParseList(body[..end]);
        Ok(FuncDesc(args, ret))
  }

  /** `FuncType::from_str_list`: the loop that advances through the text pushing items. */
  method FromStrList(s: string) returns (r: Result<seq<FuncType>>)
    ensures r == ParseList(s)
  {
    var str := s;
    var list: seq<FuncType> := [];
    if ParseList(s).Ok? {
      assert list + ParseList(s).value == ParseList(s).value;
    }
    while |str| > 0
      invariant ParseList(s) == (match ParseList(str) case Ok(rest) => Ok(list + rest) case Err(e) => Err(e))
      decreases |str|
    {
      var p := ParseItem(str);
      if p.Err? {
        return Err(p.error);
      }
      assert ParseList(str) == (match ParseList(p.value.0) case Ok(rest) => Ok([p.value.1] + rest) case Err(e) => Err(e));
      if ParseList(p.value.0).Ok? {
        assert list + ([p.value.1] + ParseList(p.value.0).value) == (list + [p.value.1]) + ParseList(p.value.0).value;
      }
      str := p.value.0;
      list := list + [p.value.1];
    }
    assert list + [] == list;
    return Ok(list);
  }

  /** `StructType::_from_str` as written: a loop over the members, recursing on a nested `[`. */
  method StructFromStrPrefix(s: string) returns (r: Result<(string, StructType)>)
    requires |s| > 0 && (s[0] as int) < 128
    ensures r == ParseStruct(s)
    decreases |s|
  {
    var str := s[1..];
    var fields: seq<FuncType> := [];
    while !StartsWith(str, ']')
      invariant |str| < |s|
      invariant ParseStruct(s) == ParseFields(str, fields)
      decreases |str|
    {
      if StartsWith(str, '[') {
        var nested := StructFromStrPrefix(str);
        if nested.Err? {
          return Err(nested.error);
        }
        str := nested.value.0;
        fields := fields + [Struct(nested.value.1)];
      } else {
        var next := IndexOf(str, ',');
        if next.None? {
          next := IndexOf(str, ']');
        }
        if next.None? {
          return InvalidDesc("Struct without end");
        }
        var item := ParseItem(str[..next.value]);
        if item.Err? {
          return Err(item.error);
        }
        fields := fields + [item.value.1];
        str := str[next.value..];
      }
      if StartsWith(str, ',') {
        str := str[1..];
      }
    }
    var st := NewStruct(fields);
    return Ok((str[1..], st));
  }
}
