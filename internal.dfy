/** The character and string helpers of src/internal.rs that the parser and the cache use. */
module Internal {
  import opened Wrappers
  import opened Bytes
  import opened CText
  import opened Errors

  /** `starts_with`: the first character of `s` is `first` (false on empty text). */
  function StartsWith(s: string, first: char): (r: bool)
    ensures r <==> [first] <= s
  {
    if |s| == 0 then false else s[0] == first
  }

  /**
   * `ends_with`: looks up the character at index `len() - 1`, where `len()`
   * counts UTF-8 bytes. Only ASCII text has a character there, so the answer
   * is "the last character is `end`" for ASCII text and false otherwise. The
   * source underflows on empty text; its only caller passes non-empty text.
   */
  function EndsWith(s: string, end: char): (r: bool)
    requires |s| > 0
    ensures r <==> IsAscii(s) && s[|s| - 1] == end
  {
    Utf8LenAscii(s);
    var i := |Utf8Encode(s)| - 1;
    if i < |s| then s[i] == end else false
  }

  /** `try_str_to_c_string`: fails exactly when the text holds a NUL; otherwise its bytes, terminated. */
  function TryStrToCString(input: string): (r: Result<seq<byte>>)
    ensures r.Err? <==> '\0' in input
    ensures r.Err? ==> r.error == RustStringToCString
    ensures r.Ok? ==> 0 in r.value && CStrOf(r.value) == Utf8Encode(input)
    ensures r.Ok? ==> TryCConstCharToString(r.value) == Some(input)
  {
    if '\0' in input then Err(RustStringToCString)
    else
      var bytes := Utf8Encode(input) + [0];
      CStrOfAt(bytes, |bytes| - 1);
      DecodeEncode(input);
      Ok(bytes)
  }
}
