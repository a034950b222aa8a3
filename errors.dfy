/** The crate's error sum type and its constructors (src/error.rs). */
module Errors {
  import opened Wrappers
  import opened Bytes
  import opened CText

  /** Every failure the crate reports; six kinds carry an optional text. */
  datatype Error =
    | RustStringToCString
    | CStringToRustString
    | LibraryOpen(text: Option<string>)
    | LibrarySymbol(text: Option<string>)
    | LibraryClose(text: Option<string>)
    | FFIBadTypeDef
    | FFIBadABI
    | FFIBadArgType
    | InvalidDescriptor(text: Option<string>)
    | InvalidCast(text: Option<string>)
    | InvalidArguments(text: Option<string>)

  /** Rust's `Result<T, Error>`, usable with `:-` like the source's `?`. */
  datatype Result<+T> = Ok(value: T) | Err(error: Error) {
    predicate IsFailure() { Err? }

    function PropagateFailure<U>(): Result<U>
      requires Err?
    {
      Err(error)
    }

    function Extract(): T
      requires Ok?
    {
      value
    }
  }

  /** The kinds that carry an optional text payload. */
  predicate CarriesText(e: Error) {
    e.LibraryOpen? || e.LibrarySymbol? || e.LibraryClose?
    || e.InvalidDescriptor? || e.InvalidCast? || e.InvalidArguments?
  }

  /** `Error::get_message`. */
  function GetMessage(e: Error): (r: Option<string>)
    ensures !CarriesText(e) ==> r == None
    ensures CarriesText(e) ==> r == e.text
  {
    match e
    case RustStringToCString | CStringToRustString | FFIBadTypeDef | FFIBadABI | FFIBadArgType => None
    case LibraryOpen(t) => t
    case LibrarySymbol(t) => t
    case LibraryClose(t) => t
    case InvalidDescriptor(t) => t
    case InvalidCast(t) => t
    case InvalidArguments(t) => t
  }

  /** `Error::lib_open_from_cstr`: the loader's C diagnostic, as text when it is UTF-8. */
  function LibOpenFromCStr<T>(str: seq<byte>): (r: Result<T>)
    requires 0 in str
    ensures r.Err? && r.error.LibraryOpen?
    ensures GetMessage(r.error) == TryCConstCharToString(str)
  {
    Err(LibraryOpen(TryCConstCharToString(str)))
  }

  /** `Error::lib_symbol_from_cstr`. */
  function LibSymbolFromCStr<T>(str: seq<byte>): (r: Result<T>)
    requires 0 in str
    ensures r.Err? && r.error.LibrarySymbol?
    ensures GetMessage(r.error) == TryCConstCharToString(str)
  {
    Err(LibrarySymbol(TryCConstCharToString(str)))
  }

  /** `Error::lib_close_from_cstr`. */
  function LibCloseFromCStr<T>(str: seq<byte>): (r: Result<T>)
    requires 0 in str
    ensures r.Err? && r.error.LibraryClose?
    ensures GetMessage(r.error) == TryCConstCharToString(str)
  {
    Err(LibraryClose(TryCConstCharToString(str)))
  }

  /** `Error::invalid_desc_from_str` and `Error::invalid_desc_from_string` (they differ only in string ownership). */
  function InvalidDesc<T>(msg: string): (r: Result<T>)
    ensures r.Err? && r.error.InvalidDescriptor? && GetMessage(r.error) == Some(msg)
  {
    Err(InvalidDescriptor(Some(msg)))
  }

  /** `Error::invalid_cast_from_string`. */
  function InvalidCastMsg<T>(msg: string): (r: Result<T>)
    ensures r.Err? && r.error.InvalidCast? && GetMessage(r.error) == Some(msg)
  {
    Err(InvalidCast(Some(msg)))
  }

  /** `Error::invalid_args_from_string`. */
  function InvalidArgs<T>(msg: string): (r: Result<T>)
    ensures r.Err? && r.error.InvalidArguments? && GetMessage(r.error) == Some(msg)
  {
    Err(InvalidArguments(Some(msg)))
  }
}
