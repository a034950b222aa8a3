# libsffi core, modelled in Dafny

libsffi calls native functions whose signatures arrive as text. This project models its core:

- **Descriptor language.** Atoms such as `i32`, `&str` or `?`, aggregates `[T1,...,Tn]` and function descriptors `(args)ret`.
- **Type model.** `FuncType`, `StructType` and `FuncDesc`: sizes, pointer classification, display text, and the packed layout of aggregates.
- **Raw member access.** Zeroed aggregate buffers, and the in-place copy of one member's bytes in or out.
- **Translation into libffi types.** `FuncDescHelper`, plus the status mapping of `FuncHandle::new`.
- **`Adapter`.** It parses a target signature and coerces every value through a precedence-ordered cast matrix. It does this when passing arguments to a prepared function, when casting its return value back, and when storing into or loading from an aggregate's members.
- **`LibHandle` cache.** A singly-linked list of prepared functions, looked up by C name and extended at the head, with its teardown.
- **Support code.** The error type, its message projection, and the C-string helpers.

The target is 64-bit x86: `c_int` is 4 bytes, `isize`/`usize` 8, and integer stores are little-endian.

Module layout, following the crate:

| module | file | source |
|---|---|---|
| `Wrappers`, `StrUtil`, `Bytes`, `CText` | wrappers.dfy, strutil.dfy, bytes.dfy, ctext.dfy | the pieces of Rust's standard library the core relies on: `Option`, `trim`, `find`, number formats, little-endian integers, `CStr`/UTF-8 |
| `Errors` | errors.dfy | src/error.rs |
| `Internal` | internal.dfy, ctext.dfy | src/internal.rs |
| `Types` | types.dfy | src/interface.rs and src/structure.rs (type model, `size`, `is_*`, `Display`, `StructType::new`) |
| `Descriptor` | descriptor.dfy | the parsers of src/interface.rs and src/structure.rs |
| `DescriptorProps`, `DescriptorExamples` | descriptor_props.dfy, descriptor_examples.dfy | keyword table, round trips, quirks, and the unit tests in those files |
| `Structure` | structure.dfy | src/structure.rs (`calloc`, `set_raw`, `get_raw`) |
| `Ffi` | ffi.dfy | `FuncDescHelper` and `FuncHandle::new` in src/interface.rs |
| `Coerce` | coerce.dfy | `Adapter::_call_cast_type` in src/adapter.rs |
| `Adapters` | adapter.dfy | the rest of src/adapter.rs |
| `Library` | library.dfy | src/library.rs |

### How the source's forms map into Dafny

- **Imperative code becomes methods.** Each method is proved equal to a specification function, and the properties are proved about that function. The methods are:
  - `FuncType::from_str_list` → `Descriptor.FromStrList`
  - `StructType::_from_str` → `Descriptor.StructFromStrPrefix`
  - `StructType::new` → `Types.NewStruct`
  - `type_into_ffi_type` → `Ffi.TypeIntoFfiType`
  - `FuncDescHelper::new` → `Ffi.NewHelper`
  - `set_raw`/`get_raw` → `Structure.SetRaw`/`GetRaw` on an `array<byte>`
  - `_call_cast_type` → `Coerce.CallCastType`
  - `_set`/`_get`/`_call` → `Adapters.Set`/`Get`/`Call`
- **`LibHandle` becomes a class.** Its `functions` field points to immutable list nodes. A ghost sequence `nodes` records the list, so the cache can be read as a sequence of `(name, handle)` entries.

### Foreign code becomes parameters

Code outside the core is passed in as parameters:

- The platform loader: `openLibrary`, and `resolve` for `dlsym`.
- libffi's `ffi_prep_cif` status, as `prep`.
- The native callee, as `invoke`.
- The float conversions and `strdup`, as the `Natives` record.

The pointer-kind `size()` casts the function item `size_of::<isize>` to `c_uint`, not its result, so its value is an address. It is the uninterpreted constant `Types.PointerFieldSize`.

## Model

| member | source | states |
|---|---|---|
| Errors.GetMessage | src/error.rs:21-37 | None for the five kinds without a payload; the payload (present or not) for the six message-carrying kinds |
| Errors.LibOpenFromCStr | src/error.rs:39-41 | a `LibraryOpen` error whose message is the C string decoded as UTF-8, or None when it is not UTF-8 |
| Errors.LibSymbolFromCStr | src/error.rs:43-45 | the same for `LibrarySymbol` |
| Errors.LibCloseFromCStr | src/error.rs:47-49 | the same for `LibraryClose` |
| Errors.InvalidDesc | src/error.rs:51-57 | an `InvalidDescriptor` error carrying exactly the given message |
| Errors.InvalidCastMsg | src/error.rs:59-61 | an `InvalidCast` error carrying exactly the given message |
| Errors.InvalidArgs | src/error.rs:63-65 | an `InvalidArguments` error carrying exactly the given message |
| Internal.TryStrToCString | src/internal.rs:4-6 | fails with `RustStringToCString` exactly when the text holds a NUL; otherwise a terminated buffer whose C string is the UTF-8 encoding of the text and decodes back to it |
| CText.TryCConstCharToString | src/internal.rs:16-18 | None exactly when no text encodes to the bytes before the first NUL, i.e. they are not UTF-8; a returned text re-encodes to exactly those bytes |
| CText.CmpCConstChar | src/internal.rs:24-26 | true iff both buffers agree on every byte up to and including the first buffer's terminator, i.e. the two C strings are identical |
| CText.DupCConstChar | src/internal.rs:28-30 | the copy is a terminated C string equal to the original under `CmpCConstChar`, one byte longer than its text |
| Internal.StartsWith | src/internal.rs:36-42 | true iff the text is non-empty and begins with the character |
| Internal.EndsWith | src/internal.rs:44-50 | true iff the text is ASCII and its last character is the given one (the index used is a byte length) |
| Types.Size | src/interface.rs:267-295 | 0 for Auto and Void, the native width of each numeric kind (16 for LongDouble and F128), `PointerFieldSize` for the five pointer kinds, the aggregate's own size for Struct |
| Types.IsPtr | src/interface.rs:240-251 | every pointer-classified kind, ISize and USize included, is 8 bytes wide and not Auto |
| Types.NewStruct | src/structure.rs:11-20 | the loop places each field at the running sum of the sizes before it and ends with that sum as the size, keeping the field types in order |
| Types.LayoutOffsets | src/structure.rs:11-20 | field 0 at offset 0, each next offset the previous offset plus the previous size, total size = last offset + last size (0 when empty) |
| Types.LayoutDisjoint | src/structure.rs:11-20 | packed fields never overlap and each lies inside the aggregate |
| Types.LayoutWithin | src/structure.rs:11-20 | every field ends at or before the aggregate's size |
| Descriptor.FromStr | src/interface.rs:179-181 | succeeds iff the first item parses, and yields that item only |
| Descriptor.StructFromStr | src/structure.rs:22-24 | succeeds iff the aggregate prefix parses, and yields the aggregate only |
| Descriptor.FromStrList | src/interface.rs:168-177 | the loop returns exactly the item list of the recursive reading, or its first error |
| Descriptor.StructFromStrPrefix | src/structure.rs:26-47 | the member loop (with recursion on a nested `[`) returns exactly the recursive reading of the aggregate and the text after its `]` |
| DescriptorProps.KeywordTable | src/interface.rs:195-231 | a token names an atom iff it is that atom's keyword, or `?` for Auto |
| DescriptorProps.KeywordExact | src/interface.rs:195-231 | a token that parses is its atom's keyword, or `?` |
| DescriptorProps.AtomToken | src/interface.rs:183-193 | an atom token runs to the first comma; an unknown token fails with "Unknown type: " plus the token, a keyword is read and its comma consumed |
| DescriptorProps.DisplayParses | src/interface.rs:298-334 | printing an atom gives back its keyword, except LongDouble, BorrowStringPtr and BorrowArrayPtr, whose printed forms parse to nothing |
| DescriptorProps.StructRoundTrip | src/structure.rs:26-47 | the text of any laid-out aggregate, followed by a tail it tolerates, parses back to the aggregate and leaves exactly that tail |
| DescriptorProps.FromStrRoundTrip | src/interface.rs:179-193 | every printable type is read back from its descriptor text |
| DescriptorProps.FromStrDiscardsRest | src/interface.rs:179-181 | text after the first item is silently discarded |
| DescriptorProps.FromStrEmpty | src/interface.rs:188-190 | the empty text fails as the unknown type "" |
| DescriptorProps.ListRoundTrip | src/interface.rs:168-177 | a comma-joined list of items reads back as that list |
| DescriptorProps.ListTrailingComma | src/interface.rs:183-191 | a trailing comma after a list ending in an atom is accepted and ignored |
| DescriptorProps.AggregateThenItem | src/interface.rs:168-191 | an aggregate followed by `,X` in a list fails with "Unknown type: " (the comma left after `]` is read as an empty token) |
| DescriptorProps.DescSplit | src/interface.rs:138-152 | `(args)ret` splits at its first `)`: the return text is parsed first, then the argument list, and the first error wins |
| DescriptorProps.FuncDescRoundTrip | src/interface.rs:138-152 | every descriptor whose parts are printable reads back from `(args)ret` |
| DescriptorProps.FuncDescBadStart | src/interface.rs:139-140 | trimmed text not starting with `(` fails with "Invalid descriptor start" |
| DescriptorProps.FuncDescBadEnd | src/interface.rs:141-143 | with no `)` the descriptor fails with "Invalid descriptor end" |
| DescriptorProps.FuncDescReturnFirst | src/interface.rs:144-145 | a bad return type is the error reported, whatever the argument list holds |
| DescriptorExamples.AtomExamples | src/interface.rs:412-419 | `void`, `float`, `i64`, `&str`, `*` parse to their kinds |
| DescriptorExamples.StructExamples | src/interface.rs:421-426 | `[]`, `[f32]`, `[f32,f64]` parse to the packed aggregates |
| DescriptorExamples.NestedEmptyExample | src/interface.rs:428-430 | `[[]]` parses to an aggregate holding an empty aggregate |
| DescriptorExamples.TwoEmptyExample | src/interface.rs:431 | `[[],[]]` parses to two empty members |
| DescriptorExamples.F32EmptyExample | src/interface.rs:432 | `[f32,[]]` |
| DescriptorExamples.F32OfI32I64Example | src/interface.rs:433 | `[f32,[i32,i64]]` |
| DescriptorExamples.DeepExample | src/interface.rs:434 | `[f32,[i32,[i64]]]` |
| DescriptorExamples.DescExample | src/interface.rs:437-440 | `(i8,i8)i16` parses to arguments `[S8,S8]` and return S16 |
| DescriptorExamples.StructFromStrEmpty | src/structure.rs:112-116 | `StructType::from_str("[]")` is the empty aggregate |
| DescriptorExamples.StructFromStrInner | src/structure.rs:118-123 | `[i32,[f32]]` parses with the nested member |
| DescriptorExamples.NestedThenSibling | src/structure.rs:35-37 | `[[i32],f32]` is rejected as unknown type `i32]`: the inner token runs to the sibling's comma |
| DescriptorExamples.UnknownToken | src/interface.rs:188-190 | the token `i32]` is reported as "Unknown type: i32]" |
| DescriptorExamples.StructWithoutEnd | src/structure.rs:35-36 | `[`, `[i32` and `[i32,` fail with "Struct without end" |
| DescriptorExamples.TrailingCommaInStruct | src/structure.rs:42-44 | `[i32,]` is accepted as `[i32]` |
| DescriptorExamples.StructFromStrDiscardsRest | src/structure.rs:22-24 | text after the closing `]` is discarded |
| DescriptorExamples.AggregateArgumentFirst | src/interface.rs:168-191 | the list `[],i32` is rejected |
| Structure.Overwrite | src/structure.rs:70-74 | the written range holds exactly the new bytes, every other byte is unchanged, the length is kept |
| Structure.CopyInto | src/structure.rs:70-74 | the byte loop leaves the buffer equal to `Overwrite` of its old contents |
| Structure.Calloc | src/structure.rs:62-65 | a fresh buffer of `size()` bytes, all zero |
| Structure.SetRaw | src/structure.rs:67-77 | the aggregate buffer becomes `SetRawSpec` of its old contents |
| Structure.GetRaw | src/structure.rs:79-89 | the destination becomes `GetRawSpec` of its old contents |
| Structure.SetRawWritesField | src/structure.rs:67-77 | at a valid index exactly the member's bytes `[offset, offset+size)` are overwritten from the front of the source; all others are kept |
| Structure.OutOfRangeIsNoOp | src/structure.rs:67-89 | an index past the last member changes neither the aggregate nor the destination |
| Structure.GetAfterSet | src/structure.rs:67-89 | reading a member after writing it yields the bytes written |
| Structure.SetKeepsOtherFields | src/structure.rs:67-77 | in a packed aggregate, writing one member leaves every other member's bytes unchanged |
| Ffi.ScalarFfiAsWritten | src/interface.rs:355-382 | as written, Int is described as `sint64`; every other scalar as in `ScalarFfi` |
| Ffi.IntWidthMismatchAsWritten | src/interface.rs:357 | as written, Int's libffi description is 8 bytes while its `size()` is 4 |
| Ffi.ScalarWidthMatches | src/interface.rs:355-382 | with the width test corrected, every scalar's libffi description is exactly as wide as the value the adapter moves (and as its `size()` for non-pointers) |
| Ffi.IntoFfiTypeFails | src/interface.rs:350-354 | translation fails exactly when Auto occurs anywhere in the type, always with "Type 'auto' not supported for call" |
| Ffi.FieldsIntoFfiShape | src/interface.rs:384-389 | a translated member list has one entry per member, each that member's translation |
| Ffi.StructIntoFfi | src/interface.rs:384-401 | an aggregate becomes a struct description of fields+1 elements, the last one null |
| Ffi.TypeIntoFfiType | src/interface.rs:350-405 | the recursive method with its member loop returns exactly `IntoFfiType`; `Int` is described by the corrected arm, `sint32` |
| Ffi.ArgsIntoFfiSpec | src/interface.rs:342-344 | argument translation fails iff some argument contains Auto; otherwise it is elementwise and in order; `Int` is described by the corrected arm, `sint32` |
| Ffi.HelperOfSpec | src/interface.rs:338-348 | the helper is built iff no type of the signature contains Auto, with the return type and each argument translated; `Int` is described by the corrected arm, `sint32` |
| Ffi.NewHelper | src/interface.rs:338-348 | the method with its argument loop returns exactly `HelperOf`; `Int` is described by the corrected arm, `sint32` |
| Ffi.Prepare | src/interface.rs:49-66 | a translation error is returned first; then status OK gives the handle, and BAD_TYPEDEF, BAD_ABI and BAD_ARGTYPE give FFIBadTypeDef, FFIBadABI and FFIBadArgType |
| Ffi.FuncHandleNew | src/interface.rs:45-69 | a parse error wins over everything; otherwise the result of preparing the parsed descriptor |
| Ffi.PrepareOk | src/interface.rs:45-69 | a handle is made iff the signature has no Auto and libffi reports OK, and it holds the descriptor and symbol |
| Ffi.PrepErrorsDistinct | src/interface.rs:61-64 | the three failing statuses give three different errors, none a descriptor error |
| Coerce.StoreInteger | src/adapter.rs:193-256 | an integer is written iff the destination is numeric; integer destinations receive the value modulo 2^width; other destinations fail with "Invalid cast from '…' into '…'" |
| Coerce.CastOutcome | src/adapter.rs:96-300 | a cast succeeds iff a side is Auto, both sides are pointer-like, or both are numeric; a numeric source into a non-numeric destination gives "Invalid cast from …", a source in no family "… unsupported" |
| Coerce.VoidIntoVoid | src/adapter.rs:298 | `void` into `void` is the error "Cast from 'void' into 'void' unsupported" |
| Coerce.AutoRoundTrip | src/adapter.rs:98-170 | with an Auto side the concrete side's bytes are copied verbatim at its width, so writing into Auto and reading back returns the same bytes |
| Coerce.PointerWords | src/adapter.rs:172-180 | two pointer-like kinds copy the 8-byte word verbatim, except RefStringPtr into BorrowStringPtr, which stores the address `strdup` returns |
| Coerce.IntegerCastModulo | src/adapter.rs:182-257 | a signed or unsigned source into an integer destination stores the source's value modulo 2^width |
| Coerce.MinusOneIntoU32 | src/adapter.rs:182-218 | `-1i32` into `u32` stores 4294967295 |
| Coerce.MinusOneIntoI64 | src/adapter.rs:182-218 | `-1i8` into `i64` stores -1 |
| Coerce.SignedWiden | src/adapter.rs:182-218 | widening a signed value keeps its signed value |
| Coerce.SignedWidenNarrow | src/adapter.rs:182-218 | widening a signed value and narrowing it back returns the original bytes |
| Coerce.SameTypeIdentity | src/adapter.rs:172-257 | an integer or pointer value cast to its own type is copied unchanged |
| Coerce.CallCastType | src/adapter.rs:96-300 | on success the destination holds the cast bytes at the given offset and nothing else changes; on error the destination is untouched and the error is the cast's |
| Adapters.AdapterOf | src/adapter.rs:29 | an adapter exists iff the function descriptor parses, with that descriptor as target |
| Adapters.AdapterFromStr | src/adapter.rs:24-36 | text starting with `[` (after leading whitespace) but not ending with `]` fails with "Invalid descriptor end" |
| Adapters.AdapterFromFuncDesc | src/adapter.rs:33-35 | any other text is read exactly as a function descriptor, errors included |
| Adapters.AdapterFromBracket | src/adapter.rs:26-29 | ASCII `[inner]` is read as the descriptor `(inner)void` |
| Adapters.AdapterFromList | src/adapter.rs:26-29 | `[T1,...,Tn]` gives the target with arguments T1..Tn returning void |
| Adapters.CheckCall | src/adapter.rs:346-353 | passes iff the callee's, the adapter's and the supplied argument counts agree; the callee mismatch is reported first, each with its message |
| Adapters.CheckAccess | src/adapter.rs:355-361 | passes iff the index is below the target count and the counts agree; "Invalid index" is reported before "Structure invalid fields count" |
| Adapters.SetSpec | src/adapter.rs:74-81 | a failed access check is the result, before any cast; a successful store keeps the aggregate's length |
| Adapters.GetSpec | src/adapter.rs:87-94 | a failed access check is the result, before any cast; a successful load keeps the destination's length |
| Adapters.Set | src/adapter.rs:74-81 | the aggregate becomes `SetSpec`'s bytes on success and is unchanged on error |
| Adapters.Get | src/adapter.rs:87-94 | the destination becomes `GetSpec`'s bytes on success and is unchanged on error |
| Adapters.SetThenGet | src/adapter.rs:70-94 | storing a member through its own integer or pointer type and loading it back returns the stored bytes |
| Adapters.CastArgs | src/adapter.rs:54-60 | one cast buffer per remaining argument |
| Adapters.CastArgsOk | src/adapter.rs:54-60 | when every argument casts, the buffers are the arguments' casts in index order |
| Adapters.CastArgsFirstError | src/adapter.rs:54-60 | a failing argument loop reports the error of the first failing argument; every earlier one cast |
| Adapters.CastArgument | src/adapter.rs:54-57 | one pass of the argument loop: the argument cast into a fresh buffer of the callee's type, exactly that argument's cast or its error |
| Adapters.CallSpec | src/adapter.rs:42-68 | a failed count check is returned as is; the call fails whenever the callee is not reached; a result is as wide as the return cast writes |
| Adapters.Call | src/adapter.rs:42-68 | the callee runs iff the counts match and every argument casts; the result buffer receives `CallSpec`'s bytes on success and is untouched on error |
| Adapters.VoidTargetFailsAfterCall | src/adapter.rs:62-64 | an adapter returning void always fails with InvalidCast after the callee has run |
| Library.LibHandle.constructor | src/library.rs:25-30 | a new handle has an empty cache |
| Library.LibHandle.Open | src/library.rs:32-44 | a name holding a NUL fails first, then the loader's error is returned; otherwise a handle with an empty cache |
| Library.LibHandle.Symbol | src/library.rs:46-55 | a name holding a NUL fails; otherwise the resolver's answer for the terminated name in this library |
| Library.FindFirstSpec | src/library.rs:80-89 | the scan finds nothing iff no entry has the name, and otherwise the handle of the first entry that has it |
| Library.LibHandle.FindFunction | src/library.rs:80-89 | the loop over the linked nodes returns exactly `FindFirst` of the cache |
| Library.LibHandle.Func | src/library.rs:65-78 | a hit returns the cached handle whatever the descriptor; a resolver or preparation error is returned with the cache unchanged; otherwise a node with a copy of the name becomes the head and a new lookup finds the new handle |
| Library.LibHandle.Insert | src/library.rs:71-75 | the new node becomes the head and the names stay distinct |
| Library.LibHandle.FuncByName | src/library.rs:57-63 | a name holding a NUL fails with RustStringToCString; otherwise `Func` on the terminated name: a hit returns the cached handle with the cache unchanged, a resolver or preparation error leaves the cache unchanged, and a new handle is pushed as the head with a copy of the name |
| Library.LibHandle.Drop | src/library.rs:96-110 | the library is closed first, then every node is freed from the head to the tail |
| Library.LinkedPush | src/library.rs:74-75 | a node whose `next` is the old head extends the linked list by one entry in front, and every other node is still linked to its successor |
| Library.DistinctCons | src/library.rs:65-76 | an entry whose C name no cached entry carries can be pushed without breaking pairwise distinct names |
| Library.InsertThenFind | src/library.rs:69-76 | after a miss is filled, looking the name up finds the new handle |
| Library.InsertKeepsOthers | src/library.rs:71-75 | filling a miss does not change what any other name finds |
| Library.InsertKeepsDistinct | src/library.rs:65-76 | inserting only after a miss keeps the cached names pairwise distinct |
| Library.FindUnique | src/library.rs:80-89 | with distinct names, a cached name is found at the one entry carrying it |

## Left out

- Floating-point conversions: int→float, float→int saturation, and the f32/f64/i128 reads and writes of src/adapter.rs:259-295. They are the uninterpreted functions of `Coerce.Natives`. Nothing is proved about their values.
- Coerce.Cast: its contract states only the width of what it writes; its behaviour is stated by `Coerce.CastOutcome` and the lemmas after it. Auto↔Auto (`unreachable!`) and Auto↔Struct (`todo!`) are excluded by the requirement `CastDefined`.
- `strdup` (src/adapter.rs:174-175) is an address function. The model does not state that the new string's contents equal the old ones, because those contents live in memory the model does not hold.
- The libffi call itself: `FuncHandle::call`/`_call`/`call_raw`/`_call_raw` (src/interface.rs:75-127), `ffi_prep_cif`, `ffi_call` and `ffi_raw_call` are foreign code. Preparation is the `prep` status parameter and the callee is the `invoke` parameter. Re-preparing on every call is not modelled.
- Adapters.Call: a Struct in the callee's signature is a precondition, because `_call_calc_type_layout` panics with `todo!()` there. The `SafeAlloc` buffers (src/adapter.rs:302-380) are fresh sequences, not allocations. `arguments.len() as c_uint` is not truncated.
- The C API layer (src/api) and the platform loaders (src/platform) are not part of this model. Open, symbol lookup and close are parameters or events.
- `StructType::malloc` and `free` (src/structure.rs:57-60, 91-94) and the allocator calls in src/library.rs are not modelled. The model never leaks or double-frees, so there is nothing to state about them.
- `FuncHandle::desc`, `FuncDesc::new`, `argument_types`, `return_type`, `StructType::fields`, `size`, `LibHandle::as_raw` and `FuncType::structure` are plain field reads or constructors. In the model they are datatype fields and constructors.
- `str_to_c_mut_char_unchecked`, `try_c_const_char_to_str` and `free_c_mut_char` are used only by the C API layer.
- Types.NewStruct: offsets and sizes are `c_uint` in the source, and `offset += size` (src/structure.rs:17) wraps in a release build and panics in a debug build once the sum passes 2^32. The model adds without wrapping. Because each pointer-kind member counts `PointerFieldSize`, the low 32 bits of a code address, a descriptor with only a few pointer members such as `[*,*,*]` can already pass 2^32.
- Types.LayoutWithin: proved over the unwrapped sum, so it describes the source only for aggregates whose member sizes sum below 2^32. Past that, the source's wrapped offsets can place a member beyond the stored size.
- Types.LayoutDisjoint: the same limit. With a wrapped running offset, members of the source's layout can overlap.
- Structure.SetKeepsOtherFields: rests on `LayoutDisjoint`, so it too describes the source only for aggregates whose member sizes sum below 2^32.
- Types.Size: the pointer kinds' size is the unknown constant `PointerFieldSize` (an address truncated to 32 bits). No layout fact is proved for aggregates holding pointers beyond what holds for any size.
- Types.DisplayStruct: the contract states only the leading `[`. The text `[ty@0xOFF, ...] (size: N)` is defined, but no property of it is proved, because nothing parses it.
- Ffi.IntoFfiType: its scalar arm is the corrected `ScalarFfi` of the Findings row, so `Int` is described as `sint32` where the source (src/interface.rs:357) describes it as `sint64`. Every other type is translated as in the source: `ScalarFfiAsWritten` equals `ScalarFfi` off `Int`.
- Ffi.TypeIntoFfiType: proved equal to `IntoFfiType`, so it has the same `Int` difference from the source.
- Ffi.ArgsIntoFfiSpec: each argument is translated by `IntoFfiType`, so an `Int` argument is `sint32` here and `sint64` in the source.
- Ffi.HelperOfSpec: the helper's return and argument descriptions come from `IntoFfiType`, so `Int` is `sint32` here and `sint64` in the source.
- Ffi.NewHelper: proved equal to `HelperOf`, with the same `Int` difference.
- Ffi.Prepare: `prep` receives the corrected helper. For a signature using `int`, the source hands libffi `sint64` there. libffi's status is a parameter, so the model says nothing about how libffi answers either description.
- Ffi.ScalarFfi: ISize and USize also test `size_of == 32` (src/interface.rs:361-362), which is never true. On the 64-bit target the 64-bit branch is the right one, so the model keeps it.
- Library.LibHandle.Drop: freeing a node, dropping its `FuncHandle` and deallocating the node are one `FreeNode` event. The result of closing the library is ignored, as in the source.
- Raw pointers, `unsafe` aliasing and the `_boxed` ownership vector of `FuncDescHelper` are not modelled: translations are values.
- Panics are preconditions. Examples: slicing after a non-ASCII first character in `StructType::_from_str`, and `ends_with` on empty text. Prepare: statuses other than the four libffi documents (`unreachable!()`) are not modelled.

## Findings

| source | as written | input that shows it | evidently intended | confidence | as-written member | corrected member |
|---|---|---|---|---|---|---|
| src/interface.rs:357 | `size_of::<c_int>() == 32` compares a byte count with 32, so `Int` is always described to libffi as `sint64` | any descriptor using `int`, e.g. `(int)int`: libffi is told 8 bytes while `size()` and the adapter move 4 | compare with 4 bytes (or 32 bits), giving `sint32` for the 32-bit `c_int` | not executed | Ffi.ScalarFfiAsWritten | Ffi.ScalarFfi |
