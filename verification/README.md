# sleigh key codec and derive logic in Dafny

This project models the two self-contained pieces of logic in sleigh. Sleigh is a typed
key-value layer over an embedded ordered store.

1. **The key codec** (`KeyEncoder` in `sleigh/src/key_encode.rs`). Integer keys
   (`u16`, `i16`, `u32`, `i32`, `u64`, `i64`) are stored as fixed-width big-endian bytes.
   Signed types use their two's-complement bit pattern. `String` keys are stored as their raw
   UTF-8 bytes. Each type has:
   - `encode_key`: writes into a caller's buffer after a length check;
   - `key_len`: reports the encoded length;
   - `decode_key`: parses the bytes back.

   The free `encode_key` allocates exactly `key_len` bytes and encodes into them.
2. **The `#[derive(Sleigh)]` decision logic** (`sleigh_derive/src/lib.rs`), together with
   its error collector `Context` (`sleigh_derive/src/context.rs`):
   - which `#[sleigh(...)]` items are consulted;
   - how the key field and the `auto` flag are found;
   - which misuses are reported;
   - whether the expansion is the impl, the collected errors or a panic;
   - what the generated `prep` does with a key.

Modules:

- `Bytes` (`bytes.dfy`): bytes as integers `0..255`, and the lexicographic byte order the
  store sorts keys by. The order is proved irreflexive, asymmetric and total: of two
  different byte strings, one sorts first.
- `Options` (`options.dfy`): the optional-value datatype.
- `BigEndian` (`big_endian.dfy`): fixed-width big-endian layout of naturals, defined
  digit by digit from the most significant byte. Reading a layout back is its inverse in
  both directions. For a fixed width, layout order equals numeric order.
- `Utf8` (`utf8.dfy`): `str::as_bytes` (`Encode`) and `String::from_utf8` (`Decode`).
  `Decode` succeeds exactly on the well-formed byte sequences of section 4 of RFC 3629.
  `Decode` and `Encode` are inverse to each other.
- `KeyEncode` (`key_encode.dfy`): the key types, two's complement, `key_len`, the
  buffer-level `encode_key` and `decode_key` per type, and the free `encode_key`. It also
  holds the round-trip and ordering properties, and the unit-test byte vectors.
- `ErrorContext` (`context.dfy`): `Context` as the two states `Unchecked(errors)` and
  `Checked`, with `new`, `error_spanned_by`, `check` and the `Drop` guard.
- `SleighDerive` (`sleigh_derive.dfy`): the `syn` syntax tree cut down to what the macro
  reads, `get_sleigh_meta_items`, `handle_meta_item`, `parse_attrs`, `impl_sleigh_macro`
  and the generated `prep`. The three nested loops of `parse_attrs` are proved equal to
  one run over the flattened sequence of visited items. On that run the key, the `auto`
  flag and the error list are stated declaratively.

Modelling choices:

- A byte is an integer in `0..255`, not a bit-vector. Integer keys are unbounded integers
  constrained to their type's range. The two's-complement wrap is written out explicitly
  (`ToBits` / `FromBits`).
- A Rust `String` is a Dafny `string`. Dafny's `char` is a Unicode scalar value, like
  Rust's `char`, so every Dafny string has a UTF-8 encoding.
- The `&mut [u8]` buffer appears twice:
  - as a value: `IntEncodeInto` and `StringEncodeInto` return the new contents;
  - as an `array` written in place: `EncodeKeyInto`, with `WriteAll` for
    `Cursor::write_all`.
- `thread::panicking()` is a boolean parameter. `db.get_unique_key()` is a parameter whose
  value the model does not constrain.
- The runtime crate has no identifier generator. `Db` has no `get_unique_key`, the
  `Sleigh` trait has no `prep` (sleigh/src/lib.rs:20-24), and `put` takes `&T`, so it
  cannot change a key (sleigh/src/lib.rs:37). The derive only emits a call to
  `get_unique_key`. Nothing here assumes the identifier is non-zero or unique. The model
  proves only the template's rule: a zero key is replaced by whatever the call returns.

## Model

| member | source | states |
|---|---|---|
| KeyEncode.ToBits | sleigh/src/key_encode.rs:19 | the stored bit pattern is below 2^(8·width); unsigned values are their own pattern; for signed types the top bit is set exactly when the value is negative |
| KeyEncode.FromBits | sleigh/src/key_encode.rs:34 | every bit pattern reads back as an in-range value of the type whose pattern it is |
| KeyEncode.FromToBits | sleigh/src/key_encode.rs:40-45 | reading back a value's bit pattern gives the value, for all six integer types |
| KeyEncode.KeyBytes | sleigh/src/key_encode.rs:19 | the bytes an integer key is stored under are exactly width bytes that read back big-endian as its bit pattern (`write_*::<BigEndian>`); a string's bytes (`as_bytes`, line 54) decode back to the string |
| KeyEncode.KeyLen | sleigh/src/key_encode.rs:24-26 | `key_len` is exactly the number of bytes the key is stored under: 2, 4 or 8 for integers; for strings, between the character count and four times it |
| KeyEncode.EncodedLengthBound | sleigh/src/key_encode.rs:59-61 | a string's `len()` in UTF-8 bytes lies between its character count and four times it |
| KeyEncode.IntEncodeInto | sleigh/src/key_encode.rs:13-22 | fails with `UnexpectedEof` iff the buffer is shorter than the width; otherwise returns the width, keeps the buffer length, leaves every byte past the width unchanged, and the buffer decodes to the value |
| KeyEncode.DecodeInt | sleigh/src/key_encode.rs:28-35 | fails with `UnexpectedEof` iff fewer than width bytes are given; otherwise yields a key of that type whose stored bytes are exactly the first width bytes |
| KeyEncode.IntRoundTripWithTrailing | sleigh/src/key_encode.rs:28-35 | an integer key's bytes followed by anything decode to that key: trailing bytes are ignored |
| KeyEncode.StringEncodeInto | sleigh/src/key_encode.rs:48-57 | fails with `UnexpectedEof` iff the buffer is shorter than the UTF-8 byte length; otherwise copies exactly those bytes to the front, with no prefix or terminator, returns that length, and leaves the rest of the buffer alone |
| KeyEncode.StringEncodeIntoDecodes | sleigh/src/key_encode.rs:48-65 | when the buffer is long enough, what `encode_key` writes decodes back to the string |
| KeyEncode.DecodeKey | sleigh/src/key_encode.rs:7 | `T::decode_key` per key type: an integer decodes iff the width is available, a string iff the bytes are well-formed UTF-8; `UnexpectedEof` is the integer failure and `InvalidData` the string one; a decoded key has the requested type and is stored under a prefix of the input |
| KeyEncode.DecodeString | sleigh/src/key_encode.rs:63-65 | fails with `InvalidData` iff the bytes are not well-formed UTF-8; otherwise yields the string whose UTF-8 bytes are the whole slice |
| KeyEncode.StringDecodeTakesWholeSlice | sleigh/src/key_encode.rs:63-65 | a string key's bytes followed by more UTF-8 decode to the longer string, not to the key: the whole slice is consumed |
| KeyEncode.EncodeAppend | sleigh/src/key_encode.rs:54 | the bytes of a concatenation are the concatenation of the bytes, so a string key is a byte prefix of every key that extends it |
| KeyEncode.WriteAll | sleigh/src/key_encode.rs:53-54 | `write_all` from position 0 puts the data at the front of the buffer and leaves every later byte as it was |
| KeyEncode.EncodeKeyInto | sleigh/src/key_encode.rs:5 | `encode_key` on a buffer fails with `UnexpectedEof` iff the buffer is shorter than `key_len`, leaving it untouched; otherwise it writes the key's bytes to the front, returns `key_len`, keeps the rest, and the written prefix decodes to the key |
| KeyEncode.EncodeKey | sleigh/src/key_encode.rs:69-79 | the free `encode_key` returns exactly `key_len` bytes, which decode to the key; its `unwrap` cannot fail |
| KeyEncode.RoundTrip | sleigh/src/key_encode.rs:4-8 | `decode_key` of a key's own bytes gives back the key, for every value of every integer type and every string |
| KeyEncode.UnsignedOrder | sleigh/src/key_encode.rs:40-45 | for unsigned types, `a < b` iff the encoding of `a` sorts before that of `b` |
| KeyEncode.SignedTopBit | sleigh/src/key_encode.rs:41 | a signed key's first byte has its top bit set iff the value is negative |
| KeyEncode.SignedOrder | sleigh/src/key_encode.rs:41 | for signed types, `a` sorts before `b` iff `a` is non-negative and `b` negative, or both have the same sign and `a < b`: negatives sort after every non-negative value |
| KeyEncode.VectorU64 | sleigh/src/key_encode.rs:86-92 | `0x0123456789abcdef` as `u64` is stored as `01 23 45 67 89 ab cd ef` |
| KeyEncode.VectorI64 | sleigh/src/key_encode.rs:94-101 | `-2` as `i64` is stored as seven `ff` bytes then `fe` |
| KeyEncode.VectorU32 | sleigh/src/key_encode.rs:103-107 | `0x01234567` as `u32` is stored as `01 23 45 67` |
| KeyEncode.VectorI32 | sleigh/src/key_encode.rs:109-113 | `-2` as `i32` is stored as `ff ff ff fe` |
| KeyEncode.VectorU16 | sleigh/src/key_encode.rs:115-119 | `0x0123` as `u16` is stored as `01 23` |
| KeyEncode.VectorI16 | sleigh/src/key_encode.rs:121-125 | `-2` as `i16` is stored as `ff fe` |
| KeyEncode.VectorHelloWorld | sleigh/src/key_encode.rs:127-132 | `"hello world"` is stored as its eleven ASCII bytes |
| KeyEncode.VectorKeyValueOne | sleigh_test/src/lib.rs:36-43 | the `u64` key 1 is stored as seven zero bytes then `01` |
| BigEndian.ToBytes | sleigh/src/key_encode.rs:19 | a value below 256^width is laid out in exactly width bytes |
| BigEndian.FromBytes | sleigh/src/key_encode.rs:34 | n bytes read as a value below 256^n |
| BigEndian.FromToBytes | sleigh/src/key_encode.rs:19 | reading back a layout gives the value |
| BigEndian.ToFromBytes | sleigh/src/key_encode.rs:34 | laying out what was read gives the same bytes |
| BigEndian.OrderPreserving | sleigh/src/key_encode.rs:19 | at a fixed width, `a < b` iff the layout of `a` sorts before that of `b` |
| BigEndian.TopBit | sleigh/src/key_encode.rs:19 | the first byte is at least `0x80` iff the value is at least half of 256^width |
| Utf8.Encode | sleigh/src/key_encode.rs:54 | `as_bytes` yields at least one byte per character |
| Utf8.Decode | sleigh/src/key_encode.rs:64 | `String::from_utf8`: when it succeeds, the result has at most as many characters as there were bytes |
| Utf8.DecodeEncode | sleigh/src/key_encode.rs:131 | every string's UTF-8 bytes decode back to the string |
| Utf8.EncodeDecode | sleigh/src/key_encode.rs:64 | whatever decodes successfully re-encodes to the same bytes |
| Utf8.DecodeIffWellFormed | sleigh/src/key_encode.rs:64 | decoding succeeds iff the bytes are well-formed UTF-8 per section 4 of RFC 3629 |
| Utf8.EncodeWellFormed | sleigh/src/key_encode.rs:54 | the bytes of any string are well-formed UTF-8 |
| Utf8.EncodeAscii | sleigh/src/key_encode.rs:127-132 | an all-ASCII string is stored as one byte per character, equal to the character code |
| ErrorContext.New | sleigh_derive/src/context.rs:29-33 | a new context is unchecked with no errors |
| ErrorContext.ErrorSpannedBy | sleigh_derive/src/context.rs:38-44 | appends exactly one error after the earlier ones, which are kept; requires the unchecked state |
| ErrorContext.Check | sleigh_derive/src/context.rs:47-53 | passes iff no error was recorded, otherwise returns all of them; the context is left checked |
| ErrorContext.Drop | sleigh_derive/src/context.rs:62-67 | dropping panics only an unchecked context, always does so when the thread is not already panicking, and never while the thread is panicking |
| ErrorContext.RecordAllAppends | sleigh_derive/src/context.rs:38-44 | recording a sequence of errors appends exactly that sequence, in order |
| ErrorContext.CheckReportsEverything | sleigh_derive/src/context.rs:47-53 | `check` on a fresh context after recording any errors reports exactly those errors, in insertion order, and passes iff there are none |
| ErrorContext.DropAfterCheck | sleigh_derive/src/context.rs:62-67 | a checked context drops quietly; an unchecked one panics iff the thread is not already panicking |
| SleighDerive.DefaultAttrs | sleigh_derive/src/lib.rs:80 | `Attrs::default()` has no key field and `auto` unset |
| SleighDerive.IsU64 | sleigh_derive/src/lib.rs:55-58 | a field type counts as `u64` iff it is the bare one-segment path `u64` |
| SleighDerive.SleighMetaItems | sleigh_derive/src/lib.rs:31-43 | an attribute is consulted iff its path is the single segment `sleigh` and it parses as a list; its items are then the list's items |
| SleighDerive.HandleMetaItem | sleigh_derive/src/lib.rs:45-77 | one item appends exactly the error `ItemError` names, if any; the key becomes the field's name iff the item is `key` on a named field; `auto` becomes set iff the item is `auto`, even when its error is recorded |
| SleighDerive.HandleItems | sleigh_derive/src/lib.rs:92-94 | the items of one attribute leave the context unchecked; see HandleItemsIsRun |
| SleighDerive.HandleAttributes | sleigh_derive/src/lib.rs:91-95 | the attributes of one field leave the context unchecked; see HandleAttributesIsRun |
| SleighDerive.HandleFields | sleigh_derive/src/lib.rs:90-96 | the fields of a struct leave the context unchecked; see HandleFieldsIsRun |
| SleighDerive.HandleItemsIsRun | sleigh_derive/src/lib.rs:92-94 | the item loop is `handle_meta_item` applied to each item in order |
| SleighDerive.HandleAttributesIsRun | sleigh_derive/src/lib.rs:91-95 | the attribute loop is that run over the items of the consulted attributes, in attribute order |
| SleighDerive.HandleFieldsIsRun | sleigh_derive/src/lib.rs:90-96 | the field loop is that run over every consulted item, field by field |
| SleighDerive.UnconsultedAttributeIgnored | sleigh_derive/src/lib.rs:91 | removing an attribute that is not a `#[sleigh(...)]` list, wherever it appears, changes neither the errors nor the collected attributes |
| SleighDerive.RunKey | sleigh_derive/src/lib.rs:47-51 | the key is the name of the last `key` mark on a named field; with no such mark it is unchanged |
| SleighDerive.LastKeyMark | sleigh_derive/src/lib.rs:47-51 | if some visited item is a `key` mark on a named field, there is a last one |
| SleighDerive.RunAuto | sleigh_derive/src/lib.rs:53-54 | `auto` is set iff it was already set or some visited item is the word `auto` |
| SleighDerive.RunErrors | sleigh_derive/src/lib.rs:60-75 | the run appends exactly the misuse errors of the visited items, in visit order |
| SleighDerive.ErrorsOfEmpty | sleigh_derive/src/lib.rs:60-75 | no error is reported iff no visited item is a misuse |
| SleighDerive.ParseAttrs | sleigh_derive/src/lib.rs:79-99 | a non-struct input records exactly one error and yields the default attributes, without looking at anything else |
| SleighDerive.ParseAttrsStruct | sleigh_derive/src/lib.rs:79-99 | on a struct: no key iff no `key` mark on a named field, else the last mark's field; `auto` iff some `auto` word; the errors are exactly the misuses, in order |
| SleighDerive.Generate | sleigh_derive/src/lib.rs:131-146 | the bucket is bytes that decode to the type name; `key_name` is the key field; `prep` auto-assigns iff `auto`, and then it assigns the key field |
| SleighDerive.ImplSleighMacro | sleigh_derive/src/lib.rs:101-153 | as written: with a key, the impl comes out iff no error was recorded, otherwise exactly the recorded errors do; with no key the derive panics unless the thread is already panicking; an emitted impl names the key field and the type, and its `prep` auto-assigns that key field iff `auto` |
| SleighDerive.ExpansionOfStruct | sleigh_derive/src/lib.rs:101-153 | for a struct: the impl iff some named field is marked `key` and no item is misused; it names the last marked field and auto-assigns iff some item is `auto`; panic iff no key mark, outside an unwinding thread |
| SleighDerive.ExpansionOfNonStruct | sleigh_derive/src/lib.rs:82-110 | deriving on an enum or union panics instead of reporting its "structs only" error, unless the thread is already panicking |
| SleighDerive.TestRecordExpansion | sleigh_test/src/lib.rs:6-33 | `TestRecord` derives the impl with bucket `TestRecord`, key name `key`, and an auto-assigning `prep` |
| SleighDerive.TestStringRecordExpansion | sleigh_test/src/lib.rs:13-18 | `TestStringRecord` derives the impl with key name `key` and a no-op `prep` |
| SleighDerive.RunPrep | sleigh_derive/src/lib.rs:114-129 | with `auto`, a zero key always takes the issued identifier, a failure to issue one propagates, and a non-zero key is kept; without `auto`, the key is returned unchanged; the key changes only in the zero, `auto` case |
| SleighDerive.PrepIdempotent | sleigh_derive/src/lib.rs:117-119 | once `prep` has produced a non-zero key, running it again changes nothing, whatever the identifier source does |
| SleighDerive.MissingKeyPanics | sleigh_derive/src/lib.rs:107-110 | as written, a struct without a `key` mark, and an enum, make the derive panic |
| SleighDerive.ImplSleighMacroChecked | sleigh_derive/src/lib.rs:107-110 | corrected: never panics; reports errors iff any were recorded, and exactly those; emits an impl only when a key was found; with no key it gives exactly the recorded errors, or `compile_error!("")` when there are none; an enum gets its "structs only" error; with a key it agrees with the code as written |
| SleighDerive.CheckedExpansionDropsQuietly | sleigh_derive/src/lib.rs:148-151 | once the context is checked, dropping it is quiet |

## Left out

- `Db::new`, `put` and `get` (`sleigh/src/lib.rs`) are not modelled. They wrap `sled` trees
  and `serde_json`, which are not part of this model.
- The `sled` database is not modelled. `Bytes.LexLess` stands for the order in which the
  store sorts keys, not for code of this repository.
- `byteorder` and `std::io::Cursor` are not modelled. Big-endian is specified directly by
  arithmetic. `Cursor::write_all` is `KeyEncode.WriteAll`.
- Token streams, spans and error message text are not modelled. The same goes for
  `convert_to_compile_errors` and the `compile_error!` output. Errors are the variants of
  `ErrorContext.Message`. An expansion is `Impl`, `CompileErrors`, `EmptyCompileError` or
  `Panic`.
- The `key_type` field of `Attrs` is not modelled: nothing in the code ever sets it.
- `sleigh_derive` (the `TokenStream` entry point and its `unwrap` of `syn::parse`) is not
  modelled. It is parsing plumbing.
- Field types are reduced to their path segments. `is_ident("u64")` is `segments == ["u64"]`.
  Leading `::` and generic arguments, which make `is_ident` false, are folded into
  `OtherType`.
- The `unwrap` panics of `error_spanned_by` and `check` on a context whose error list is
  gone are not modelled: ErrorSpannedBy and Check require an unchecked context. No caller
  in the crate reaches that state: `check` consumes the context, and `Context::default()`
  (the derived `Default`, sleigh_derive/src/context.rs:18) is never called.
- SleighDerive.RunPrep: covers only `u64` key fields. Its key is a `U64`, but nothing in
  the derive checks the key field's type. The `auto` check looks at the field that
  carries `auto` (sleigh_derive/src/lib.rs:55-58), not at the key field. So
  `#[sleigh(key)] name: String` beside `#[sleigh(auto)] n: u64` records no error, and the
  emitted `prep` compares a `String` with `u64::default()` (sleigh_derive/src/lib.rs:117),
  which the Rust compiler rejects. That type error is not modelled.
- `get_unique_key` is not part of this model. Its result is a parameter of `RunPrep`, and
  nothing is assumed about it being non-zero or unique.
- `key_value()` of the generated impl is not a separate member. It is the free
  `encode_key` on the key field, which is `KeyEncode.EncodeKey`.
- SleighDerive.HandleItems: its own contract only says the context stays unchecked. What
  it computes is stated by HandleItemsIsRun together with RunKey, RunAuto and RunErrors.
- SleighDerive.HandleAttributes: its own contract only says the context stays unchecked.
  What it computes is stated by HandleAttributesIsRun.
- SleighDerive.HandleFields: its own contract only says the context stays unchecked. What
  it computes is stated by HandleFieldsIsRun and ParseAttrsStruct.
- Utf8.Encode: its contract only bounds the length. The content is stated by
  DecodeEncode, EncodeWellFormed and EncodeAscii.
- Utf8.Decode: its contract only bounds the length. The content is stated by
  DecodeIffWellFormed, EncodeDecode and DecodeEncode.
- KeyEncode.EncodeKeyInto and KeyEncode.WriteAll: they write into an `array`, so their
  frame conditions are stated with `old`. The same facts are stated on values by
  IntEncodeInto and StringEncodeInto.

## Findings

| source | as written | input that shows it | evidently intended | confidence | as-written member | corrected member |
|---|---|---|---|---|---|---|
| sleigh_derive/src/lib.rs:107-110 | with no key field, `impl_sleigh_macro` returns `compile_error!("")` early without calling `context.check()`. The dropped `Context` then panics with "forgot to check for errors" (sleigh_derive/src/context.rs:62-67), and any recorded error, such as the "only supported on structs" one, is lost. | `#[derive(Sleigh)] struct Widget { id: u64 }` (no `#[sleigh(key)]`), or any enum | a compile error listing the recorded errors, never a panic | medium, not executed | SleighDerive.MissingKeyPanics | SleighDerive.ImplSleighMacroChecked |
