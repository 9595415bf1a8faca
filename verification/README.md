# serialize — a Dafny model of the binary codec

`serialize` is a small Rust crate that writes values into a compact binary
form and reads them back. Each supported type implements `Serialize` (write
yourself into any `std::io::Write`) and `Deserialize` (read yourself from any
`std::io::Read`). The crate ships its own in-memory buffer `Bytes`: writes
append to a byte vector, and reads copy from a cursor that moves forward. A
derive macro generates three methods for a struct with named fields:
`serialize(self)`, which returns a new `Bytes`; `deserialize(&Bytes, index)`,
which returns `Option<Self>`; and `size(&self)`. These signatures are not those
of the crate's `Serialize` and `Deserialize` traits, which declare no `size`.

The wire format has no type tags and no framing. The reader's static type
alone says what comes next:

- integers and floats: `size_of::<T>()` bytes, big-endian;
- `Vec<T>`, `String` and `HashMap<K, V>`: a `usize` count, then the elements,
  the UTF-8 bytes, or the key/value pairs;
- `Option<T>`: a `u64` discriminant, 0 for `Some` followed by the payload, 1
  for `None`, anything else rejected as invalid data;
- `Box<T>`: the boxed value itself;
- `[T; N]` and tuples: the components back to back, with no prefix.

The model has these modules:

- `ByteBuffer` (bytes.dfy): the `Bytes` class, with its data and its cursor
  as fields and its methods proved against their effect on them.
- `BigEndian` (bigendian.dfy): `to_be_bytes`/`from_be_bytes` for every
  integer width, with two's complement for signed types and round trips in
  both directions.
- `Utf8` (utf8.dfy): the well-formedness check of `String::from_utf8`, per
  Table 3-7 of section 3.9 of the Unicode Standard, and the encoding of Rust
  strings.
- `Wire` (wire.dfy): the wire format as pure functions. A `Ty` is the static
  type that picks the codec, and a `Value` is a value of it. `Encode` gives
  the bytes `serialize` writes. `Decode` gives what `deserialize` returns from
  a byte string, together with the bytes it leaves unread.
- `RoundTripLemmas`, `Truncation` and `WireProperties`: the properties of the
  wire format.
  - Every well-typed value decodes from its own encoding, whatever follows it.
  - Every proper prefix of an encoding fails with `UnexpectedEof`.
  - Option discriminants and UTF-8 checking behave as described above.
  - A `HashMap` decoded from a stream that repeats a key keeps the last value.
- `Codec` (codec.dfy): the `serialize`/`deserialize` implementations as
  methods on a `Bytes` buffer, with their loops. Each is proved to append
  exactly `Encode(v)`, or to return exactly what `Decode` prescribes and
  leave the cursor after the value.
- `Derive` (derive.dfy): the struct code the derive macro generates, over a
  list of fields, each with the codec of its type. Its properties are proved:
  the round trip, the offsets the fields are read at, `size` equal to the byte
  length, and the first unreadable field failing the whole read.
- `DeriveInstances` and `Scenarios`: the product codec instantiated with the
  crate's own codecs, and the cases of src/test.rs.

## Model

| member | source | states |
|---|---|---|
| ByteBuffer.Bytes.constructor | src/lib.rs:17-22 | `Bytes::new` holds no data and its cursor is at 0 |
| ByteBuffer.Bytes.FromSeq | src/lib.rs:33-48 | conversion from a vector or slice holds exactly those bytes, cursor at 0 |
| ByteBuffer.Bytes.Len | src/lib.rs:23-25 | the number of bytes held counts those already read and those still to read, whatever the cursor position |
| ByteBuffer.Bytes.Reset | src/lib.rs:26-28 | the cursor goes back to 0 and the data is unchanged |
| ByteBuffer.Bytes.Push | src/lib.rs:29-31 | the data grows by exactly that byte at the end; the cursor stays |
| ByteBuffer.Bytes.Write | src/lib.rs:54-60 | appends every byte of the buffer in order, returns `Ok(buf.len())`, never fails, cursor unchanged |
| ByteBuffer.Bytes.Read | src/lib.rs:66-77 | copies `min(buf.len(), remaining)` bytes from the cursor into the front of `buf` and returns that count. The cursor advances by the count. The rest of `buf` and the data are untouched |
| ByteBuffer.Bytes.ReadExact | src/lib.rs:137-138 | `read_exact` succeeds exactly when enough bytes remain and then fills the buffer with the next bytes. Otherwise it fails with `UnexpectedEof` and everything has been consumed |
| Wire.DecodeInt | src/lib.rs:135-141 | reading a number succeeds exactly when `size_of::<T>()` bytes remain, otherwise `UnexpectedEof` wrapped by `?` as `IOError`; it consumes exactly that many bytes |
| Wire.DecodeCount | src/lib.rs:167 | a length prefix needs 8 bytes, is below 2^64 and consumes exactly those 8 bytes |
| Wire.DecodeMany | src/lib.rs:168-170 | a successful element loop yields exactly the requested number of elements |
| Wire.DecodeEntries | src/lib.rs:254-260 | a successful entry loop yields a map |
| Wire.DecodeComponents | src/lib.rs:299-305 | a successful tuple read yields one component per component type |
| Wire.Insert | src/lib.rs:257 | `HashMap::insert` keeps the size when the key is present, else appends the new entry |
| BigEndian.ToBe | src/lib.rs:130 | `to_be_bytes` of a `w`-byte word has exactly `w` bytes |
| BigEndian.FromBe | src/lib.rs:139 | the number `from_be_bytes` reads from `n` bytes is below 256^n |
| BigEndian.FromBeToBe | src/lib.rs:128-141 | reading back the big-endian bytes of any word that fits gives the word |
| BigEndian.ToBeFromBe | src/lib.rs:135-141 | re-encoding what was read from any bytes gives the bytes back |
| BigEndian.FromBeFront | src/lib.rs:130 | the first byte carries weight 256^(n-1): most significant byte first |
| BigEndian.LimitIsPow | src/lib.rs:149-153 | the number of bit patterns of each type is 256^`size_of::<T>()` |
| BigEndian.ToBits | src/lib.rs:130 | the bit pattern written fits the type's width |
| BigEndian.FromBits | src/lib.rs:139 | reinterpreting a bit pattern gives a value of the type, the pattern itself when unsigned |
| BigEndian.IntBytes | src/lib.rs:128-134 | every number is written as exactly `size_of::<T>()` bytes |
| BigEndian.IntFromBytes | src/lib.rs:135-141 | every word read is a value in the type's range |
| BigEndian.IntRoundTrip | src/lib.rs:126-153 | every value of every number type survives `from_be_bytes(to_be_bytes(n))` |
| BigEndian.IntBytesOnto | src/lib.rs:135-141 | every `size_of::<T>()`-byte word is the encoding of the value read from it |
| Utf8.CharLen | src/lib.rs:188 | a recognised character is at most 4 bytes long and lies within the input |
| Utf8.CharLenPrefix | src/lib.rs:188 | a character is recognised from its own bytes, whatever follows |
| Utf8.ValidConcat | src/lib.rs:188 | valid UTF-8 followed by valid UTF-8 is valid |
| Utf8.AsciiValid | src/lib.rs:188 | ASCII bytes are valid UTF-8 |
| Utf8.EncodeChar | src/lib.rs:177 | a character is 1 to 4 bytes |
| Utf8.EncodeCharWellFormed | src/lib.rs:177 | each character's bytes form exactly one well-formed sequence |
| Utf8.EncodeStringValid | src/lib.rs:177 | the bytes of every Rust string pass `String::from_utf8` |
| Utf8.AsciiString | src/lib.rs:177 | an ASCII string's bytes are its character codes, one per character |
| RoundTripLemmas.CountRoundTrip | src/lib.rs:157 | a length below 2^64 reads back from its 8 bytes and leaves what follows |
| RoundTripLemmas.IntDecodes | src/lib.rs:126-153 | every number reads back from its bytes and leaves what follows |
| RoundTripLemmas.RoundTrip | src/lib.rs:126-332 | every well-typed value decodes from its encoding followed by anything, giving the value and exactly what followed |
| RoundTripLemmas.VecRoundTrip | src/lib.rs:155-173 | a `Vec` reads back from its count and elements |
| RoundTripLemmas.StringRoundTrip | src/lib.rs:174-193 | a `String` reads back from its count and UTF-8 bytes |
| RoundTripLemmas.OptionRoundTrip | src/lib.rs:222-237 | `Some` and `None` read back from discriminant 0 with the payload, or discriminant 1 alone |
| RoundTripLemmas.SomeDecodes | src/lib.rs:229-232 | discriminant 0 followed by bytes the payload decodes from gives `Some` of that payload |
| RoundTripLemmas.HashMapRoundTrip | src/lib.rs:238-262 | a `HashMap` with distinct keys reads back with the same entries in the same order |
| RoundTripLemmas.DecodeManyStep | src/lib.rs:168-170 | each pass of the element loop reads one element and continues after it |
| RoundTripLemmas.DecodeComponentsStep | src/lib.rs:301-303 | each component is read in turn and the next starts where it ended |
| RoundTripLemmas.ManyStep | src/lib.rs:168-170 | reading the first written element leaves the encodings of the others |
| RoundTripLemmas.ManyRoundTrip | src/lib.rs:155-173 | elements written one after another read back in the same order |
| RoundTripLemmas.ComponentsStep | src/lib.rs:299-305 | reading the first component leaves the encodings of the others |
| RoundTripLemmas.ComponentsRoundTrip | src/lib.rs:286-307 | tuple components read back in declaration order |
| RoundTripLemmas.EntryRoundTrip | src/lib.rs:242-245 | a key then its value read back, each leaving what follows |
| RoundTripLemmas.DecodeEntriesStep | src/lib.rs:254-258 | each pass of the map loop reads a key and a value and inserts them |
| RoundTripLemmas.FreshKey | src/lib.rs:257 | with distinct keys, the next key is not yet in the map |
| RoundTripLemmas.EntriesRead | src/lib.rs:254-258 | reading the first written entry inserts it and leaves the others' encodings |
| RoundTripLemmas.EntriesStep | src/lib.rs:254-258 | with distinct keys, the inserted entry is appended and keys stay distinct |
| RoundTripLemmas.EntriesRoundTrip | src/lib.rs:249-262 | entries with distinct keys read back as the same entries |
| Truncation.ManyStops | src/lib.rs:169 | the first element that fails to read, with any error, ends the element loop with that error |
| Truncation.ComponentStops | src/lib.rs:302 | a component that fails to read, with any error, ends the tuple with that error |
| Truncation.KeyStops | src/lib.rs:255 | a key that fails to read, with any error, ends the map with that error |
| Truncation.ValueStops | src/lib.rs:256 | a value that fails to read after its key, with any error, ends the map with that error |
| Truncation.TruncatedFails | src/lib.rs:126-332 | every proper prefix of an encoding fails with `UnexpectedEof`, never a value |
| Truncation.VecTruncated | src/lib.rs:164-173 | a cut-short `Vec` fails with `UnexpectedEof` |
| Truncation.StringTruncated | src/lib.rs:183-193 | a cut-short `String` fails with `UnexpectedEof` |
| Truncation.OptionTruncated | src/lib.rs:222-237 | a cut-short `Option` fails with `UnexpectedEof` |
| Truncation.HashMapTruncated | src/lib.rs:249-262 | a cut-short `HashMap` fails with `UnexpectedEof` |
| Truncation.ManyShort | src/lib.rs:168-170 | an element cut inside its own bytes fails the loop |
| Truncation.ManyWhole | src/lib.rs:168-170 | a complete first element is read and the loop goes on after it |
| Truncation.ManyTruncated | src/lib.rs:277-279 | a cut-short run of elements fails with `UnexpectedEof` |
| Truncation.ComponentsShort | src/lib.rs:301-303 | a component cut inside its own bytes fails the tuple |
| Truncation.ComponentsWhole | src/lib.rs:301-303 | a complete first component is read and the tuple goes on after it |
| Truncation.ComponentsTruncated | src/lib.rs:299-305 | a cut-short tuple fails with `UnexpectedEof` |
| Truncation.EntryTruncated | src/lib.rs:255-256 | an entry cut inside its key or its value fails the map |
| Truncation.EntriesWhole | src/lib.rs:254-258 | a complete first entry is read and inserted and the loop goes on |
| Truncation.EntriesTruncated | src/lib.rs:254-258 | a cut-short run of entries fails with `UnexpectedEof` |
| WireProperties.IntEncoding | src/lib.rs:128-134 | a number is written as `size_of::<T>()` bytes whose big-endian reading is its bit pattern |
| WireProperties.Sequential | src/lib.rs:109-124 | two values written back to back read back one after the other, with no framing |
| WireProperties.OptionTagRejected | src/lib.rs:234 | a discriminant other than 0 and 1 gives `InvalidData` |
| WireProperties.TagBytes | src/lib.rs:227 | the discriminant read equals a tag exactly when its 8 bytes are that tag's bytes |
| WireProperties.OptionNoneTag | src/lib.rs:233 | `None` is decoded exactly from discriminant 1, with no payload |
| WireProperties.OptionSomeTag | src/lib.rs:229-232 | `Some(x)` is decoded exactly from discriminant 0 followed by bytes that decode to `x` |
| WireProperties.SomeHasTag | src/lib.rs:229-232 | a decoded `Some` came from discriminant 0 and its payload |
| WireProperties.TagGivesSome | src/lib.rs:229-232 | discriminant 0 and a payload give `Some` |
| WireProperties.StringUtf8 | src/lib.rs:183-193 | length-prefixed bytes decode as a `String` exactly when they are UTF-8, otherwise `InvalidData` |
| WireProperties.InsertAsMap | src/lib.rs:257 | `insert` sets one key and keeps every other binding |
| WireProperties.InsertKeys | src/lib.rs:257 | `insert` adds no key but the inserted one |
| WireProperties.InsertDistinct | src/lib.rs:257 | `insert` keeps the keys distinct |
| WireProperties.EntriesInsertInOrder | src/lib.rs:249-262 | entries are inserted in stream order, so the result is the map of all inserts, with distinct keys, even when the stream repeats a key |
| WireProperties.LastWins | src/lib.rs:254-258 | the last value inserted for a key is the one kept |
| WireProperties.KeptIfAbsent | src/lib.rs:257 | a binding no later insert touches survives |
| WireProperties.HashMapLastWins | src/lib.rs:249-262 | a `HashMap` stream with a repeated key decodes and keeps the last value written for it |
| DecodeTyping.DecodeTyped | src/lib.rs:126-305 | whatever `deserialize` returns for a type is a value of that type, read from the front of the input: what it leaves unread is the input's tail |
| DecodeTyping.IntTyped | src/lib.rs:135-141 | a number read is in its type's range and leaves a suffix of the input |
| DecodeTyping.CountTail | src/lib.rs:167 | a count is read from the front of the input |
| DecodeTyping.VecTyped | src/lib.rs:164-173 | a `Vec<T>` read holds elements of type `T` only, fewer than 2^64 |
| DecodeTyping.StringTyped | src/lib.rs:183-193 | a `String` read is well-formed UTF-8, shorter than 2^64 bytes |
| DecodeTyping.BoxTyped | src/lib.rs:199-204 | a `Box<T>` read holds a value of type `T` and leaves a suffix of the input |
| DecodeTyping.OptionTyped | src/lib.rs:222-237 | an `Option<T>` read is `None` or `Some` of a value of type `T` |
| DecodeTyping.HashMapTyped | src/lib.rs:249-262 | a `HashMap<K, V>` read has keys of type `K`, values of type `V`, and no key twice, even when the stream repeats one |
| DecodeTyping.ArrayTyped | src/lib.rs:272-284 | a `[T; N]` read holds exactly N elements of type `T` |
| DecodeTyping.ManyTyped | src/lib.rs:168-170 | the element loop keeps the elements read before and adds elements of the element type only |
| DecodeTyping.ComponentsTyped | src/lib.rs:299-305 | the tuple read gives each component the type declared at its position |
| DecodeTyping.InsertFrom | src/lib.rs:257 | after `insert`, every entry is the inserted one or one that was there before |
| DecodeTyping.InsertKeeps | src/lib.rs:257 | `insert` of well-typed key and value keeps the entries well-typed with distinct keys and adds at most one |
| DecodeTyping.EntriesTyped | src/lib.rs:254-258 | the map loop keeps entries well-typed with distinct keys, at most one more per pair read |
| DecodeTyping.EncodePrefixFree | src/lib.rs:126-307 | no two values of a type share an encoding, and no encoding is a proper prefix of another's: equal bytes mean equal values and equal remainders |
| Codec.Serialize | src/lib.rs:126-307 | `serialize` appends exactly `Encode(v)` to the buffer, returns `Ok`, cursor unchanged |
| Codec.SerializeBytes | src/lib.rs:176-180 | a `String`'s bytes are written one `u8` at a time, unchanged |
| Codec.SerializeItems | src/lib.rs:155-163 | the item loop of `Vec`, arrays and tuples appends the items' encodings in order |
| Codec.SerializeEntries | src/lib.rs:238-248 | the `HashMap` loop appends each key's encoding then its value's, entry after entry |
| Codec.ReadInt | src/lib.rs:135-141 | reading a number from the cursor gives what `DecodeInt` prescribes and moves the cursor past it; on failure every remaining byte has been consumed |
| Codec.ReadCount | src/lib.rs:167 | reading a `usize` count gives the count and the cursor after it, or the I/O error with every remaining byte consumed |
| Codec.Deserialize | src/lib.rs:126-307 | `deserialize` from the cursor returns exactly what `Decode` prescribes and leaves the cursor just after the value; the data is never changed. The cursor never moves back, and a failure for lack of data leaves it at the end of the data |
| Codec.DeserializeVec | src/lib.rs:164-173 | the `Vec` decoder follows the wire format. The cursor never moves back, and a failure for lack of data leaves it at the end of the data |
| Codec.ReadElements | src/lib.rs:168-170 | the `Vec` loop reads `len` elements in order and stops at the first failure. The cursor never moves back, and a failure for lack of data leaves it at the end of the data |
| Codec.ReadNext | src/lib.rs:169 | one turn of the element loop: a failing element ends the loop with its error, otherwise the loop goes on after it with one element more. The cursor never moves back, and a failure for lack of data leaves it at the end of the data |
| Codec.DeserializeString | src/lib.rs:183-193 | the `String` decoder follows the wire format, including the UTF-8 rejection. The cursor never moves back, and a failure for lack of data leaves it at the end of the data |
| Codec.DeserializeOption | src/lib.rs:222-237 | the `Option` decoder follows the wire format, including discriminant rejection. The cursor never moves back, and a failure for lack of data leaves it at the end of the data |
| Codec.DeserializeHashMap | src/lib.rs:249-262 | the `HashMap` decoder follows the wire format. The cursor never moves back, and a failure for lack of data leaves it at the end of the data |
| Codec.HashMapAfterCount | src/lib.rs:251 | after its count, a map is its entry loop |
| Codec.ReadEntries | src/lib.rs:254-258 | the map loop reads and inserts `len` pairs in order and stops at the first failure. The cursor never moves back, and a failure for lack of data leaves it at the end of the data |
| Codec.ReadEntry | src/lib.rs:255-257 | one turn of the map loop: a failing key or value ends the loop with its error, otherwise the pair is inserted and the loop goes on after it. The cursor never moves back, and a failure for lack of data leaves it at the end of the data |
| Codec.DeserializeArray | src/lib.rs:272-284 | the array decoder follows the wire format. The cursor never moves back, and a failure for lack of data leaves it at the end of the data |
| Codec.ReadArray | src/lib.rs:275-282 | an array of N slots is filled in place, in order, and stops at the first failure. The cursor never moves back, and a failure for lack of data leaves it at the end of the data |
| Codec.ArrayFromMany | src/lib.rs:272-284 | an array is exactly N elements with no prefix |
| Codec.WriteThenRead | src/lib.rs:109-124 | two values written into a new `Bytes` with `write_serialized` are read back with `read_serialized` in the same order, leaving nothing unread |
| Codec.DeserializeTuple | src/lib.rs:299-305 | the tuple decoder reads each component in declaration order. The cursor never moves back, and a failure for lack of data leaves it at the end of the data |
| Derive.ProductDecode | serialize_derive/src/lib.rs:36-45 | a successful struct read has one value per field |
| Derive.ReadAtOffset | serialize_derive/src/lib.rs:38-43 | in a successful read, field `j` was read at `index` plus the sizes of the fields before it |
| Derive.DecodeReadsAtOffsets | serialize_derive/src/lib.rs:38-43 | a successful read has every field at its offset |
| Derive.ProductSizeAppend | serialize_derive/src/lib.rs:46-48 | one more field adds its own size to `size()` |
| Derive.SuffixDecodes | serialize_derive/src/lib.rs:38-43 | fields readable at their offsets decode from any field onward |
| Derive.SuffixStep | serialize_derive/src/lib.rs:38-40 | field `k` read at its offset, in front of the fields after it |
| Derive.OffsetsGiveDecode | serialize_derive/src/lib.rs:36-45 | fields readable at their offsets are what `deserialize` returns |
| Derive.DecodeAtOffsets | serialize_derive/src/lib.rs:36-45 | `deserialize` yields the fields exactly when every field reads at `index` plus the sizes of the fields before it |
| Derive.FirstFailure | serialize_derive/src/lib.rs:41-43 | a field that cannot be read at its offset makes the whole struct `None`, whatever follows |
| Derive.SoundRead | serialize_derive/src/lib.rs:38 | a sound field codec reads a value back at the start of its bytes |
| Derive.ProductSizeIsLength | serialize_derive/src/lib.rs:46-48 | `size()` equals the length of the struct's serialized bytes |
| Derive.ProductRoundTrip | serialize_derive/src/lib.rs:29-51 | with sound field codecs, `deserialize` at the start of the struct's bytes gives the fields back, whatever surrounds them |
| Derive.ProductEncodeAppend | serialize_derive/src/lib.rs:33 | one more field appends its bytes |
| Derive.DecodeStep | serialize_derive/src/lib.rs:38-40 | a readable field is decoded and the rest follow at the advanced index |
| Derive.NextField | serialize_derive/src/lib.rs:38-40 | reading field `j` moves it from the fields still to read to those read so far |
| Derive.SerializeStruct | serialize_derive/src/lib.rs:31-35 | generated `serialize` returns a fresh buffer holding the fields' bytes in order, cursor at 0 |
| Derive.DeserializeStruct | serialize_derive/src/lib.rs:36-45 | generated `deserialize` with a mutable index returns exactly the struct read |
| DeriveInstances.ReadAtEncoded | src/test.rs:50 | `bytes.read(index)` at the start of a value's bytes gives the value, whatever surrounds them |
| DeriveInstances.TyCodec | src/lib.rs:126-332 | each crate type gives a sound field codec for the struct code: it accepts exactly the values of that type, its size is the byte length, and reading at the start of a value's bytes gives the value back |
| DeriveInstances.CodecOfTypeSound | src/lib.rs:126-332 | a codec that writes with `serialize` and reads with `deserialize` from an index is sound for the values of the type |
| DeriveInstances.TestFits | src/test.rs:13-16 | both fields of the test struct, two `u64`s as in `Test` and `Test1`, have sound codecs and fitting values |
| DeriveInstances.DeriveTestSize | src/test.rs:21-22 | `Test(345, 564746324436543543)` takes 16 bytes, as `size()` says |
| DeriveInstances.DeriveTest | src/test.rs:19-25 | deserializing the test struct's bytes at 0 gives it back |
| DeriveInstances.DeriveTestRun | src/test.rs:19-25 | the generated methods, run on the test struct, find it again |
| Scenarios.StrOf | src/test.rs:6 | a Rust string literal gives a `String` of well-formed UTF-8 |
| Scenarios.HelloWorld | src/test.rs:4-10 | `"Hello, World!!!"` is written as count 15 and its 15 bytes and reads back equal |
| Scenarios.U32BigEndian | src/lib.rs:130 | `0x33445566u32` is written most significant byte first |
| Scenarios.U64FromFourBytes | src/lib.rs:137-138 | four bytes are too few for a `u64`: `UnexpectedEof` |
| Scenarios.ByteEncoding | src/lib.rs:177-178 | a `u8` is written as itself |
| Scenarios.TestString | src/test.rs:48 | `"test"` is a valid `String` of bytes 116, 101, 115, 116 |
| Scenarios.TestStringBytes | src/lib.rs:174-182 | `"test"` is written as count 4 then its bytes |
| Scenarios.TupleBytes | src/test.rs:46-51 | the test tuple's components are written back to back, with no prefix |
| Scenarios.TupleTyped | src/test.rs:48 | the test tuple is a value of `(u8, String, u8, u8, u8, u8)` |
| Scenarios.RoundTripAlone | src/test.rs:50 | a value alone in a buffer reads back with nothing left over |
| Scenarios.TupleTest | src/test.rs:46-51 | the test tuple reads back equal, leaving nothing unread |
| Scenarios.ByteArrayEncoding | src/lib.rs:264-271 | an array of equal `u8`s is that many copies of the byte |
| Scenarios.ArrayTest | src/test.rs:59-65 | `[12u8; 16]` is sixteen bytes 12 and reads back equal |

## Left out

- The `Option` encoder reads its discriminant from the value's memory layout through a raw pointer (src/lib.rs:211). That layout is unspecified by Rust, so it cannot be modelled. `Encode` writes the convention the decoder expects (0 for `Some`, 1 for `None`). The Rust encoder is not guaranteed to agree: with the usual layout, `None` is discriminant 0 and `Some` is 1, the reverse of what the decoder reads.
- `flush`, `Into<Vec<u8>>`, the `Display` and `Error` impls, and the blanket `SerialWrite`/`SerialRead` impls are left out. They are trivial (flush does nothing) or only forward to `serialize`/`deserialize`, which are modelled directly.
- `std::io::Error` is kept as its kind only. The only kind the in-memory buffer produces is `UnexpectedEof`.
- The codecs are modelled on the `Bytes` buffer only, not on an arbitrary `Write`/`Read`. On `Bytes`, writes never fail, so the write-error paths of `?` in the serializers cannot arise.
- `f32` and `f64` are modelled as opaque 4- and 8-byte words (their bit patterns). Floating-point semantics are out of scope, and so is the float test of src/test.rs:53-58.
- `usize` and `isize` are fixed at 8 bytes, as on 64-bit targets.
- The iteration order of `HashMap` is unspecified in Rust. A map value is the list of its entries in whatever order iteration gave them.
- Tuples are modelled for every arity, not only the arities 2 to 26 that src/lib.rs:308-332 instantiates.
- Deriving for enums and unions is left out. The macro panics at expansion time (`todo!()`, serialize_derive/src/lib.rs:20-21).
- The derive output and src/test.rs use `Bytes::append` and `Bytes::read(index)`, which src/lib.rs does not define. They are modelled as `Write` and as `ReadAt`: decode the field's type from that index.
- The derive's field names are not modelled. A struct is the list of its field values in declaration order.
- The derive macro builds its field list from each field's name (serialize_derive/src/lib.rs:27). A tuple-struct field has no name, so for `struct Test(u64, u64)` (src/test.rs:14) the expansion is not valid Rust. Only structs with named fields, such as `Test1 {x: u64, y: u64}` (src/test.rs:16), expand. `DeriveInstances.TestFits`, `DeriveTestSize`, `DeriveTest` and `DeriveTestRun` model the round trip that src/test.rs:19-25 intends for `Test`. That round trip is the one `Test1` has: two `u64` fields in order.
- src/lib.rs defines no `size()` for the crate's types, although the generated code calls it on every field (serialize_derive/src/lib.rs:40, 47). `DeriveInstances.TyCodec` takes it to be the length of the field's encoding.
- Allocation is not modelled: `vec![0; len]` for a `String` of any announced length (src/lib.rs:184), and the `MaybeUninit` array. For a count above `isize::MAX`, the Rust code panics with a capacity overflow. For a count that is merely too large for memory, the allocation aborts the process. In both cases the model instead returns `Err(IOError(UnexpectedEof))`, because the bytes announced are not there.
- The derive's `index += size()` is unbounded here, with no `usize` overflow.
- Codec.Deserialize: after an `InvalidData` failure, only that the cursor has not moved back is stated. The crate leaves it after the bytes consumed before the error.
- Codec.DeserializeVec: after an `InvalidData` failure, only that the cursor has not moved back is stated. The crate leaves it after the bytes consumed before the error.
- Codec.ReadElements: after an `InvalidData` failure, only that the cursor has not moved back is stated. The crate leaves it after the bytes consumed before the error.
- Codec.ReadNext: after an `InvalidData` failure, only that the cursor has not moved back is stated. The crate leaves it after the bytes consumed before the error.
- Codec.DeserializeString: after an `InvalidData` failure, only that the cursor has not moved back is stated. The crate leaves it after the bytes consumed before the error.
- Codec.DeserializeOption: after an `InvalidData` failure, only that the cursor has not moved back is stated. The crate leaves it after the bytes consumed before the error.
- Codec.DeserializeHashMap: after an `InvalidData` failure, only that the cursor has not moved back is stated. The crate leaves it after the bytes consumed before the error.
- Codec.ReadEntries: after an `InvalidData` failure, only that the cursor has not moved back is stated. The crate leaves it after the bytes consumed before the error.
- Codec.ReadEntry: after an `InvalidData` failure, only that the cursor has not moved back is stated. The crate leaves it after the bytes consumed before the error.
- Codec.DeserializeArray: after an `InvalidData` failure, only that the cursor has not moved back is stated. The crate leaves it after the bytes consumed before the error.
- Codec.ReadArray: after an `InvalidData` failure, only that the cursor has not moved back is stated. The crate leaves it after the bytes consumed before the error.
- Codec.DeserializeTuple: after an `InvalidData` failure, only that the cursor has not moved back is stated. The crate leaves it after the bytes consumed before the error.
- ByteBuffer.Bytes.ReadExact: modelled as a single `read`. On this buffer, a second read would copy nothing, so this is the same as std's retry loop. On failure, every remaining byte has been consumed.
