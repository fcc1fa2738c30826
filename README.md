# RESP frame model and SimpleString codec

This project models the core of a small Redis-style server's wire codec, RESP
(the REdis Serialization Protocol, RESP2/RESP3). It covers two parts.

- **The frame value model** (`src/resp/mod.rs`):
  - `RespFrame` is the closed union of twelve variants.
  - The payload wrappers are `SimpleString`, `SimpleError`, `BulkString`, `RespArray`, `RespMap`, `RespSet` and the three null sentinels.
  - `RespError` has seven kinds. `NotComplete` is the retry signal.
  - The constructors, the `From` conversions and the `Deref`/`AsRef` accessors are modelled.
  - `RespMap` wraps a `BTreeMap<String, RespFrame>`. It is modelled as its entries in ascending key order, with `get`, `keys`, `len` and `insert`. `insert` is reached through `DerefMut`.
- **The SimpleString codec** (`src/resp/simple_string.rs`):
  - `encode` produces `+<text>\r\n`.
  - `expect_length` is a read-only length probe.
  - `decode` consumes exactly one frame from the front of a mutable byte buffer. When it fails, it leaves the buffer untouched.

Modules, one per file:

- `Basics` (`basics.dfy`): bytes, text and the byte-wise order of Rust strings.
- `SortedMap` (`sorted_map.dfy`): the `BTreeMap` as sorted entries.
- `Resp` (`resp.dfy`): the contents of `mod.rs`.
- `BytesBuf` (`bytes_mut.dfy`): the `BytesMut` buffer, as a class over `seq<byte>`.
- `SimpleStringCodec` (`simple_string.dfy`): the SimpleString codec.

Text (a Rust `String`) is modelled as its UTF-8 bytes. Rust orders `str` byte-wise, and `BTreeMap` iterates its keys in that order. So `Basics.Less`, lexicographic order on bytes, is exactly the key order of a `RespMap`.

`decode` takes `&mut BytesMut`. It is modelled as the method `SimpleStringCodec.Decode`, which modifies a `BytesMut` object. The pure function `DecodeSpec` specifies it, and the lemmas are stated about `DecodeSpec`. `expect_length` takes `&[u8]`, so it is the pure function `ExpectLength`.

The buffer operations `extend_from_slice`, `put_bytes` and `split_to` belong to the `bytes` crate. They are modelled by their observable effect on the buffered bytes. `split_to(at)` takes the first `at` bytes and keeps the rest.

The helper `extract_simple_frame_data` and the constant `CRLF_LEN` come from `decode.rs`, which is not part of this model. They are specified by what their two call sites need:
- `ExtractSimpleFrameData(buf, prefix)` returns the index of the first CRLF at or after the end of the prefix.
- It returns `NotComplete` if the buffer has no such CRLF yet, or if the buffer is a strict prefix of the marker (the empty buffer).
- It returns `InvalidFrameType` if the buffer starts with another marker. The error carries the expected prefix.

This behaviour is an explicit modelling assumption.

## Model

| member | source | states |
|---|---|---|
| `SortedMap.Keys` | src/resp/mod.rs:117-123 | the keys of the map in iteration order: one per entry, exactly the keys of the map (each listed one is a key and every key is listed), strictly ascending when the entries are sorted |
| `SortedMap.Get` | src/resp/mod.rs:117-123 | lookup through `Deref` finds a value exactly when the key is in the denoted map, and the value is the one mapped there |
| `SortedMap.InsertSorted` | src/resp/mod.rs:125-129 | inserting through `DerefMut` keeps the keys unique and strictly ascending |
| `SortedMap.InsertUpdates` | src/resp/mod.rs:125-129 | inserting changes the mapping at the inserted key alone, to the new value (an existing value is overwritten) |
| `SortedMap.InsertCount` | src/resp/mod.rs:125-129 | inserting an existing key leaves the entry count unchanged; a new key adds exactly one entry (with `LenCountsKeys`, the same holds of the key count) |
| `SortedMap.LenCountsKeys` | src/resp/mod.rs:80 | for sorted entries the number of entries equals the number of distinct keys of the denoted map |
| `SortedMap.Canonical` | src/resp/mod.rs:80 | two sorted entry sequences that denote the same mapping are equal: the key order is the container's, whatever the order of construction |
| `Resp.RespFrame.FromSlice` | src/resp/mod.rs:181-185 | `From<&[u8]> for RespFrame` yields a `BulkString` frame whose bytes are the input bytes |
| `Resp.RespFrame.FromArray` | src/resp/mod.rs:187-191 | `From<&[u8; N]> for RespFrame` yields a `BulkString` frame holding the N input bytes unchanged |
| `Resp.RespMap.New` | src/resp/mod.rs:163-167 | `RespMap::new` is the empty map, with no keys and no entries, and satisfies the container invariant |
| `Resp.RespMap.Default` | src/resp/mod.rs:169-173 | `RespMap::default` equals `RespMap::new` |
| `Resp.RespMap.Len` | src/resp/mod.rs:117-123 | `len` through `Deref` is the number of keys of the map |
| `Resp.RespMap.Keys` | src/resp/mod.rs:117-123 | a map's keys are as many as its entries, exactly the keys it holds (none missing, none extra), and iterate in strictly ascending order |
| `Resp.RespMap.Get` | src/resp/mod.rs:117-123 | `get` finds a value exactly for the keys of the map, and returns the mapped value |
| `Resp.RespMap.Insert` | src/resp/mod.rs:125-129 | `insert` through `DerefMut` keeps the invariant, maps the key to the new value, leaves every other key's value unchanged, and its key count grows by one for a new key and stays the same for an existing one |
| `Resp.InsertOrderIrrelevant` | src/resp/mod.rs:80 | inserting two different keys in either order builds the same map |
| `Resp.TextWrappersRoundTrip` | src/resp/mod.rs:139-149 | `SimpleString::new` and `SimpleError::new` store the text unchanged, `Deref`/`AsRef` give it back, and every value is the `new` of its own text |
| `Resp.BulkStringRoundTrip` | src/resp/mod.rs:151-155 | `BulkString::new` and `From<&[u8; N]>` store the bytes unchanged, and `Deref`/`AsRef` give them back |
| `Resp.AggregatesKeepElements` | src/resp/mod.rs:157-179 | `RespArray::new` and `RespSet::new` keep the element sequence exactly, in order and at the same length, so a set keeps repeated elements (no de-duplication) |
| `SimpleStringCodec.FindCrlf` | src/resp/simple_string.rs:20 | the result is the first CRLF pair at or after the start index, or none exists there |
| `SimpleStringCodec.ExtractSimpleFrameData` | src/resp/simple_string.rs:20 | on success the buffer starts with the marker and the result is the first CRLF after it; `NotComplete` exactly when the marker or the CRLF has not arrived yet; otherwise `InvalidFrameType` for a foreign marker |
| `SimpleStringCodec.DecodeSpec` | src/resp/simple_string.rs:19-26 | a successful decode returns a CRLF-free text whose encoding followed by the remaining bytes is exactly the input buffer |
| `SimpleStringCodec.ExpectLength` | src/resp/simple_string.rs:27-30 | the probe succeeds exactly when decode does; its length is that of the decoded frame's encoding, at least 3, and the bytes after it are what decode leaves; on failure it reports decode's error |
| `SimpleStringCodec.Decode` | src/resp/simple_string.rs:19-26 | on success the buffer before the call is the returned frame's encoding followed by the buffer after it, so exactly the frame's bytes are removed; on failure (`NotComplete` included) the buffer is unchanged and the error is the one extraction reports |
| `SimpleStringCodec.DecodeEncoded` | src/resp/simple_string.rs:11-25 | round trip: decoding `encode(s) ++ rest` for CRLF-free `s` returns `s` and leaves `rest` |
| `SimpleStringCodec.PrefixOfEncodingNotComplete` | src/resp/simple_string.rs:77-80 | every strict prefix of an encoding, the empty one included, is `NotComplete` for both decode and the length probe |
| `SimpleStringCodec.RetryAfterNotComplete` | src/resp/simple_string.rs:77-84 | after `NotComplete` on a partial frame, appending the missing bytes and retrying yields the full frame and consumes exactly it |
| `SimpleStringCodec.EncodeLength` | src/resp/simple_string.rs:12-13 | an encoding is the text plus 3 bytes: the `+` marker first, CRLF last |
| `SimpleStringCodec.EncodeOk` | src/resp/simple_string.rs:63-66 | `SimpleString::new("OK")` encodes to the five bytes `+OK\r\n` |
| `SimpleStringCodec.DecodeThenRetry` | src/resp/simple_string.rs:70-87 | the decode test on one buffer: `+OK\r\n` gives `OK`; `+hello\r` gives `NotComplete`; after appending `\n` the retry gives `hello` and empties the buffer |

## Left out

- `RespFrame::Double(f64)` keeps only the raw bit pattern of the float. Floating-point values and `f64`'s `PartialEq` are not modelled: NaN is unequal to itself in Rust and `0.0 == -0.0` there, while the model compares bit patterns.
- The payloads of `ParseIntError`, `Utf8Error` and `ParseFloatError` are not modelled. They wrap standard-library error types. The kinds are kept.
- The `thiserror` display strings and the `enum_dispatch` code generation are not modelled (src/resp/mod.rs:12, 23-41). `RespFrame::encode` dispatches to the variant's own `encode`. Only the SimpleString variant's `encode` is part of this model (the others are in `encode.rs`), so `EncodeOk` states the test at src/resp/simple_string.rs:63-66 on `SimpleString::encode` directly.
- UTF-8 is not modelled. Text is modelled as the bytes of a valid UTF-8 string, so `String::from_utf8_lossy` is the identity. Its replacement of invalid bytes is not modelled.
- `decode.rs` and `encode.rs` are not part of this model (declared at src/resp/mod.rs:1-2). So the codecs of the other variants, and the real bodies of `extract_simple_frame_data` and `CRLF_LEN`, are absent. `ExtractSimpleFrameData` is specified only by the contract its call sites need. The message text of its `InvalidFrameType` error is not the real one.
- `bytes::BytesMut` is modelled only through the bytes it holds. Its capacity, reallocation and shared storage are not modelled.
- `DerefMut for RespMap` hands out the whole `BTreeMap`. Only `insert` is modelled. Other mutations (`remove`, the entry API) and the previous value that `insert` returns are not.
- `Resp.RespMap.Insert` and `Resp.RespMap.Keys` require `Valid()` (sorted, unique keys), and `Resp.RespMap.Len` equals the key count only under it. A Rust `BTreeMap` always has this property, but a Dafny `RespMap` value does not carry it by construction.
- The `Deref`/`AsRef` accessors and the `new` constructors carry no contracts of their own: each returns or wraps its argument. Their properties are stated by the round-trip lemmas.
- Sizes (`usize`) are unbounded naturals. `isize` is taken at its 64-bit width.
- `SimpleString` is declared twice, at src/resp/mod.rs:59 and src/resp/simple_string.rs:8. The two are identical, so the model has one type.
- `src/lib.rs` is not modelled. It only declares modules. The `backend`, `cmd` and `network` modules it names are not part of this model.
