# Binary glTF container parser and embedded-buffer importer

A Dafny model of two parts of a `no_std` glTF 2.0 loader written in Rust:

- **The GLB splitter** (`src/binary.rs`). A binary glTF file starts with a 12-byte header:
  the magic `"glTF"`, then a little-endian `version` and a little-endian total `length`.
  A mandatory JSON chunk follows, then an optional BIN chunk. Each chunk starts with an
  8-byte preamble: a little-endian payload length and a 4-byte tag (`"JSON"` or `"BIN\0"`).
  `Glb::from_slice` reads the header and checks the declared length against the bytes
  that are left. It then checks the version and splits the rest into the JSON payload and
  the optional BIN payload, checking each chunk's declared length against what is left.
- **The buffer importer** (`src/import.rs`). `import_buffers` walks the document's buffer
  descriptors in order. For each one, `from_blob` takes the BIN payload out of a
  single-use `Option` slot and pads it with zero bytes to a multiple of four. The padded
  data must be at least as long as the descriptor declares.

Modules:

- `Results` (`results.dfy`): `Option` and a `Result` that works with `:-`, the counterpart of Rust's `?`.
- `Bytes` (`bytes.dfy`): `byte`, `u32`, 4-byte arrays, the little-endian decoder and its encoder partner.
- `Binary` (`binary.dfy`): the GLB datatypes, readers, splitter and `from_slice`. The reader over
  `&[u8]` becomes a byte sequence plus a cursor offset. Every reading function takes the offset
  and returns the value read together with the advanced offset (`Parsed(value, next)`).
- `BinaryLayout` (`binary.dfy`): the container layout as a writer lays it out, and the parser's round trip over it.
- `Import` (`import.dfy`): `from_blob` and `import_buffers` as methods. The `&mut Option`
  slot is passed in and the slot's value afterwards is returned. The padding loop and the
  descriptor loop are `while`/`for` loops with invariants.

## Model

| member | source | states |
|---|---|---|
| `Bytes.U8ArrToU32` | src/binary.rs:235-237 | the result is below 2^32, and byte `i` of the result (`r / 256^i % 256`) is `arr[i]`: little-endian decoding |
| `Bytes.DecodeEncode` | src/binary.rs:235-237 | decoding the four little-endian bytes of any `u32` gives that value back |
| `Bytes.EncodeDecode` | src/binary.rs:235-237 | encoding a decoded 4-byte field gives back the same four bytes, so the decoder is a bijection |
| `Binary.ReadExact` | src/binary.rs:85-87 | a 4-byte `read_exact` on a slice succeeds exactly when four bytes are left: it returns them and advances the cursor by 4, and otherwise fails with `Io` |
| `Binary.HeaderFromReader` | src/binary.rs:80-100 | `Io` exactly when fewer than 12 bytes are left, because all three fields are read before the magic is tested; a wrong magic gives `Magic(those four bytes)`; otherwise version and length are decoded from bytes 4..8 and 8..12 without checking their values, and exactly 12 bytes are consumed |
| `Binary.ChunkHeaderFromReader` | src/binary.rs:108-119 | `Io` exactly when fewer than 8 bytes are left; tag `"JSON"` gives `Json`, `"BIN\0"` gives `Bin`, any other tag gives `UnknownChunkType(tag)`; the length is decoded and not checked against the slice; exactly 8 bytes are consumed |
| `Binary.SplitBinaryGltf` | src/binary.rs:122-174 | first chunk: `Io` if its preamble is cut short, `UnknownChunkType` for a foreign tag, `ChunkType(Bin)` for a BIN chunk in first position, `ChunkLength{Json, L0, bytes left}` when L0 exceeds the bytes after the preamble; on success `json` is exactly the L0 bytes after the preamble; if nothing follows, `bin` is `None` and this is not an error |
| `Binary.SplitSecondChunk` | src/binary.rs:146-173 | when bytes follow the JSON payload: `Io` if the second preamble is cut short, `UnknownChunkType`, `ChunkType(Json)` for a second JSON chunk, `ChunkLength{Bin, L1, bytes left}` when L1 exceeds what is left; otherwise `bin` is exactly the L1 bytes after the preamble and trailing bytes are ignored |
| `Binary.FromSlice` | src/binary.rs:182-206 | `Io` below 12 bytes; wrong magic gives `Magic`; `length - 12` exceeding the bytes after the header gives `Length{length - 12, bytes left}`, checked before the version; version not 2 gives `Version(version)` without reading any chunk; otherwise the result of splitting the bytes after the header, with the header kept; a success always has magic `"glTF"`, version 2 and 12 <= length <= input size |
| `BinaryLayout.SplitRoundTrip` | src/binary.rs:122-174 | splitting an encoded JSON chunk and optional BIN chunk (plus any bytes after a BIN chunk) gives back the identical payloads |
| `BinaryLayout.FromSliceRoundTrip` | src/binary.rs:176-206 | a container encoded with magic `"glTF"`, version 2, a length between 12 and its byte count, a JSON chunk and an optional BIN chunk parses back into the same header fields and byte-identical `json` and `bin` |
| `Import.Padded` | src/import.rs:20-22 | the padded blob's length is a multiple of 4, at least the blob's and less than 4 more; the blob is a prefix of it and every added byte is 0 |
| `Import.PaddedUnique` | src/import.rs:20-22 | those properties determine the padded blob: any sequence that has them equals `Padded(blob)` |
| `Import.SixBytesPadToEight` | src/import.rs:20-22 | a 6-byte blob becomes 8 bytes, the blob followed by two zeros |
| `Import.FromBlob` | src/import.rs:16-24 | the slot is empty afterwards whatever happens; an empty slot gives `MissingBlob`; a full slot gives the blob padded with zeros to a multiple of 4 (the padding loop is proved against `Padded`) |
| `Import.ImportBuffers` | src/import.rs:33-50 | on success exactly one buffer per descriptor, in order, each aligned and at least its declared length; no descriptors gives `Ok([])` whatever the blob; an empty slot gives `MissingBlob`; a first buffer shorter than declared gives `BufferLength{index, length, padded length}`; otherwise one descriptor succeeds with the padded blob and a second descriptor always fails with `MissingBlob`; an error carries no buffers |

## Behaviour of the code worth knowing

- A slice shorter than 12 bytes gives `Io` even when its first four bytes are not `"glTF"`.
  All three header fields are read before the magic is compared (src/binary.rs:85-91).
- The declared total length is only bounded by the slice: `length - 12 <= bytes after the header`.
  It is not required to equal the slice's length (src/binary.rs:185-186), although the `Header`
  documentation says it must match the length of the file (src/binary.rs:56). The splitter is given
  all the bytes after the header, not only the declared `length - 12` of them (src/binary.rs:197).
- `MissingBlob` carries no buffer index (src/import.rs:19).
- `import_buffers` calls `from_blob` for every descriptor. It does not look at where a descriptor's
  data comes from (src/import.rs:38-39), although `from_blob`'s documentation says the blob is
  taken only when the buffer's source refers to it (src/import.rs:14-15).

## Left out

- `Display` for the GLB error (src/binary.rs:209-231) and the `core::error::Error` impl (src/binary.rs:233): they only format messages.
- The `core2::io::Read` machinery: `read_exact` on a slice is modelled by `Binary.ReadExact`, a bounds-checked take of four bytes at a cursor.
- The borrowed-or-owned `Cow` payloads of `Glb` (src/binary.rs:43-45): both are plain byte sequences here.
- `Binary.FromSlice`: the crate error wrapper `crate::Error::Binary` is dropped. `from_slice` wraps every error it returns in it (src/binary.rs:195, 203-204), so the model returns the GLB error itself.
- `Binary.FromSlice`: a header with the right magic whose `length` is below 12 is excluded by the precondition `NoLengthUnderflow`. `header.length as usize - 12` underflows on it (src/binary.rs:185), which panics in a debug build, and no result is modelled for that case.
- `usize` is modelled as `nat`. The only `usize` arithmetic is the subtraction at src/binary.rs:185 (its underflow is excluded above) and the `push(0)` growth in `from_blob` (src/import.rs:20-22). Every other `usize` value is only compared. `u32 as usize` is taken to be lossless, that is, `usize` is assumed to be at least 32 bits wide.
- Determinism of parsing: every parser here is a Dafny function of its input bytes, so equal inputs give equal results by construction. A lemma stating it would say nothing more.
- `import_impl`, `import_slice_impl` and `import_slice` (src/import.rs:107-153): they need `Gltf::from_slice` and JSON deserialization into a `Document`, which are not part of this model. `Document` is reduced to its ordered buffer descriptors (index, declared length).
- The commented-out image decoding (src/import.rs:52-105): it is not compiled, and it calls an external image library.
- External or URI buffer sources: this code does not resolve them.
