# cconst — a Dafny model

`cconst` is a Rust build-script helper that bakes `Copy` values computed at
build time into the program. A build script registers a named value in a
`CopyConsts` registry. The registry turns the value's raw bytes into a
byte-slice literal such as `&[0x08, 0x08, 0x08, 0x08, ]`. It wraps that
literal in the source text of an `#[inline]` accessor function that casts the
buffer back to the declared type. `write_code` then writes each accessor to
`$OUT_DIR/cconst-<name>.rs`.

This project models that pipeline in six modules:

- `Wrappers`: `Option` and `Result`.
- `Hex`: the byte type and `{:02X}` formatting, plus the parser that inverts it.
- `Marshall`: `marshall_value`, the byte-slice literal, and its decoder `Unmarshall`.
- `Accessor`: `create_constant_func`, the accessor template, and `ReadBack`, which extracts the literal from an accessor again.
- `Registry`: `CopyConsts`, `new` and `add_const`, and a build script's sequence of `add_const` calls.
- `Output`: `build_output_path` and `write_code`.

`write_code` is modelled twice:

- `WriteCode` is a pure function. It gives the outcome and the set of files written.
- `Commit` is a method. It walks the entries in an arbitrary order, as the hash map does, and stops at the first failure.

How the environment and the file system are modelled:

- A value is given as its memory image, a `seq<Byte>`.
- The `OUT_DIR` environment variable is an `Option<string>` parameter.
- The file system is a map from path to contents.
- File creation failures are given as a set of unwritable paths.

## Model

| member | source | states |
|---|---|---|
| Hex.FormatByte | src/lib.rs:85 | `{:02X}` of a byte is exactly two upper-case hex digits; their values, high digit first, add up to the byte |
| Hex.ParseFormatByte | src/lib.rs:85 | parsing the two printed digits gives back the byte |
| Hex.FormatParseByte | src/lib.rs:85 | the two-digit upper-case form is the only spelling of a byte the parser accepts |
| Hex.FormatByteInjective | src/lib.rs:85 | distinct bytes print differently |
| Marshall.Groups | src/lib.rs:84-86 | the loop emits six characters per byte, and byte `i` is rendered at offset `6*i`, in address order |
| Marshall.MarshallValue | src/lib.rs:78-91 | the literal has length `3 + 6n`, opens with `&[`, ends with `]`, and group `i` at offset `2 + 6*i` renders byte `i` |
| Marshall.MarshallValueFormat | src/lib.rs:82-88 | every group is lower-case `0x`, two upper-case digits spelling that byte, then `, ` |
| Marshall.UnmarshallMarshall | src/lib.rs:78-91 | round trip: decoding the literal recovers exactly the input bytes |
| Marshall.MarshallUnmarshall | src/lib.rs:78-91 | canonical form: any text the decoder accepts for `bs` is the marshaller's output for `bs`, including the trailing `, ` |
| Marshall.MarshallValueInjective | src/lib.rs:78-91 | different byte images give different literals |
| Marshall.MarshallEmpty | src/lib.rs:82-88 | a zero-sized value gives `&[]` |
| Marshall.MarshallDocExample | src/lib.rs:44 | the bytes 8, 8, 8, 8 give `&[0x08, 0x08, 0x08, 0x08, ]`, as the crate documentation shows |
| Accessor.CreateConstantFunc | src/lib.rs:93-104 | the accessor text is as long as the template's fixed text, plus the name, plus the type name twice, plus the literal |
| Accessor.AccessorSignature | src/lib.rs:96 | the text starts with `#[inline]`, `fn `, the function name, `() -> &'static ` and the type name |
| Accessor.AccessorBuf | src/lib.rs:97 | `const BUF: &[u8] = ` is followed directly by the marshalled literal of the value |
| Accessor.AccessorCast | src/lib.rs:98-99 | right after the byte literal comes `;`, then `unsafe { &*(BUF.as_ptr() as *const `, then the type name, then the closing `) }` and `}` with a newline, which end the text |
| Accessor.ReadBackCreate | src/lib.rs:93-104 | reading the literal back out of a generated accessor gives the registered bytes |
| Accessor.CreateReadBack | src/lib.rs:93-104 | the only accessor text that reads back as `bs` is the template filled with `bs` |
| Accessor.CreateConstantFuncInjective | src/lib.rs:93-104 | for one name and type, different values give different accessor text |
| Registry.New | src/lib.rs:116-118 | a new registry holds no constant |
| Registry.AddConst | src/lib.rs:128-131 | the key set gains `fname`; `fname` maps to the generated accessor; every other entry is unchanged |
| Registry.AddConstOverwrites | src/lib.rs:128-131 | a second `add_const` under the same name replaces the first, with no error |
| Registry.AddConstCommutes | src/lib.rs:128-131 | registrations under different names can be made in either order |
| Registry.AddAll | src/lib.rs:13-17 | after a build script's sequence of calls, each name holds the accessor of its last registration, and unregistered names are untouched |
| Registry.NewThenAdd | src/lib.rs:13-17 | the documented script leaves one entry, which reads back as the registered bytes |
| Output.BuildOutputPath | src/lib.rs:110-112 | fails exactly when `OUT_DIR` is unset; otherwise the path is `OUT_DIR`, `/cconst-`, the name and `.rs`, from which the name can be recovered |
| Output.OutputPathOfName | src/lib.rs:111 | a path that decodes to a name is exactly that name's output path |
| Output.OutputPathInjective | src/lib.rs:111 | within one directory, distinct names get distinct path strings |
| Output.Files | src/lib.rs:135-143 | one file per entry, at its path, holding its text; every file belongs to an entry |
| Output.FilesCount | src/lib.rs:135-143 | exactly as many files as entries |
| Output.WriteCode | src/lib.rs:134-146 | an empty registry succeeds with no files, even without `OUT_DIR`; a non-empty one without `OUT_DIR` fails with the "missing OUT_PATH" error; otherwise each entry's text is at its path and nothing else is written |
| Output.Commit | src/lib.rs:134-146 | in any iteration order, with files identified by their exact path string: succeeds exactly when the registry is empty or `OUT_DIR` is set and every path is writable; on success the file system is overwritten exactly as `WriteCode` says; a missing `OUT_DIR` writes nothing; a failed create names an unwritable path of an entry; files written before a failure are registry files |
| Output.SuccessMatchesWriteCode | src/lib.rs:134-146 | a completed walk over all entries leaves the file system that `WriteCode` describes |
| Output.RecommitIdempotent | src/lib.rs:134-146 | committing the same registry twice leaves the same file system as committing it once |
| Output.WriteCodeTwo | src/lib.rs:134-146 | two entries give exactly two distinct files, each holding its own entry's text |
| Output.TwoConstants | src/lib.rs:128-146 | two `add_const` calls under different names, then a commit, give two distinct files with the two accessors |

## Left out

- The unsafe pointer read and `size_of::<T>()` (src/lib.rs:79, 84-85) are not modelled. A value enters the model as its memory image, a sequence of bytes. Whether that image is self-contained is the caller's responsibility and is not modelled.
- The runtime meaning of the generated Rust code is not modelled. The cast back to `T` and the `#[inline]` behaviour are outside this model. Only the generated text is modelled.
- The `cconst!` and `add_const!` macros (src/lib.rs:57-72) are not modelled. They are compile-time macros.
- There is no check of `typename` against the value, because the source has none.
- The `OUTPUT PATH` line printed to standard output (src/lib.rs:140) is not modelled. That print is unwrapped, so if writing to standard output fails, `write_code` panics instead of returning an error. Output.Commit's "succeeds exactly when" does not cover that panic.
- `env::VarError::NotUnicode` is folded into "unset". Both give the same error in `write_code`.
- Error values are not modelled. The `io::Error` kind and message text are represented by the `CommitError` constructors. The path in `CreateFailed` is a witness the model adds: the `io::Error` from `File::create` or `write_all` carries only the operating system's error, so the caller of `write_code` cannot see which path failed.
- Failures of `File::create` and of `write_all` are merged into one "unwritable path" set. A file truncated by `create` before a failed `write_all` is not modelled.
- Output.Commit: when a commit fails, the files already written are stated only as a sub-map of the entries' files over the old file system. Which subset was written depends on the hash map's unspecified iteration order.
- Accessor.CreateConstantFunc: its own contract states only the length. The position of each piece of the template is stated by AccessorSignature, AccessorBuf and AccessorCast, and ReadBackCreate and CreateReadBack state the whole text. The full accessor text for the documented example is not stated as a literal. Only its byte literal is, in MarshallDocExample.
- `write_code` reads `OUT_DIR` once per entry, inside the loop (src/lib.rs:135-138). So an empty registry commits successfully even when `OUT_DIR` is unset. A missing `OUT_DIR` becomes `io::Error::new(io::ErrorKind::Other, "missing OUT_PATH")`, which the model represents as `MissingOutDir`.
- Output.OutputPathInjective: file identity is exact string equality of paths. On a case-insensitive file system, the default on macOS and Windows, `add_const("Foo", ...)` and `add_const("foo", ...)` write the same file, and which text survives depends on the hash map's iteration order. Output.Commit's order-independence therefore holds only where distinct path strings are distinct files. The file system's path normalisation is not modelled.
