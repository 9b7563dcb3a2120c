# surrealdb_json_cli: input validation and import preparation

A model of the two pieces of logic of the `surrealdb_json_cli` command-line
tool (a single file, `src/main.rs`) that are the program's own, not CLI or
database plumbing:

- **`file_type`**: the check that every file given with `--files` is a
  regular file with extension `json`. Paths are examined in list order and
  the process stops at the first bad one. A path that is not a regular
  file (missing, a directory, or another kind) is reported before a bad
  extension. A later check that all files share one extension
  follows. Every way the function can end is an `InputFiles.Outcome`:
  `Json`, `NotAFile(p)`, `InvalidType(p)`, `NotSameType`, or a `Panic` at a
  named `unwrap`.
- **`insert_json` without its I/O**: the record list built from the file's
  JSON value, the table name taken from the file stem, and the statement
  `INSERT INTO <table> $records`. These three make up the one request
  `insert_json` would send to the database, with the whole record list
  bound under `records`. As the program stands, `main` never calls
  `insert_json` (the call at line 37 is commented out) and discards the
  result of `file_type` (line 33); the model describes what each function
  does when called.

Modules:

- `Wrappers` (wrappers.dfy) holds `Option` and `Result`.
- `Utf8` (utf8.dfy) holds bytes and UTF-8. An `OsStr` on Unix is a byte
  string, and `OsStr::to_str` succeeds exactly on well-formed UTF-8.
  `Decode` is that check, and it is proved to be the exact inverse of
  `Encode`.
- `Paths` (paths.dfy) holds a path, given with its extension and file stem.
- `Json` (json.dfy) holds `serde_json::Value` and the parser oracle.
- `InputFiles` (input_files.dfy) models `file_type`.
- `InsertJson` (insert_json.dfy) models the pure part of `insert_json`.

Two consequences of the code worth stating:

- A scalar root value is not rejected: any non-array JSON value, scalars
  included, is wrapped as a one-element list (lines 77-78).
- The same-type check of lines 51-56 can never fail, because the loop has
  already required every extension to be `json` (`NotSameTypeUnreachable`).

The error message of line 85 is kept as the program spells it:
"failed to conert &OsStr".

## Model

| member | source | states |
|---|---|---|
| `InputFiles.CheckPath` | src/main.rs:42-49 | one path passes exactly when it is a regular file with extension `json`; a non-file is reported as not a file whatever its extension; a file without an extension panics at the `unwrap`; a file with another extension is an invalid file type |
| `InputFiles.ForEach` | src/main.rs:41-50 | the iteration yields no outcome exactly when every step lets it continue; otherwise the outcome is that of a step at some index where all earlier steps continued |
| `InputFiles.ForEachFirst` | src/main.rs:41-50 | the outcome is the one produced by the first step (in list order) that produces one |
| `InputFiles.AllSameExtension` | src/main.rs:53 | the `all` check holds exactly when every path's extension equals the first path's; otherwise the first path whose extension differs decides: without an extension its `unwrap` panics, with another one `all` is false |
| `InputFiles.FileType` | src/main.rs:40-59 | `file_type` as written: every "not a file" report names a path of the list that is not a regular file; every "invalid file type" report names a listed regular file whose extension is present and not `json`; every extension panic names a listed path without an extension. `AcceptsIff`, `FirstOffenderReported`, `NotSameTypeUnreachable` and `FirstUnwrapIffEmpty` characterise its result completely |
| `InputFiles.AcceptsIff` | src/main.rs:40-58 | `file_type` returns `Json` if and only if the list is non-empty and every path is a regular file with extension `json` |
| `InputFiles.FirstOffenderReported` | src/main.rs:41-50 | paths are checked in list order: the outcome is the report for the first path that is not a `json` file |
| `InputFiles.NotAFileFirst` | src/main.rs:42-49 | for a single path that is not a file, "not a file" is reported, whatever its extension |
| `InputFiles.NotSameTypeUnreachable` | src/main.rs:46-56 | `file_type` never ends with "not all files are the same type" |
| `InputFiles.FirstUnwrapIffEmpty` | src/main.rs:51 | the `first().unwrap()` panic happens if and only if the list is empty |
| `InputFiles.MissingExtensionPanics` | src/main.rs:46 | a regular file without an extension, preceded only by valid paths, ends the run with a panic at its `extension().unwrap()` |
| `InputFiles.CheckPathIntended` | src/main.rs:46-49 | the corrected per-path check passes exactly the same paths as the original |
| `InputFiles.FileTypeIntended` | src/main.rs:40-59 | the corrected `file_type`: reports name a listed path with the fault reported, and it panics only on the empty list; `IntendedAgrees` relates it to the original |
| `InputFiles.IntendedAgrees` | src/main.rs:40-59 | the corrected validator accepts the same lists. It never panics on a non-empty list and never reports mismatched types. Where the original panics on a missing extension, it reports that path as an invalid file type. Everywhere else it agrees with the original |
| `Utf8.Encode` | src/main.rs:84 | the UTF-8 bytes of a string, at least one per character; `DecodeEncode` makes it the inverse of `Decode` |
| `Utf8.Decode` | src/main.rs:84 | `to_str`: when the bytes are well-formed UTF-8, the text it yields encodes back to exactly those bytes (and has no more characters than there are bytes) |
| `Utf8.DecodeEncodeScalar` | src/main.rs:84 | decoding the encoding of one scalar, followed by anything, yields that scalar and the encoding's length |
| `Utf8.EncodeDecodeScalar` | src/main.rs:84 | a decoded scalar re-encodes to exactly the bytes it was decoded from |
| `Utf8.DecodeEncode` | src/main.rs:84 | `to_str` of the bytes of any string yields that string |
| `Utf8.DecodeIff` | src/main.rs:84-85 | `to_str(b)` yields `s` if and only if `s` encodes to `b` |
| `InsertJson.Records` | src/main.rs:75-79 | the records exist exactly when the text is JSON. An array yields exactly its elements, in order. Any other value, scalars included, yields a one-element list of that value. Text that is not JSON is a parse error |
| `InsertJson.EagerIsLazy` | src/main.rs:77-78 | evaluating `unwrap_or`'s argument eagerly gives the same records as a lazy fallback would |
| `InsertJson.RecordsLazy` | src/main.rs:77-78 | the records as a lazy fallback would compute them; it fails only with a parse error and only on text that is not JSON; `EagerIsLazy` equates it with `Records` |
| `InsertJson.RecordsRebuild` | src/main.rs:75-79 | the records rebuild the parsed value: an array from its elements, any other value as the single element. The list is empty only for `[]` |
| `InsertJson.TableName` | src/main.rs:81-85 | the table name exists exactly when the stem exists and is UTF-8, and then its UTF-8 bytes are the stem. A missing stem fails with "failed to parse stem". A non-UTF-8 stem fails with "failed to conert &OsStr" |
| `InsertJson.InsertQuery` | src/main.rs:87 | the statement is the fixed prefix `INSERT INTO `, then the table verbatim, then ` $` followed by the name the records are bound under |
| `InsertJson.QueryTable` | src/main.rs:87 | reading a table back from a statement: whenever it yields a table, that table's insert statement is exactly the given statement |
| `InsertJson.QueryRoundTrip` | src/main.rs:87 | the table is read back from its statement unchanged, so it is neither quoted nor escaped; with `QueryTable`'s contract, statements and tables determine each other |
| `InsertJson.PrepareInsert` | src/main.rs:74-89 | errors come in program order: read, then parse, then stem. Success needs readable JSON text and a UTF-8 stem. The single request then binds the whole record list under `records` in a statement naming the stem's table |
| `InsertJson.PersonExample` | src/main.rs:74-89 | a file whose stem is the text `person`, holding an array of one record, yields `INSERT INTO person $records` binding that record |
| `InsertJson.NonUtf8StemExample` | src/main.rs:84-85 | the stem byte 0xFF fails with "failed to conert &OsStr" |

## Findings

| source | as written | input that shows it | evidently intended | confidence | as-written member | corrected member |
|---|---|---|---|---|---|---|
| src/main.rs:46 | `path.extension().unwrap()` is called on every regular file | `--files data`, where `data` is a regular file with no extension: the unwrap panics | report "is an invalid file type" and exit with status 1, as for any other extension that is not `json` | medium, not executed | `InputFiles.MissingExtensionPanics` | `InputFiles.FileTypeIntended` (related to the original by `InputFiles.IntendedAgrees`) |

## Left out

- `main`, the clap `Args` parsing, the unused `name` option and the unused `FILE_NAME` constant (lines 11, 14-38) are CLI plumbing. The model assumes nothing about the list. The empty list, which `num_args = 1..` rules out, is modelled as the `first().unwrap()` panic.
- `connect_db` and the global `DB` connection (lines 12, 61-72) are a network connection and sign-in against an external database.
- Running `DB.query(...).bind(...)` (line 89) is remote I/O. Only the request it receives is modelled: the statement text, the binding name and the record list.
- `fs::read_to_string` and `Path::is_file` (lines 42, 76) are filesystem I/O. The file's text, or a read failure, is an input, and `is_file` is an oracle function.
- `serde_json` parsing is an oracle from text to `Option<Value>`. The text of its errors (message and position) is not modelled.
- Json.FromStrVec: `from_str::<Vec<Value>>` is taken to be the `Value` parser restricted to arrays, since both deserialize a JSON array through the same sequence visitor; this is an assumption about `serde_json`, not a proved property, and the array case of `InsertJson.Records`, `InsertJson.EagerIsLazy`, `InsertJson.RecordsRebuild`, `InsertJson.PrepareInsert` and `InsertJson.PersonExample` rest on it: were that parse to fail on array text, line 78 would yield `[Array(xs)]` instead of `xs`.
- JSON numbers are unbounded integers, so floating point is not modelled.
- `Path::extension` and `Path::file_stem` are not re-derived from the path's bytes. A path carries its extension and stem as given.
- `OsStr` is modelled as on Unix (bytes). Windows' WTF-8 representation is not modelled.
- The printed diagnostics (`eprintln!`) and `exit(1)` become outcome values. Their exact text is not modelled.
- The tokio runtime and `async`. Nothing in this code runs concurrently.
