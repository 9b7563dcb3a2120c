/** A `PathBuf` as the program uses it. On Unix a path and its components
    are `OsStr` byte strings; the program only ever asks a path for its
    extension and its file stem, so those are given with the path rather
    than derived from its bytes by `Path::extension`/`Path::file_stem`. */
module Paths {
  import opened Wrappers
  import opened Utf8

  type OsStr = seq<Byte>

  datatype Path = Path(raw: OsStr, extension: Option<OsStr>, stem: Option<OsStr>)

  /** The bytes `OsStr == "json"` compares against: the UTF-8 of "json". */
  const JsonExtension: OsStr := Encode("json")
}
