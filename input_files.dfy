/** `file_type` (src/main.rs:40-59): the check that every file named on the
    command line is a regular file with extension `json`. Each
    `eprintln!` + `exit(1)` and each panicking `unwrap` becomes an outcome
    of its own; `Path::is_file` is an oracle the caller supplies. */
module InputFiles {
  import opened Wrappers
  import opened Utf8
  import opened Paths

  /** Where an `unwrap` panics. */
  datatype PanicSite =
    | ExtensionUnwrap(path: Path)  // `path.extension().unwrap()` on a path without one
    | FirstUnwrap                  // `args.files.first().unwrap()` on an empty list

  datatype Outcome =
    | Json                  // `FileType::Json`
    | NotAFile(path: Path)  // "error: {path} is not a file", exit 1
    | InvalidType(path: Path)  // "error: {path} is an invalid file type", exit 1
    | NotSameType           // "error: not all files are the same type", exit 1
    | Panic(site: PanicSite)

  /** How each path is meant to be: a regular file whose extension is `json`. */
  predicate Passes(p: Path, isFile: Path -> bool) {
    isFile(p) && p.extension == Some(JsonExtension)
  }

  predicate AllPass(ps: seq<Path>, isFile: Path -> bool) {
    forall i :: 0 <= i < |ps| ==> Passes(ps[i], isFile)
  }

  /** The body of the `for_each` closure (lines 42-49): None lets the
      iteration go on, Some names the way the process ends. */
  function CheckPath(p: Path, isFile: Path -> bool): (r: Option<Outcome>)
    ensures r.None? <==> Passes(p, isFile)
    ensures !isFile(p) ==> r == Some(NotAFile(p))
    ensures isFile(p) && p.extension.None? ==> r == Some(Panic(ExtensionUnwrap(p)))
    ensures isFile(p) && p.extension.Some? && p.extension != Some(JsonExtension) ==> r == Some(InvalidType(p))
  {
    if !isFile(p) then Some(NotAFile(p))
    else match p.extension
      case None => Some(Panic(ExtensionUnwrap(p)))
      case Some(e) => if e != JsonExtension then Some(InvalidType(p)) else None
  }

  /** `iter().for_each(step)` where `step` may end the process: the first
      outcome a step produces, in list order, or None when every step let
      the iteration go on. */
  function ForEach(ps: seq<Path>, step: Path -> Option<Outcome>): (r: Option<Outcome>)
    ensures r.None? <==> forall i :: 0 <= i < |ps| ==> step(ps[i]).None?
    ensures r.Some? ==>
      exists i :: 0 <= i < |ps| && step(ps[i]) == r && forall j :: 0 <= j < i ==> step(ps[j]).None?
  {
    if ps == [] then None
    else match step(ps[0])
      case Some(o) => Some(o)
      case None =>
        var r := ForEach(ps[1..], step);
        assert forall i :: 1 <= i < |ps| ==> ps[1..][i - 1] == ps[i];
        if r.Some? then
          ghost var i :| 0 <= i < |ps[1..]| && step(ps[1..][i]) == r
                        && forall j :: 0 <= j < i ==> step(ps[1..][j]).None?;
          assert step(ps[i + 1]) == r;
          r
        else r
  }

  /** `for_each` ends at the first step that produces an outcome. */
  lemma ForEachFirst(ps: seq<Path>, step: Path -> Option<Outcome>, i: nat)
    requires i < |ps| && step(ps[i]).Some?
    requires forall j :: 0 <= j < i ==> step(ps[j]).None?
    ensures ForEach(ps, step) == step(ps[i])
  {
    var r := ForEach(ps, step);
    var k :| 0 <= k < |ps| && step(ps[k]) == r && forall j :: 0 <= j < k ==> step(ps[j]).None?;
    assert k == i;

  }

  datatype AllOutcome = AllEqual | NotAllEqual | AllPanics(path: Path)

  /** `iter().all(|p| p.extension().unwrap() == ext)` (line 53): the first
      path whose extension is not `ext` decides; if it has none the
      `unwrap` panics on it, otherwise `all` is false. */
  function AllSameExtension(ps: seq<Path>, ext: OsStr): (r: AllOutcome)
    ensures r == AllEqual <==> forall i :: 0 <= i < |ps| ==> ps[i].extension == Some(ext)
    ensures r.AllPanics? ==> r.path in ps && r.path.extension.None?
    ensures r != AllEqual ==>
      exists i :: 0 <= i < |ps| && ps[i].extension != Some(ext)
        && (forall j :: 0 <= j < i ==> ps[j].extension == Some(ext))
        && r == (if ps[i].extension.None? then AllPanics(ps[i]) else NotAllEqual)
  {
    if ps == [] then AllEqual
    else match ps[0].extension
      case None => AllPanics(ps[0])
      case Some(e) =>
        if e != ext then NotAllEqual
        else
          var r := AllSameExtension(ps[1..], ext);
          assert forall i :: 1 <= i < |ps| ==> ps[1..][i - 1] == ps[i];
          if r != AllEqual then
            ghost var i :| 0 <= i < |ps[1..]| && ps[1..][i].extension != Some(ext)
              && (forall j :: 0 <= j < i ==> ps[1..][j].extension == Some(ext))
              && r == (if ps[1..][i].extension.None? then AllPanics(ps[1..][i]) else NotAllEqual);
            assert ps[i + 1] == ps[1..][i];
            r
          else r
  }

  /** `file_type` as written (lines 40-59). Every report names a path of
      the list, and that path has the fault reported. */
  function FileType(ps: seq<Path>, isFile: Path -> bool): (r: Outcome)
    ensures r.NotAFile? ==> r.path in ps && !isFile(r.path)
    ensures r.InvalidType? ==>
      r.path in ps && isFile(r.path) && r.path.extension.Some? && r.path.extension != Some(JsonExtension)
    ensures r.Panic? && r.site.ExtensionUnwrap? ==> r.site.path in ps && r.site.path.extension.None?
  {
    match ForEach(ps, p => CheckPath(p, isFile))
    case Some(o) => o
    case None =>
      if ps == [] then Panic(FirstUnwrap)
      else
        var first := ps[0];
        match first.extension
        case None => Panic(ExtensionUnwrap(first))
        case Some(ext) =>
          match AllSameExtension(ps, ext)
          case AllPanics(p) => Panic(ExtensionUnwrap(p))
          case NotAllEqual => NotSameType
          case AllEqual => Json
  }

  /** The validator accepts a list exactly when it is non-empty and every
      path on it is a regular file with extension `json`. */
  lemma AcceptsIff(ps: seq<Path>, isFile: Path -> bool)
    ensures FileType(ps, isFile) == Json <==> |ps| > 0 && AllPass(ps, isFile)
  {
    var step := p => CheckPath(p, isFile);
    if ForEach(ps, step).None? && |ps| > 0 {
      assert forall i :: 0 <= i < |ps| ==> step(ps[i]).None?;
      assert AllPass(ps, isFile);
      assert AllSameExtension(ps, JsonExtension) == AllEqual;
    }
    if ForEach(ps, step).Some? {
      var i :| 0 <= i < |ps| && step(ps[i]) == ForEach(ps, step);
      assert !Passes(ps[i], isFile);
    }
  }

  /** The paths are checked in list order: the process ends on the first
      path that is not a `json` file, with the report `CheckPath` gives for
      that one path. */
  lemma FirstOffenderReported(ps: seq<Path>, isFile: Path -> bool, i: nat)
    requires i < |ps| && !Passes(ps[i], isFile)
    requires forall j :: 0 <= j < i ==> Passes(ps[j], isFile)
    ensures FileType(ps, isFile) == CheckPath(ps[i], isFile).value
  {
    ForEachFirst(ps, p => CheckPath(p, isFile), i);
  }

  /** Once the per-path loop has passed every extension is `json`, so the
      same-type check of lines 51-56 can never fail. */
  lemma NotSameTypeUnreachable(ps: seq<Path>, isFile: Path -> bool)
    ensures FileType(ps, isFile) != NotSameType
  {
    var step := p => CheckPath(p, isFile);
    if ForEach(ps, step).None? && |ps| > 0 {
      assert forall i :: 0 <= i < |ps| ==> step(ps[i]).None?;
      assert AllSameExtension(ps, JsonExtension) == AllEqual;
    } else if ForEach(ps, step).Some? {
      var i :| 0 <= i < |ps| && step(ps[i]) == ForEach(ps, step);
      assert CheckPath(ps[i], isFile) != Some(NotSameType);
    }
  }

  /** `first().unwrap()` panics exactly on the empty list. */
  lemma FirstUnwrapIffEmpty(ps: seq<Path>, isFile: Path -> bool)
    ensures FileType(ps, isFile) == Panic(FirstUnwrap) <==> ps == []
  {
    var step := p => CheckPath(p, isFile);
    if ForEach(ps, step).Some? {
      var i :| 0 <= i < |ps| && step(ps[i]) == ForEach(ps, step);
      assert CheckPath(ps[i], isFile) != Some(Panic(FirstUnwrap));
    } else if |ps| > 0 {
      assert step(ps[0]).None?;
    }
  }

  /** For one path "not a file" is reported before anything about its
      extension is looked at. */
  lemma NotAFileFirst(p: Path, isFile: Path -> bool)
    requires !isFile(p)
    ensures FileType([p], isFile) == NotAFile(p)
  {
  }

  /** A regular file without an extension makes line 46 panic instead of
      being reported as an invalid file type. */
  lemma MissingExtensionPanics(ps: seq<Path>, isFile: Path -> bool, i: nat)
    requires i < |ps| && isFile(ps[i]) && ps[i].extension.None?
    requires forall j :: 0 <= j < i ==> Passes(ps[j], isFile)
    ensures FileType(ps, isFile) == Panic(ExtensionUnwrap(ps[i]))
  {
    FirstOffenderReported(ps, isFile, i);
  }

  /** The check as evidently intended: a path without an extension is an
      invalid file type (`extension() != Some("json")`), not a panic. */
  function CheckPathIntended(p: Path, isFile: Path -> bool): (r: Option<Outcome>)
    ensures r.None? <==> Passes(p, isFile)
  {
    if !isFile(p) then Some(NotAFile(p))
    else if p.extension != Some(JsonExtension) then Some(InvalidType(p))
    else None
  }

  /** `file_type` with the intended per-path check and the same-type check
      comparing optional extensions, so that no path makes it panic. */
  function FileTypeIntended(ps: seq<Path>, isFile: Path -> bool): (r: Outcome)
    ensures r.NotAFile? ==> r.path in ps && !isFile(r.path)
    ensures r.InvalidType? ==> r.path in ps && isFile(r.path) && r.path.extension != Some(JsonExtension)
    ensures r.Panic? ==> ps == []
  {
    match ForEach(ps, p => CheckPathIntended(p, isFile))
    case Some(o) => o
    case None =>
      if ps == [] then Panic(FirstUnwrap)
      else if forall i :: 0 <= i < |ps| ==> ps[i].extension == ps[0].extension then Json
      else NotSameType
  }

  /** The intended validator accepts the same lists, never panics on a
      non-empty one, and differs from the code as written only where the
      latter panics on a missing extension, which it reports instead as an
      invalid file type. */
  lemma IntendedAgrees(ps: seq<Path>, isFile: Path -> bool)
    ensures FileTypeIntended(ps, isFile) == Json <==> |ps| > 0 && AllPass(ps, isFile)
    ensures |ps| > 0 ==> !FileTypeIntended(ps, isFile).Panic?
    ensures FileTypeIntended(ps, isFile) != NotSameType
    ensures FileType(ps, isFile).Panic? && FileType(ps, isFile).site.ExtensionUnwrap? ==>
      FileTypeIntended(ps, isFile) == InvalidType(FileType(ps, isFile).site.path)
    ensures !FileType(ps, isFile).Panic? || ps == [] ==> FileTypeIntended(ps, isFile) == FileType(ps, isFile)
  {
    var step := p => CheckPath(p, isFile);
    var fixed := p => CheckPathIntended(p, isFile);
    if ForEach(ps, step).Some? {
      var i :| 0 <= i < |ps| && step(ps[i]) == ForEach(ps, step)
               && forall j :: 0 <= j < i ==> step(ps[j]).None?;
      ForEachFirst(ps, fixed, i);
    } else {
      assert forall i :: 0 <= i < |ps| ==> step(ps[i]).None?;
      assert forall i :: 0 <= i < |ps| ==> fixed(ps[i]).None?;
      AcceptsIff(ps, isFile);
    }
  }
}
