/** The pure part of `insert_json` (src/main.rs:74-92): from a file's path
    and text to the one statement and the one record list handed to the
    database. Reading the file, `serde_json` and the database call are
    outside the model: the file's text (or the read failure) is an input
    and parsing is a `Json.Parser` oracle. */
module InsertJson {
  import opened Wrappers
  import opened Utf8
  import opened Paths
  import opened Json

  /** The ways `insert_json` returns early through `?`. */
  datatype ImportError =
    | ReadError              // `fs::read_to_string` failed
    | ParseError             // `serde_json::from_str::<Value>` failed
    | Context(message: string)  // an `anyhow` context message

  const StemMissing := "failed to parse stem"
  const StemNotUtf8 := "failed to conert &OsStr"

  /** The name the record list is bound under, `$records` in the query. */
  const RecordsParam := "records"

  /** What `DB.query(query).bind((name, records))` receives. */
  datatype Request = Request(query: string, name: string, records: seq<Value>)

  /** The record list of lines 75-79, with `unwrap_or`'s argument
      evaluated first as Rust does: the single-value parse, and its `?`,
      always happen. An array yields its elements in order, any other JSON
      value a list of just that value, and text that is not JSON an error. */
  function Records(parse: Parser, text: string): (r: Result<seq<Value>, ImportError>)
    ensures r.Success? <==> parse(text).Some?
    ensures r.Failure? ==> r.error == ParseError
    ensures r.Success? && parse(text).value.Array? ==> r.value == parse(text).value.elems
    ensures r.Success? && !parse(text).value.Array? ==> r.value == [parse(text).value]
  {
    var asVec := FromStrVec(parse, text);
    var single := parse(text);
    if single.None? then Failure(ParseError)
    else Success(asVec.GetOr([single.value]))
  }

  /** Lines 75-79 read as if `unwrap_or` were lazy: the single-value parse
      only when the array parse fails. */
  function RecordsLazy(parse: Parser, text: string): (r: Result<seq<Value>, ImportError>)
    ensures r.Failure? ==> r.error == ParseError && parse(text).None?
  {
    match FromStrVec(parse, text)
    case Some(xs) => Success(xs)
    case None =>
      match parse(text)
      case None => Failure(ParseError)
      case Some(v) => Success([v])
  }

  /** Evaluating the argument eagerly changes nothing: any text that parses
      as an array also parses as a value. */
  lemma EagerIsLazy(parse: Parser, text: string)
    ensures Records(parse, text) == RecordsLazy(parse, text)
  {
  }

  /** The records fold back into the value they came from: an array is
      rebuilt from its elements, any other value is the list's one element.
      The list is empty only for the empty array. */
  lemma RecordsRebuild(parse: Parser, text: string)
    requires Records(parse, text).Success?
    ensures var v, rs := parse(text).value, Records(parse, text).value;
      (v.Array? ==> Array(rs) == v) && (!v.Array? ==> rs == [v]) && (rs == [] <==> v == Array([]))
  {
  }

  /** The table name of lines 81-85: the file stem, as text. */
  function TableName(p: Path): (r: Result<string, ImportError>)
    ensures r.Success? <==> p.stem.Some? && WellFormed(p.stem.value)
    ensures r.Success? ==> Encode(r.value) == p.stem.value
    ensures p.stem.None? ==> r == Failure(Context(StemMissing))
    ensures p.stem.Some? && !WellFormed(p.stem.value) ==> r == Failure(Context(StemNotUtf8))
  {
    match p.stem
    case None => Failure(Context(StemMissing))
    case Some(stem) =>
      match Decode(stem)
      case None => Failure(Context(StemNotUtf8))
      case Some(table) =>
        Success(table)
  }

  /** The statement of line 87, `format!("INSERT INTO {} $records", table)`. */
  function InsertQuery(table: string): (q: string)
    ensures |q| == 12 + |table| + 9
    ensures q[..12] == "INSERT INTO " && q[12..12 + |table|] == table
    ensures q[12 + |table|..] == " $" + RecordsParam
  {
    "INSERT INTO " + table + " $records"
  }

  /** Reads the table back out of an insert statement: the text between the
      fixed prefix and the fixed suffix. */
  function QueryTable(query: string): (r: Option<string>)
    ensures r.Some? ==> InsertQuery(r.value) == query
  {
    var prefix, suffix := "INSERT INTO ", " $" + RecordsParam;
    if |query| >= |prefix| + |suffix| && query[..|prefix|] == prefix
       && query[|query| - |suffix|..] == suffix
    then
      assert query == query[..12] + query[12..|query| - 9] + query[|query| - 9..];
      Some(query[|prefix|..|query| - |suffix|])
    else None
  }

  /** The table is put into the statement verbatim, neither quoted nor
      escaped: it is read back unchanged from the statement. */
  lemma QueryRoundTrip(table: string)
    ensures QueryTable(InsertQuery(table)) == Some(table)
  {
    var q := InsertQuery(table);
    assert q[|q| - 9..] == " $records";
  }

  /** `insert_json` up to the database call (lines 74-89): read, build the
      record list, then the table, then the one request carrying the
      statement and the whole list bound under `records`; the first step
      that fails decides the error. */
  function PrepareInsert(p: Path, contents: Option<string>, parse: Parser): (r: Result<Request, ImportError>)
    ensures contents.None? ==> r == Failure(ReadError)
    ensures contents.Some? && Records(parse, contents.value).Failure? ==> r == Failure(ParseError)
    ensures contents.Some? && Records(parse, contents.value).Success? && TableName(p).Failure? ==>
      r == Failure(TableName(p).error)
    ensures r.Success? <==> contents.Some? && parse(contents.value).Some? && TableName(p).Success?
    ensures r.Success? ==>
      && r.value.records == Records(parse, contents.value).value
      && r.value.name == RecordsParam
      && QueryTable(r.value.query) == Some(TableName(p).value)
      && Encode(TableName(p).value) == p.stem.value
  {
    match contents
    case None => Failure(ReadError)
    case Some(text) =>
      match Records(parse, text)
      case Failure(e) => Failure(e)
      case Success(records) =>
        match TableName(p)
        case Failure(e) => Failure(e)
        case Success(table) =>
          QueryRoundTrip(table);
          Success(Request(InsertQuery(table), RecordsParam, records))
  }

  /** `person.json` (its stem the text `person`) holding an array of one
      record, such as `[{"id": 1, "name": "Al"}]`, becomes one insert into
      table `person` binding that one record. */
  lemma PersonExample(parse: Parser, text: string, p: Path, record: Value)
    requires p.stem.Some? && Decode(p.stem.value) == Some("person")
    requires parse(text) == Some(Array([record]))
    ensures PrepareInsert(p, Some(text), parse) == Success(Request("INSERT INTO person $records", "records", [record]))
  {
    assert TableName(p) == Success("person");
    assert Records(parse, text) == Success([record]);
    PersonQuery();
  }

  /** The statement for table `person`, spelled out. */
  lemma PersonQuery()
    ensures InsertQuery("person") == "INSERT INTO person $records"
  {
  }

  /** A stem that is not UTF-8, such as the lone byte 0xFF, is an error. */
  lemma NonUtf8StemExample(raw: OsStr)
    ensures TableName(Path(raw, Some(JsonExtension), Some([0xFF]))) == Failure(Context(StemNotUtf8))
  {
  }
}
