/** Python values as the JSON and literal parsers hand them back, seen only as far as the
    pipeline looks into them, and the outcomes of the library calls the pipeline makes. */
module PyValues {

  /** A dictionary key: the text keys JSON produces, or any other hashable literal, by its repr. */
  datatype Key = StrKey(name: string) | OtherKey(repr: string)

  /** A parsed value. Numbers, booleans and `None` are kept only by their repr. */
  datatype Value =
    | Str(text: string)
    | Dict(entries: map<Key, Value>)
    | List(items: seq<Value>)
    | Scalar(repr: string)

  /** What a call to `json.loads` or `ast.literal_eval` does: it returns a value, raises the
      error its caller catches (`JSONDecodeError`; `SyntaxError` or `ValueError`), or raises
      something else. */
  datatype ParseOutcome = Parsed(value: Value) | Rejected | Raised(message: string)

  /** What a call to `json.dumps` does: it returns text or raises (`TypeError` on a value
      JSON cannot hold, say). */
  datatype DumpOutcome = Dumped(text: string) | DumpRaised(message: string)

  /** What the cleaners return: the parsed value, or the cleaned text when parsing failed. */
  datatype Cleaned = Json(value: Value) | Text(text: string)
}
