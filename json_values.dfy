/** JSON values as Python's json module hands them back, Python truthiness on
    them, and the JSON decoder, which the model treats as an oracle. */
module JsonValues {
  import opened Text

  /** A decoded JSON document: dicts, lists, str, int/float, bool and None. */
  datatype JsonValue =
    | JNull
    | JBool(b: bool)
    | JNumber(n: real)
    | JString(s: string)
    | JArray(items: seq<JsonValue>)
    | JObject(fields: map<string, JsonValue>)

  datatype Option<T> = None | Some(value: T)

  /** A Python dict decoded from a JSON object. */
  type JsonObject = map<string, JsonValue>

  /** Python's bool(v): None, False, 0, "", [] and {} are false. */
  predicate Truthy(v: JsonValue) {
    match v
    case JNull => false
    case JBool(b) => b
    case JNumber(n) => n != 0.0
    case JString(s) => s != ""
    case JArray(items) => items != []
    case JObject(fields) => fields != map[]
  }

  /** What json.loads does with one string: a value, a JSONDecodeError (its
      msg and pos), or some other exception (its str()). */
  datatype Decoded =
    | Parsed(value: JsonValue)
    | SyntaxError(msg: string, pos: nat)
    | Crashed(message: string)

  /** json.loads, left abstract: every operation that parses takes it as a parameter. */
  type Decoder = string -> Decoded

  /** Number of '\n' characters in s. */
  function CountNewlines(s: string): nat {
    if |s| == 0 then 0 else (if s[0] == '\n' then 1 else 0) + CountNewlines(s[1..])
  }

  /** str() of a JSONDecodeError raised on document `doc`:
      "<msg>: line <lineno> column <colno> (char <pos>)", where lineno counts the
      newlines before pos and colno is measured from the last of them. */
  function DecodeErrorText(doc: string, msg: string, pos: nat): (r: string)
    ensures |r| > |msg| && r[..|msg|] == msg
  {
    var before := doc[..if pos <= |doc| then pos else |doc|];
    var lineno := CountNewlines(before) + 1;
    var colno := pos - LastIndexOf(before, '\n');
    msg + ": line " + NatToString(lineno) + " column " + NatToString(colno) + " (char " + NatToString(pos) + ")"
  }
}
