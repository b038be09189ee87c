/** Shared vocabulary of the notifier: the status enumeration, the outcome of
    one HTTP fetch, the parsed shape of the JSON state file, and the
    Option/Result wrappers used for missing values and aborted runs. */
module Types {

  datatype Option<+T> = None | Some(value: T)

  datatype Result<+R, +E> = Success(value: R) | Failure(error: E)

  /** The coarse availability reading of one page. */
  datatype Status = Open | Closed | Unknown | Error

  /** The status as the Python code spells it (and stores it in JSON). */
  function Name(s: Status): (r: string)
    ensures |r| > 0
  {
    match s
    case Open => "open"
    case Closed => "closed"
    case Unknown => "unknown"
    case Error => "error"
  }

  /** `status.upper()` for a status name; every name is plain ASCII. */
  function UpperName(s: Status): (r: string)
    ensures |r| == |Name(s)|
    ensures forall k :: 0 <= k < |r| ==> r[k] == AsciiUpper(Name(s)[k])
  {
    match s
    case Open => "OPEN"
    case Closed => "CLOSED"
    case Unknown => "UNKNOWN"
    case Error => "ERROR"
  }

  function AsciiUpper(c: char): char {
    if 'a' <= c <= 'z' then (c as int - 32) as char else c
  }

  /** A parsed JSON value as far as the state file needs it: strings, objects,
      and everything else (numbers, booleans, null, arrays) lumped together. */
  datatype Json = JStr(str: string) | JObj(fields: map<string, Json>) | JOther

  /** What opening and `json.load`-ing the state file gives: no file, a file
      that is not valid JSON, or the parsed value. */
  datatype StoredFile = NoFile | Unparsable | Parsed(value: Json)

  /** Why a run aborts with an exception while reading the state file: the
      JSON does not parse, the top-level value is not an object, or its
      `"urls"` entry is not an object. */
  datatype StoreError = MalformedJson | NotAnObject | UrlsNotAnObject

  /** What one `requests.get` produced: one of the exceptions the code
      catches by name, any other exception, or a response. */
  datatype FetchOutcome =
    | Timeout
    | ConnectionError
    | TooManyRedirects
    | OtherException(kind: string)
    | Response(code: int, body: string)
}
