/** The Python values and errors the pipeline handles: values produced by `json.loads`, the
    exceptions the scripts raise or catch, Python truthiness, and the `in`, `[...]` and `.get`
    operators applied to those values. */
module Py {
  import Strings

  datatype Option<T> = None | Some(value: T)

  /** A value `json.loads` produces. Numbers are integers here. */
  datatype Json =
    | JNull
    | JBool(b: bool)
    | JNumber(n: int)
    | JString(s: string)
    | JArray(items: seq<Json>)
    | JObject(fields: map<string, Json>)

  /** Why a configuration check raised `ImproperlyConfigured`. */
  datatype ConfigProblem =
    | NoPreviousResult(filenameVar: string, jsonVar: string)
    | ResultFileNotFound(paths: seq<string>, filenameVar: string, filename: string)
    | UsernamesNotSet
    | UsersNotFound(missing: set<string>)

  /** An exception, by class. `Raised` is one thrown by code outside the model (the ORM, the
      forum client, `validate_username`), carrying its `str(exc)`. */
  datatype PyError =
    | ImproperlyConfigured(problem: ConfigProblem)
    | JsonDecodeError(text: string)
    | TypeError(reason: string)
    | KeyError(key: string)
    | AttributeError(attribute: string)
    | UpdateFailed(url: string, newUsername: Json)
    | Raised(message: string)

  datatype Result<T> = Ok(value: T) | Err(error: PyError) {
    predicate IsFailure() { Err? }
    function PropagateFailure<U>(): Result<U> requires Err? { Err(error) }
    function Extract(): T requires Ok? { value }
  }

  /** The exceptions a forum result entry can record. */
  predicate Recordable(e: PyError) {
    e.UpdateFailed? || e.KeyError? || e.TypeError? || e.Raised?
  }

  /** `str(exc)` for the exceptions a forum result entry records. */
  function ErrorText(e: PyError): string
    requires Recordable(e)
  {
    match e
    case UpdateFailed(url, name) =>
      "Username update failed (username update attempted: "
        + (if name.JString? then name.s else "<non-string value>") + ", url: " + url + ")"
    case KeyError(key) => "'" + key + "'"
    case TypeError(reason) => reason
    case Raised(message) => message
  }

  /** Python truthiness (`if value:`). */
  predicate Truthy(j: Json) {
    match j
    case JNull => false
    case JBool(b) => b
    case JNumber(n) => n != 0
    case JString(s) => s != ""
    case JArray(xs) => xs != []
    case JObject(m) => m != map[]
  }

  /** `key in container`: a key of a dict, an element of a list, a substring of a string; any
      other value is not a container and raises `TypeError`. */
  function Contains(key: string, container: Json): (r: Result<bool>)
    ensures r.Err? <==> !(container.JObject? || container.JArray? || container.JString?)
    ensures r.Err? ==> r.error.TypeError?
    ensures container.JObject? ==> r == Ok(key in container.fields)
    ensures container.JArray? ==> r == Ok(JString(key) in container.items)
    ensures container.JString? ==> r == Ok(Strings.IsSubstring(key, container.s))
  {
    match container
    case JObject(m) => Ok(key in m)
    case JArray(xs) => Ok(JString(key) in xs)
    case JString(s) => Ok(Strings.IsSubstring(key, s))
    case _ => Err(TypeError("argument is not iterable"))
  }

  /** `container[key]` with a string key: only a dict holding the key answers. */
  function Subscript(container: Json, key: string): (r: Result<Json>)
    ensures r.Ok? <==> container.JObject? && key in container.fields
    ensures r.Ok? ==> r.value == container.fields[key]
  {
    match container
    case JObject(m) => if key in m then Ok(m[key]) else Err(KeyError(key))
    case JArray(_) => Err(TypeError("list indices must be integers"))
    case JString(_) => Err(TypeError("string indices must be integers"))
    case _ => Err(TypeError("object is not subscriptable"))
  }

  /** `container.get(key, default)`: only dicts have a `get` method. */
  function Get(container: Json, key: string, default: Json): (r: Result<Json>)
    ensures r.Ok? <==> container.JObject?
    ensures container.JObject? && key !in container.fields ==> r == Ok(default)
    ensures container.JObject? && key in container.fields ==> r == Ok(container.fields[key])
  {
    match container
    case JObject(m) => Ok(if key in m then m[key] else default)
    case _ => Err(AttributeError("get"))
  }

  /** `os.getenv(name, default)` against a snapshot of the process environment. */
  function GetEnv(env: map<string, string>, name: string, default: Option<string>): Option<string> {
    if name in env then Some(env[name]) else default
  }

  /** Truthiness of an optional string (`None` and `""` are false). */
  predicate SomeNonEmpty(v: Option<string>) {
    v.Some? && v.value != ""
  }
}
