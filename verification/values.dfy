/**
 * What a URL handler may return, what the server sends back, and the
 * foreign library calls the negotiator depends on.
 */
module Values {
  import opened Wrappers
  import Utf8
  import PyDict

  /**
   * A response object the framework can send: either one the negotiator
   * builds or one a handler built itself.
   */
  datatype Response =
    | Redirect(location: string)                              // `web.HTTPFound`: 302 Found with a Location header
    | Body(status: int, body: seq<Utf8.byte>, contentType: string)  // `web.Response(body=...)` with an explicit content type
    | Status(code: int)                                       // a bare status with an empty body
    | Text(status: int, text: string)                         // `web.Response(status=..., text=...)`
    | Stream(id: nat)                                         // any other stream response (file, websocket, ...), by identity

  /**
   * The value a handler returns, classified by the Python type tests the
   * negotiator applies. Each case also covers subclasses of its type.
   */
  datatype Value =
    | Prebuilt(resp: Response)                  // an instance of `web.StreamResponse`
    | Bytes(data: seq<Utf8.byte>)               // `bytes`
    | Str(s: string)                            // `str`
    | Dict(entries: PyDict.Dict<Value>)         // `dict`, in insertion order
    | Int(i: int)                               // `int`
    | Bool(b: bool)                             // `bool`, which Python also counts as an `int`
    | Tuple(elems: seq<Value>)                  // `tuple`
    | PyNone                                    // `None`
    | Other(id: nat)                            // any other object, by identity

  /** True when `isinstance(v, int)` holds. */
  predicate IsInt(v: Value) {
    v.Int? || v.Bool?
  }

  /** The integer value of an `int`; `True` and `False` are 1 and 0. */
  function IntOf(v: Value): int
    requires IsInt(v)
  {
    match v
    case Int(i) => i
    case Bool(b) => if b then 1 else 0
  }

  /** The ways a request can raise instead of returning a response. */
  datatype Fault =
    | HandlerRaised(exception: nat)  // the URL handler itself raised this exception (by identity)
    | NoUserAttribute    // `request.__user__` was never set: AttributeError
    | JsonFailed         // `json.dumps` raised (for instance, an object without `__dict__`)
    | RenderFailed       // the template could not be found or rendering raised

  /**
   * The foreign calls: `json.dumps(d, ensure_ascii=False, default=...)`,
   * `get_template(name).render(**vars)` of the application's template
   * environment, and `str(v)` for a value that is not itself a string.
   * The first two yield `None` when the library call raises.
   */
  datatype Env = Env(
    json: PyDict.Dict<Value> -> Option<string>,
    render: (Value, PyDict.Dict<Value>) -> Option<string>,
    str: Value -> string)

  /** Python's `str(v)`: a string is its own text; anything else is the library's rendering of it. */
  function PyStr(v: Value, env: Env): (t: string)
    ensures v.Str? ==> t == v.s
  {
    if v.Str? then v.s else env.str(v)
  }
}
