/**
 * The response negotiator: turns whatever a URL handler returned into a
 * response, by a fixed chain of type tests in which the first match wins.
 */
module Negotiator {
  import opened Wrappers
  import Utf8
  import PyDict
  import opened Values

  const OctetStream: string := "application/octet-stream"
  const HtmlUtf8: string := "text/html;charset=utf-8"
  const JsonUtf8: string := "application/json;charset=utf-8"
  const PlainUtf8: string := "text/plain;charset=utf-8"

  /** The only content types the negotiator ever sets. */
  const ContentTypes: set<string> := {OctetStream, HtmlUtf8, JsonUtf8, PlainUtf8}

  /** A string handler result with this prefix asks for a redirect to the rest of the string. */
  const RedirectPrefix: string := "redirect:"

  /** The dict key naming the template to render, and the key the current user is stored under. */
  const TemplateKey: string := "__template__"
  const UserKey: string := "__user__"

  /** The status of `web.Response` when none is given. */
  const Ok: int := 200

  predicate StartsWith(s: string, prefix: string) {
    |prefix| <= |s| && s[..|prefix|] == prefix
  }

  /** `d.get(k)`: the value under `k`, or `None` when the key is absent. */
  function PyGet(d: PyDict.Dict<Value>, k: string): Value {
    match PyDict.Get(d, k)
    case Some(v) => v
    case None => PyNone
  }

  /** An `int` (or `bool`) in [100, 600): what the negotiator accepts as a status code. */
  predicate IsStatusCode(v: Value) {
    IsInt(v) && 100 <= IntOf(v) < 600
  }

  /**
   * The response for handler result `r` of a request whose `__user__`
   * attribute is `user` (`None` when the attribute was never set).
   */
  function Negotiate(r: Value, user: Option<Value>, env: Env): (out: Result<Response, Fault>)
    ensures out.Failure? ==> r.Dict? && !out.error.HandlerRaised?
    ensures out.Success? && !r.Prebuilt? && out.value.Body? ==>
      out.value.status == Ok && out.value.contentType in ContentTypes
    ensures out.Success? && !r.Prebuilt? ==> !out.value.Stream?
  {
    if r.Prebuilt? then
      Success(r.resp)
    else if r.Bytes? then
      Success(Body(Ok, r.data, OctetStream))
    else if r.Str? then
      if StartsWith(r.s, RedirectPrefix) then
        Success(Redirect(r.s[9..]))
      else
        Success(Body(Ok, Utf8.Encode(r.s), HtmlUtf8))
    else if r.Dict? then
      var template := PyGet(r.entries, TemplateKey);
      if template == PyNone then
        match env.json(r.entries)
        case None => Failure(JsonFailed)
        case Some(text) => Success(Body(Ok, Utf8.Encode(text), JsonUtf8))
      else
        match user
        case None => Failure(NoUserAttribute)
        case Some(u) =>
          match env.render(template, PyDict.Set(r.entries, UserKey, u))
          case None => Failure(RenderFailed)
          case Some(html) => Success(Body(Ok, Utf8.Encode(html), HtmlUtf8))
    else if IsStatusCode(r) then
      Success(Status(IntOf(r)))
    else if r.Tuple? && |r.elems| == 2 && IsStatusCode(r.elems[0]) then
      Success(Text(IntOf(r.elems[0]), PyStr(r.elems[1], env)))
    else
      Success(Body(Ok, Utf8.Encode(PyStr(r, env)), PlainUtf8))
  }
}
