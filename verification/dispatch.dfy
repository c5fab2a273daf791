/**
 * The negotiator's contract stated declaratively: one guard per branch, the
 * order in which the guards are tried, and what each branch promises to
 * produce. The lemmas show that `Negotiator.Negotiate` keeps that contract.
 */
module Dispatch {
  import opened Wrappers
  import Seqs
  import Utf8
  import PyDict
  import opened Values
  import opened Negotiator

  datatype Branch =
    | PassThrough     // a ready-made response
    | OctetBody       // raw bytes
    | RedirectTo      // a string with the redirect prefix
    | HtmlText        // any other string
    | JsonDict        // a dict with no template
    | TemplateDict    // a dict naming a template
    | BareStatus      // an int status code
    | StatusText      // a (status, description) pair
    | Stringified     // anything else

  /** The test that admits `r` to branch `b`, read on its own. */
  predicate Matches(b: Branch, r: Value) {
    match b
    case PassThrough => r.Prebuilt?
    case OctetBody => r.Bytes?
    case RedirectTo => r.Str? && StartsWith(r.s, RedirectPrefix)
    case HtmlText => r.Str?
    case JsonDict => r.Dict? && PyGet(r.entries, TemplateKey) == PyNone
    case TemplateDict => r.Dict?
    case BareStatus => IsStatusCode(r)
    case StatusText => r.Tuple? && |r.elems| == 2 && IsStatusCode(r.elems[0])
    case Stringified => true
  }

  /** The order in which the tests are tried. */
  const DispatchOrder: seq<Branch> :=
    [PassThrough, OctetBody, RedirectTo, HtmlText, JsonDict, TemplateDict, BareStatus, StatusText, Stringified]

  /**
   * Every handler result is admitted by some branch, and the selected one is
   * the first in dispatch order that admits it.
   */
  function SelectedIndex(r: Value): (i: nat)
    ensures i < |DispatchOrder| && Matches(DispatchOrder[i], r)
    ensures forall j :: 0 <= j < i ==> !Matches(DispatchOrder[j], r)
  {
    assert Matches(DispatchOrder[8], r);
    Seqs.FirstIndex(DispatchOrder, (b: Branch) => Matches(b, r)).value
  }

  /** The branch that handles `r`. */
  function Selected(r: Value): Branch {
    DispatchOrder[SelectedIndex(r)]
  }

  /** Exactly one branch handles `r`: whichever admits it with no earlier branch admitting it. */
  lemma SelectedAt(r: Value, k: nat)
    requires k < |DispatchOrder| && Matches(DispatchOrder[k], r)
    requires forall j :: 0 <= j < k ==> !Matches(DispatchOrder[j], r)
    ensures Selected(r) == DispatchOrder[k]
  {
    var i := SelectedIndex(r);
    assert Matches(DispatchOrder[i], r);
    assert i == k;
  }

  /** `out` is a 200 response whose body is the UTF-8 text `text` and whose content type is `contentType`. */
  ghost predicate Delivers(out: Result<Response, Fault>, text: string, contentType: string) {
    && out.Success?
    && out.value.Body?
    && out.value.status == Ok
    && out.value.contentType == contentType
    && Utf8.Decode(out.value.body) == Some(text)
  }

  /** What branch `b` promises for handler result `r`. */
  ghost predicate Promise(b: Branch, r: Value, user: Option<Value>, env: Env, out: Result<Response, Fault>) {
    && Matches(b, r)
    && match b
       case PassThrough => out == Success(r.resp)
       case OctetBody => out == Success(Body(Ok, r.data, OctetStream))
       case RedirectTo => out.Success? && out.value.Redirect? && RedirectPrefix + out.value.location == r.s
       case HtmlText => Delivers(out, r.s, HtmlUtf8)
       case JsonDict =>
         (match env.json(r.entries)
          case None => out == Failure(JsonFailed)
          case Some(text) => Delivers(out, text, JsonUtf8))
       case TemplateDict =>
         (match user
          case None => out == Failure(NoUserAttribute)
          case Some(u) =>
            (match env.render(PyGet(r.entries, TemplateKey), PyDict.Set(r.entries, UserKey, u))
             case None => out == Failure(RenderFailed)
             case Some(html) => Delivers(out, html, HtmlUtf8)))
       case BareStatus => out == Success(Status(IntOf(r)))
       case StatusText => out == Success(Text(IntOf(r.elems[0]), PyStr(r.elems[1], env)))
       case Stringified => Delivers(out, PyStr(r, env), PlainUtf8)
  }

  /** The negotiator's result is the one the selected branch promises. */
  lemma NegotiateKeepsPromise(r: Value, user: Option<Value>, env: Env)
    ensures Promise(Selected(r), r, user, env, Negotiate(r, user, env))
  {
    if r.Prebuilt? {
      SelectedAt(r, 0);
    } else if r.Bytes? {
      SelectedAt(r, 1);
    } else if r.Str? {
      TextKeepsPromise(r, user, env);
    } else if r.Dict? {
      DictKeepsPromise(r, user, env);
    } else {
      OthersKeepPromise(r, user, env);
    }
  }

  /** The string branches keep their promise. */
  lemma TextKeepsPromise(r: Value, user: Option<Value>, env: Env)
    requires r.Str?
    ensures Promise(Selected(r), r, user, env, Negotiate(r, user, env))
  {
    if StartsWith(r.s, RedirectPrefix) {
      SelectedAt(r, 2);
      assert RedirectPrefix + r.s[9..] == r.s;
    } else {
      forall j | 0 <= j < 3 ensures !Matches(DispatchOrder[j], r) {
        assert j == 0 || j == 1 || j == 2;
      }
      SelectedAt(r, 3);
      Utf8.DecodeEncode(r.s);
    }
  }

  /** The dict branches keep their promise. */
  lemma DictKeepsPromise(r: Value, user: Option<Value>, env: Env)
    requires r.Dict?
    ensures Promise(Selected(r), r, user, env, Negotiate(r, user, env))
  {
    forall j | 0 <= j < 4 ensures !Matches(DispatchOrder[j], r) {
      assert j == 0 || j == 1 || j == 2 || j == 3;
    }
    var template := PyGet(r.entries, TemplateKey);
    if template == PyNone {
      SelectedAt(r, 4);
      if env.json(r.entries).Some? {
        Utf8.DecodeEncode(env.json(r.entries).value);
      }
    } else {
      SelectedAt(r, 5);
      if user.Some? {
        var rendered := env.render(template, PyDict.Set(r.entries, UserKey, user.value));
        if rendered.Some? {
          Utf8.DecodeEncode(rendered.value);
        }
      }
    }
  }

  /** The status, pair and stringify branches keep their promise. */
  lemma OthersKeepPromise(r: Value, user: Option<Value>, env: Env)
    requires !r.Prebuilt? && !r.Bytes? && !r.Str? && !r.Dict?
    ensures Promise(Selected(r), r, user, env, Negotiate(r, user, env))
  {
    forall j | 0 <= j < 6 ensures !Matches(DispatchOrder[j], r) {
      assert j == 0 || j == 1 || j == 2 || j == 3 || j == 4 || j == 5;
    }
    if IsStatusCode(r) {
      SelectedAt(r, 6);
    } else if r.Tuple? && |r.elems| == 2 && IsStatusCode(r.elems[0]) {
      SelectedAt(r, 7);
    } else {
      SelectedAt(r, 8);
      Utf8.DecodeEncode(PyStr(r, env));
    }
  }

  /** `"redirect:" + loc` redirects to exactly `loc`, whatever `loc` is. */
  lemma RedirectRoundTrip(loc: string, user: Option<Value>, env: Env)
    ensures Negotiate(Str(RedirectPrefix + loc), user, env) == Success(Redirect(loc))
  {
    var s := RedirectPrefix + loc;
    assert s[..9] == RedirectPrefix;
    assert s[9..] == loc;
  }

  /** A redirect the negotiator builds comes only from a string carrying the prefix, and the prefix plus the location gives that string back. */
  lemma RedirectOnlyFromPrefix(r: Value, user: Option<Value>, env: Env)
    requires !r.Prebuilt?
    ensures Negotiate(r, user, env).Success? && Negotiate(r, user, env).value.Redirect? <==>
      r.Str? && StartsWith(r.s, RedirectPrefix)
    ensures Negotiate(r, user, env).Success? && Negotiate(r, user, env).value.Redirect? ==>
      r.s == RedirectPrefix + Negotiate(r, user, env).value.location
  {
    if r.Str? && StartsWith(r.s, RedirectPrefix) {
      assert RedirectPrefix + r.s[9..] == r.s;
    }
  }

  /** Text results lose nothing: two strings negotiate to the same response only if they are the same string. */
  lemma StringPayloadKept(a: string, b: string, user: Option<Value>, env: Env)
    ensures Negotiate(Str(a), user, env) == Negotiate(Str(b), user, env) <==> a == b
  {
    var ra := Negotiate(Str(a), user, env);
    var rb := Negotiate(Str(b), user, env);
    if ra == rb {
      if StartsWith(a, RedirectPrefix) {
        RedirectOnlyFromPrefix(Str(a), user, env);
        RedirectOnlyFromPrefix(Str(b), user, env);
      } else {
        Utf8.EncodeInjective(a, b);
      }
    }
  }

  /** An `int` is a bare status exactly when it lies in [100, 600); any other `int` is sent as its text. */
  lemma IntStatusRange(i: int, user: Option<Value>, env: Env)
    ensures 100 <= i < 600 ==> Negotiate(Int(i), user, env) == Success(Status(i))
    ensures !(100 <= i < 600) ==> Delivers(Negotiate(Int(i), user, env), env.str(Int(i)), PlainUtf8)
  {
    if !(100 <= i < 600) {
      Utf8.DecodeEncode(env.str(Int(i)));
    }
  }

  /** A `bool` counts as an `int` but is never a status code, so it is always sent as its text. */
  lemma BoolIsNeverStatus(b: bool, user: Option<Value>, env: Env)
    ensures Delivers(Negotiate(Bool(b), user, env), env.str(Bool(b)), PlainUtf8)
  {
    Utf8.DecodeEncode(env.str(Bool(b)));
  }

  /**
   * A pair is (status, text) exactly when its first element is an `int` in
   * [100, 600); every other tuple, of any length, is sent as its text.
   */
  lemma TupleStatusText(elems: seq<Value>, user: Option<Value>, env: Env)
    ensures |elems| == 2 && IsStatusCode(elems[0]) ==>
      Negotiate(Tuple(elems), user, env) == Success(Text(IntOf(elems[0]), PyStr(elems[1], env)))
    ensures !(|elems| == 2 && IsStatusCode(elems[0])) ==>
      Delivers(Negotiate(Tuple(elems), user, env), env.str(Tuple(elems)), PlainUtf8)
  {
    if !(|elems| == 2 && IsStatusCode(elems[0])) {
      Utf8.DecodeEncode(env.str(Tuple(elems)));
    }
  }

  /** A dict is rendered as HTML exactly when its template lookup is not `None`, and is JSON otherwise. */
  lemma DictContentType(d: PyDict.Dict<Value>, user: Option<Value>, env: Env)
    ensures Negotiate(Dict(d), user, env).Success? ==>
      Negotiate(Dict(d), user, env).value.Body? &&
      (Negotiate(Dict(d), user, env).value.contentType == HtmlUtf8 <==> PyGet(d, TemplateKey) != PyNone) &&
      (Negotiate(Dict(d), user, env).value.contentType == JsonUtf8 <==> PyGet(d, TemplateKey) == PyNone)
  {
  }

  /**
   * A dict without a template is serialised without consulting the renderer
   * or the request's user: changing either leaves the response unchanged, and
   * a missing user attribute does not make it fail.
   */
  lemma JsonIgnoresRendererAndUser(d: PyDict.Dict<Value>, user: Option<Value>, user': Option<Value>,
                                   env: Env, render': (Value, PyDict.Dict<Value>) -> Option<string>)
    requires PyGet(d, TemplateKey) == PyNone
    ensures Negotiate(Dict(d), user, env) == Negotiate(Dict(d), user', env.(render := render'))
    ensures Negotiate(Dict(d), user, env).Failure? <==> env.json(d).None?
  {
  }

  /**
   * A dict naming a template is rendered with the dict itself plus the
   * request's user under `__user__`: every other key keeps its value, an
   * existing `__user__` keeps its position and a new one is appended, and the
   * serialiser is never consulted.
   */
  lemma TemplateSeesInputPlusUser(d: PyDict.Dict<Value>, u: Value, env: Env,
                                  json': PyDict.Dict<Value> -> Option<string>)
    requires PyGet(d, TemplateKey) != PyNone
    ensures PyDict.Get(PyDict.Set(d, UserKey, u), UserKey) == Some(u)
    ensures forall k :: k != UserKey ==> PyDict.Get(PyDict.Set(d, UserKey, u), k) == PyDict.Get(d, k)
    ensures PyDict.Get(d, UserKey).Some? ==> PyDict.Keys(PyDict.Set(d, UserKey, u)) == PyDict.Keys(d)
    ensures PyDict.Get(d, UserKey).None? ==> PyDict.Keys(PyDict.Set(d, UserKey, u)) == PyDict.Keys(d) + [UserKey]
    ensures Negotiate(Dict(d), Some(u), env) == Negotiate(Dict(d), Some(u), env.(json := json'))
    ensures Negotiate(Dict(d), None, env) == Failure(NoUserAttribute)
  {
  }

  /** The behaviours the application's handlers rely on, on concrete values. */
  lemma Scenarios(user: Option<Value>, env: Env, u: Value, page: string)
    ensures Negotiate(Str("redirect:/signin"), user, env) == Success(Redirect("/signin"))
    ensures Negotiate(Int(404), user, env) == Success(Status(404))
    ensures Negotiate(Tuple([Int(400), Str("Invalid email.")]), user, env) == Success(Text(400, "Invalid email."))
    ensures Negotiate(Bytes([1, 2]), user, env) == Success(Body(Ok, [1, 2], OctetStream))
    ensures var d := [(TemplateKey, Str("all_users.html")), ("users:", Other(0))];
      env.render(Str("all_users.html"), PyDict.Set(d, UserKey, u)) == Some(page) ==>
      Negotiate(Dict(d), Some(u), env) == Success(Body(Ok, Utf8.Encode(page), HtmlUtf8))
  {
    RedirectRoundTrip("/signin", user, env);
    assert RedirectPrefix + "/signin" == "redirect:/signin";
  }
}
