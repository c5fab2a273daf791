# Response negotiation of the blog web application, in Dafny

The blog's request path runs through two middleware factories in `www/app.py`:

- `logger_factory` logs each request's method and path and hands the request on.
- `response_factory` calls the URL handler and turns whatever it returned into an aiohttp response.

The negotiation is a first-match-wins chain of Python type tests:

1. a ready-made `web.StreamResponse` passes through unchanged;
2. `bytes` become an `application/octet-stream` body;
3. a string starting with `redirect:` becomes a 302 Found redirect to the rest of the string;
4. any other string becomes a `text/html;charset=utf-8` body;
5. a dict whose `__template__` lookup is `None` is serialised as `application/json;charset=utf-8`;
6. any other dict gets the request's `__user__` and is rendered through its template as HTML;
7. an `int` in [100, 600) becomes a bare status;
8. a pair whose first element is such an `int` becomes that status with the second element's text;
9. anything else is sent as its `str()` in a `text/plain;charset=utf-8` body.

The project models this as pure functions:

- `Values` defines a closed `Value` datatype for handler results. It has one case per Python type the chain tests, plus `PyNone` and `Other`.
- `Values` also defines a `Response` datatype for what is sent back.
- `Negotiator.Negotiate` follows the source's chain branch by branch.
- `Dispatch` states the same contract declaratively: one guard per branch, the dispatch order, and what each branch promises. It proves that `Negotiate` keeps that contract.
- `Pipeline` wraps a handler in the logger and response stages. A handler either returns a value or raises an exception, and neither stage catches it.

Two library behaviours are modelled concretely:

- `Utf8` models `str.encode('utf-8')` as UTF-8 is defined in section 3 of RFC 3629. It includes a strict decoder, and the round trip is proved. This lets the lemmas state that no text branch loses its payload.
- `PyDict` models a Python dict as its entries in insertion order, because JSON output follows that order. It provides `get` and item assignment.

The remaining library calls are fields of `Values.Env`, and the model does not look inside them:

- `json.dumps(..., ensure_ascii=False, default=...)`;
- the template environment's `get_template(name).render(**vars)`;
- `str()` of a value that is not a string.

The JSON and rendering calls return `None` when they raise. The model turns each such failure, and a missing `request.__user__`, into a `Fault`.

## Model

| member | source | states |
|---|---|---|
| Pipeline.Logger | www/app.py:10-15 | the logging stage answers every request with exactly what the wrapped handler answers |
| Pipeline.ResponseStage | www/app.py:26-32 | an exception raised by the handler leaves the stage unchanged; apart from that the stage fails only on a dict result, and a ready-made response comes back unchanged |
| Pipeline.Serve | www/app.py:10-32 | logger plus response stage: a returned value is negotiated against the request's user, and an exception the handler raised passes through both stages unchanged |
| Pipeline.ServeDependsOnAnswerAndUser | www/app.py:10-32 | requests with the same handler answer and the same user get the same response; method and path matter only through the handler |
| Pipeline.AnonymousFailsOnlyOnTemplates | www/app.py:44-56 | with no `__user__` on the request, the chain fails for want of it exactly when the handler returned a dict naming a template; handler exceptions and every other result are unaffected |
| Negotiator.Negotiate | www/app.py:31-66 | only the dict branches can fail; every body the negotiator builds has status 200 and one of the four content types; it never invents a stream response |
| Seqs.FirstIndex | www/app.py:31-66 | finds the first element satisfying a test (the first branch in dispatch order whose guard admits the value, or the first dict entry with a key), and finds none only if no element satisfies it |
| Dispatch.SelectedIndex | www/app.py:31-66 | every handler result is admitted by some branch, since the stringify fallback admits everything, and no earlier branch admits it |
| Dispatch.SelectedAt | www/app.py:31-66 | exactly one branch handles a value: the one that admits it with no earlier branch admitting it |
| Dispatch.NegotiateKeepsPromise | www/app.py:31-66 | the negotiator's output is what the selected branch promises, for every input. Pass-through keeps the object. Bytes keep their content. A redirect location plus the prefix gives back the string. Text, JSON, rendered and stringified bodies decode back to their text, with their content types. Status and pair results keep their code and description. |
| Dispatch.TextKeepsPromise | www/app.py:37-42 | for a string, the output is a redirect whose location plus the prefix rebuilds the string when the prefix is present, and otherwise an HTML body that decodes back to the string |
| Dispatch.DictKeepsPromise | www/app.py:44-56 | for a dict, the output is the JSON body or serialiser failure when the template lookup is `None`, and otherwise the rendered HTML of the dict with `__user__` set, or the missing-user or renderer failure |
| Dispatch.OthersKeepPromise | www/app.py:57-66 | for any other value, the output is the bare status, the (status, description text) pair, or the plain-text body that decodes back to `str(r)`, whichever guard admits it first |
| Dispatch.RedirectRoundTrip | www/app.py:38-39 | `"redirect:" + loc` redirects to exactly `loc`, for every `loc` |
| Dispatch.RedirectOnlyFromPrefix | www/app.py:37-42 | a negotiated redirect arises if and only if the result is a string with the prefix, and the prefix plus the location is that string |
| Dispatch.StringPayloadKept | www/app.py:37-42 | two strings negotiate to the same response if and only if they are equal: no text is dropped |
| Dispatch.IntStatusRange | www/app.py:57-66 | an `int` is a bare status if and only if 100 <= i < 600; otherwise it is sent as its text in a plain-text body |
| Dispatch.BoolIsNeverStatus | www/app.py:57-66 | a `bool` is an `int` to the type test but never a status; it is always sent as its text |
| Dispatch.TupleStatusText | www/app.py:59-66 | a tuple gives (status, `str(description)`) if and only if it has two elements and the first is an `int` in [100, 600); every other tuple is stringified |
| Dispatch.DictContentType | www/app.py:44-56 | a dict that is served is always a body; it is HTML if and only if its template lookup is not `None`, and JSON if and only if it is `None` |
| Dispatch.JsonIgnoresRendererAndUser | www/app.py:44-50 | a dict without a template never reaches the renderer and never reads the user; it fails only when serialisation fails |
| Dispatch.TemplateSeesInputPlusUser | www/app.py:51-56 | the renderer gets the input dict with only `__user__` set to the request's user; every other key keeps its value, and an existing `__user__` keeps its place or a new one is appended. The serialiser is not consulted, and a missing user attribute is a failure. |
| Dispatch.Scenarios | www/app.py:31-66 | `"redirect:/signin"` goes to `/signin`; `404` is status 404; `(400, "Invalid email.")` is status 400 with that text; `b"\x01\x02"` is an octet-stream body of those bytes; the `all_users.html` template dict is rendered as HTML |
| PyDict.IndexOf | www/app.py:45 | the position of a key is the first entry with that key, and there is none only if no entry has it (a use of `Seqs.FirstIndex`) |
| PyDict.Get | www/app.py:45 | `d.get(k)` yields a value stored under `k`, and nothing only when no entry has key `k` |
| PyDict.Set | www/app.py:53 | after `d[k] = v`, `k` maps to `v` and every other key maps to what it did. Key order is kept, or the new key is appended. Unique keys stay unique. |
| PyDict.IndexOfUnique | www/app.py:45 | any position meeting the first-occurrence description is the one `get` uses |
| Values.PyStr | www/app.py:62-64 | `str()` of a string is the string itself |
| Utf8.EncodeChar | www/app.py:40 | one character encodes to one to four bytes: one exactly for ASCII, with continuation bytes after the first |
| Utf8.Encode | www/app.py:40 | a string's UTF-8 encoding is between one and four bytes per character |
| Utf8.DecodeChar | www/app.py:40 | a strict one-character decoder consumes between one and four of the available bytes |
| Utf8.DecodeEncodeChar | www/app.py:40 | decoding one encoded character gives it back and consumes exactly its bytes |
| Utf8.DecodeEncode | www/app.py:40-42 | decoding the UTF-8 encoding of any string gives the string back |
| Utf8.EncodeInjective | www/app.py:40-42 | two strings have the same UTF-8 bytes if and only if they are equal |

## Left out

- Logging (`logging.info` at www/app.py:12, 28, 30) is a side effect only. The logger is modelled as the identity on the handler's answer.
- `async`/`await` are not modelled. Each stage is a pure function of the request, and the handler is a function from request to result.
- Pipeline.ResponseStage: an exception raised by the handler (such as `web.HTTPNotFound`) is modelled as passing through both stages unchanged, since neither `logger` nor `response` catches it. What the framework then sends for it is not modelled.
- Server bootstrap is not modelled: `index`, `init`, the event loop and socket binding (www/app.py:70-83) are I/O. `init` builds the `Application` with no middlewares. `Pipeline.Serve` composes the two stages in the order the comment at www/app.py:17-18 describes.
- Signed-cookie session authentication, token digests and middleware registration are not part of this model. Their source is not among the modelled files. The request's `__user__` is an input (`Request.user`), and `None` stands for the attribute never having been set.
- `json.dumps` with `default=lambda o: o.__dict__` and the template renderer are parameters of `Values.Env`. The model does not look inside them. In particular, recursion on self-referencing objects is not modelled. Such a failure shows up only as the `None` the parameter may return.
- `str()` of non-strings is a parameter. Decimal formatting of ints and `repr` of tuples are not modelled. A raising `__str__` is not modelled either.
- `Negotiator.Negotiate`: for `web.Response(r)` at www/app.py:58 the model assumes the evident intent, a response with status `r` and an empty body (`Status(r)`). The framework's constructor signature is not modelled.
- `Negotiator.Negotiate`: for `web.Response(status=..., text=...)` at www/app.py:62 the model keeps the status and the text (`Text`). The content type the framework picks for `text=` is not modelled.
- The framework's own validation of a redirect location is not modelled. `web.HTTPFound` is modelled as `Redirect(location)` for any location, including the empty one.
- Item assignment at www/app.py:53 mutates the handler's dict in place. The model builds the updated dict as a new value, so aliasing is not modelled.
- Dict keys are strings only. A key of another type can never be `__template__` or `__user__`. Such keys matter only to the serialiser and the renderer, which are parameters.
- Python strings may hold lone surrogates, which `encode('utf-8')` rejects. A Dafny `char` is a Unicode scalar value, so this error cannot arise in the model.
- Subclasses of `str`, `bytes`, `dict`, `int` and `tuple` fall under the case of their base type. Custom `__eq__` or `__str__` on them are not modelled.
- www/handlers.py is not modelled: `show_all_users` is glue over the user store that returns a template dict. Its result shape appears in `Dispatch.Scenarios`.
