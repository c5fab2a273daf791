/**
 * The middleware chain around a URL handler: the logging stage, then the
 * response stage that negotiates the handler's result.
 */
module Pipeline {
  import opened Wrappers
  import opened Values
  import opened Negotiator

  /** The parts of a request the chain reads: verb (HTTP method) and path for the log, and the `__user__` attribute if one was set. */
  datatype Request = Request(verb: string, path: string, user: Option<Value>)

  /** A URL handler: it returns a value, or raises the exception identified by `Failure`'s payload. */
  type Handler = Request -> Result<Value, nat>

  /** The logging stage: records the verb and path, then hands the request on; the answer (or exception) is the wrapped handler's. */
  function Logger<R>(handler: Request -> R): (logged: Request -> R)
    ensures forall req :: logged(req) == handler(req)
  {
    req => handler(req)
  }

  /**
   * The response stage: calls the handler and negotiates its result against
   * the request's user. An exception from the handler is not caught: it
   * leaves the stage unchanged.
   */
  function ResponseStage(handler: Handler, env: Env): (respond: Request -> Result<Response, Fault>)
    ensures forall req :: handler(req).Failure? ==> respond(req) == Failure(HandlerRaised(handler(req).error))
    ensures forall req :: respond(req).Failure? && !respond(req).error.HandlerRaised? ==>
      handler(req).Success? && handler(req).value.Dict?
    ensures forall req :: handler(req).Success? && handler(req).value.Prebuilt? ==>
      respond(req) == Success(handler(req).value.resp)
  {
    req =>
      match handler(req)
      case Failure(e) => Failure(HandlerRaised(e))
      case Success(r) => Negotiate(r, req.user, env)
  }

  /**
   * The whole chain, logger outermost: a returned value is negotiated
   * against the request's user, and an exception the handler raised passes
   * through both stages unchanged.
   */
  function Serve(handler: Handler, env: Env): (serve: Request -> Result<Response, Fault>)
    ensures forall req :: handler(req).Success? ==> serve(req) == Negotiate(handler(req).value, req.user, env)
    ensures forall req :: handler(req).Failure? ==> serve(req) == Failure(HandlerRaised(handler(req).error))
  {
    Logger(ResponseStage(handler, env))
  }

  /** The response depends on the request only through the handler's answer and the user: verb and path matter only to the handler. */
  lemma ServeDependsOnAnswerAndUser(handler: Handler, env: Env, a: Request, b: Request)
    ensures handler(a) == handler(b) && a.user == b.user ==> Serve(handler, env)(a) == Serve(handler, env)(b)
  {
  }

  /**
   * A request that never had `__user__` set fails for want of it exactly when
   * the handler returns a dict naming a template; every other answer is
   * served, or raised, as usual.
   */
  lemma AnonymousFailsOnlyOnTemplates(handler: Handler, env: Env, req: Request)
    requires req.user.None?
    ensures Serve(handler, env)(req) == Failure(NoUserAttribute) <==>
      handler(req).Success? && handler(req).value.Dict? &&
      PyGet(handler(req).value.entries, TemplateKey) != PyNone
  {
  }
}
