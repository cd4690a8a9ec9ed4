/**
 The low-level resolver chain (HandlerExceptionResolver) and the one resolver
 the application registers, MyHandlerExceptionResolver.

 A resolver either answers with a ModelAndView, which stops the chain, or
 returns null, which hands the exception to the next resolver. When every
 resolver declines, the original exception is thrown on out of the servlet.
 */
module Resolver {
  import opened Faults
  import opened HandlerTable

  /** A ModelAndView: EmptyView is `new ModelAndView()` (the response is already
      complete); NamedView asks a later step to render a view. */
  datatype View = EmptyView | NamedView(name: string)

  /** The servlet response as a resolver sees it: its status and the message
      handed to `sendError`, if any. */
  datatype ServletResponse = ServletResponse(status: int, errorMessage: Option<string>)

  /** What a resolver returns: a view together with the response as it left it
      (non-null), or Declined (null). A declining resolver is taken to leave the
      response as it found it, so Declined carries no response. */
  datatype Resolution = Resolved(view: View, response: ServletResponse) | Declined

  /** A link of the chain: the application's own resolver, whose `sendError`
      either succeeds or throws IOException as `writeFails` says, or any
      other resolver, given by what it does. */
  datatype HandlerResolver =
    | MyHandler(writeFails: bool)
    | Foreign(resolve: (Fault, ServletResponse) -> Resolution)

  /** `response.sendError(status, message)` when it does not throw. */
  function SendError(resp: ServletResponse, status: int, message: string): ServletResponse
  {
    resp.(status := status, errorMessage := Some(message))
  }

  /** MyHandlerExceptionResolver.resolveException: an IllegalArgumentException
      becomes a 400 sent through `sendError` with the exception's message and an
      empty view; anything else, and an IllegalArgumentException whose
      `sendError` throws IOException (logged, then swallowed), is declined. */
  function MyResolve(f: Fault, resp: ServletResponse, writeFails: bool): (r: Resolution)
    ensures r.Resolved? <==> f.IllegalArg? && !writeFails
    ensures r.Resolved? ==> r.view == EmptyView
    ensures r.Resolved? ==> r.response.status == BadRequest && r.response.errorMessage == Some(f.msg)
  {
    if f.IllegalArg? then
      if writeFails then Declined
      else Resolved(EmptyView, SendError(resp, BadRequest, f.msg))
    else Declined
  }

  /** Runs one link of the chain. */
  function Invoke(h: HandlerResolver, f: Fault, resp: ServletResponse): Resolution
  {
    match h
    case MyHandler(writeFails) => MyResolve(f, resp, writeFails)
    case Foreign(resolve) => resolve(f, resp)
  }

  /** The end of a chain run: resolved by the resolver at `index`, or the
      original exception thrown on to the caller. */
  datatype ChainOutcome =
    | Handled(index: nat, view: View, response: ServletResponse)
    | Rethrown(fault: Fault)

  /** The chain as a fold over its resolvers in registration order: the first
      non-null answer wins, and if all decline the exception is rethrown. */
  function RunChain(rs: seq<HandlerResolver>, f: Fault, resp: ServletResponse): (o: ChainOutcome)
    ensures o.Handled? ==> o.index < |rs| && Invoke(rs[o.index], f, resp) == Resolved(o.view, o.response)
    ensures o.Handled? ==> forall j :: 0 <= j < o.index ==> Invoke(rs[j], f, resp).Declined?
    ensures o.Rethrown? <==> forall j :: 0 <= j < |rs| ==> Invoke(rs[j], f, resp).Declined?
    ensures o.Rethrown? ==> o.fault == f
  {
    if |rs| == 0 then Rethrown(f)
    else match Invoke(rs[0], f, resp)
      case Resolved(v, out) => Handled(0, v, out)
      case Declined =>
        match RunChain(rs[1..], f, resp)
        case Handled(i, v, out) => Handled(i + 1, v, out)
        case Rethrown(g) => Rethrown(g)
  }

  /** A chain outcome seen from a chain with `n` more resolvers in front. */
  function Shift(o: ChainOutcome, n: nat): ChainOutcome
  {
    match o
    case Handled(i, v, out) => Handled(i + n, v, out)
    case Rethrown(g) => Rethrown(g)
  }

  /** Once a resolver answers, the resolvers after it are never consulted. */
  lemma FirstResolverWins(h: HandlerResolver, rest1: seq<HandlerResolver>, rest2: seq<HandlerResolver>,
                          f: Fault, resp: ServletResponse)
    requires Invoke(h, f, resp).Resolved?
    ensures RunChain([h] + rest1, f, resp) == RunChain([h] + rest2, f, resp)
    ensures RunChain([h] + rest1, f, resp) == Handled(0, Invoke(h, f, resp).view, Invoke(h, f, resp).response)
  {
  }

  /** A declining resolver passes the exception, and the untouched response,
      on to the rest of the chain. */
  lemma DeclineAdvances(h: HandlerResolver, rest: seq<HandlerResolver>, f: Fault, resp: ServletResponse)
    requires Invoke(h, f, resp).Declined?
    ensures RunChain([h] + rest, f, resp) == Shift(RunChain(rest, f, resp), 1)
  {
  }

  /** Running two chains one after the other is running their concatenation:
      the first chain decides if it can, otherwise the second one does. */
  lemma {:induction false} ChainAppend(a: seq<HandlerResolver>, b: seq<HandlerResolver>, f: Fault, resp: ServletResponse)
    ensures RunChain(a, f, resp).Handled? ==> RunChain(a + b, f, resp) == RunChain(a, f, resp)
    ensures RunChain(a, f, resp).Rethrown? ==> RunChain(a + b, f, resp) == Shift(RunChain(b, f, resp), |a|)
    decreases |a|
  {
    if |a| == 0 {
      assert a + b == b;
      match RunChain(b, f, resp)
      case Handled(_, _, _) =>
      case Rethrown(_) =>
    } else {
      assert (a + b)[0] == a[0];
      assert (a + b)[1..] == a[1..] + b;
      ChainAppend(a[1..], b, f, resp);
    }
  }

  /** Fall-through: when every resolver declines, the original exception, the
      same kind with the same message, is thrown on to the caller. */
  lemma AllDeclineRethrowsOriginal(rs: seq<HandlerResolver>, f: Fault, resp: ServletResponse)
    requires forall j :: 0 <= j < |rs| ==> Invoke(rs[j], f, resp).Declined?
    ensures RunChain(rs, f, resp) == Rethrown(f)
    ensures RunChain(rs, f, resp).fault.msg == f.msg
  {
  }

  /** The application's resolver never asks for a view to be rendered: its only
      answers are the empty view or null. */
  lemma MyResolverNeverRenders(f: Fault, resp: ServletResponse, writeFails: bool)
    ensures MyResolve(f, resp, writeFails) == Declined
         || MyResolve(f, resp, writeFails) == Resolved(EmptyView, ServletResponse(BadRequest, Some(f.msg)))
  {
  }

  /** A chain made only of the application's resolver handles an exception
      exactly when it is an IllegalArgumentException and some link's write
      succeeds; the first such link answers with 400 and the message. */
  lemma OnlyMyResolvers(rs: seq<HandlerResolver>, f: Fault, resp: ServletResponse)
    requires forall j :: 0 <= j < |rs| ==> rs[j].MyHandler?
    ensures RunChain(rs, f, resp).Handled? <==>
              f.IllegalArg? && exists j :: 0 <= j < |rs| && !rs[j].writeFails
    ensures RunChain(rs, f, resp).Handled? ==>
              && RunChain(rs, f, resp).view == EmptyView
              && RunChain(rs, f, resp).response == ServletResponse(BadRequest, Some(f.msg))
              && !rs[RunChain(rs, f, resp).index].writeFails
  {
  }

  /** Where an exception ends up after the whole resolution process. */
  datatype Final =
    | HandlerResponse(answer: Response)
    | ResolverResponse(view: View, response: ServletResponse)
    | Unhandled(fault: Fault)

  /** The whole resolution of an exception raised by a controller: the
      controller's own handlers, then the global advice, then the resolver
      chain; if none of them takes it, it propagates out of the servlet. */
  function ResolveException(local: seq<Entry>, advice: seq<Entry>, rs: seq<HandlerResolver>,
                            f: Fault, resp: ServletResponse): (r: Final)
    ensures r.Unhandled? <==>
              && (forall j :: 0 <= j < |local| ==> !Handles(local[j].catches, f))
              && (forall j :: 0 <= j < |advice| ==> !Handles(advice[j].catches, f))
              && (forall j :: 0 <= j < |rs| ==> Invoke(rs[j], f, resp).Declined?)
    ensures r.Unhandled? ==> r.fault == f
    ensures r.ResolverResponse? ==> Dispatch(local, f).None? && Dispatch(advice, f).None?
    ensures (exists j :: 0 <= j < |local| && Handles(local[j].catches, f)) ==> r == HandlerResponse(Dispatch(local, f).value)
    ensures Dispatch(local, f).None? && Dispatch(advice, f).Some? ==> r == HandlerResponse(Dispatch(advice, f).value)
    ensures Dispatch(local, f).None? && Dispatch(advice, f).None? && RunChain(rs, f, resp).Handled? ==>
              r == ResolverResponse(RunChain(rs, f, resp).view, RunChain(rs, f, resp).response)
    ensures r.HandlerResponse? ==> Dispatch(local, f).Some? || Dispatch(advice, f).Some?
    ensures r.ResolverResponse? ==>
              && RunChain(rs, f, resp).Handled?
              && RunChain(rs, f, resp).view == r.view
              && RunChain(rs, f, resp).response == r.response
  {
    match Dispatch(local, f)
    case Some(response) => HandlerResponse(response)
    case None =>
      match Dispatch(advice, f)
      case Some(response) => HandlerResponse(response)
      case None =>
        match RunChain(rs, f, resp)
        case Handled(_, v, out) => ResolverResponse(v, out)
        case Rethrown(g) => Unhandled(g)
  }

  /** Behind the global advice, whose catch-all takes every exception, the
      resolver chain is never consulted and nothing propagates. */
  lemma AdviceShieldsResolvers(local: seq<Entry>, rs: seq<HandlerResolver>, f: Fault, resp: ServletResponse)
    ensures ResolveException(local, AdviceTable, rs, f, resp).HandlerResponse?
    ensures Dispatch(local, f).None? ==> ResolveException(local, AdviceTable, rs, f, resp).answer == Advise(f)
  {
    AdviceTableTotal(f);
    assert Advise(f) == Dispatch(AdviceTable, f).value;
  }

  /** Without any exception handler, an IllegalArgumentException reaching the
      application's resolver whose write succeeds becomes a 400 with its
      message; every other exception propagates unchanged. */
  lemma ResolverAloneHandlesOnlyIllegalArg(f: Fault, resp: ServletResponse)
    ensures f.IllegalArg? ==>
              ResolveException([], [], [MyHandler(false)], f, resp)
                == ResolverResponse(EmptyView, ServletResponse(BadRequest, Some(f.msg)))
    ensures !f.IllegalArg? ==> ResolveException([], [], [MyHandler(false)], f, resp) == Unhandled(f)
  {
  }
}
