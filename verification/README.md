# Exception-to-response resolution, modelled in Dafny

This project models how a small Spring MVC study service turns an exception
raised during a request into an HTTP error response.

- **Handler table** (`ExControllerAdvice`, and the same three handlers declared
  locally in `ApiExceptionV2Controller`). An `IllegalArgumentException` becomes
  400 with `ErrorResult("BAD", message)`. A `UserException` becomes 400 with
  `ErrorResult("USER-EX", message)`. Every other exception becomes 500 with
  the fixed `ErrorResult("EX", "내부 오류")`, so its message is discarded.
  Spring's reflective, closest-exception-type dispatch is modelled two ways:
  - an explicit ordered table searched first to last (`HandlerTable.FirstMatch`);
  - a closest-type search (`HandlerTable.SelectMostSpecific`).

  Lemmas show the two choose the same handler on every table that lists its
  catch-all handlers last, the advice's table among them.
- **Request side** (`getMember`). The ids `"ex"`, `"bad"` and `"user-ex"` raise
  a runtime exception, an `IllegalArgumentException` and a `UserException`.
  Every other id returns `MemberDto(id, "hello " + id)`. Composing this with
  the handlers gives end-to-end replies (`ApiController.Serve`).
- **Resolver chain** (`MyHandlerExceptionResolver`). The resolver turns an
  `IllegalArgumentException` into `sendError(400, message)` and returns an
  empty `ModelAndView`. It returns `null` for anything else, and also when
  `sendError` throws `IOException`. The chain is a fold over the resolvers in
  registration order:
  - the first non-null answer stops the chain;
  - `null` moves on to the next resolver;
  - if all resolvers decline, the original exception is rethrown.

Modules: `Faults` (faults.dfy) holds the data. `HandlerTable`
(handler_table.dfy) is the global advice. `ApiController` (api_controller.dfy)
is the controller. `Resolver` (resolver.dfy) holds the resolver, the chain and
the overall handler-then-resolver order.

The catch-all's fixed message is the Korean literal `"내부 오류"` ("internal error").

## Model

| member | source | states |
|---|---|---|
| HandlerTable.FirstMatch | src/main/java/com/study/exception/exhandler/advice/ExControllerAdvice.java:60-65 | The index found is the first entry that catches the fault: it catches it and no earlier entry does. No index is returned exactly when no entry catches the fault. |
| HandlerTable.Dispatch | src/main/java/com/study/exception/exhandler/advice/ExControllerAdvice.java:46-69 | The table has no answer exactly when no handler catches the fault. Otherwise the answer is the response of the first handler that catches it: no earlier handler catches the fault. |
| HandlerTable.SelectMostSpecific | src/main/java/com/study/exception/exhandler/advice/ExControllerAdvice.java:60-65 | Spring's dispatch rule: the handler chosen is the one whose declared type is closest to the exception's class. Nothing is chosen exactly when no handler applies. The tie-break by declaration order is this model's own: Spring compares distinct classes, so ties do not arise there. |
| HandlerTable.MostSpecificUnique | src/main/java/com/study/exception/exhandler/advice/ExControllerAdvice.java:60-65 | The closest-type rule picks at most one handler. |
| HandlerTable.FirstMatchIsMostSpecific | src/main/java/com/study/exception/exhandler/advice/ExControllerAdvice.java:60-65 | On any table that lists its catch-all handlers after all specific ones, the first match in declaration order is exactly the closest-type handler, in both directions. |
| HandlerTable.AdviceFirstMatchIsMostSpecific | src/main/java/com/study/exception/exhandler/advice/ExControllerAdvice.java:46-69 | On the advice's three handlers, the first match in declaration order is exactly the closest-type handler, in both directions. |
| HandlerTable.AdviceTableTotal | src/main/java/com/study/exception/exhandler/advice/ExControllerAdvice.java:63-69 | Because the catch-all catches everything, every exception gets a response from the advice. |
| HandlerTable.Advise | src/main/java/com/study/exception/exhandler/advice/ExControllerAdvice.java:46-69 | IllegalArgumentException gives 400 with "BAD" and its own message. UserException gives 400 with "USER-EX" and its own message. Any other exception gives 500 with "EX" and "내부 오류". |
| HandlerTable.CatchAllOnlyForOthers | src/main/java/com/study/exception/exhandler/advice/ExControllerAdvice.java:60-65 | Precedence: an IllegalArgumentException goes to the first handler and a UserException to the second. The catch-all is reached exactly by the other exceptions. |
| HandlerTable.StatusSplit | src/main/java/com/study/exception/exhandler/advice/ExControllerAdvice.java:46-68 | The status is 500 exactly for the catch-all kind and 400 exactly for the other two. |
| HandlerTable.CatchAllDoesNotLeak | src/main/java/com/study/exception/exhandler/advice/ExControllerAdvice.java:63-69 | Non-leak: any two catch-all exceptions get identical responses whatever their messages, and the body's message is the fixed text. The local ErrorResult built at line 67 is never returned. |
| HandlerTable.ClientFaultsSurfaceMessage | src/main/java/com/study/exception/exhandler/advice/ExControllerAdvice.java:46-58 | For the two 400 kinds, the body carries the exception's own message and the code that belongs to its kind. |
| ApiController.GetMember | src/main/java/com/study/exception/api/ApiExceptionV2Controller.java:53-66 | getMember raises exactly for "ex", "bad" and "user-ex", each with its own kind and message. Every other id returns a member with that id and the name "hello " + id. |
| ApiController.LocalAgreesWithAdvice | src/main/java/com/study/exception/api/ApiExceptionV2Controller.java:28-51 | For every kind of fault, the controller's own handler table gives the same status, code and message as the global advice. |
| ApiController.HandleRaised | src/main/java/com/study/exception/api/ApiExceptionV2Controller.java:28-51 | A fault raised in the controller goes through the whole resolution, starting with the controller's own handlers. Whatever the resolver chain and response, it ends as the handler response the advice would give. The status is 500 exactly for the catch-all kind. |
| ApiController.Serve | src/main/java/com/study/exception/api/ApiExceptionV2Controller.java:28-66 | End to end, for any resolver chain: "bad" gives (400, "BAD", "잘못된 입력 값"). "user-ex" gives (400, "USER-EX", "사용자 오류"). "ex" gives (500, "EX", "내부 오류"), so the message "잘못된 사용자" is not returned. Every other id gives the greeted member. |
| Resolver.MyResolve | src/main/java/com/study/exception/resolver/MyHandlerExceptionResolver.java:34-50 | The resolver answers exactly for an IllegalArgumentException whose write succeeds. That answer is an empty view with status 400 and the exception's message. Every other exception, and a failed write, is declined. |
| Resolver.MyResolverNeverRenders | src/main/java/com/study/exception/resolver/MyHandlerExceptionResolver.java:39-49 | The resolver's only outcomes are declining or an empty view with 400 and the message. It never asks for a view to be rendered. |
| Resolver.RunChain | src/main/java/com/study/exception/resolver/MyHandlerExceptionResolver.java:18-21 | A chain run is handled by resolver k only if resolver k answered and every earlier one declined. It rethrows, carrying the original exception, exactly when every resolver declines. |
| Resolver.FirstResolverWins | src/main/java/com/study/exception/resolver/MyHandlerExceptionResolver.java:18-20 | When the first resolver answers, the outcome is its answer whatever resolvers follow. |
| Resolver.DeclineAdvances | src/main/java/com/study/exception/resolver/MyHandlerExceptionResolver.java:20-21 | A declining resolver hands the exception and the unchanged response to the rest of the chain. |
| Resolver.ChainAppend | src/main/java/com/study/exception/resolver/MyHandlerExceptionResolver.java:18-21 | Running a chain a + b equals a's outcome when a handles the exception. Otherwise it equals b's outcome, with indices shifted by the length of a. |
| Resolver.AllDeclineRethrowsOriginal | src/main/java/com/study/exception/resolver/MyHandlerExceptionResolver.java:20-21 | Fall-through: when every resolver declines, the original exception, with the same kind and message, is rethrown. |
| Resolver.OnlyMyResolvers | src/main/java/com/study/exception/resolver/MyHandlerExceptionResolver.java:34-50 | A chain of only this resolver handles an exception exactly when it is an IllegalArgumentException and some link's write succeeds. The link that answers had a successful write and answers 400 with the message and an empty view. |
| Resolver.ResolveException | src/main/java/com/study/exception/resolver/MyHandlerExceptionResolver.java:14-21 | The exception propagates unchanged exactly when no local handler, no advice handler and no resolver takes it. A matching local handler always decides. When only the advice matches, its answer is used. When both tables miss and the chain handles the exception, the result is the chain's answer. A handler response comes only from a table, and a resolver response is reached only when neither table catches the exception. |
| Resolver.AdviceShieldsResolvers | src/main/java/com/study/exception/exhandler/advice/ExControllerAdvice.java:40-69 | Behind the global advice, every exception is answered by a handler: the resolver chain is never consulted and nothing propagates. |
| Resolver.ResolverAloneHandlesOnlyIllegalArg | src/main/java/com/study/exception/resolver/MyHandlerExceptionResolver.java:38-49 | With no handler tables and only this resolver, an IllegalArgumentException ends as 400 with its message. Every other exception propagates unchanged. |

## Left out

- Logging (`log.error`, `log.info`): a side effect only, and not part of any response.
- Servlet plumbing is reduced to an abstract response:
  - `HttpServletRequest` is not modelled;
  - the response is only its status and the message given to `sendError`;
  - the WAS forwarding to the `/error` page is not modelled;
  - `ModelAndView` rendering is not modelled;
  - the `IOException` from `sendError` is a boolean parameter.
- Resolver.DeclineAdvances / Resolver.RunChain: a declining resolver is assumed not to write to the response. Every link of the chain therefore sees the response the chain started with. In the servlet all resolvers share one mutable response, so a declining resolver's writes would stay visible to later ones. The application's own resolver writes nothing before it declines, except for a failed `sendError`.
- A `sendError` that throws is modelled as leaving the response untouched. What a failed write really leaves behind depends on the servlet container, which is not part of this model.
- Annotation scanning and reflective dispatch are replaced by explicit tables over the closed `Fault` datatype. Also not modelled:
  - the advice's targeting options shown in its comments;
  - the difference between `@ResponseStatus` and `ResponseEntity`, which give the same status here;
  - Spring's error on two handlers declared for the same type.
- HandlerTable.ExceptionDepth fixes the class distances used by the closest-type rule:
  - 2 for IllegalArgumentException and UserException;
  - 1 for other exceptions.

  UserException's class is not part of this model. It is assumed to extend RuntimeException. Any depth of at least 1 for the two specific kinds gives the same choices.
- Subclasses of IllegalArgumentException (such as NumberFormatException) are folded into the `IllegalArg` kind.
- `getMessage()` returning null is not modelled: every fault carries a string message.
- JSON serialisation of `ErrorResult` and the Lombok-generated `MemberDto` accessors are not modelled.
- The order in which resolvers are registered with Spring (a web configuration class) is not part of this model. `Resolver.ResolveException` places the handler tables before the resolver chain, as Spring does by default.
- Concurrency and the request lifecycle are not modelled. The tables are immutable values and every operation is a pure function.
