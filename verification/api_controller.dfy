/**
 ApiExceptionV2Controller: a REST controller whose `getMember` raises one of
 the three kinds of exception for three special ids, and which declares its own
 copies of the three exception handlers. Handlers declared on the controller
 are consulted before the global advice's.
 */
module ApiController {
  import opened Faults
  import opened HandlerTable
  import opened Resolver

  /** The body of a successful `GET /api2/members/{id}`. */
  datatype MemberDto = MemberDto(memberId: string, name: string)

  /** What a call to a controller method does: return a value or raise. */
  datatype Outcome = Returned(member: MemberDto) | Raised(fault: Fault)

  /** What the request ends in: the member, or where the exception it raised
      was resolved. */
  datatype Reply = Ok(member: MemberDto) | Failed(outcome: Final)

  /** The messages `getMember` raises its exceptions with
      ("wrong user", "wrong input value", "user error"). */
  const WrongUserMessage: string := "잘못된 사용자"
  const WrongInputMessage: string := "잘못된 입력 값"
  const UserErrorMessage: string := "사용자 오류"

  /** The controller-local handlers, declared in the same order and with the same
      statuses, codes and messages as the advice's. */
  const LocalTable: seq<Entry> := [
    Entry(CatchIllegalArg, BadRequest, "BAD", FromFault),
    Entry(CatchUserEx, BadRequest, "USER-EX", FromFault),
    Entry(CatchAny, InternalServerError, "EX", Fixed("내부 오류"))
  ]

  /** The three ids that make `getMember` raise. */
  predicate IsFaultingId(id: string)
  {
    id == "ex" || id == "bad" || id == "user-ex"
  }

  /** `GET /api2/members/{id}`: three ids raise, every other id is greeted. */
  function GetMember(id: string): (r: Outcome)
    ensures r.Raised? <==> IsFaultingId(id)
    ensures id == "ex" ==> r == Raised(Other(WrongUserMessage))
    ensures id == "bad" ==> r == Raised(IllegalArg(WrongInputMessage))
    ensures id == "user-ex" ==> r == Raised(UserEx(UserErrorMessage))
    ensures r.Returned? ==> r.member.memberId == id && r.member.name == "hello " + id
  {
    if id == "ex" then Raised(Other(WrongUserMessage))
    else if id == "bad" then Raised(IllegalArg(WrongInputMessage))
    else if id == "user-ex" then Raised(UserEx(UserErrorMessage))
    else Returned(MemberDto(id, "hello " + id))
  }

  /** The controller's own handlers answer for every kind of fault exactly as
      the global advice would. */
  lemma LocalAgreesWithAdvice(f: Fault)
    ensures Dispatch(LocalTable, f) == Some(Advise(f))
  {
    assert LocalTable == AdviceTable;
    AdviceTableTotal(f);
    assert Advise(f) == Dispatch(AdviceTable, f).value;
  }

  /** The resolution of a fault raised inside this controller: its own
      handlers first, then the global advice, then the resolver chain `rs`
      working on the response `resp`. */
  function HandleRaised(f: Fault, rs: seq<HandlerResolver>, resp: ServletResponse): (r: Final)
    ensures r == HandlerResponse(Advise(f))
    ensures r.answer.status == InternalServerError <==> f.Other?
  {
    LocalAgreesWithAdvice(f);
    ResolveException(LocalTable, AdviceTable, rs, f, resp)
  }

  /** A whole request: the controller's result, or the resolution of the
      exception it raised. */
  function Serve(id: string, rs: seq<HandlerResolver>, resp: ServletResponse): (r: Reply)
    ensures r.Ok? <==> !IsFaultingId(id)
    ensures r.Ok? ==> r.member == MemberDto(id, "hello " + id)
    ensures id == "bad" ==> r == Failed(HandlerResponse(Response(400, ErrorResult("BAD", "잘못된 입력 값"))))
    ensures id == "user-ex" ==> r == Failed(HandlerResponse(Response(400, ErrorResult("USER-EX", "사용자 오류"))))
    ensures id == "ex" ==> r == Failed(HandlerResponse(Response(500, ErrorResult("EX", "내부 오류"))))
  {
    match GetMember(id)
    case Returned(m) => Ok(m)
    case Raised(f) => Failed(HandleRaised(f, rs, resp))
  }
}
