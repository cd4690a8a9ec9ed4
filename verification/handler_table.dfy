/**
 The global exception-handler table (ExControllerAdvice): three handlers, one
 for IllegalArgumentException, one for UserException and a catch-all for
 Exception, each turning the exception into a status and an ErrorResult.

 Spring finds the handler by reflection and picks the one whose declared
 exception type is closest to the raised one. Here the table is an explicit
 ordered sequence searched first-to-last (FirstMatch), and the closest-type rule
 is stated separately (MostSpecific, SelectMostSpecific) and shown to pick the
 same handler on this table.
 */
module HandlerTable {
  import opened Faults

  /** The exception type a handler method is declared for. */
  datatype Catches = CatchIllegalArg | CatchUserEx | CatchAny

  /** Where a handler takes the body's message from: the exception, or a fixed text. */
  datatype MessageSource = FromFault | Fixed(text: string)

  /** One exception handler: the type it catches, the status it answers with,
      and how it builds the ErrorResult. */
  datatype Entry = Entry(catches: Catches, status: int, code: string, message: MessageSource)

  /** Number of superclass steps from the fault's class up to java.lang.Exception. */
  function ExceptionDepth(f: Fault): nat
  {
    match f
    case IllegalArg(_) => 2  // IllegalArgumentException -> RuntimeException -> Exception
    case UserEx(_) => 2      // UserException -> RuntimeException -> Exception
    case Other(_) => 1       // RuntimeException -> Exception
  }

  /** How many superclass steps separate f's class from the class c is declared
      for, or None when c does not catch f at all. */
  function Distance(c: Catches, f: Fault): Option<nat>
  {
    match c
    case CatchIllegalArg => if f.IllegalArg? then Some(0) else None
    case CatchUserEx => if f.UserEx? then Some(0) else None
    case CatchAny => Some(ExceptionDepth(f))
  }

  /** True if a handler declared for c is applicable to f. */
  predicate Handles(c: Catches, f: Fault)
  {
    Distance(c, f).Some?
  }

  /** The response a handler builds for a fault it catches. */
  function Apply(e: Entry, f: Fault): Response
  {
    var message := match e.message
      case FromFault => f.msg
      case Fixed(text) => text;
    Response(e.status, ErrorResult(e.code, message))
  }

  /** illegalExHandler: 400 with ErrorResult("BAD", e.getMessage()). */
  const IllegalExHandler: Entry := Entry(CatchIllegalArg, BadRequest, BadCode, FromFault)

  /** userExHandler: 400 with ErrorResult("USER-EX", e.getMessage()). */
  const UserExHandler: Entry := Entry(CatchUserEx, BadRequest, UserExCode, FromFault)

  /** exHandler: 500 with a fixed ErrorResult; the ErrorResult it builds from the
      exception's message is never returned and has no counterpart here. */
  const ExHandler: Entry := Entry(CatchAny, InternalServerError, ExCode, Fixed(InternalErrorMessage))

  /** The advice's handlers, the catch-all last. */
  const AdviceTable: seq<Entry> := [IllegalExHandler, UserExHandler, ExHandler]

  /** The index of the first entry of the table that catches f, if any. */
  function FirstMatch(table: seq<Entry>, f: Fault): (r: Option<nat>)
    ensures r.Some? ==> r.value < |table| && Handles(table[r.value].catches, f)
    ensures r.Some? ==> forall j :: 0 <= j < r.value ==> !Handles(table[j].catches, f)
    ensures r.None? <==> forall j :: 0 <= j < |table| ==> !Handles(table[j].catches, f)
  {
    if |table| == 0 then None
    else if Handles(table[0].catches, f) then Some(0)
    else match FirstMatch(table[1..], f)
      case None => None
      case Some(i) => Some(i + 1)
  }

  /** The response of the first entry that catches f, or None when no entry
      does and the fault leaves the table unhandled. */
  function Dispatch(table: seq<Entry>, f: Fault): (r: Option<Response>)
    ensures r.None? <==> forall j :: 0 <= j < |table| ==> !Handles(table[j].catches, f)
    ensures r.Some? ==> exists j :: && 0 <= j < |table| && Handles(table[j].catches, f)
                                    && (forall k :: 0 <= k < j ==> !Handles(table[k].catches, f))
                                    && r.value == Apply(table[j], f)
  {
    match FirstMatch(table, f)
    case None => None
    case Some(i) => Some(Apply(table[i], f))
  }

  /** Entry i is at least as close to f as entry j: strictly closer in the type
      hierarchy, or equally close and declared no later. */
  predicate NoFurther(table: seq<Entry>, f: Fault, i: int, j: int)
    requires 0 <= i < |table| && Handles(table[i].catches, f)
    requires 0 <= j < |table| && Handles(table[j].catches, f)
  {
    var di := Distance(table[i].catches, f).value;
    var dj := Distance(table[j].catches, f).value;
    di < dj || (di == dj && i <= j)
  }

  /** Entry i is the handler the closest-type rule chooses for f. */
  ghost predicate MostSpecific(table: seq<Entry>, f: Fault, i: int)
  {
    && 0 <= i < |table|
    && Handles(table[i].catches, f)
    && forall j :: 0 <= j < |table| && Handles(table[j].catches, f) ==> NoFurther(table, f, i, j)
  }

  /** At most one entry is the most specific one. */
  lemma MostSpecificUnique(table: seq<Entry>, f: Fault, i: int, j: int)
    requires MostSpecific(table, f, i) && MostSpecific(table, f, j)
    ensures i == j
  {
  }

  /** The closest-type rule as a search: the handler whose declared type is
      nearest to f's class, the earlier one on a tie. */
  method SelectMostSpecific(table: seq<Entry>, f: Fault) returns (r: Option<nat>)
    ensures r.Some? ==> MostSpecific(table, f, r.value)
    ensures r.None? <==> forall j :: 0 <= j < |table| ==> !Handles(table[j].catches, f)
  {
    r := None;
    var k := 0;
    while k < |table|
      invariant 0 <= k <= |table|
      invariant r.None? ==> forall j :: 0 <= j < k ==> !Handles(table[j].catches, f)
      invariant r.Some? ==> r.value < k && Handles(table[r.value].catches, f)
      invariant r.Some? ==> forall j :: 0 <= j < k && Handles(table[j].catches, f) ==> NoFurther(table, f, r.value, j)
    {
      var d := Distance(table[k].catches, f);
      if d.Some? && (r.None? || d.value < Distance(table[r.value].catches, f).value) {
        r := Some(k);
      }
      k := k + 1;
    }
  }

  /** On the advice table the first match in declaration order is exactly the
      handler the closest-type rule picks. */
  lemma AdviceFirstMatchIsMostSpecific(f: Fault, i: int)
    ensures FirstMatch(AdviceTable, f) == Some(i) <==> MostSpecific(AdviceTable, f, i)
  {
  }

  /** The table lists every catch-all handler after all the specific ones. */
  predicate CatchAllLast(table: seq<Entry>)
  {
    forall a, b :: 0 <= a < b < |table| && table[a].catches == CatchAny ==> table[b].catches == CatchAny
  }

  /** On any table that lists its catch-all handlers last, the first match in
      declaration order is exactly the handler the closest-type rule picks. */
  lemma FirstMatchIsMostSpecific(table: seq<Entry>, f: Fault, i: int)
    requires CatchAllLast(table)
    ensures FirstMatch(table, f) == Some(i) <==> MostSpecific(table, f, i)
  {
  }

  /** Every fault is answered by the advice: the catch-all guarantees a match. */
  lemma AdviceTableTotal(f: Fault)
    ensures Dispatch(AdviceTable, f).Some?
  {
    assert Handles(AdviceTable[2].catches, f);
  }

  /** The response the global advice produces for a fault. */
  function Advise(f: Fault): (r: Response)
    ensures f.IllegalArg? ==> r == Response(BadRequest, ErrorResult(BadCode, f.msg))
    ensures f.UserEx? ==> r == Response(BadRequest, ErrorResult(UserExCode, f.msg))
    ensures f.Other? ==> r == Response(InternalServerError, ErrorResult(ExCode, InternalErrorMessage))
  {
    AdviceTableTotal(f);
    AdviceFirstMatchIsMostSpecific(f, 0);
    AdviceFirstMatchIsMostSpecific(f, 1);
    AdviceFirstMatchIsMostSpecific(f, 2);
    Dispatch(AdviceTable, f).value
  }

  /** The two specific handlers take precedence: an IllegalArgumentException or
      a UserException never reaches the catch-all, and only the remaining
      exceptions do. */
  lemma CatchAllOnlyForOthers(f: Fault)
    ensures FirstMatch(AdviceTable, f) == Some(2) <==> f.Other?
    ensures f.IllegalArg? ==> FirstMatch(AdviceTable, f) == Some(0)
    ensures f.UserEx? ==> FirstMatch(AdviceTable, f) == Some(1)
  {
    AdviceFirstMatchIsMostSpecific(f, 0);
    AdviceFirstMatchIsMostSpecific(f, 1);
    AdviceFirstMatchIsMostSpecific(f, 2);
  }

  /** The status is 500 exactly for the catch-all kind, and 400 otherwise. */
  lemma StatusSplit(f: Fault)
    ensures Advise(f).status == InternalServerError <==> f.Other?
    ensures Advise(f).status == BadRequest <==> !f.Other?
  {
  }

  /** Non-leak: the 500 response is the same for every exception of the
      catch-all kind, so nothing of their messages reaches the client. */
  lemma CatchAllDoesNotLeak(f1: Fault, f2: Fault)
    requires f1.Other? && f2.Other?
    ensures Advise(f1) == Advise(f2)
    ensures Advise(f1).body.message == InternalErrorMessage
  {
  }

  /** The 400 responses carry the exception's own message and nothing else. */
  lemma ClientFaultsSurfaceMessage(f: Fault)
    requires !f.Other?
    ensures Advise(f).body.message == f.msg
    ensures Advise(f).body.code == (if f.IllegalArg? then BadCode else UserExCode)
  {
  }
}
