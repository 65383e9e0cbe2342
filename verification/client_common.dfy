/**
 * The Python client's shared checks (common.py): the raise helpers, the
 * ResponseError exception, and the reply check. A Python call that raises
 * is a `Some(error)` here; one that returns normally is `None`.
 */
module ClientCommon {
  import opened Wire

  /** The text of a ResponseError; its f-string chooses one of two messages. */
  datatype ErrorMessage = StatusMessage(status: Option<Status>) | UnexpectedBodyTypeMessage(bodyType: ResponseBody)

  /** The exceptions the modelled client code raises. */
  datatype ClientError =
    | ValueError(msg: string)
    | ResponseError(bodyType: ResponseBody, status: Option<Status>, message: ErrorMessage)
      /** Whatever the (unmodelled) transport raises. */
    | TransportError
      /** Reading the body of a reply that carries none. */
    | MissingBody

  /** What a reply is checked against after it arrives. */
  datatype ReplyCheck = NoCheck | Expect(bodyType: ResponseBody, allowDuplicate: bool)

  /**
   * What a client call does before any reply: raise, return without
   * contacting the server, or send a request.
   */
  datatype Action<T> = Raise(err: ClientError) | Return(value: T) | Send(request: Request, check: ReplyCheck)

  /** How a call ends once its reply is in: an exception, or a returned value. */
  datatype Outcome<T> = Raised(err: ClientError) | Returned(value: T)

  /** raise_if: raises ValueError(msg) exactly when the condition holds. */
  function RaiseIf(condition: bool, msg: string): (r: Option<ClientError>)
    ensures r.Some? <==> condition
    ensures r.Some? ==> r.value == ValueError(msg)
  {
    if condition then Some(ValueError(msg)) else None
  }

  /**
   * raise_if_not: raise_if either raises or returns None, and `not None`
   * holds, so a raise follows whatever the condition.
   */
  function RaiseIfNot(condition: bool, msg: string): (r: Option<ClientError>)
    ensures r == Some(ValueError(msg))
  {
    match RaiseIf(condition, msg)
    case Some(e) => Some(e)
    case None => Some(ValueError(msg))
  }

  /** raise_if_empty: raises exactly for the empty string. */
  function RaiseIfEmpty(value: string): (r: Option<ClientError>)
    ensures r.Some? <==> |value| == 0
    ensures r.Some? ==> r.value == ValueError("value empty")
  {
    RaiseIf(value == "", "value empty")
  }

  /** raise_if_lt: raises exactly when value < maxValue. */
  function RaiseIfLt(value: int, maxValue: int, msg: string): (r: Option<ClientError>)
    ensures r.Some? <==> value < maxValue
    ensures r.Some? ==> r.value == ValueError(msg)
  {
    RaiseIf(value < maxValue, msg)
  }

  /** raise_if_equal: raises exactly when the two values are equal. */
  function RaiseIfEqual<T(==)>(val1: T, val2: T, msg: string): (r: Option<ClientError>)
    ensures r.Some? <==> val1 == val2
    ensures r.Some? ==> r.value == ValueError(msg)
  {
    RaiseIf(val1 == val2, msg)
  }

  /** A ResponseError whose message names what is wrong: the status if there is one, else the body type. */
  predicate Describes(e: ClientError)
  {
    e.ResponseError? ==>
      (e.status.Some? ==> e.message == StatusMessage(e.status))
      && (e.status.None? ==> e.message == UnexpectedBodyTypeMessage(e.bodyType))
  }

  /**
   * ResponseError.__init__ as written: status and bodyType are stored as
   * given, but the message is chosen the wrong way round.
   */
  function NewResponseError(bodyType: ResponseBody, status: Option<Status>): (e: ClientError)
    ensures e.ResponseError? && e.bodyType == bodyType && e.status == status
    ensures !Describes(e)
  {
    var message := if status.None? then StatusMessage(status) else UnexpectedBodyTypeMessage(bodyType);
    ResponseError(bodyType, status, message)
  }

  /** ResponseError.statusError as written: the status is kept, the message speaks of the body type. */
  function StatusError(bodyType: ResponseBody, status: Status): (e: ClientError)
    ensures e.ResponseError? && e.bodyType == bodyType && e.status == Some(status)
  {
    NewResponseError(bodyType, Some(status))
  }

  /** ResponseError.bodyTypeError as written: no status, and a message about the status. */
  function BodyTypeError(bodyType: ResponseBody): (e: ClientError)
    ensures e.ResponseError? && e.bodyType == bodyType && e.status == None
  {
    NewResponseError(bodyType, None)
  }

  /** The two messages are swapped: each error reports the other cause. */
  lemma MessagesAreSwapped(bodyType: ResponseBody, status: Status)
    ensures StatusError(bodyType, status).message == UnexpectedBodyTypeMessage(bodyType)
    ensures BodyTypeError(bodyType).message == StatusMessage(None)
  {
  }

  /** ResponseError with the message the branches evidently intend. */
  function IntendedResponseError(bodyType: ResponseBody, status: Option<Status>): (e: ClientError)
    ensures e.ResponseError? && e.bodyType == bodyType && e.status == status
    ensures Describes(e)
  {
    var message := if status.Some? then StatusMessage(status) else UnexpectedBodyTypeMessage(bodyType);
    ResponseError(bodyType, status, message)
  }

  /**
   * raise_if_fail as written: a status other than Ok raises statusError with
   * the status and body type; otherwise a body type other than the expected
   * one raises bodyTypeError without a status; otherwise nothing is raised.
   * Both errors carry the swapped message of ResponseError.__init__.
   */
  function RaiseIfFail(rsp: Response, expected: ResponseBody): (r: Option<ClientError>)
    ensures r.None? <==> rsp.status == Ok && rsp.bodyType == expected
    ensures rsp.status != Ok ==>
      r.Some? && r.value.ResponseError? && r.value.status == Some(rsp.status) && r.value.bodyType == rsp.bodyType
    ensures rsp.status == Ok && rsp.bodyType != expected ==>
      r.Some? && r.value.ResponseError? && r.value.status == None && r.value.bodyType == rsp.bodyType
    ensures r.Some? ==> !Describes(r.value)
  {
    if rsp.status != Ok then Some(StatusError(rsp.bodyType, rsp.status))
    else if rsp.bodyType != expected then Some(BodyTypeError(rsp.bodyType))
    else None
  }

  /**
   * raise_if_fail with the intended messages: it raises in exactly the same
   * cases and with the same status and body type, and each error names its
   * cause.
   */
  function IntendedRaiseIfFail(rsp: Response, expected: ResponseBody): (r: Option<ClientError>)
    ensures r.Some? ==> Describes(r.value)
  {
    if rsp.status != Ok then Some(IntendedResponseError(rsp.bodyType, Some(rsp.status)))
    else if rsp.bodyType != expected then Some(IntendedResponseError(rsp.bodyType, None))
    else None
  }

  /**
   * The as-written and the intended reply checks raise for the same replies,
   * with the same status and body type, and differ only in the message.
   */
  lemma IntendedRaiseIfFailAgrees(rsp: Response, expected: ResponseBody)
    ensures RaiseIfFail(rsp, expected).None? <==> IntendedRaiseIfFail(rsp, expected).None?
    ensures RaiseIfFail(rsp, expected).Some? ==>
      var e, f := RaiseIfFail(rsp, expected).value, IntendedRaiseIfFail(rsp, expected).value;
      e.ResponseError? && f.ResponseError? && e.status == f.status && e.bodyType == f.bodyType
      && e.message != f.message
  {
  }
}
