/** How a pending request settles: the `request` closure of
    `sendMessageRequest` turns an explicit error, or the body of the
    response, into a rejection or a resolution. */
module Settlement {
  import opened Js
  import Util

  /** The fate of a request promise. Every rejection carries the `response`
      the closure was given (`undefined` for a timeout, a send error or a
      clear). */
  datatype Outcome<M> = Resolved(value: M) | Rejected(error: ErrorObj, response: Option<M>)

  const TimedOut: string := "Request timed out."
  const Cleared: string := "Clearing pending requests."
  const CannotRequest: string := "Cannot send invalid message as a request."

  /** `response.body && response.body.error`: the error a response body
      reports, classified as a string (a new `Error` with that message), an
      object (its fields copied onto a new `Error`), or another truthy value
      (an empty `Error`). */
  function BodyError(body: JVal): Option<ErrorObj>
  {
    if Truthy(body) && Truthy(Field(body, "error")) then
      var e := Field(body, "error");
      Some(if e.Str? then NewError(e.s)
           else if IsObject(e) then ErrorObj(EnumProps(e))
           else ErrorObj(map[]))
    else None
  }

  /** The request closure `(err, response) => ...` given the body of the
      response. The closure is only ever called with an error or with a
      response. */
  function Settle<M>(err: Option<ErrorObj>, response: Option<M>, body: JVal): Outcome<M>
    requires err.Some? || response.Some?
  {
    if err.Some? then Rejected(err.value, response)
    else
      match BodyError(body)
      case Some(e) => Rejected(e, response)
      case None => Resolved(response.value)
  }

  /** A request rejects exactly when it was given an explicit error or its
      response body carries a truthy `error`; it resolves with the response
      otherwise; every rejection carries the response it was given. */
  lemma SettleClasses<M>(err: Option<ErrorObj>, response: Option<M>, body: JVal)
    requires err.Some? || response.Some?
    ensures Settle(err, response, body).Rejected? <==>
              err.Some? || (Truthy(body) && Truthy(Field(body, "error")))
    ensures Settle(err, response, body).Rejected? ==> Settle(err, response, body).response == response
    ensures Settle(err, response, body).Resolved? ==> Settle(err, response, body).value == response.value
    ensures err.Some? ==> Settle(err, response, body).error == err.value
  {
  }

  /** The three kinds of truthy `body.error`. */
  lemma BodyErrorKinds<M>(response: M, body: JVal)
    requires Truthy(body) && Truthy(Field(body, "error"))
    ensures var e := Field(body, "error");
      var o := Settle(None, Some(response), body);
      o.Rejected? &&
      (e.Str? ==> o.error.props.Keys == {"message"} && MessageOf(o.error) == e) &&
      (IsObject(e) ==> o.error.props == EnumProps(e)) &&
      (!e.Str? && !IsObject(e) ==> o.error.props == map[] && MessageOf(o.error) == Str(""))
  {
  }

  /** A timeout rejects with `Request timed out.` and no response. */
  lemma TimeoutRejects<M>(body: JVal)
    ensures var o := Settle<M>(Some(NewError(TimedOut)), None, body);
      o == Rejected(NewError(TimedOut), None) && MessageOf(o.error) == Str(TimedOut)
  {
  }

  /** The error a handler throws reaches the requester: the responder
      replies with `{error: serializeError(e)}`; if that body arrives as it
      was sent, a thrown `Error(m)` (own properties `props`, among them
      `message: m`) rejects the request with an error holding exactly those
      properties, so its message is still `m`, and the response attached. */
  lemma ThrownErrorReachesRequester<M>(response: M, props: map<string, JVal>, m: string)
    requires "message" in props && props["message"] == Str(m)
    ensures var body := Obj(map["error" := Util.SerializeError(Obj(props))]);
      Settle(None, Some(response), body) == Rejected(ErrorObj(props), Some(response)) &&
      MessageOf(Settle(None, Some(response), body).error) == Str(m)
  {
    Util.SerializedErrorKeepsMessage(props, m);
    var body := Obj(map["error" := Util.SerializeError(Obj(props))]);
    assert Field(body, "error") == Obj(props);
  }

  /** A thrown value that is not an object reaches the requester as an
      error with message `Internal error.`. */
  lemma ThrownPrimitiveReachesRequester<M>(response: M, thrown: JVal)
    requires !IsObject(thrown)
    ensures var body := Obj(map["error" := Util.SerializeError(thrown)]);
      MessageOf(Settle(None, Some(response), body).error) == Str(Util.InternalError)
  {
    var body := Obj(map["error" := Util.SerializeError(thrown)]);
    assert Field(body, "error") == Obj(map["message" := Str(Util.InternalError)]);
  }
}
