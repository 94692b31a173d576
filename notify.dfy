/**
 * How the tools judge the HTTP reply to a chat.postMessage call. The request
 * itself, its encoding and the network are outside the model: the reply is an
 * input, with the body already decoded as Slack's acknowledgement when it decodes.
 */
module Notify {
  import opened Wrappers

  /** http.StatusOK */
  const StatusOK := 200

  /** The fields of Slack's reply the thread poster decodes (SlackResponse). */
  datatype Ack = Ack(ok: bool, error: string, channel: string, ts: string)

  /**
   * The outcome of `client.Do`: it failed, or it produced a status code and a
   * body; `decoded` is the body read as JSON, `None` when decoding fails.
   */
  datatype Reply =
    | TransportFailure(detail: string)
    | Response(status: int, body: string, decoded: Option<Ack>)

  /** Why a notification was not delivered; one constructor per error the tools return. */
  datatype DeliveryError =
    | HistoryUnavailable(detail: string)    // conversation history could not be fetched
    | NoThreadForToday                      // "no thread found for today"
    | RequestFailed(detail: string)         // client.Do returned an error
    | StatusNotOk(status: int, body: string) // "request failed with status code %d: %s"
    | NotOkResponse(body: string)           // "error: not ok response back from Slack API: %s"
    | Undecodable                           // "error decoding response from Slack API"
    | ApiError(error: string)               // "error from Slack API: %s"

  /**
   * The check of the form-encoded posts (prow_summary.go, prow-ci/prow_summary.go
   * and coffee-break/coffee.go): anything but status 200 fails, carrying the
   * status and the body; the body of a 200 reply is not inspected.
   */
  function CheckFormReply(reply: Reply): (o: Outcome<DeliveryError>)
    ensures o.Pass? <==> reply.Response? && reply.status == StatusOK
    ensures reply.TransportFailure? ==> o == Fail(RequestFailed(reply.detail))
    ensures reply.Response? && reply.status != StatusOK ==> o == Fail(StatusNotOk(reply.status, reply.body))
  {
    match reply
    case TransportFailure(detail) => Fail(RequestFailed(detail))
    case Response(status, body, _) =>
      if status != StatusOK then Fail(StatusNotOk(status, body)) else Pass
  }

  /**
   * The check of the JSON post into a thread (prow_thread_summary.go): status 200
   * is not enough, the body must decode and say `ok`; a refusal carries the
   * error text Slack gave.
   */
  function CheckJsonReply(reply: Reply): (o: Outcome<DeliveryError>)
    ensures o.Pass? <==> reply.Response? && reply.status == StatusOK && reply.decoded.Some? && reply.decoded.value.ok
    ensures reply.TransportFailure? ==> o == Fail(RequestFailed(reply.detail))
    ensures reply.Response? && reply.status != StatusOK ==> o == Fail(NotOkResponse(reply.body))
    ensures reply.Response? && reply.status == StatusOK && reply.decoded.None? ==> o == Fail(Undecodable)
    ensures reply.Response? && reply.status == StatusOK && reply.decoded.Some? && !reply.decoded.value.ok
            ==> o == Fail(ApiError(reply.decoded.value.error))
  {
    match reply
    case TransportFailure(detail) => Fail(RequestFailed(detail))
    case Response(status, body, decoded) =>
      if status != StatusOK then Fail(NotOkResponse(body))
      else match decoded
        case None => Fail(Undecodable)
        case Some(ack) => if !ack.ok then Fail(ApiError(ack.error)) else Pass
  }

  /** The thread poster is the stricter of the two: whatever it accepts, the form check accepts. */
  lemma JsonCheckIsStricter(reply: Reply)
    ensures CheckJsonReply(reply).Pass? ==> CheckFormReply(reply).Pass?
  {
  }
}
