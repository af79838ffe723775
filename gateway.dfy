/**
 * The moderation endpoints the pages call (`approveAd`, `rejectAd`,
 * `requestChanges`). The API client shown does not define them, so they are
 * modelled as an abstract, fallible gateway: every call is appended to a log,
 * and the calls whose position in the log is listed in `failing` reject.
 */
module Gateway {
  import opened Wrappers

  /** One moderation request: its target ad and, for reject and request-changes, the reason and comment. */
  datatype Call =
    | ApproveCall(id: int)
    | RejectCall(id: int, reason: string, comment: Option<string>)
    | RequestChangesCall(id: int, reason: string, comment: Option<string>)

  class ModerationGateway {
    /** Every request sent so far, in order. */
    var log: seq<Call>
    /** The positions (0-based, in `log`) of the requests that fail. */
    const failing: set<nat>

    constructor (failing: set<nat>)
      ensures log == [] && this.failing == failing
    {
      log := [];
      this.failing := failing;
    }

    /** Sends one request; `ok` is false when the request is rejected. */
    method Send(c: Call) returns (ok: bool)
      modifies this
      ensures log == old(log) + [c]
      ensures ok <==> |old(log)| !in failing
    {
      ok := |log| !in failing;
      log := log + [c];
    }
  }
}
