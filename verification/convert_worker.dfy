/** The background worker (workers/convert.worker.ts): for one request, the
    fixed sequence of responses it posts, given how `convertImage` ends. */
module ConvertWorker {
  import opened Wrappers
  import opened Browser
  import opened Types
  import opened Convert
  import opened WorkerProtocol

  /** The text of an error response: an `Error`'s message, or the fixed
      fallback for anything else that was thrown. */
  function ErrorText(e: Thrown): string {
    match e
    case JsError(m) => m
    case NonError => ConversionFailed
  }

  /** The progress milestones posted before `convertImage` is awaited: 5, then
      15 for HEIC input only, then 30 and 60. */
  function Lead(id: string, heic: bool): seq<Response> {
    [ProgressMsg(id, 5)] + (if heic then [ProgressMsg(id, 15)] else [])
      + [ProgressMsg(id, 30), ProgressMsg(id, 60)]
  }

  /** The responses posted for `request` when `convertImage` settles with
      `outcome`. The worker's HEIC test is the engine's `IsHeic`. */
  function Respond(request: Request, outcome: Result<ConvertResult, Thrown>): (trace: seq<Response>)
    // anything but a convert request is ignored
    ensures request.kind != "convert" <==> trace == []
    // otherwise: one progress message per milestone, in order, then one terminal message
    ensures request.kind == "convert" ==>
      var ms := Milestones(IsHeic(request.file), outcome.Success?);
      && |trace| == |ms| + 1
      && (forall k :: 0 <= k < |ms| ==> trace[k] == ProgressMsg(request.id, ms[k]))
      && trace[|ms|] == Terminal(request.id, outcome)
  {
    if request.kind != "convert" then []
    else
      var lead := Lead(request.id, IsHeic(request.file));
      match outcome
      case Success(result) => lead + [ProgressMsg(request.id, 100), DoneMsg(request.id, result)]
      case Failure(e) => lead + [ErrorMsg(request.id, ErrorText(e))]
  }

  /** The percents a convert request reports: 5, 15 for HEIC input only,
      30, 60, and 100 only when the conversion succeeded. */
  function Milestones(heic: bool, succeeded: bool): (ms: seq<int>)
    // 5, 30 and 60 always, plus one more for HEIC input and one more on success
    ensures |ms| == 3 + (if heic then 1 else 0) + (if succeeded then 1 else 0)
    ensures ms[0] == 5 && 30 in ms && 60 in ms
    ensures 15 in ms <==> heic
    ensures 100 in ms <==> succeeded
    ensures forall k :: 0 <= k < |ms| ==> 0 <= ms[k] <= 100
    ensures forall j, k :: 0 <= j < k < |ms| ==> ms[j] < ms[k]
  {
    [5] + (if heic then [15] else []) + [30, 60] + (if succeeded then [100] else [])
  }

  /** The facts Milestones promises fix the list: any increasing list with
      5 first, 30 and 60, 15 exactly for HEIC input, 100 exactly on success,
      and no other entries is the milestone list. */
  lemma MilestonesDetermined(ms: seq<int>, heic: bool, succeeded: bool)
    requires |ms| == 3 + (if heic then 1 else 0) + (if succeeded then 1 else 0)
    requires ms[0] == 5 && 30 in ms && 60 in ms
    requires 15 in ms <==> heic
    requires 100 in ms <==> succeeded
    requires forall j, k :: 0 <= j < k < |ms| ==> ms[j] < ms[k]
    ensures ms == Milestones(heic, succeeded)
  {
  }

  /** The one message that ends the answer: done with the result, or error
      with the thrown message. */
  function Terminal(id: string, outcome: Result<ConvertResult, Thrown>): Response {
    match outcome
    case Success(result) => DoneMsg(id, result)
    case Failure(e) => ErrorMsg(id, ErrorText(e))
  }

  /** Every convert request is answered by a well-formed trace: one id,
      increasing percents in [0, 100], exactly one terminal message, last. */
  lemma RespondWellFormed(request: Request, outcome: Result<ConvertResult, Thrown>)
    requires request.kind == "convert"
    ensures WellFormed(request.id, Respond(request, outcome))
  {
    var t := Respond(request, outcome);
    var ms := Milestones(IsHeic(request.file), outcome.Success?);
    assert forall k :: 0 <= k < |t| - 1 ==> t[k].percent == Some(ms[k]);
  }
}
