/** The messages exchanged between the queue and the background worker
    (the `WorkerMessage` / `WorkerResponse` shapes declared in both
    lib/worker-manager.ts and workers/convert.worker.ts). */
module WorkerProtocol {
  import opened Wrappers
  import opened Browser
  import opened Convert

  /** A request to the worker. `kind` is the `type` field; only `"convert"` is meaningful. */
  datatype Request = Request(kind: string, id: string, file: InputFile, options: ConvertOptions)

  datatype ResponseKind = ProgressKind | DoneKind | ErrorKind

  /** A response from the worker; every field but the kind and id is optional. */
  datatype Response = Response(
    kind: ResponseKind,
    id: string,
    percent: Option<int>,
    payload: Option<ConvertResult>,
    message: Option<string>)

  function ProgressMsg(id: string, percent: int): Response {
    Response(ProgressKind, id, Some(percent), None, None)
  }

  function DoneMsg(id: string, result: ConvertResult): Response {
    Response(DoneKind, id, None, Some(result), None)
  }

  function ErrorMsg(id: string, message: string): Response {
    Response(ErrorKind, id, None, None, Some(message))
  }

  /** The shape every answer to one request has: all messages carry the
      request's id; progress messages with a percent in [0, 100], strictly
      increasing, come first; exactly one terminal message (done or error)
      comes last. */
  predicate WellFormed(id: string, trace: seq<Response>) {
    && |trace| > 0
    && (forall k :: 0 <= k < |trace| ==> trace[k].id == id)
    && (forall k :: 0 <= k < |trace| - 1 ==>
          trace[k].kind == ProgressKind && trace[k].percent.Some?
          && 0 <= trace[k].percent.value <= 100)
    && trace[|trace| - 1].kind != ProgressKind
    && (forall j, k :: 0 <= j < k < |trace| - 1 ==>
          trace[j].percent.Some? && trace[k].percent.Some? ==>
          trace[j].percent.value < trace[k].percent.value)
  }
}
