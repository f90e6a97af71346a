/** The conversion task queue (lib/worker-manager.ts, `ConversionWorkerManager`):
    a FIFO of pending tasks, one active slot, and id-correlated handling of the
    worker's responses. JavaScript runs each handler to completion, so the
    manager is a deterministic state machine stepped by submissions, delivered
    responses and teardown. Calls into the worker and into callers' promise
    callbacks are returned as a list of effects. */
module WorkerManager {
  import opened Wrappers
  import opened Browser
  import opened Types
  import opened Convert
  import opened WorkerProtocol
  import opened Seqs

  /** A queued conversion (`QueuedFile`); `hasProgress` says whether the
      caller passed a progress callback. */
  datatype Task = Task(id: string, file: InputFile, options: ConvertOptions, hasProgress: bool)

  /** The manager's fields. `worker` is whether a worker object is held. */
  datatype Manager = Manager(worker: bool, queue: seq<Task>, isProcessing: bool, current: Option<Task>)

  /** What a step does outside the manager's own fields. */
  datatype Effect =
    | Post(request: Request)              // worker.postMessage
    | Progress(id: string, percent: int)  // the task's onProgress callback
    | Resolve(id: string, result: ConvertResult)
    | Reject(id: string, reason: string)
    | Terminate                           // worker.terminate

  datatype Step = Step(state: Manager, effects: seq<Effect>)

  /** The states the manager can be in: busy exactly when a task is current,
      a current task only with a worker, and a worker never idles while work
      is queued. */
  predicate Inv(m: Manager) {
    && (m.isProcessing <==> m.current.Some?)
    && (m.current.Some? ==> m.worker)
    && (m.worker && !m.isProcessing ==> m.queue == [])
  }

  /** The constructor: a worker if one could be created, otherwise none. */
  function Create(workerAvailable: bool): (m: Manager)
    ensures Inv(m)
    ensures m.worker == workerAvailable && m.queue == [] && m.current == None
  {
    Manager(workerAvailable, [], false, None)
  }

  /** The message that hands a task to the worker. */
  function RequestFor(t: Task): Request {
    Request("convert", t.id, t.file, t.options)
  }

  /** `processQueue`: when idle, with work queued and a worker present, take
      the head of the queue and post it; otherwise do nothing. */
  function ProcessQueue(m: Manager): (s: Step)
    // something is posted exactly when the manager is idle, has work and has a worker
    ensures s.effects != [] <==> !m.isProcessing && m.queue != [] && m.worker
    // what is posted is the head of the queue, which becomes current; the rest stays queued in order
    ensures s.effects != [] ==>
      && s.effects == [Post(RequestFor(m.queue[0]))]
      && s.state.isProcessing && s.state.current == Some(m.queue[0])
      && [m.queue[0]] + s.state.queue == m.queue
    ensures s.effects == [] ==> s.state == m
    ensures s.state.worker == m.worker
    // whatever was queued, the manager ends in a state `Inv` allows, provided
    // the busy flag and the active slot agreed before
    ensures (m.isProcessing <==> m.current.Some?) && (m.current.Some? ==> m.worker) ==> Inv(s.state)
  {
    if m.isProcessing || |m.queue| == 0 || !m.worker then Step(m, [])
    else
      var t := m.queue[0];
      Step(m.(isProcessing := true, current := Some(t), queue := m.queue[1..]), [Post(RequestFor(t))])
  }

  /** `processNextFile`: clear the active slot, then dispatch if anything waits. */
  function ProcessNextFile(m: Manager): (s: Step)
    ensures Inv(s.state)
    ensures s.state.worker == m.worker
    // the next task is dispatched exactly when there is one and a worker to take it
    ensures s.state.current.Some? <==> m.worker && m.queue != []
    ensures s.state.current.Some? ==>
      && s.effects == [Post(RequestFor(s.state.current.value))]
      && [s.state.current.value] + s.state.queue == m.queue
    ensures s.state.current.None? ==> s.effects == [] && s.state.queue == m.queue
  {
    var idle := m.(current := None, isProcessing := false);
    if |idle.queue| > 0 then ProcessQueue(idle) else Step(idle, [])
  }

  /** `convertFile`: append the task at the back and try to dispatch. */
  function ConvertFile(m: Manager, t: Task): (s: Step)
    ensures s.state.worker == m.worker
    ensures Inv(m) ==> Inv(s.state)
    // an idle manager with a worker posts the new task at once (its queue is empty)
    ensures Inv(m) && !m.isProcessing && m.worker ==>
      s.effects == [Post(RequestFor(t))] && s.state.current == Some(t) && s.state.queue == []
    // otherwise the task waits at the back of the queue and nothing else changes
    ensures Inv(m) && (m.isProcessing || !m.worker) ==>
      s.effects == [] && s.state == m.(queue := m.queue + [t])
  {
    ProcessQueue(m.(queue := m.queue + [t]))
  }

  /** The reason a failed task is rejected with: the message, or the fixed
      fallback when it is absent or empty. */
  function RejectReason(message: Option<string>): (reason: string)
    ensures reason != ""
    // `message || 'Conversion failed'`: absent and empty messages are both falsy
    ensures message.None? || message.value == "" ==> reason == ConversionFailed
    ensures message.Some? && message.value != "" ==> reason == message.value
  {
    if message.None? || message.value == "" then ConversionFailed else message.value
  }

  /** How the current task `t` settles on terminal response `r`: a done
      response resolves it only when it carries a payload, an error response
      always rejects it. */
  function SettleFor(t: Task, r: Response): (effects: seq<Effect>)
    requires r.kind != ProgressKind
    // at most one settlement, and only of `t`
    ensures |effects| <= 1
    ensures forall e :: e in effects ==> (e.Resolve? || e.Reject?) && e.id == t.id
    // nothing happens only for a done response without a payload
    ensures effects == [] <==> r.kind == DoneKind && r.payload.None?
    // a resolution carries the payload; a rejection comes from an error, with a non-empty reason
    ensures forall e :: e in effects && e.Resolve? ==> r.kind == DoneKind && r.payload == Some(e.result)
    ensures forall e :: e in effects && e.Reject? ==>
      r.kind == ErrorKind && e.reason == RejectReason(r.message) && e.reason != ""
  {
    if r.kind == DoneKind then (if r.payload.Some? then [Resolve(t.id, r.payload.value)] else [])
    else
      assert r.kind == ErrorKind;
      [Reject(t.id, RejectReason(r.message))]
  }

  /** `handleWorkerMessage`. */
  function HandleMessage(m: Manager, r: Response): (s: Step)
    // a response while idle, or for another id, changes nothing
    ensures (m.current.None? || m.current.value.id != r.id) ==> s == Step(m, [])
    // progress for the current task leaves the state alone
    ensures r.kind == ProgressKind ==> s.state == m
  {
    if m.current.None? || m.current.value.id != r.id then Step(m, [])
    else if r.kind == ProgressKind then
      var t := m.current.value;
      Step(m, if r.percent.Some? && t.hasProgress then [Progress(t.id, r.percent.value)] else [])
    else
      var next := ProcessNextFile(m);
      Step(next.state, SettleFor(m.current.value, r) + next.effects)
  }

  /** `destroy`: terminate the worker if any, drop all pending and active state. */
  function Destroy(m: Manager): (s: Step)
    // no worker, no task held: nothing can ever be dispatched again
    ensures Inv(s.state) && !s.state.worker && LiveIds(s.state) == [] && !s.state.isProcessing
    // the worker, if there was one, is terminated, and that is all that happens
    ensures s.effects == [] <==> !m.worker
    ensures forall e :: e in s.effects ==> e == Terminate
    ensures |s.effects| <= 1
  {
    Step(Manager(false, [], false, None), if m.worker then [Terminate] else [])
  }

  // ---------------------------------------------------------------------
  // Runs
  // ---------------------------------------------------------------------

  /** What can happen to the manager. */
  datatype Event = Submit(task: Task) | Deliver(response: Response) | Teardown

  function Apply(m: Manager, e: Event): Step {
    match e
    case Submit(t) => ConvertFile(m, t)
    case Deliver(r) => HandleMessage(m, r)
    case Teardown => Destroy(m)
  }

  /** The manager after a sequence of events, with every effect in order. */
  function Run(m: Manager, events: seq<Event>): Step
    decreases |events|
  {
    if events == [] then Step(m, [])
    else
      var first := Apply(m, events[0]);
      var rest := Run(first.state, events[1..]);
      Step(rest.state, first.effects + rest.effects)
  }

  function TaskIds(ts: seq<Task>): (ids: seq<string>)
    ensures |ids| == |ts|
    ensures forall k :: 0 <= k < |ts| ==> ids[k] == ts[k].id
  {
    seq(|ts|, k requires 0 <= k < |ts| => ts[k].id)
  }

  /** Ids of the tasks the manager still holds: the current one first, then the queue. */
  function LiveIds(m: Manager): seq<string> {
    (if m.current.Some? then [m.current.value.id] else []) + TaskIds(m.queue)
  }

  /** Ids of submitted tasks, in submission order. */
  function SubmittedIds(events: seq<Event>): seq<string> {
    if events == [] then []
    else (if events[0].Submit? then [events[0].task.id] else []) + SubmittedIds(events[1..])
  }

  /** Ids of tasks posted to the worker, in posting order. */
  function PostedIds(effects: seq<Effect>): seq<string> {
    if effects == [] then []
    else (if effects[0].Post? then [effects[0].request.id] else []) + PostedIds(effects[1..])
  }

  /** The id a single effect settles, if it settles one. */
  function SettledBy(e: Effect): seq<string> {
    match e
    case Resolve(id, _) => [id]
    case Reject(id, _) => [id]
    case _ => []
  }

  /** Ids of tasks whose promise was resolved or rejected, in order. */
  function SettledIds(effects: seq<Effect>): seq<string> {
    if effects == [] then []
    else SettledBy(effects[0]) + SettledIds(effects[1..])
  }

  lemma {:induction false} PostedConcat(a: seq<Effect>, b: seq<Effect>)
    ensures PostedIds(a + b) == PostedIds(a) + PostedIds(b)
    decreases |a|
  {
    if a == [] {
      assert a + b == b;
    } else {
      assert (a + b)[1..] == a[1..] + b;
      PostedConcat(a[1..], b);
    }
  }

  lemma {:induction false} SettledConcat(a: seq<Effect>, b: seq<Effect>)
    ensures SettledIds(a + b) == SettledIds(a) + SettledIds(b)
    decreases |a|
  {
    if a == [] {
      assert a + b == b;
    } else {
      assert (a + b)[0] == a[0];
      assert (a + b)[1..] == a[1..] + b;
      SettledConcat(a[1..], b);
      calc {
        SettledIds(a + b);
        SettledBy(a[0]) + SettledIds(a[1..] + b);
        SettledBy(a[0]) + (SettledIds(a[1..]) + SettledIds(b));
        (SettledBy(a[0]) + SettledIds(a[1..])) + SettledIds(b);
      }
    }
  }

  lemma TaskIdsConcat(a: seq<Task>, b: seq<Task>)
    ensures TaskIds(a + b) == TaskIds(a) + TaskIds(b)
  {
  }

  /** Settling posts nothing and settles the task it is given, at most once. */
  lemma SettleForIds(t: Task, r: Response)
    requires r.kind != ProgressKind
    ensures PostedIds(SettleFor(t, r)) == []
    ensures SettledIds(SettleFor(t, r)) == (if r.kind == DoneKind && r.payload.None? then [] else [t.id])
  {
  }

  /** Dispatch never settles anything and posts at most the head of the queue. */
  lemma ProcessNextFileEffects(m: Manager)
    ensures SettledIds(ProcessNextFile(m).effects) == []
    ensures PostedIds(ProcessNextFile(m).effects) + TaskIds(ProcessNextFile(m).state.queue) == TaskIds(m.queue)
  {
    var idle := m.(current := None, isProcessing := false);
    if |idle.queue| > 0 {
      DispatchFifo(idle);
    } else {
      assert PostedIds([]) == [] && SettledIds([]) == [];
    }
  }

  /** Every step keeps the manager in a reachable state. */
  lemma ApplyKeepsInv(m: Manager, e: Event)
    requires Inv(m)
    ensures Inv(Apply(m, e).state)
  {
  }

  lemma {:induction false} RunKeepsInv(m: Manager, events: seq<Event>)
    requires Inv(m)
    ensures Inv(Run(m, events).state)
    decreases |events|
  {
    if events != [] {
      ApplyKeepsInv(m, events[0]);
      RunKeepsInv(Apply(m, events[0]).state, events[1..]);
    }
  }

  /** Dispatch moves at most the head of the queue to the worker, in order. */
  lemma DispatchFifo(m: Manager)
    ensures PostedIds(ProcessQueue(m).effects) + TaskIds(ProcessQueue(m).state.queue) == TaskIds(m.queue)
    ensures SettledIds(ProcessQueue(m).effects) == []
  {
    if !m.isProcessing && m.queue != [] && m.worker {
      var q := m.queue;
      assert PostedIds([Post(RequestFor(q[0]))]) == [q[0].id];
      assert SettledIds([Post(RequestFor(q[0]))]) == [];
      assert q == [q[0]] + q[1..];
      TaskIdsConcat([q[0]], q[1..]);
    }
  }

  /** A submission queues its task at the back and posts at most the head. */
  lemma SubmitFifo(m: Manager, t: Task)
    ensures PostedIds(ConvertFile(m, t).effects) + TaskIds(ConvertFile(m, t).state.queue)
            == TaskIds(m.queue) + [t.id]
  {
    DispatchFifo(m.(queue := m.queue + [t]));
    TaskIdsConcat(m.queue, [t]);
  }

  /** A delivered response posts at most the head of the queue and submits nothing. */
  lemma DeliverFifo(m: Manager, r: Response)
    ensures PostedIds(HandleMessage(m, r).effects) + TaskIds(HandleMessage(m, r).state.queue)
            == TaskIds(m.queue)
  {
    if m.current.Some? && m.current.value.id == r.id && r.kind != ProgressKind {
      TerminalFifo(m, r);
    } else {
      var effs := HandleMessage(m, r).effects;
      assert HandleMessage(m, r).state == m;
      assert PostedIds(effs) == [] by {
        assert effs == [] || (|effs| == 1 && effs[0].Progress?);
      }
    }
  }

  lemma TerminalFifo(m: Manager, r: Response)
    requires m.current.Some? && m.current.value.id == r.id && r.kind != ProgressKind
    ensures PostedIds(HandleMessage(m, r).effects) + TaskIds(HandleMessage(m, r).state.queue)
            == TaskIds(m.queue)
  {
    var next := ProcessNextFile(m);
    var pre := SettleFor(m.current.value, r);
    assert HandleMessage(m, r) == Step(next.state, pre + next.effects);
    ProcessNextFileEffects(m);
    PostedConcat(pre, next.effects);
    SettleForIds(m.current.value, r);
  }

  /** One step moves task ids through the queue in order: what it posts plus
      what remains queued is what was queued plus what it submitted. */
  lemma ApplyFifo(m: Manager, e: Event)
    requires !e.Teardown?
    ensures PostedIds(Apply(m, e).effects) + TaskIds(Apply(m, e).state.queue)
            == TaskIds(m.queue) + SubmittedIds([e])
  {
    assert SubmittedIds([e]) == (if e.Submit? then [e.task.id] else []) + SubmittedIds([]);
    if e.Submit? {
      SubmitFifo(m, e.task);
    } else {
      DeliverFifo(m, e.response);
      assert TaskIds(m.queue) + [] == TaskIds(m.queue);
    }
  }

  /** FIFO dispatch: over any run without teardown, tasks are posted to the
      worker in exactly the order they were queued and submitted; whatever
      has not been posted is still queued, in that order. */
  lemma {:induction false} RunFifo(m: Manager, events: seq<Event>)
    requires forall k :: 0 <= k < |events| ==> !events[k].Teardown?
    ensures PostedIds(Run(m, events).effects) + TaskIds(Run(m, events).state.queue)
            == TaskIds(m.queue) + SubmittedIds(events)
    decreases |events|
  {
    if events == [] {
      assert PostedIds([]) == [] && SubmittedIds([]) == [];
    } else {
      var e := events[0];
      var first := Apply(m, e);
      var rest := Run(first.state, events[1..]);
      assert Run(m, events) == Step(rest.state, first.effects + rest.effects);
      ApplyFifo(m, e);
      RunFifo(first.state, events[1..]);
      PostedConcat(first.effects, rest.effects);
      SubmittedSplit(events);
      Chain(PostedIds(first.effects), TaskIds(first.state.queue), PostedIds(rest.effects),
            TaskIds(rest.state.queue), TaskIds(m.queue), SubmittedIds([e]), SubmittedIds(events[1..]));
    }
  }

  /** Two queue steps chained: what both post plus what is left is what was
      there plus what both added. */
  lemma Chain<T>(p1: seq<T>, q1: seq<T>, p2: seq<T>, q2: seq<T>, q0: seq<T>, s1: seq<T>, s2: seq<T>)
    requires p1 + q1 == q0 + s1
    requires p2 + q2 == q1 + s2
    ensures (p1 + p2) + q2 == q0 + (s1 + s2)
  {
    calc {
      (p1 + p2) + q2;
      p1 + (p2 + q2);
      p1 + (q1 + s2);
      (p1 + q1) + s2;
      (q0 + s1) + s2;
    }
  }

  lemma SubmittedSplit(events: seq<Event>)
    requires events != []
    ensures SubmittedIds(events) == SubmittedIds([events[0]]) + SubmittedIds(events[1..])
  {
    assert [events[0]][1..] == [];
  }

  /** Starting from a fresh manager with a worker, the posting order is the
      submission order. */
  lemma {:induction false} FifoFromStart(events: seq<Event>)
    requires forall k :: 0 <= k < |events| ==> !events[k].Teardown?
    ensures SubmittedIds(events) == PostedIds(Run(Create(true), events).effects)
                                   + TaskIds(Run(Create(true), events).state.queue)
  {
    RunFifo(Create(true), events);
  }

  /** A submission appends its id to the live ids and settles nothing. */
  lemma SubmitLive(m: Manager, t: Task)
    requires Inv(m)
    ensures LiveIds(ConvertFile(m, t).state) == LiveIds(m) + [t.id]
    ensures SettledIds(ConvertFile(m, t).effects) == []
  {
    TaskIdsConcat(m.queue, [t]);
    if !m.isProcessing && m.worker {
      assert m.queue == [];
      assert SettledIds([Post(RequestFor(t))]) == [];
    }
  }

  /** Teardown forgets every live id and settles nothing. */
  lemma TeardownLive(m: Manager)
    ensures LiveIds(Destroy(m).state) == []
    ensures SettledIds(Destroy(m).effects) == []
  {
    assert SettledIds([Terminate]) == [];
  }

  /** A response that is not terminal for the current task changes no live
      id and settles nothing. */
  lemma IgnoredLive(m: Manager, r: Response)
    requires !(m.current.Some? && m.current.value.id == r.id && r.kind != ProgressKind)
    ensures LiveIds(HandleMessage(m, r).state) == LiveIds(m)
    ensures SettledIds(HandleMessage(m, r).effects) == []
  {
    var effs := HandleMessage(m, r).effects;
    assert effs == [] || (|effs| == 1 && effs[0].Progress?);
  }

  /** Moving on from the current task leaves exactly the queued ids live. */
  lemma NextLive(m: Manager)
    requires Inv(m) && m.current.Some?
    ensures LiveIds(ProcessNextFile(m).state) == TaskIds(m.queue)
  {
    if m.queue != [] {
      var q := m.queue;
      assert ProcessNextFile(m).state.current == Some(q[0]);
      assert ProcessNextFile(m).state.queue == q[1..];
      assert q == [q[0]] + q[1..];
      TaskIdsConcat([q[0]], q[1..]);
    }
  }

  /** A terminal response for the current task removes the first live id
      and settles that task at most once. */
  lemma TerminalLive(m: Manager, r: Response)
    requires Inv(m)
    requires m.current.Some? && m.current.value.id == r.id && r.kind != ProgressKind
    ensures LiveIds(m) != [] && LiveIds(m)[0] == r.id
    ensures LiveIds(HandleMessage(m, r).state) == LiveIds(m)[1..]
    ensures SettledIds(HandleMessage(m, r).effects) == [] || SettledIds(HandleMessage(m, r).effects) == [r.id]
  {
    var t := m.current.value;
    var next := ProcessNextFile(m);
    var pre := SettleFor(t, r);
    assert HandleMessage(m, r) == Step(next.state, pre + next.effects);
    assert LiveIds(m) == [t.id] + TaskIds(m.queue);
    NextLive(m);
    ProcessNextFileEffects(m);
    SettledConcat(pre, next.effects);
    SettleForIds(t, r);
  }

  /** One step, seen from the ids still to be handled (held now, or
      submitted later): it drops some prefix `done` of them, and settles only
      ids from that prefix, each at most once. */
  lemma StepShape(m: Manager, events: seq<Event>) returns (done: seq<string>)
    requires Inv(m) && events != []
    ensures LiveIds(m) + SubmittedIds(events)
            == done + (LiveIds(Apply(m, events[0]).state) + SubmittedIds(events[1..]))
    ensures Distinct(SettledIds(Apply(m, events[0]).effects))
    ensures forall x :: x in SettledIds(Apply(m, events[0]).effects) ==> x in done
  {
    SubmittedSplit(events);
    match events[0]
    case Submit(t) =>
      done := SubmitShape(m, t, SubmittedIds(events[1..]));
    case Teardown =>
      done := TeardownShape(m, SubmittedIds(events[1..]));
    case Deliver(r) =>
      done := DeliverShape(m, r, SubmittedIds(events[1..]));
  }

  lemma SubmitShape(m: Manager, t: Task, later: seq<string>) returns (done: seq<string>)
    requires Inv(m)
    ensures LiveIds(m) + ([t.id] + later) == done + (LiveIds(ConvertFile(m, t).state) + later)
    ensures SettledIds(ConvertFile(m, t).effects) == []
  {
    SubmitLive(m, t);
    done := [];
  }

  lemma TeardownShape(m: Manager, later: seq<string>) returns (done: seq<string>)
    ensures LiveIds(m) + later == done + (LiveIds(Destroy(m).state) + later)
    ensures SettledIds(Destroy(m).effects) == []
  {
    TeardownLive(m);
    done := LiveIds(m);
  }

  lemma DeliverShape(m: Manager, r: Response, later: seq<string>) returns (done: seq<string>)
    requires Inv(m)
    ensures LiveIds(m) + later == done + (LiveIds(HandleMessage(m, r).state) + later)
    ensures Distinct(SettledIds(HandleMessage(m, r).effects))
    ensures forall x :: x in SettledIds(HandleMessage(m, r).effects) ==> x in done
  {
    if m.current.Some? && m.current.value.id == r.id && r.kind != ProgressKind {
      done := TerminalShape(m, r, later);
    } else {
      IgnoredLive(m, r);
      done := [];
    }
  }

  lemma TerminalShape(m: Manager, r: Response, later: seq<string>) returns (done: seq<string>)
    requires Inv(m)
    requires m.current.Some? && m.current.value.id == r.id && r.kind != ProgressKind
    ensures LiveIds(m) + later == done + (LiveIds(HandleMessage(m, r).state) + later)
    ensures Distinct(SettledIds(HandleMessage(m, r).effects))
    ensures forall x :: x in SettledIds(HandleMessage(m, r).effects) ==> x in done
  {
    TerminalLive(m, r);
    done := [r.id];
    PrefixOne(LiveIds(m), LiveIds(HandleMessage(m, r).state), later, SettledIds(HandleMessage(m, r).effects), r.id);
  }

  lemma PrefixOne(live: seq<string>, after: seq<string>, later: seq<string>, settled: seq<string>, id: string)
    requires live != [] && live[0] == id && after == live[1..]
    requires settled == [] || settled == [id]
    ensures live + later == [id] + (after + later)
    ensures Distinct(settled) && forall x :: x in settled ==> x in [id]
  {
    assert live == [id] + after;
  }

  /** Settlements of two consecutive stretches stay duplicate-free when each
      draws on its own part of a duplicate-free id list. */
  lemma CombineSettled(done: seq<string>, remaining: seq<string>, s1: seq<string>, s2: seq<string>)
    requires Distinct(done + remaining)
    requires Distinct(s1) && (forall x :: x in s1 ==> x in done)
    requires Distinct(s2) && (forall x :: x in s2 ==> x in remaining)
    ensures Distinct(s1 + s2)
    ensures forall x :: x in s1 + s2 ==> x in done + remaining
  {
    DistinctConcat(done, remaining);
    DistinctConcat(s1, s2);
  }

  /** Settle at most once: if the ids held and submitted are all different,
      no task's promise is resolved or rejected twice over any run, and
      only tasks that were held or submitted are ever settled. */
  lemma {:induction false} RunSettlesOnce(m: Manager, events: seq<Event>)
    requires Inv(m)
    requires Distinct(LiveIds(m) + SubmittedIds(events))
    ensures Distinct(SettledIds(Run(m, events).effects))
    ensures forall x :: x in SettledIds(Run(m, events).effects) ==> x in LiveIds(m) + SubmittedIds(events)
    decreases |events|
  {
    if events == [] {
      assert SettledIds([]) == [];
    } else {
      var first := Apply(m, events[0]);
      var rest := Run(first.state, events[1..]);
      assert Run(m, events) == Step(rest.state, first.effects + rest.effects);
      SettledConcat(first.effects, rest.effects);
      ApplyKeepsInv(m, events[0]);
      var done := StepShape(m, events);
      var remaining := LiveIds(first.state) + SubmittedIds(events[1..]);
      DistinctConcat(done, remaining);
      RunSettlesOnce(first.state, events[1..]);
      CombineSettled(done, remaining, SettledIds(first.effects), SettledIds(rest.effects));
    }
  }

  /** Without a worker (teardown, or a constructor that could not create
      one) nothing is ever posted and nothing ever becomes current:
      submissions stay queued forever. */
  lemma {:induction false} NoWorkerNoDispatch(m: Manager, events: seq<Event>)
    requires Inv(m) && !m.worker
    ensures PostedIds(Run(m, events).effects) == []
    ensures Run(m, events).state.current == None
    ensures !Run(m, events).state.worker
    decreases |events|
  {
    if events != [] {
      var first := Apply(m, events[0]);
      ApplyKeepsInv(m, events[0]);
      assert PostedIds(first.effects) == [] by {
        assert first.effects == [] || first.effects == [Terminate];
      }
      assert !first.state.worker;
      NoWorkerNoDispatch(first.state, events[1..]);
      PostedConcat(first.effects, Run(first.state, events[1..]).effects);
    }
  }
}
