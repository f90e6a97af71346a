/** The queue and the worker together: what the manager does with the
    answer the worker posts for the task it is running. */
module Pipeline {
  import opened Wrappers
  import opened Browser
  import opened Convert
  import opened WorkerProtocol
  import opened ConvertWorker
  import opened WorkerManager
  import opened Seqs

  /** Responses delivered to the manager one after another. */
  function Deliveries(trace: seq<Response>): (events: seq<Event>)
    ensures |events| == |trace|
    ensures forall k :: 0 <= k < |trace| ==> events[k] == Deliver(trace[k])
  {
    seq(|trace|, k requires 0 <= k < |trace| => Deliver(trace[k]))
  }

  /** The progress callback one progress response for task `t` triggers, if any. */
  function Note(t: Task, r: Response): seq<Effect> {
    if t.hasProgress && r.percent.Some? then [Progress(t.id, r.percent.value)] else []
  }

  /** The progress callbacks a run of progress responses for task `t` triggers. */
  function Notes(t: Task, progress: seq<Response>): seq<Effect> {
    if progress == [] then [] else Note(t, progress[0]) + Notes(t, progress[1..])
  }

  /** The percents passed to progress callbacks, in order. */
  function ProgressPercents(effects: seq<Effect>): seq<int> {
    if effects == [] then []
    else (if effects[0].Progress? then [effects[0].percent] else []) + ProgressPercents(effects[1..])
  }

  lemma {:induction false} ProgressConcat(a: seq<Effect>, b: seq<Effect>)
    ensures ProgressPercents(a + b) == ProgressPercents(a) + ProgressPercents(b)
    decreases |a|
  {
    if a == [] {
      assert a + b == b;
    } else {
      assert (a + b)[0] == a[0];
      assert (a + b)[1..] == a[1..] + b;
      ProgressConcat(a[1..], b);
    }
  }

  lemma WellFormedTail(id: string, trace: seq<Response>)
    requires WellFormed(id, trace) && |trace| > 1
    ensures WellFormed(id, trace[1..])
  {
    var t := trace[1..];
    forall j, k | 0 <= j < k < |t| - 1
      ensures t[j].percent.Some? && t[k].percent.Some? ==> t[j].percent.value < t[k].percent.value
    {
      assert t[j] == trace[j + 1] && t[k] == trace[k + 1];
    }
  }

  /** A progress response for the current task only reaches its callback. */
  lemma DeliverProgress(m: Manager, r: Response)
    requires m.current.Some? && r.id == m.current.value.id && r.kind == ProgressKind
    ensures Apply(m, Deliver(r)) == Step(m, Note(m.current.value, r))
  {
  }

  /** A terminal response for the current task settles it and moves on. */
  lemma DeliverTerminal(m: Manager, r: Response)
    requires m.current.Some? && r.id == m.current.value.id && r.kind != ProgressKind
    ensures Apply(m, Deliver(r)) ==
      Step(ProcessNextFile(m).state, SettleFor(m.current.value, r) + ProcessNextFile(m).effects)
  {
  }

  lemma RunCons(m: Manager, events: seq<Event>)
    requires events != []
    ensures var first := Apply(m, events[0]);
      Run(m, events) == Step(Run(first.state, events[1..]).state, first.effects + Run(first.state, events[1..]).effects)
  {
  }

  /** Any well-formed answer for the current task: every progress message
      reaches the callback (if there is one) in order, the terminal message
      settles the task, and the manager moves on exactly as `processNextFile`
      does. */
  lemma {:induction false} ServeWellFormed(m: Manager, trace: seq<Response>)
    requires m.current.Some?
    requires WellFormed(m.current.value.id, trace)
    ensures Run(m, Deliveries(trace)) ==
      Step(ProcessNextFile(m).state,
           Notes(m.current.value, trace[..|trace| - 1])
           + SettleFor(m.current.value, trace[|trace| - 1])
           + ProcessNextFile(m).effects)
    decreases |trace|
  {
    var t := m.current.value;
    var evs := Deliveries(trace);
    RunCons(m, evs);
    if |trace| == 1 {
      DeliverTerminal(m, trace[0]);
      assert evs[1..] == [];
      assert trace[..0] == [];
      var next := ProcessNextFile(m);
      assert Run(next.state, []) == Step(next.state, []);
      assert SettleFor(t, trace[0]) + next.effects + [] == Notes(t, []) + SettleFor(t, trace[0]) + next.effects;
    } else {
      DeliverProgress(m, trace[0]);
      assert evs[1..] == Deliveries(trace[1..]);
      WellFormedTail(t.id, trace);
      ServeWellFormed(m, trace[1..]);
      NotesShift(t, trace);
      var next := ProcessNextFile(m);
      Regroup(Note(t, trace[0]), Notes(t, trace[1..][..|trace[1..]| - 1]), SettleFor(t, trace[|trace| - 1]), next.effects);
    }
  }

  /** The progress part of a trace, seen one response later. */
  lemma NotesShift(t: Task, trace: seq<Response>)
    requires |trace| > 1
    ensures Notes(t, trace[..|trace| - 1]) == Note(t, trace[0]) + Notes(t, trace[1..][..|trace[1..]| - 1])
  {
    assert trace[..|trace| - 1][1..] == trace[1..][..|trace[1..]| - 1];
  }

  lemma Regroup<T>(a: seq<T>, b: seq<T>, c: seq<T>, d: seq<T>)
    ensures a + (b + c + d) == (a + b) + c + d
  {
  }

  lemma {:induction false} NotesOfMilestones(t: Task, progress: seq<Response>, ms: seq<int>)
    requires |progress| == |ms|
    requires forall k :: 0 <= k < |ms| ==> progress[k] == ProgressMsg(t.id, ms[k])
    ensures ProgressPercents(Notes(t, progress)) == (if t.hasProgress then ms else [])
    ensures SettledIds(Notes(t, progress)) == []
    decreases |ms|
  {
    if ms != [] {
      var tail := progress[1..];
      TailMsgs(t, progress, ms);
      NotesOfMilestones(t, tail, ms[1..]);
      var note := OneNote(t, progress[0], ms[0]);
      assert Notes(t, progress) == note + Notes(t, tail);
      ConsNotes(note, Notes(t, tail), ms[0], ms[1..], t.hasProgress);
      assert [ms[0]] + ms[1..] == ms;
    }
  }

  lemma TailMsgs(t: Task, progress: seq<Response>, ms: seq<int>)
    requires |progress| == |ms| && ms != []
    requires forall k :: 0 <= k < |ms| ==> progress[k] == ProgressMsg(t.id, ms[k])
    ensures forall k :: 0 <= k < |ms[1..]| ==> progress[1..][k] == ProgressMsg(t.id, ms[1..][k])
  {
    forall k | 0 <= k < |ms[1..]| ensures progress[1..][k] == ProgressMsg(t.id, ms[1..][k]) {
      assert progress[1..][k] == progress[k + 1] && ms[1..][k] == ms[k + 1];
    }
  }

  lemma ConsNotes(note: seq<Effect>, rest: seq<Effect>, m0: int, ms: seq<int>, hasProgress: bool)
    requires ProgressPercents(note) == (if hasProgress then [m0] else []) && SettledIds(note) == []
    requires ProgressPercents(rest) == (if hasProgress then ms else []) && SettledIds(rest) == []
    ensures ProgressPercents(note + rest) == (if hasProgress then [m0] + ms else [])
    ensures SettledIds(note + rest) == []
  {
    ProgressConcat(note, rest);
    SettledConcat(note, rest);
  }

  /** The callback effect of a single progress message. */
  lemma OneNote(t: Task, r: Response, percent: int) returns (note: seq<Effect>)
    requires r == ProgressMsg(t.id, percent)
    ensures note == Note(t, r)
    ensures ProgressPercents(note) == (if t.hasProgress then [percent] else [])
    ensures SettledIds(note) == []
  {
    note := if t.hasProgress then [Progress(t.id, percent)] else [];
    assert ProgressPercents([]) == [] && SettledIds([]) == [];
  }

  lemma PostOnlyEffects(m: Manager)
    ensures ProgressPercents(ProcessNextFile(m).effects) == []
    ensures SettledIds(ProcessNextFile(m).effects) == []
  {
    ProcessNextFileEffects(m);
    var effs := ProcessNextFile(m).effects;
    assert effs == [] || (|effs| == 1 && effs[0].Post?);
  }

  /** The terminal response the worker posts for `outcome` settles the task it names. */
  lemma TerminalSettles(t: Task, outcome: Result<ConvertResult, Thrown>)
    ensures var settle := SettleFor(t, Terminal(t.id, outcome));
      && settle == (if outcome.Success? then [Resolve(t.id, outcome.value)]
                    else [Reject(t.id, RejectReason(Some(ErrorText(outcome.error))))])
      && SettledIds(settle) == [t.id]
      && ProgressPercents(settle) == []
  {
  }

  /** Bookkeeping: the settled ids and progress percents of the three parts of an answer. */
  lemma {:induction false} ComposeEffects(notes: seq<Effect>, settle: seq<Effect>, posts: seq<Effect>)
    requires SettledIds(notes) == [] && ProgressPercents(settle) == []
    requires SettledIds(posts) == [] && ProgressPercents(posts) == []
    requires |settle| == 1
    ensures SettledIds(notes + settle + posts) == SettledIds(settle)
    ensures ProgressPercents(notes + settle + posts) == ProgressPercents(notes)
    ensures settle[0] in notes + settle + posts
  {
    SettledConcat(notes, settle);
    SettledConcat(notes + settle, posts);
    ProgressConcat(notes, settle);
    ProgressConcat(notes + settle, posts);
    assert settle[0] == (notes + settle + posts)[|notes|];
  }

  /** The worker's answer to a task: its milestones as progress messages, then the terminal message. */
  lemma AnswerShape(t: Task, outcome: Result<ConvertResult, Thrown>)
    ensures var trace := Respond(RequestFor(t), outcome);
      var ms := Milestones(IsHeic(t.file), outcome.Success?);
      && WellFormed(t.id, trace)
      && |trace[..|trace| - 1]| == |ms|
      && (forall k :: 0 <= k < |ms| ==> trace[..|trace| - 1][k] == ProgressMsg(t.id, ms[k]))
      && trace[|trace| - 1] == Terminal(t.id, outcome)
  {
    RespondWellFormed(RequestFor(t), outcome);
  }

  /** The worker's answer to the task the manager is running settles that
      task exactly once: resolved with the conversion result on success,
      rejected with the thrown message (or the fixed fallback) on failure.
      The progress callback sees the worker's milestones in order, and the
      manager then moves on to the next queued task. */
  lemma WorkerAnswerSettlesOnce(m: Manager, outcome: Result<ConvertResult, Thrown>)
    requires Inv(m) && m.current.Some?
    ensures var t := m.current.value;
      var s := Run(m, Deliveries(Respond(RequestFor(t), outcome)));
      && s.state == ProcessNextFile(m).state
      && SettledIds(s.effects) == [t.id]
      && (outcome.Success? ==> Resolve(t.id, outcome.value) in s.effects)
      && (outcome.Failure? ==> Reject(t.id, RejectReason(Some(ErrorText(outcome.error)))) in s.effects)
      && ProgressPercents(s.effects) ==
           (if t.hasProgress then Milestones(IsHeic(t.file), outcome.Success?) else [])
  {
    var t := m.current.value;
    var trace := Respond(RequestFor(t), outcome);
    var ms := Milestones(IsHeic(t.file), outcome.Success?);
    AnswerShape(t, outcome);
    ServeWellFormed(m, trace);
    var notes := Notes(t, trace[..|trace| - 1]);
    NotesOfMilestones(t, trace[..|trace| - 1], ms);
    PostOnlyEffects(m);
    TerminalSettles(t, outcome);
    ComposeEffects(notes, SettleFor(t, trace[|trace| - 1]), ProcessNextFile(m).effects);
  }
}
