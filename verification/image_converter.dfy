/** The converter page's handlers (components/image-converter.tsx): adding
    dropped files, converting every queued entry in turn, removing an entry,
    the unmount cleanup, and assembling the ZIP download. Each handler runs to
    completion before the next one starts. */
module ImageConverter {
  import opened Wrappers
  import opened Browser
  import opened Types
  import opened Convert
  import opened Seqs
  import opened BatchList

  /** The page's state: the entry list, the options, the output URLs recorded
      for cleanup (`objectUrlsRef`), and the token the next object URL gets. */
  datatype Session = Session(
    files: seq<ConversionFile>,
    options: ConversionOptions,
    registry: seq<Url>,
    nextUrl: nat)

  /** What the page keeps true between handlers: ids are unique, every entry
      satisfies the lifecycle invariant, the cleanup list holds exactly the
      output URLs the entries show (each once), and every URL handed out so
      far is below the next token. */
  predicate Wf(s: Session) {
    UniqueIds(s.files) && EntriesOk(s.files) && RegistryOk(s.registry, s.files, s.nextUrl)
  }

  predicate EntriesOk(files: seq<ConversionFile>) {
    forall k :: 0 <= k < |files| ==> EntryOk(files[k])
  }

  predicate RegistryOk(registry: seq<Url>, files: seq<ConversionFile>, next: nat) {
    && multiset(registry) == UrlBag(files)
    && Distinct(registry)
    && (forall u :: u in registry ==> u < next)
  }

  /** The page as first rendered: no entries, JPEG at quality 0.85. */
  function Mount(): (s: Session)
    ensures Wf(s) && s.files == [] && s.options == DefaultOptions && s.registry == []
  {
    Session([], DefaultOptions, [], 0)
  }

  // ---------------------------------------------------------------------
  // onDrop
  // ---------------------------------------------------------------------

  /** `onDrop(acceptedFiles)`; `ids` are the random ids the entries receive. */
  function OnDrop(s: Session, accepted: seq<InputFile>, ids: seq<string>): (r: Session)
    requires |ids| == |accepted|
    // one entry per accepted file, appended: the existing entries keep their places
    ensures |r.files| == |s.files| + |accepted|
    ensures r.files[..|s.files|] == s.files
    ensures forall k :: 0 <= k < |accepted| ==> r.files[|s.files| + k].file == accepted[k]
    ensures r.registry == s.registry && r.options == s.options && r.nextUrl == s.nextUrl
  {
    s.(files := s.files + NewEntries(accepted, ids))
  }

  /** One new entry per accepted file, in order. */
  function NewEntries(accepted: seq<InputFile>, ids: seq<string>): (added: seq<ConversionFile>)
    requires |ids| == |accepted|
    ensures |added| == |accepted|
    ensures forall k :: 0 <= k < |accepted| ==> added[k] == NewEntry(ids[k], accepted[k])
  {
    seq(|accepted|, k requires 0 <= k < |accepted| => NewEntry(ids[k], accepted[k]))
  }

  /** Dropped files are appended after the existing entries, queued, with
      their size in kilobytes rounded half up and nothing else set. */
  lemma OnDropSpec(s: Session, accepted: seq<InputFile>, ids: seq<string>)
    requires |ids| == |accepted|
    ensures var r := OnDrop(s, accepted, ids);
      && |r.files| == |s.files| + |accepted|
      && r.files[..|s.files|] == s.files
      && r.registry == s.registry && r.options == s.options
      && forall k :: 0 <= k < |accepted| ==>
           var e := r.files[|s.files| + k];
           && e.id == ids[k] && e.name == accepted[k].name && e.file == accepted[k]
           && e.status == Queued && e.originalKB == (accepted[k].Size() + 512) / 1024
           && e.convertedKB.None? && e.outURL.None? && e.error.None? && e.percent.None?
  {
    var r := OnDrop(s, accepted, ids);
    forall k | 0 <= k < |accepted| ensures r.files[|s.files| + k].originalKB == (accepted[k].Size() + 512) / 1024 {
      KBInteger(accepted[k].Size());
    }
  }

  /** With fresh, distinct ids, dropping files keeps the page invariant. */
  lemma OnDropKeepsWf(s: Session, accepted: seq<InputFile>, ids: seq<string>)
    requires |ids| == |accepted|
    requires Wf(s) && Distinct(ids) && (forall k, j :: 0 <= k < |ids| && 0 <= j < |s.files| ==> ids[k] != s.files[j].id)
    ensures Wf(OnDrop(s, accepted, ids))
  {
    var added := NewEntries(accepted, ids);
    AddedOk(s.files, added);
    AddedUnique(s.files, added, ids);
    NoUrlsAdded(added);
    UrlBagConcat(s.files, added);
  }

  lemma AddedOk(files: seq<ConversionFile>, added: seq<ConversionFile>)
    requires EntriesOk(files) && EntriesOk(added)
    ensures EntriesOk(files + added)
  {
    assert forall k :: |files| <= k < |files + added| ==> (files + added)[k] == added[k - |files|];
  }

  lemma AddedUnique(files: seq<ConversionFile>, added: seq<ConversionFile>, ids: seq<string>)
    requires UniqueIds(files) && |ids| == |added| && Distinct(ids)
    requires forall k :: 0 <= k < |added| ==> added[k].id == ids[k]
    requires forall k, j :: 0 <= k < |ids| && 0 <= j < |files| ==> ids[k] != files[j].id
    ensures UniqueIds(files + added)
  {
    var all := files + added;
    forall i, j | 0 <= i < j < |all| ensures all[i].id != all[j].id {
      if i >= |files| {
        assert all[i] == added[i - |files|] && all[j] == added[j - |files|];
        assert ids[i - |files|] != ids[j - |files|];
      } else if j >= |files| {
        assert all[j] == added[j - |files|];
      }
    }
  }

  lemma {:induction false} NoUrlsAdded(files: seq<ConversionFile>)
    requires forall k :: 0 <= k < |files| ==> files[k].outURL.None?
    ensures UrlBag(files) == multiset{}
    decreases |files|
  {
    if files != [] {
      assert forall k :: 0 <= k < |files[1..]| ==> files[1..][k] == files[k + 1];
      NoUrlsAdded(files[1..]);
    }
  }

  // ---------------------------------------------------------------------
  // handleConvertAll
  // ---------------------------------------------------------------------

  /** What the handler cannot decide itself: the browser the engine runs in,
      and whether the dynamic `import('../lib/convert')` resolves. */
  datatype Env = Env(platform: Platform, moduleLoads: bool)

  /** The handler passes only the format and the quality to the engine: the
      size bounds in the options are never used. */
  function EngineOptions(o: ConversionOptions): ConvertOptions {
    ConvertOptions(o.format, o.quality, None, None)
  }

  /** What one iteration of the loop does for snapshot entry `x`: the
      record updates it makes, in order, the output URLs it records, and the
      next URL token afterwards. */
  datatype Iteration = Iteration(plan: seq<Update>, handed: seq<Url>, next: nat)

  /** Processing, 10%, the import, 30%, the conversion, then 100% and done,
      or an error. The engine may use a temporary URL; the output gets the
      next token and is recorded for cleanup. */
  function Attempt(s: Session, x: ConversionFile, env: Env): Iteration {
    if !env.moduleLoads then Iteration([ToProcessing, SetPercent(10), ToError], [], s.nextUrl)
    else Finish(s.nextUrl, ConvertImage(x.file, EngineOptions(s.options), env.platform, s.nextUrl))
  }

  /** The part of an iteration after a successful import, given the engine's run. */
  function Finish(next: nat, run: ConvertRun): Iteration {
    var u := next + |run.created|;
    match run.result
    case Failure(_) => Iteration([ToProcessing, SetPercent(10), SetPercent(30), ToError], [], u)
    case Success(res) =>
      Iteration([ToProcessing, SetPercent(10), SetPercent(30), SetPercent(100), ToDone(KB(res.convertedBytes), u)], [u], u + 1)
  }

  /** One iteration of the loop: one `setFiles` per update, the output URL pushed onto the cleanup list. */
  function ProcessOne(s: Session, x: ConversionFile, env: Env): (r: Session)
    ensures |r.files| == |s.files|
    ensures forall k :: 0 <= k < |s.files| ==> r.files[k].id == s.files[k].id
    ensures r.options == s.options
    // the cleanup list only grows, and URL tokens are never reused
    ensures s.registry <= r.registry && s.nextUrl <= r.nextUrl
  {
    var it := Attempt(s, x, env);
    UpdateAllPointwise(s.files, x.id, it.plan);
    s.(files := UpdateAllById(s.files, x.id, it.plan), registry := s.registry + it.handed, nextUrl := it.next)
  }

  /** The loop over the snapshot of queued entries. */
  function ConvertEach(s: Session, xs: seq<ConversionFile>, env: Env): (r: Session)
    ensures |r.files| == |s.files|
    ensures forall k :: 0 <= k < |s.files| ==> r.files[k].id == s.files[k].id
    ensures r.options == s.options
    ensures s.registry <= r.registry && s.nextUrl <= r.nextUrl
    decreases |xs|
  {
    if xs == [] then s else ConvertEach(ProcessOne(s, xs[0], env), xs[1..], env)
  }

  /** `handleConvertAll()`: nothing when the list is empty, otherwise every
      entry that is queued when the handler starts is converted in list order. */
  function ConvertAll(s: Session, env: Env): (r: Session)
    // an empty list is left alone
    ensures |s.files| == 0 ==> r == s
    // entries keep their places and ids; the options are not touched
    ensures |r.files| == |s.files|
    ensures forall k :: 0 <= k < |s.files| ==> r.files[k].id == s.files[k].id
    ensures r.options == s.options
    // output URLs are only ever added to the cleanup list, with fresh tokens
    ensures s.registry <= r.registry && s.nextUrl <= r.nextUrl
  {
    if |s.files| == 0 then s else ConvertEach(s, QueuedEntries(s.files), env)
  }

  /** How one queued entry ends up after its iteration: identity unchanged;
      an import failure leaves it failed at 10%, an engine failure leaves it
      failed at 30%; on success it is done at 100% with the converted size in
      kilobytes and an output URL. */
  predicate Converted(e0: ConversionFile, e1: ConversionFile, options: ConversionOptions, env: Env) {
    var r := Engine(e0.file, EngineOptions(options), env.platform);
    if !env.moduleLoads then
      e1 == e0.(status := Error, error := Some(ConversionFailed), percent := Some(10))
    else if r.Failure? then
      e1 == e0.(status := Error, error := Some(ConversionFailed), percent := Some(30))
    else
      && e1.outURL.Some?
      && e1 == e0.(status := Done, percent := Some(100), convertedKB := Some(KB(r.value.convertedBytes)), outURL := e1.outURL)
  }

  /** Replacing an entry by one with the same id keeps ids unique. */
  lemma ReplaceIds(files: seq<ConversionFile>, i: nat, e: ConversionFile)
    requires UniqueIds(files) && i < |files| && e.id == files[i].id
    ensures UniqueIds(files[i := e])
  {
    var g := files[i := e];
    forall a, b | 0 <= a < b < |g| ensures g[a].id != g[b].id {
      assert g[a].id == files[a].id && g[b].id == files[b].id;
    }
  }

  /** Replacing a URL-less entry by one holding freshly handed-out URLs, which
      are recorded too, keeps the cleanup list exact. */
  lemma ReplaceRegistry(s: Session, i: nat, e: ConversionFile, handed: seq<Url>, next: nat)
    requires RegistryOk(s.registry, s.files, s.nextUrl) && i < |s.files| && s.files[i].outURL.None?
    requires UrlOf(e) == multiset(handed) && Distinct(handed)
    requires forall v :: v in handed ==> s.nextUrl <= v < next
    requires s.nextUrl <= next
    ensures RegistryOk(s.registry + handed, s.files[i := e], next)
  {
    UrlBagReplace(s.files, i, e);
    assert UrlOf(s.files[i]) == multiset{};
    DistinctConcat(s.registry, handed);
  }

  /** Replacing a URL-less entry by one whose URLs are freshly handed out keeps the invariant. */
  lemma ReplaceEntry(s: Session, i: nat, e: ConversionFile, handed: seq<Url>, next: nat)
    requires Wf(s) && i < |s.files| && s.files[i].outURL.None?
    requires e.id == s.files[i].id && EntryOk(e)
    requires UrlOf(e) == multiset(handed) && Distinct(handed)
    requires forall v :: v in handed ==> s.nextUrl <= v < next
    requires s.nextUrl <= next
    ensures Wf(s.(files := s.files[i := e], registry := s.registry + handed, nextUrl := next))
  {
    ReplaceIds(s.files, i, e);
    ReplaceRegistry(s, i, e, handed, next);
  }

  /** The order of one iteration's updates: processing first, then 10%,
      then 30% once the engine module is loaded, then 100% just before done;
      the last update marks the entry done exactly when the import and the
      conversion both succeed, and failed otherwise. */
  lemma AttemptOrder(s: Session, x: ConversionFile, env: Env)
    ensures var plan := Attempt(s, x, env).plan;
      && |plan| >= 3
      && plan[0] == ToProcessing
      && plan[1] == SetPercent(10)
      && (forall k :: 1 <= k < |plan| - 1 ==> plan[k].SetPercent?)
      && (forall j, k :: 1 <= j < k < |plan| - 1 ==> plan[j].percent < plan[k].percent)
      && (plan[|plan| - 1].ToDone? || plan[|plan| - 1] == ToError)
      && (plan[|plan| - 1].ToDone? <==> env.moduleLoads && Engine(x.file, EngineOptions(s.options), env.platform).Success?)
      && (plan[|plan| - 1].ToDone? ==> plan[|plan| - 2] == SetPercent(100))
      && (|plan| > 3 <==> env.moduleLoads)
  {
    if env.moduleLoads {
      var run := ConvertImage(x.file, EngineOptions(s.options), env.platform, s.nextUrl);
      ResultIgnoresTempUrl(x.file, EngineOptions(s.options), env.platform, s.nextUrl);
      FinishOrder(s.nextUrl, run);
    }
  }

  lemma FinishOrder(next: nat, run: ConvertRun)
    ensures var plan := Finish(next, run).plan;
      && |plan| > 3
      && plan[0] == ToProcessing
      && plan[1] == SetPercent(10)
      && (forall k :: 1 <= k < |plan| - 1 ==> plan[k].SetPercent?)
      && (forall j, k :: 1 <= j < k < |plan| - 1 ==> plan[j].percent < plan[k].percent)
      && (plan[|plan| - 1].ToDone? || plan[|plan| - 1] == ToError)
      && (plan[|plan| - 1].ToDone? <==> run.result.Success?)
      && (plan[|plan| - 1].ToDone? ==> plan[|plan| - 2] == SetPercent(100))
  {
  }

  /** What an iteration's updates leave in a queued entry, and the URLs it hands out. */
  predicate AttemptOk(s: Session, x: ConversionFile, env: Env) {
    var it := Attempt(s, x, env);
    var e := ApplyAll(x, it.plan);
    && Converted(x, e, s.options, env)
    && EntryOk(e)
    && UrlOf(e) == multiset(it.handed)
    && Distinct(it.handed)
    && (forall v :: v in it.handed ==> s.nextUrl <= v < it.next)
    && s.nextUrl <= it.next
  }

  lemma AttemptNoModule(s: Session, x: ConversionFile, env: Env)
    requires x.status == Queued && EntryOk(x) && !env.moduleLoads
    ensures AttemptOk(s, x, env)
  {
    var e := ApplyAll(x, [ToProcessing, SetPercent(10), ToError]);
    assert e == x.(status := Error, error := Some(ConversionFailed), percent := Some(10));
  }

  lemma DonePlan(x: ConversionFile, kb: int, u: Url)
    ensures ApplyAll(x, [ToProcessing, SetPercent(10), SetPercent(30), SetPercent(100), ToDone(kb, u)])
         == x.(status := Done, percent := Some(100), convertedKB := Some(kb), outURL := Some(u))
  {
    var p4 := [ToDone(kb, u)];
    var p3 := [SetPercent(100)] + p4;
    var p2 := [SetPercent(30)] + p3;
    var p1 := [SetPercent(10)] + p2;
    var p0 := [ToProcessing] + p1;
    assert p0 == [ToProcessing, SetPercent(10), SetPercent(30), SetPercent(100), ToDone(kb, u)];
    var e1 := x.(status := Processing);
    var e2 := e1.(percent := Some(10));
    var e3 := e2.(percent := Some(30));
    var e4 := e3.(percent := Some(100));
    var e5 := e4.(status := Done, percent := Some(100), convertedKB := Some(kb), outURL := Some(u));
    assert ApplyAll(x, p0) == ApplyAll(e1, p1) by { assert p0[0] == ToProcessing && p0[1..] == p1; }
    assert ApplyAll(e1, p1) == ApplyAll(e2, p2) by { assert p1[0] == SetPercent(10) && p1[1..] == p2; }
    assert ApplyAll(e2, p2) == ApplyAll(e3, p3) by { assert p2[0] == SetPercent(30) && p2[1..] == p3; }
    assert ApplyAll(e3, p3) == ApplyAll(e4, p4) by { assert p3[0] == SetPercent(100) && p3[1..] == p4; }
    assert ApplyAll(e4, p4) == ApplyAll(e5, []) by { assert p4[0] == ToDone(kb, u) && p4[1..] == []; }
  }

  /** What the updates after a successful import leave in a queued entry. */
  lemma FinishSpec(x: ConversionFile, next: nat, run: ConvertRun)
    requires x.status == Queued && EntryOk(x)
    ensures var it := Finish(next, run);
      var e := ApplyAll(x, it.plan);
      && (run.result.Failure? ==> e == x.(status := Error, error := Some(ConversionFailed), percent := Some(30)))
      && (run.result.Success? ==>
            e == x.(status := Done, percent := Some(100), convertedKB := Some(KB(run.result.value.convertedBytes)),
                    outURL := Some(next + |run.created|)))
      && EntryOk(e)
      && UrlOf(e) == multiset(it.handed)
      && Distinct(it.handed)
      && (forall v :: v in it.handed ==> next <= v < it.next)
      && next <= it.next
  {
    var u := next + |run.created|;
    if run.result.Failure? {
      var e := ApplyAll(x, [ToProcessing, SetPercent(10), SetPercent(30), ToError]);
      assert e == x.(status := Error, error := Some(ConversionFailed), percent := Some(30));
    } else {
      DonePlan(x, KB(run.result.value.convertedBytes), u);
    }
  }

  lemma AttemptSpec(s: Session, x: ConversionFile, env: Env)
    requires x.status == Queued && EntryOk(x)
    ensures AttemptOk(s, x, env)
  {
    if !env.moduleLoads {
      AttemptNoModule(s, x, env);
    } else {
      var run := ConvertImage(x.file, EngineOptions(s.options), env.platform, s.nextUrl);
      ResultIgnoresTempUrl(x.file, EngineOptions(s.options), env.platform, s.nextUrl);
      FinishSpec(x, s.nextUrl, run);
    }
  }

  /** One iteration converts exactly the entry with `x`'s id, as `Converted`
      describes, and keeps the page invariant. */
  lemma ProcessOneSpec(s: Session, x: ConversionFile, env: Env)
    requires Wf(s) && x in s.files && x.status == Queued
    ensures var r := ProcessOne(s, x, env);
      && Wf(r)
      && |r.files| == |s.files|
      && r.options == s.options
      && (forall k :: 0 <= k < |s.files| ==>
            if s.files[k].id == x.id then Converted(s.files[k], r.files[k], s.options, env)
            else r.files[k] == s.files[k])
  {
    var i :| 0 <= i < |s.files| && s.files[i] == x;
    ProcessOneAt(s, i, env);
    OnlyIndex(s.files, i);
  }

  lemma ProcessOneAt(s: Session, i: nat, env: Env)
    requires Wf(s) && i < |s.files| && s.files[i].status == Queued
    ensures var r := ProcessOne(s, s.files[i], env);
      && Wf(r)
      && r.options == s.options
      && |r.files| == |s.files|
      && r.files == s.files[i := r.files[i]]
      && Converted(s.files[i], r.files[i], s.options, env)
  {
    var x := s.files[i];
    assert EntryOk(x);
    var it := Attempt(s, x, env);
    AttemptSpec(s, x, env);
    UpdateAllAt(s.files, i, it.plan);
    ReplaceEntry(s, i, ApplyAll(x, it.plan), it.handed, it.next);
  }

  /** Every entry of a snapshot of queued entries is converted once, and only those. */
  lemma {:induction false} ConvertEachSpec(s: Session, xs: seq<ConversionFile>, env: Env)
    requires Wf(s) && UniqueIds(xs)
    requires forall j :: 0 <= j < |xs| ==> xs[j] in s.files && xs[j].status == Queued
    ensures var r := ConvertEach(s, xs, env);
      && Wf(r)
      && |r.files| == |s.files|
      && r.options == s.options
      && (forall k :: 0 <= k < |s.files| ==>
            if s.files[k] in xs then Converted(s.files[k], r.files[k], s.options, env)
            else r.files[k] == s.files[k])
    decreases |xs|
  {
    if xs != [] {
      var s1 := ProcessOne(s, xs[0], env);
      ProcessOneSpec(s, xs[0], env);
      RestStillQueued(s, s1, xs);
      ConvertEachSpec(s1, xs[1..], env);
      CombineEach(s, s1, ConvertEach(s1, xs[1..], env), xs, env);
    }
  }

  /** The rest of the snapshot is still queued, and present, after the first iteration. */
  lemma RestStillQueued(s: Session, s1: Session, xs: seq<ConversionFile>)
    requires UniqueIds(xs) && xs != [] && |s1.files| == |s.files|
    requires forall j :: 0 <= j < |xs| ==> xs[j] in s.files && xs[j].status == Queued
    requires forall k :: 0 <= k < |s.files| && s.files[k].id != xs[0].id ==> s1.files[k] == s.files[k]
    ensures UniqueIds(xs[1..])
    ensures forall j :: 0 <= j < |xs[1..]| ==> xs[1..][j] in s1.files && xs[1..][j].status == Queued
  {
    var rest := xs[1..];
    forall j | 0 <= j < |rest| ensures rest[j] in s1.files {
      assert rest[j] == xs[j + 1];
      var k :| 0 <= k < |s.files| && s.files[k] == rest[j];
      assert rest[j].id != xs[0].id;
      assert s1.files[k] == s.files[k];
    }
    UniqueTail(xs);
  }

  /** The first iteration and the rest together convert exactly the snapshot. */
  lemma CombineEach(s: Session, s1: Session, r: Session, xs: seq<ConversionFile>, env: Env)
    requires UniqueIds(s.files) && UniqueIds(xs) && xs != [] && xs[0] in s.files
    requires forall j :: 0 <= j < |xs| ==> xs[j].status == Queued
    requires |s1.files| == |s.files| && |r.files| == |s.files| && s1.options == s.options
    requires forall k :: 0 <= k < |s.files| ==>
      if s.files[k].id == xs[0].id then Converted(s.files[k], s1.files[k], s.options, env)
      else s1.files[k] == s.files[k]
    requires forall k :: 0 <= k < |s1.files| ==>
      if s1.files[k] in xs[1..] then Converted(s1.files[k], r.files[k], s1.options, env)
      else r.files[k] == s1.files[k]
    ensures forall k :: 0 <= k < |s.files| ==>
      if s.files[k] in xs then Converted(s.files[k], r.files[k], s.options, env)
      else r.files[k] == s.files[k]
  {
    var rest := xs[1..];
    var i :| 0 <= i < |s.files| && s.files[i] == xs[0];
    OnlyIndex(s.files, i);
    forall k | 0 <= k < |s.files|
      ensures if s.files[k] in xs then Converted(s.files[k], r.files[k], s.options, env)
              else r.files[k] == s.files[k]
    {
      if k == i {
        ConvertedSettled(s.files[k], s1.files[k], s.options, env);
        assert s1.files[k] !in rest;
      } else {
        assert s.files[k].id != xs[0].id;
        InRest(xs, s.files[k]);
      }
    }
  }

  lemma InRest(xs: seq<ConversionFile>, e: ConversionFile)
    requires xs != [] && e.id != xs[0].id
    ensures e in xs <==> e in xs[1..]
  {
    if e in xs {
      var j :| 0 <= j < |xs| && xs[j] == e;
      assert xs[1..][j - 1] == e;
    }
  }

  /** Converting all converts exactly the queued entries (all other entries are
      untouched, so nothing is converted twice and no failed entry is retried)
      and keeps the page invariant. */
  lemma ConvertAllSpec(s: Session, env: Env)
    requires Wf(s)
    ensures var r := ConvertAll(s, env);
      && Wf(r)
      && |r.files| == |s.files|
      && r.options == s.options
      && (forall k :: 0 <= k < |s.files| ==>
            if s.files[k].status == Queued then Converted(s.files[k], r.files[k], s.options, env)
            else r.files[k] == s.files[k])
  {
    if |s.files| > 0 {
      var xs := QueuedEntries(s.files);
      ConvertEachSpec(s, xs, env);
    }
  }

  /** A converted entry has left the queued and processing states. */
  lemma ConvertedSettled(e0: ConversionFile, e1: ConversionFile, options: ConversionOptions, env: Env)
    requires Converted(e0, e1, options, env)
    ensures e1.status == Done || e1.status == Error
  {
  }

  /** After converting all, no entry is left queued, and an entry is in the
      processing state only if it already was before. */
  lemma ConvertAllSettles(s: Session, env: Env)
    requires Wf(s)
    ensures var r := ConvertAll(s, env);
      && (forall k :: 0 <= k < |r.files| ==> r.files[k].status != Queued)
      && (AnyProcessing(r.files) <==> AnyProcessing(s.files))
  {
    ConvertAllSpec(s, env);
    var r := ConvertAll(s, env);
    forall k | 0 <= k < |r.files|
      ensures r.files[k].status != Queued
      ensures r.files[k].status == Processing <==> s.files[k].status == Processing
    {
      if s.files[k].status == Queued {
        ConvertedSettled(s.files[k], r.files[k], s.options, env);
      }
    }
    SameProcessing(s.files, r.files);
  }

  lemma SameProcessing(a: seq<ConversionFile>, b: seq<ConversionFile>)
    requires |a| == |b|
    requires forall k :: 0 <= k < |a| ==> (a[k].status == Processing <==> b[k].status == Processing)
    ensures AnyProcessing(a) <==> AnyProcessing(b)
  {
  }

  /** Changing the size bounds in the options has no effect on converting all. */
  lemma {:induction false} ConvertEachIgnoresBounds(s: Session, xs: seq<ConversionFile>, env: Env, o: ConversionOptions)
    requires EngineOptions(o) == EngineOptions(s.options)
    ensures ConvertEach(s.(options := o), xs, env) == ConvertEach(s, xs, env).(options := o)
    decreases |xs|
  {
    if xs != [] {
      assert ProcessOne(s.(options := o), xs[0], env) == ProcessOne(s, xs[0], env).(options := o);
      ConvertEachIgnoresBounds(ProcessOne(s, xs[0], env), xs[1..], env, o);
    }
  }

  lemma ConvertAllIgnoresBounds(s: Session, env: Env, maxW: Option<real>, maxH: Option<real>)
    ensures var o := s.options.(maxW := maxW, maxH := maxH);
      ConvertAll(s.(options := o), env) == ConvertAll(s, env).(options := o)
  {
    var o := s.options.(maxW := maxW, maxH := maxH);
    ConvertEachIgnoresBounds(s, QueuedEntries(s.files), env, o);
  }

  // ---------------------------------------------------------------------
  // handleRemoveFile and the unmount cleanup
  // ---------------------------------------------------------------------

  /** The state after a removal, and the URLs it revoked. */
  datatype Removal = Removal(session: Session, revoked: seq<Url>)

  /** `handleRemoveFile(id)`: revoke the first matching entry's output URL (if
      it has one) and drop it from the cleanup list, then drop every entry
      with that id. */
  function RemoveFile(s: Session, id: string): (r: Removal)
    // no entry with the id is left; the others stay, in order
    ensures r.session.files == Filter(s.files, HasOtherId(id))
    ensures forall k :: 0 <= k < |r.session.files| ==> r.session.files[k].id != id
    ensures r.session.options == s.options && r.session.nextUrl == s.nextUrl
    // at most one URL is revoked: the output of an entry with that id
    ensures |r.revoked| <= 1
    ensures forall u :: u in r.revoked ==> exists e :: e in s.files && e.id == id && e.outURL == Some(u)
    // the cleanup list keeps every URL that is not revoked
    ensures forall u :: u in s.registry && u !in r.revoked ==> u in r.session.registry
  {
    var found := Find(s.files, id);
    var files := FilterOutId(s.files, id);
    if found.Some? && found.value.outURL.Some? then
      var u := found.value.outURL.value;
      Removal(s.(files := files, registry := Without(s.registry, u)), [u])
    else
      Removal(s.(files := files), [])
  }

  /** Dropping entry `i` keeps ids unique. */
  lemma DropIds(files: seq<ConversionFile>, i: nat)
    requires UniqueIds(files) && i < |files|
    ensures UniqueIds(files[..i] + files[i + 1..])
  {
    var g := files[..i] + files[i + 1..];
    forall a, b | 0 <= a < b < |g| ensures g[a].id != g[b].id {
      var a' := if a < i then a else a + 1;
      var b' := if b < i then b else b + 1;
      assert g[a] == files[a'] && g[b] == files[b'];
    }
  }

  lemma DropBag(files: seq<ConversionFile>, i: nat)
    requires i < |files|
    ensures UrlBag(files[..i] + files[i + 1..]) + UrlOf(files[i]) == UrlBag(files)
  {
    UrlBagSplit(files, i);
    UrlBagConcat(files[..i], files[i + 1..]);
  }

  /** Filtering one recorded URL out of a duplicate-free list takes out exactly one copy. */
  lemma WithoutOne(registry: seq<Url>, u: Url)
    requires Distinct(registry) && u in registry
    ensures multiset(Without(registry, u)) + multiset{u} == multiset(registry)
    ensures Distinct(Without(registry, u))
  {
    DistinctCount(registry, u);
    WithoutDistinct(registry, u);
    assert multiset(registry)[u] == 1;
  }

  /** Dropping entry `i` together with its URL, if any, keeps the cleanup list exact. */
  lemma DropRegistry(s: Session, i: nat)
    requires RegistryOk(s.registry, s.files, s.nextUrl) && i < |s.files|
    ensures var files := s.files[..i] + s.files[i + 1..];
      && (s.files[i].outURL.None? ==> RegistryOk(s.registry, files, s.nextUrl))
      && (s.files[i].outURL.Some? ==>
            var u := s.files[i].outURL.value;
            && multiset(Without(s.registry, u)) + multiset{u} == multiset(s.registry)
            && RegistryOk(Without(s.registry, u), files, s.nextUrl))
  {
    DropBag(s.files, i);
    if s.files[i].outURL.Some? {
      var u := s.files[i].outURL.value;
      UrlBagHas(s.files, i);
      WithoutOne(s.registry, u);
    }
  }

  lemma RemoveAt(s: Session, i: nat)
    requires Wf(s) && i < |s.files|
    ensures var r := RemoveFile(s, s.files[i].id);
      && r.session.files == s.files[..i] + s.files[i + 1..]
      && r.revoked == (if s.files[i].outURL.Some? then [s.files[i].outURL.value] else [])
      && multiset(r.revoked) + multiset(r.session.registry) == multiset(s.registry)
      && Wf(r.session)
  {
    RemoveAtShape(s, i);
    DropIds(s.files, i);
    DropRegistry(s, i);
    var files := s.files[..i] + s.files[i + 1..];
    assert EntriesOk(files) by {
      assert forall k :: 0 <= k < |files| ==> files[k] in s.files;
    }
  }

  /** With unique ids, removing entry i's id drops that entry and its URL. */
  lemma RemoveAtShape(s: Session, i: nat)
    requires UniqueIds(s.files) && i < |s.files|
    ensures var r := RemoveFile(s, s.files[i].id);
      && r.session == s.(files := s.files[..i] + s.files[i + 1..],
                         registry := if s.files[i].outURL.Some? then Without(s.registry, s.files[i].outURL.value) else s.registry)
      && r.revoked == (if s.files[i].outURL.Some? then [s.files[i].outURL.value] else [])
  {
    var id := s.files[i].id;
    OnlyIndex(s.files, i);
    assert Find(s.files, id) == Some(s.files[i]);
    FilterOutAt(s.files, i);
  }

  /** A revoked URL is no longer recorded. */
  lemma RevokedGone(revoked: seq<Url>, after: seq<Url>, before: seq<Url>)
    requires multiset(revoked) + multiset(after) == multiset(before) && Distinct(before)
    ensures forall u :: u in revoked ==> u !in after
  {
    forall u | u in revoked ensures u !in after {
      DistinctCount(before, u);
    }
  }

  /** Removing an entry drops exactly that entry and revokes exactly its output
      URL, which leaves the cleanup list, so unmounting never revokes it again;
      an unknown id changes nothing. */
  lemma RemoveFileSpec(s: Session, id: string)
    requires Wf(s)
    ensures var r := RemoveFile(s, id);
      && Wf(r.session)
      && r.session.options == s.options
      && multiset(r.revoked) + multiset(r.session.registry) == multiset(s.registry)
      && (forall u :: u in r.revoked ==> u !in r.session.registry)
      && (forall i :: 0 <= i < |s.files| && s.files[i].id == id ==>
            && r.session.files == s.files[..i] + s.files[i + 1..]
            && r.revoked == (if s.files[i].outURL.Some? then [s.files[i].outURL.value] else []))
      && ((forall k :: 0 <= k < |s.files| ==> s.files[k].id != id) ==> r == Removal(s, []))
  {
    if i :| 0 <= i < |s.files| && s.files[i].id == id {
      RemoveFound(s, i);
    } else {
      RemoveAbsent(s, id);
    }
  }

  lemma RemoveAbsent(s: Session, id: string)
    requires forall k :: 0 <= k < |s.files| ==> s.files[k].id != id
    ensures RemoveFile(s, id) == Removal(s, [])
  {
    FilterOutAbsent(s.files, id);
    assert Find(s.files, id).None?;
  }

  lemma RemoveFound(s: Session, i: nat)
    requires Wf(s) && i < |s.files|
    ensures var r := RemoveFile(s, s.files[i].id);
      && Wf(r.session)
      && r.session.options == s.options
      && multiset(r.revoked) + multiset(r.session.registry) == multiset(s.registry)
      && (forall u :: u in r.revoked ==> u !in r.session.registry)
      && (forall j :: 0 <= j < |s.files| && s.files[j].id == s.files[i].id ==> j == i)
      && r.session.files == s.files[..i] + s.files[i + 1..]
      && r.revoked == (if s.files[i].outURL.Some? then [s.files[i].outURL.value] else [])
  {
    var r := RemoveFile(s, s.files[i].id);
    RemoveAt(s, i);
    RevokedGone(r.revoked, r.session.registry, s.registry);
  }

  /** The unmount cleanup revokes every recorded URL. */
  function Unmount(s: Session): (revoked: seq<Url>)
    ensures Wf(s) ==> Distinct(revoked) && multiset(revoked) == UrlBag(s.files)
  {
    s.registry
  }

  /** Nothing leaks and nothing is revoked twice: the cleanup revokes every
      output URL an entry still shows, each exactly once, and nothing else. */
  lemma UnmountRevokesEveryUrl(s: Session)
    requires Wf(s)
    ensures Distinct(Unmount(s))
    ensures multiset(Unmount(s)) == UrlBag(s.files)
    ensures forall k :: 0 <= k < |s.files| && s.files[k].outURL.Some? ==> s.files[k].outURL.value in Unmount(s)
  {
    forall k | 0 <= k < |s.files| && s.files[k].outURL.Some? ensures s.files[k].outURL.value in Unmount(s) {
      UrlBagHas(s.files, k);
    }
  }

  // ---------------------------------------------------------------------
  // handleDownloadAll
  // ---------------------------------------------------------------------

  const ArchiveName := "converted-images.zip"

  /** The saved archive: its file name and its entries by name. */
  datatype Archive = Archive(name: string, entries: map<string, Blob>)

  /** `name.replace(/\.[^/.]+$/, '.' + format)`: the extension is swapped, a
      name without one is kept as is. */
  function ArchiveEntryName(name: string, format: string): (r: string)
    ensures forall i: nat :: IsExtensionDot(name, i) ==> r == name[..i] + "." + format
    ensures (forall i: nat :: !IsExtensionDot(name, i)) ==> r == name
  {
    match ExtensionDot(name)
    case Some(i) => name[..i] + "." + format
    case None => name
  }

  /** The archive names agree with the engine's output names exactly for names
      that have an extension; a name without one gets no extension in the archive. */
  lemma ArchiveNameMatchesOutputName(name: string, format: string)
    ensures ArchiveEntryName(name, format) == OutputFileName(name, format) <==> ExtensionDot(name).Some?
  {
    if ExtensionDot(name).None? {
      assert |OutputFileName(name, format)| > |name|;
    }
  }

  /** No later entry gets the same archive name as entry `k`. */
  predicate LastWithName(done: seq<ConversionFile>, format: string, k: nat)
    requires k < |done|
  {
    forall j :: k < j < |done| ==> ArchiveEntryName(done[j].name, format) != ArchiveEntryName(done[k].name, format)
  }

  /** Fetching every done entry's blob (`Promise.all`, so one failure fails
      them all) and adding them to the ZIP in order. */
  function Collect(done: seq<ConversionFile>, format: string, fetch: Url -> Option<Blob>): (r: Option<map<string, Blob>>)
    requires forall k :: 0 <= k < |done| ==> done[k].outURL.Some?
    ensures r.Some? <==> forall k :: 0 <= k < |done| ==> fetch(done[k].outURL.value).Some?
    decreases |done|
  {
    if done == [] then Some(map[])
    else
      var n := |done| - 1;
      assert forall k :: 0 <= k < n ==> done[..n][k] == done[k];
      var before := Collect(done[..n], format, fetch);
      var blob := fetch(done[n].outURL.value);
      if before.Some? && blob.Some? then Some(before.value[ArchiveEntryName(done[n].name, format) := blob.value])
      else None
  }

  /** The archive names of a list of entries. */
  function NamesOf(done: seq<ConversionFile>, format: string): set<string> {
    set k | 0 <= k < |done| :: ArchiveEntryName(done[k].name, format)
  }

  lemma NamesOfSnoc(done: seq<ConversionFile>, format: string)
    requires |done| > 0
    ensures NamesOf(done, format) == NamesOf(done[..|done| - 1], format) + {ArchiveEntryName(done[|done| - 1].name, format)}
  {
    NamesOfWithin(done, format);
    NamesOfPrefix(done, format);
  }

  /** Every name of a list is a name of its front or the last entry's name. */
  lemma NamesOfWithin(done: seq<ConversionFile>, format: string)
    requires |done| > 0
    ensures NamesOf(done, format) <= NamesOf(done[..|done| - 1], format) + {ArchiveEntryName(done[|done| - 1].name, format)}
  {
    var n := |done| - 1;
    var prefix := done[..n];
    forall name | name in NamesOf(done, format)
      ensures name in NamesOf(prefix, format) + {ArchiveEntryName(done[n].name, format)}
    {
      var k :| 0 <= k < |done| && name == ArchiveEntryName(done[k].name, format);
      if k < n {
        assert prefix[k] == done[k];
        assert name == ArchiveEntryName(prefix[k].name, format);
        assert name in NamesOf(prefix, format);
      } else {
        assert name == ArchiveEntryName(done[n].name, format);
      }
    }
  }

  /** The front's names and the last entry's name are names of the list. */
  lemma NamesOfPrefix(done: seq<ConversionFile>, format: string)
    requires |done| > 0
    ensures NamesOf(done[..|done| - 1], format) + {ArchiveEntryName(done[|done| - 1].name, format)} <= NamesOf(done, format)
  {
    var n := |done| - 1;
    var prefix := done[..n];
    forall name | name in NamesOf(prefix, format) ensures name in NamesOf(done, format) {
      var k :| 0 <= k < n && name == ArchiveEntryName(prefix[k].name, format);
      assert prefix[k] == done[k];
    }
  }

  /** A successful collection is the collection of all but the last entry,
      with the last entry's blob added under its name. */
  lemma CollectSnoc(done: seq<ConversionFile>, format: string, fetch: Url -> Option<Blob>)
    requires forall k :: 0 <= k < |done| ==> done[k].outURL.Some?
    requires done != [] && Collect(done, format, fetch).Some?
    ensures var n := |done| - 1;
      && Collect(done[..n], format, fetch).Some?
      && fetch(done[n].outURL.value).Some?
      && Collect(done, format, fetch).value
         == Collect(done[..n], format, fetch).value[ArchiveEntryName(done[n].name, format) := fetch(done[n].outURL.value).value]
  {
  }

  /** The archive's names are exactly the done entries' archive names. */
  lemma {:induction false} CollectKeys(done: seq<ConversionFile>, format: string, fetch: Url -> Option<Blob>)
    requires forall k :: 0 <= k < |done| ==> done[k].outURL.Some?
    ensures Collect(done, format, fetch).Some? ==> Collect(done, format, fetch).value.Keys == NamesOf(done, format)
    decreases |done|
  {
    if done != [] && Collect(done, format, fetch).Some? {
      var n := |done| - 1;
      assert forall k :: 0 <= k < n ==> done[..n][k] == done[k];
      CollectSnoc(done, format, fetch);
      CollectKeys(done[..n], format, fetch);
      NamesOfSnoc(done, format);
    }
  }

  /** A name shared by several entries holds the blob of the last of them. */
  lemma {:induction false} CollectLast(done: seq<ConversionFile>, format: string, fetch: Url -> Option<Blob>, k: nat)
    requires forall j :: 0 <= j < |done| ==> done[j].outURL.Some?
    requires k < |done| && LastWithName(done, format, k)
    ensures Collect(done, format, fetch).Some? ==>
      var name := ArchiveEntryName(done[k].name, format);
      name in Collect(done, format, fetch).value &&
      Collect(done, format, fetch).value[name] == fetch(done[k].outURL.value).value
    decreases |done|
  {
    var r := Collect(done, format, fetch);
    if r.Some? {
      var n := |done| - 1;
      var prefix := done[..n];
      assert forall j :: 0 <= j < n ==> prefix[j] == done[j];
      if k < n {
        assert ArchiveEntryName(done[k].name, format) != ArchiveEntryName(done[n].name, format);
        assert LastWithName(prefix, format, k);
        CollectLast(prefix, format, fetch, k);
      }
    }
  }

  /** `handleDownloadAll()`: nothing without a done entry; otherwise the archive
      of the done entries' outputs, named with the format selected now, unless
      a fetch or the ZIP generation fails, which is swallowed. */
  function DownloadAll(s: Session, fetch: Url -> Option<Blob>, zipOk: bool): (r: Option<Archive>)
    // an archive is saved only when some entry is done and the ZIP is generated,
    // and it always has the fixed file name
    ensures r.Some? ==> CountDone(s.files) > 0 && zipOk && r.value.name == ArchiveName
  {
    if CountDone(s.files) == 0 then None
    else
      match Collect(DoneWithUrl(s.files), FormatName(s.options.format), fetch)
      case None => None
      case Some(entries) => if zipOk then Some(Archive(ArchiveName, entries)) else None
  }

  /** Under the lifecycle invariant the archive's entries are exactly the done ones. */
  lemma DoneFetchable(files: seq<ConversionFile>, fetch: Url -> Option<Blob>)
    requires EntriesOk(files)
    ensures var done := DoneWithUrl(files);
      (forall k :: 0 <= k < |done| ==> fetch(done[k].outURL.value).Some?)
      <==> (forall k :: 0 <= k < |files| && files[k].status == Done ==> fetch(files[k].outURL.value).Some?)
  {
    var done := DoneWithUrl(files);
    if forall k :: 0 <= k < |done| ==> fetch(done[k].outURL.value).Some? {
      DoneFetchableBack(files, fetch);
    } else {
      var k :| 0 <= k < |done| && fetch(done[k].outURL.value).None?;
      assert done[k] in files;
      var j :| 0 <= j < |files| && files[j] == done[k];
      assert files[j].status == Done && fetch(files[j].outURL.value).None?;
    }
  }

  lemma DoneFetchableBack(files: seq<ConversionFile>, fetch: Url -> Option<Blob>)
    requires EntriesOk(files)
    requires forall k :: 0 <= k < |DoneWithUrl(files)| ==> fetch(DoneWithUrl(files)[k].outURL.value).Some?
    ensures forall k :: 0 <= k < |files| && files[k].status == Done ==> fetch(files[k].outURL.value).Some?
  {
    var done := DoneWithUrl(files);
    forall k | 0 <= k < |files| && files[k].status == Done ensures fetch(files[k].outURL.value).Some? {
      assert EntryOk(files[k]);
      assert files[k] in done;
      var j :| 0 <= j < |done| && done[j] == files[k];
      assert fetch(done[j].outURL.value).Some?;
    }
  }

  lemma DoneNames(files: seq<ConversionFile>, format: string)
    requires EntriesOk(files)
    ensures NamesOf(DoneWithUrl(files), format)
         == set k | 0 <= k < |files| && files[k].status == Done :: ArchiveEntryName(files[k].name, format)
  {
    DoneNamesWanted(files, format);
    DoneNamesCovered(files, format);
  }

  lemma DoneNamesWanted(files: seq<ConversionFile>, format: string)
    ensures forall name :: name in NamesOf(DoneWithUrl(files), format) ==>
      name in set k | 0 <= k < |files| && files[k].status == Done :: ArchiveEntryName(files[k].name, format)
  {
    var done := DoneWithUrl(files);
    forall name | name in NamesOf(done, format)
      ensures exists k :: 0 <= k < |files| && files[k].status == Done && name == ArchiveEntryName(files[k].name, format)
    {
      var j :| 0 <= j < |done| && name == ArchiveEntryName(done[j].name, format);
      var k :| 0 <= k < |files| && files[k] == done[j];
    }
  }

  lemma DoneNamesCovered(files: seq<ConversionFile>, format: string)
    requires EntriesOk(files)
    ensures forall k :: 0 <= k < |files| && files[k].status == Done ==>
      ArchiveEntryName(files[k].name, format) in NamesOf(DoneWithUrl(files), format)
  {
    var done := DoneWithUrl(files);
    forall k | 0 <= k < |files| && files[k].status == Done
      ensures ArchiveEntryName(files[k].name, format) in NamesOf(done, format)
    {
      assert EntryOk(files[k]);
      var j :| 0 <= j < |done| && done[j] == files[k];
    }
  }

  /** A download happens exactly when some entry is done, every done entry's
      output can be fetched and the ZIP is generated; the archive then holds
      one name per done entry, with the extension of the format selected at
      download time, and the archive's file name is fixed. */
  lemma DownloadAllSpec(s: Session, fetch: Url -> Option<Blob>, zipOk: bool)
    requires Wf(s)
    ensures var r := DownloadAll(s, fetch, zipOk);
      && (r.Some? <==>
            && (exists k :: 0 <= k < |s.files| && s.files[k].status == Done)
            && zipOk
            && forall k :: 0 <= k < |s.files| && s.files[k].status == Done ==> fetch(s.files[k].outURL.value).Some?)
      && (r.Some? ==>
            && r.value.name == ArchiveName
            && r.value.entries.Keys == set k | 0 <= k < |s.files| && s.files[k].status == Done
                                         :: ArchiveEntryName(s.files[k].name, FormatName(s.options.format)))
  {
    var fmt := FormatName(s.options.format);
    DoneFetchable(s.files, fetch);
    DoneNames(s.files, fmt);
    CollectKeys(DoneWithUrl(s.files), fmt, fetch);
  }
}
