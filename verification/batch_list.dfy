/** The list of `ConversionFile` entries the converter page keeps, and the
    per-entry operations its handlers perform on it (components/image-converter.tsx). */
module BatchList {
  import opened Wrappers
  import opened Browser
  import opened Types
  import opened Convert
  import opened Seqs

  // ---------------------------------------------------------------------
  // Entries
  // ---------------------------------------------------------------------

  /** `Math.round(bytes / 1024)`: a byte count in kilobytes. */
  function KB(bytes: nat): int {
    Round(bytes as real / 1024.0)
  }

  /** The kilobyte figure is integer division rounding half up. */
  lemma KBInteger(bytes: nat)
    ensures KB(bytes) == (bytes + 512) / 1024
  {
    var n := (bytes + 512) / 1024;
    var r := KB(bytes);
    assert n * 1024 <= bytes + 512 < n * 1024 + 1024;
    assert (r as real) * 1024.0 <= (bytes + 512) as real < (r as real) * 1024.0 + 1024.0;
    assert r * 1024 <= bytes + 512 < r * 1024 + 1024;
  }

  /** A freshly dropped file: queued, with its rounded size and nothing else. */
  function NewEntry(id: string, file: InputFile): (e: ConversionFile)
    ensures EntryOk(e) && e.status == Queued
  {
    ConversionFile(id, file.name, file, Queued, KB(file.Size()), None, None, None, None)
  }

  /** The partial record updates the handlers apply with `{ ...f, ... }`. */
  datatype Update =
    | ToProcessing
    | SetPercent(percent: int)
    | ToDone(kb: int, url: Url)
    | ToError

  function ApplyUpdate(e: ConversionFile, u: Update): (r: ConversionFile)
    ensures r.id == e.id && r.name == e.name && r.file == e.file && r.originalKB == e.originalKB
  {
    match u
    case ToProcessing => e.(status := Processing)
    case SetPercent(p) => e.(percent := Some(p))
    case ToDone(kb, url) => e.(status := Done, percent := Some(100), convertedKB := Some(kb), outURL := Some(url))
    case ToError => e.(status := Error, error := Some(ConversionFailed))
  }

  /** Several updates to one entry, first to last. */
  function ApplyAll(e: ConversionFile, us: seq<Update>): (r: ConversionFile)
    ensures r.id == e.id && r.name == e.name && r.file == e.file && r.originalKB == e.originalKB
    decreases |us|
  {
    if us == [] then e else ApplyAll(ApplyUpdate(e, us[0]), us[1..])
  }

  /** `setFiles(prev => prev.map(f => f.id === id ? update(f) : f))`. */
  function UpdateById(files: seq<ConversionFile>, id: string, u: Update): (r: seq<ConversionFile>)
    ensures |r| == |files|
    ensures forall k :: 0 <= k < |files| ==> r[k] == if files[k].id == id then ApplyUpdate(files[k], u) else files[k]
  {
    seq(|files|, k requires 0 <= k < |files| => if files[k].id == id then ApplyUpdate(files[k], u) else files[k])
  }

  /** One `setFiles` call per update, in order. */
  function UpdateAllById(files: seq<ConversionFile>, id: string, us: seq<Update>): seq<ConversionFile>
    decreases |us|
  {
    if us == [] then files else UpdateAllById(UpdateById(files, id, us[0]), id, us[1..])
  }

  /** The successive whole-list updates for one id amount to applying all of
      them to each matching entry and leaving the others alone. */
  lemma {:induction false} UpdateAllPointwise(files: seq<ConversionFile>, id: string, us: seq<Update>)
    ensures |UpdateAllById(files, id, us)| == |files|
    ensures forall k :: 0 <= k < |files| ==>
      UpdateAllById(files, id, us)[k] == if files[k].id == id then ApplyAll(files[k], us) else files[k]
    decreases |us|
  {
    if us != [] {
      var next := UpdateById(files, id, us[0]);
      UpdateAllPointwise(next, id, us[1..]);
    }
  }

  /** No two entries share an id. */
  predicate UniqueIds(files: seq<ConversionFile>) {
    forall i, j :: 0 <= i < j < |files| ==> files[i].id != files[j].id
  }

  /** With unique ids, an id names exactly one index. */
  lemma OnlyIndex(files: seq<ConversionFile>, i: nat)
    requires UniqueIds(files) && i < |files|
    ensures forall j :: 0 <= j < |files| && files[j].id == files[i].id ==> j == i
  {
    forall j | 0 <= j < |files| && j != i ensures files[j].id != files[i].id {
      if j < i {
        assert files[j].id != files[i].id;
      } else {
        assert files[i].id != files[j].id;
      }
    }
  }

  /** With unique ids, updating by id touches exactly the entry at that id's index. */
  lemma UpdateAllAt(files: seq<ConversionFile>, i: nat, us: seq<Update>)
    requires UniqueIds(files) && i < |files|
    ensures UpdateAllById(files, files[i].id, us) == files[i := ApplyAll(files[i], us)]
  {
    UpdateAllPointwise(files, files[i].id, us);
  }

  // ---------------------------------------------------------------------
  // Output URLs held by the list
  // ---------------------------------------------------------------------

  function UrlOf(e: ConversionFile): multiset<Url> {
    if e.outURL.Some? then multiset{e.outURL.value} else multiset{}
  }

  /** The output URLs the entries hold, with multiplicity. */
  function UrlBag(files: seq<ConversionFile>): multiset<Url> {
    if files == [] then multiset{} else UrlOf(files[0]) + UrlBag(files[1..])
  }

  lemma {:induction false} UrlBagConcat(a: seq<ConversionFile>, b: seq<ConversionFile>)
    ensures UrlBag(a + b) == UrlBag(a) + UrlBag(b)
    decreases |a|
  {
    if a == [] {
      assert a + b == b;
    } else {
      assert a + b != [];
      assert (a + b)[0] == a[0];
      assert (a + b)[1..] == a[1..] + b;
      UrlBagConcat(a[1..], b);
    }
  }

  lemma UrlBagSplit(files: seq<ConversionFile>, i: nat)
    requires i < |files|
    ensures UrlBag(files) == UrlBag(files[..i]) + UrlOf(files[i]) + UrlBag(files[i + 1..])
  {
    assert files == files[..i] + files[i..];
    UrlBagConcat(files[..i], files[i..]);
    assert files[i..][0] == files[i];
    assert files[i..][1..] == files[i + 1..];
  }

  /** Replacing one entry swaps its URL for the new entry's in the bag. */
  lemma UrlBagReplace(files: seq<ConversionFile>, i: nat, e: ConversionFile)
    requires i < |files|
    ensures UrlBag(files[i := e]) + UrlOf(files[i]) == UrlBag(files) + UrlOf(e)
  {
    var g := files[i := e];
    UrlBagSplit(files, i);
    UrlBagSplit(g, i);
    assert g[..i] == files[..i] && g[i + 1..] == files[i + 1..];
  }

  /** Every URL an entry shows is in the bag. */
  lemma UrlBagHas(files: seq<ConversionFile>, k: nat)
    requires k < |files| && files[k].outURL.Some?
    ensures files[k].outURL.value in UrlBag(files)
  {
    UrlBagSplit(files, k);
  }

  // ---------------------------------------------------------------------
  // Filters and queries
  // ---------------------------------------------------------------------

  /** The tests the page's filters apply to an entry. */
  function HasOtherId(id: string): ConversionFile -> bool {
    (e: ConversionFile) => e.id != id
  }

  predicate IsQueued(e: ConversionFile) {
    e.status == Queued
  }

  predicate IsDone(e: ConversionFile) {
    e.status == Done
  }

  predicate IsDoneWithUrl(e: ConversionFile) {
    e.status == Done && e.outURL.Some?
  }

  /** `files.filter(f => f.id !== id)`: the entries with another id, in list order. */
  function FilterOutId(files: seq<ConversionFile>, id: string): (r: seq<ConversionFile>)
    ensures r == Filter(files, HasOtherId(id))
    ensures |r| <= |files|
    ensures forall k :: 0 <= k < |r| ==> r[k] in files && r[k].id != id
    ensures forall k :: 0 <= k < |files| && files[k].id != id ==> files[k] in r
  {
    if files == [] then []
    else
      assert files == [files[0]] + files[1..];
      FilterCons(files, HasOtherId(id));
      if files[0].id == id then FilterOutId(files[1..], id)
      else [files[0]] + FilterOutId(files[1..], id)
  }

  /** Filtering out an id no entry has changes nothing. */
  lemma FilterOutAbsent(files: seq<ConversionFile>, id: string)
    requires forall k :: 0 <= k < |files| ==> files[k].id != id
    ensures FilterOutId(files, id) == files
  {
    assert forall k :: 0 <= k < |files| ==> HasOtherId(id)(files[k]);
    FilterAll(files, HasOtherId(id));
  }

  lemma UniqueTail(files: seq<ConversionFile>)
    requires UniqueIds(files) && files != []
    ensures UniqueIds(files[1..])
  {
    forall i, j | 0 <= i < j < |files[1..]| ensures files[1..][i].id != files[1..][j].id {
      assert files[1..][i] == files[i + 1] && files[1..][j] == files[j + 1];
    }
  }

  /** With unique ids, filtering out the first entry's id leaves the rest. */
  lemma FilterOutFirst(files: seq<ConversionFile>)
    requires UniqueIds(files) && files != []
    ensures FilterOutId(files, files[0].id) == files[1..]
  {
    var tail := files[1..];
    assert forall k :: 0 <= k < |tail| ==> tail[k] == files[k + 1];
    FilterOutAbsent(tail, files[0].id);
  }

  /** With unique ids, filtering out the id of entry `i` removes exactly that entry. */
  lemma {:induction false} FilterOutAt(files: seq<ConversionFile>, i: nat)
    requires UniqueIds(files) && i < |files|
    ensures FilterOutId(files, files[i].id) == files[..i] + files[i + 1..]
    decreases i
  {
    if i == 0 {
      FilterOutFirst(files);
      assert files[..0] + files[1..] == files[1..];
    } else {
      UniqueTail(files);
      assert files[1..][i - 1] == files[i];
      FilterOutAt(files[1..], i - 1);
      FilterOutStep(files, i);
    }
  }

  /** The inductive step of `FilterOutAt`: an entry before `i` is kept in front. */
  lemma FilterOutStep(files: seq<ConversionFile>, i: nat)
    requires UniqueIds(files) && 0 < i < |files|
    requires FilterOutId(files[1..], files[i].id) == files[1..][..i - 1] + files[1..][i..]
    ensures FilterOutId(files, files[i].id) == files[..i] + files[i + 1..]
  {
    FilterOutCons(files, files[i].id);
    Splice(files, i);
  }

  lemma FilterOutCons(files: seq<ConversionFile>, id: string)
    requires files != [] && files[0].id != id
    ensures FilterOutId(files, id) == [files[0]] + FilterOutId(files[1..], id)
  {
  }

  lemma Splice<T>(s: seq<T>, i: nat)
    requires 0 < i < |s|
    ensures [s[0]] + (s[1..][..i - 1] + s[1..][i..]) == s[..i] + s[i + 1..]
  {
    assert s[..i] == [s[0]] + s[1..][..i - 1];
    assert s[i + 1..] == s[1..][i..];
  }

  /** `files.find(f => f.id === id)`: the first entry with that id, if any. */
  function Find(files: seq<ConversionFile>, id: string): (r: Option<ConversionFile>)
    ensures r.None? <==> forall k :: 0 <= k < |files| ==> files[k].id != id
    ensures r.Some? ==> r.value in files && r.value.id == id
    ensures forall k :: 0 <= k < |files| && files[k].id == id && (forall j :: 0 <= j < k ==> files[j].id != id)
                        ==> r == Some(files[k])
  {
    if files == [] then None
    else
      assert forall k :: 1 <= k < |files| ==> files[k] == files[1..][k - 1];
      if files[0].id == id then Some(files[0]) else Find(files[1..], id)
  }

  /** `files.filter(f => f.status === 'queued')`: the queued entries, in list order. */
  function QueuedEntries(files: seq<ConversionFile>): (r: seq<ConversionFile>)
    ensures r == Filter(files, IsQueued)
    ensures forall k :: 0 <= k < |r| ==> r[k] in files && r[k].status == Queued
    ensures forall k :: 0 <= k < |files| && files[k].status == Queued ==> files[k] in r
    ensures UniqueIds(files) ==> UniqueIds(r)
  {
    if files == [] then []
    else
      var rest := QueuedEntries(files[1..]);
      assert files == [files[0]] + files[1..];
      FilterCons(files, IsQueued);
      assert UniqueIds(files) ==> UniqueIds(files[1..]) by {
        if UniqueIds(files) { UniqueTail(files); }
      }
      if files[0].status != Queued then rest
      else
        assert UniqueIds(files) ==> UniqueIds([files[0]] + rest) by {
          if UniqueIds(files) { ConsUnique(files, rest); }
        }
        [files[0]] + rest
  }

  /** Keeping the head of a list with unique ids in front of entries drawn from its tail keeps ids unique. */
  lemma ConsUnique(files: seq<ConversionFile>, rest: seq<ConversionFile>)
    requires files != [] && UniqueIds(files) && UniqueIds(rest)
    requires forall k :: 0 <= k < |rest| ==> rest[k] in files[1..]
    ensures UniqueIds([files[0]] + rest)
  {
    var all := [files[0]] + rest;
    forall i, j | 0 <= i < j < |all| ensures all[i].id != all[j].id {
      if i == 0 {
        var k :| 0 <= k < |files[1..]| && files[1..][k] == rest[j - 1];
        assert files[1..][k] == files[k + 1];
      } else {
        assert all[i] == rest[i - 1] && all[j] == rest[j - 1];
      }
    }
  }

  /** `files.filter(f => f.status === 'done' && f.outURL)`, the entries the
      archive gets, in list order. */
  function DoneWithUrl(files: seq<ConversionFile>): (r: seq<ConversionFile>)
    ensures r == Filter(files, IsDoneWithUrl)
    ensures |r| <= |files|
    ensures forall k :: 0 <= k < |r| ==> r[k] in files && r[k].status == Done && r[k].outURL.Some?
    ensures forall k :: 0 <= k < |files| && files[k].status == Done && files[k].outURL.Some? ==> files[k] in r
  {
    if files == [] then []
    else
      assert files == [files[0]] + files[1..];
      FilterCons(files, IsDoneWithUrl);
      if files[0].status == Done && files[0].outURL.Some? then [files[0]] + DoneWithUrl(files[1..])
      else DoneWithUrl(files[1..])
  }

  /** `files.filter(f => f.status === 'done').length`. */
  function CountDone(files: seq<ConversionFile>): (n: nat)
    ensures n == |Filter(files, IsDone)|
    ensures n <= |files|
    ensures n == 0 <==> forall k :: 0 <= k < |files| ==> files[k].status != Done
  {
    if files == [] then 0
    else
      assert forall k :: 1 <= k < |files| ==> files[k] == files[1..][k - 1];
      FilterCons(files, IsDone);
      (if files[0].status == Done then 1 else 0) + CountDone(files[1..])
  }

  /** `completedFiles.length > 0`: the download button's condition. */
  function CanDownload(files: seq<ConversionFile>): (b: bool)
    ensures b <==> exists k :: 0 <= k < |files| && files[k].status == Done
  {
    CountDone(files) > 0
  }

  /** When every done entry carries its URL, the archive gets one file per done entry. */
  lemma {:induction false} DoneWithUrlCount(files: seq<ConversionFile>)
    requires forall k :: 0 <= k < |files| ==> EntryOk(files[k])
    ensures |DoneWithUrl(files)| == CountDone(files)
    decreases |files|
  {
    if files != [] {
      assert forall k :: 0 <= k < |files[1..]| ==> files[1..][k] == files[k + 1];
      DoneWithUrlCount(files[1..]);
    }
  }

  /** `files.some(f => f.status === 'processing')`. */
  function AnyProcessing(files: seq<ConversionFile>): (b: bool)
    ensures b <==> exists k :: 0 <= k < |files| && files[k].status == Processing
  {
    if files == [] then false
    else
      assert forall k :: 1 <= k < |files| ==> files[k] == files[1..][k - 1];
      assert forall k :: 0 <= k < |files[1..]| ==> files[1..][k] == files[k + 1];
      files[0].status == Processing || AnyProcessing(files[1..])
  }
}
