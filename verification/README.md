# FormatFlow image converter — a Dafny model of its core

FormatFlow converts images (JPEG, PNG, WebP, HEIC/HEIF) to JPEG, PNG or WebP
entirely in the browser. This project models the four pieces that decide what
happens to a file, and proves properties of that model:

- **the engine** (`lib/convert.ts`, module `Convert`). It has four parts:
  - HEIC/HEIF detection, and the HEIC-to-JPEG pre-pass at quality 0.8;
  - decoding through `createImageBitmap`, or through an `Image` loaded from a
    temporary object URL;
  - the two-pass resize (width first, then height) with `Math.round`, and the
    MIME type and quality handed to the encoder;
  - the output name (`\.[^/.]+$` replaced by `.format`), and the cleanup that
    revokes the temporary URL on every path.
  The browser calls are fields of a `Platform` value, so every property holds
  whatever the browser answers. The engine is modelled as it runs on the page,
  where the DOM (`document`, `Image`) exists.
- **the queue** (`lib/worker-manager.ts`, module `WorkerManager`). It has a
  FIFO of pending tasks and one active slot. It dispatches only when idle, has
  work queued, and holds a worker. Responses are matched to the active task by
  id, and each task's promise is settled by one resolve or reject effect. The
  manager is a state machine stepped by submissions, delivered worker
  responses, and teardown; `Run` folds a sequence of those events.
- **the worker's answer** (`workers/convert.worker.ts`, module
  `ConvertWorker`). For one request, it gives the messages the worker posts:
  - progress 5, then 15 for HEIC input only, then 30 and 60;
  - on success, progress 100 and a done message;
  - on failure, an error message.
  Module `Pipeline` connects this answer to the queue.
- **the page's state logic** (`components/image-converter.tsx`, modules
  `BatchList` and `ImageConverter`). This covers dropping files, the
  convert-all loop over a snapshot of the queued entries, removing an entry,
  the unmount cleanup, and assembling the ZIP download.
  - `Session` holds the entry list, the options, the list of output URLs kept
    for cleanup, and the next URL token.
  - `Wf` is the invariant every handler keeps:
    - ids are unique;
    - an entry has a converted size and an output URL exactly when it is done,
      and an error exactly when it failed;
    - the cleanup list holds exactly the output URLs the entries show, each
      once.

`lib/types.ts` supplies the shared records (module `Types`).

Notes on behaviour the code shows:

- **No 1-pixel minimum.** The canvas is not clamped to at least one pixel, so
  a very thin image can round to a zero-height canvas (`Convert.CanvasMayBeEmpty`).
- **The page bypasses the queue.** The page calls `convertImage` directly,
  through a dynamic import (image-converter.tsx:80-81). It does not use the
  worker manager.
- **Size bounds are dropped.** The page passes only the format and the
  quality, so the `maxW`/`maxH` options never reach the engine
  (`ImageConverter.ConvertAllIgnoresBounds`).
- **Literal progress values.** The progress percents are the literal values
  in the code: 5/15/30/60/100 in the worker, and 10/30/100 on the page.
- **Archive names use the download-time format.** ZIP entry names take the
  format selected at download time, not at conversion time. A name without an
  extension gets no extension in the archive, whereas the engine's output name
  always gets one (`ImageConverter.ArchiveNameMatchesOutputName`). Entries with
  the same archive name overwrite each other, and the last one wins
  (`ImageConverter.CollectLast`).
- **Settling.** A `done` response without a payload settles nothing. After
  `destroy`, the promises of queued and active tasks are never settled
  (`WorkerManager.TeardownLive` settles no id).

## Model

| member | source | states |
|---|---|---|
| Types.FormatName | lib/types.ts:15 | each output format's name is a non-empty string with no `.` or `/`, so the extension pattern reads it back as a whole extension |
| Convert.IsHeic | lib/convert.ts:37-40 | a file is HEIC exactly when its declared type is `image/heic` or `image/heif` (case-sensitive), or its name ends in a dot followed by h, e, i and then c or f, each in either case |
| Convert.ExtensionDot | lib/convert.ts:43 | the position returned is the one and only index where `\.[^/.]+$` matches (a dot followed by at least one character other than `.` or `/`, running to the end); there is none exactly when the pattern does not match |
| Convert.OutputFileName | lib/convert.ts:42-45 | the output name always ends in `.format`; with an extension it is the name up to the extension's dot plus `.format`, without one it is the whole name plus `.format` |
| Convert.OutputFileNameIdempotent | lib/convert.ts:42-45 | renaming an output name again with the same format changes nothing |
| Convert.MimeType | lib/convert.ts:47-54 | the encoder type is always `image/jpeg`, `image/png` or `image/webp`; it leaves the JPEG default exactly for `png` and `webp`, and is then `image/` followed by the format |
| Convert.MimeMatchesFormat | lib/convert.ts:47-54 | the encoder is asked for the MIME type of the format the output is named after (`jpg` gives `image/jpeg`) |
| Convert.QualityArg | lib/convert.ts:121-122 | the encoder gets no quality argument exactly for PNG, and otherwise the quality option unchanged |
| Convert.PngIgnoresQuality | lib/convert.ts:121-122 | for PNG output the quality option has no effect on any part of a conversion run |
| Convert.Resize | lib/convert.ts:91-102 | the resize keeps the aspect ratio; every truthy bound holds afterwards, whatever its sign; with bounds that are absent, zero or positive the image only shrinks |
| Convert.ResizeValues | lib/convert.ts:94-102 | a triggered height pass sets the height to the height bound; otherwise the width pass's size stands, whose width is the width bound when that pass ran; with no exceeded truthy bound the size is unchanged |
| Convert.FitWidth | lib/convert.ts:94-97 | the width pass runs exactly when a truthy width bound is exceeded and then sets the width to that bound, keeping the aspect ratio; any truthy width bound holds afterwards |
| Convert.FitHeight | lib/convert.ts:99-102 | the height pass runs exactly when a truthy height bound is exceeded and then sets the height to that bound, keeping the aspect ratio; any truthy height bound holds afterwards |
| Convert.FitHeightNarrows | lib/convert.ts:99-102 | on a size whose sides share a sign, the height pass never makes the width larger, so it cannot undo the width pass |
| Convert.Round | lib/convert.ts:106-107 | `Math.round` yields the integer within half a unit of its argument, with halves rounded up |
| Convert.RoundWithinBound | lib/convert.ts:106-107 | a dimension within an integer bound still fits after rounding |
| Convert.CanvasSize | lib/convert.ts:91-107 | each canvas side is the nearest integer to the resized side, within half a pixel; an integer-valued truthy bound still holds after rounding, whatever its sign |
| Convert.CanvasMayBeEmpty | lib/convert.ts:105-107 | there is no clamp to one pixel: a 1000x1 image bounded to width 100 gets a 100x0 canvas |
| Convert.Normalize | lib/convert.ts:62-70 | HEIC input is sent to heic2any as JPEG at quality 0.8 and its outcome is passed on; any other file's content is decoded as it is |
| Convert.Decode | lib/convert.ts:72-89 | with `createImageBitmap` the outcome is that call's; otherwise decoding succeeds exactly when the `Image` loads, with its size, and fails with the fixed `Failed to load image` error |
| Convert.ConvertImage | lib/convert.ts:56-145 | the temporary URL is created only on the `Image` fallback path and revoked exactly once on every path; the encoder is reached exactly when the source, the decode and the 2D context are all there, and then gets a canvas of `CanvasSize` of the decoded image, the normalized image, the format's MIME type and a quality only for lossy formats; the run succeeds exactly when every browser step does; a failing step's error is the one the run fails with, and a missing 2D context fails with its own message; the result carries the encoded blob, the output name and both byte sizes |
| Convert.ResultIgnoresTempUrl | lib/convert.ts:79-80 | the outcome of a conversion does not depend on the token the temporary URL gets |
| ConvertWorker.Respond | workers/convert.worker.ts:18-53 | a request that is not a convert request gets no answer; a convert request gets one progress message per milestone, in order, then exactly one terminal message: done with the result, or error with the thrown message |
| ConvertWorker.Milestones | workers/convert.worker.ts:24-41 | 5 comes first and 30 and 60 are always reported; 15 is reported exactly for HEIC input, and 100 exactly when the conversion succeeded; nothing else is reported, and the percents increase strictly within [0, 100] |
| ConvertWorker.MilestonesDetermined | workers/convert.worker.ts:24-41 | those facts fix the list: any list meeting them is exactly the worker's sequence of progress percents |
| ConvertWorker.RespondWellFormed | workers/convert.worker.ts:18-53 | every answer to a convert request is well formed: one id, increasing percents in [0, 100], and one terminal message, last |
| WorkerManager.Create | lib/worker-manager.ts:33-43 | a new manager is idle with an empty queue and satisfies the manager invariant, whether or not a worker could be created |
| WorkerManager.RejectReason | lib/worker-manager.ts:73 | an absent or empty message becomes `Conversion failed`; any other message is the reason as it is; so the reason is never empty |
| WorkerManager.SettleFor | lib/worker-manager.ts:63-75 | a terminal response gives at most one effect, which settles only the current task; nothing happens only for a done response without a payload; a resolution carries the payload; a rejection comes only from an error response and has a non-empty reason |
| WorkerManager.HandleMessage | lib/worker-manager.ts:45-77 | a response while idle, or one for another id, changes nothing and triggers nothing; a progress response never changes the manager's state |
| WorkerManager.ProcessQueue | lib/worker-manager.ts:88-106 | something is posted exactly when the manager is idle, has work queued and holds a worker; then the head of the queue is posted and becomes active and the rest stays queued in order; otherwise nothing changes; the manager invariant holds afterwards whenever the busy flag and the active slot agreed |
| WorkerManager.ProcessNextFile | lib/worker-manager.ts:79-86 | moving on always leaves a state the manager invariant allows; the next queued task becomes active and is posted exactly when there is one and a worker to take it; queue order is kept |
| WorkerManager.ConvertFile | lib/worker-manager.ts:108-127 | from a valid state, an idle manager with a worker posts the new task at once; otherwise the task waits at the back of the queue and nothing else changes; the invariant is kept |
| WorkerManager.Destroy | lib/worker-manager.ts:129-137 | teardown leaves no worker and no held task, terminates the worker exactly when there was one, and has no other effect |
| WorkerManager.DispatchFifo | lib/worker-manager.ts:88-106 | dispatch posts at most the head of the queue and settles nothing; the posted ids followed by what stays queued are the queued ids, in order |
| WorkerManager.ProcessNextFileEffects | lib/worker-manager.ts:79-86 | moving on settles nothing and posts at most the next queued task, keeping queue order |
| WorkerManager.ApplyKeepsInv | lib/worker-manager.ts:45-137 | every submission, response and teardown keeps the manager invariant: busy exactly when a task is active, a task active only with a worker, and never idle with a worker while work waits |
| WorkerManager.RunKeepsInv | lib/worker-manager.ts:45-137 | the manager invariant holds after any sequence of events |
| WorkerManager.RunFifo | lib/worker-manager.ts:88-127 | over any run without teardown, tasks are posted to the worker in the order they were queued and submitted, and what was not posted is still queued in that order |
| WorkerManager.FifoFromStart | lib/worker-manager.ts:108-127 | from a fresh manager with a worker, the ids posted followed by the ids still queued are exactly the submitted ids, in submission order |
| WorkerManager.SubmitLive | lib/worker-manager.ts:108-127 | a submission appends its id after every task the manager holds and settles nothing |
| WorkerManager.TeardownLive | lib/worker-manager.ts:129-137 | teardown forgets every held task without settling any of them |
| WorkerManager.IgnoredLive | lib/worker-manager.ts:50-61 | a stale response, or a progress response, leaves the held tasks as they are and settles nothing |
| WorkerManager.TerminalLive | lib/worker-manager.ts:63-86 | a terminal response for the active task removes exactly that task from the held ones and settles at most that task |
| WorkerManager.RunSettlesOnce | lib/worker-manager.ts:45-137 | if the held and submitted ids are distinct, no task's promise is settled twice over any run, and only held or submitted tasks are ever settled |
| WorkerManager.NoWorkerNoDispatch | lib/worker-manager.ts:88-92 | without a worker, nothing is ever posted and no task ever becomes active |
| Pipeline.ServeWellFormed | lib/worker-manager.ts:45-77 | delivering any well-formed answer for the active task forwards each progress message to the callback, settles the task as its terminal message says, and leaves the manager exactly as `processNextFile` would |
| Pipeline.DeliverProgress | lib/worker-manager.ts:56-61 | a progress response for the active task leaves the manager as it is and at most calls that task's progress callback, when one was passed and the response has a percent |
| Pipeline.TerminalSettles | workers/convert.worker.ts:38-50 | the terminal message the worker posts always settles the task: resolved with the result on success, rejected with the thrown message or the fallback on failure |
| Pipeline.WorkerAnswerSettlesOnce | workers/convert.worker.ts:18-53 | the worker's answer to the active task settles that task exactly once and with the right outcome; the progress callback sees the worker's milestones in order; the manager then moves on to the next queued task |
| BatchList.KBInteger | components/image-converter.tsx:43 | the kilobyte size is the byte count divided by 1024, rounded half up |
| BatchList.NewEntry | components/image-converter.tsx:38-44 | a dropped file becomes a queued entry with no converted size, no output URL and no error |
| BatchList.ApplyUpdate | components/image-converter.tsx:66-111 | none of the handlers' record updates changes an entry's id, name, file or original size |
| BatchList.UpdateAllPointwise | components/image-converter.tsx:66-111 | successive whole-list updates for one id amount to applying them all, in order, to each entry with that id, and leave every other entry alone |
| BatchList.UpdateAllAt | components/image-converter.tsx:66-68 | with unique ids, updating by id changes exactly the entry at that id's index |
| BatchList.FilterOutId | components/image-converter.tsx:159 | the result is the reference filter `Seqs.Filter` by "id differs": exactly the entries with another id, in list order, each as often as in the list |
| BatchList.FilterOutAt | components/image-converter.tsx:159 | with unique ids, filtering out entry i's id removes exactly entry i, and keeps the others in order |
| BatchList.FilterOutAbsent | components/image-converter.tsx:159 | filtering out an id that no entry has changes nothing |
| BatchList.Find | components/image-converter.tsx:154 | the lookup finds nothing exactly when no entry has the id; otherwise it finds the first entry with it, which is in the list and has the id |
| BatchList.QueuedEntries | components/image-converter.tsx:60 | the snapshot is the reference filter by "queued": exactly the queued entries, in list order; it keeps their ids unique |
| BatchList.DoneWithUrl | components/image-converter.tsx:125 | the archive candidates are the reference filter by "done with an output URL": exactly those entries, in list order |
| BatchList.CountDone | components/image-converter.tsx:163 | the completed count is the length of the reference filter by "done", so it is zero exactly when no entry is done |
| BatchList.CanDownload | components/image-converter.tsx:165 | download is offered exactly when some entry is done |
| BatchList.AnyProcessing | components/image-converter.tsx:166 | the page is busy exactly when some entry is processing |
| BatchList.DoneWithUrlCount | components/image-converter.tsx:125 | under the entry lifecycle invariant, every done entry has a URL, so the archive gets one file per completed entry |
| Seqs.Without | components/image-converter.tsx:157 | removing a URL from the cleanup list is the reference filter by "differs from it": every copy is dropped, the rest keep their order, and no other count changes |
| Seqs.FilterPositions | components/image-converter.tsx:60 | the reference filter lists the accepted elements in order: its k-th element is the one at the k-th accepted position, and those positions increase |
| Seqs.KeptAtComplete | components/image-converter.tsx:60 | every accepted position is among the filter's positions, so nothing accepted is dropped |
| ImageConverter.Mount | components/image-converter.tsx:21-28 | the first render has no entries, JPEG at quality 0.85, an empty cleanup list, and satisfies the page invariant |
| ImageConverter.OnDrop | components/image-converter.tsx:37-46 | dropping files appends one entry per accepted file, for that file, after the existing entries, which keep their places; the options and the cleanup list do not change |
| ImageConverter.OnDropSpec | components/image-converter.tsx:37-46 | dropped files are appended after the existing entries, in order, each queued with its id, name, file and rounded size; nothing else changes |
| ImageConverter.OnDropKeepsWf | components/image-converter.tsx:37-46 | with fresh, distinct ids, dropping files keeps the page invariant |
| ImageConverter.AttemptOrder | components/image-converter.tsx:63-112 | one iteration marks the entry processing, then reports 10 and strictly increasing percents, and ends done (right after 100) exactly when the import and the conversion succeed, and in error otherwise |
| ImageConverter.FinishSpec | components/image-converter.tsx:83-111 | after the import, a failed conversion leaves the entry failed at 30%; a successful one leaves it done at 100% with the converted size in KB and a fresh output URL, which is recorded for cleanup; the entry keeps its lifecycle invariant |
| ImageConverter.AttemptSpec | components/image-converter.tsx:63-112 | one iteration leaves a queued entry in its end state, keeps its lifecycle invariant, and records exactly the fresh output URLs the entry shows |
| ImageConverter.ProcessOneSpec | components/image-converter.tsx:63-112 | one iteration converts exactly the entry with the snapshot entry's id, leaves every other entry and the options as they are, and keeps the page invariant |
| ImageConverter.ConvertEachSpec | components/image-converter.tsx:60-113 | the loop converts every snapshot entry once and leaves every other entry as it is, keeping the page invariant |
| ImageConverter.ProcessOne | components/image-converter.tsx:63-112 | one iteration keeps every entry in its place with its id and leaves the options alone; the cleanup list only grows and URL tokens only increase |
| ImageConverter.ConvertEach | components/image-converter.tsx:63-113 | the loop keeps every entry in its place with its id and leaves the options alone; the cleanup list only grows and URL tokens only increase |
| ImageConverter.ConvertAll | components/image-converter.tsx:54-116 | an empty list is left alone; otherwise entries keep their places and ids, the options are untouched, and output URLs are only added to the cleanup list, with fresh tokens |
| ImageConverter.ConvertAllSpec | components/image-converter.tsx:54-116 | convert-all converts exactly the entries that were queued when it started and leaves the others as they are, keeping the page invariant |
| ImageConverter.ConvertAllSettles | components/image-converter.tsx:54-116 | after convert-all no entry is queued, and the page is busy exactly when it was busy before |
| ImageConverter.ConvertAllIgnoresBounds | components/image-converter.tsx:85-88 | changing the size bounds in the options has no effect on convert-all |
| ImageConverter.RemoveFile | components/image-converter.tsx:152-161 | no entry with the id is left and the others keep their order (the reference filter); at most one URL is revoked, the output URL of an entry with that id; every other recorded URL stays recorded; options and tokens do not change |
| ImageConverter.RemoveAt | components/image-converter.tsx:152-161 | removing entry i's id drops exactly that entry, revokes exactly its output URL if it has one, takes that URL off the cleanup list, and keeps the page invariant |
| ImageConverter.RemoveFileSpec | components/image-converter.tsx:152-161 | removal keeps the page invariant; the revoked URLs and the remaining cleanup list together are the old list; a revoked URL is no longer recorded; an unknown id changes nothing |
| ImageConverter.Unmount | components/image-converter.tsx:30-35 | under the page invariant the cleanup revokes no URL twice, and revokes exactly the output URLs the entries show |
| ImageConverter.UnmountRevokesEveryUrl | components/image-converter.tsx:30-35 | the unmount cleanup revokes every output URL an entry still shows, each exactly once, and nothing else |
| ImageConverter.ArchiveEntryName | components/image-converter.tsx:131-132 | an archive name swaps the extension for the selected format and keeps a name without an extension unchanged |
| ImageConverter.ArchiveNameMatchesOutputName | components/image-converter.tsx:131-132 | the archive name equals the engine's output name exactly when the name has an extension |
| ImageConverter.Collect | components/image-converter.tsx:128-136 | collecting the blobs succeeds exactly when every fetch succeeds |
| ImageConverter.CollectKeys | components/image-converter.tsx:136-141 | the archive's names are exactly the done entries' archive names |
| ImageConverter.CollectLast | components/image-converter.tsx:139-141 | when several entries share an archive name, the archive holds the blob of the last of them |
| ImageConverter.DownloadAll | components/image-converter.tsx:118-150 | an archive is saved only when some entry is done and the ZIP is generated, and it is always named `converted-images.zip` |
| ImageConverter.DownloadAllSpec | components/image-converter.tsx:118-150 | an archive named `converted-images.zip` is saved exactly when some entry is done, every done entry's blob can be fetched, and the ZIP is generated; its names are exactly the done entries' archive names |

## Left out

- Rendering: the JSX, the dropzone's drag state, the option controls and the summary text are not modelled. They hold no state logic.
- Browser calls are parameters: heic2any, `createImageBitmap`, the `Image` load, `getContext`, the `fetch` of an output URL, and JSZip generation. Each becomes a field or argument whose answer can be anything.
- `canvasToBlob` is one platform call. Its `toBlob` or `toDataURL`-and-`fetch` fallback (convert.ts:19-35) is not broken down, because only its blob or its error reaches the core.
- Image smoothing and `drawImage` (convert.ts:114-118) are left out, because they change pixels, not the core's state or results. The drawn blob stands for the image.
- Object URLs are number tokens, handed out in order. The strings the browser produces are not modelled.
- Sizes and options are exact reals, so NaN and Infinity are not modelled. The canvas's conversion of a negative or fractional size to an unsigned integer is not modelled either.
- `toLowerCase` is modelled for ASCII letters only. Other characters cannot change whether a name ends in `.heic` or `.heif`.
- Concurrency: each handler, and each manager step, runs atomically in the model. A second handler starting while `handleConvertAll` or `handleDownloadAll` awaits is not modelled, so neither are the `isConverting` and `isDownloading` flags (image-converter.tsx:26-27). Those flags disable only the convert-all and download buttons (image-converter.tsx:229, 239). The remove buttons (image-converter.tsx:294-300) and the dropzone stay enabled while convert-all awaits, and the model does not cover what follows:
  - A file removed mid-run is still converted from the snapshot, and its output URL is pushed onto the cleanup list (image-converter.tsx:92-93) although no entry shows it. `Wf`'s cleanup-list clause then fails until unmount.
  - Files dropped mid-run stay queued.
- `hasFiles` (image-converter.tsx:164) only drives rendering, so it is not modelled.
- Random ids: the ids from `Math.random` (image-converter.tsx:39, worker-manager.ts:114) are inputs, so their uniqueness is a precondition.
- Logging: the `console` calls are left out, because they have no effect on state.
- The dropzone's `accept` filter is not modelled. Every dropped file is taken as accepted.
- The worker repeats the HEIC test (convert.worker.ts:27-28). It is the same expression as the engine's, so the model uses `Convert.IsHeic` for both.
- The engine inside the worker: a dedicated worker has no `document` and no `Image`, so the engine, run there, would throw at `document.createElement` (lib/convert.ts:105) after a successful decode, or at `new Image()` (lib/convert.ts:79) on the fallback path. `ConvertWorker.Respond` therefore takes the engine's outcome as an arbitrary input rather than composing the worker with `Convert.ConvertImage`, whose model assumes the DOM is present.
- The worker thread and `postMessage` are not modelled. The manager receives the worker's answers as delivered events, in posting order.
- The done message's payload has type `any` in the worker. The model gives it the engine's result type.
- Negative size bounds: every truthy bound holds after the resize, negative ones included, but a negative bound gives negative sides. The canvas's handling of those is not modelled (see above).
- Decoded sizes are positive: `Dims` holds positive integers, because a browser does not decode an empty image. A decoder that reports a zero width or height is not modelled; the resize would divide by it.
- Convert.CanvasSize: the rounded size is bounded only for integer-valued bounds. A fractional bound may be exceeded by rounding up.
- WorkerManager.HandleMessage: its own contract covers only the stale and progress cases. The terminal case is stated by `WorkerManager.TerminalLive`, `WorkerManager.SettleFor` and `Pipeline.ServeWellFormed`.
