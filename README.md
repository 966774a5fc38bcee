# TimeLens generation pipeline in Dafny

TimeLens lets a user upload a portrait photo and receive the same person
restyled after six decades (`1950s` … `2000s`). The model covers the part of
the app with state and rules:

- **the record of generated images**: a map from decade label to an entry
  that is `Pending`, `Done(url)` or `Error(message)`;
- **a generation run** (`handleGenerateClick`): every decade is first set to
  `Pending`. Two workers then drain a shared queue copied from `DECADES`,
  each awaiting one request at a time. Each settled request merges exactly
  one key into the record;
- **regenerating one decade**, which is refused while that decade is
  `Pending` or while no photo is uploaded;
- **reset and a new upload**, both of which clear the record;
- **the album download gate**, which hands the urls to the compositor only
  when every decade is `done` with a url;
- **the HEIC/HEIF test** applied to an uploaded file;
- **the prompt template** sent with each request;
- **the resize arithmetic** of `resizeImage`: the longer side goes down to
  `maxSize` and the other side is scaled and rounded.

Modules:

- `Resize` (`resize.dfy`) holds the pure dimension computation.
- `Heic` (`heic.dfy`) holds the lower-casing, `includes` and `endsWith` tests
  that make up the HEIC check.
- `Prompts` (`prompts.dfy`) holds the prompt template and its inverse.
- `Decades` (`decades.dfy`) holds:
  - the decade labels;
  - the entry type and how a settled call becomes an entry;
  - the one-key merge;
  - the `forEach` that builds the initial record;
  - the album's filter/reduce and its gate.
- `TimeLens` (`app.dfy`) holds the component state as the class `App`, with
  one method per handler step. Each `async` handler is split at its `await`:
  the part before the suspension is one method, and the continuation is
  another.
  - A generation run is the class `Run`. It holds what the invocation's
    closure holds: the captured photo, `decadesQueue`, and what each worker
    is awaiting.
  - `Run.Complete` is one worker's request settling. It keeps the pool
    invariant `Run.Valid`:
    - every label taken from the queue is either settled or awaited by
      exactly one worker;
    - no label settles twice;
    - a worker stops only when the queue is empty.
  - `GenerateAll` drives a run under an arbitrary completion `schedule`.
    An `oracle` stands in for `generateDecadeImage`.
- `Wrappers` (`wrappers.dfy`) holds `Option`.

What the code does not do, the model does not do either:

- The code keeps no per-entry generation counter (App.tsx:124-152).
- It merges a response whatever the entry's state (App.tsx:131-140 and
  177-186).
- It never releases a url.
- It has only the two-worker strategy.

So a settled request always writes its key, even after a reset
(`TimeLens.ResetDuringRun`, `TimeLens.ResetDuringRegenerate`). The end of a
run always sets the phase to results-shown.

A photo counts as uploaded only when `uploadedImage` is truthy. Neither
`null` nor the empty string counts (`TimeLens.HasPhoto`).

## Model

| member | source | states |
|---|---|---|
| Resize.RoundDiv | lib/imageUtils.ts:22 | `Math.round(n/d)` is the integer nearest to n/d, ties rounded up: `2dq - 2n` lies in `(-d, d]` |
| Resize.Resized | lib/imageUtils.ts:18-30 | Several cases. An image with both sides within `maxSize` is returned unchanged. A landscape image wider than `maxSize` gets width `maxSize`, and its height is within half a pixel of `height*maxSize/width`. A portrait or square image taller than `maxSize` gets height `maxSize`, and its width is within half a pixel of `width*maxSize/height` |
| Resize.ResizedFits | lib/imageUtils.ts:18-30 | neither output side exceeds `maxSize`, for every input |
| Resize.ResizedNeverGrows | lib/imageUtils.ts:18-30 | each output side is at most the corresponding input side |
| Resize.ResizedKeepsOrientation | lib/imageUtils.ts:20-30 | a strictly longer side is not shorter afterwards, and a square stays square |
| Heic.Lower | App.tsx:67-68 | lower-casing keeps the length and leaves no upper-case letter. Every other character stays where it was, and each upper-case letter becomes its lower-case counterpart |
| Heic.LowerIdempotent | App.tsx:67-68 | lower-casing twice is the same as lower-casing once |
| Heic.Includes | App.tsx:71 | `s.includes(t)` holds exactly when `t` occurs in `s` at some position |
| Heic.EndsWith | App.tsx:71 | `s.endsWith(t)` holds exactly when `s` is some stem followed by `t` |
| Heic.IsHeic | App.tsx:67-71 | a file is HEIC exactly when its lower-cased type contains `heic` or `heif` at some position, or its lower-cased name is some stem followed by `.heic` or `.heif`. Both directions are stated |
| Heic.HeicByName | App.tsx:67-71 | a name ending in `.heic` or `.heif`, in any letter case, makes the file HEIC whatever its type |
| Heic.HeicByMime | App.tsx:67-71 | a type containing `heic` or `heif`, in any letter case, makes the file HEIC whatever its name |
| Heic.HeicIgnoresCase | App.tsx:67-68 | lower-casing name and type first does not change the answer |
| Heic.HeicNameExample | App.tsx:71 | `IMG_0001.HEIC` is converted whatever type the browser reports |
| Heic.HeicMimeExample | App.tsx:71 | a file typed `image/HEIF` is converted whatever its name |
| Heic.JpegExample | App.tsx:71 | `photo.heic.jpg` typed `image/jpeg` is not converted: `.heic` must end the name |
| Prompts.Prompt | App.tsx:129 | the round trip: reading the label back out of a decade's prompt with `DecadeOf` gives that decade |
| Prompts.PromptOfDecade | App.tsx:175 | any text with the template's shape is the prompt of the label it names |
| Prompts.PromptInjective | App.tsx:129 | two decades never share a prompt |
| Decades.DecadesDistinct | App.tsx:13 | the six labels are pairwise distinct, so the key set has six members |
| Decades.Settled | App.tsx:130-140 | A settled call never leaves `Pending`. It leaves `Done(url)` exactly when the call resolved. A rejection with an `Error` leaves `Error` with that error's message. A rejection with any other value leaves `Error` with "An unknown error occurred." |
| Decades.Merge | App.tsx:131-134 | the merged key gets its new entry, every other key keeps its entry, and no other key appears or disappears |
| Decades.InitialImages | App.tsx:118-121 | the `forEach` builds a record with exactly the given labels as keys, each `Pending` |
| Decades.AlbumData | App.tsx:212-217 | the collected urls have exactly the keys whose entry is `done` with a url. Each key maps to its entry's url. There are never more urls than entries |
| Decades.AlbumRequest | App.tsx:212-224 | the compositor gets the collected urls exactly when there are at least `DECADES.length` of them; on a record over the decade keys, that is exactly when every decade is `done` with a non-empty url |
| Decades.AlbumDataCovers | App.tsx:212-219 | on a record over the decade keys, at least `DECADES.length` urls are collected exactly when every decade is `done` with a non-empty url |
| Decades.AlbumRequestComplete | App.tsx:212-217 | a requested album carries one url per decade, each that decade's url |
| Decades.AlbumRefusedWhileIncomplete | App.tsx:219-222 | a decade that is missing, `Pending`, `Error` or has an empty url makes the download refuse |
| TimeLens.TakeNextKeepsConsistent | App.tsx:146-149 | a worker that settles and takes the head of a non-empty queue keeps the pool invariant |
| TimeLens.LeaveKeepsConsistent | App.tsx:146-152 | a worker that settles and finds the queue empty leaves, and keeps the pool invariant |
| TimeLens.DrainedRun | App.tsx:145-154 | Once every worker has left, the queue is empty and every label was dequeued. Each label was settled exactly once: no label twice, none missing, no other |
| TimeLens.App.constructor | App.tsx:55-61 | the initial state values |
| TimeLens.App.BeginUpload | App.tsx:64-72 | no file does nothing; a HEIC file raises `isConvertingImage` and goes to conversion; any other file is read directly |
| TimeLens.App.HeicConversionFailed | App.tsx:92-97 | a failed conversion lowers `isConvertingImage` |
| TimeLens.App.FinishUpload | App.tsx:84-105 | a finished read installs the photo, sets the phase to image-uploaded and clears the record; after a conversion it also lowers `isConvertingImage` |
| TimeLens.App.StartGeneration | App.tsx:111-125 | Without a photo (`null` or the empty string), nothing changes. Otherwise the record becomes one `Pending` entry per decade and no other key, loading starts, and the first decade is selected. A run starts with the queue `DECADES[2..]`, the two workers awaiting `1950s` and `1960s`, and their two requests issued |
| TimeLens.App.Settle | App.tsx:131-186 | a settled request, whether from a run (lines 131-140) or a regeneration (lines 177-186), replaces only its own decade's entry with the outcome's entry |
| TimeLens.App.FinishGeneration | App.tsx:154-157 | after all workers have finished, loading stops and the phase is results-shown |
| TimeLens.App.StartRegenerate | App.tsx:160-176 | Without a photo (`null` or the empty string), or while the decade is `Pending`, this is a no-op. Otherwise only that decade becomes `Pending` and one request with its prompt is issued |
| TimeLens.App.Reset | App.tsx:191-195 | the photo is removed, the record cleared and the phase set to idle |
| TimeLens.App.BeginAlbumDownload | App.tsx:209-224 | the compositor gets the urls only when the gate passes; on refusal `isDownloading` is already false again |
| TimeLens.App.EndAlbumDownload | App.tsx:236-238 | `isDownloading` is false after the album was saved or failed |
| TimeLens.Run.constructor | App.tsx:124-147 | the queue is a copy of `DECADES`, each worker takes one head, and the pool invariant holds |
| TimeLens.Run.Complete | App.tsx:127-152 | One worker's request settles. Only its decade's entry is merged. The worker then takes the next head and issues that decade's request, or leaves when the queue is empty. The pool invariant is kept. When the last worker leaves, loading stops and the phase is results-shown |
| TimeLens.Run.Drain | App.tsx:145-154 | From any valid state of a run over `DECADES` whose record is in step, the workers drain the queue under any completion order and any outcomes. Every label is then dequeued and settled exactly once, and each decade's entry is its own outcome. Loading stops and the phase is results-shown |
| TimeLens.GenerateAll | App.tsx:111-158 | Under any completion order and any outcomes, every decade is dequeued once, in order, and settled exactly once. A failure does not stop the others. At the end each decade's entry is its own outcome and none is `Pending`. Loading is off, the phase is results-shown and the first decade is selected. The photo and the download and conversion flags are as before |
| TimeLens.GenerateThenRegenerate | App.tsx:160-176 | after a full run, regenerating a decade issues its request with its prompt. That decade alone becomes `Pending`, and every other decade keeps its outcome |
| TimeLens.ResetDuringRun | App.tsx:131-157 | A reset does not stop a run. A later completion writes its decade back into the cleared record, and the run's end still shows results. The page has no reset button while generating (App.tsx:298, 369), so this path is the handler's behaviour and not one the page offers |
| TimeLens.ResetDuringRegenerate | App.tsx:177-195 | a reset on the results screen while a regeneration is in flight leaves no photo, yet the late response writes that decade's entry into the cleared record |

## Left out

- All JSX rendering, the card layout, `GHOST_POLAROIDS_CONFIG`, the random
  rotations, and the whole of `components/LandingPage.tsx`. These are
  presentation only.
- `handleDownloadIndividualImage`, because it only clicks a download link
  in the document.
- `generateDecadeImage`, `heic2any`, `createAlbumPage`, `FileReader`, and
  canvas encoding. These are foreign or I/O calls. Their results are
  parameters:
  - an `Outcome` for a generation call;
  - an `Option` for a read;
  - an oracle in `GenerateAll`.
- Asynchronous scheduling and React batching. Each continuation after an
  `await` runs atomically, and a state update applies at once.
  - `Run.Complete` fuses up to three continuations into one step:
    `processDecade`'s after `generateDecadeImage` (App.tsx:131-140), the
    worker's after `processDecade` (App.tsx:146-149), and, for the last
    worker, the one after `Promise.all` (App.tsx:156-157). Only microtasks
    run between them, and those commute with these steps, so every
    interleaving the source allows is matched by some order of whole steps.
  - `Promise.all(workers)` is the `finished` flag of a run.
  - Where the source reads a render snapshot, the model reads the current
    field: `uploadedImage` at App.tsx:112 and App.tsx:161, `generatedImages`
    at App.tsx:163 and App.tsx:212.
- The `if (decade)` test at App.tsx:148. It always passes, because the queue
  holds only non-empty labels.
- `alert`, `console.*` and the reset of the file input's value.
- Heic.Lower: only the ASCII letters A-Z are lower-cased. Unicode case
  mapping is not modelled.
- Resize.Resized: the sides and `maxSize` are non-negative integers, and the
  scaled side is the exact rational product rounded. The floating-point
  product `height * (maxSize / width)` may round differently at a .5
  boundary, and a negative `maxSize` is not covered.
- Resize.RoundDiv: it covers only a non-negative numerator and a positive
  denominator, which is all the resize uses.
- Cancelling in-flight requests on reset. The code has no cancellation, and
  `handleReset` leaves `isLoading` as it is, so the model does the same.
