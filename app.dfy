/** The state of the `App` component (App.tsx) and its event handlers, with
    each `async` handler split at its `await`s: the part before a suspension
    is one method, and each continuation after it is another, called when the
    awaited call settles. A generation run (`handleGenerateClick`) is an
    object of its own, `Run`, holding what that invocation's closure holds:
    the photo it captured, the shared `decadesQueue`, and what each of its
    two workers is waiting for. */
module TimeLens {
  import opened Wrappers
  import opened Decades
  import opened Prompts
  import opened Heic

  /** `concurrencyLimit`: the number of workers draining the queue. */
  const CONCURRENCY_LIMIT: nat := 2

  /** `appState`. */
  datatype Phase = Idle | ImageUploaded | Generating | ResultsShown

  /** One call `generateDecadeImage(photo, prompt)`. */
  datatype Request = Request(photo: string, prompt: string)

  /** What `handleImageUpload` does with the chosen file. */
  datatype UploadStep = NoFile | ConvertHeic | ReadDirect

  /** No label occurs twice. */
  predicate Distinct(s: seq<string>) {
    forall i, j | 0 <= i < j < |s| :: s[i] != s[j]
  }

  /** Some worker is awaiting `d`'s request. */
  predicate Awaits(slots: seq<Option<string>>, d: string) {
    exists w | 0 <= w < |slots| :: slots[w] == Some(d)
  }

  /** The number of workers still awaiting a request. */
  function BusyCount(slots: seq<Option<string>>): (n: nat)
    ensures n <= |slots|
  {
    if slots == [] then 0 else (if slots[0].Some? then 1 else 0) + BusyCount(slots[1..])
  }

  /** Giving worker `w` a new slot changes the busy count by the difference. */
  lemma {:induction false} BusyCountUpdate(slots: seq<Option<string>>, w: nat, slot: Option<string>)
    requires w < |slots|
    ensures BusyCount(slots[w := slot]) + (if slots[w].Some? then 1 else 0)
            == BusyCount(slots) + (if slot.Some? then 1 else 0)
  {
    var updated := slots[w := slot];
    if w == 0 {
      assert updated[1..] == slots[1..];
    } else {
      assert updated[1..] == slots[1..][w - 1 := slot];
      BusyCountUpdate(slots[1..], w - 1, slot);
    }
  }

  /** Every worker has left its loop. */
  predicate AllLeft(slots: seq<Option<string>>) {
    forall w | 0 <= w < |slots| :: slots[w].None?
  }

  /** With every worker idle none is busy. */
  lemma {:induction false} BusyCountIdle(slots: seq<Option<string>>)
    requires AllLeft(slots)
    ensures BusyCount(slots) == 0
  {
    if slots != [] {
      assert AllLeft(slots[1..]) by {
        forall v | 0 <= v < |slots[1..]| ensures slots[1..][v].None? {
          assert slots[1..][v] == slots[v + 1];
        }
      }
      BusyCountIdle(slots[1..]);
    }
  }

  /** The invariant of a worker pool draining `labels`, on its values (see
      `Run.Valid`). */
  ghost predicate Consistent(labels: seq<string>, queue: seq<string>, slots: seq<Option<string>>,
                             finished: bool, dequeued: seq<string>, settled: seq<string>)
  {
    && |slots| == CONCURRENCY_LIMIT
    && dequeued + queue == labels
    && Distinct(labels)
    && Distinct(settled)
    && |settled| + BusyCount(slots) == |dequeued|
    && (forall d | d in settled :: d in dequeued)
    && (forall v | 0 <= v < |slots| && slots[v].Some? :: slots[v].value in dequeued && slots[v].value !in settled)
    && (forall v, u | 0 <= v < u < |slots| && slots[v].Some? :: slots[u] != slots[v])
    && (forall d | d in dequeued :: d in settled || Awaits(slots, d))
    && (forall v | 0 <= v < |slots| && slots[v].None? :: queue == [])
    && (finished <==> AllLeft(slots))
  }

  /** The head of the queue has not been taken yet. */
  lemma ShiftKeepsLabels(labels: seq<string>, dequeued: seq<string>, queue: seq<string>)
    requires dequeued + queue == labels && queue != [] && Distinct(labels)
    ensures (dequeued + [queue[0]]) + queue[1..] == labels
    ensures queue[0] !in dequeued
  {
    assert queue == [queue[0]] + queue[1..];
    assert (dequeued + [queue[0]]) + queue[1..] == dequeued + ([queue[0]] + queue[1..]);
    assert labels[|dequeued|] == queue[0];
    forall i | 0 <= i < |dequeued| ensures dequeued[i] != queue[0] {
      assert labels[i] == dequeued[i];
    }
  }

  /** Settling worker `w`'s decade and giving the worker `slot` — the head
      of the queue, not taken before, or nothing — keeps the settled labels
      distinct and every taken label either settled or awaited. */
  lemma {:induction false} SettleKeepsAccount(settled: seq<string>, dequeued: seq<string>, dequeued': seq<string>,
                                              slots: seq<Option<string>>, w: nat, slot: Option<string>)
    requires w < |slots| && slots[w].Some?
    requires Distinct(settled) && |settled| + BusyCount(slots) == |dequeued|
    requires forall d | d in settled :: d in dequeued
    requires forall v | 0 <= v < |slots| && slots[v].Some? :: slots[v].value in dequeued && slots[v].value !in settled
    requires forall v, u | 0 <= v < u < |slots| && slots[v].Some? :: slots[u] != slots[v]
    requires forall d | d in dequeued :: d in settled || Awaits(slots, d)
    requires slot.None? ==> dequeued' == dequeued
    requires slot.Some? ==> dequeued' == dequeued + [slot.value] && slot.value !in dequeued
    ensures var settled', slots' := settled + [slots[w].value], slots[w := slot];
            && Distinct(settled') && |settled'| + BusyCount(slots') == |dequeued'|
            && (forall d | d in settled' :: d in dequeued')
            && (forall v | 0 <= v < |slots'| && slots'[v].Some? :: slots'[v].value in dequeued' && slots'[v].value !in settled')
            && (forall v, u | 0 <= v < u < |slots'| && slots'[v].Some? :: slots'[u] != slots'[v])
            && (forall d | d in dequeued' :: d in settled' || Awaits(slots', d))
  {
    var x := slots[w].value;
    var settled', slots' := settled + [x], slots[w := slot];
    BusyCountUpdate(slots, w, slot);
    assert forall d | d in settled' :: d in settled || d == x;
    forall i, j | 0 <= i < j < |settled'| ensures settled'[i] != settled'[j] {
      if j == |settled| {
        assert settled'[i] == settled[i];
      }
    }
    forall v | 0 <= v < |slots'| && slots'[v].Some?
      ensures slots'[v].value in dequeued' && slots'[v].value !in settled'
    {
      if v != w {
        assert slots[v] != slots[w];
      }
    }
    forall v, u | 0 <= v < u < |slots'| && slots'[v].Some? ensures slots'[u] != slots'[v] {
      if v != w && u != w {
        assert slots[u] != slots[v];
      }
    }
    forall d | d in dequeued' ensures d in settled' || Awaits(slots', d) {
      if d in dequeued {
        if d !in settled {
          var v :| 0 <= v < |slots| && slots[v] == Some(d);
          if v != w {
            assert slots'[v] == Some(d);
          }
        }
      } else {
        assert slots'[w] == Some(d);
      }
    }
  }

  /** A worker whose request settled takes the head of a non-empty queue. */
  lemma TakeNextKeepsConsistent(labels: seq<string>, queue: seq<string>, slots: seq<Option<string>>,
                                finished: bool, dequeued: seq<string>, settled: seq<string>, w: nat)
    requires Consistent(labels, queue, slots, finished, dequeued, settled)
    requires w < |slots| && slots[w].Some? && queue != []
    ensures Consistent(labels, queue[1..], slots[w := Some(queue[0])], finished,
                       dequeued + [queue[0]], settled + [slots[w].value])
  {
    var slots' := slots[w := Some(queue[0])];
    ShiftKeepsLabels(labels, dequeued, queue);
    SettleKeepsAccount(settled, dequeued, dequeued + [queue[0]], slots, w, Some(queue[0]));
    assert slots'[w].Some? && !AllLeft(slots');
  }

  /** A worker whose request settled finds the queue empty and leaves. */
  lemma LeaveKeepsConsistent(labels: seq<string>, slots: seq<Option<string>>, finished: bool,
                             dequeued: seq<string>, settled: seq<string>, w: nat)
    requires Consistent(labels, [], slots, finished, dequeued, settled)
    requires w < |slots| && slots[w].Some?
    ensures Consistent(labels, [], slots[w := None], AllLeft(slots[w := None]),
                       dequeued, settled + [slots[w].value])
  {
    SettleKeepsAccount(settled, dequeued, dequeued, slots, w, None);
  }

  /** While the run is unfinished one of the two workers is busy. */
  lemma SomeWorkerBusy(slots: seq<Option<string>>)
    requires |slots| == CONCURRENCY_LIMIT && !AllLeft(slots)
    ensures slots[0].Some? || slots[1].Some?
  {
  }

  /** Once every worker has left, the whole of `labels` was taken and
      settled, each label exactly once. */
  lemma DrainedRun(labels: seq<string>, queue: seq<string>, slots: seq<Option<string>>,
                   dequeued: seq<string>, settled: seq<string>)
    requires Consistent(labels, queue, slots, true, dequeued, settled)
    ensures queue == [] && dequeued == labels
    ensures Distinct(settled) && |settled| == |labels|
    ensures forall d :: d in settled <==> d in labels
  {
    assert slots[0].None?;
    BusyCountIdle(slots);
    forall d | d in labels ensures d in settled {
      assert d in dequeued;
      assert !Awaits(slots, d);
    }
  }

  /** The record while a run over `labels` is alone: each label's entry is
      its own outcome once settled and `Pending` before, and no other key. */
  ghost predicate RecordOf(images: map<string, Image>, labels: seq<string>, settled: seq<string>,
                           oracle: string -> Outcome) {
    && (forall d :: d in images <==> d in labels)
    && forall d | d in labels :: images[d] == if d in settled then Settled(oracle(d)) else Pending
  }

  /** The record a run starts from. */
  lemma PendingRecord(oracle: string -> Outcome)
    ensures RecordOf(AllPending(), DECADES, [], oracle)
  {
  }

  /** Merging one more settled label keeps the record in step. */
  lemma SettleKeepsRecord(images: map<string, Image>, labels: seq<string>, settled: seq<string>,
                          oracle: string -> Outcome, x: string)
    requires RecordOf(images, labels, settled, oracle) && x in labels
    ensures RecordOf(Merge(images, x, Settled(oracle(x))), labels, settled + [x], oracle)
  {
  }

  /** With every label settled, the record holds exactly their outcomes. */
  lemma SettledRecord(images: map<string, Image>, settled: seq<string>, oracle: string -> Outcome)
    requires RecordOf(images, DECADES, settled, oracle)
    requires forall d :: d in settled <==> d in DECADES
    ensures images == map d | d in DECADE_SET :: Settled(oracle(d))
  {
  }

  /** `uploadedImage` is truthy: present and not the empty string. */
  predicate HasPhoto(photo: Option<string>) {
    photo.Some? && photo.value != ""
  }

  class App {
    var uploadedImage: Option<string>
    var images: map<string, Image>
    var isLoading: bool
    var isDownloading: bool
    var appState: Phase
    var selectedDecade: string
    var isConvertingImage: bool

    /** The initial `useState` values. */
    constructor ()
      ensures uploadedImage == None && images == map[] && !isLoading && !isDownloading
      ensures appState == Idle && selectedDecade == DECADES[0] && !isConvertingImage
    {
      uploadedImage := None;
      images := map[];
      isLoading := false;
      isDownloading := false;
      appState := Idle;
      selectedDecade := DECADES[0];
      isConvertingImage := false;
    }

    /** `handleImageUpload` up to its first suspension: no file does nothing;
        a HEIC/HEIF file raises `isConvertingImage` and goes to `heic2any`;
        any other file goes straight to the reader. */
    method BeginUpload(file: Option<File>) returns (step: UploadStep)
      modifies this`isConvertingImage
      ensures step == (if file.None? then NoFile else if IsHeic(file.value) then ConvertHeic else ReadDirect)
      ensures isConvertingImage == (step == ConvertHeic || old(isConvertingImage))
    {
      if file.None? {
        step := NoFile;
      } else if IsHeic(file.value) {
        isConvertingImage := true;
        step := ConvertHeic;
      } else {
        step := ReadDirect;
      }
    }

    /** The `catch` after a failed HEIC conversion. */
    method HeicConversionFailed()
      modifies this`isConvertingImage
      ensures !isConvertingImage
    {
      isConvertingImage := false;
    }

    /** The reader's `onloadend`: the read result (null when the read failed)
        becomes the uploaded photo, the phase becomes 'image-uploaded' and the
        record is cleared; after a conversion `isConvertingImage` is lowered. */
    method FinishUpload(result: Option<string>, converted: bool)
      modifies this`uploadedImage, this`appState, this`images, this`isConvertingImage
      ensures uploadedImage == result && appState == ImageUploaded && images == map[]
      ensures isConvertingImage == (!converted && old(isConvertingImage))
    {
      uploadedImage := result;
      appState := ImageUploaded;
      images := map[];
      if converted {
        isConvertingImage := false;
      }
    }

    /** `handleGenerateClick` up to `await Promise.all(workers)`: without a
        photo (`null` or the empty string, both falsy) nothing happens; otherwise the record becomes one `Pending`
        entry per decade and no other key, and the two workers each take the
        head of the queue and issue its request. */
    method StartGeneration() returns (run: Run?, requests: seq<Request>)
      modifies this`isLoading, this`appState, this`selectedDecade, this`images
      ensures !HasPhoto(old(uploadedImage)) ==> run == null && requests == [] && unchanged(this)
      ensures HasPhoto(old(uploadedImage)) ==>
                && run != null && fresh(run) && run.Valid()
                && run.app == this && run.photo == uploadedImage.value && run.labels == DECADES
                && run.queue == DECADES[CONCURRENCY_LIMIT..] && run.dequeued == DECADES[..CONCURRENCY_LIMIT]
                && run.slots == [Some(DECADES[0]), Some(DECADES[1])] && run.settled == []
                && requests == [Request(run.photo, Prompt(DECADES[0])), Request(run.photo, Prompt(DECADES[1]))]
                && isLoading && appState == Generating && selectedDecade == DECADES[0]
                && images == AllPending()
    {
      if !HasPhoto(uploadedImage) {
        return null, [];
      }
      isLoading := true;
      appState := Generating;
      selectedDecade := DECADES[0];
      images := InitialImages(DECADES);
      run := new Run(this, uploadedImage.value);
      requests := [Request(run.photo, Prompt(DECADES[0])), Request(run.photo, Prompt(DECADES[1]))];
    }

    /** `processDecade` and `handleRegenerateDecade` after their request
        settles, whether or not the call succeeded: the result or the caught
        error is merged into `decade`'s entry and nothing else. No check is
        made that the request still belongs to the current photo. */
    method Settle(decade: string, outcome: Outcome)
      modifies this`images
      ensures images == Merge(old(images), decade, Settled(outcome))
    {
      images := images[decade := Settled(outcome)];
    }

    /** `handleGenerateClick` after `await Promise.all(workers)`: the record
        is not looked at. */
    method FinishGeneration()
      modifies this`isLoading, this`appState
      ensures !isLoading && appState == ResultsShown
    {
      isLoading := false;
      appState := ResultsShown;
    }

    /** `handleRegenerateDecade` up to its `await`: without a photo (`null`
        or the empty string), or while
        `decade`'s entry is `Pending`, nothing happens; otherwise only that
        entry becomes `Pending` and one request is issued. */
    method StartRegenerate(decade: string) returns (request: Option<Request>)
      modifies this`images
      ensures !HasPhoto(uploadedImage) || (decade in old(images) && old(images)[decade] == Pending) ==>
                request == None && images == old(images)
      ensures HasPhoto(uploadedImage) && !(decade in old(images) && old(images)[decade] == Pending) ==>
                && request == Some(Request(uploadedImage.value, Prompt(decade)))
                && images == Merge(old(images), decade, Pending)
    {
      if !HasPhoto(uploadedImage) {
        return None;
      }
      if decade in images && images[decade] == Pending {
        return None;
      }
      images := images[decade := Pending];
      request := Some(Request(uploadedImage.value, Prompt(decade)));
    }

    /** `handleReset`. Runs and regenerations still in flight are not
        stopped, and `isLoading` is left as it is. */
    method Reset()
      modifies this`uploadedImage, this`images, this`appState
      ensures uploadedImage == None && images == map[] && appState == Idle
    {
      uploadedImage := None;
      images := map[];
      appState := Idle;
    }

    /** `handleDownloadAlbum` up to `await createAlbumPage(imageData)`: the
        collected urls go to the compositor only when there are at least
        `DECADES.length` of them; on refusal `isDownloading` is lowered again
        at once. */
    method BeginAlbumDownload() returns (data: Option<map<string, string>>)
      modifies this`isDownloading
      ensures data == AlbumRequest(images)
      ensures isDownloading == data.Some?
    {
      isDownloading := true;
      var imageData := AlbumData(images);
      if |imageData| < |DECADES| {
        isDownloading := false;
        return None;
      }
      data := Some(imageData);
    }

    /** The `finally` of `handleDownloadAlbum`, after the album was saved or
        its composition failed. */
    method EndAlbumDownload()
      modifies this`isDownloading
      ensures !isDownloading
    {
      isDownloading := false;
    }
  }

  /** One invocation of `handleGenerateClick` while its workers run. */
  class Run {
    const app: App
    /** The `uploadedImage` the invocation's closure captured. */
    const photo: string
    /** The labels the queue was copied from. */
    ghost const labels: seq<string>
    /** `decadesQueue`. */
    var queue: seq<string>
    /** The decade each worker is awaiting, `None` once it left its loop. */
    var slots: seq<Option<string>>
    /** `Promise.all(workers)` has resolved. */
    var finished: bool
    /** The labels taken from the queue so far, in order. */
    ghost var dequeued: seq<string>
    /** The labels whose requests have settled, in order. */
    ghost var settled: seq<string>

    /** The queue is what is left of `labels` after the labels taken so far;
        no label has settled twice; every label taken is either settled or
        awaited by exactly one worker, and none is both;
        a worker leaves its loop only once the queue is empty; the run is
        finished exactly when every worker has left. */
    ghost predicate Valid()
      reads this
    {
      Consistent(labels, queue, slots, finished, dequeued, settled)
    }

    /** `[...DECADES]`, then each of the two workers enters its loop and
        takes the head of the queue. */
    constructor (app: App, photo: string)
      ensures this.app == app && this.photo == photo && labels == DECADES && Valid()
      ensures queue == DECADES[CONCURRENCY_LIMIT..] && dequeued == DECADES[..CONCURRENCY_LIMIT]
      ensures slots == [Some(DECADES[0]), Some(DECADES[1])] && settled == [] && !finished
    {
      this.app := app;
      this.photo := photo;
      labels := DECADES;
      queue := DECADES[CONCURRENCY_LIMIT..];
      dequeued := DECADES[..CONCURRENCY_LIMIT];
      slots := [Some(DECADES[0]), Some(DECADES[1])];
      settled := [];
      finished := false;
      assert DECADES[..CONCURRENCY_LIMIT] == [DECADES[0], DECADES[1]];
      DecadesDistinct();
      assert [Some(DECADES[0]), Some(DECADES[1])][1..] == [Some(DECADES[1])];
    }

    /** Worker `w`'s request settles: its decade's entry is merged into the
        record; the worker then takes the next label and issues its request,
        or, finding the queue empty, leaves its loop. When the last worker
        leaves, `isLoading` is lowered and the phase becomes 'results-shown'
        whatever happened to the record meanwhile. */
    method Complete(w: nat, outcome: Outcome) returns (next: Option<Request>)
      requires Valid() && w < |slots| && slots[w].Some?
      modifies this, app`images, app`isLoading, app`appState
      ensures Valid()
      ensures settled == old(settled) + [old(slots[w].value)]
      ensures app.images == Merge(old(app.images), old(slots[w].value), Settled(outcome))
      ensures old(queue) != [] ==>
                && queue == old(queue[1..]) && dequeued == old(dequeued) + [old(queue[0])]
                && slots == old(slots)[w := Some(old(queue[0]))]
                && next == Some(Request(photo, Prompt(old(queue[0]))))
      ensures old(queue) == [] ==>
                queue == [] && dequeued == old(dequeued) && slots == old(slots)[w := None] && next == None
      ensures finished ==> !app.isLoading && app.appState == ResultsShown
      ensures !finished ==> app.isLoading == old(app.isLoading) && app.appState == old(app.appState)
    {
      var decade := slots[w].value;
      app.Settle(decade, outcome);
      if queue != [] {
        var head := queue[0];
        TakeNextKeepsConsistent(labels, queue, slots, finished, dequeued, settled, w);
        queue, slots, dequeued, settled := queue[1..], slots[w := Some(head)], dequeued + [head], settled + [decade];
        next := Some(Request(photo, Prompt(head)));
      } else {
        LeaveKeepsConsistent(labels, slots, finished, dequeued, settled, w);
        slots, settled := slots[w := None], settled + [decade];
        finished := AllLeft(slots);
        next := None;
        if finished {
          app.FinishGeneration();
        }
      }
    }

    /** The two workers run until `Promise.all(workers)` resolves, with
        nothing else touching the record: at step `k` the request of worker
        `schedule[k] % 2` settles, or the other worker's when that one has
        already left; `oracle` stands in for `generateDecadeImage`. From any
        state of the run, every label is then taken and settled exactly
        once, and each decade's entry is its own outcome. */
    method Drain(oracle: string -> Outcome, schedule: seq<nat>)
      requires Valid() && labels == DECADES && RecordOf(app.images, labels, settled, oracle)
      requires finished ==> !app.isLoading && app.appState == ResultsShown
      modifies this, app`images, app`isLoading, app`appState
      ensures finished && queue == [] && dequeued == DECADES
      ensures Distinct(settled) && |settled| == |DECADES|
      ensures forall d :: d in settled <==> d in DECADES
      ensures app.images == map d | d in DECADE_SET :: Settled(oracle(d))
      ensures !app.isLoading && app.appState == ResultsShown
    {
      var step := 0;
      while !finished
        invariant Valid() && |settled| <= |labels|
        invariant RecordOf(app.images, labels, settled, oracle)
        invariant finished ==> !app.isLoading && app.appState == ResultsShown
        decreases |labels| - |settled|
      {
        var w := if step < |schedule| then schedule[step] % CONCURRENCY_LIMIT else 0;
        SomeWorkerBusy(slots);
        if slots[w].None? {
          w := if w == 0 then 1 else 0;
        }
        var x := slots[w].value;
        assert x in dequeued;
        SettleKeepsRecord(app.images, labels, settled, oracle, x);
        var _ := Complete(w, oracle(x));
        step := step + 1;
      }
      DrainedRun(labels, queue, slots, dequeued, settled);
      SettledRecord(app.images, settled, oracle);
    }
  }

  /** A whole generation run with nothing else touching the record:
      `handleGenerateClick` starts it, then its workers drain the queue in the
      order `schedule` picks (see `Run.Drain`). Every decade is taken from
      the queue exactly once, in order, and settled exactly once; a failed
      decade does not stop the others; the run ends with each decade's entry
      being its own outcome and none `Pending`. The photo, the download and
      conversion flags are left as they were, and the first decade is
      selected. */
  method GenerateAll(app: App, oracle: string -> Outcome, schedule: seq<nat>) returns (run: Run)
    requires HasPhoto(app.uploadedImage)
    modifies app
    ensures run.app == app && run.photo == old(app.uploadedImage.value)
    ensures run.finished && run.queue == [] && run.dequeued == DECADES
    ensures Distinct(run.settled) && |run.settled| == |DECADES|
    ensures forall d :: d in run.settled <==> d in DECADES
    ensures app.images == map d | d in DECADE_SET :: Settled(oracle(d))
    ensures !app.isLoading && app.appState == ResultsShown && app.selectedDecade == DECADES[0]
    ensures app.uploadedImage == old(app.uploadedImage) && app.isDownloading == old(app.isDownloading)
    ensures app.isConvertingImage == old(app.isConvertingImage)
  {
    ghost var photo, downloading, converting := app.uploadedImage, app.isDownloading, app.isConvertingImage;
    var started, _ := app.StartGeneration();
    assert app.uploadedImage == photo && app.isDownloading == downloading && app.isConvertingImage == converting;
    run := started;
    PendingRecord(oracle);
    run.Drain(oracle, schedule);
  }

  /** `handleReset` while a run is in flight, then one of its requests
      settles: nothing discards the late completion, so the cleared record
      gets that decade's entry back, and if it was the run's last request the
      phase becomes 'results-shown' although no photo is uploaded. The page
      shows its reset buttons only in 'image-uploaded' and 'results-shown',
      so this is what the handler does rather than a path the page offers;
      `ResetDuringRegenerate` is the reachable case. */
  method ResetDuringRun(app: App, run: Run, w: nat, outcome: Outcome)
    requires run.app == app && run.Valid() && w < |run.slots| && run.slots[w].Some?
    modifies app, run
    ensures app.uploadedImage == None
    ensures app.images == map[old(run.slots[w].value) := Settled(outcome)]
    ensures run.finished ==> app.appState == ResultsShown && !app.isLoading
    ensures !run.finished ==> app.appState == Idle
  {
    app.Reset();
    var _ := run.Complete(w, outcome);
  }

  /** A full run, then the user regenerates decade `d` from its card: the
      request is issued with `d`'s prompt, `d` alone is `Pending` again and
      every other decade keeps its outcome. */
  method GenerateThenRegenerate(app: App, oracle: string -> Outcome, schedule: seq<nat>, d: string)
    returns (request: Option<Request>)
    requires HasPhoto(app.uploadedImage) && d in DECADES
    modifies app
    ensures request == Some(Request(old(app.uploadedImage.value), Prompt(d)))
    ensures app.images == map e | e in DECADE_SET :: if e == d then Pending else Settled(oracle(e))
  {
    var _ := GenerateAll(app, oracle, schedule);
    request := app.StartRegenerate(d);
  }

  /** `handleReset` while a regeneration of `d` is in flight (the reset
      button is on the results screen): the request still settles and writes
      `d`'s entry into the cleared record, with no photo uploaded. */
  method ResetDuringRegenerate(app: App, d: string, outcome: Outcome) returns (request: Option<Request>)
    requires HasPhoto(app.uploadedImage) && !(d in app.images && app.images[d] == Pending)
    modifies app
    ensures request == Some(Request(old(app.uploadedImage.value), Prompt(d)))
    ensures app.uploadedImage == None && app.appState == Idle
    ensures app.images == map[d := Settled(outcome)]
  {
    request := app.StartRegenerate(d);
    app.Reset();
    app.Settle(d, outcome);
  }
}
