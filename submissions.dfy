/**
 * The older pipeline of the conversion tool (tools/convert/submissions.ts):
 * `parse` keeps every row, `persist` takes a submission's categories
 * straight from its category flags, and the per-submission body of
 * `downloadFiles` drives the file policy of tools/convert/files.ts.
 */
module Submissions {
  import opened Wrappers
  import opened NodePath
  import opened Seqs
  import opened Records
  import opened Files

  /** `parse`: every record of the CSV file becomes a row, rows without an id included. */
  function Parse(header: seq<string>, records: seq<seq<Cell>>): Result<seq<Row>, string> {
    Rows(header, records)
  }

  /** Unlike the newer `parse`, this one keeps every record, in file order. */
  lemma ParseKeepsEveryRow(header: seq<string>, records: seq<seq<Cell>>)
    requires forall i :: 0 <= i < |records| ==> |records[i]| == |header|
    ensures Parse(header, records).Ok?
    ensures |Parse(header, records).value| == |records|
    ensures forall i :: 0 <= i < |records| ==> Parse(header, records).value[i] == RowOf(Columns(header), records[i])
  {
    RowsShape(header, records);
  }

  /** The keys of the category table of tools/convert/categories.ts, in declaration order. */
  const CategoryKeys: seq<string> := [
    "advertising", "animation", "architecture", "branding", "packaging", "ceramics", "fashion",
    "costume", "film", "video", "marketing", "fine_art", "game", "graphic", "illustration",
    "jewellery", "communication", "photo", "product", "theatre", "sculpture", "textile", "contemporary"
  ]

  /** The category keys whose column is truthy on the row. */
  function Flagged(row: Row): seq<string> {
    Filter(CategoryKeys, k => Truthy(Get(row, k)))
  }

  /** `persist`: one record per submission, in order; the categories are its flagged category keys. */
  function Persist(subs: seq<RawSubmission>): (r: seq<Submission>)
    reads set i | 0 <= i < |subs| :: subs[i]
    ensures |r| == |subs|
    ensures forall i :: 0 <= i < |subs| ==> r[i] == Record(subs[i], Flagged(subs[i].row))
  {
    seq(|subs|, i requires 0 <= i < |subs| reads subs => Record(subs[i], Flagged(subs[i].row)))
  }

  lemma CategoryKeysDistinct()
    ensures NoDuplicates(CategoryKeys)
  {
    forall i, j | 0 <= i < j < |CategoryKeys| ensures CategoryKeys[i] != CategoryKeys[j] {
      var a, b := CategoryKeys[i], CategoryKeys[j];
      assert |a| != |b| || a[0] != b[0] || a[1] != b[1] || a[2] != b[2];
    }
  }

  /**
   * A persisted record's categories are exactly the category keys flagged
   * on the submission, each once, in the declaration order of the table.
   */
  lemma PersistCategories(subs: seq<RawSubmission>, i: nat, x: string)
    requires i < |subs|
    ensures var cats := Persist(subs)[i].categories;
      && (x in cats <==> x in CategoryKeys && Truthy(Get(subs[i].row, x)))
      && NoDuplicates(cats)
      && (forall y :: y in cats ==> y in CategoryKeys)
      && forall a, b :: 0 <= a < b < |cats| ==> IndexIn(CategoryKeys, cats[a]) < IndexIn(CategoryKeys, cats[b])
  {
    var row := subs[i].row;
    CategoryKeysDistinct();
    FilterMembership(CategoryKeys, k => Truthy(Get(row, k)), x);
    FilterNoDuplicates(CategoryKeys, k => Truthy(Get(row, k)));
    FilterOrder(CategoryKeys, k => Truthy(Get(row, k)));
  }

  /** A submission without any flag gets no category. */
  lemma UnflaggedHasNoCategories(subs: seq<RawSubmission>, i: nat)
    requires i < |subs|
    requires forall k :: k in CategoryKeys ==> !Truthy(Get(subs[i].row, k))
    ensures Persist(subs)[i].categories == []
  {
    var cats := Persist(subs)[i].categories;
    if |cats| > 0 {
      PersistCategories(subs, i, cats[0]);
    }
  }

  /**
   * `downloadFile`, then `convertPdf` when the download is a PDF: what the
   * download resolved to, the path handed on to type correction, and the
   * file system left behind.
   */
  function Located(root: string, s: RawSubmission, overrides: seq<string>, fetch: FetchOutcome, pdf: PdfOutcome,
                   fs: map<string, nat>): (Result<string, string>, Option<string>, map<string, nat>)
  {
    var d := Downloaded(PlanAcquisition(root, s.Id(), s.ImageRgb(), overrides, fs), fetch, fs);
    if d.0.Err? then (d.0, None, d.1)
    else if ExtName(d.0.value) == ".pdf" then
      var c := PdfConverted(d.0.value, pdf, d.1);
      (d.0, Some(c.0), c.1)
    else (d.0, Some(d.0.value), d.1)
  }

  /**
   * `Located`, then `correctFileType` on the path handed on: what the
   * download resolved to, the corrected path and mime, and the file system.
   */
  function Acquired(root: string, s: RawSubmission, overrides: seq<string>, fetch: FetchOutcome, pdf: PdfOutcome,
                    sniff: SniffOutcome, fs: map<string, nat>)
    : (Result<string, string>, Option<(string, Option<string>)>, map<string, nat>)
  {
    var l := Located(root, s, overrides, fetch, pdf, fs);
    if l.1.None? then (l.0, None, l.2)
    else
      var c := Corrected(l.1.value, sniff, l.2);
      (l.0, Some((c.0, c.1)), c.2)
  }

  /**
   * A path is handed on exactly when the download resolved, and it is the
   * downloaded path itself unless that is a PDF.
   */
  lemma LocatedOutcome(root: string, s: RawSubmission, overrides: seq<string>, fetch: FetchOutcome, pdf: PdfOutcome,
                       fs: map<string, nat>)
    ensures var r := Located(root, s, overrides, fetch, pdf, fs);
      && (r.0.Ok? <==> r.1.Some?)
      && (r.0.Ok? && ExtName(r.0.value) != ".pdf" ==> r.1 == Some(r.0.value))
  {
  }

  /**
   * Type correction runs exactly when the download resolved, and a mime
   * it stores is the detected one.
   */
  lemma AcquiredOutcome(root: string, s: RawSubmission, overrides: seq<string>, fetch: FetchOutcome, pdf: PdfOutcome,
                        sniff: SniffOutcome, fs: map<string, nat>)
    ensures var r := Acquired(root, s, overrides, fetch, pdf, sniff, fs);
      && (r.0.Ok? <==> r.1.Some?)
      && (r.1.Some? && r.1.value.1.Some? ==> sniff.Detected? && r.1.value.1 == Some(sniff.mime))
  {
    var l := Located(root, s, overrides, fetch, pdf, fs);
    LocatedOutcome(root, s, overrides, fetch, pdf, fs);
    if l.1.Some? {
      CorrectedOutcome(l.1.value, sniff, l.2);
    }
  }

  /** Without an image URL nothing is downloaded, nothing is corrected and no file changes. */
  lemma NoUrlAcquiresNothing(root: string, s: RawSubmission, overrides: seq<string>, fetch: FetchOutcome,
                             pdf: PdfOutcome, sniff: SniffOutcome, fs: map<string, nat>)
    requires !Truthy(s.ImageRgb())
    ensures Acquired(root, s, overrides, fetch, pdf, sniff, fs) == (Err(MissingUrlMessage), None, fs)
  {
    assert PlanAcquisition(root, s.Id(), s.ImageRgb(), overrides, fs) == NoUrl;
  }

  /**
   * A download the network fails ends the submission's body with the
   * transport error: the partly written file is removed, nothing is
   * corrected, and no other file changes.
   */
  lemma FailedFetchAcquiresNothing(root: string, s: RawSubmission, overrides: seq<string>, fetch: FetchOutcome,
                                   pdf: PdfOutcome, sniff: SniffOutcome, fs: map<string, nat>)
    requires PlanAcquisition(root, s.Id(), s.ImageRgb(), overrides, fs).Fetch?
    requires fetch.TransportError?
    ensures var dest := PlanAcquisition(root, s.Id(), s.ImageRgb(), overrides, fs).path;
      Acquired(root, s, overrides, fetch, pdf, sniff, fs) == (Err(fetch.message), None, fs - {dest})
  {
    var plan := PlanAcquisition(root, s.Id(), s.ImageRgb(), overrides, fs);
    var d := Downloaded(plan, fetch, fs);
    assert d == (Err(fetch.message), fs - {plan.path});
    assert Located(root, s, overrides, fetch, pdf, fs) == (d.0, None, d.1);
  }

  /**
   * A downloaded PDF whose first page the converter wrote is replaced, for
   * type correction, by that page image moved under `overrides`.
   */
  lemma PdfPageHandedOn(root: string, s: RawSubmission, overrides: seq<string>, fetch: FetchOutcome,
                        pdf: PdfOutcome, fs: map<string, nat>)
    requires var d := Downloaded(PlanAcquisition(root, s.Id(), s.ImageRgb(), overrides, fs), fetch, fs);
      d.0.Ok? && ExtName(d.0.value) == ".pdf"
    requires pdf.PageConverted? && pdf.written.Some?
    ensures var d := Downloaded(PlanAcquisition(root, s.Id(), s.ImageRgb(), overrides, fs), fetch, fs);
      var l := Located(root, s, overrides, fetch, pdf, fs);
      && l.1 == Some(PdfOverridePath(d.0.value, pdf.pagePath))
      && l.1.value in l.2 && l.2[l.1.value] == pdf.written.value
  {
  }

  /** Where the image branch stores the thumbnail of each size. */
  function ThumbDestinations(root: string, filePath: string, sizes: seq<nat>): (d: seq<string>)
    ensures |d| == |sizes|
  {
    if sizes == [] then [] else [ThumbDestination(root, filePath, sizes[0])] + ThumbDestinations(root, filePath, sizes[1..])
  }

  /** The destination at index `k` is the thumbnail destination of the size at index `k`. */
  lemma {:induction false} ThumbDestinationsAt(root: string, filePath: string, sizes: seq<nat>, k: nat)
    requires k < |sizes|
    ensures ThumbDestinations(root, filePath, sizes)[k] == ThumbDestination(root, filePath, sizes[k])
  {
    if k > 0 {
      ThumbDestinationsAt(root, filePath, sizes[1..], k - 1);
    }
  }

  /**
   * The `resizeImage` calls from index `i` on, in order, until one
   * rejects, with thumbnail destinations `dests`: their results, the file
   * system they leave, and the missing images they record.
   */
  function ResizeRun(dests: seq<string>, src: ResizeSource, sizes: seq<nat>, renders: seq<RenderOutcome>,
                     fs: map<string, nat>, i: nat): (run: (seq<Result<string, string>>, map<string, nat>, seq<MissingImage>))
    requires |dests| == |sizes| && |renders| == |sizes| && i <= |sizes|
    ensures |run.0| <= |sizes| - i
    ensures i < |sizes| ==> 0 < |run.0|
    decreases |sizes| - i
  {
    if i == |sizes| then ([], fs, [])
    else
      var step := Resized(dests[i], src, sizes[i], renders[i], fs);
      if step.result.Err? then ([step.result], step.fs, step.recorded)
      else
        var rest := ResizeRun(dests, src, sizes, renders, step.fs, i + 1);
        ([step.result] + rest.0, rest.1, rest.2)
  }

  /** The first resize of a run: its result heads the run, and a rejection ends it. */
  lemma RunHead(dests: seq<string>, src: ResizeSource, sizes: seq<nat>,
                renders: seq<RenderOutcome>, fs: map<string, nat>, i: nat)
    requires |dests| == |sizes| && |renders| == |sizes| && i < |sizes|
    ensures var step := Resized(dests[i], src, sizes[i], renders[i], fs);
      var run := ResizeRun(dests, src, sizes, renders, fs, i);
      step.result.Err? ==> run.0 == [step.result] && run.1 == step.fs && run.2 == step.recorded
    ensures var step := Resized(dests[i], src, sizes[i], renders[i], fs);
      var run := ResizeRun(dests, src, sizes, renders, fs, i);
      var rest := ResizeRun(dests, src, sizes, renders, step.fs, i + 1);
      step.result.Ok? ==> run.0 == [step.result] + rest.0 && run.1 == rest.1 && run.2 == rest.2
  {
  }

  /**
   * One resize of a run, seen from the results before it: a rejection
   * ends the whole run there, and a resolved resize leaves the rest of
   * the run to the sizes after it.
   */
  lemma RunStep(dests: seq<string>, src: ResizeSource, sizes: seq<nat>,
                renders: seq<RenderOutcome>, fs: map<string, nat>, i: nat,
                done: seq<Result<string, string>>, whole: (seq<Result<string, string>>, map<string, nat>, seq<MissingImage>))
    requires |dests| == |sizes| && |renders| == |sizes| && i < |sizes|
    requires var run := ResizeRun(dests, src, sizes, renders, fs, i);
      done + run.0 == whole.0 && run.1 == whole.1 && run.2 == whole.2
    ensures var step := Resized(dests[i], src, sizes[i], renders[i], fs);
      step.result.Err? ==> done + [step.result] == whole.0 && step.fs == whole.1 && step.recorded == whole.2
    ensures var step := Resized(dests[i], src, sizes[i], renders[i], fs);
      var rest := ResizeRun(dests, src, sizes, renders, step.fs, i + 1);
      step.result.Ok? ==>
        && step.recorded == []
        && (done + [step.result]) + rest.0 == whole.0 && rest.1 == whole.1 && rest.2 == whole.2
  {
    var step := Resized(dests[i], src, sizes[i], renders[i], fs);
    ResizedOutcome(dests[i], src, sizes[i], renders[i], fs);
    RunHead(dests, src, sizes, renders, fs, i);
    if step.result.Ok? {
      var rest := ResizeRun(dests, src, sizes, renders, step.fs, i + 1);
      assert (done + [step.result]) + rest.0 == done + ([step.result] + rest.0);
    }
  }

  /** When every render succeeds, the run makes one resize per size. */
  lemma {:induction false} AllRenderedLength(dests: seq<string>, src: ResizeSource, sizes: seq<nat>,
                                             renders: seq<RenderOutcome>, fs: map<string, nat>, i: nat)
    requires |dests| == |sizes| && |renders| == |sizes| && i <= |sizes|
    requires forall k :: i <= k < |sizes| ==> renders[k].Rendered?
    ensures |ResizeRun(dests, src, sizes, renders, fs, i).0| == |sizes| - i
    decreases |sizes| - i
  {
    if i < |sizes| {
      var step := Resized(dests[i], src, sizes[i], renders[i], fs);
      ResizedOutcome(dests[i], src, sizes[i], renders[i], fs);
      RunHead(dests, src, sizes, renders, fs, i);
      AllRenderedLength(dests, src, sizes, renders, step.fs, i + 1);
    }
  }

  /** When every render succeeds, every resize resolves and nothing is recorded missing. */
  lemma {:induction false} AllRendered(dests: seq<string>, src: ResizeSource, sizes: seq<nat>,
                                       renders: seq<RenderOutcome>, fs: map<string, nat>, i: nat)
    requires |dests| == |sizes| && |renders| == |sizes| && i <= |sizes|
    requires forall k :: i <= k < |sizes| ==> renders[k].Rendered?
    ensures forall k :: 0 <= k < |ResizeRun(dests, src, sizes, renders, fs, i).0| ==>
      ResizeRun(dests, src, sizes, renders, fs, i).0[k].Ok?
    ensures ResizeRun(dests, src, sizes, renders, fs, i).2 == []
    decreases |sizes| - i
  {
    if i < |sizes| {
      var step := Resized(dests[i], src, sizes[i], renders[i], fs);
      ResizedOutcome(dests[i], src, sizes[i], renders[i], fs);
      RunHead(dests, src, sizes, renders, fs, i);
      AllRendered(dests, src, sizes, renders, step.fs, i + 1);
    }
  }

  /** When every render succeeds, every thumbnail of the run is stored. */
  lemma {:induction false} AllRenderedStored(dests: seq<string>, src: ResizeSource, sizes: seq<nat>,
                                             renders: seq<RenderOutcome>, fs: map<string, nat>, i: nat)
    requires |dests| == |sizes| && |renders| == |sizes| && i <= |sizes|
    requires forall k :: i <= k < |sizes| ==> renders[k].Rendered?
    ensures forall k :: i <= k < |sizes| ==> dests[k] in ResizeRun(dests, src, sizes, renders, fs, i).1
    decreases |sizes| - i
  {
    if i < |sizes| {
      var step := Resized(dests[i], src, sizes[i], renders[i], fs);
      ResizedOutcome(dests[i], src, sizes[i], renders[i], fs);
      RunHead(dests, src, sizes, renders, fs, i);
      AllRenderedStored(dests, src, sizes, renders, step.fs, i + 1);
      RunKeepsFiles(dests, src, sizes, renders, step.fs, i + 1);
    }
  }

  /** A run of resizes only ever adds files. */
  lemma {:induction false} RunKeepsFiles(dests: seq<string>, src: ResizeSource,
                                         sizes: seq<nat>, renders: seq<RenderOutcome>, fs: map<string, nat>, i: nat)
    requires |dests| == |sizes| && |renders| == |sizes| && i <= |sizes|
    ensures fs.Keys <= ResizeRun(dests, src, sizes, renders, fs, i).1.Keys
    decreases |sizes| - i
  {
    if i < |sizes| {
      var step := Resized(dests[i], src, sizes[i], renders[i], fs);
      ResizedOutcome(dests[i], src, sizes[i], renders[i], fs);
      RunHead(dests, src, sizes, renders, fs, i);
      if step.result.Ok? {
        RunKeepsFiles(dests, src, sizes, renders, step.fs, i + 1);
      }
    }
  }

  /** Putting a resolved result in front keeps every result but the last resolved. */
  lemma OkPrefix(head: Result<string, string>, rest: seq<Result<string, string>>)
    requires head.Ok? && 0 < |rest|
    requires forall k :: 0 <= k < |rest| - 1 ==> rest[k].Ok?
    ensures forall k :: 0 <= k < |[head] + rest| - 1 ==> ([head] + rest)[k].Ok?
    ensures ([head] + rest)[|rest|] == rest[|rest| - 1]
  {
  }

  /**
   * A run makes at least one resize; every resize before the last one
   * resolved, and a run shorter than the sizes left ends in a rejection.
   */
  lemma {:induction false} RunResults(dests: seq<string>, src: ResizeSource, sizes: seq<nat>,
                                      renders: seq<RenderOutcome>, fs: map<string, nat>, i: nat)
    requires |dests| == |sizes| && |renders| == |sizes| && i < |sizes|
    ensures var run := ResizeRun(dests, src, sizes, renders, fs, i);
      forall k :: 0 <= k < |run.0| - 1 ==> run.0[k].Ok?
    ensures var run := ResizeRun(dests, src, sizes, renders, fs, i);
      |run.0| < |sizes| - i ==> run.0[|run.0| - 1].Err?
    decreases |sizes| - i
  {
    var step := Resized(dests[i], src, sizes[i], renders[i], fs);
    RunHead(dests, src, sizes, renders, fs, i);
    if step.result.Ok? && i + 1 < |sizes| {
      var rest := ResizeRun(dests, src, sizes, renders, step.fs, i + 1).0;
      RunResults(dests, src, sizes, renders, step.fs, i + 1);
      OkPrefix(step.result, rest);
    }
  }

  /**
   * Every resize of a run before the last one stored its thumbnail, and so
   * did the last one when it resolved.
   */
  lemma {:induction false} RunStores(dests: seq<string>, src: ResizeSource, sizes: seq<nat>,
                                     renders: seq<RenderOutcome>, fs: map<string, nat>, i: nat)
    requires |dests| == |sizes| && |renders| == |sizes| && i < |sizes|
    ensures var run := ResizeRun(dests, src, sizes, renders, fs, i);
      forall k :: i <= k < i + |run.0| - 1 ==> dests[k] in run.1
    ensures var run := ResizeRun(dests, src, sizes, renders, fs, i);
      run.0[|run.0| - 1].Ok? ==> dests[i + |run.0| - 1] in run.1
    decreases |sizes| - i
  {
    var step := Resized(dests[i], src, sizes[i], renders[i], fs);
    ResizedOutcome(dests[i], src, sizes[i], renders[i], fs);
    RunHead(dests, src, sizes, renders, fs, i);
    if step.result.Ok? && i + 1 < |sizes| {
      RunStores(dests, src, sizes, renders, step.fs, i + 1);
      RunKeepsFiles(dests, src, sizes, renders, step.fs, i + 1);
      var run := ResizeRun(dests, src, sizes, renders, fs, i).0;
      var rest := ResizeRun(dests, src, sizes, renders, step.fs, i + 1).0;
      assert run[|run| - 1] == rest[|rest| - 1];
    }
  }

  /** A run records a missing image only when it ends in a rejection, and then just that one. */
  lemma {:induction false} RunRecords(dests: seq<string>, src: ResizeSource, sizes: seq<nat>,
                                      renders: seq<RenderOutcome>, fs: map<string, nat>, i: nat)
    requires |dests| == |sizes| && |renders| == |sizes| && i < |sizes|
    ensures var run := ResizeRun(dests, src, sizes, renders, fs, i);
      run.0[|run.0| - 1].Ok? ==> run.2 == []
    ensures var run := ResizeRun(dests, src, sizes, renders, fs, i);
      run.0[|run.0| - 1].Err? ==> run.2 == [src.missing.(reason := run.0[|run.0| - 1].error)]
    decreases |sizes| - i
  {
    var step := Resized(dests[i], src, sizes[i], renders[i], fs);
    ResizedOutcome(dests[i], src, sizes[i], renders[i], fs);
    RunHead(dests, src, sizes, renders, fs, i);
    if step.result.Ok? && i + 1 < |sizes| {
      RunRecords(dests, src, sizes, renders, step.fs, i + 1);
      var run := ResizeRun(dests, src, sizes, renders, fs, i).0;
      var rest := ResizeRun(dests, src, sizes, renders, step.fs, i + 1).0;
      assert run[|run| - 1] == rest[|rest| - 1];
    }
  }

  /**
   * With no thumbnail of that size stored yet, the first failed render
   * ends the run after the renders before it, with that render's message
   * as the last result and as the one missing image recorded.
   */
  lemma {:induction false} FirstFailedRender(dests: seq<string>, src: ResizeSource, sizes: seq<nat>,
                                             renders: seq<RenderOutcome>, fs: map<string, nat>, i: nat, k: nat)
    requires |dests| == |sizes| && |renders| == |sizes| && i <= k < |sizes|
    requires forall j :: i <= j < k ==> renders[j].Rendered?
    requires renders[k].RenderFailed?
    requires dests[k] !in fs
    requires forall j :: i <= j < k ==> dests[j] != dests[k]
    ensures |ResizeRun(dests, src, sizes, renders, fs, i).0| == k - i + 1
    ensures ResizeRun(dests, src, sizes, renders, fs, i).0[k - i] == Err(renders[k].message)
    ensures ResizeRun(dests, src, sizes, renders, fs, i).2 == [src.missing.(reason := renders[k].message)]
    decreases k - i, 1
  {
    if i == k {
      ResizedOutcome(dests[i], src, sizes[i], renders[i], fs);
      RunHead(dests, src, sizes, renders, fs, i);
    } else {
      RenderedBeforeFailure(dests, src, sizes, renders, fs, i, k);
    }
  }

  /** A render before the failing one stores its thumbnail and hands the rest of the run on. */
  lemma {:induction false} RenderedBeforeFailure(dests: seq<string>, src: ResizeSource, sizes: seq<nat>,
                                                 renders: seq<RenderOutcome>, fs: map<string, nat>, i: nat, k: nat)
    requires |dests| == |sizes| && |renders| == |sizes| && i < k < |sizes|
    requires forall j :: i <= j < k ==> renders[j].Rendered?
    requires renders[k].RenderFailed?
    requires dests[k] !in fs
    requires forall j :: i <= j < k ==> dests[j] != dests[k]
    ensures |ResizeRun(dests, src, sizes, renders, fs, i).0| == k - i + 1
    ensures ResizeRun(dests, src, sizes, renders, fs, i).0[k - i] == Err(renders[k].message)
    ensures ResizeRun(dests, src, sizes, renders, fs, i).2 == [src.missing.(reason := renders[k].message)]
    decreases k - i, 0
  {
    var step := Resized(dests[i], src, sizes[i], renders[i], fs);
    assert step.result.Ok? && step.fs.Keys <= fs.Keys + {dests[i]} by {
      ResizedOutcome(dests[i], src, sizes[i], renders[i], fs);
    }
    var run := ResizeRun(dests, src, sizes, renders, fs, i);
    var rest := ResizeRun(dests, src, sizes, renders, step.fs, i + 1);
    assert run.0 == [step.result] + rest.0 && run.2 == rest.2 by {
      RunHead(dests, src, sizes, renders, fs, i);
    }
    FirstFailedRender(dests, src, sizes, renders, step.fs, i + 1, k);
    assert run.0[k - i] == rest.0[k - i - 1];
  }

  /** Whether every thumbnail of the image branch was produced. */
  predicate AllThumbnails(thumbnails: seq<Result<string, string>>) {
    |thumbnails| == |ThumbSizes| && forall i :: 0 <= i < |thumbnails| ==> thumbnails[i].Ok?
  }

  /**
   * The `downloadFiles` body for one submission.  It returns what the
   * download resolved to, the corrected path and mime once type correction
   * ran, and the results of the resizes it started, which stop at the
   * first rejection.  Any rejection ends the body and is only logged, so
   * the submission is always handed back.
   */
  method DownloadOne(w: Workspace, s: RawSubmission, overrides: seq<string>, fetch: FetchOutcome,
                     pdf: PdfOutcome, sniff: SniffOutcome, renders: seq<RenderOutcome>,
                     palette: Result<string, string>)
    returns (downloaded: Result<string, string>, corrected: Option<(string, Option<string>)>,
             thumbnails: seq<Result<string, string>>)
    requires |renders| == |ThumbSizes|
    modifies w`fs, w`missingImages, s`mime, s`filePath, s`thumbPath, s`colour
    ensures downloaded.Ok? <==> corrected.Some?
    ensures downloaded.Err? ==> s.mime == old(s.mime) && s.filePath == old(s.filePath)
    ensures corrected.Some? ==>
      && s.mime == corrected.value.1
      && s.filePath == (if corrected.value.0 != "" then Some(corrected.value.0) else old(s.filePath))
    ensures |thumbnails| > 0 <==> corrected.Some? && corrected.value.0 != "" && IsImage(corrected.value.0)
    ensures |thumbnails| == 0 ==>
      && w.missingImages == old(w.missingImages)
      && s.colour == old(s.colour) && s.thumbPath == old(s.thumbPath)
    ensures |thumbnails| > 0 ==> ThumbnailsTaken(w, s, corrected.value.0, thumbnails, palette,
                                                 old(w.missingImages), old(s.colour), old(s.thumbPath))
    ensures var a := Acquired(w.root, s, overrides, fetch, pdf, sniff, old(w.fs));
      && downloaded == a.0 && corrected == a.1
      && (|thumbnails| == 0 ==> w.fs == a.2)
      && (|thumbnails| > 0 ==>
            var run := ResizeRun(ThumbDestinations(w.root, corrected.value.0, ThumbSizes), SourceOf(s, corrected.value.0, ThumbQuality), ThumbSizes, renders, a.2, 0);
            thumbnails == run.0 && w.fs == run.1)
  {
    downloaded, corrected := Acquire(w, s, overrides, fetch, pdf, sniff);
    ghost var acquired := w.fs;
    assert (downloaded, corrected, acquired) == Acquired(w.root, s, overrides, fetch, pdf, sniff, old(w.fs));
    thumbnails := Illustrate(w, s, corrected, renders, palette);
    assert |thumbnails| == 0 ==> w.fs == acquired;
  }

  /** The image branch, taken when type correction left a non-empty image path. */
  method Illustrate(w: Workspace, s: RawSubmission, corrected: Option<(string, Option<string>)>,
                    renders: seq<RenderOutcome>, palette: Result<string, string>)
    returns (thumbnails: seq<Result<string, string>>)
    requires |renders| == |ThumbSizes|
    modifies w`fs, w`missingImages, s`thumbPath, s`colour
    ensures |thumbnails| > 0 <==> corrected.Some? && corrected.value.0 != "" && IsImage(corrected.value.0)
    ensures |thumbnails| == 0 ==>
      && w.missingImages == old(w.missingImages)
      && s.colour == old(s.colour) && s.thumbPath == old(s.thumbPath)
    ensures |thumbnails| > 0 ==> ThumbnailsTaken(w, s, corrected.value.0, thumbnails, palette,
                                                 old(w.missingImages), old(s.colour), old(s.thumbPath))
    ensures |thumbnails| == 0 ==> w.fs == old(w.fs)
    ensures |thumbnails| > 0 ==>
      var run := ResizeRun(ThumbDestinations(w.root, corrected.value.0, ThumbSizes), SourceOf(s, corrected.value.0, ThumbQuality), ThumbSizes, renders, old(w.fs), 0);
      thumbnails == run.0 && w.fs == run.1 && w.missingImages == old(w.missingImages) + run.2
  {
    thumbnails := [];
    if corrected.Some? && corrected.value.0 != "" && IsImage(corrected.value.0) {
      thumbnails := ImageBranch(w, s, corrected.value.0, renders, palette);
    }
  }

  /**
   * `downloadFile`, `convertPdf` when the file is a PDF, and
   * `correctFileType`; the corrected mime is stored always and the
   * corrected path only when it is not empty.
   */
  method Acquire(w: Workspace, s: RawSubmission, overrides: seq<string>, fetch: FetchOutcome,
                 pdf: PdfOutcome, sniff: SniffOutcome)
    returns (downloaded: Result<string, string>, corrected: Option<(string, Option<string>)>)
    modifies w`fs, s`mime, s`filePath
    ensures downloaded.Ok? <==> corrected.Some?
    ensures downloaded.Err? ==> s.mime == old(s.mime) && s.filePath == old(s.filePath)
    ensures corrected.Some? ==>
      && s.mime == corrected.value.1
      && s.filePath == (if corrected.value.0 != "" then Some(corrected.value.0) else old(s.filePath))
    ensures (downloaded, corrected, w.fs) == Acquired(w.root, s, overrides, fetch, pdf, sniff, old(w.fs))
  {
    var located;
    downloaded, located := Locate(w, s, overrides, fetch, pdf);
    corrected := Correct(w, s, located, sniff);
    AcquiredOutcome(w.root, s, overrides, fetch, pdf, sniff, old(w.fs));
  }

  /**
   * `correctFileType` on the path handed on, if any: the corrected mime is
   * stored always and the corrected path only when it is not empty.
   */
  method Correct(w: Workspace, s: RawSubmission, located: Option<string>, sniff: SniffOutcome)
    returns (corrected: Option<(string, Option<string>)>)
    modifies w`fs, s`mime, s`filePath
    ensures located.None? ==>
      corrected.None? && w.fs == old(w.fs) && s.mime == old(s.mime) && s.filePath == old(s.filePath)
    ensures located.Some? ==>
      var c := Corrected(located.value, sniff, old(w.fs));
      && corrected == Some((c.0, c.1)) && w.fs == c.2
      && s.mime == c.1 && s.filePath == (if c.0 != "" then Some(c.0) else old(s.filePath))
  {
    corrected := None;
    if located.Some? {
      var filePath, mime := w.CorrectFileType(located.value, sniff);
      corrected := Some((filePath, mime));
      s.mime := mime;
      if filePath != "" {
        s.filePath := Some(filePath);
      }
    }
  }

  /** `downloadFile`, then `convertPdf` when the downloaded file is a PDF. */
  method Locate(w: Workspace, s: RawSubmission, overrides: seq<string>, fetch: FetchOutcome, pdf: PdfOutcome)
    returns (downloaded: Result<string, string>, located: Option<string>)
    modifies w`fs
    ensures downloaded.Ok? <==> located.Some?
    ensures downloaded.Ok? && ExtName(downloaded.value) != ".pdf" ==> located == Some(downloaded.value)
    ensures (downloaded, located, w.fs) == Located(w.root, s, overrides, fetch, pdf, old(w.fs))
  {
    var fetched;
    downloaded, fetched := w.DownloadFile(s, overrides, fetch);
    located := None;
    if downloaded.Ok? {
      var filePath := downloaded.value;
      if ExtName(filePath) == ".pdf" {
        filePath := w.ConvertPdf(filePath, pdf);
      }
      located := Some(filePath);
    }
    LocatedOutcome(w.root, s, overrides, fetch, pdf, old(w.fs));
  }

  /**
   * What a run of resizes leaves behind: it stops at the first rejection,
   * which alone records a missing image after `missing0`, and every
   * resize before it stored its thumbnail.
   */
  predicate ResizesTaken(thumbnails: seq<Result<string, string>>, fs: map<string, nat>, missing: seq<MissingImage>,
                         dests: seq<string>, s: RawSubmission, filePath: string, missing0: seq<MissingImage>)
  {
    && 0 < |thumbnails| <= |dests|
    && (forall i :: 0 <= i < |thumbnails| - 1 ==> thumbnails[i].Ok?)
    && (|thumbnails| < |dests| ==> thumbnails[|thumbnails| - 1].Err?)
    && ThumbsStored(fs, dests, |thumbnails| - 1)
    && (thumbnails[|thumbnails| - 1].Ok? ==> ThumbsStored(fs, dests, |thumbnails|) && missing == missing0)
    && (thumbnails[|thumbnails| - 1].Err? ==>
          missing == missing0 + [RenderFailure(s, filePath, thumbnails[|thumbnails| - 1].error)])
  }

  /** A whole run of resizes over some sizes leaves behind what `ResizesTaken` describes. */
  lemma RunShape(dests: seq<string>, s: RawSubmission, filePath: string, sizes: seq<nat>,
                 renders: seq<RenderOutcome>, fs: map<string, nat>, missing0: seq<MissingImage>)
    requires 0 < |sizes| && |dests| == |sizes| && |renders| == |sizes|
    ensures var run := ResizeRun(dests, SourceOf(s, filePath, ThumbQuality), sizes, renders, fs, 0);
      ResizesTaken(run.0, run.1, missing0 + run.2, dests, s, filePath, missing0)
  {
    var src := SourceOf(s, filePath, ThumbQuality);
    RunResults(dests, src, sizes, renders, fs, 0);
    RunStores(dests, src, sizes, renders, fs, 0);
    RunRecords(dests, src, sizes, renders, fs, 0);
  }

  /**
   * What the image branch leaves behind: the resizes stop at the first
   * rejection, which alone records a missing image; every resize before it
   * stored its thumbnail; the colour and the compressed thumbnail are
   * stored exactly when every resize and the palette succeeded.
   */
  predicate ThumbnailsTaken(w: Workspace, s: RawSubmission, filePath: string, thumbnails: seq<Result<string, string>>,
                            palette: Result<string, string>, missing0: seq<MissingImage>,
                            colour0: Option<string>, thumbPath0: Option<string>)
    reads w, s
  {
    && ResizesTaken(thumbnails, w.fs, w.missingImages, ThumbDestinations(w.root, filePath, ThumbSizes), s, filePath, missing0)
    && if AllThumbnails(thumbnails) && palette.Ok?
       then s.colour == Some(palette.value) && s.thumbPath == Some(thumbnails[0].value)
       else s.colour == colour0 && s.thumbPath == thumbPath0
  }

  /** The resizes of an image, then the palette, which stores the colour and the compressed thumbnail. */
  method ImageBranch(w: Workspace, s: RawSubmission, filePath: string, renders: seq<RenderOutcome>,
                     palette: Result<string, string>)
    returns (thumbnails: seq<Result<string, string>>)
    requires |renders| == |ThumbSizes|
    modifies w`fs, w`missingImages, s`thumbPath, s`colour
    ensures ThumbnailsTaken(w, s, filePath, thumbnails, palette, old(w.missingImages), old(s.colour), old(s.thumbPath))
    ensures var run := ResizeRun(ThumbDestinations(w.root, filePath, ThumbSizes), SourceOf(s, filePath, ThumbQuality), ThumbSizes, renders, old(w.fs), 0);
      thumbnails == run.0 && w.fs == run.1 && w.missingImages == old(w.missingImages) + run.2
  {
    thumbnails := Thumbnails(w, s, filePath, ThumbSizes, renders);
    RunShape(ThumbDestinations(w.root, filePath, ThumbSizes), s, filePath, ThumbSizes, renders,
             old(w.fs), old(w.missingImages));
    if AllThumbnails(thumbnails) && palette.Ok? {
      s.colour := Some(palette.value);
      s.thumbPath := Some(thumbnails[0].value);
    }
  }

  /** Whether the thumbnails at the first `n` destinations are stored. */
  predicate ThumbsStored(fs: map<string, nat>, dests: seq<string>, n: nat)
    requires n <= |dests|
  {
    forall k :: 0 <= k < n ==> dests[k] in fs
  }

  /** One `resizeImage` call of the image branch, for the size at index `i`. */
  method Thumbnail(w: Workspace, s: RawSubmission, filePath: string, sizes: seq<nat>, i: nat, render: RenderOutcome)
    returns (r: Result<string, string>)
    requires i < |sizes|
    modifies w`fs, w`missingImages
    ensures w.missingImages == old(w.missingImages) + if r.Ok? then [] else [RenderFailure(s, filePath, r.error)]
    ensures var step := Resized(ThumbDestinations(w.root, filePath, sizes)[i], SourceOf(s, filePath, ThumbQuality), sizes[i], render, old(w.fs));
      r == step.result && w.fs == step.fs && w.missingImages == old(w.missingImages) + step.recorded
  {
    var request;
    r, request := w.ResizeImage(s, filePath, sizes[i], ThumbQuality, render);
    ThumbDestinationsAt(w.root, filePath, sizes, i);
  }

  /**
   * The `resizeImage` calls of the image branch, one per size (400, 100,
   * 800 and 2000 pixels, quality 60, in the pipeline), stopping at the
   * first rejection.
   */
  method Thumbnails(w: Workspace, s: RawSubmission, filePath: string, sizes: seq<nat>, renders: seq<RenderOutcome>)
    returns (thumbnails: seq<Result<string, string>>)
    requires 0 < |sizes| && |renders| == |sizes|
    modifies w`fs, w`missingImages
    ensures var run := ResizeRun(ThumbDestinations(w.root, filePath, sizes), SourceOf(s, filePath, ThumbQuality), sizes, renders, old(w.fs), 0);
      thumbnails == run.0 && w.fs == run.1 && w.missingImages == old(w.missingImages) + run.2
  {
    ghost var dests, src := ThumbDestinations(w.root, filePath, sizes), SourceOf(s, filePath, ThumbQuality);
    ghost var whole := ResizeRun(dests, src, sizes, renders, w.fs, 0);
    thumbnails := [];
    var i := 0;
    assert thumbnails + whole.0 == whole.0;
    while i < |sizes|
      invariant 0 <= i <= |sizes| && |thumbnails| == i
      invariant w.missingImages == old(w.missingImages)
      invariant thumbnails + ResizeRun(dests, src, sizes, renders, w.fs, i).0 == whole.0
      invariant ResizeRun(dests, src, sizes, renders, w.fs, i).1 == whole.1
      invariant ResizeRun(dests, src, sizes, renders, w.fs, i).2 == whole.2
    {
      ghost var fs0 := w.fs;
      var r := Thumbnail(w, s, filePath, sizes, i, renders[i]);
      RunStep(dests, src, sizes, renders, fs0, i, thumbnails, whole);
      thumbnails := thumbnails + [r];
      if r.Err? {
        break;
      }
      i := i + 1;
    }
  }
}
