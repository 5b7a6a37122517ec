/**
 * The newer pipeline of the conversion tool (tools/convert/lib/submissions.ts):
 * `parse` drops the rows without an id, `coerceCategories` folds the raw
 * category flags into the merged categories, `persist` shapes the records,
 * and the per-submission body of `downloadFiles` isolates failures.
 *
 * That file takes its category tables and its file helpers from
 * tools/convert/lib/categories.ts and tools/convert/lib/files.ts, which are
 * not part of this model: the key lists of the two tables are parameters,
 * and what each file helper resolves to or rejects with is an oracle input.
 */
module SubmissionsLib {
  import opened Wrappers
  import opened JsString
  import opened NodePath
  import opened Seqs
  import opened Records
  import opened Files

  // ---------------------------------------------------------------- parse

  predicate Identified(row: Row) {
    Truthy(Get(row, "id"))
  }

  /** `parse`: the rows of the CSV file, without those whose `id` is falsy. */
  function Parse(header: seq<string>, records: seq<seq<Cell>>): Result<seq<Row>, string> {
    match Rows(header, records)
    case Ok(rows) => Ok(Filter(rows, Identified))
    case Err(e) => Err(e)
  }

  /**
   * `parse` keeps exactly the rows with a truthy id, in file order, and a
   * record of the wrong length rejects the whole file.
   */
  lemma ParseKeepsIdentified(header: seq<string>, records: seq<seq<Cell>>)
    ensures Parse(header, records).Err? <==> Rows(header, records).Err?
    ensures Parse(header, records).Ok? ==>
      var rows := Rows(header, records).value;
      var kept := Parse(header, records).value;
      && (forall row :: row in kept <==> row in rows && Truthy(Get(row, "id")))
      && Filter(kept, Identified) == kept
  {
    if Rows(header, records).Ok? {
      var rows := Rows(header, records).value;
      forall row ensures row in Filter(rows, Identified) <==> row in rows && Truthy(Get(row, "id")) {
        FilterMembership(rows, Identified, row);
      }
      FilterIdempotent(rows, Identified);
    }
  }

  /** The id filter keeps one file's rows in file order: splitting them anywhere as `rows1 + rows2`, it filters each part in turn. */
  lemma ParseKeepsOrder(rows1: seq<Row>, rows2: seq<Row>)
    ensures Filter(rows1 + rows2, Identified) == Filter(rows1, Identified) + Filter(rows2, Identified)
  {
    FilterConcat(rows1, rows2, Identified);
  }

  // ---------------------------------------------------------------- categories

  /** A `[from, to]` pair of `coerceCategories`: a raw category and the merged category it belongs to. */
  datatype MergeRule = MergeRule(from: string, to: string)

  const MergeRules: seq<MergeRule> := [
    MergeRule("architecture", "architecture_and_set_design"),
    MergeRule("theatre", "architecture_and_set_design"),
    MergeRule("branding", "branding_and_packaging"),
    MergeRule("packaging", "branding_and_packaging"),
    MergeRule("fashion", "fashion_and_costume_design"),
    MergeRule("costume", "fashion_and_costume_design"),
    MergeRule("film", "film_and_video"),
    MergeRule("video", "film_and_video"),
    MergeRule("fine_art", "fine_art"),
    MergeRule("sculpture", "fine_art"),
    MergeRule("contemporary", "fine_art"),
    MergeRule("graphic", "graphic_design"),
    MergeRule("marketing", "graphic_design"),
    MergeRule("communication", "graphic_design")
  ]

  /** The destinations of the rules, in rule order, whose source is among the raw categories. */
  function Triggered(raw: seq<string>, rules: seq<MergeRule>): (r: seq<string>)
    ensures forall x :: x in r <==> exists i :: 0 <= i < |rules| && rules[i].from in raw && rules[i].to == x
  {
    if |rules| == 0 then []
    else
      var last := rules[|rules| - 1];
      Triggered(raw, rules[..|rules| - 1]) + (if last.from in raw then [last.to] else [])
  }

  /** The raw categories that are canonical categories already, in input order. */
  function Kept(raw: seq<string>, canonical: seq<string>): seq<string> {
    Filter(raw, c => c in canonical)
  }

  /** What `coerceCategories` returns: the kept categories, then the triggered destinations, each once. */
  function Coerced(raw: seq<string>, canonical: seq<string>): seq<string> {
    Dedup(Kept(raw, canonical) + Triggered(raw, MergeRules))
  }

  /** `coerceCategories`: filter, then push the destination of every rule whose source is present, then deduplicate. */
  method CoerceCategories(raw: seq<string>, canonical: seq<string>) returns (r: seq<string>)
    ensures r == Coerced(raw, canonical)
  {
    var results := Filter(raw, c => c in canonical);
    for i := 0 to |MergeRules|
      invariant results == Kept(raw, canonical) + Triggered(raw, MergeRules[..i])
    {
      var rule := MergeRules[i];
      if rule.from in raw {
        results := results + [rule.to];
      }
      assert MergeRules[..i + 1][..i] == MergeRules[..i];
    }
    assert MergeRules[..|MergeRules|] == MergeRules;
    r := Dedup(results);
  }

  /**
   * The result of `coerceCategories` has no duplicates and holds exactly
   * the canonical inputs and the destinations of the triggered rules.
   */
  lemma CoercedContents(raw: seq<string>, canonical: seq<string>, x: string)
    ensures NoDuplicates(Coerced(raw, canonical))
    ensures x in Coerced(raw, canonical) <==>
      (x in raw && x in canonical)
      || exists i :: 0 <= i < |MergeRules| && MergeRules[i].from in raw && MergeRules[i].to == x
  {
    var kept := Kept(raw, canonical);
    DedupNoDuplicates(kept + Triggered(raw, MergeRules));
    DedupMembership(kept + Triggered(raw, MergeRules), x);
    FilterMembership(raw, c => c in canonical, x);
  }

  /** The destination of every rule of a list, in list order. */
  function Destinations(rules: seq<MergeRule>): (r: seq<string>)
    ensures |r| == |rules| && forall i :: 0 <= i < |rules| ==> r[i] == rules[i].to
  {
    seq(|rules|, i requires 0 <= i < |rules| => rules[i].to)
  }

  /** The triggered destinations come in rule order: one per firing rule, repeats included. */
  lemma {:induction false} TriggeredInRuleOrder(raw: seq<string>, rules: seq<MergeRule>)
    ensures Triggered(raw, rules) == Destinations(Filter(rules, (r: MergeRule) => r.from in raw))
    decreases |rules|
  {
    if |rules| > 0 {
      TriggeredInRuleOrder(raw, rules[..|rules| - 1]);
    }
  }

  /**
   * The canonical inputs come first, once each, in input order; then the
   * destinations of the firing rules, in rule order, that are not among
   * the canonical inputs, each at its first occurrence.
   */
  lemma CoercedOrder(raw: seq<string>, canonical: seq<string>)
    ensures var kept := Dedup(Kept(raw, canonical));
      |kept| <= |Coerced(raw, canonical)| && Coerced(raw, canonical)[..|kept|] == kept
    ensures Coerced(raw, canonical) ==
      Dedup(Kept(raw, canonical)) + Filter(Dedup(Triggered(raw, MergeRules)), x => x !in Kept(raw, canonical))
    ensures Triggered(raw, MergeRules) == Destinations(Filter(MergeRules, (r: MergeRule) => r.from in raw))
  {
    DedupPrefix(Kept(raw, canonical), Triggered(raw, MergeRules));
    DedupConcat(Kept(raw, canonical), Triggered(raw, MergeRules));
    TriggeredInRuleOrder(raw, MergeRules);
  }

  /** No raw categories, no categories. */
  lemma CoercedEmpty(canonical: seq<string>)
    ensures Coerced([], canonical) == []
  {
    NothingTriggered([], MergeRules);
  }

  /** Rules whose sources are all absent add nothing. */
  lemma {:induction false} NothingTriggered(raw: seq<string>, rules: seq<MergeRule>)
    requires forall i :: 0 <= i < |rules| ==> rules[i].from !in raw
    ensures Triggered(raw, rules) == []
  {
    if |rules| > 0 {
      NothingTriggered(raw, rules[..|rules| - 1]);
    }
  }

  /** `architecture` and `theatre`, neither of them canonical, merge into one `architecture_and_set_design`. */
  lemma ArchitectureAndTheatre(canonical: seq<string>)
    requires "architecture" !in canonical && "theatre" !in canonical
    ensures Coerced(["architecture", "theatre"], canonical) == ["architecture_and_set_design"]
  {
    var raw := ["architecture", "theatre"];
    NoneKept(raw, canonical);
    var t := Triggered(raw, MergeRules);
    var merged := "architecture_and_set_design";
    ArchitectureAndTheatreTriggered();
    forall i | 0 <= i < |t| ensures t[i] == merged {
      assert t[i] in t;
    }
    DedupConstant(t, merged);
    assert [] + t == t;
  }

  /** Raw categories none of which is canonical keep nothing. */
  lemma NoneKept(raw: seq<string>, canonical: seq<string>)
    requires forall i :: 0 <= i < |raw| ==> raw[i] !in canonical
    ensures Kept(raw, canonical) == []
  {
    var kept := Kept(raw, canonical);
    if kept != [] {
      FilterMembership(raw, c => c in canonical, kept[0]);
      assert false;
    }
  }

  /** Of the rules, only the first two fire on `architecture` and `theatre`, and both lead to the same category. */
  lemma ArchitectureAndTheatreTriggered()
    ensures var t := Triggered(["architecture", "theatre"], MergeRules);
      "architecture_and_set_design" in t && forall x :: x in t ==> x == "architecture_and_set_design"
  {
    var raw := ["architecture", "theatre"];
    var t := Triggered(raw, MergeRules);
    forall x | x in t ensures x == "architecture_and_set_design" {
      var j :| 0 <= j < |MergeRules| && MergeRules[j].from in raw && MergeRules[j].to == x;
      assert j == 0 || j == 1;
    }
    assert MergeRules[0].from in raw;
  }

  /** A non-empty list of one repeated element deduplicates to that element alone. */
  lemma {:induction false} DedupConstant(s: seq<string>, x: string)
    requires |s| > 0
    requires forall i :: 0 <= i < |s| ==> s[i] == x
    ensures Dedup(s) == [x]
    decreases |s|
  {
    if |s| > 1 {
      DedupConstant(s[..|s| - 1], x);
    }
  }

  // ---------------------------------------------------------------- persist

  /**
   * `persist`: one record per submission, in order; the categories are the
   * raw category keys flagged on the submission, coerced.
   */
  function Persist(subs: seq<RawSubmission>, rawKeys: seq<string>, canonical: seq<string>): (r: seq<Submission>)
    reads set i | 0 <= i < |subs| :: subs[i]
    ensures |r| == |subs|
    ensures forall i :: 0 <= i < |subs| ==>
      r[i] == Record(subs[i], Coerced(Filter(rawKeys, k => Truthy(Get(subs[i].row, k))), canonical))
  {
    seq(|subs|, i requires 0 <= i < |subs| reads subs =>
      Record(subs[i], Coerced(Filter(rawKeys, k => Truthy(Get(subs[i].row, k))), canonical)))
  }

  /**
   * A persisted record's categories never repeat, and hold the flagged
   * canonical keys and the destinations of the flagged raw keys.
   */
  lemma PersistCategories(subs: seq<RawSubmission>, rawKeys: seq<string>, canonical: seq<string>, i: nat, x: string)
    requires i < |subs|
    ensures var flagged := Filter(rawKeys, k => Truthy(Get(subs[i].row, k)));
      var cats := Persist(subs, rawKeys, canonical)[i].categories;
      && NoDuplicates(cats)
      && (x in cats <==>
            (x in rawKeys && Truthy(Get(subs[i].row, x)) && x in canonical)
            || exists j :: 0 <= j < |MergeRules| && MergeRules[j].from in flagged && MergeRules[j].to == x)
  {
    var row := subs[i].row;
    var flagged := Filter(rawKeys, k => Truthy(Get(row, k)));
    CoercedContents(flagged, canonical, x);
    FilterMembership(rawKeys, k => Truthy(Get(row, k)), x);
  }

  // ---------------------------------------------------------------- download

  /** What the file helpers of tools/convert/lib/files.ts resolve `correctFileType` to. */
  datatype Correction = Correction(path: string, mime: Option<string>)

  /** The error messages that mark a corrupt download, which is then deleted. */
  const CorruptionMarkers: seq<string> := ["Premature end of JPEG file", "libpng read error", "Read error"]

  predicate IsCorruption(message: string) {
    exists i :: 0 <= i < |CorruptionMarkers| && Includes(message, CorruptionMarkers[i])
  }

  /** The index of the first rejected resize, or the number of resizes when none is. */
  function FirstRejected(resizes: seq<Result<string, string>>): (k: nat)
    ensures k <= |resizes|
    ensures forall i :: 0 <= i < k ==> resizes[i].Ok?
    ensures k < |resizes| ==> resizes[k].Err?
  {
    if |resizes| == 0 || resizes[0].Err? then 0 else 1 + FirstRejected(resizes[1..])
  }

  /**
   * Where the first three stages leave the `try` block: the download,
   * then for a `.pdf` the conversion, then the type correction; the first
   * rejection wins.
   */
  function Reached(download: Result<string, string>, pdf: Result<string, string>,
                   correct: Result<Correction, string>): (r: Result<Correction, string>)
    ensures download.Err? ==> r == Err(download.error)
    ensures download.Ok? && ExtName(download.value) == ".pdf" && pdf.Err? ==> r == Err(pdf.error)
    ensures download.Ok? && (ExtName(download.value) != ".pdf" || pdf.Ok?) ==> r == correct
  {
    if download.Err? then Err(download.error)
    else if ExtName(download.value) == ".pdf" && pdf.Err? then Err(pdf.error)
    else correct
  }

  /** What the image branch of the `try` block does: resizes started, colour and thumbnail stored, message thrown. */
  datatype ImageAttempt = ImageAttempt(resizes: nat, styled: Option<(string, string)>, thrown: Option<string>)

  /** The four resizes until one rejects, then the palette, whose failure is caught on the spot. */
  function ImageStage(resizes: seq<Result<string, string>>, palette: Result<string, string>): (r: ImageAttempt)
    requires |resizes| == |ThumbSizes|
    ensures 1 <= r.resizes <= |resizes|
    ensures r.thrown.Some? <==> exists i :: 0 <= i < |resizes| && resizes[i].Err?
    ensures r.thrown.Some? ==> resizes[r.resizes - 1] == Err(r.thrown.value)
    ensures forall j :: 0 <= j < r.resizes - 1 ==> resizes[j].Ok?
    ensures r.thrown.None? ==> r.resizes == |resizes|
    ensures r.styled.Some? <==> (forall i :: 0 <= i < |resizes| ==> resizes[i].Ok?) && palette.Ok?
    ensures r.styled.Some? ==> r.styled.value == (palette.value, resizes[0].value)
  {
    FirstRejectedAll(resizes);
    var k := FirstRejected(resizes);
    if k < |resizes| then ImageAttempt(k + 1, None, Some(resizes[k].error))
    else if palette.Err? then ImageAttempt(|resizes|, None, None)
    else ImageAttempt(|resizes|, Some((palette.value, resizes[0].value)), None)
  }

  /** What one pass of the `downloadFiles` body does to a submission, before the `catch`. */
  datatype Attempt = Attempt(
    mime: Option<Option<string>>,       // the `correctFileType` mime, once stored
    filePath: Option<string>,           // the corrected path, once stored
    resizes: nat,                       // how many resizes were started
    styled: Option<(string, string)>,   // the colour and the compressed thumbnail, once stored
    thrown: Option<string>)             // the message that reached the outer `catch`

  /**
   * The rest of the `try` block: a corrected path is stored when it is
   * not empty, and an image goes through the image branch.
   */
  function Run(reached: Result<Correction, string>, resizes: seq<Result<string, string>>,
               palette: Result<string, string>): Attempt
    requires |resizes| == |ThumbSizes|
  {
    match reached
    case Err(m) => Attempt(None, None, 0, None, Some(m))
    case Ok(c) =>
      if c.path == "" then Attempt(Some(c.mime), None, 0, None, None)
      else if !IsImage(c.path) then Attempt(Some(c.mime), Some(c.path), 0, None, None)
      else
        var i := ImageStage(resizes, palette);
        Attempt(Some(c.mime), Some(c.path), i.resizes, i.styled, i.thrown)
  }

  /** Thumbnails are attempted only for a stored image path, and then at least the first one is. */
  lemma ResizesOnlyImages(reached: Result<Correction, string>, resizes: seq<Result<string, string>>,
                          palette: Result<string, string>)
    requires |resizes| == |ThumbSizes|
    ensures var a := Run(reached, resizes, palette);
      && a.resizes <= |ThumbSizes|
      && (a.resizes > 0 <==> a.filePath.Some? && IsImage(a.filePath.value))
  {
  }

  /** A rejection before the resizes stores nothing on the submission. */
  lemma EarlyRejectionStoresNothing(reached: Result<Correction, string>, resizes: seq<Result<string, string>>,
                                    palette: Result<string, string>)
    requires |resizes| == |ThumbSizes|
    requires reached.Err?
    ensures Run(reached, resizes, palette) == Attempt(None, None, 0, None, Some(reached.error))
  {
  }

  /**
   * The colour and the thumbnail are stored only after all four resizes
   * and the palette succeed, and then they are the palette's colour and
   * the first (400 pixel) resize's result.
   */
  lemma StyledOnlyAfterEveryStage(reached: Result<Correction, string>, resizes: seq<Result<string, string>>,
                                  palette: Result<string, string>)
    requires |resizes| == |ThumbSizes|
    ensures var a := Run(reached, resizes, palette);
      a.styled.Some? <==>
        && a.filePath.Some? && IsImage(a.filePath.value)
        && (forall i :: 0 <= i < |resizes| ==> resizes[i].Ok?)
        && palette.Ok?
    ensures var a := Run(reached, resizes, palette);
      a.styled.Some? ==> a.styled.value == (palette.value, resizes[0].value)
  {
    FirstRejectedAll(resizes);
  }

  /** The first rejected resize is the rejected one that only accepted ones precede. */
  lemma FirstRejectedAt(resizes: seq<Result<string, string>>, k: nat)
    requires k <= |resizes|
    requires forall i :: 0 <= i < k ==> resizes[i].Ok?
    requires k < |resizes| ==> resizes[k].Err?
    ensures FirstRejected(resizes) == k
  {
  }

  lemma FirstRejectedAll(resizes: seq<Result<string, string>>)
    ensures FirstRejected(resizes) == |resizes| <==> forall i :: 0 <= i < |resizes| ==> resizes[i].Ok?
  {
  }

  /** Once every resize succeeded nothing reaches the outer `catch`: a failing palette is caught where it happens. */
  lemma PaletteFailureIsContained(reached: Result<Correction, string>, resizes: seq<Result<string, string>>,
                                  palette: Result<string, string>)
    requires |resizes| == |ThumbSizes|
    requires reached.Ok?
    requires forall i :: 0 <= i < |resizes| ==> resizes[i].Ok?
    ensures Run(reached, resizes, palette).thrown == None
  {
    FirstRejectedAll(resizes);
  }

  /**
   * The `try` block after the first three stages: stores the mime and the
   * corrected path, runs the resizes of an image until one rejects, then
   * stores the palette's colour and the compressed thumbnail.
   */
  method Store(s: RawSubmission, reached: Result<Correction, string>,
               resizes: seq<Result<string, string>>, palette: Result<string, string>)
    returns (thrown: Option<string>)
    requires |resizes| == |ThumbSizes|
    modifies s`mime, s`filePath, s`thumbPath, s`colour
    ensures var a := Run(reached, resizes, palette);
      && thrown == a.thrown
      && s.mime == (if a.mime.Some? then a.mime.value else old(s.mime))
      && s.filePath == (if a.filePath.Some? then a.filePath else old(s.filePath))
      && s.colour == (if a.styled.Some? then Some(a.styled.value.0) else old(s.colour))
      && s.thumbPath == (if a.styled.Some? then Some(a.styled.value.1) else old(s.thumbPath))
  {
    thrown := None;
    match reached {
      case Err(m) =>
        thrown := Some(m);
      case Ok(c) =>
        var filePath := c.path;
        s.mime := c.mime;
        if filePath != "" {
          s.filePath := Some(filePath);
          if IsImage(filePath) {
            thrown := Thumbnails(s, resizes, palette);
          }
        }
    }
  }

  /** The image branch: the four resizes in order, then the colour and the compressed thumbnail. */
  method Thumbnails(s: RawSubmission, resizes: seq<Result<string, string>>, palette: Result<string, string>)
    returns (thrown: Option<string>)
    requires |resizes| == |ThumbSizes|
    modifies s`thumbPath, s`colour
    ensures var i := ImageStage(resizes, palette);
      && thrown == i.thrown
      && s.colour == (if i.styled.Some? then Some(i.styled.value.0) else old(s.colour))
      && s.thumbPath == (if i.styled.Some? then Some(i.styled.value.1) else old(s.thumbPath))
  {
    thrown := None;
    var compressed := resizes[0];
    if compressed.Err? {
      FirstRejectedAt(resizes, 0);
      thrown := Some(compressed.error);
    } else if resizes[1].Err? {
      FirstRejectedAt(resizes, 1);
      thrown := Some(resizes[1].error);
    } else if resizes[2].Err? {
      FirstRejectedAt(resizes, 2);
      thrown := Some(resizes[2].error);
    } else if resizes[3].Err? {
      FirstRejectedAt(resizes, 3);
      thrown := Some(resizes[3].error);
    } else {
      FirstRejectedAt(resizes, 4);
      if palette.Ok? {
        s.colour := Some(palette.value);
        s.thumbPath := Some(compressed.value);
      }
    }
  }

  /**
   * The `downloadFiles` body for one submission: runs the stages, which
   * leave the file system `staged`, and on a corruption message deletes the
   * stored file.  It hands the submission back unless that deletion itself
   * throws because no such file is stored.
   */
  method DownloadItem(w: Workspace, s: RawSubmission,
                      download: Result<string, string>, pdf: Result<string, string>, correct: Result<Correction, string>,
                      resizes: seq<Result<string, string>>, palette: Result<string, string>, staged: map<string, nat>)
    returns (returned: bool)
    requires |resizes| == |ThumbSizes|
    modifies w`fs, s`mime, s`filePath, s`thumbPath, s`colour
    ensures var a := Run(Reached(download, pdf, correct), resizes, palette);
      && s.mime == (if a.mime.Some? then a.mime.value else old(s.mime))
      && s.filePath == (if a.filePath.Some? then a.filePath else old(s.filePath))
      && s.colour == (if a.styled.Some? then Some(a.styled.value.0) else old(s.colour))
      && s.thumbPath == (if a.styled.Some? then Some(a.styled.value.1) else old(s.thumbPath))
      && if a.thrown.Some? && IsCorruption(a.thrown.value) then
           if PathSet(s.filePath) && s.filePath.value in staged then returned && w.fs == staged - {s.filePath.value}
           else !returned && w.fs == staged
         else returned && w.fs == staged
  {
    var thrown := Store(s, Reached(download, pdf, correct), resizes, palette);
    w.fs := staged;
    returned := true;
    if thrown.Some? && IsCorruption(thrown.value) {
      if PathSet(s.filePath) && s.filePath.value in w.fs {
        w.fs := w.fs - {s.filePath.value};
      } else {
        returned := false;
      }
    }
  }
}
