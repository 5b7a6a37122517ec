/**
 * The file policy of the conversion tool (tools/convert/files.ts): where a
 * submission's image comes from, how its extension is repaired, where its
 * thumbnails go, and which failures are recorded as missing images.
 *
 * The file system is a map from path to size in bytes.  What the network,
 * `glob`, `file-type`, `pdf-image`, `sharp` and `probe-image-size` answer is
 * passed in as an oracle argument.
 */
module Files {
  import opened Wrappers
  import opened JsString
  import opened NodePath
  import opened Records

  /** A download smaller than this is taken for a failed one and fetched again. */
  const MinCachedSize: nat := 5 * 1024

  const MissingUrlMessage := "Missing image URL"

  /** What `path.extname` throws when the image URL cell was cast to a number. */
  const PathTypeMessage := "The \"path\" argument must be of type string. Received type number"

  /** The extensions, without their dot, that count as images. */
  const ImageExtensions: seq<string> := ["jpg", "jpeg", "png", "gif", "tif"]

  /** Detected types that keep the file's own extension: file-type reports some PDF files as these. */
  const KeptDetections: seq<string> := ["ai", "mp1"]

  const FileMissingReason := "File is missing"
  const NotAnImageReason := "File is not an image"

  function OriginalsDir(root: string): string { Resolve(root, "original") }
  function OverridesDir(root: string): string { Resolve(root, "overrides") }
  function ThumbsDir(root: string): string { Resolve(root, "thumbs") }

  /** An entry of the missing-images report. */
  datatype MissingImage = MissingImage(
    id: Option<Cell>,
    name: Option<Cell>,
    reason: string,
    extension: Option<string>,
    link: Option<Cell>)

  /** The file system after moving the file at `from` to `to`. */
  function Moved(fs: map<string, nat>, from: string, to: string): (r: map<string, nat>)
    requires from in fs
    ensures to in r && r[to] == fs[from]
    ensures from != to ==> from !in r
    ensures forall p :: p != from && p != to ==> (p in r <==> p in fs) && (p in r ==> r[p] == fs[p])
  {
    (fs - {from})[to := fs[from]]
  }

  // ---------------------------------------------------------------- extensions

  /** A file extension trimmed and lower-cased, with `.jpeg` folded into `.jpg`. */
  function NormaliseExtension(extension: string): string {
    var e := Lower(Trim(extension));
    if e == ".jpeg" || e == ".jpg" then ".jpg" else e
  }

  /**
   * A normalised extension is lower-case, has no white space at either
   * end and is never `.jpeg`; `.jpeg` and `.jpg` both become `.jpg`.
   */
  lemma NormalisedShape(extension: string)
    ensures var r := NormaliseExtension(extension);
      && IsLower(r) && (r == [] || (!IsWhitespace(r[0]) && !IsWhitespace(r[|r| - 1])))
      && r != ".jpeg"
      && (Lower(Trim(extension)) in {".jpg", ".jpeg"} <==> r == ".jpg")
  {
    LowerTrimEnds(extension);
    LowerIsLower(Trim(extension));
    var r := NormaliseExtension(extension);
    if r == ".jpg" {
      assert IsLower(".jpg") && !IsWhitespace('.') && !IsWhitespace('g');
    }
  }

  /** Lower-casing a trimmed string leaves no white space at either end. */
  lemma LowerTrimEnds(extension: string)
    ensures var e := Lower(Trim(extension));
      e == [] || (!IsWhitespace(e[0]) && !IsWhitespace(e[|e| - 1]))
  {
    var t := Trim(extension);
    TrimEnds(extension);
    LowerEach(t);
    if t != [] {
      LowerWhitespace(t[0]);
      LowerWhitespace(t[|t| - 1]);
    }
  }

  /** Lower-casing and trimming a lower-cased, trimmed string changes nothing. */
  lemma LowerTrimKeeps(e: string)
    requires IsLower(e)
    requires e == [] || (!IsWhitespace(e[0]) && !IsWhitespace(e[|e| - 1]))
    ensures Lower(Trim(e)) == e
  {
    TrimKeeps(e);
  }

  /** Normalising a normalised extension changes nothing. */
  lemma NormaliseExtensionIdempotent(extension: string)
    ensures NormaliseExtension(NormaliseExtension(extension)) == NormaliseExtension(extension)
  {
    var e := Lower(Trim(extension));
    if e == ".jpg" || e == ".jpeg" {
      NormaliseJpg();
    } else {
      LowerTrimEnds(extension);
      LowerIsLower(Trim(extension));
      NormaliseKeeps(e);
    }
  }

  lemma NormaliseJpg()
    ensures NormaliseExtension(".jpg") == ".jpg"
  {
    LowerTrimKeeps(".jpg");
  }

  /** A lower-case, trimmed extension other than `.jpg` and `.jpeg` normalises to itself. */
  lemma NormaliseKeeps(e: string)
    requires IsLower(e)
    requires e == [] || (!IsWhitespace(e[0]) && !IsWhitespace(e[|e| - 1]))
    requires e != ".jpg" && e != ".jpeg"
    ensures NormaliseExtension(e) == e
  {
    LowerTrimKeeps(e);
  }

  /** `isImage`: the extension without its dot is one of the image extensions, compared case-sensitively. */
  predicate IsImage(filePath: string) {
    var ext := ExtName(filePath);
    (if ext == "" then "" else ext[1..]) in ImageExtensions
  }

  /** An extension, dot included, stripped of its dot is one of the image extensions exactly when it is one of them dotted. */
  lemma DottedImageExtension(ext: string)
    requires ext == "" || ext[0] == '.'
    ensures (if ext == "" then "" else ext[1..]) in ImageExtensions
            <==> ext in [".jpg", ".jpeg", ".png", ".gif", ".tif"]
  {
    if ext != "" {
      DottedMembership(ext, ImageExtensions);
      DottedImageExtensions();
    }
  }

  lemma DottedImageExtensions()
    ensures Dotted(ImageExtensions) == [".jpg", ".jpeg", ".png", ".gif", ".tif"]
  {
    var d := Dotted(ImageExtensions);
    assert d[0] == ".jpg" by { assert "." + "jpg" == ".jpg"; }
    assert d[1] == ".jpeg" by { assert "." + "jpeg" == ".jpeg"; }
    assert d[2] == ".png" by { assert "." + "png" == ".png"; }
    assert d[3] == ".gif" by { assert "." + "gif" == ".gif"; }
    assert d[4] == ".tif" by { assert "." + "tif" == ".tif"; }
  }

  /** Every name with a dot in front. */
  function Dotted(names: seq<string>): (r: seq<string>)
    ensures |r| == |names| && forall i :: 0 <= i < |names| ==> r[i] == "." + names[i]
  {
    seq(|names|, i requires 0 <= i < |names| => "." + names[i])
  }

  lemma DottedMembership(ext: string, names: seq<string>)
    requires ext != "" && ext[0] == '.'
    ensures ext[1..] in names <==> ext in Dotted(names)
  {
    if ext[1..] in names {
      var i :| 0 <= i < |names| && names[i] == ext[1..];
      DotPrefix(ext, names[i]);
      assert Dotted(names)[i] == ext;
    }
    if ext in Dotted(names) {
      var i :| 0 <= i < |names| && Dotted(names)[i] == ext;
      DotPrefix(ext, names[i]);
    }
  }

  lemma DotPrefix(ext: string, t: string)
    requires ext != "" && ext[0] == '.'
    ensures ext == "." + t <==> ext[1..] == t
  {
    if ext[1..] == t {
      assert ext == [ext[0]] + ext[1..];
    }
  }

  /** The image test is a test on the extension, dot included. */
  lemma IsImageByExtension(filePath: string)
    ensures IsImage(filePath) <==> ExtName(filePath) in [".jpg", ".jpeg", ".png", ".gif", ".tif"]
  {
    DottedImageExtension(ExtName(filePath));
  }

  /** A file `stem.e` in any directory has the extension `.e`. */
  lemma ExtNameOfResolved(dir: string, stem: string, e: string)
    requires stem != "" && '/' !in stem && '.' !in stem && '/' !in e && '.' !in e
    ensures ExtName(Resolve(dir, stem + "." + e)) == "." + e
  {
    assert '/' !in stem + ".";
    assert '/' !in stem + "." + e;
    assert (stem + "." + e)[0] == stem[0] != '.';
    BaseNameOfResolve(dir, stem + "." + e);
    ExtNameOf(Resolve(dir, stem + "." + e), stem, e);
  }

  /** A file `stem.e` is an image exactly when `e` is, compared case-sensitively, one of the image extensions. */
  lemma IsImageOfResolved(dir: string, stem: string, e: string)
    requires stem != "" && '/' !in stem && '.' !in stem && '/' !in e && '.' !in e
    ensures IsImage(Resolve(dir, stem + "." + e)) <==> e in ImageExtensions
  {
    var p := Resolve(dir, stem + "." + e);
    ExtNameOfResolved(dir, stem, e);
    assert ("." + e)[1..] == e;
  }

  /** `.jpg` is an image extension. */
  lemma LowerJpgIsImage(dir: string, stem: string)
    requires stem != "" && '/' !in stem && '.' !in stem
    ensures IsImage(Resolve(dir, stem + ".jpg"))
  {
    assert "." + "jpg" == ".jpg";
    assert stem + "." + "jpg" == stem + ".jpg";
    IsImageOfResolved(dir, stem, "jpg");
  }

  /** `.JPG` is not: the image test is case-sensitive. */
  lemma UpperJpgIsNotImage(dir: string, stem: string)
    requires stem != "" && '/' !in stem && '.' !in stem
    ensures !IsImage(Resolve(dir, stem + ".JPG"))
  {
    var e := "JPG";
    assert stem + ".JPG" == stem + "." + e;
    assert '/' !in e && '.' !in e;
    IsImageOfResolved(dir, stem, e);
    UpperNotImageExtension(e);
  }

  /** Every image extension is written in lower case, so none starts with a capital. */
  lemma UpperNotImageExtension(e: string)
    requires |e| > 0 && 'A' <= e[0] <= 'Z'
    ensures e !in ImageExtensions
  {
    forall x | x in ImageExtensions ensures |x| > 0 && 'a' <= x[0] <= 'z' {
      assert x == "jpg" || x == "jpeg" || x == "png" || x == "gif" || x == "tif";
    }
  }

  // ---------------------------------------------------------------- acquisition

  /** Where a submission's download is stored: `original/<id><normalised extension of the URL>`. */
  function DownloadTarget(root: string, id: Option<Cell>, url: string): string {
    Resolve(OriginalsDir(root), Display(id) + NormaliseExtension(ExtName(url)))
  }

  /** Where `downloadFile` takes a submission's file from. */
  datatype Acquisition =
    | NoUrl                  // the image URL is empty or absent
    | UrlNotText             // csv-parse turned the URL cell into a number
    | Override(path: string) // the first manual override
    | Cached(path: string)   // an earlier download that is large enough
    | Fetch(path: string)    // a fresh download to this path

  /**
   * The source `downloadFile` picks: no URL first, then a manual override,
   * then a cached download larger than 5 KiB, then the network.
   */
  function PlanAcquisition(root: string, id: Option<Cell>, imageRgb: Option<Cell>,
                           overrides: seq<string>, fs: map<string, nat>): Acquisition
  {
    if !Truthy(imageRgb) then NoUrl
    else if imageRgb.value.Num? then UrlNotText
    else
      var dest := DownloadTarget(root, id, imageRgb.value.text);
      if |overrides| > 0 then Override(overrides[0])
      else if dest in fs && fs[dest] > MinCachedSize then Cached(dest)
      else Fetch(dest)
  }

  /**
   * The order of the decision: a missing URL wins over everything, an
   * override over the cache, and the network is used only when there is
   * no override and no cached file larger than 5 KiB.
   */
  lemma AcquisitionOrder(root: string, id: Option<Cell>, imageRgb: Option<Cell>,
                         overrides: seq<string>, fs: map<string, nat>)
    ensures var a := PlanAcquisition(root, id, imageRgb, overrides, fs);
      && (a == NoUrl <==> !Truthy(imageRgb))
      && (a.Override? <==> Truthy(imageRgb) && imageRgb.value.Text? && |overrides| > 0)
      && (a.Override? ==> a.path == overrides[0])
      && ((a.Cached? || a.Fetch?) ==>
            && Truthy(imageRgb) && imageRgb.value.Text? && |overrides| == 0
            && a.path == DownloadTarget(root, id, imageRgb.value.text))
      && (a.Fetch? <==>
            (Truthy(imageRgb) && imageRgb.value.Text? && |overrides| == 0
             && !(a.path in fs && fs[a.path] > MinCachedSize)))
  {
  }

  /** Without a URL the decision looks at neither the overrides nor the file system. */
  lemma MissingUrlTouchesNothing(root: string, id: Option<Cell>, imageRgb: Option<Cell>,
                                 overrides1: seq<string>, fs1: map<string, nat>,
                                 overrides2: seq<string>, fs2: map<string, nat>)
    requires !Truthy(imageRgb)
    ensures PlanAcquisition(root, id, imageRgb, overrides1, fs1) == PlanAcquisition(root, id, imageRgb, overrides2, fs2) == NoUrl
  {
  }

  /** After a download of more than 5 KiB, the next run takes the cached file and does not fetch. */
  lemma DownloadThenCacheHit(root: string, id: Option<Cell>, imageRgb: Option<Cell>,
                             fs: map<string, nat>, size: nat)
    requires PlanAcquisition(root, id, imageRgb, [], fs).Fetch?
    requires size > MinCachedSize
    ensures var dest := PlanAcquisition(root, id, imageRgb, [], fs).path;
      PlanAcquisition(root, id, imageRgb, [], fs[dest := size]) == Cached(dest)
  {
  }

  /**
   * What happens to a fetch once the write stream is open: the size of the
   * body written, a transport error reported to the request's `error`
   * handler, or a throw while the request is built (`url.parse`,
   * `encodeURI` or `https.get` refusing the URL), which no handler sees.
   */
  datatype FetchOutcome = Fetched(size: nat) | TransportError(message: string) | RequestRejected(message: string)

  /**
   * What `downloadFile` resolves to for a plan, and the file system it
   * leaves: only a fresh download touches the file system.  The write
   * stream creates the file first; a transport error removes it again,
   * while a request that throws before it is sent leaves it empty.
   */
  function Downloaded(plan: Acquisition, fetch: FetchOutcome, fs: map<string, nat>): (Result<string, string>, map<string, nat>) {
    match plan
    case NoUrl => (Err(MissingUrlMessage), fs)
    case UrlNotText => (Err(PathTypeMessage), fs)
    case Override(p) => (Ok(p), fs)
    case Cached(p) => (Ok(p), fs)
    case Fetch(p) =>
      match fetch
      case Fetched(n) => (Ok(p), fs[p := n])
      case TransportError(m) => (Err(m), fs - {p})
      case RequestRejected(m) => (Err(m), fs[p := 0])
  }

  /**
   * A download resolves exactly for an override, a cached file or a fetch
   * the network completed, and then to the planned path; only a fetch
   * touches the file system, and only at the planned path, which holds a
   * file afterwards unless the transport failed, and an empty one when the
   * request threw before it was sent.
   */
  lemma DownloadedOutcome(plan: Acquisition, fetch: FetchOutcome, fs: map<string, nat>)
    ensures var r := Downloaded(plan, fetch, fs);
      && (r.0.Ok? <==> plan.Override? || plan.Cached? || (plan.Fetch? && fetch.Fetched?))
      && (r.0.Ok? ==> r.0.value == plan.path)
      && (!plan.Fetch? ==> r.1 == fs)
      && (plan.Fetch? ==> r.1 - {plan.path} == fs - {plan.path} && (fetch.TransportError? <==> plan.path !in r.1))
      && (plan.Fetch? && fetch.RequestRejected? ==> r.1[plan.path] == 0)
  {
    if plan.Fetch? {
      var p := plan.path;
      match fetch
      case Fetched(n) =>
        assert fs[p := n] - {p} == fs - {p};
      case TransportError(m) =>
        assert fs - {p} - {p} == fs - {p};
      case RequestRejected(m) =>
        assert fs[p := 0] - {p} == fs - {p};
    }
  }

  /**
   * A request that throws before it is sent leaves an empty file at the
   * download path, which is too small to count as cached: the next run
   * fetches again.
   */
  lemma RejectedRequestRefetches(root: string, id: Option<Cell>, imageRgb: Option<Cell>,
                                 fs: map<string, nat>, dest: string, message: string)
    requires PlanAcquisition(root, id, imageRgb, [], fs) == Fetch(dest)
    ensures Downloaded(Fetch(dest), RequestRejected(message), fs) == (Err(message), fs[dest := 0])
    ensures PlanAcquisition(root, id, imageRgb, [], fs[dest := 0]) == Fetch(dest)
  {
  }

  // ---------------------------------------------------------------- type correction

  /** What `FileType.fromFile` does: a detection, no answer, or a throw. */
  datatype SniffOutcome = Detected(ext: string, mime: string) | Undetected | SniffFailed(message: string)

  /** The path with the first occurrence of its extension removed and `.ext` appended. */
  function RenameTarget(filePath: string, ext: string): string {
    ReplaceFirst(filePath, ExtName(filePath), "") + "." + ext
  }

  /** The path with its first `original` turned into `overrides`. */
  function OverridePath(p: string): string {
    ReplaceFirst(p, "original", "overrides")
  }

  /**
   * What `correctFileType` resolves to, and the file system it leaves: a
   * mime only for a detection, and a new path only for a file that was
   * moved there; a failed detection or rename changes nothing.
   */
  function Corrected(filePath: string, sniff: SniffOutcome, fs: map<string, nat>): (string, Option<string>, map<string, nat>) {
    match sniff
    case Detected(e, m) =>
      if e in KeptDetections || RenameTarget(filePath, e) == filePath then (filePath, Some(m), fs)
      else if filePath in fs then
        var target := OverridePath(RenameTarget(filePath, e));
        (target, Some(m), Moved(fs, filePath, target))
      else (filePath, None, fs)
    case _ => (filePath, None, fs)
  }

  /**
   * Type correction gives a mime only for a detection, and then the
   * detected one; without a mime nothing changes; a kept type or a name
   * that already fits keeps the path and the files; a new path holds the
   * file that was at the old one.
   */
  lemma CorrectedOutcome(filePath: string, sniff: SniffOutcome, fs: map<string, nat>)
    ensures var r := Corrected(filePath, sniff, fs);
      && (r.1.Some? ==> sniff.Detected? && r.1 == Some(sniff.mime))
      && (r.1.None? ==> r == (filePath, None, fs))
      && (sniff.Detected? && (sniff.ext in KeptDetections || RenameTarget(filePath, sniff.ext) == filePath) ==>
            r == (filePath, Some(sniff.mime), fs))
      && (r.0 != filePath ==> filePath in fs && r.0 in r.2 && r.2[r.0] == fs[filePath])
  {
  }

  /**
   * What `pdf-image` does with page 0: it resolves with the page image's
   * path, having written a file of the given size there (or nothing, when
   * `written` is none), or it fails.
   */
  datatype PdfOutcome = PageConverted(pagePath: string, written: Option<nat>) | ConversionFailed(message: string)

  /** Where `convertPdf` moves the rendered page: under `overrides`, with the page's extension. */
  function PdfOverridePath(filePath: string, pagePath: string): string {
    ReplaceFirst(OverridePath(filePath), ExtName(filePath), ExtName(pagePath))
  }

  /**
   * What `convertPdf` resolves to, and the file system it leaves: a page
   * image that exists once the converter is done is moved to the override
   * path, which is returned; otherwise the PDF's own path is, and nothing
   * changes.
   */
  function PdfConverted(filePath: string, pdf: PdfOutcome, fs: map<string, nat>): (string, map<string, nat>) {
    match pdf
    case ConversionFailed(_) => (filePath, fs)
    case PageConverted(page, size) =>
      var written := if size.Some? then fs[page := size.value] else fs;
      if page in written then
        var target := PdfOverridePath(filePath, page);
        (target, Moved(written, page, target))
      else (filePath, fs)
  }

  /**
   * A page the converter wrote is handed on at the override path, holding
   * what was written; a failed conversion, or one that left no page,
   * changes nothing; a path other than the PDF's holds a file.
   */
  lemma PdfConvertedOutcome(filePath: string, pdf: PdfOutcome, fs: map<string, nat>)
    ensures var r := PdfConverted(filePath, pdf, fs);
      && (pdf.PageConverted? && pdf.written.Some? ==>
            r.0 == PdfOverridePath(filePath, pdf.pagePath) && r.0 in r.1 && r.1[r.0] == pdf.written.value)
      && (pdf.ConversionFailed? || (pdf.written.None? && pdf.pagePath !in fs) ==> r == (filePath, fs))
      && (r.0 != filePath ==> r.0 in r.1)
  {
  }

  /**
   * No occurrence of `pat` starts before index `m` of `s` when `s[..m]` holds
   * none and the character at `m` can only be the first of `pat`.
   */
  lemma NoOccurrenceBefore(s: string, pat: string, m: nat)
    requires m < |s|
    requires forall j :: 0 < j < |pat| ==> pat[j] != s[m]
    requires !Includes(s[..m], pat)
    ensures forall k :: 0 <= k < m ==> !OccursAt(s, pat, k)
  {
    forall k | 0 <= k < m ensures !OccursAt(s, pat, k) {
      if k + |pat| <= m {
        assert s[..m][k..k + |pat|] == s[k..k + |pat|];
        assert !OccursAt(s[..m], pat, k);
      } else if k + |pat| <= |s| {
        assert s[k..k + |pat|][m - k] == s[m];
      }
    }
  }

  /** The first `original` of a path under the originals directory is that directory's own. */
  lemma OverridePathOfOriginal(root: string, name: string)
    requires !Includes(root, "original")
    ensures OverridePath(Resolve(OriginalsDir(root), name)) == Resolve(OverridesDir(root), name)
  {
    var pat, rep := "original", "overrides";
    assert forall j :: 0 <= j < |pat| ==> pat[j] != '/';
    ReplaceAfterDirectory(root, pat, rep, "/" + name);
    assert Resolve(OriginalsDir(root), name) == root + "/" + pat + ("/" + name);
    assert Resolve(OverridesDir(root), name) == root + "/" + rep + ("/" + name);
  }

  /** In `root/pat<tail>`, with `pat` nowhere in `root` and free of `/`, the first `pat` is the one after `root/`. */
  lemma ReplaceAfterDirectory(root: string, pat: string, rep: string, tail: string)
    requires |pat| > 0 && forall j :: 0 <= j < |pat| ==> pat[j] != '/'
    requires !Includes(root, pat)
    ensures ReplaceFirst(root + "/" + pat + tail, pat, rep) == root + "/" + rep + tail
  {
    var s := root + "/" + pat + tail;
    var m := |root|;
    assert s[..m] == root;
    assert s[m] == '/';
    NoOccurrenceBefore(s, pat, m);
    assert !OccursAt(s, pat, m) by {
      assert m + |pat| <= |s| ==> s[m..m + |pat|][0] == '/';
    }
    assert s[m + 1..m + 1 + |pat|] == pat;
    assert OccursAt(s, pat, m + 1);
    var i := IndexOf(s, pat);
    assert i != -1;
    assert i >= m + 1;
    assert s[..m + 1] == root + "/";
    assert s[m + 1 + |pat|..] == tail;
  }

  /** A dotted extension with no further dot, appended to a prefix that does not contain it, is its first occurrence. */
  lemma ReplaceTrailingExtension(prefix: string, e: string)
    requires e == "" || (e[0] == '.' && forall j :: 0 < j < |e| ==> e[j] != '.')
    requires e == "" || !Includes(prefix, e)
    ensures ReplaceFirst(prefix + e, e, "") == prefix
  {
    var p := prefix + e;
    if e == "" {
      assert OccursAt(p, e, 0);
    } else {
      assert p[..|prefix|] == prefix;
      NoOccurrenceBefore(p, e, |prefix|);
      assert OccursAt(p, e, |prefix|);
    }
  }

  /** Two strings with a common prefix are equal exactly when the rests are. */
  lemma CancelPrefix(prefix: string, a: string, b: string)
    ensures prefix + a == prefix + b <==> a == b
  {
    if prefix + a == prefix + b {
      assert a == (prefix + a)[|prefix|..];
      assert b == (prefix + b)[|prefix|..];
    }
  }

  /**
   * Renaming `dir/stem` followed by a trailing extension `e` that occurs
   * nowhere before it gives `dir/stem.ext`, which is the old path exactly
   * when `e` is `.ext`.
   */
  lemma RenameShape(dir: string, stem: string, e: string, ext: string)
    requires e == "" || (e[0] == '.' && forall j :: 0 < j < |e| ==> e[j] != '.')
    requires e == "" || !Includes(Resolve(dir, stem), e)
    ensures var p := Resolve(dir, stem) + e;
      && ReplaceFirst(p, e, "") + "." + ext == Resolve(dir, stem + "." + ext)
      && (ReplaceFirst(p, e, "") + "." + ext == p <==> e == "." + ext)
  {
    var prefix := Resolve(dir, stem);
    ReplaceTrailingExtension(prefix, e);
    assert prefix + "." + ext == prefix + ("." + ext) == Resolve(dir, stem + "." + ext);
    CancelPrefix(prefix, "." + ext, e);
  }

  /**
   * Renaming a file whose extension first occurs at its end puts `.<ext>`
   * in place of that extension, and leaves the path as it is exactly when
   * the extension already is `.<ext>`.
   */
  lemma RenameTargetLayout(dir: string, name: string, ext: string)
    requires name != "" && '/' !in name
    requires var p := Resolve(dir, name);
      ExtName(p) == "" || !Includes(Resolve(dir, Stem(p)), ExtName(p))
    ensures var p := Resolve(dir, name);
      && RenameTarget(p, ext) == Resolve(dir, Stem(p) + "." + ext)
      && (RenameTarget(p, ext) == p <==> ExtName(p) == "." + ext)
  {
    var p := Resolve(dir, name);
    PathIsPrefixAndExtension(dir, name);
    ExtNameShape(p);
    RenameShape(dir, Stem(p), ExtName(p), ext);
  }

  /** A resolved file is the directory and stem, followed by the extension. */
  lemma PathIsPrefixAndExtension(dir: string, name: string)
    requires name != "" && '/' !in name
    ensures var p := Resolve(dir, name); p == Resolve(dir, Stem(p)) + ExtName(p)
  {
    var p := Resolve(dir, name);
    BaseNameOfResolve(dir, name);
    StemShape(p);
    assert Stem(p) + ExtName(p) == name;
  }

  /**
   * For a file `name` under `original/` whose extension first occurs at its
   * end, type correction renames it to `overrides/<stem>.<ext>`, and leaves
   * it in place exactly when its extension already is `.<ext>`.
   */
  lemma CorrectedPathLayout(root: string, name: string, ext: string)
    requires name != "" && '/' !in name
    requires !Includes(root, "original")
    requires var p := Resolve(OriginalsDir(root), name);
      ExtName(p) == "" || !Includes(Resolve(OriginalsDir(root), Stem(p)), ExtName(p))
    ensures var p := Resolve(OriginalsDir(root), name);
      && RenameTarget(p, ext) == Resolve(OriginalsDir(root), Stem(p) + "." + ext)
      && OverridePath(RenameTarget(p, ext)) == Resolve(OverridesDir(root), Stem(p) + "." + ext)
      && (RenameTarget(p, ext) == p <==> ExtName(p) == "." + ext)
  {
    var p := Resolve(OriginalsDir(root), name);
    RenameTargetLayout(OriginalsDir(root), name, ext);
    OverridePathOfOriginal(root, Stem(p) + "." + ext);
  }

  // ---------------------------------------------------------------- thumbnails

  /** What `sharp` does with one resize: the size of the written thumbnail, or a failure. */
  datatype RenderOutcome = Rendered(size: nat) | RenderFailed(message: string)

  /** What `resizeImage` asks `sharp` for: fit inside `box` squared, and re-encode as JPEG at this quality when set. */
  datatype RenderRequest = RenderRequest(source: string, destination: string, box: nat, jpegQuality: Option<nat>)

  /** The thumbnail sizes both pipelines ask for, in the order they ask; the first is the compressed image. */
  const ThumbSizes: seq<nat> := [400, 100, 800, 2000]

  /** The JPEG quality both pipelines ask for. */
  const ThumbQuality: nat := 60

  /** The missing-images entry `resizeImage` records when a render fails. */
  function RenderFailure(s: RawSubmission, filePath: string, message: string): MissingImage {
    MissingImage(s.Id(), s.Name(), message, Some(ExtName(filePath)), s.ImageRgb())
  }

  /** `thumbs/<size>/<base name without extension>.jpg`. */
  function ThumbDestination(root: string, filePath: string, size: nat): string {
    Resolve(Resolve(ThumbsDir(root), NatToString(size)), Stem(filePath) + ".jpg")
  }

  /** Every thumbnail is a `.jpg` named after its source, in the directory of its size. */
  lemma ThumbDestinationShape(root: string, filePath: string, size: nat)
    requires Stem(filePath) != ""
    ensures var d := ThumbDestination(root, filePath, size);
      && BaseName(d) == Stem(filePath) + ".jpg"
      && ExtName(d) == ".jpg"
      && Stem(d) == Stem(filePath)
  {
    var d := ThumbDestination(root, filePath, size);
    var stem := Stem(filePath);
    assert '/' !in stem by {
      StemShape(filePath);
    }
    var jpg := ".jpg"[1..];
    DotPrefix(".jpg", jpg);
    assert stem + "." + jpg == stem + ".jpg";
    ResolvedParts(Resolve(ThumbsDir(root), NatToString(size)), stem, jpg);
  }

  /**
   * Whether a render re-encodes as JPEG, as files.ts:198 is written: it
   * compares the whole base name with `gif`, which holds for any file with
   * an extension, so gifs are re-encoded too.
   */
  predicate TranscodeGuardAsWritten(filePath: string) {
    BaseName(filePath) != "gif"
  }

  /** Whether a render re-encodes as JPEG, as the comment at files.ts:197 means it: every source but a gif. */
  predicate TranscodesToJpeg(filePath: string) {
    ExtName(filePath) != ".gif"
  }

  /** The guard as written lets a gif through; the intended one does not, and differs from it on gifs only. */
  lemma GifGuard(dir: string, stem: string)
    requires stem != "" && '/' !in stem && '.' !in stem
    ensures TranscodeGuardAsWritten(Resolve(dir, stem + ".gif"))
    ensures !TranscodesToJpeg(Resolve(dir, stem + ".gif"))
    ensures forall p :: TranscodesToJpeg(p) ==> ExtName(p) != ".gif"
  {
    var p := Resolve(dir, stem + ".gif");
    BaseNameOfResolve(dir, stem + ".gif");
    assert |BaseName(p)| > 3;
    ExtNameOf(p, stem, "gif");
  }

  /** As written, the guard re-encodes every file that has an extension, whatever the extension is. */
  lemma GuardAsWrittenAlwaysHolds(dir: string, stem: string, e: string)
    requires stem != "" && '/' !in stem && '/' !in e
    ensures TranscodeGuardAsWritten(Resolve(dir, stem + "." + e))
  {
    var name := stem + "." + e;
    assert '/' !in name by {
      assert name == stem + ['.'] + e;
    }
    BaseNameOfResolve(dir, name);
    assert name[|stem|] == '.';
    assert '.' !in "gif";
  }

  /** The intended guard re-encodes a file `stem.e` exactly when `e` is not `gif`. */
  lemma IntendedGuard(dir: string, stem: string, e: string)
    requires stem != "" && '/' !in stem && '.' !in stem && '/' !in e && '.' !in e
    ensures TranscodesToJpeg(Resolve(dir, stem + "." + e)) <==> e != "gif"
  {
    ExtNameOfResolved(dir, stem, e);
    DotPrefix(".gif", e);
    assert ".gif"[1..] == "gif";
  }

  /** What `resizeImage` asks `sharp` for, as files.ts:197-202 is written. */
  function RequestAsWritten(filePath: string, destination: string, size: nat, quality: nat): (q: RenderRequest)
    ensures q.source == filePath && q.destination == destination && q.box == size
    ensures q.jpegQuality.Some? <==> TranscodeGuardAsWritten(filePath)
    ensures q.jpegQuality.Some? ==> q.jpegQuality.value == quality
  {
    RenderRequest(filePath, destination, size, QualityAsWritten(filePath, quality))
  }

  /** The JPEG quality `resizeImage` asks for, as files.ts:198 is written. */
  function QualityAsWritten(filePath: string, quality: nat): Option<nat> {
    if TranscodeGuardAsWritten(filePath) then Some(quality) else None
  }

  /** What `resizeImage` evidently means to ask for: a JPEG re-encode of every source but a gif. */
  function IntendedRequest(filePath: string, destination: string, size: nat, quality: nat): (q: RenderRequest)
    ensures q.source == filePath && q.destination == destination && q.box == size
    ensures q.jpegQuality.Some? <==> TranscodesToJpeg(filePath)
    ensures q.jpegQuality.Some? ==> q.jpegQuality.value == quality
  {
    RenderRequest(filePath, destination, size, if TranscodesToJpeg(filePath) then Some(quality) else None)
  }

  /** As written, a gif is asked to be re-encoded as JPEG; as intended, it is not, while every other image still is. */
  lemma GifRequest(dir: string, stem: string, e: string, destination: string, size: nat, quality: nat)
    requires stem != "" && '/' !in stem && '.' !in stem && '/' !in e && '.' !in e
    ensures RequestAsWritten(Resolve(dir, stem + "." + e), destination, size, quality).jpegQuality == Some(quality)
    ensures IntendedRequest(Resolve(dir, stem + "." + e), destination, size, quality).jpegQuality ==
      if e == "gif" then None else Some(quality)
  {
    GuardAsWrittenAlwaysHolds(dir, stem, e);
    IntendedGuard(dir, stem, e);
  }

  /** What one `resizeImage` call resolves to, asks `sharp` for, leaves in the file system and records as missing. */
  datatype ResizeStep = ResizeStep(result: Result<string, string>, request: Option<RenderRequest>,
                                   fs: map<string, nat>, recorded: seq<MissingImage>)

  /**
   * What every `resizeImage` call on one image shares: the source path,
   * the bare stem a fresh thumbnail resolves to, the JPEG quality asked
   * for, and the missing-images entry a failed render records, whose
   * reason is then the render's message.
   */
  datatype ResizeSource = ResizeSource(filePath: string, fileName: string, jpegQuality: Option<nat>, missing: MissingImage)

  /** The shared part of `resizeImage` for submission `s`'s image at `filePath`, as written. */
  function SourceOf(s: RawSubmission, filePath: string, quality: nat): (src: ResizeSource)
    ensures src.filePath == filePath && src.fileName == Stem(filePath)
    ensures forall dest, size :: RenderRequest(filePath, dest, size, src.jpegQuality) == RequestAsWritten(filePath, dest, size, quality)
    ensures forall m :: src.missing.(reason := m) == RenderFailure(s, filePath, m)
  {
    ResizeSource(filePath, Stem(filePath), QualityAsWritten(filePath, quality), RenderFailure(s, filePath, ""))
  }

  /**
   * `resizeImage` for one size, whose thumbnail goes to `dest`: an existing
   * thumbnail resolves to its path without a render; otherwise the
   * render's outcome decides between the written thumbnail, resolving to
   * the bare stem, and one recorded missing image with a rejection.
   */
  function Resized(dest: string, src: ResizeSource, size: nat, render: RenderOutcome, fs: map<string, nat>): ResizeStep
  {
    if dest in fs then ResizeStep(Ok(dest), None, fs, [])
    else
      var request := Some(RenderRequest(src.filePath, dest, size, src.jpegQuality));
      match render
      case Rendered(n) => ResizeStep(Ok(src.fileName), request, fs[dest := n], [])
      case RenderFailed(m) => ResizeStep(Err(m), request, fs, [src.missing.(reason := m)])
  }

  /**
   * What one resize does: it renders only a thumbnail not stored yet, with
   * the request as written; it resolves exactly when the thumbnail was
   * stored or rendered, and then the thumbnail is stored and nothing is
   * recorded; a failed render changes no file and records one missing
   * image with its message.  Files are only ever added.
   */
  lemma ResizedOutcome(dest: string, src: ResizeSource, size: nat, render: RenderOutcome, fs: map<string, nat>)
    ensures var step := Resized(dest, src, size, render, fs);
      && fs.Keys <= step.fs.Keys
      && (step.request.None? <==> dest in fs)
      && (step.request.Some? ==> step.request.value == RenderRequest(src.filePath, dest, size, src.jpegQuality))
      && (step.result.Ok? <==> dest in fs || render.Rendered?)
      && (step.result.Ok? ==> dest in step.fs && step.recorded == [])
      && (step.result.Err? ==> render == RenderFailed(step.result.error) && step.fs == fs
                               && step.recorded == [src.missing.(reason := step.result.error)])
      && (dest !in fs && render.Rendered? ==> step.result == Ok(src.fileName))
  {
  }

  // ---------------------------------------------------------------- dimensions

  /** What `probe-image-size` answers for a thumbnail. */
  datatype ProbeOutcome = Probed(width: nat, height: nat) | ProbeFailed(message: string)

  datatype Dimensions = Dimensions(width: nat, height: nat)

  /** What `fetchDimensions` finds before probing: checked in this order. */
  datatype FileCheck = FileMissing | NotAnImage(extension: string) | Probeable(path: string)

  function CheckFile(filePath: Option<string>, fs: map<string, nat>): FileCheck {
    if !PathSet(filePath) || filePath.value !in fs then FileMissing
    else if !IsImage(filePath.value) then NotAnImage(ExtName(filePath.value))
    else Probeable(filePath.value)
  }

  function MissingFileMessage(id: Option<Cell>, filePath: Option<string>): string {
    "fetchDimensions(): [" + Display(id) + "] File doesn't exist: " + DisplayPath(filePath)
  }

  function NotAnImageMessage(id: Option<Cell>, extension: string): string {
    "fetchDimensions(): [" + Display(id) + "] File is not an image: " + extension
  }

  /** The missing-images entries `fetchDimensions` records for one submission: none, or exactly one. */
  function DimensionDiagnostics(id: Option<Cell>, name: Option<Cell>, link: Option<Cell>, check: FileCheck): (d: seq<MissingImage>)
    ensures |d| == (if check.Probeable? then 0 else 1)
    ensures check.FileMissing? ==> d[0].reason == FileMissingReason && d[0].extension == None
    ensures check.NotAnImage? ==> d[0].reason == NotAnImageReason && d[0].extension == Some(check.extension)
    ensures forall e :: e in d ==> e.id == id && e.name == name && e.link == link
  {
    match check
    case FileMissing => [MissingImage(id, name, FileMissingReason, None, link)]
    case NotAnImage(ext) => [MissingImage(id, name, NotAnImageReason, Some(ext), link)]
    case Probeable(_) => []
  }

  /**
   * The missing-images entries `probeImageDimensions` records for a list of
   * submissions whose image paths are `paths`, in list order.
   */
  function ProbeDiagnostics(subs: seq<RawSubmission>, paths: seq<Option<string>>, fs: map<string, nat>): (d: seq<MissingImage>)
    requires |paths| == |subs|
    ensures |d| <= |subs|
  {
    if |subs| == 0 then []
    else
      var s := subs[|subs| - 1];
      ProbeDiagnostics(subs[..|subs| - 1], paths[..|subs| - 1], fs)
        + DimensionDiagnostics(s.Id(), s.Name(), s.ImageRgb(), CheckFile(paths[|subs| - 1], fs))
  }

  lemma ProbeDiagnosticsNext(subs: seq<RawSubmission>, paths: seq<Option<string>>, fs: map<string, nat>, i: nat)
    requires |paths| == |subs| && i < |subs|
    ensures ProbeDiagnostics(subs[..i + 1], paths[..i + 1], fs) ==
      ProbeDiagnostics(subs[..i], paths[..i], fs)
        + DimensionDiagnostics(subs[i].Id(), subs[i].Name(), subs[i].ImageRgb(), CheckFile(paths[i], fs))
  {
    assert subs[..i + 1][..i] == subs[..i];
    assert paths[..i + 1][..i] == paths[..i];
  }

  /** The error message `fetchDimensions` records for one submission: none, or exactly one. */
  function DimensionErrors(id: Option<Cell>, filePath: Option<string>, check: FileCheck): (e: seq<string>)
    ensures |e| == (if check.Probeable? then 0 else 1)
    ensures check.FileMissing? ==> e == [MissingFileMessage(id, filePath)]
    ensures check.NotAnImage? ==> e == [NotAnImageMessage(id, check.extension)]
  {
    match check
    case FileMissing => [MissingFileMessage(id, filePath)]
    case NotAnImage(ext) => [NotAnImageMessage(id, ext)]
    case Probeable(_) => []
  }

  /**
   * The error messages `probeImageDimensions` records for a list of
   * submissions whose image paths are `paths`, in list order: one for
   * every missing-images entry.
   */
  function ProbeErrors(subs: seq<RawSubmission>, paths: seq<Option<string>>, fs: map<string, nat>): (e: seq<string>)
    requires |paths| == |subs|
    ensures |e| == |ProbeDiagnostics(subs, paths, fs)|
  {
    if |subs| == 0 then []
    else
      var s := subs[|subs| - 1];
      ProbeErrors(subs[..|subs| - 1], paths[..|subs| - 1], fs)
        + DimensionErrors(s.Id(), paths[|subs| - 1], CheckFile(paths[|subs| - 1], fs))
  }

  lemma ProbeErrorsNext(subs: seq<RawSubmission>, paths: seq<Option<string>>, fs: map<string, nat>, i: nat)
    requires |paths| == |subs| && i < |subs|
    ensures ProbeErrors(subs[..i + 1], paths[..i + 1], fs) ==
      ProbeErrors(subs[..i], paths[..i], fs) + DimensionErrors(subs[i].Id(), paths[i], CheckFile(paths[i], fs))
  {
    assert subs[..i + 1][..i] == subs[..i];
    assert paths[..i + 1][..i] == paths[..i];
  }

  /** The image path of every submission of a list. */
  function FilePaths(subs: seq<RawSubmission>): (r: seq<Option<string>>)
    reads subs
    ensures |r| == |subs| && forall k :: 0 <= k < |subs| ==> r[k] == subs[k].filePath
  {
    seq(|subs|, k requires 0 <= k < |subs| reads subs => subs[k].filePath)
  }

  /** The width and height `probeImageDimensions` sets on one submission, or none. */
  function ProbedDimensions(check: FileCheck, probe: ProbeOutcome): Option<Dimensions> {
    if check.Probeable? && probe.Probed? then Some(Dimensions(probe.width, probe.height)) else None
  }

  /**
   * Only a stored image is probed, and a submission is reported as a
   * missing image exactly when its file is absent or is not an image; the
   * report then names the file's extension, or none when there is no file.
   */
  lemma ProbeOnlyStoredImages(id: Option<Cell>, name: Option<Cell>, link: Option<Cell>,
                              filePath: Option<string>, fs: map<string, nat>, probe: ProbeOutcome)
    ensures var check := CheckFile(filePath, fs);
      var stored := PathSet(filePath) && filePath.value in fs;
      && (ProbedDimensions(check, probe).Some? <==> stored && IsImage(filePath.value) && probe.Probed?)
      && (DimensionDiagnostics(id, name, link, check) == [] <==> stored && IsImage(filePath.value))
      && (!stored ==> DimensionDiagnostics(id, name, link, check)[0].extension == None)
      && (stored && !IsImage(filePath.value) ==>
            DimensionDiagnostics(id, name, link, check)[0].extension == Some(ExtName(filePath.value)))
  {
  }

  // ---------------------------------------------------------------- module state

  /**
   * The state files.ts works on: the file system under the submissions
   * directory `root`, and the module-level `errors` and `missingImages`
   * arrays, to which the functions only ever append.
   */
  class Workspace {
    const root: string
    var fs: map<string, nat>
    var errors: seq<string>
    var missingImages: seq<MissingImage>

    constructor (root: string, fs: map<string, nat>)
      ensures this.root == root && this.fs == fs
      ensures errors == [] && missingImages == []
    {
      this.root := root;
      this.fs := fs;
      errors := [];
      missingImages := [];
    }

    /**
     * `downloadFile`: resolves to the path of the submission's file, or
     * rejects.  Only a fresh download consults the network; a transport
     * error removes the partly written file, and a request that throws
     * before it is sent leaves the file the write stream created, empty.
     */
    method DownloadFile(s: RawSubmission, overrides: seq<string>, fetch: FetchOutcome)
      returns (r: Result<string, string>, fetched: bool)
      modifies this`fs
      ensures var plan := PlanAcquisition(root, s.Id(), s.ImageRgb(), overrides, old(fs));
        fetched == plan.Fetch? && (r, fs) == Downloaded(plan, fetch, old(fs))
    {
      var plan := PlanAcquisition(root, s.Id(), s.ImageRgb(), overrides, fs);
      ghost var outcome := Downloaded(plan, fetch, fs);
      fetched := false;
      match plan {
        case NoUrl =>
          r := Err(MissingUrlMessage);
        case UrlNotText =>
          r := Err(PathTypeMessage);
        case Override(p) =>
          r := Ok(p);
        case Cached(p) =>
          r := Ok(p);
        case Fetch(p) =>
          fetched := true;
          match fetch {
            case Fetched(n) =>
              fs := fs[p := n];
              r := Ok(p);
            case TransportError(m) =>
              fs := fs - {p};
              r := Err(m);
            case RequestRejected(m) =>
              fs := fs[p := 0];
              r := Err(m);
          }
      }
    }

    /**
     * `convertPdf`: lets the converter write page 0, then, when the page
     * image exists, moves it next to the overrides under the PDF's name with
     * the page's extension and returns that path; otherwise returns the
     * PDF's own path.
     */
    method ConvertPdf(filePath: string, pdf: PdfOutcome) returns (r: string)
      modifies this`fs
      ensures (r, fs) == PdfConverted(filePath, pdf, old(fs))
    {
      ghost var outcome := PdfConverted(filePath, pdf, fs);
      r := filePath;
      if pdf.PageConverted? {
        var written := fs;
        if pdf.written.Some? {
          written := written[pdf.pagePath := pdf.written.value];
        }
        if pdf.pagePath in written {
          r := PdfOverridePath(filePath, pdf.pagePath);
          fs := Moved(written, pdf.pagePath, r);
        }
      }
    }

    /**
     * `correctFileType`: renames the file to the detected extension, under
     * `overrides`, unless the detection failed, is one of the kept types,
     * or the name already fits; a failed detection or move gives a null mime.
     */
    method CorrectFileType(filePath: string, sniff: SniffOutcome) returns (path: string, mime: Option<string>)
      modifies this`fs
      ensures (path, mime, fs) == Corrected(filePath, sniff, old(fs))
    {
      path, mime := filePath, None;
      match sniff {
        case Detected(e, m) =>
          if e in KeptDetections {
            mime := Some(m);
          } else {
            var renameTo := RenameTarget(filePath, e);
            if filePath == renameTo {
              mime := Some(m);
            } else if filePath in fs {
              renameTo := OverridePath(renameTo);
              fs := Moved(fs, filePath, renameTo);
              path, mime := renameTo, Some(m);
            }
          }
        case Undetected =>
        case SniffFailed(_) =>
      }
    }

    /**
     * `resizeImage`: returns an existing thumbnail's path without rendering;
     * otherwise asks for a render and resolves to the bare stem on success,
     * or records a missing image and rejects.
     */
    method ResizeImage(s: RawSubmission, filePath: string, size: nat, quality: nat, render: RenderOutcome)
      returns (r: Result<string, string>, request: Option<RenderRequest>)
      modifies this`fs, this`missingImages
      ensures var step := Resized(ThumbDestination(root, filePath, size), SourceOf(s, filePath, quality), size, render, old(fs));
        && r == step.result && request == step.request && fs == step.fs
        && missingImages == old(missingImages) + step.recorded
      ensures request.Some? ==> request.value == RequestAsWritten(filePath, ThumbDestination(root, filePath, size), size, quality)
      ensures r.Ok? ==> ThumbDestination(root, filePath, size) in fs && missingImages == old(missingImages)
      ensures r.Err? ==> missingImages == old(missingImages) + [RenderFailure(s, filePath, r.error)]
      ensures old(fs).Keys <= fs.Keys
    {
      var src := SourceOf(s, filePath, quality);
      var dest := ThumbDestination(root, filePath, size);
      ResizedOutcome(dest, src, size, render, fs);
      if dest in fs {
        return Ok(dest), None;
      }
      request := Some(RequestAsWritten(filePath, dest, size, quality));
      match render {
        case Rendered(n) =>
          fs := fs[dest := n];
          r := Ok(src.fileName);
        case RenderFailed(m) =>
          missingImages := missingImages + [RenderFailure(s, filePath, m)];
          r := Err(m);
      }
    }

    /**
     * `fetchDimensions`: a missing file, then a non-image, each add one
     * missing-images entry and one error and reject; otherwise the probe
     * decides.
     */
    method FetchDimensions(s: RawSubmission, probe: ProbeOutcome) returns (r: Result<Dimensions, string>)
      modifies this`errors, this`missingImages
      ensures var check := old(CheckFile(s.filePath, fs));
        && missingImages == old(missingImages + DimensionDiagnostics(s.Id(), s.Name(), s.ImageRgb(), check))
        && match check
           case FileMissing =>
             r == Err(old(MissingFileMessage(s.Id(), s.filePath))) && errors == old(errors) + [r.error]
           case NotAnImage(ext) =>
             r == Err(NotAnImageMessage(s.Id(), ext)) && errors == old(errors) + [r.error]
           case Probeable(_) =>
             errors == old(errors)
             && r == match probe
                     case Probed(w, h) => Ok(Dimensions(w, h))
                     case ProbeFailed(m) => Err(m)
      ensures var d := ProbedDimensions(old(CheckFile(s.filePath, fs)), probe);
        (r.Ok? <==> d.Some?) && (r.Ok? ==> d == Some(r.value))
      ensures errors == old(errors + DimensionErrors(s.Id(), s.filePath, CheckFile(s.filePath, fs)))
    {
      var check := CheckFile(s.filePath, fs);
      match check {
        case FileMissing =>
          var message := MissingFileMessage(s.Id(), s.filePath);
          missingImages := missingImages + [MissingImage(s.Id(), s.Name(), FileMissingReason, None, s.ImageRgb())];
          errors := errors + [message];
          r := Err(message);
        case NotAnImage(ext) =>
          var message := NotAnImageMessage(s.Id(), ext);
          errors := errors + [message];
          missingImages := missingImages + [MissingImage(s.Id(), s.Name(), NotAnImageReason, Some(ext), s.ImageRgb())];
          r := Err(message);
        case Probeable(_) =>
          match probe {
            case Probed(w, h) => r := Ok(Dimensions(w, h));
            case ProbeFailed(m) => r := Err(m);
          }
      }
    }

    /**
     * The body `probeImageDimensions` runs for one submission: the probed
     * width and height are set on success; a failure is swallowed.
     */
    method ProbeOne(s: RawSubmission, probe: ProbeOutcome)
      modifies this`errors, this`missingImages, s`width, s`height
      ensures missingImages == old(missingImages + DimensionDiagnostics(s.Id(), s.Name(), s.ImageRgb(), CheckFile(s.filePath, fs)))
      ensures errors == old(errors + DimensionErrors(s.Id(), s.filePath, CheckFile(s.filePath, fs)))
      ensures var d := ProbedDimensions(old(CheckFile(s.filePath, fs)), probe);
        s.width == ProbedWidth(d, old(s.width)) && s.height == ProbedHeight(d, old(s.height))
    {
      var r := FetchDimensions(s, probe);
      StoreDimensions(s, r);
    }

    /**
     * `probeImageDimensions`: every submission comes back; each gets the
     * probed width and height when its check and probe succeed and keeps
     * its old ones otherwise; the missing-images report grows by the
     * entries of the failed checks.
     */
    method ProbeImageDimensions(subs: seq<RawSubmission>, probes: seq<ProbeOutcome>)
      returns (results: seq<RawSubmission>)
      requires |probes| == |subs|
      requires forall i, j :: 0 <= i < j < |subs| ==> subs[i] != subs[j]
      modifies this`errors, this`missingImages, subs`width, subs`height
      ensures multiset(results) == multiset(subs)
      ensures forall i :: 0 <= i < |subs| ==>
        var d := ProbedDimensions(CheckFile(old(subs[i].filePath), old(fs)), probes[i]);
        subs[i].width == ProbedWidth(d, old(subs[i].width)) && subs[i].height == ProbedHeight(d, old(subs[i].height))
      ensures |missingImages| >= |old(missingImages)|
      ensures missingImages[..|old(missingImages)|] == old(missingImages)
      ensures multiset(missingImages[|old(missingImages)|..]) == multiset(ProbeDiagnostics(subs, old(FilePaths(subs)), old(fs)))
      ensures |errors| >= |old(errors)|
      ensures errors[..|old(errors)|] == old(errors)
      ensures multiset(errors[|old(errors)|..]) == multiset(ProbeErrors(subs, old(FilePaths(subs)), old(fs)))
    {
      ghost var paths := FilePaths(subs);
      ghost var widths := seq(|subs|, k requires 0 <= k < |subs| reads subs => subs[k].width);
      ghost var heights := seq(|subs|, k requires 0 <= k < |subs| reads subs => subs[k].height);
      ProbeAll(subs, probes, paths, widths, heights, fs);
      results := subs;
    }

    /** The pool's loop over the submissions, in list order. */
    method ProbeAll(subs: seq<RawSubmission>, probes: seq<ProbeOutcome>, ghost paths: seq<Option<string>>,
                    ghost widths: seq<Option<nat>>, ghost heights: seq<Option<nat>>, ghost files: map<string, nat>)
      requires |probes| == |subs| && files == fs
      requires forall i, j :: 0 <= i < j < |subs| ==> subs[i] != subs[j]
      requires ProbedUpTo(subs, probes, paths, widths, heights, files, 0)
      requires forall k :: 0 <= k < |subs| ==> subs[k].filePath == paths[k]
      modifies this`errors, this`missingImages, subs`width, subs`height
      ensures ProbedUpTo(subs, probes, paths, widths, heights, files, |subs|)
      ensures missingImages == old(missingImages) + ProbeDiagnostics(subs, paths, files)
      ensures errors == old(errors) + ProbeErrors(subs, paths, files)
    {
      ghost var missing0, errors0 := missingImages, errors;
      var i := 0;
      while i < |subs|
        invariant 0 <= i <= |subs|
        invariant ProbedUpTo(subs, probes, paths, widths, heights, fs, i)
        invariant missingImages == missing0 + ProbeDiagnostics(subs[..i], paths[..i], fs)
        invariant errors == errors0 + ProbeErrors(subs[..i], paths[..i], fs)
      {
        assert subs[i].filePath == paths[i];
        ProbeStep(subs, probes, paths, widths, heights, missing0, errors0, i);
        i := i + 1;
      }
      assert subs[..i] == subs && paths[..i] == paths;
    }

    /** One turn of the pool: submission `i` is probed and the others keep their dimensions. */
    method ProbeStep(subs: seq<RawSubmission>, probes: seq<ProbeOutcome>, ghost paths: seq<Option<string>>,
                     ghost widths: seq<Option<nat>>, ghost heights: seq<Option<nat>>,
                     ghost missing0: seq<MissingImage>, ghost errors0: seq<string>, i: nat)
      requires |probes| == |subs| && i < |subs|
      requires forall i, j :: 0 <= i < j < |subs| ==> subs[i] != subs[j]
      requires ProbedUpTo(subs, probes, paths, widths, heights, fs, i)
      requires subs[i].filePath == paths[i]
      requires missingImages == missing0 + ProbeDiagnostics(subs[..i], paths[..i], fs)
      requires errors == errors0 + ProbeErrors(subs[..i], paths[..i], fs)
      modifies this`errors, this`missingImages, {subs[i]}`width, {subs[i]}`height
      ensures ProbedUpTo(subs, probes, paths, widths, heights, fs, i + 1)
      ensures missingImages == missing0 + ProbeDiagnostics(subs[..i + 1], paths[..i + 1], fs)
      ensures errors == errors0 + ProbeErrors(subs[..i + 1], paths[..i + 1], fs)
    {
      var s := subs[i];
      ProbeLogged(s, probes[i], subs, paths, missing0, errors0, i);
      forall k | 0 <= k < i
        ensures var d := ProbedDimensions(CheckFile(paths[k], fs), probes[k]);
          subs[k].width == ProbedWidth(d, widths[k]) && subs[k].height == ProbedHeight(d, heights[k])
      {
        assert subs[k] != s;
      }
      forall k | i < k < |subs| ensures subs[k].width == widths[k] && subs[k].height == heights[k] {
        assert subs[k] != s;
      }
    }
    /** Probing submission `i` appends its entries and messages after those of the submissions before it. */
    method ProbeLogged(s: RawSubmission, probe: ProbeOutcome, ghost subs: seq<RawSubmission>,
                       ghost paths: seq<Option<string>>, ghost missing0: seq<MissingImage>,
                       ghost errors0: seq<string>, ghost i: nat)
      requires |paths| == |subs| && i < |subs| && subs[i] == s && s.filePath == paths[i]
      requires missingImages == missing0 + ProbeDiagnostics(subs[..i], paths[..i], fs)
      requires errors == errors0 + ProbeErrors(subs[..i], paths[..i], fs)
      modifies this`errors, this`missingImages, s`width, s`height
      ensures missingImages == missing0 + ProbeDiagnostics(subs[..i + 1], paths[..i + 1], fs)
      ensures errors == errors0 + ProbeErrors(subs[..i + 1], paths[..i + 1], fs)
      ensures var d := ProbedDimensions(CheckFile(paths[i], fs), probe);
        s.width == ProbedWidth(d, old(s.width)) && s.height == ProbedHeight(d, old(s.height))
    {
      ghost var before := ProbeDiagnostics(subs[..i], paths[..i], fs);
      ghost var added := DimensionDiagnostics(s.Id(), s.Name(), s.ImageRgb(), CheckFile(paths[i], fs));
      ghost var errorsBefore := ProbeErrors(subs[..i], paths[..i], fs);
      ghost var errorsAdded := DimensionErrors(s.Id(), paths[i], CheckFile(paths[i], fs));
      ProbeOne(s, probe);
      assert missingImages == missing0 + (before + added);
      assert errors == errors0 + (errorsBefore + errorsAdded);
      ProbeDiagnosticsNext(subs, paths, fs, i);
      ProbeErrorsNext(subs, paths, fs, i);
    }
  }

  /**
   * Submissions before `i` carry their probed dimensions, those from `i` on
   * their original `widths` and `heights`.
   */
  predicate ProbedUpTo(subs: seq<RawSubmission>, probes: seq<ProbeOutcome>, paths: seq<Option<string>>,
                       widths: seq<Option<nat>>, heights: seq<Option<nat>>, fs: map<string, nat>, i: nat)
    reads subs
  {
    && |probes| == |paths| == |widths| == |heights| == |subs|
    && i <= |subs|
    && (forall k :: 0 <= k < i ==>
          var d := ProbedDimensions(CheckFile(paths[k], fs), probes[k]);
          subs[k].width == ProbedWidth(d, widths[k]) && subs[k].height == ProbedHeight(d, heights[k]))
    && (forall k :: i <= k < |subs| ==> subs[k].width == widths[k] && subs[k].height == heights[k])
  }

  /** The width a submission ends with: the probed one, or the one it had before. */
  function ProbedWidth(d: Option<Dimensions>, width0: Option<nat>): Option<nat> {
    if d.Some? then Some(d.value.width) else width0
  }

  /** A successful probe sets both dimensions; a failed one leaves them as they were. */
  method StoreDimensions(s: RawSubmission, r: Result<Dimensions, string>)
    modifies s`width, s`height
    ensures s.width == ProbedWidth(if r.Ok? then Some(r.value) else None, old(s.width))
    ensures s.height == ProbedHeight(if r.Ok? then Some(r.value) else None, old(s.height))
  {
    if r.Ok? {
      s.width := Some(r.value.width);
      s.height := Some(r.value.height);
    }
  }

  /** The height a submission ends with: the probed one, or the one it had before. */
  function ProbedHeight(d: Option<Dimensions>, height0: Option<nat>): Option<nat> {
    if d.Some? then Some(d.value.height) else height0
  }
}
