/**
 * The records the conversion tool passes between its stages: CSV cells
 * as csv-parse produces them with `cast: true`, rows keyed by normalised
 * column names, and the mutable submission object that each stage of the
 * download pipeline fills in (tools/convert/submissions.ts:121-156).
 */
module Records {
  import opened Wrappers
  import opened JsString
  import opened NodePath

  /** A CSV cell: text, or a numeral that csv-parse cast to a number. */
  datatype Cell = Text(text: string) | Num(n: int)

  /** JavaScript truthiness of a cell that may be `undefined`. */
  predicate Truthy(c: Option<Cell>) {
    match c
    case None => false
    case Some(Text(t)) => t != ""
    case Some(Num(n)) => n != 0
  }

  /** A cell that may be `undefined`, as a template literal renders it. */
  function Display(c: Option<Cell>): string {
    match c
    case None => "undefined"
    case Some(Text(t)) => t
    case Some(Num(n)) => IntToString(n)
  }

  /** A path field that may be `undefined`, as a template literal renders it. */
  function DisplayPath(p: Option<string>): string {
    match p
    case None => "undefined"
    case Some(t) => t
  }

  /** JavaScript truthiness of a path field: set and not empty. */
  predicate PathSet(p: Option<string>) {
    p.Some? && p.value != ""
  }

  /** A parsed CSV row: normalised column name to cell. */
  type Row = map<string, Cell>

  /** `row[key]`: `undefined` when the column is absent. */
  function Get(row: Row, key: string): Option<Cell> {
    if key in row then Some(row[key]) else None
  }

  /** White space replaced by `_`, character for character. */
  function Underscore(s: string): (r: string)
    ensures |r| == |s|
    ensures forall i :: 0 <= i < |s| ==> r[i] == if IsWhitespace(s[i]) then '_' else s[i]
  {
    seq(|s|, i requires 0 <= i < |s| => if IsWhitespace(s[i]) then '_' else s[i])
  }

  /**
   * A column name as the parser normalises it: lower-cased, trimmed, then
   * split at every white-space character and re-joined with `_`.
   */
  function NormaliseColumn(column: string): (r: string)
    ensures NoWhitespace(r)
    ensures IsLower(r)
    ensures |r| <= |column|
  {
    LowerIsLower(column);
    LowerEach(column);
    TrimEnds(Lower(column));
    TrimKeepsLower(Lower(column));
    Underscore(Trim(Lower(column)))
  }

  /** Normalising a normalised column name changes nothing. */
  lemma NormaliseColumnIdempotent(column: string)
    ensures NormaliseColumn(NormaliseColumn(column)) == NormaliseColumn(column)
  {
    NormalisedKeeps(NormaliseColumn(column));
  }

  /** A lower-case name without white space is its own normal form. */
  lemma NormalisedKeeps(n: string)
    requires NoWhitespace(n) && IsLower(n)
    ensures NormaliseColumn(n) == n
  {
    assert Lower(n) == n;
    TrimKeeps(n);
    assert Underscore(n) == n;
  }

  /** Pairs the column names with the cells of one record; a later duplicate column wins. */
  function RowOf(columns: seq<string>, cells: seq<Cell>): Row
    requires |columns| == |cells|
  {
    if |columns| == 0 then map[]
    else RowOf(columns[..|columns| - 1], cells[..|cells| - 1])[columns[|columns| - 1] := cells[|cells| - 1]]
  }

  /** Every column of a row is one of the column names, and each of them is one. */
  lemma {:induction false} RowKeys(columns: seq<string>, cells: seq<Cell>, key: string)
    requires |columns| == |cells|
    ensures key in RowOf(columns, cells) <==> key in columns
    decreases |columns|
  {
    if |columns| > 0 {
      var n := |columns| - 1;
      RowKeys(columns[..n], cells[..n], key);
      assert columns == columns[..n] + [columns[n]];
    }
  }

  /**
   * The CSV records as objects keyed by the normalised header, or the
   * parser's rejection when a record's length differs from the header's.
   */
  function Rows(header: seq<string>, records: seq<seq<Cell>>): Result<seq<Row>, string> {
    if exists i :: 0 <= i < |records| && |records[i]| != |header| then Err("Invalid Record Length")
    else
      var columns := Columns(header);
      Ok(seq(|records|, i requires 0 <= i < |records| => RowOf(columns, records[i])))
  }

  /** The header with every column name normalised. */
  function Columns(header: seq<string>): (r: seq<string>)
    ensures |r| == |header|
    ensures forall i :: 0 <= i < |r| ==> r[i] == NormaliseColumn(header[i])
  {
    seq(|header|, i requires 0 <= i < |header| => NormaliseColumn(header[i]))
  }

  /**
   * One submission as it moves through the pipeline: the CSV row never
   * changes; the pipeline stages set the other fields in place.
   */
  class RawSubmission {
    const row: Row
    var mime: Option<string>
    var filePath: Option<string>
    var thumbPath: Option<string>
    var colour: Option<string>
    var width: Option<nat>
    var height: Option<nat>

    constructor (row: Row)
      ensures this.row == row
      ensures mime == None && filePath == None && thumbPath == None && colour == None
      ensures width == None && height == None
    {
      this.row := row;
      mime, filePath, thumbPath, colour := None, None, None, None;
      width, height := None, None;
    }

    function Id(): Option<Cell> { Get(row, "id") }
    function Name(): Option<Cell> { Get(row, "name") }
    function ImageRgb(): Option<Cell> { Get(row, "image_rgb") }
  }

  /** A submission as `persist` writes it to `submissions.json`. */
  datatype Submission = Submission(
    id: Option<Cell>,
    name: Option<Cell>,
    description: Option<Cell>,
    website: Option<Cell>,
    instagram: Option<Cell>,
    categories: seq<string>,
    width: Option<nat>,
    height: Option<nat>,
    ratio: Option<real>,
    colour: Option<string>,
    fileName: Option<string>,
    thumbName: Option<string>)

  /** JavaScript truthiness of a dimension: set and not zero. */
  predicate DimensionSet(d: Option<nat>) {
    d.Some? && d.value != 0
  }

  /** `width && height ? width / height : null`. */
  function AspectRatio(width: Option<nat>, height: Option<nat>): (r: Option<real>)
    ensures r.Some? <==> DimensionSet(width) && DimensionSet(height)
    ensures r.Some? ==> r.value * height.value as real == width.value as real && r.value > 0.0
  {
    if DimensionSet(width) && DimensionSet(height) then Some(width.value as real / height.value as real) else None
  }

  /** `p ? path.basename(p) : null`. */
  function BaseNameOrNull(p: Option<string>): (r: Option<string>)
    ensures r.Some? <==> PathSet(p)
    ensures r.Some? ==> '/' !in r.value
  {
    if PathSet(p) then Some(BaseName(p.value)) else None
  }

  /**
   * The record `persist` builds for one submission, given its categories:
   * the descriptive columns copied, the ratio, and the base names of the
   * file and the thumbnail.
   */
  function Record(s: RawSubmission, categories: seq<string>): (r: Submission)
    reads s
    ensures r.id == s.Id() && r.name == s.Name()
    ensures r.description == Get(s.row, "description") && r.website == Get(s.row, "website")
    ensures r.instagram == Get(s.row, "instagram")
    ensures r.categories == categories
    ensures r.width == s.width && r.height == s.height && r.colour == s.colour
    ensures r.ratio.Some? <==> DimensionSet(s.width) && DimensionSet(s.height)
    ensures r.ratio.Some? ==> r.ratio.value * s.height.value as real == s.width.value as real
    ensures r.fileName.Some? <==> PathSet(s.filePath)
    ensures r.fileName.Some? ==> r.fileName.value == BaseName(s.filePath.value)
    ensures r.thumbName.Some? <==> PathSet(s.thumbPath)
    ensures r.thumbName.Some? ==> r.thumbName.value == BaseName(s.thumbPath.value)
  {
    Submission(s.Id(), s.Name(), Get(s.row, "description"), Get(s.row, "website"), Get(s.row, "instagram"),
               categories, s.width, s.height, AspectRatio(s.width, s.height), s.colour,
               BaseNameOrNull(s.filePath), BaseNameOrNull(s.thumbPath))
  }

  /** Every record becomes one row, in file order, unless a record's length differs from the header's. */
  lemma RowsShape(header: seq<string>, records: seq<seq<Cell>>)
    ensures Rows(header, records).Ok? <==> forall i :: 0 <= i < |records| ==> |records[i]| == |header|
    ensures Rows(header, records).Ok? ==>
      && |Rows(header, records).value| == |records|
      && forall i :: 0 <= i < |records| ==> Rows(header, records).value[i] == RowOf(Columns(header), records[i])
  {
  }

  /** The columns of a row are the normalised header names: free of white space and lower-case. */
  lemma RowColumns(header: seq<string>, cells: seq<Cell>, key: string)
    requires |cells| == |header|
    requires key in RowOf(Columns(header), cells)
    ensures exists j :: 0 <= j < |header| && key == NormaliseColumn(header[j])
    ensures NoWhitespace(key) && IsLower(key)
  {
    RowKeys(Columns(header), cells, key);
    var j :| 0 <= j < |header| && Columns(header)[j] == key;
  }
}
