/**
 * The missing-images report the conversion tool writes at the end of a
 * run (tools/convert/json.ts:58-63): one line per entry, in the order the
 * entries were recorded, each field wrapped in double quotes, fields
 * joined by commas and lines by newlines.  Nothing inside a field is
 * escaped.
 */
module MissingImagesCsv {
  import opened Wrappers
  import opened JsString
  import opened Records
  import opened Files

  const Quote: char := '"'

  /** A field in double quotes. */
  function Quoted(field: string): string {
    [Quote] + field + [Quote]
  }

  /** An extension as a template literal renders it: a null one is `null`. */
  function ExtensionText(extension: Option<string>): string {
    match extension
    case None => "null"
    case Some(e) => e
  }

  /** The five fields of an entry as text, in report order: id, name, reason, extension, link. */
  function Fields(m: MissingImage): (r: seq<string>)
    ensures |r| == 5
  {
    [Display(m.id), Display(m.name), m.reason, ExtensionText(m.extension), Display(m.link)]
  }

  /** Every field quoted. */
  function QuoteAll(fields: seq<string>): (r: seq<string>)
    ensures |r| == |fields|
    ensures forall i :: 0 <= i < |r| ==> r[i] == Quoted(fields[i])
  {
    seq(|fields|, i requires 0 <= i < |fields| => Quoted(fields[i]))
  }

  /** One line of the report. */
  function Line(m: MissingImage): string {
    Join(QuoteAll(Fields(m)), ",")
  }

  function Lines(entries: seq<MissingImage>): (r: seq<string>)
    ensures |r| == |entries|
    ensures forall i :: 0 <= i < |r| ==> r[i] == Line(entries[i])
  {
    seq(|entries|, i requires 0 <= i < |entries| => Line(entries[i]))
  }

  /** The text of the report. */
  function Report(entries: seq<MissingImage>): string {
    Join(Lines(entries), "\n")
  }

  // ------------------------------------------------------------ reading the report back

  /** The text between the quotes of a line: every second piece between double quotes. */
  function DecodeLine(line: string): (r: seq<string>)
    ensures var pieces := Split(line, Quote);
      |r| == |pieces| / 2 && forall i :: 0 <= i < |r| ==> r[i] == pieces[2 * i + 1]
  {
    var pieces := Split(line, Quote);
    seq(|pieces| / 2, i requires 0 <= i < |pieces| / 2 => pieces[2 * i + 1])
  }

  /** The fields of every line of a report. */
  function DecodeReport(text: string): (r: seq<seq<string>>)
    ensures var lines := Split(text, '\n');
      |r| == |lines| && forall i :: 0 <= i < |r| ==> r[i] == DecodeLine(lines[i])
  {
    var lines := Split(text, '\n');
    seq(|lines|, i requires 0 <= i < |lines| => DecodeLine(lines[i]))
  }

  /** No field of the entry contains a double quote or a newline. */
  predicate Plain(m: MissingImage) {
    forall i :: 0 <= i < 5 ==> Quote !in Fields(m)[i] && '\n' !in Fields(m)[i]
  }

  /** The pieces between the double quotes of quoted fields joined by commas, after the first quote. */
  function Pieces(fields: seq<string>): (r: seq<string>)
    requires |fields| >= 1
    ensures |r| == 2 * |fields| - 1
    ensures forall i :: 0 <= i < |fields| ==> r[2 * i] == fields[i]
    decreases |fields|
  {
    if |fields| == 1 then [fields[0]] else [fields[0], ","] + Pieces(fields[1..])
  }

  /** Quoted fields joined by commas start with a quote, and the rest splits into fields and commas. */
  lemma {:induction false} SplitQuotedFields(fields: seq<string>)
    requires |fields| >= 1
    requires forall i :: 0 <= i < |fields| ==> Quote !in fields[i]
    ensures var text := Join(QuoteAll(fields), ",");
      |text| >= 1 && text[0] == Quote && Split(text[1..], Quote) == Pieces(fields) + [""]
    decreases |fields|
  {
    var text := Join(QuoteAll(fields), ",");
    if |fields| == 1 {
      LastField(fields[0]);
    } else {
      var rest := Join(QuoteAll(fields[1..]), ",");
      SplitQuotedFields(fields[1..]);
      JoinQuoted(fields);
      QuotedStep(fields[0], rest, Pieces(fields[1..]));
      assert Pieces(fields) == [fields[0], ","] + Pieces(fields[1..]);
    }
  }

  lemma LastField(f: string)
    requires Quote !in f
    ensures var text := Join(QuoteAll([f]), ",");
      |text| >= 1 && text[0] == Quote && Split(text[1..], Quote) == [f, ""]
  {
    var text := Join(QuoteAll([f]), ",");
    assert text == Quoted(f);
    assert text[1..] == f + [Quote] + "";
    SplitCons(f, Quote, "");
    assert Split("", Quote) == [""];
  }

  lemma JoinQuoted(fields: seq<string>)
    requires |fields| >= 2
    ensures Join(QuoteAll(fields), ",") == Quoted(fields[0]) + "," + Join(QuoteAll(fields[1..]), ",")
  {
    assert QuoteAll(fields)[1..] == QuoteAll(fields[1..]);
  }

  /** A quoted field and a comma in front of text that starts with a quote add the field and the comma as pieces. */
  lemma QuotedStep(f: string, rest: string, tailPieces: seq<string>)
    requires Quote !in f
    requires |rest| >= 1 && rest[0] == Quote && Split(rest[1..], Quote) == tailPieces + [""]
    ensures var text := Quoted(f) + "," + rest;
      |text| >= 1 && text[0] == Quote && Split(text[1..], Quote) == [f, ","] + tailPieces + [""]
  {
    assert rest == [Quote] + rest[1..];
    NextField(f, rest[1..]);
  }

  lemma NextField(f: string, tail: string)
    requires Quote !in f
    ensures var text := Quoted(f) + "," + ([Quote] + tail);
      text[0] == Quote && Split(text[1..], Quote) == [f, ","] + Split(tail, Quote)
  {
    var text := Quoted(f) + "," + ([Quote] + tail);
    var comma := ",";
    assert Quote !in comma;
    assert text[1..] == f + [Quote] + (comma + [Quote] + tail);
    TwoPieces(f, comma, tail);
  }

  /** Two pieces without quotes, each followed by a quote, come first when splitting at quotes. */
  lemma TwoPieces(a: string, b: string, tail: string)
    requires Quote !in a && Quote !in b
    ensures Split(a + [Quote] + (b + [Quote] + tail), Quote) == [a, b] + Split(tail, Quote)
  {
    var rest := b + [Quote] + tail;
    var pieces := Split(tail, Quote);
    SplitCons(b, Quote, tail);
    SplitCons(a, Quote, rest);
    assert [a] + ([b] + pieces) == [a, b] + pieces;
  }

  /** A line splits at its quotes into an empty piece, the fields with commas between them, and an empty piece. */
  lemma SplitLine(m: MissingImage)
    requires Plain(m)
    ensures Split(Line(m), Quote) == [""] + Pieces(Fields(m)) + [""]
  {
    var fields := Fields(m);
    assert forall i :: 0 <= i < |fields| ==> Quote !in fields[i];
    SplitJoined(fields);
  }

  /** Quoted fields joined by commas split at their quotes into an empty piece, the fields and commas, and an empty piece. */
  lemma SplitJoined(fields: seq<string>)
    requires |fields| >= 1
    requires forall i :: 0 <= i < |fields| ==> Quote !in fields[i]
    ensures Split(Join(QuoteAll(fields), ","), Quote) == [""] + Pieces(fields) + [""]
  {
    SplitQuotedFields(fields);
    LeadingQuote(Join(QuoteAll(fields), ","), Pieces(fields));
  }

  lemma LeadingQuote(text: string, pieces: seq<string>)
    requires |text| >= 1 && text[0] == Quote
    requires Split(text[1..], Quote) == pieces + [""]
    ensures Split(text, Quote) == [""] + pieces + [""]
  {
    assert text == "" + [Quote] + text[1..];
    SplitCons("", Quote, text[1..]);
  }

  /** A line of plain fields decodes to the fields of its entry. */
  lemma LineRoundTrip(m: MissingImage)
    requires Plain(m)
    ensures DecodeLine(Line(m)) == Fields(m)
  {
    SplitLine(m);
    var pieces := Split(Line(m), Quote);
    var fields := Fields(m);
    forall i | 0 <= i < 5 ensures pieces[2 * i + 1] == fields[i] {
      assert pieces[2 * i + 1] == Pieces(fields)[2 * i];
    }
  }

  /** Joining pieces that lack a character with a separator that lacks it gives text without it. */
  lemma {:induction false} JoinLacks(parts: seq<string>, sep: string, c: char)
    requires c !in sep
    requires forall i :: 0 <= i < |parts| ==> c !in parts[i]
    ensures c !in Join(parts, sep)
    decreases |parts|
  {
    if |parts| > 1 {
      JoinLacks(parts[1..], sep, c);
    }
  }

  /** A line of plain fields has no newline. */
  lemma LineHasNoNewline(m: MissingImage)
    requires Plain(m)
    ensures '\n' !in Line(m)
  {
    var q := QuoteAll(Fields(m));
    forall i | 0 <= i < 5 ensures '\n' !in q[i] {
      assert q[i] == [Quote] + Fields(m)[i] + [Quote];
    }
    JoinLacks(q, ",", '\n');
  }

  /**
   * A report of entries whose fields contain no double quote and no
   * newline reads back as the fields of each entry, one line per entry,
   * in the order recorded.
   */
  lemma ReportRoundTrip(entries: seq<MissingImage>)
    requires |entries| >= 1
    requires forall i :: 0 <= i < |entries| ==> Plain(entries[i])
    ensures DecodeReport(Report(entries)) == seq(|entries|, i requires 0 <= i < |entries| => Fields(entries[i]))
  {
    var lines := Lines(entries);
    forall i | 0 <= i < |entries| ensures '\n' !in lines[i] {
      LineHasNoNewline(entries[i]);
    }
    SplitJoin(lines, '\n');
    forall i | 0 <= i < |entries| ensures DecodeLine(lines[i]) == Fields(entries[i]) {
      LineRoundTrip(entries[i]);
    }
  }

  /** No entries, no text: the report is empty, without even a newline. */
  lemma EmptyReport()
    ensures Report([]) == ""
  {
  }

  /** A null extension, as recorded for a missing file, is written as the text `null`. */
  lemma NullExtensionLine(m: MissingImage)
    requires m.extension.None?
    ensures Fields(m)[3] == "null"
  {
  }

  /** The number of times `c` occurs in `s`. */
  function Count(s: string, c: char): nat {
    if |s| == 0 then 0 else (if s[0] == c then 1 else 0) + Count(s[1..], c)
  }

  lemma {:induction false} CountConcat(a: string, b: string, c: char)
    ensures Count(a + b, c) == Count(a, c) + Count(b, c)
    decreases |a|
  {
    if |a| > 0 {
      CountConcat(a[1..], b, c);
      assert (a + b)[1..] == a[1..] + b;
    } else {
      assert a + b == b;
    }
  }

  /** Splitting at a character yields one piece more than it occurs. */
  lemma {:induction false} SplitPieces(s: string, c: char)
    ensures |Split(s, c)| == 1 + Count(s, c)
    decreases |s|
  {
    var i := CharIndex(s, c);
    if i < |s| {
      SplitPieces(s[i + 1..], c);
      assert s == s[..i] + ([c] + s[i + 1..]);
      CountConcat(s[..i], [c] + s[i + 1..], c);
      CountConcat([c], s[i + 1..], c);
      CountAbsent(s[..i], c);
    } else {
      CountAbsent(s, c);
    }
  }

  lemma {:induction false} CountAbsent(s: string, c: char)
    requires c !in s
    ensures Count(s, c) == 0
    decreases |s|
  {
    if |s| > 0 {
      CountAbsent(s[1..], c);
    }
  }

  /** The quotes in the fields, all together. */
  function FieldQuotes(fields: seq<string>): nat {
    if |fields| == 0 then 0 else Count(fields[0], Quote) + FieldQuotes(fields[1..])
  }

  /** A line holds two quotes per field besides those inside the fields. */
  lemma {:induction false} QuotesInJoin(fields: seq<string>)
    requires |fields| >= 1
    ensures Count(Join(QuoteAll(fields), ","), Quote) == 2 * |fields| + FieldQuotes(fields)
    decreases |fields|
  {
    var f := fields[0];
    CountConcat([Quote] + f, [Quote], Quote);
    CountConcat([Quote], f, Quote);
    if |fields| == 1 {
      assert Join(QuoteAll(fields), ",") == Quoted(f);
    } else {
      JoinQuoted(fields);
      QuotesInJoin(fields[1..]);
      CountConcat(Quoted(f) + ",", Join(QuoteAll(fields[1..]), ","), Quote);
      CountConcat(Quoted(f), ",", Quote);
    }
  }

  /**
   * A double quote inside a field is written as is, so the line reads back
   * as more than five fields: the entry is lost.  Together with
   * `LineRoundTrip`, a line without newlines reads back as its entry
   * exactly when no field holds a quote.
   */
  lemma QuoteBreaksLine(m: MissingImage)
    requires FieldQuotes(Fields(m)) > 0
    ensures |DecodeLine(Line(m))| > 5
    ensures DecodeLine(Line(m)) != Fields(m)
  {
    QuotesInJoin(Fields(m));
    SplitPieces(Line(m), Quote);
  }
}
