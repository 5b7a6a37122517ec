/**
 * The serverless API handler (src/functions/api.ts): the path after the
 * function's prefix is split at `/`, and its first segment chooses
 * between the category table, a page of submissions and "not found".
 * The response body is the value `JSON.stringify` is given.
 */
module Api {
  import opened Wrappers
  import opened JsString
  import opened JsNumber
  import opened Repository

  /** The part of the request path removed before splitting. */
  const Prefix: string := "/.netlify/functions/api/"

  /** A status code: the handler answers 200 as a number, the errors as strings. */
  datatype StatusCode = Numeric(code: nat) | Text(text: string)

  datatype Body<C, T> =
    | CategoriesBody(categories: Categories<C>)
    | PageBody(page: Page<T>)
    | StatusBody(status: string)

  datatype Response<C, T> = Response(statusCode: StatusCode, body: Body<C, T>, headers: map<string, string>)

  /** The headers of every response; the second asks the CDN to cache it for a week. */
  const Headers: map<string, string> :=
    map["Content-Type" := "application/json", "Cache-Control" := "public, max-age=604800, immutable"]

  /** `respond(body)`: status 200 with the standard headers. */
  function Respond<C, T>(body: Body<C, T>): (r: Response<C, T>)
    ensures r.statusCode == Numeric(200) && r.body == body && r.headers == Headers
  {
    Response(Numeric(200), body, Headers)
  }

  /** The segments of the path once the first occurrence of the prefix is removed. */
  function Segments(path: string): (r: seq<string>)
    ensures |r| >= 1
  {
    Split(ReplaceFirst(path, Prefix, ""), '/')
  }

  /** `handler(event)` for a request path, given the stored categories and submissions. */
  function Handler<C, T>(path: string, categories: C, stored: seq<T>): Response<C, T> {
    Route(Segments(path), categories, stored)
  }

  /** The `switch` on the first segment of the path. */
  function Route<C, T>(parts: seq<string>, categories: C, stored: seq<T>): Response<C, T>
    requires |parts| >= 1
  {
    if parts[0] == "categories" then Respond(CategoriesBody(GetCategories(categories)))
    else if parts[0] == "submissions" then
      var page := ToNumber(if |parts| > 1 then Some(parts[1]) else None);
      if page.NaN? then Response(Text("422"), StatusBody("missing_page"), Headers)
      else Respond(PageBody(GetSubmissions(stored, page)))
    else Response(Text("404"), StatusBody("not_found"), Headers)
  }

  /**
   * Every response carries the standard headers, and its status matches
   * its body: 200 with data, `'422'` with `missing_page`, or `'404'` with
   * `not_found`.
   */
  lemma ResponseShape<C, T>(path: string, categories: C, stored: seq<T>)
    ensures var r := Handler(path, categories, stored);
      && r.headers == Headers
      && (r.statusCode == Numeric(200) <==> r.body.CategoriesBody? || r.body.PageBody?)
      && (r.statusCode == Text("422") <==> r.body == StatusBody("missing_page"))
      && (r.statusCode == Text("404") <==> r.body == StatusBody("not_found"))
      && (r.statusCode == Numeric(200) || r.statusCode == Text("422") || r.statusCode == Text("404"))
  {
  }

  /**
   * The handler looks at nothing but the first segment, and for
   * `submissions` also the second: paths that agree on those get the
   * same response.
   */
  lemma DispatchBySegments<C, T>(p: string, q: string, categories: C, stored: seq<T>)
    requires Segments(p)[0] == Segments(q)[0]
    requires Segments(p)[0] == "submissions" ==>
      (|Segments(p)| > 1 <==> |Segments(q)| > 1) && (|Segments(p)| > 1 ==> Segments(p)[1] == Segments(q)[1])
    ensures Handler(p, categories, stored) == Handler(q, categories, stored)
  {
  }

  /** Removing the prefix from a path that starts with it leaves the rest. */
  lemma StripPrefix(rest: string)
    ensures ReplaceFirst(Prefix + rest, Prefix, "") == rest
  {
    var s := Prefix + rest;
    assert OccursAt(s, Prefix, 0) by {
      assert s[..|Prefix|] == Prefix;
    }
    assert IndexOf(s, Prefix) == 0;
    assert s[|Prefix|..] == rest;
  }

  /** A path of one segment, or of one segment followed by `/` and more. */
  lemma FirstSegment(segment: string, rest: string)
    requires '/' !in segment
    ensures Segments(Prefix + segment)[0] == segment
    ensures Segments(Prefix + segment + "/" + rest) == [segment] + Split(rest, '/')
  {
    StripPrefix(segment);
    assert CharIndex(segment, '/') == |segment|;
    StripPrefix(segment + "/" + rest);
    assert Prefix + segment + "/" + rest == Prefix + (segment + "/" + rest);
    SplitCons(segment, '/', rest);
  }

  /** `categories` answers with the category table, whatever segments follow it. */
  lemma CategoriesRoute<C, T>(rest: Option<string>, categories: C, stored: seq<T>)
    ensures var path := if rest.Some? then Prefix + "categories" + "/" + rest.value else Prefix + "categories";
      Handler(path, categories, stored) == Respond(CategoriesBody(Categories(categories)))
  {
    FirstSegment("categories", if rest.Some? then rest.value else "");
  }

  /** A path of two segments without `/` in them. */
  lemma TwoSegments(segment: string, page: string)
    requires '/' !in segment && '/' !in page
    ensures Segments(Prefix + segment + "/" + page) == [segment, page]
  {
    FirstSegment(segment, page);
    assert CharIndex(page, '/') == |page|;
  }

  /** A path of one segment without `/` in it. */
  lemma OneSegment(segment: string)
    requires '/' !in segment
    ensures Segments(Prefix + segment) == [segment]
  {
    StripPrefix(segment);
    assert CharIndex(segment, '/') == |segment|;
  }

  /** The segments of `submissions/<page>` when the page contains no `/`. */
  lemma PageSegments(page: string)
    requires '/' !in page
    ensures Segments(Prefix + "submissions/" + page) == ["submissions", page]
  {
    var name := "submissions";
    assert '/' !in name;
    TwoSegments(name, page);
    assert name + "/" == "submissions/";
    assert Prefix + name + "/" + page == Prefix + (name + "/") + page;
  }

  /**
   * `submissions/<n>` for any integer `n` written in decimal answers with
   * page `n`; for `n >= 1` that is the `n`-th run of fifty submissions.
   */
  lemma SubmissionsRoute<C, T>(n: int, categories: C, stored: seq<T>)
    ensures var r := Handler(Prefix + "submissions/" + IntToString(n), categories, stored);
      && r == Respond(PageBody(GetSubmissions(stored, Finite(n as real))))
      && (n >= 1 ==> r.body.page.data == stored[Min((n - 1) * ChunkSize, |stored|)..Min(n * ChunkSize, |stored|)])
  {
    var s := IntToString(n);
    assert '/' !in s by {
      assert n < 0 ==> s == "-" + NatToString(-n);
    }
    PageSegments(s);
    IntToStringToNumber(n);
    if n >= 1 {
      WholePage(stored, n);
    }
  }

  /** `submissions` without a page segment is refused with `missing_page`. */
  lemma MissingPageRoute<C, T>(categories: C, stored: seq<T>)
    ensures Handler(Prefix + "submissions", categories, stored) == Response(Text("422"), StatusBody("missing_page"), Headers)
  {
    var name := "submissions";
    assert '/' !in name;
    OneSegment(name);
    SubmissionsBranch([name], categories, stored);
  }

  /** A first segment `submissions` is not `categories`: the page segment decides. */
  lemma SubmissionsBranch<C, T>(parts: seq<string>, categories: C, stored: seq<T>)
    requires |parts| >= 1 && parts[0] == "submissions"
    ensures var page := ToNumber(if |parts| > 1 then Some(parts[1]) else None);
      Route(parts, categories, stored) ==
        if page.NaN? then Response(Text("422"), StatusBody("missing_page"), Headers)
        else Respond(PageBody(GetSubmissions(stored, page)))
  {
    assert parts[0][0] != "categories"[0];
  }

  /** A page segment that is a lower-case word without `e`, such as `submissions/abc`, is refused with `missing_page`. */
  lemma WordPageRoute<C, T>(word: string, categories: C, stored: seq<T>)
    requires |word| > 0
    requires forall i :: 0 <= i < |word| ==> IsWordLetter(word[i])
    ensures Handler(Prefix + "submissions/" + word, categories, stored) == Response(Text("422"), StatusBody("missing_page"), Headers)
  {
    PageSegments(word);
    LettersAreNaN(word);
  }

  /** An empty page segment, as in `submissions/`, is page 0, which serves nothing. */
  lemma TrailingSlashRoute<C, T>(categories: C, stored: seq<T>)
    ensures var r := Handler(Prefix + "submissions/", categories, stored);
      r.statusCode == Numeric(200) && r.body.PageBody? && r.body.page.data == []
  {
    PageSegments("");
    assert Prefix + "submissions/" + "" == Prefix + "submissions/";
    assert ToNumber(Some("")) == Finite(0.0);
    PageZero(stored);
  }

  /** A path that does not contain the prefix and starts with `/` is not found. */
  lemma UnprefixedPath<C, T>(path: string, categories: C, stored: seq<T>)
    requires |path| > 0 && path[0] == '/'
    requires !Includes(path, Prefix)
    ensures Handler(path, categories, stored) == Response(Text("404"), StatusBody("not_found"), Headers)
  {
    assert ReplaceFirst(path, Prefix, "") == path;
    assert CharIndex(path, '/') == 0;
  }
}
