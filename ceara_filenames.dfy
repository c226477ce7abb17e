/**
 * Filename recovery in the Ceará gazette downloader: `extract_filename_from_url`
 * (query parameters first, then the path) and the loose reading of the
 * `filename` parameter of a Content-Disposition header (section 4.1 of RFC 6266)
 * that both the HEAD probe and `download_file` perform.  The two regular
 * expressions of the source are written out as the scans they perform.
 */
module CearaFilenames {
  import opened Wrappers
  import opened Text
  import opened Url

  // ---------------------------------------------------------------- extract_filename_from_url

  /** The query parameters consulted, in this order. */
  const FilenameParams: seq<string> := ["arquivo", "file", "filename", "nome", "documento"]

  /**
   * The first name of `names` whose first query value is a non-empty `.pdf`
   * name; a name whose first value does not qualify passes the turn to the next name.
   */
  function QueryFilename(pairs: seq<(string, string)>, names: seq<string>): (r: Option<string>)
    ensures r.Some? ==> IsPdfName(r.value)
  {
    if names == [] then None
    else match FirstValue(pairs, names[0])
      case Some(v) => if v != "" && IsPdfName(v) then Some(v) else QueryFilename(pairs, names[1..])
      case None => QueryFilename(pairs, names[1..])
  }

  predicate QualifiesFor(pairs: seq<(string, string)>, name: string) {
    var v := FirstValue(pairs, name);
    v.Some? && v.value != "" && IsPdfName(v.value)
  }

  /**
   * The longest prefix of `seg[..n]`, at least five characters long, that ends
   * in `.pdf` in any case: what `[^/]+\.pdf` matches when it starts at the
   * beginning of a path segment (greedy, so the last `.pdf` of the segment wins).
   */
  function LongestPdfPrefix(seg: string, n: nat): (r: Option<string>)
    requires n <= |seg|
    ensures r.Some? ==> 5 <= |r.value| <= n && r.value == seg[..|r.value|] && IsPdfName(r.value)
    ensures r.Some? ==> forall k :: |r.value| < k <= n ==> !IsPdfName(seg[..k])
    ensures r.None? ==> forall k :: 5 <= k <= n ==> !IsPdfName(seg[..k])
    decreases n
  {
    if n < 5 then None
    else if IsPdfName(seg[..n]) then Some(seg[..n])
    else
      var r := LongestPdfPrefix(seg, n - 1);
      assert forall k :: n - 1 < k <= n ==> !IsPdfName(seg[..k]);
      r
  }

  /** The first path segment holding a match, and the match in it. */
  function FirstSegmentMatch(segs: seq<string>): (r: Option<string>)
    requires forall k :: 0 <= k < |segs| ==> '/' !in segs[k]
    ensures r.Some? ==> IsPdfName(r.value) && |r.value| >= 5 && '/' !in r.value
    ensures r.Some? ==>
      exists k :: 0 <= k < |segs| && r == LongestPdfPrefix(segs[k], |segs[k]|) && forall j :: 0 <= j < k ==> LongestPdfPrefix(segs[j], |segs[j]|).None?
  {
    if segs == [] then None
    else match LongestPdfPrefix(segs[0], |segs[0]|)
      case Some(m) => Some(m)
      case None =>
        var r := FirstSegmentMatch(segs[1..]);
        if r.Some? then
          var k :| 0 <= k < |segs[1..]| && r == LongestPdfPrefix(segs[1..][k], |segs[1..][k]|) &&
            forall j :: 0 <= j < k ==> LongestPdfPrefix(segs[1..][j], |segs[1..][j]|).None?;
          assert segs[k + 1] == segs[1..][k];
          assert forall j :: 0 <= j < k + 1 ==> LongestPdfPrefix(segs[j], |segs[j]|).None? by {
            forall j | 0 <= j < k + 1 ensures LongestPdfPrefix(segs[j], |segs[j]|).None? {
              if j > 0 { assert segs[j] == segs[1..][j - 1]; }
            }
          }
          r
        else r
  }

  /** `re.search(r'([^/]+\.pdf)', path, re.IGNORECASE)`. */
  function PathPdfMatch(path: string): Option<string> {
    SplitPiecesExclude(path, '/');
    FirstSegmentMatch(Split(path, '/'))
  }

  /** `extract_filename_from_url`. */
  function FilenameFromUrl(url: string): Option<string> {
    match QueryFilename(QueryPairs(url), FilenameParams)
    case Some(v) => Some(Unquote(v))
    case None =>
      var path := ParsedPath(url);
      if path == "" then None
      else match PathPdfMatch(path)
        case Some(m) => Some(Unquote(m))
        case None =>
          var b := Basename(path);
          if b != "" && IsPdfName(b) then Some(Unquote(b)) else None
  }

  /** Whatever `extract_filename_from_url` returns is a name ending in `.pdf`, in any case. */
  lemma FilenameFromUrlIsPdf(url: string)
    ensures FilenameFromUrl(url).Some? ==> IsPdfName(FilenameFromUrl(url).value)
  {
    match QueryFilename(QueryPairs(url), FilenameParams)
    case Some(v) => UnquoteKeepsPdf(v);
    case None =>
      var path := ParsedPath(url);
      if path != "" {
        match PathPdfMatch(path)
        case Some(m) => UnquoteKeepsPdf(m);
        case None =>
          var b := Basename(path);
          if b != "" && IsPdfName(b) {
            UnquoteKeepsPdf(b);
          }
      }
  }

  lemma {:induction false} QueryFilenameAt(pairs: seq<(string, string)>, names: seq<string>, k: nat)
    requires k < |names| && QualifiesFor(pairs, names[k])
    requires forall j :: 0 <= j < k ==> !QualifiesFor(pairs, names[j])
    ensures QueryFilename(pairs, names) == FirstValue(pairs, names[k])
  {
    if k > 0 {
      assert !QualifiesFor(pairs, names[0]);
      QueryFilenameAt(pairs, names[1..], k - 1);
    }
  }

  /**
   * A qualifying query parameter decides the name, whatever the path holds;
   * the parameters are consulted in the order of `FilenameParams`.
   */
  lemma QueryParameterWins(url: string, k: nat)
    requires k < |FilenameParams| && QualifiesFor(QueryPairs(url), FilenameParams[k])
    requires forall j :: 0 <= j < k ==> !QualifiesFor(QueryPairs(url), FilenameParams[j])
    ensures FilenameFromUrl(url) == Some(Unquote(FirstValue(QueryPairs(url), FilenameParams[k]).value))
  {
    QueryFilenameAt(QueryPairs(url), FilenameParams, k);
  }

  function Last(pieces: seq<string>): string
    requires |pieces| >= 1
  {
    pieces[|pieces| - 1]
  }

  /** `os.path.basename` is the last piece of the path split on `/`. */
  lemma BasenameIsLastPiece(p: string)
    ensures Basename(p) == Last(Split(p, '/'))
  {
  }

  lemma {:induction false} FirstSegmentMatchNone(segs: seq<string>)
    requires forall k :: 0 <= k < |segs| ==> '/' !in segs[k]
    requires FirstSegmentMatch(segs).None?
    ensures forall k :: 0 <= k < |segs| ==> LongestPdfPrefix(segs[k], |segs[k]|).None?
  {
    if segs != [] {
      FirstSegmentMatchNone(segs[1..]);
      assert forall k :: 1 <= k < |segs| ==> segs[k] == segs[1..][k - 1];
    }
  }

  /**
   * The basename fallback of `extract_filename_from_url` is reached only by a
   * bare `.pdf` basename: any longer `.pdf` basename is already found by the
   * path search.
   */
  lemma BasenameFallbackIsBarePdf(path: string)
    requires PathPdfMatch(path).None?
    requires IsPdfName(Basename(path))
    ensures |Basename(path)| == 4
  {
    var segs := Split(path, '/');
    BasenameIsLastPiece(path);
    SplitPiecesExclude(path, '/');
    FirstSegmentMatchNone(segs);
    var b := Basename(path);
    assert b[..|b|] == b;
  }

  // ---------------------------------------------------------------- Content-Disposition

  /**
   * The text captured after `filename...=`: a quoted string closed by the same
   * quote on the same line (quotes included), or else everything up to the
   * next `;` or newline.
   */
  function CapturedValue(rest: string): (g: string)
    ensures |g| <= |rest| && g == rest[..|g|]
  {
    var plain := rest[..FirstIn(rest, {';', '\n'}, 0)];
    if |rest| >= 1 && (rest[0] == '"' || rest[0] == '\'') then
      var k := FirstIn(rest, {rest[0], '\n'}, 1);
      if k < |rest| && rest[k] == rest[0] then rest[..k + 1] else plain
    else plain
  }

  /**
   * The leftmost match, from position `i` on, of
   * `filename[^;=\n]*=(([\'"]).*?\2|[^;\n]*)` ignoring case: its first group.
   */
  function FilenameParamFrom(h: string, i: nat): Option<string>
    requires i <= |h|
    decreases |h| - i
  {
    if i + 8 > |h| then None
    else if Lower(h[i..i + 8]) == "filename" then
      var j := FirstIn(h, {';', '=', '\n'}, i + 8);
      if j < |h| && h[j] == '=' then Some(CapturedValue(h[j + 1..])) else FilenameParamFrom(h, i + 1)
    else FilenameParamFrom(h, i + 1)
  }

  const Quotes: set<char> := {'"', '\''}

  /** The filename a Content-Disposition header names: the captured text, quotes stripped from both ends, percent-decoded. */
  function ContentDispositionFilename(h: string): Option<string> {
    match FilenameParamFrom(h, 0)
    case Some(g) => Some(Unquote(StripChars(g, Quotes)))
    case None => None
  }

  predicate PlainFilename(x: string) {
    forall i :: 0 <= i < |x| ==> x[i] != '"' && x[i] != '\'' && x[i] != '\n' && x[i] != '%'
  }

  lemma {:induction false} SkipToFilename(h: string, i: nat)
    requires |h| >= 20 && h[..12] == "attachment; " && i <= 12
    ensures FilenameParamFrom(h, i) == FilenameParamFrom(h, 12)
    decreases 12 - i
  {
    if i < 12 {
      assert h[i] == h[..12][i];
      assert Lower(h[i..i + 8])[0] == LowerChar(h[i]) != 'f';
      SkipToFilename(h, i + 1);
    }
  }

  lemma FilenameIsLower()
    ensures Lower("filename") == "filename"
  {
    var w := "filename";
    assert forall i :: 0 <= i < |w| ==> LowerChar(w[i]) == w[i];
    assert Lower(w) == w;
  }

  lemma FilenameAtTwelve(h: string)
    requires |h| >= 21 && h[12..21] == "filename="
    ensures FilenameParamFrom(h, 12) == Some(CapturedValue(h[21..]))
  {
    var w := h[12..21];
    assert h[12..20] == w[..8];
    assert w[..8] == "filename";
    FilenameIsLower();
    assert h[20] == w[8] == '=';
    assert FirstIn(h, {';', '=', '\n'}, 20) == 20;
  }

  lemma ClosingQuoteFound(x: string)
    requires PlainFilename(x)
    ensures FirstIn("\"" + x + "\"", {'"', '\n'}, 1) == |x| + 1
  {
    var rest := "\"" + x + "\"";
    var k := FirstIn(rest, {'"', '\n'}, 1);
    assert rest[|x| + 1] == '"';
  }

  lemma QuotedValueKept(x: string)
    requires PlainFilename(x)
    ensures CapturedValue("\"" + x + "\"") == "\"" + x + "\""
  {
    var rest := "\"" + x + "\"";
    ClosingQuoteFound(x);
    assert rest[0] == '"' && rest[|x| + 1] == '"';
    assert rest[..|x| + 2] == rest;
  }

  lemma QuotedValueCaptured(x: string)
    requires PlainFilename(x)
    ensures FilenameParamFrom("attachment; filename=\"" + x + "\"", 0) == Some("\"" + x + "\"")
  {
    var a, f, tail := "attachment; ", "filename=", "\"" + x + "\"";
    var h := a + (f + tail);
    assert h == "attachment; filename=\"" + x + "\"" by {
      assert a + f == "attachment; filename=";
    }
    assert h[..12] == a;
    SkipToFilename(h, 0);
    assert h[12..] == f + tail;
    assert h[12..21] == (f + tail)[..9] == f;
    FilenameAtTwelve(h);
    assert h[21..] == tail;
    QuotedValueKept(x);
  }

  lemma StripQuotesAround(x: string)
    requires PlainFilename(x)
    ensures StripChars("\"" + x + "\"", Quotes) == x
  {
    var q := "\"" + x + "\"";
    assert q[..|q| - 1] == "\"" + x;
    if x == [] {
      assert RStrip("\"", Quotes) == RStrip([], Quotes);
    } else {
      var r := "\"" + x;
      assert r[|r| - 1] == x[|x| - 1];
      assert RStrip(q, Quotes) == r;
      assert r[1..] == x;
      assert x[0] !in Quotes;
    }
  }

  /** The usual form `attachment; filename="X"` yields X for a plain X. */
  lemma QuotedFilenameParsed(x: string)
    requires PlainFilename(x)
    ensures ContentDispositionFilename("attachment; filename=\"" + x + "\"") == Some(x)
  {
    QuotedValueCaptured(x);
    StripQuotesAround(x);
    UnquoteWithoutPercent(x);
  }
}
