/**
 * The link harvest of `test_shortcut_url` in the Ceará gazette downloader:
 * which anchors of a day's listing page become (filename, url) links, how
 * their hrefs are made absolute, the four-step filename cascade, the
 * direct-`.pdf`-anchor fallback and the "no publications" override.
 *
 * The page is the part of the parsed HTML the function looks at: its tables
 * as rows of cells (each cell's stripped text and its first anchor with an
 * `href`), every anchor with an `href`, and the page text.  The HEAD probe
 * for a Content-Disposition header is a map from URL to the header value it
 * returned; a URL absent from the map stands for a probe that failed or
 * returned no header.
 */
module CearaLinks {
  import opened Wrappers
  import opened Text
  import opened Url
  import opened CearaFilenames

  datatype Anchor = Anchor(href: string, text: string)

  datatype Cell = Cell(text: string, link: Option<Anchor>)

  type Row = seq<Cell>

  type Table = seq<Row>

  datatype Page = Page(tables: seq<Table>, anchors: seq<Anchor>, text: string)

  /** The GET of the listing page: a request error, or the parsed page. */
  datatype Fetch = FetchFailed | Fetched(page: Page)

  datatype Link = Link(filename: string, url: string)

  const Host: string := "http://pesquisa.doe.seplag.ce.gov.br"

  // ---------------------------------------------------------------- accepting and absolutising hrefs

  /** A table anchor is taken when its lower-cased href mentions `.pdf`, `download` or `baixar`. */
  predicate AcceptHref(href: string) {
    var h := Lower(href);
    Contains(h, ".pdf") || Contains(h, "download") || Contains(h, "baixar")
  }

  /** The absolute URL of an href: host-relative, already absolute, or relative to `/doepesquisa/`. */
  function Absolutise(href: string): (u: string)
    ensures StartsWith(u, "http")
    ensures EndsWith(u, href)
  {
    if StartsWith(href, "/") then
      HostIsHttp();
      assert (Host + href)[..4] == Host[..4];
      Host + href
    else if StartsWith(href, "http") then href
    else
      var u := Host + "/doepesquisa/" + href;
      HostIsHttp();
      assert u[..4] == Host[..4];
      assert u[|u| - |href|..] == href;
      u
  }

  lemma HostIsHttp()
    ensures Host[..4] == "http"
  {
    assert Host[0] == 'h' && Host[1] == 't' && Host[2] == 't' && Host[3] == 'p';
  }

  lemma AbsolutiseCases(href: string)
    ensures StartsWith(href, "/") ==> Absolutise(href) == Host + href
    ensures !StartsWith(href, "/") && StartsWith(href, "http") ==> Absolutise(href) == href
    ensures !StartsWith(href, "/") && !StartsWith(href, "http") ==> Absolutise(href) == Host + "/doepesquisa/" + href
  {
  }

  // ---------------------------------------------------------------- the filename cascade

  const GenericNames: set<string> := {"visualizar.pdf", "visualizar", "baixar.pdf", "download.pdf"}

  const ActionWords: set<string> := {"visualizar", "baixar", "download", "ver"}

  /** A cascade step runs while the name is missing, empty or one of the generic names. */
  predicate NeedsName(f: Option<string>) {
    f.None? || f.value == "" || Lower(f.value) in GenericNames
  }

  /** A cell text that may serve as the filename. */
  predicate Qualifies(text: string) {
    text != "" && Lower(text) !in ActionWords && (EndsWithCI(text, ".pdf") || |text| > 5)
  }

  /** The index of the first cell whose text qualifies, or `|cells|`. */
  function FirstQualifying(cells: seq<Cell>): (k: nat)
    ensures k <= |cells|
    ensures k < |cells| ==> Qualifies(cells[k].text)
    ensures forall j :: 0 <= j < k ==> !Qualifies(cells[j].text)
  {
    if cells == [] then 0
    else if Qualifies(cells[0].text) then 0
    else 1 + FirstQualifying(cells[1..])
  }

  /** `name` with `.pdf` appended unless it already ends with it (letter case counts). */
  function WithPdf(name: string): (r: string)
    ensures EndsWith(r, ".pdf")
    ensures |name| <= |r| && r[..|name|] == name
    ensures EndsWith(name, ".pdf") ==> r == name
    ensures r == name || r == name + ".pdf"
  {
    if EndsWith(name, ".pdf") then name else name + ".pdf"
  }

  /** Method 2: the first qualifying cell of the row, made to end in `.pdf`. */
  function CellName(cells: seq<Cell>): (r: Option<string>)
    ensures r.Some? <==> exists k :: 0 <= k < |cells| && Qualifies(cells[k].text)
    ensures r.Some? ==> r.value == WithPdf(cells[FirstQualifying(cells)].text)
  {
    var k := FirstQualifying(cells);
    if k < |cells| then Some(WithPdf(cells[k].text)) else None
  }

  /** Method 3: what the HEAD probe's Content-Disposition header names. */
  function ProbeName(heads: map<string, string>, url: string): Option<string> {
    if url in heads && heads[url] != "" then ContentDispositionFilename(heads[url]) else None
  }

  /** The last resort of Method 4 and of the direct pass: the URL's basename, or `documento.pdf`. */
  function FallbackName(url: string): (r: string)
    ensures r != ""
  {
    var b := Basename(ParsedPath(url));
    if b != "" then b else "documento.pdf"
  }

  /** Method 4: the link text unless it is empty or an action word, else the fallback. */
  function LinkTextName(linkText: string, url: string): (r: string)
    ensures r != ""
  {
    if linkText != "" && Lower(linkText) !in ActionWords then linkText else FallbackName(url)
  }

  /** Method 2 replaces a name that needs replacing, when some cell qualifies. */
  function AfterCells(name: Option<string>, cellName: Option<string>): Option<string> {
    if NeedsName(name) && cellName.Some? then cellName else name
  }

  /** Method 3 replaces a name that still needs replacing by the probe's answer, even a missing one. */
  function AfterProbe(name: Option<string>, probed: Option<string>): Option<string> {
    if NeedsName(name) then probed else name
  }

  /** Method 4 replaces a name that still needs replacing by the link text or the fallback. */
  function AfterLinkText(name: Option<string>, last: string): string {
    if NeedsName(name) then last else name.value
  }

  /** The final touch: `.pdf` appended unless present, then percent-decoding. */
  function Finish(name: string): (r: string)
    ensures r != "" && EndsWith(r, ".pdf")
  {
    UnquoteKeepsPdfSuffix(WithPdf(name));
    Unquote(WithPdf(name))
  }

  /** The filename given to a table link, step by step as the cascade assigns it. */
  function CascadeName(url: string, cells: seq<Cell>, linkText: string, heads: map<string, string>): (r: string)
    ensures r != "" && EndsWith(r, ".pdf")
  {
    var f2 := AfterCells(FilenameFromUrl(url), CellName(cells));
    var f3 := AfterProbe(f2, ProbeName(heads, url));
    Finish(AfterLinkText(f3, LinkTextName(linkText, url)))
  }

  /** The first candidate that does not need replacing. */
  function FirstUsable(candidates: seq<Option<string>>): (r: Option<string>)
    ensures r.Some? ==> !NeedsName(r)
    ensures r.None? <==> forall i :: 0 <= i < |candidates| ==> NeedsName(candidates[i])
  {
    if candidates == [] then None
    else if !NeedsName(candidates[0]) then candidates[0]
    else FirstUsable(candidates[1..])
  }

  /** The three replacement steps pick the first usable candidate, else the last resort. */
  lemma StepsPickFirstUsable(f1: Option<string>, cellName: Option<string>, probed: Option<string>, last: string)
    ensures AfterLinkText(AfterProbe(AfterCells(f1, cellName), probed), last)
         == match FirstUsable([f1, cellName, probed]) case Some(n) => n case None => last
  {
    var cands := [f1, cellName, probed];
    assert cands[1..] == [cellName, probed];
    assert cands[1..][1..] == [probed];
    assert cands[1..][1..][1..] == [];
    assert FirstUsable([probed]) == if NeedsName(probed) then None else probed;
    assert FirstUsable([cellName, probed]) == if NeedsName(cellName) then FirstUsable([probed]) else cellName;
  }

  /**
   * The cascade takes the first usable name among the URL-derived name, the
   * cell name and the Content-Disposition name, and only then falls back to
   * the link text or the basename; the chosen name gets `.pdf` and is decoded.
   */
  lemma CascadeIsFirstUsable(url: string, cells: seq<Cell>, linkText: string, heads: map<string, string>)
    ensures CascadeName(url, cells, linkText, heads)
         == Finish(match FirstUsable([FilenameFromUrl(url), CellName(cells), ProbeName(heads, url)])
                   case Some(n) => n
                   case None => LinkTextName(linkText, url))
  {
    StepsPickFirstUsable(FilenameFromUrl(url), CellName(cells), ProbeName(heads, url), LinkTextName(linkText, url));
  }

  /** A usable URL-derived name is kept whatever the row and the probe say. */
  lemma UrlNameWins(url: string, cells: seq<Cell>, linkText: string, heads: map<string, string>)
    requires !NeedsName(FilenameFromUrl(url))
    ensures CascadeName(url, cells, linkText, heads) == Finish(FilenameFromUrl(url).value)
  {
  }

  // ---------------------------------------------------------------- the table pass

  /** What one cell of a row contributes: a link when its anchor's href is accepted. */
  function CellLinks(row: Row, cell: Cell, heads: map<string, string>): seq<Link> {
    if cell.link.Some? && AcceptHref(cell.link.value.href) then
      var url := Absolutise(cell.link.value.href);
      [Link(CascadeName(url, row, cell.link.value.text, heads), url)]
    else []
  }

  /** The links of the cells `cells` of `row`, in order. */
  function RowLinks(row: Row, cells: seq<Cell>, heads: map<string, string>): seq<Link> {
    if cells == [] then []
    else RowLinks(row, cells[..|cells| - 1], heads) + CellLinks(row, cells[|cells| - 1], heads)
  }

  function RowsLinks(rows: seq<Row>, heads: map<string, string>): seq<Link> {
    if rows == [] then []
    else RowsLinks(rows[..|rows| - 1], heads) + RowLinks(rows[|rows| - 1], rows[|rows| - 1], heads)
  }

  function TablesLinks(tables: seq<Table>, heads: map<string, string>): seq<Link> {
    if tables == [] then []
    else TablesLinks(tables[..|tables| - 1], heads) + RowsLinks(tables[|tables| - 1], heads)
  }

  // ---------------------------------------------------------------- the href filter

  /** The cells of a table's rows, and of a page's tables, in document order. */
  function RowsCells(rows: seq<Row>): seq<Cell> {
    if rows == [] then [] else RowsCells(rows[..|rows| - 1]) + rows[|rows| - 1]
  }

  function TablesCells(tables: seq<Table>): seq<Cell> {
    if tables == [] then [] else TablesCells(tables[..|tables| - 1]) + RowsCells(tables[|tables| - 1])
  }

  /** A cell's anchor is taken, and its href is `h`. */
  predicate Takes(c: Cell, h: string) {
    c.link.Some? && c.link.value.href == h && AcceptHref(h)
  }

  function CellHref(c: Cell): seq<string> {
    if c.link.Some? && AcceptHref(c.link.value.href) then [c.link.value.href] else []
  }

  /** The hrefs the table pass takes from `cells`, in order. */
  function AcceptedHrefs(cells: seq<Cell>): seq<string> {
    if cells == [] then [] else AcceptedHrefs(cells[..|cells| - 1]) + CellHref(cells[|cells| - 1])
  }

  /** An href is taken exactly when some cell's anchor has it and it passes the filter. */
  lemma {:induction false} AcceptedHrefsSpec(cells: seq<Cell>)
    ensures forall h :: h in AcceptedHrefs(cells) <==> exists k :: 0 <= k < |cells| && Takes(cells[k], h)
    decreases |cells|
  {
    if cells != [] {
      var init, last := cells[..|cells| - 1], cells[|cells| - 1];
      AcceptedHrefsSpec(init);
      forall h ensures h in AcceptedHrefs(cells) <==> exists k :: 0 <= k < |cells| && Takes(cells[k], h) {
        if h in AcceptedHrefs(init) {
          var k :| 0 <= k < |init| && Takes(init[k], h);
          assert cells[k] == init[k];
        } else if h in CellHref(last) {
          assert Takes(cells[|cells| - 1], h);
        }
        if exists k :: 0 <= k < |cells| && Takes(cells[k], h) {
          var k :| 0 <= k < |cells| && Takes(cells[k], h);
          if k < |init| {
            assert init[k] == cells[k];
          } else {
            assert h in CellHref(last);
          }
        }
      }
    }
  }

  lemma {:induction false} AcceptedHrefsAppend(a: seq<Cell>, b: seq<Cell>)
    ensures AcceptedHrefs(a + b) == AcceptedHrefs(a) + AcceptedHrefs(b)
    decreases |b|
  {
    if b == [] {
      assert a + b == a;
    } else {
      var init, last := b[..|b| - 1], b[|b| - 1];
      assert (a + b)[..|a + b| - 1] == a + init && (a + b)[|a + b| - 1] == last;
      calc {
        AcceptedHrefs(a + b);
        AcceptedHrefs(a + init) + CellHref(last);
        { AcceptedHrefsAppend(a, init); }
        (AcceptedHrefs(a) + AcceptedHrefs(init)) + CellHref(last);
        AcceptedHrefs(a) + (AcceptedHrefs(init) + CellHref(last));
        AcceptedHrefs(a) + AcceptedHrefs(b);
      }
    }
  }

  /** One link per href, in the same order, at that href's absolute URL. */
  predicate UrlsFrom(links: seq<Link>, hrefs: seq<string>) {
    |links| == |hrefs| && forall i :: 0 <= i < |links| ==> links[i].url == Absolutise(hrefs[i])
  }

  lemma UrlsFromAppend(a: seq<Link>, ha: seq<string>, b: seq<Link>, hb: seq<string>)
    requires UrlsFrom(a, ha) && UrlsFrom(b, hb)
    ensures UrlsFrom(a + b, ha + hb)
  {
    forall i | 0 <= i < |a + b| ensures (a + b)[i].url == Absolutise((ha + hb)[i]) {
      if i < |a| {
        assert (a + b)[i] == a[i] && (ha + hb)[i] == ha[i];
      } else {
        assert (a + b)[i] == b[i - |a|] && (ha + hb)[i] == hb[i - |a|];
      }
    }
  }

  lemma {:induction false} RowUrls(row: Row, cells: seq<Cell>, heads: map<string, string>)
    ensures UrlsFrom(RowLinks(row, cells, heads), AcceptedHrefs(cells))
    decreases |cells|
  {
    if cells != [] {
      var init, last := cells[..|cells| - 1], cells[|cells| - 1];
      RowUrls(row, init, heads);
      UrlsFromAppend(RowLinks(row, init, heads), AcceptedHrefs(init), CellLinks(row, last, heads), CellHref(last));
    }
  }

  lemma {:induction false} RowsUrls(rows: seq<Row>, heads: map<string, string>)
    ensures UrlsFrom(RowsLinks(rows, heads), AcceptedHrefs(RowsCells(rows)))
    decreases |rows|
  {
    if rows != [] {
      var init, last := rows[..|rows| - 1], rows[|rows| - 1];
      RowsUrls(init, heads);
      RowUrls(last, last, heads);
      AcceptedHrefsAppend(RowsCells(init), last);
      UrlsFromAppend(RowsLinks(init, heads), AcceptedHrefs(RowsCells(init)), RowLinks(last, last, heads), AcceptedHrefs(last));
    }
  }

  /**
   * The table pass takes exactly the cell anchors whose href passes the
   * filter: one link for each, in document order, at the href made absolute.
   */
  lemma {:induction false} TablesLinksFiltered(tables: seq<Table>, heads: map<string, string>)
    ensures var links, hrefs := TablesLinks(tables, heads), AcceptedHrefs(TablesCells(tables));
      |links| == |hrefs| && forall i :: 0 <= i < |links| ==> links[i].url == Absolutise(hrefs[i])
    decreases |tables|
  {
    if tables != [] {
      var init, last := tables[..|tables| - 1], tables[|tables| - 1];
      TablesLinksFiltered(init, heads);
      RowsUrls(last, heads);
      AcceptedHrefsAppend(TablesCells(init), RowsCells(last));
      UrlsFromAppend(TablesLinks(init, heads), AcceptedHrefs(TablesCells(init)), RowsLinks(last, heads), AcceptedHrefs(RowsCells(last)));
    }
  }

  // ---------------------------------------------------------------- the direct pass

  /** The filename of a direct `.pdf` anchor: decoded first, `.pdf` appended after. */
  function DirectName(url: string): (r: string)
    ensures r != "" && EndsWith(r, ".pdf")
  {
    var f := FilenameFromUrl(url);
    var name := if f.Some? && f.value != "" then f.value else FallbackName(url);
    WithPdf(Unquote(name))
  }

  function AnchorLinks(a: Anchor): seq<Link> {
    if EndsWithCI(a.href, ".pdf") then
      var url := Absolutise(a.href);
      [Link(DirectName(url), url)]
    else []
  }

  function DirectLinks(anchors: seq<Anchor>): seq<Link> {
    if anchors == [] then []
    else DirectLinks(anchors[..|anchors| - 1]) + AnchorLinks(anchors[|anchors| - 1])
  }

  // ---------------------------------------------------------------- the outcome

  /** The page text, lower-cased, mentions one of the phrases that announce an empty day. */
  predicate NoPublications(text: string) {
    var t := Lower(text);
    || Contains(t, "n\U{e3}o h\U{e1}")
    || Contains(t, "sem dados")
    || Contains(t, "nenhuma publica\U{e7}\U{e3}o")
    || Contains(t, "n\U{e3}o existem")
  }

  /** `test_shortcut_url`: whether the page loaded, and the links found on it. */
  function ShortcutOutcome(fetch: Fetch, heads: map<string, string>): (bool, seq<Link>) {
    match fetch
    case FetchFailed => (false, [])
    case Fetched(page) =>
      var fromTables := TablesLinks(page.tables, heads);
      var links := if fromTables == [] then DirectLinks(page.anchors) else fromTables;
      if NoPublications(page.text) then (true, []) else (true, links)
  }

  predicate WellNamed(links: seq<Link>) {
    forall i :: 0 <= i < |links| ==> links[i].filename != "" && EndsWith(links[i].filename, ".pdf")
  }

  predicate AbsoluteUrls(links: seq<Link>) {
    forall i :: 0 <= i < |links| ==> StartsWith(links[i].url, "http")
  }

  lemma WellFormedAppend(a: seq<Link>, b: seq<Link>)
    requires WellNamed(a) && AbsoluteUrls(a) && WellNamed(b) && AbsoluteUrls(b)
    ensures WellNamed(a + b) && AbsoluteUrls(a + b)
  {
    forall i | |a| <= i < |a + b| ensures (a + b)[i] == b[i - |a|] { }
  }

  lemma {:induction false} RowLinksWellFormed(row: Row, cells: seq<Cell>, heads: map<string, string>)
    ensures WellNamed(RowLinks(row, cells, heads)) && AbsoluteUrls(RowLinks(row, cells, heads))
  {
    if cells != [] {
      var cell := cells[|cells| - 1];
      RowLinksWellFormed(row, cells[..|cells| - 1], heads);
      CellLinksWellFormed(row, cell, heads);
      WellFormedAppend(RowLinks(row, cells[..|cells| - 1], heads), CellLinks(row, cell, heads));
    }
  }

  lemma CellLinksWellFormed(row: Row, cell: Cell, heads: map<string, string>)
    ensures WellNamed(CellLinks(row, cell, heads)) && AbsoluteUrls(CellLinks(row, cell, heads))
  {
    var mine := CellLinks(row, cell, heads);
    if mine != [] {
      assert mine[0].url == Absolutise(cell.link.value.href);
    }
  }

  lemma {:induction false} RowsLinksWellFormed(rows: seq<Row>, heads: map<string, string>)
    ensures WellNamed(RowsLinks(rows, heads)) && AbsoluteUrls(RowsLinks(rows, heads))
  {
    if rows != [] {
      RowsLinksWellFormed(rows[..|rows| - 1], heads);
      RowLinksWellFormed(rows[|rows| - 1], rows[|rows| - 1], heads);
    }
  }

  lemma {:induction false} TablesLinksWellFormed(tables: seq<Table>, heads: map<string, string>)
    ensures WellNamed(TablesLinks(tables, heads)) && AbsoluteUrls(TablesLinks(tables, heads))
  {
    if tables != [] {
      TablesLinksWellFormed(tables[..|tables| - 1], heads);
      RowsLinksWellFormed(tables[|tables| - 1], heads);
    }
  }

  lemma {:induction false} DirectLinksWellFormed(anchors: seq<Anchor>)
    ensures WellNamed(DirectLinks(anchors)) && AbsoluteUrls(DirectLinks(anchors))
  {
    if anchors != [] {
      var a := anchors[|anchors| - 1];
      DirectLinksWellFormed(anchors[..|anchors| - 1]);
      AnchorLinksWellFormed(a);
      WellFormedAppend(DirectLinks(anchors[..|anchors| - 1]), AnchorLinks(a));
    }
  }

  lemma AnchorLinksWellFormed(a: Anchor)
    ensures WellNamed(AnchorLinks(a)) && AbsoluteUrls(AnchorLinks(a))
  {
    var mine := AnchorLinks(a);
    if mine != [] {
      assert mine[0].url == Absolutise(a.href);
    }
  }

  /** Every link reported has a non-empty filename ending in `.pdf` and an absolute URL. */
  lemma ShortcutLinksWellFormed(fetch: Fetch, heads: map<string, string>)
    ensures WellNamed(ShortcutOutcome(fetch, heads).1) && AbsoluteUrls(ShortcutOutcome(fetch, heads).1)
  {
    if fetch.Fetched? {
      TablesLinksWellFormed(fetch.page.tables, heads);
      DirectLinksWellFormed(fetch.page.anchors);
    }
  }

  /** A failed request reports failure and no links; a loaded page always reports success. */
  lemma ShortcutSuccess(fetch: Fetch, heads: map<string, string>)
    ensures ShortcutOutcome(fetch, heads).0 <==> fetch.Fetched?
    ensures fetch.FetchFailed? ==> ShortcutOutcome(fetch, heads).1 == []
  {
  }

  /** A page announcing no publications yields no links, whatever its tables and anchors hold. */
  lemma NoPublicationsOverrides(page: Page, heads: map<string, string>)
    requires NoPublications(page.text)
    ensures ShortcutOutcome(Fetched(page), heads) == (true, [])
  {
  }

  /** The direct anchors are consulted only when the tables gave nothing. */
  lemma DirectPassOnlyWhenTablesEmpty(page: Page, heads: map<string, string>)
    requires !NoPublications(page.text)
    ensures TablesLinks(page.tables, heads) != [] ==> ShortcutOutcome(Fetched(page), heads).1 == TablesLinks(page.tables, heads)
    ensures TablesLinks(page.tables, heads) == [] ==> ShortcutOutcome(Fetched(page), heads).1 == DirectLinks(page.anchors)
  {
  }

  // ---------------------------------------------------------------- the procedure

  /** The cascade as the source runs it: `filename` reassigned step by step, the cell search a loop. */
  method ResolveFilename(url: string, cells: seq<Cell>, linkText: string, heads: map<string, string>) returns (filename: string)
    ensures filename == CascadeName(url, cells, linkText, heads)
  {
    var name := FilenameFromUrl(url);
    ghost var f1 := name;
    if NeedsName(name) {
      var i := 0;
      while i < |cells| && !Qualifies(cells[i].text)
        invariant 0 <= i <= |cells|
        invariant forall j :: 0 <= j < i ==> !Qualifies(cells[j].text)
      {
        i := i + 1;
      }
      if i < |cells| {
        assert i == FirstQualifying(cells);
        name := Some(WithPdf(cells[i].text));
      }
    }
    assert name == AfterCells(f1, CellName(cells));
    ghost var f2 := name;
    if NeedsName(name) {
      name := ProbeName(heads, url);
    }
    assert name == AfterProbe(f2, ProbeName(heads, url));
    var chosen: string;
    if NeedsName(name) {
      chosen := LinkTextName(linkText, url);
    } else {
      chosen := name.value;
    }
    assert chosen == AfterLinkText(AfterProbe(f2, ProbeName(heads, url)), LinkTextName(linkText, url));
    ghost var f4 := chosen;
    if !EndsWith(chosen, ".pdf") {
      chosen := chosen + ".pdf";
    }
    assert chosen == WithPdf(f4);
    filename := Unquote(chosen);
  }

  /** The table pass over the cells of one row. */
  method CellsPass(row: Row, heads: map<string, string>) returns (links: seq<Link>)
    ensures links == RowLinks(row, row, heads)
  {
    links := [];
    var c := 0;
    while c < |row|
      invariant 0 <= c <= |row|
      invariant links == RowLinks(row, row[..c], heads)
    {
      var found := CellPass(row, row[c], heads);
      links := links + found;
      RowLinksStep(row, c, heads);
      c := c + 1;
    }
    assert row[..c] == row;
  }

  /** One cell of the table pass. */
  method CellPass(row: Row, cell: Cell, heads: map<string, string>) returns (found: seq<Link>)
    ensures found == CellLinks(row, cell, heads)
  {
    found := [];
    if cell.link.Some? && AcceptHref(cell.link.value.href) {
      var url := Absolutise(cell.link.value.href);
      var filename := ResolveFilename(url, row, cell.link.value.text, heads);
      found := [Link(filename, url)];
    }
  }

  lemma RowLinksStep(row: Row, c: nat, heads: map<string, string>)
    requires c < |row|
    ensures RowLinks(row, row[..c + 1], heads) == RowLinks(row, row[..c], heads) + CellLinks(row, row[c], heads)
  {
    assert row[..c + 1][..c] == row[..c];
  }

  /** The table pass over the rows of one table. */
  method RowsPass(rows: seq<Row>, heads: map<string, string>) returns (links: seq<Link>)
    ensures links == RowsLinks(rows, heads)
  {
    links := [];
    var r := 0;
    while r < |rows|
      invariant 0 <= r <= |rows|
      invariant links == RowsLinks(rows[..r], heads)
    {
      var found := CellsPass(rows[r], heads);
      links := links + found;
      assert rows[..r + 1][..r] == rows[..r];
      assert RowsLinks(rows[..r + 1], heads) == RowsLinks(rows[..r], heads) + RowLinks(rows[r], rows[r], heads);
      r := r + 1;
    }
    assert rows[..r] == rows;
  }

  /** The table pass over every table of the page. */
  method TablesPass(tables: seq<Table>, heads: map<string, string>) returns (links: seq<Link>)
    ensures links == TablesLinks(tables, heads)
  {
    links := [];
    var t := 0;
    while t < |tables|
      invariant 0 <= t <= |tables|
      invariant links == TablesLinks(tables[..t], heads)
    {
      var found := RowsPass(tables[t], heads);
      links := links + found;
      assert tables[..t + 1][..t] == tables[..t];
      assert TablesLinks(tables[..t + 1], heads) == TablesLinks(tables[..t], heads) + RowsLinks(tables[t], heads);
      t := t + 1;
    }
    assert tables[..t] == tables;
  }

  /** The direct pass over the page's anchors. */
  method DirectPass(anchors: seq<Anchor>) returns (links: seq<Link>)
    ensures links == DirectLinks(anchors)
  {
    links := [];
    var a := 0;
    while a < |anchors|
      invariant 0 <= a <= |anchors|
      invariant links == DirectLinks(anchors[..a])
    {
      var found := AnchorPass(anchors[a]);
      DirectLinksStep(anchors, a);
      links := links + found;
      a := a + 1;
    }
    assert anchors[..a] == anchors;
  }

  /** One anchor of the direct pass. */
  method AnchorPass(anchor: Anchor) returns (found: seq<Link>)
    ensures found == AnchorLinks(anchor)
  {
    found := [];
    if EndsWithCI(anchor.href, ".pdf") {
      var url := Absolutise(anchor.href);
      var f := FilenameFromUrl(url);
      var filename := if f.Some? && f.value != "" then f.value else FallbackName(url);
      filename := Unquote(filename);
      if !EndsWith(filename, ".pdf") {
        filename := filename + ".pdf";
      }
      found := [Link(filename, url)];
    }
  }

  lemma DirectLinksStep(anchors: seq<Anchor>, a: nat)
    requires a < |anchors|
    ensures DirectLinks(anchors[..a + 1]) == DirectLinks(anchors[..a]) + AnchorLinks(anchors[a])
  {
    assert anchors[..a + 1][..a] == anchors[..a];
  }

  /** `test_shortcut_url`: the table pass, the direct pass when it found nothing, then the override. */
  method TestShortcutUrl(fetch: Fetch, heads: map<string, string>) returns (ok: bool, links: seq<Link>)
    ensures (ok, links) == ShortcutOutcome(fetch, heads)
  {
    if fetch.FetchFailed? {
      return false, [];
    }
    var page := fetch.page;
    links := TablesPass(page.tables, heads);
    if links == [] {
      links := DirectPass(page.anchors);
    }
    if NoPublications(page.text) {
      return true, [];
    }
    return true, links;
  }
}
