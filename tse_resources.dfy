/**
 * The rules `get_resources_from_year` applies to each resource item of a
 * TSE election-year page: which link is the download link, when a resource
 * page is followed, how the URL is cleaned, which format the URL's path
 * names, and which filename the resource is saved under.
 *
 * The HTML lookups are inputs: an item is its title text (when a title
 * element was found), its anchors and the size text found in it; a
 * resource page is the list of its anchors' `href` values, present in the
 * map only when fetching it succeeded.
 */
module TseResources {
  import opened Wrappers
  import opened Text
  import opened Url

  const BaseUrl: string := "https://dadosabertos.tse.jus.br"

  /**
   * `urljoin(BASE_URL, href)` for a base without a path: a URL with a
   * scheme stands as it is, a network-path reference takes the base's
   * scheme, anything else is resolved against the site's root.
   */
  function JoinBase(href: string): (r: string)
    ensures StartsWith(r, "http") || HasScheme(href)
  {
    assert BaseUrl[..4] == "http";
    if HasScheme(href) then href
    else if href == "" then BaseUrl
    else if StartsWith(href, "//") then "https:" + href
    else if StartsWith(href, "/") || href[0] == '?' || href[0] == '#' then BaseUrl + href
    else BaseUrl + "/" + href
  }

  // ---------------------------------------------------------------- formats

  datatype Format = Zip | Csv | Pdf | Txt | Xlsx | Jpeg | Unknown

  /** The format's name as `file_format` holds it. */
  function FormatName(f: Format): string {
    match f
    case Zip => "ZIP"
    case Csv => "CSV"
    case Pdf => "PDF"
    case Txt => "TXT"
    case Xlsx => "XLSX"
    case Jpeg => "JPEG"
    case Unknown => "unknown"
  }

  /** `file_format.lower()`. */
  function LowerName(f: Format): (r: string)
    ensures r == Lower(FormatName(f))
    ensures forall i :: 0 <= i < |r| ==> IsAsciiLetter(r[i])
  {
    match f
    case Zip => "zip"
    case Csv => "csv"
    case Pdf => "pdf"
    case Txt => "txt"
    case Xlsx => "xlsx"
    case Jpeg => "jpeg"
    case Unknown => "unknown"
  }

  /** The path suffixes that name each format. */
  function SuffixesOf(f: Format): seq<string> {
    match f
    case Zip => [".zip"]
    case Csv => [".csv"]
    case Pdf => [".pdf"]
    case Txt => [".txt"]
    case Xlsx => [".xlsx", ".xls"]
    case Jpeg => [".jpg", ".jpeg"]
    case Unknown => []
  }

  /** The format the lower-cased path of a non-empty URL names. */
  function FormatOf(url: string): Format {
    if url == "" then Unknown else PathFormat(Lower(ParsedPath(url)))
  }

  /** The suffix tests on a lower-cased path, in the script's order. */
  function PathFormat(p: string): Format {
    if EndsWith(p, ".zip") then Zip
    else if EndsWith(p, ".csv") then Csv
    else if EndsWith(p, ".pdf") then Pdf
    else if EndsWith(p, ".txt") then Txt
    else if EndsWith(p, ".xlsx") || EndsWith(p, ".xls") then Xlsx
    else if EndsWith(p, ".jpg") || EndsWith(p, ".jpeg") then Jpeg
    else Unknown
  }

  predicate NamesFormat(p: string, f: Format) {
    exists k :: 0 <= k < |SuffixesOf(f)| && EndsWith(p, SuffixesOf(f)[k])
  }

  /**
   * A URL has a format exactly when its lower-cased path ends in one of
   * that format's suffixes; no path ends in suffixes of two formats, so the
   * order of the tests does not matter.
   */
  lemma FormatOfSuffix(url: string, f: Format)
    requires url != "" && f != Unknown
    ensures FormatOf(url) == f <==> NamesFormat(Lower(ParsedPath(url)), f)
  {
    PathFormatSuffix(Lower(ParsedPath(url)), f);
  }

  lemma PathFormatSuffix(p: string, f: Format)
    requires f != Unknown
    ensures PathFormat(p) == f <==> NamesFormat(p, f)
  {
    SuffixesDisjoint(p);
    if PathFormat(p) == f {
      match f
      case Xlsx => if EndsWith(p, ".xlsx") { assert EndsWith(p, SuffixesOf(f)[0]); } else { assert EndsWith(p, SuffixesOf(f)[1]); }
      case Jpeg => if EndsWith(p, ".jpg") { assert EndsWith(p, SuffixesOf(f)[0]); } else { assert EndsWith(p, SuffixesOf(f)[1]); }
      case Zip => assert EndsWith(p, SuffixesOf(f)[0]);
      case Csv => assert EndsWith(p, SuffixesOf(f)[0]);
      case Pdf => assert EndsWith(p, SuffixesOf(f)[0]);
      case Txt => assert EndsWith(p, SuffixesOf(f)[0]);
      case Unknown =>
    }
  }

  /** A path naming no format is `unknown`. */
  lemma UnknownNamesNothing(url: string, f: Format)
    requires url != "" && FormatOf(url) == Unknown && f != Unknown
    ensures !NamesFormat(Lower(ParsedPath(url)), f)
  {
    FormatOfSuffix(url, f);
  }

  /** No string ends in suffixes of two different formats. */
  lemma SuffixesDisjoint(p: string)
    ensures EndsWith(p, ".zip") ==> !EndsWith(p, ".csv") && !EndsWith(p, ".pdf") && !EndsWith(p, ".txt")
    ensures EndsWith(p, ".zip") ==> !EndsWith(p, ".xlsx") && !EndsWith(p, ".xls") && !EndsWith(p, ".jpg") && !EndsWith(p, ".jpeg")
    ensures EndsWith(p, ".csv") ==> !EndsWith(p, ".pdf") && !EndsWith(p, ".txt") && !EndsWith(p, ".xlsx") && !EndsWith(p, ".xls")
    ensures EndsWith(p, ".csv") ==> !EndsWith(p, ".jpg") && !EndsWith(p, ".jpeg")
    ensures EndsWith(p, ".pdf") ==> !EndsWith(p, ".txt") && !EndsWith(p, ".xlsx") && !EndsWith(p, ".xls") && !EndsWith(p, ".jpg") && !EndsWith(p, ".jpeg")
    ensures EndsWith(p, ".txt") ==> !EndsWith(p, ".xlsx") && !EndsWith(p, ".xls") && !EndsWith(p, ".jpg") && !EndsWith(p, ".jpeg")
    ensures (EndsWith(p, ".xlsx") || EndsWith(p, ".xls")) ==> !EndsWith(p, ".jpg") && !EndsWith(p, ".jpeg")
  {
    if |p| >= 1 {
      var last := p[|p| - 1];
      if EndsWith(p, ".zip") { assert last == 'p'; }
      if EndsWith(p, ".csv") { assert last == 'v'; }
      if EndsWith(p, ".pdf") { assert last == 'f'; }
      if EndsWith(p, ".txt") { assert last == 't'; }
      if EndsWith(p, ".xlsx") { assert last == 'x'; }
      if EndsWith(p, ".xls") { assert last == 's'; }
      if EndsWith(p, ".jpg") { assert last == 'g'; }
      if EndsWith(p, ".jpeg") { assert last == 'g' && p[|p| - 2] == 'e'; }
      if EndsWith(p, ".jpg") { assert p[|p| - 2] == 'p'; }
    }
  }

  /** The suffixes of a direct download link, in the script's order. */
  const DirectSuffixes: seq<string> := [".zip", ".csv", ".pdf", ".txt", ".xlsx", ".xls", ".jpg", ".jpeg"]

  /** The direct-link suffixes are exactly the format suffixes, format by format. */
  lemma DirectSuffixesAreFormats()
    ensures DirectSuffixes == SuffixesOf(Zip) + SuffixesOf(Csv) + SuffixesOf(Pdf) + SuffixesOf(Txt) + SuffixesOf(Xlsx) + SuffixesOf(Jpeg)
  {
  }

  /** `download_url.endswith((...))`: on the whole URL, case and all. */
  predicate IsDirectLink(url: string) {
    exists k :: 0 <= k < |DirectSuffixes| && EndsWith(url, DirectSuffixes[k])
  }

  /**
   * The direct-link test is case-sensitive while the format test is not: a
   * URL ending in `.ZIP` is followed as a resource page, yet has format ZIP
   * when its path ends there.
   */
  lemma DirectTestIsCaseSensitive(stem: string)
    ensures !IsDirectLink(stem + ".ZIP")
    ensures EndsWith(Lower(stem + ".ZIP"), ".zip")
  {
    var u := stem + ".ZIP";
    assert u[|u| - 1] == 'P';
    forall k | 0 <= k < |DirectSuffixes| ensures !EndsWith(u, DirectSuffixes[k]) {
      var s := DirectSuffixes[k];
      assert s[|s| - 1] != 'P';
    }
    LowerAppend(stem, ".ZIP");
    assert Lower(".ZIP") == ".zip";
  }

  // ---------------------------------------------------------------- cleaning and names

  /** The characters `rstrip('. \n\r\t')` removes. */
  const UrlTrail: set<char> := {'.', ' ', '\n', '\r', '\t'}

  function CleanUrl(url: string): string {
    RStrip(url, UrlTrail)
  }

  /** Cleaning removes every trailing dot and whitespace character listed, and only those; doing it twice changes nothing. */
  lemma CleanUrlSpec(url: string)
    ensures var c := CleanUrl(url);
      c == url[..|c|] && (c == [] || c[|c| - 1] !in UrlTrail) &&
      (forall i :: |c| <= i < |url| ==> url[i] in UrlTrail) &&
      CleanUrl(c) == c
  {
  }

  predicate TitleChar(c: char) { IsWordChar(c) || IsSpace(c) || c == '-' }

  predicate Separator(c: char) { c == '-' || IsSpace(c) }

  /** `re.sub(r'[^\w\s-]', '', title)`. */
  function KeepTitleChars(s: string): (r: string)
    ensures forall i :: 0 <= i < |r| ==> TitleChar(r[i])
  {
    if s == [] then []
    else KeepTitleChars(s[..|s| - 1]) + (if TitleChar(s[|s| - 1]) then [s[|s| - 1]] else [])
  }

  /** A single character is kept exactly when it is a word character, whitespace or `-`. */
  lemma KeepTitleCharsChar(c: char)
    ensures KeepTitleChars([c]) == (if TitleChar(c) then [c] else [])
  {
    assert [c][..0] == [];
  }

  /** Filtering distributes over concatenation, so every kept character of the input survives, in order. */
  lemma {:induction false} KeepTitleCharsAppend(a: string, b: string)
    ensures KeepTitleChars(a + b) == KeepTitleChars(a) + KeepTitleChars(b)
    decreases |b|
  {
    if b == [] {
      assert a + b == a;
    } else {
      var init, last := b[..|b| - 1], b[|b| - 1];
      assert (a + b)[..|a + b| - 1] == a + init && (a + b)[|a + b| - 1] == last;
      KeepTitleCharsAppend(a, init);
    }
  }

  /** `re.sub(r'[-\s]+', '-', s)`: every run of hyphens and whitespace becomes one hyphen. */
  function Collapse(s: string): (r: string)
    ensures r == [] <==> s == []
    ensures s != [] ==> (r[|r| - 1] == '-' <==> Separator(s[|s| - 1]))
    ensures forall i :: 0 <= i < |r| ==> !IsSpace(r[i]) && (r[i] == '-' || r[i] in s)
    ensures forall i :: 0 <= i < |r| - 1 ==> !(r[i] == '-' && r[i + 1] == '-')
  {
    if s == [] then []
    else
      var r := Collapse(s[..|s| - 1]);
      var c := s[|s| - 1];
      if Separator(c) then (if r != [] && r[|r| - 1] == '-' then r else r + ['-'])
      else r + [c]
  }

  /** The title part of a synthesised filename. */
  function SafeTitle(title: string): (r: string)
    ensures forall i :: 0 <= i < |r| ==> IsWordChar(r[i]) || r[i] == '-'
    ensures forall i :: 0 <= i < |r| - 1 ==> !(r[i] == '-' && r[i + 1] == '-')
  {
    var k := KeepTitleChars(title);
    StripTitleChars(k);
    Collapse(Strip(k))
  }

  /** Stripping a string of title characters leaves title characters. */
  lemma StripTitleChars(k: string)
    requires forall i :: 0 <= i < |k| ==> TitleChar(k[i])
    ensures forall i :: 0 <= i < |Strip(k)| ==> TitleChar(Strip(k)[i])
  {
    var s, a := Strip(k), RStripSpace(k);
    forall i | 0 <= i < |s| ensures TitleChar(s[i]) {
      assert s[i] == a[|a| - |s| + i] == k[|a| - |s| + i];
    }
  }

  lemma {:induction false} KeepTitleCharsFixed(s: string)
    requires forall i :: 0 <= i < |s| ==> TitleChar(s[i])
    ensures KeepTitleChars(s) == s
  {
    if s != [] {
      KeepTitleCharsFixed(s[..|s| - 1]);
    }
  }

  lemma {:induction false} CollapseFixed(s: string)
    requires forall i :: 0 <= i < |s| ==> !IsSpace(s[i])
    requires forall i :: 0 <= i < |s| - 1 ==> !(s[i] == '-' && s[i + 1] == '-')
    ensures Collapse(s) == s
  {
    if s != [] {
      CollapseFixed(s[..|s| - 1]);
    }
  }

  /** Making a title safe twice is making it safe once. */
  lemma SafeTitleIdempotent(title: string)
    ensures SafeTitle(SafeTitle(title)) == SafeTitle(title)
  {
    var t := SafeTitle(title);
    KeepTitleCharsFixed(t);
    StripUnspaced(t);
    CollapseFixed(t);
  }

  /**
   * The filename: the basename of the URL's path, or, when that is empty,
   * the safe title with the format's lower-case name as extension.
   */
  function ResourceName(url: string, title: string, format: Format): string {
    var b := Basename(ParsedPath(url));
    if b == "" || b == "/" then SafeTitle(title) + "." + LowerName(format) else b
  }

  /**
   * A resource's filename is never empty and never holds a `/`, so it stays
   * inside the year's directory; the test against `/` never succeeds.
   */
  lemma ResourceNamePlain(url: string, title: string, format: Format)
    ensures var n := ResourceName(url, title, format);
      n != "" && NoSlash(n) &&
      Basename(ParsedPath(url)) != "/" &&
      (Basename(ParsedPath(url)) != "" ==> n == Basename(ParsedPath(url)))
  {
    var b := Basename(ParsedPath(url));
    assert |b| != 1 || b[0] != '/';
    if b == "" {
      SynthesisedNamePlain(title, format);
    }
  }

  lemma SynthesisedNamePlain(title: string, format: Format)
    ensures NoSlash(SafeTitle(title) + "." + LowerName(format))
  {
    var t := SafeTitle(title);
    var e := LowerName(format);
    var n := t + "." + e;
    forall i | 0 <= i < |n| ensures n[i] != '/' {
      if i < |t| {
        assert n[i] == t[i];
      } else if i > |t| {
        assert n[i] == e[i - |t| - 1];
      }
    }
  }

  // ---------------------------------------------------------------- items

  /** An anchor of an item: its `href` when it has one, and its lone string ("" when it has none). */
  datatype ItemLink = ItemLink(href: Option<string>, text: string)

  /** A resource item: the text of its title element, its anchors and the size text found in it. */
  datatype Item = Item(title: Option<string>, links: seq<ItemLink>, sizeText: Option<string>)

  datatype Resource = Resource(name: string, title: string, url: string, format: Format, size: Option<string>)

  predicate IrParaRecurso(l: ItemLink) { Contains(Lower(l.text), "ir para recurso") }

  predicate LooksLikeDownload(l: ItemLink) {
    l.href.Some? && StartsWith(l.href.value, "http") &&
    (Contains(l.href.value, "cdn.tse.jus.br") || Contains(Lower(l.href.value), "download"))
  }

  /** The first anchor labelled "ir para recurso". */
  function FirstLabelled(links: seq<ItemLink>): (r: Option<nat>)
    ensures r.Some? ==> r.value < |links| && IrParaRecurso(links[r.value])
    ensures forall j :: 0 <= j < |links| && (r.None? || j < r.value) ==> !IrParaRecurso(links[j])
  {
    if links == [] then None
    else if IrParaRecurso(links[0]) then Some(0)
    else match FirstLabelled(links[1..])
      case None => None
      case Some(k) => Some(k + 1)
  }

  /** The first anchor whose `href` is external and looks like a download. */
  function FirstDownloadLike(links: seq<ItemLink>): (r: Option<nat>)
    ensures r.Some? ==> r.value < |links| && LooksLikeDownload(links[r.value])
    ensures forall j :: 0 <= j < |links| && (r.None? || j < r.value) ==> !LooksLikeDownload(links[j])
  {
    if links == [] then None
    else if LooksLikeDownload(links[0]) then Some(0)
    else match FirstDownloadLike(links[1..])
      case None => None
      case Some(k) => Some(k + 1)
  }

  /** The download link of an item: the labelled anchor, else the first download-like one. */
  function DownloadLink(links: seq<ItemLink>): Option<ItemLink> {
    match FirstLabelled(links)
    case Some(k) => Some(links[k])
    case None =>
      match FirstDownloadLike(links)
      case Some(k) => Some(links[k])
      case None => None
  }

  predicate DirectHref(x: string) {
    x != "" && (IsDirectLink(x) || Contains(Lower(x), "download") || Contains(x, "cdn.tse.jus.br"))
  }

  /** The first `href` of a resource page that points at a file. */
  function FirstDirect(hrefs: seq<string>): (r: Option<nat>)
    ensures r.Some? ==> r.value < |hrefs| && DirectHref(hrefs[r.value])
    ensures forall j :: 0 <= j < |hrefs| && (r.None? || j < r.value) ==> !DirectHref(hrefs[j])
  {
    if hrefs == [] then None
    else if DirectHref(hrefs[0]) then Some(0)
    else match FirstDirect(hrefs[1..])
      case None => None
      case Some(k) => Some(k + 1)
  }

  /** A URL that is followed: non-empty, not direct, and site-relative or mentioning `dataset`. */
  predicate Followed(url: string) {
    url != "" && !IsDirectLink(url) && (StartsWith(url, "/") || Contains(url, "dataset"))
  }

  /** The URL after following a resource page: its first file link, else the URL unchanged. */
  function Follow(url: string, pages: map<string, seq<string>>): string {
    var page := JoinBase(url);
    if page !in pages then url
    else match FirstDirect(pages[page])
      case None => url
      case Some(k) =>
        var x := pages[page][k];
        if StartsWith(x, "/") then JoinBase(x) else x
  }

  /** The resource an item yields, or None when it has no title or no download link. */
  function ItemResource(item: Item, pages: map<string, seq<string>>): Option<Resource> {
    if item.title.None? then None
    else match DownloadLink(item.links)
      case None => None
      case Some(link) =>
        var u0 := link.href.GetOr("");
        var u := CleanUrl(if Followed(u0) then Follow(u0, pages) else u0);
        var f := FormatOf(u);
        var size := if item.sizeText.Some? then Some(Strip(item.sizeText.value)) else None;
        Some(Resource(ResourceName(u, item.title.value, f), item.title.value, u, f, size))
  }

  /** A resource as the script builds it: a plain name, a cleaned URL and the format that URL names. */
  predicate WellFormed(r: Resource) {
    r.name != "" && NoSlash(r.name) && CleanUrl(r.url) == r.url && r.format == FormatOf(r.url)
  }

  lemma ItemResourceWellFormed(item: Item, pages: map<string, seq<string>>)
    ensures ItemResource(item, pages).Some? ==> WellFormed(ItemResource(item, pages).value)
  {
    var r := ItemResource(item, pages);
    if r.Some? {
      ResourceNamePlain(r.value.url, r.value.title, r.value.format);
      var link := DownloadLink(item.links).value;
      var u0 := link.href.GetOr("");
      CleanUrlSpec(if Followed(u0) then Follow(u0, pages) else u0);
    }
  }

  /** A direct link is taken as it is, without visiting any resource page. */
  lemma DirectLinkNotFollowed(item: Item, pages: map<string, seq<string>>)
    requires item.title.Some? && DownloadLink(item.links).Some?
    requires var h := DownloadLink(item.links).value.href; h.Some? && IsDirectLink(h.value)
    ensures ItemResource(item, pages).value.url == CleanUrl(DownloadLink(item.links).value.href.value)
  {
  }

  /** The resources of the items, in order: an item without title or download link is skipped. */
  function ResourcesFrom(items: seq<Item>, pages: map<string, seq<string>>): (r: seq<Resource>)
    ensures |r| <= |items|
  {
    if items == [] then []
    else
      var last := ItemResource(items[|items| - 1], pages);
      ResourcesFrom(items[..|items| - 1], pages) + (if last.Some? then [last.value] else [])
  }

  lemma {:induction false} ResourcesWellFormed(items: seq<Item>, pages: map<string, seq<string>>)
    ensures forall k :: 0 <= k < |ResourcesFrom(items, pages)| ==> WellFormed(ResourcesFrom(items, pages)[k])
  {
    if items != [] {
      var init := items[..|items| - 1];
      var last := ItemResource(items[|items| - 1], pages);
      var prev := ResourcesFrom(init, pages);
      var added: seq<Resource> := if last.Some? then [last.value] else [];
      ResourcesWellFormed(init, pages);
      ItemResourceWellFormed(items[|items| - 1], pages);
      assert ResourcesFrom(items, pages) == prev + added;
      forall k | 0 <= k < |prev + added| ensures WellFormed((prev + added)[k]) {
        if k < |prev| {
          assert (prev + added)[k] == prev[k];
        } else {
          assert (prev + added)[k] == last.value;
        }
      }
    }
  }

  lemma ResourcesFromStep(items: seq<Item>, i: nat, pages: map<string, seq<string>>)
    requires i < |items|
    ensures var r := ItemResource(items[i], pages);
      ResourcesFrom(items[..i + 1], pages) == ResourcesFrom(items[..i], pages) + (if r.Some? then [r.value] else [])
  {
    assert items[..i + 1][..i] == items[..i];
  }

  /** A year page: whether it has the "Dados e recursos" heading, and its resource items. */
  datatype YearPage = YearPage(hasSection: bool, items: seq<Item>)

  /** The resources of a year: none when the page could not be fetched or has no heading. */
  function YearResources(page: Option<YearPage>, pages: map<string, seq<string>>): seq<Resource> {
    if page.None? || !page.value.hasSection then [] else ResourcesFrom(page.value.items, pages)
  }

  /** `get_resources_from_year`: the loop over the resource items. */
  method GetResourcesFromYear(page: Option<YearPage>, pages: map<string, seq<string>>) returns (resources: seq<Resource>)
    ensures resources == YearResources(page, pages)
  {
    resources := [];
    if page.None? || !page.value.hasSection {
      return;
    }
    var items := page.value.items;
    var i := 0;
    while i < |items|
      invariant 0 <= i <= |items|
      invariant resources == ResourcesFrom(items[..i], pages)
    {
      var r := ItemResource(items[i], pages);
      if r.Some? {
        resources := resources + [r.value];
      }
      ResourcesFromStep(items, i, pages);
      i := i + 1;
    }
    assert items[..i] == items;
  }
}
