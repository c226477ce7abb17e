/**
 * `main` of the TSE downloader: the years found, the years chosen, and for
 * every resource of every chosen year the existing-file decision and the
 * download with its retries, counted as downloaded, skipped or failed.
 *
 * The site is an input: the candidates page's anchors (None when fetching
 * it fails), the year pages that could be fetched, by URL, and the `href`s
 * of each resource page that could be fetched.  The answer lines feed the
 * year prompt first, then the existing-file prompts, then the closing
 * "press Enter"; a prompt that finds no line left raises `EOFError`, which
 * the top-level handler turns into exit status 1.
 */
module TseMain {
  import opened Wrappers
  import opened Text
  import opened Url
  import opened Transfer
  import opened TsePolicy
  import opened TseDownload
  import opened TseResources
  import opened TseYears
  import opened TseSelection

  /** `PASTA_BASE`. */
  const BaseDir: string := "dados-tse"

  datatype Site = Site(candidates: Option<seq<YearAnchor>>, yearPages: map<string, YearPage>, resourcePages: map<string, seq<string>>)

  function PageOf(site: Site, url: string): Option<YearPage> {
    if url in site.yearPages then Some(site.yearPages[url]) else None
  }

  /** What `get_resources_from_year` returns for a year's URL. */
  function ResourcesOf(site: Site, url: string): seq<Resource> {
    YearResources(PageOf(site, url), site.resourcePages)
  }

  /** `os.path.join(setup_directories(year=year), name)`. */
  function OutputPath(year: nat, name: string): string {
    Join(Join(BaseDir, NatToDecimal(year)), name)
  }

  /** A plain name lands in the year's own directory under `dados-tse`. */
  lemma OutputPathLayout(year: nat, name: string)
    requires name != "" && NoSlash(name)
    ensures OutputPath(year, name) == BaseDir + "/" + NatToDecimal(year) + "/" + name
  {
    var d := NatToDecimal(year);
    assert !StartsWith(d, "/") by { assert d[..1][0] == d[0]; }
    assert !EndsWith(BaseDir, "/");
    var dir := BaseDir + "/" + d;
    assert Join(BaseDir, d) == dir;
    assert !StartsWith(name, "/") by { assert name[..1][0] == name[0]; }
    assert !EndsWith(dir, "/") by { assert dir[|dir| - 1] == d[|d| - 1]; }
  }

  // ---------------------------------------------------------------- counters

  /** An entry of `failed_downloads`, without the error message. */
  datatype Failure = Failure(year: nat, name: string, url: string)

  /** `total_downloaded`, `total_skipped`, `total_failed` and `failed_downloads`. */
  datatype Totals = Totals(downloaded: nat, skipped: nat, failed: nat, failures: seq<Failure>)

  const NoTotals := Totals(0, 0, 0, [])

  function Count(t: Totals): nat {
    t.downloaded + t.skipped + t.failed
  }

  /** Every failure counted has its record. */
  predicate Recorded(t: Totals) {
    |t.failures| == t.failed
  }

  /**
   * What `main` carries from one resource to the next: the counters, the
   * "for all files" flags, the disk, the download replies left and the
   * choices of the answer lines left.
   */
  datatype State = State(totals: Totals, flags: Flags, fs: FileSystem, replies: seq<Reply>, choices: seq<Option<Choice>>)

  /** The state reached, and whether a prompt ran out of lines there. */
  datatype Progress = Progress(st: State, eof: bool)

  // ---------------------------------------------------------------- one resource

  /**
   * One resource: the existing-file decision, then either a skip or the
   * retried download.  Running out of lines stops everything where it is.
   */
  function ResourceStep(year: nat, r: Resource, st: State): (p: Progress)
    ensures p.eof ==> p.st == st
    ensures !p.eof ==> Count(p.st.totals) == Count(st.totals) + 1 && |p.st.choices| <= |st.choices|
    ensures !p.eof ==> (p.st.totals.failures ==
      st.totals.failures + (if p.st.totals.failed > st.totals.failed then [Failure(year, r.name, r.url)] else []))
    ensures !p.eof ==> p.st.totals.failed <= st.totals.failed + 1
    ensures !p.eof && p.st.totals.failed > st.totals.failed ==> !Retry(OutputPath(year, r.name), st.fs, st.replies).ok
    ensures !p.eof && p.st.totals.downloaded > st.totals.downloaded ==> Retry(OutputPath(year, r.name), st.fs, st.replies).ok
  {
    var path := OutputPath(year, r.name);
    match HandleExisting(path in st.fs, st.flags, st.choices)
    case None => Progress(st, true)
    case Some(h) =>
      var st' := st.(flags := h.flags, choices := st.choices[h.read..]);
      if h.action == Skip then
        Progress(st'.(totals := st.totals.(skipped := st.totals.skipped + 1)), false)
      else
        var d := Retry(path, st.fs, st.replies);
        var t := if d.ok then st.totals.(downloaded := st.totals.downloaded + 1)
                 else st.totals.(failed := st.totals.failed + 1, failures := st.totals.failures + [Failure(year, r.name, r.url)]);
        Progress(st'.(totals := t, fs := d.fs, replies := d.replies), false)
  }

  /**
   * A resource is counted as failed, and its failure recorded once, only
   * after the third download attempt has failed.
   */
  lemma FailureAfterLastAttempt(year: nat, r: Resource, st: State)
    ensures var p := ResourceStep(year, r, st);
      !p.eof && p.st.totals.failed > st.totals.failed ==>
        Retry(OutputPath(year, r.name), st.fs, st.replies).attempts == MaxRetries &&
        p.st.totals.failures == st.totals.failures + [Failure(year, r.name, r.url)]
  {
    RetryShape(OutputPath(year, r.name), st.fs, st.replies);
  }

  /** A skipped resource leaves the disk and the download replies as they were. */
  lemma SkipLeavesDisk(year: nat, r: Resource, st: State)
    requires var h := HandleExisting(OutputPath(year, r.name) in st.fs, st.flags, st.choices);
      h.Some? && h.value.action == Skip
    ensures var p := ResourceStep(year, r, st);
      !p.eof && p.st.fs == st.fs && p.st.replies == st.replies &&
      p.st.totals == st.totals.(skipped := st.totals.skipped + 1)
  {
  }

  /**
   * Choosing to overwrite an existing file, by answer or by the "overwrite
   * all" flag, does not truncate it first: the download asks for the bytes
   * after the ones on disk, and the disk afterwards is what the retries leave.
   */
  lemma OverwriteResumes(year: nat, r: Resource, st: State)
    requires OutputPath(year, r.name) in st.fs
    requires var h := HandleExisting(true, st.flags, st.choices);
      h.Some? && h.value.action == Overwrite
    ensures var path := OutputPath(year, r.name);
      var p := ResourceStep(year, r, st);
      !p.eof && p.st.fs == Retry(path, st.fs, st.replies).fs &&
      TseDownloadFile(path, st.fs, st.replies).requests[0] == Request(Some(|st.fs[path]|))
  {
    ResumeSendsRange(OutputPath(year, r.name), st.fs, st.replies);
  }

  // ---------------------------------------------------------------- the loops

  /** The resources of one year in turn, stopping at the first prompt that runs out of lines. */
  function RunResources(year: nat, rs: seq<Resource>, st: State): (p: Progress)
    ensures !p.eof ==> Count(p.st.totals) == Count(st.totals) + |rs|
    ensures Recorded(st.totals) ==> Recorded(p.st.totals)
  {
    if rs == [] then Progress(st, false)
    else
      var p := ResourceStep(year, rs[0], st);
      if p.eof then p else RunResources(year, rs[1..], p.st)
  }

  /** How many resources the chosen years list. */
  function ResourceTotal(site: Site, ys: seq<Entry>): nat {
    if ys == [] then 0 else |ResourcesOf(site, ys[0].1)| + ResourceTotal(site, ys[1..])
  }

  function RunYears(site: Site, ys: seq<Entry>, st: State): (p: Progress)
    ensures !p.eof ==> Count(p.st.totals) == Count(st.totals) + ResourceTotal(site, ys)
    ensures Recorded(st.totals) ==> Recorded(p.st.totals)
  {
    if ys == [] then Progress(st, false)
    else
      var p := RunResources(ys[0].0, ResourcesOf(site, ys[0].1), st);
      if p.eof then p else RunYears(site, ys[1..], p.st)
  }

  // ---------------------------------------------------------------- main

  /** The exit status, the counters and the disk at the end. */
  datatype Outcome = Outcome(code: int, totals: Totals, fs: FileSystem)

  function TseRun(site: Site, answers: seq<string>, fs: FileSystem, replies: seq<Reply>): Outcome {
    match ElectionYears(site.candidates)
    case None => Outcome(1, NoTotals, fs)
    case Some(ys) =>
      if ys == [] then Outcome(1, NoTotals, fs)
      else
        SelectYearsReads(ys, answers);
        match SelectYears(ys, answers)
        case None => Outcome(1, NoTotals, fs)
        case Some((sel, n)) =>
          if sel == [] then Outcome(0, NoTotals, fs)
          else
            var p := RunYears(site, sel, State(NoTotals, NoFlags, fs, replies, Choices(answers[n..])));
            Outcome(if p.eof || p.st.choices == [] then 1 else 0, p.st.totals, p.st.fs)
  }

  /**
   * Nothing is downloaded unless the candidates page lists a year and an
   * answer line selects some: otherwise the disk is left alone, with status
   * 0 only for a selection that is accepted and empty.
   */
  lemma NothingBeforeSelection(site: Site, answers: seq<string>, fs: FileSystem, replies: seq<Reply>)
    requires var ys := ElectionYears(site.candidates);
      ys.None? || ys.value == [] || SelectYears(ys.value, answers).None? || SelectYears(ys.value, answers).value.0 == []
    ensures var o := TseRun(site, answers, fs, replies);
      o.fs == fs && o.totals == NoTotals &&
      (o.code == 0 <==> ElectionYears(site.candidates).Some? && ElectionYears(site.candidates).value != [] &&
                        SelectYears(ElectionYears(site.candidates).value, answers).Some?)
  {
  }

  /**
   * Every failure counted is recorded with its year, name and URL, and a
   * run that ends with status 0 after a non-empty selection has counted
   * every resource of every chosen year exactly once.
   */
  lemma RunAccountsForEveryResource(site: Site, answers: seq<string>, fs: FileSystem, replies: seq<Reply>)
    requires var ys := ElectionYears(site.candidates); ys.Some? && SelectYears(ys.value, answers).Some?
    ensures var o := TseRun(site, answers, fs, replies);
      var sel := SelectYears(ElectionYears(site.candidates).value, answers).value.0;
      Recorded(o.totals) && (o.code == 0 ==> Count(o.totals) == ResourceTotal(site, sel))
  {
  }

  // ---------------------------------------------------------------- the method

  /** One resource: `handle_existing_file`, then the skip or the retry loop. */
  method ProcessResource(year: nat, r: Resource, st: State) returns (p: Progress)
    ensures p == ResourceStep(year, r, st)
  {
    var path := OutputPath(year, r.name);
    var h := HandleExistingFile(path in st.fs, st.flags, st.choices);
    if h.None? {
      return Progress(st, true);
    }
    var st' := st.(flags := h.value.flags, choices := st.choices[h.value.read..]);
    if h.value.action == Skip {
      return Progress(st'.(totals := st.totals.(skipped := st.totals.skipped + 1)), false);
    }
    var d := RetryDownload(path, st.fs, st.replies);
    var t := st.totals;
    if d.ok {
      t := t.(downloaded := t.downloaded + 1);
    } else {
      t := t.(failed := t.failed + 1, failures := t.failures + [Failure(year, r.name, r.url)]);
    }
    return Progress(st'.(totals := t, fs := d.fs, replies := d.replies), false);
  }

  /** `for res_idx, resource in enumerate(resources, 1)`. */
  method ProcessResources(year: nat, rs: seq<Resource>, st: State) returns (p: Progress)
    ensures p == RunResources(year, rs, st)
  {
    p := Progress(st, false);
    var i := 0;
    while i < |rs|
      invariant 0 <= i <= |rs| && !p.eof
      invariant RunResources(year, rs, st) == RunResources(year, rs[i..], p.st)
    {
      assert rs[i..][0] == rs[i] && rs[i..][1..] == rs[i + 1..];
      var q := ProcessResource(year, rs[i], p.st);
      if q.eof {
        return q;
      }
      p := q;
      i := i + 1;
    }
  }

  /** `for year_idx, (year, year_url) in enumerate(selected_years, 1)`. */
  method ProcessYears(site: Site, ys: seq<Entry>, st: State) returns (p: Progress)
    ensures p == RunYears(site, ys, st)
  {
    p := Progress(st, false);
    var i := 0;
    while i < |ys|
      invariant 0 <= i <= |ys| && !p.eof
      invariant RunYears(site, ys, st) == RunYears(site, ys[i..], p.st)
    {
      assert ys[i..][0] == ys[i] && ys[i..][1..] == ys[i + 1..];
      var (year, url) := ys[i];
      var resources := GetResourcesFromYear(PageOf(site, url), site.resourcePages);
      var q := ProcessResources(year, resources, p.st);
      if q.eof {
        return q;
      }
      p := q;
      i := i + 1;
    }
  }

  /** `main`, with the top-level handler's exit status. */
  method RunMain(site: Site, answers: seq<string>, fs: FileSystem, replies: seq<Reply>) returns (o: Outcome)
    ensures o == TseRun(site, answers, fs, replies)
  {
    var years := GetElectionYears(site.candidates);
    if years.None? || years.value == [] {
      return Outcome(1, NoTotals, fs);
    }
    var chosen := PromptYearSelection(years.value, answers);
    if chosen.None? {
      return Outcome(1, NoTotals, fs);
    }
    SelectYearsReads(years.value, answers);
    var (selected, n) := chosen.value;
    if selected == [] {
      return Outcome(0, NoTotals, fs);
    }
    var p := ProcessYears(site, selected, State(NoTotals, NoFlags, fs, replies, Choices(answers[n..])));
    var code := if p.eof || p.st.choices == [] then 1 else 0;
    return Outcome(code, p.st.totals, p.st.fs);
  }
}
