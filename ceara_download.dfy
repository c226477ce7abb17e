/**
 * `download_file`, `should_overwrite_file` and `main` of the Ceará gazette
 * downloader: the per-attempt decisions (status check, renaming from a
 * Content-Disposition name, the overwrite prompt, the truncating write), the
 * retry loop, the filename sanitisation and the run's counters.
 *
 * The user's answers to the overwrite prompt are a stream of lines, which
 * the download functions see as the stream of what each line decides
 * (`Words`); a prompt that finds the stream exhausted raises `EOFError`,
 * which `download_file`'s generic handler turns into a failed attempt.
 */
module CearaDownload {
  import opened Wrappers
  import opened Text
  import opened Url
  import opened Transfer
  import opened CearaFilenames
  import opened CearaLinks
  import opened CearaDates

  datatype Status = Downloaded | Skipped | Failed

  // ---------------------------------------------------------------- should_overwrite_file

  /**
   * What one answer decides, once stripped and lower-cased: `s`/`skip` is
   * Some(false), `o`/`overwrite` is Some(true), anything else asks again.
   */
  function AnswerWord(answer: string): Option<bool> {
    var c := Lower(Strip(answer));
    if c == "s" || c == "skip" then Some(false)
    else if c == "o" || c == "overwrite" then Some(true)
    else None
  }


  /** What each answer decides, in order. */
  function Words(answers: seq<string>): (r: seq<Option<bool>>)
    ensures |r| == |answers|
    ensures forall i :: 0 <= i < |answers| ==> r[i] == AnswerWord(answers[i])
  {
    seq(|answers|, i requires 0 <= i < |answers| => AnswerWord(answers[i]))
  }

  /** Reading the answers left after the first `n` gives the decisions left after the first `n`. */
  lemma WordsSuffix(answers: seq<string>, n: nat)
    requires n <= |answers|
    ensures Words(answers[n..]) == Words(answers)[n..]
  {
  }

  /**
   * The prompt loop for an existing file: whether to overwrite, and how many
   * answers were read; None when the answers run out first.
   */
  function OverwriteAnswer(answers: seq<string>): (r: Option<(bool, nat)>)
    ensures r.None? <==> forall j :: 0 <= j < |answers| ==> AnswerWord(answers[j]).None?
    ensures r.Some? ==> 1 <= r.value.1 <= |answers| && AnswerWord(answers[r.value.1 - 1]) == Some(r.value.0)
    ensures r.Some? ==> forall j :: 0 <= j < r.value.1 - 1 ==> AnswerWord(answers[j]).None?
  {
    var ws := Words(answers);
    assert forall j :: 0 <= j < |answers| ==> ws[j] == AnswerWord(answers[j]);
    FirstSome(ws)
  }

  // ---------------------------------------------------------------- renaming from Content-Disposition

  /** The basenames, lower-cased, that a Content-Disposition name may replace. */
  const GenericBasenames: set<string> := {"visualizar.pdf", "baixar.pdf", "download.pdf", "documento.pdf"}

  /** The name a GET reply's Content-Disposition header gives, when the header is present and non-empty. */
  function ReplyFilename(cd: Option<string>): Option<string> {
    if cd.Some? && cd.value != "" then ContentDispositionFilename(cd.value) else None
  }

  /** The path after an attempt has read the reply's Content-Disposition name. */
  function Renamed(path: string, name: Option<string>): string {
    if name.Some? && name.value != "" && IsPdfName(name.value) && Lower(Basename(path)) in GenericBasenames then
      Join(Dirname(path), name.value)
    else path
  }

  /** The path changes only for a `.pdf` name over a generic basename. */
  lemma RenameOnlyGeneric(path: string, name: Option<string>)
    ensures Renamed(path, name) != path ==>
      name.Some? && IsPdfName(name.value) && Lower(Basename(path)) in GenericBasenames
  {
  }

  /** A renamed path ends in the new name when that name holds no `/`. */
  lemma RenameTakesName(path: string, name: string)
    requires name != "" && IsPdfName(name) && NoSlash(name)
    requires Lower(Basename(path)) in GenericBasenames
    ensures Basename(Renamed(path, Some(name))) == name
  {
    BasenameJoin(Dirname(path), name);
  }

  /** An absolute Content-Disposition name replaces the whole path, leaving the download directory. */
  lemma RenameAbsoluteEscapes(path: string, name: string)
    requires StartsWith(name, "/") && IsPdfName(name)
    requires Lower(Basename(path)) in GenericBasenames
    ensures Renamed(path, Some(name)) == name
  {
  }

  // ---------------------------------------------------------------- one attempt

  /**
   * The state an attempt leaves: whether it returned (`ok`) and with what
   * status, the path variable, the disk and the words left.
   */
  datatype Attempt = Attempt(ok: bool, status: Status, path: string, fs: FileSystem, words: seq<Option<bool>>)

  /** The `'wb'` write of the body, then success, or failure if the stream broke. */
  function WriteBody(path: string, fs: FileSystem, chunks: seq<Bytes>, broken: bool, words: seq<Option<bool>>): (a: Attempt)
    ensures a.fs == fs[path := Concat(chunks)] && a.path == path && a.words == words
    ensures a.ok <==> !broken
  {
    var fs' := fs[path := Concat(chunks)];
    if broken then Attempt(false, Failed, path, fs', words) else Attempt(true, Downloaded, path, fs', words)
  }

  /** The body of the retry loop of `download_file`, for one reply. */
  function CearaAttempt(reply: Reply, path: string, fs: FileSystem, words: seq<Option<bool>>): Attempt {
    match reply
    case Unreachable => Attempt(false, Failed, path, fs, words)
    case Response(status, cl, cd, chunks, broken) =>
      if ErrorStatus(status) then Attempt(false, Failed, path, fs, words)
      else
        var p := Renamed(path, ReplyFilename(cd));
        if HeaderInt(cl).None? then Attempt(false, Failed, p, fs, words)
        else if p !in fs then WriteBody(p, fs, chunks, broken, words)
        else match FirstSome(words)
          case None => Attempt(false, Failed, p, fs, [])
          case Some((overwrite, n)) =>
            if overwrite then WriteBody(p, fs, chunks, broken, words[n..])
            else Attempt(true, Skipped, p, fs, words[n..])
  }

  /**
   * An attempt touches no file but the one at its path; a successful
   * download holds exactly the reply's body there, whatever was there
   * before: the downloader never resumes.
   */
  lemma AttemptWrites(reply: Reply, path: string, fs: FileSystem, words: seq<Option<bool>>)
    ensures var a := CearaAttempt(reply, path, fs, words);
      (forall q :: q in fs && q != a.path ==> q in a.fs && a.fs[q] == fs[q]) &&
      (forall q :: q !in fs && q != a.path ==> q !in a.fs) &&
      (a.ok && a.status == Downloaded ==> reply.Response? && a.fs[a.path] == Concat(reply.chunks)) &&
      (a.ok ==> a.status != Failed) && (!a.ok ==> a.status == Failed)
  {
    match reply
    case Unreachable =>
    case Response(status, cl, cd, chunks, broken) =>
      if !ErrorStatus(status) {
        var p := Renamed(path, ReplyFilename(cd));
        if HeaderInt(cl).Some? && p in fs {
          var o := FirstSome(words);
          if o.Some? && o.value.0 {
            var w := WriteBody(p, fs, chunks, broken, words[o.value.1..]);
            assert CearaAttempt(reply, path, fs, words) == w;
          }
        }
      }
  }

  /** An attempt renames only a generic basename, and only to a `.pdf` name. */
  lemma AttemptRenamesOnlyGeneric(reply: Reply, path: string, fs: FileSystem, words: seq<Option<bool>>)
    ensures var a := CearaAttempt(reply, path, fs, words);
      a.path != path ==> Lower(Basename(path)) in GenericBasenames
  {
    match reply
    case Unreachable =>
    case Response(status, cl, cd, chunks, broken) =>
      if !ErrorStatus(status) {
        var p := Renamed(path, ReplyFilename(cd));
        RenameOnlyGeneric(path, ReplyFilename(cd));
        if HeaderInt(cl).Some? && p in fs {
          match FirstSome(words)
          case None =>
          case Some((overwrite, n)) =>
            assert CearaAttempt(reply, path, fs, words).path == p;
        }
      }
  }

  /** An existing file is skipped only on the user's word, and skipping leaves the disk alone. */
  lemma SkipNeedsAnswer(reply: Reply, path: string, fs: FileSystem, words: seq<Option<bool>>)
    ensures var a := CearaAttempt(reply, path, fs, words);
      a.status == Skipped ==> a.path in fs && a.fs == fs && FirstSome(words) == Some((false, |words| - |a.words|))
  {
  }

  // ---------------------------------------------------------------- the retry loop

  /** The outcome of `download_file` and the state it leaves, with the number of attempts made. */
  datatype Download = Download(status: Status, path: string, fs: FileSystem, replies: seq<Reply>, words: seq<Option<bool>>, attempts: nat)

  /** `download_file` with `remaining` attempts left: each failure moves on to the next reply. */
  function CearaDownloadFrom(path: string, fs: FileSystem, replies: seq<Reply>, words: seq<Option<bool>>, remaining: nat): Download
    decreases remaining
  {
    if remaining == 0 then Download(Failed, path, fs, replies, words, 0)
    else
      var a := CearaAttempt(NextReply(replies), path, fs, words);
      if a.ok then Download(a.status, a.path, a.fs, RestReplies(replies), a.words, 1)
      else
        var d := CearaDownloadFrom(a.path, a.fs, RestReplies(replies), a.words, remaining - 1);
        d.(attempts := d.attempts + 1)
  }

  function CearaDownload(path: string, fs: FileSystem, replies: seq<Reply>, words: seq<Option<bool>>, maxRetries: int): Download {
    CearaDownloadFrom(path, fs, replies, words, if maxRetries > 0 then maxRetries else 0)
  }

  /**
   * At most `max_retries` attempts; the result is `failed` exactly when
   * every one of them failed, and each attempt takes one reply.
   */
  lemma {:induction false} RetryBound(path: string, fs: FileSystem, replies: seq<Reply>, words: seq<Option<bool>>, remaining: nat)
    ensures var d := CearaDownloadFrom(path, fs, replies, words, remaining);
      d.attempts <= remaining &&
      (d.status == Failed ==> d.attempts == remaining) &&
      (remaining > 0 ==> d.attempts >= 1) &&
      |d.replies| == if |replies| >= d.attempts then |replies| - d.attempts else 0
    decreases remaining
  {
    if remaining > 0 {
      var a := CearaAttempt(NextReply(replies), path, fs, words);
      AttemptWrites(NextReply(replies), path, fs, words);
      DownloadStep(path, fs, replies, words, remaining);
      if !a.ok {
        RetryBound(a.path, a.fs, RestReplies(replies), a.words, remaining - 1);
      }
    }
  }

  /** One round of the retry loop: a successful attempt ends it, a failed one counts and goes on. */
  lemma DownloadStep(path: string, fs: FileSystem, replies: seq<Reply>, words: seq<Option<bool>>, remaining: nat)
    requires remaining > 0
    ensures var a := CearaAttempt(NextReply(replies), path, fs, words);
      var d := CearaDownloadFrom(path, fs, replies, words, remaining);
      (a.ok ==> d == Download(a.status, a.path, a.fs, RestReplies(replies), a.words, 1)) &&
      (!a.ok ==> d == CearaDownloadFrom(a.path, a.fs, RestReplies(replies), a.words, remaining - 1).(attempts := d.attempts))
  {
  }

  lemma RetryCap(path: string, fs: FileSystem, replies: seq<Reply>, words: seq<Option<bool>>, maxRetries: int)
    ensures var d := CearaDownload(path, fs, replies, words, maxRetries);
      d.attempts <= (if maxRetries > 0 then maxRetries else 0) &&
      (d.status == Failed ==> d.attempts == (if maxRetries > 0 then maxRetries else 0))
  {
    RetryBound(path, fs, replies, words, if maxRetries > 0 then maxRetries else 0);
  }

  /** One attempt, as `download_file` runs it: the write is the chunk loop. */
  method RunAttempt(reply: Reply, path: string, fs: FileSystem, words: seq<Option<bool>>) returns (a: Attempt)
    ensures a == CearaAttempt(reply, path, fs, words)
  {
    if reply.Unreachable? || ErrorStatus(reply.status) {
      return Attempt(false, Failed, path, fs, words);
    }
    var filepath := Renamed(path, ReplyFilename(reply.contentDisposition));
    var totalSize := HeaderInt(reply.contentLength);
    if totalSize.None? {
      return Attempt(false, Failed, filepath, fs, words);
    }
    var left := words;
    if filepath in fs {
      var choice := FirstSome(words);
      if choice.None? {
        return Attempt(false, Failed, filepath, fs, []);
      }
      left := words[choice.value.1..];
      if !choice.value.0 {
        return Attempt(true, Skipped, filepath, fs, left);
      }
    }
    var content := WriteChunks([], reply.chunks);
    assert content == Concat(reply.chunks);
    var fs' := fs[filepath := content];
    if reply.broken {
      return Attempt(false, Failed, filepath, fs', left);
    }
    return Attempt(true, Downloaded, filepath, fs', left);
  }

  /** `download_file`: the `for attempt in range(max_retries)` loop. */
  method DownloadFile(path: string, fs: FileSystem, replies: seq<Reply>, words: seq<Option<bool>>, maxRetries: int)
    returns (d: Download)
    ensures d == CearaDownload(path, fs, replies, words, maxRetries)
  {
    var total := if maxRetries > 0 then maxRetries else 0;
    var filepath, disk, rs, wds := path, fs, replies, words;
    var attempt := 0;
    while attempt < total
      invariant 0 <= attempt <= total
      invariant CearaDownload(path, fs, replies, words, maxRetries)
             == var r := CearaDownloadFrom(filepath, disk, rs, wds, total - attempt); r.(attempts := r.attempts + attempt)
    {
      var a := RunAttempt(NextReply(rs), filepath, disk, wds);
      if a.ok {
        return Download(a.status, a.path, a.fs, RestReplies(rs), a.words, attempt + 1);
      }
      filepath, disk, rs, wds := a.path, a.fs, RestReplies(rs), a.words;
      attempt := attempt + 1;
    }
    return Download(Failed, filepath, disk, rs, wds, attempt);
  }

  // ---------------------------------------------------------------- main

  predicate SafeChar(c: char) { IsAlnum(c) || c == '.' || c == '_' || c == '-' || c == ' ' }

  /** The characters of `s` that are alphanumeric or one of `._- `, in order. */
  function KeepSafe(s: string): (r: string)
    ensures |r| <= |s|
    ensures forall i :: 0 <= i < |r| ==> SafeChar(r[i])
  {
    if s == [] then []
    else KeepSafe(s[..|s| - 1]) + (if SafeChar(s[|s| - 1]) then [s[|s| - 1]] else [])
  }

  /** A single character is kept exactly when it is safe. */
  lemma KeepSafeChar(c: char)
    ensures KeepSafe([c]) == (if SafeChar(c) then [c] else [])
  {
    assert [c][..0] == [];
  }

  /** Filtering distributes over concatenation, so every kept character of the input survives, in order. */
  lemma {:induction false} KeepSafeAppend(a: string, b: string)
    ensures KeepSafe(a + b) == KeepSafe(a) + KeepSafe(b)
    decreases |b|
  {
    if b == [] {
      assert a + b == a;
    } else {
      var init, last := b[..|b| - 1], b[|b| - 1];
      assert (a + b)[..|a + b| - 1] == a + init && (a + b)[|a + b| - 1] == last;
      KeepSafeAppend(a, init);
    }
  }

  lemma {:induction false} KeepSafeKeepsSafe(s: string)
    requires forall i :: 0 <= i < |s| ==> SafeChar(s[i])
    ensures KeepSafe(s) == s
  {
    if s != [] {
      KeepSafeKeepsSafe(s[..|s| - 1]);
    }
  }

  lemma WithPdfKeepsSafe(s: string)
    requires forall i :: 0 <= i < |s| ==> SafeChar(s[i])
    ensures forall i :: 0 <= i < |WithPdf(s)| ==> SafeChar(WithPdf(s)[i])
  {
    var r := WithPdf(s);
    if r != s {
      forall i | |s| <= i < |r| ensures SafeChar(r[i]) {
        assert r[i] == ".pdf"[i - |s|];
      }
    }
  }

  /** The filename cleaning in `main`: unsafe characters dropped, `.pdf` appended unless present. */
  function Sanitize(filename: string): (r: string)
    ensures EndsWith(r, ".pdf")
    ensures forall i :: 0 <= i < |r| ==> SafeChar(r[i])
  {
    WithPdfKeepsSafe(KeepSafe(filename));
    WithPdf(KeepSafe(filename))
  }

  /** Cleaning a clean name changes nothing. */
  lemma SanitizeIdempotent(filename: string)
    ensures Sanitize(Sanitize(filename)) == Sanitize(filename)
  {
    KeepSafeKeepsSafe(Sanitize(filename));
  }

  const BaseDir: string := "diarios_ceara"

  /** The links of a date: the shortcut page's when it loaded, else what the browser fallback found. */
  function DateLinks(date: string, fetches: map<string, Fetch>, heads: map<string, string>, browser: map<string, seq<Link>>): seq<Link> {
    var (worked, links) := ShortcutOutcome(if date in fetches then fetches[date] else FetchFailed, heads);
    if worked then links else if date in browser then browser[date] else []
  }

  /** The links found for each date, in order. */
  function FoundLinks(dates: seq<string>, fetches: map<string, Fetch>, heads: map<string, string>, browser: map<string, seq<Link>>): (r: seq<seq<Link>>)
    ensures |r| == |dates|
  {
    if dates == [] then []
    else FoundLinks(dates[..|dates| - 1], fetches, heads, browser) + [DateLinks(dates[|dates| - 1], fetches, heads, browser)]
  }

  lemma {:induction false} FoundLinksAt(dates: seq<string>, fetches: map<string, Fetch>, heads: map<string, string>, browser: map<string, seq<Link>>, k: nat)
    requires k < |dates|
    ensures FoundLinks(dates, fetches, heads, browser)[k] == DateLinks(dates[k], fetches, heads, browser)
  {
    if k < |dates| - 1 {
      FoundLinksAt(dates[..|dates| - 1], fetches, heads, browser, k);
    }
  }

  /** The number of links found over all dates. */
  function LinkCount(found: seq<seq<Link>>): nat {
    if found == [] then 0 else LinkCount(found[..|found| - 1]) + |found[|found| - 1]|
  }

  /** The number of dates without publications. */
  function EmptyCount(found: seq<seq<Link>>): (n: nat)
    ensures n <= |found|
  {
    if found == [] then 0 else EmptyCount(found[..|found| - 1]) + (if found[|found| - 1] == [] then 1 else 0)
  }

  datatype Report = Report(tally: Tally, datesWith: nat, datesWithout: nat)

  /** The path a link is saved under: the base directory, the year, the cleaned name. */
  function SavePath(year: nat, filename: string): string {
    Join(Join(BaseDir, NatToDecimal(year)), Sanitize(filename))
  }

  /** The counters of `main` with the state the downloads thread through. */
  datatype Tally = Tally(downloaded: nat, skipped: nat, failed: nat, fs: FileSystem, replies: seq<Reply>, words: seq<Option<bool>>)

  function Total(t: Tally): nat { t.downloaded + t.skipped + t.failed }

  /** One `download_file` outcome counted, and its state carried on. */
  function Record(t: Tally, d: Download): (r: Tally)
    ensures Total(r) == Total(t) + 1
    ensures r.downloaded >= t.downloaded && r.skipped >= t.skipped && r.failed >= t.failed
    ensures r.fs == d.fs && r.replies == d.replies && r.words == d.words
  {
    match d.status
    case Downloaded => Tally(t.downloaded + 1, t.skipped, t.failed, d.fs, d.replies, d.words)
    case Skipped => Tally(t.downloaded, t.skipped + 1, t.failed, d.fs, d.replies, d.words)
    case Failed => Tally(t.downloaded, t.skipped, t.failed + 1, d.fs, d.replies, d.words)
  }

  /** The downloads of a date's links, in order, each with `download_file`'s default three attempts. */
  function LinksTally(links: seq<Link>, year: nat, t: Tally): Tally
    decreases |links|
  {
    if links == [] then t
    else
      var d := CearaDownload(SavePath(year, links[0].filename), t.fs, t.replies, t.words, 3);
      LinksTally(links[1..], year, Record(t, d))
  }

  /** Every link is counted exactly once: as downloaded, skipped or failed. */
  lemma {:induction false} LinksTallyCounts(links: seq<Link>, year: nat, t: Tally)
    ensures var r := LinksTally(links, year, t);
      Total(r) == Total(t) + |links| &&
      r.downloaded >= t.downloaded && r.skipped >= t.skipped && r.failed >= t.failed
    decreases |links|
  {
    if links != [] {
      var d := CearaDownload(SavePath(year, links[0].filename), t.fs, t.replies, t.words, 3);
      LinksTallyCounts(links[1..], year, Record(t, d));
    }
  }

  /** The loop over one date's links in `main`. */
  method DownloadLinks(links: seq<Link>, year: nat, t0: Tally) returns (t: Tally)
    ensures t == LinksTally(links, year, t0)
  {
    t := t0;
    var i := 0;
    while i < |links|
      invariant 0 <= i <= |links|
      invariant LinksTally(links, year, t0) == LinksTally(links[i..], year, t)
    {
      var d := DownloadFile(SavePath(year, links[i].filename), t.fs, t.replies, t.words, 3);
      assert links[i..][1..] == links[i + 1..];
      t := Record(t, d);
      i := i + 1;
    }
  }

  /** One date of `main`'s loop: its links, found, then downloaded into the date's year. */
  method DateStep(date: string, fetches: map<string, Fetch>, heads: map<string, string>,
                  browser: map<string, seq<Link>>, t0: Tally) returns (links: seq<Link>, t: Tally)
    requires DateString(date)
    ensures links == DateLinks(date, fetches, heads, browser)
    ensures t == LinksTally(links, YearOf(date), t0)
    ensures Total(t) == Total(t0) + |links|
  {
    var worked;
    worked, links := TestShortcutUrl(if date in fetches then fetches[date] else FetchFailed, heads);
    if !worked {
      links := if date in browser then browser[date] else [];
    }
    LinksTallyCounts(links, YearOf(date), t0);
    t := DownloadLinks(links, YearOf(date), t0);
  }

  /** `main`'s loop over the dates: each date's links found, then downloaded. */
  method ProcessDates(dates: seq<string>, fetches: map<string, Fetch>, heads: map<string, string>,
                      browser: map<string, seq<Link>>, t0: Tally) returns (found: seq<seq<Link>>, report: Report)
    requires forall k :: 0 <= k < |dates| ==> DateString(dates[k])
    ensures found == FoundLinks(dates, fetches, heads, browser)
    ensures report.datesWith + report.datesWithout == |dates|
    ensures report.datesWithout == EmptyCount(found)
    ensures Total(report.tally) == Total(t0) + LinkCount(found)
  {
    var with, without := 0, 0;
    var t := t0;
    found := [];
    var i := 0;
    while i < |dates|
      invariant 0 <= i <= |dates| && |found| == i
      invariant found == FoundLinks(dates[..i], fetches, heads, browser)
      invariant with + without == i
      invariant without == EmptyCount(found)
      invariant Total(t) == Total(t0) + LinkCount(found)
    {
      var links;
      links, t := DateStep(dates[i], fetches, heads, browser, t);
      FoundStep(dates, i, fetches, heads, browser);
      CountsStep(found, links);
      found := found + [links];
      if links == [] {
        without := without + 1;
      } else {
        with := with + 1;
      }
      i := i + 1;
    }
    assert dates[..i] == dates;
    report := Report(t, with, without);
  }

  /** One more date: its links are appended. */
  lemma FoundStep(dates: seq<string>, i: nat, fetches: map<string, Fetch>, heads: map<string, string>, browser: map<string, seq<Link>>)
    requires i < |dates|
    ensures FoundLinks(dates[..i + 1], fetches, heads, browser) ==
            FoundLinks(dates[..i], fetches, heads, browser) + [DateLinks(dates[i], fetches, heads, browser)]
  {
    assert dates[..i + 1][..i] == dates[..i];
  }

  /** Appending a date's links: the counts grow by what they hold. */
  lemma CountsStep(found: seq<seq<Link>>, links: seq<Link>)
    ensures EmptyCount(found + [links]) == EmptyCount(found) + (if links == [] then 1 else 0)
    ensures LinkCount(found + [links]) == LinkCount(found) + |links|
  {
    assert (found + [links])[..|found|] == found;
  }

  /**
   * `main` after the user's choice: the dates, each date's links, and every
   * link downloaded into the year's directory.  Every date counts as with or
   * without publications, and every link as downloaded, skipped or failed.
   */
  method CearaMain(mode: string, value: int, today: Date, fetches: map<string, Fetch>, heads: map<string, string>,
                   browser: map<string, seq<Link>>, fs: FileSystem, replies: seq<Reply>, answers: seq<string>)
    returns (dates: seq<string>, found: seq<seq<Link>>, report: Report)
    requires GenerateDatesDomain(mode, value, today)
    ensures |dates| == DateCount(mode, value, today)
    ensures mode == "days" ==> DaysModeDates(dates, today)
    ensures mode == "year" ==> YearModeDates(dates, Date(value, 1, 1))
    ensures found == FoundLinks(dates, fetches, heads, browser)
    ensures report.datesWith + report.datesWithout == |dates|
    ensures report.datesWithout == EmptyCount(found)
    ensures Total(report.tally) == LinkCount(found)
  {
    dates := GenerateDates(mode, value, today);
    found, report := ProcessDates(dates, fetches, heads, browser, Tally(0, 0, 0, fs, replies, Words(answers)));
  }
}
