/**
 * `download_file` of the TSE downloader and the retry loop `main` wraps
 * around it.  A file that already exists is resumed: the request carries
 * `Range: bytes=K-` (section 3.1 of RFC 7233) for its size K and the body
 * is appended; a `416 Range Not Satisfiable` reply (section 4.4 of RFC
 * 7233) is answered with a fresh request without `Range`, whose body
 * replaces the file.  Any exception is a failed attempt; a stream that
 * breaks leaves what was written so far on disk.
 */
module TseDownload {
  import opened Wrappers
  import opened Text
  import opened Transfer

  /** A request sent: the offset of its `Range: bytes=K-` header, when it has one. */
  datatype Request = Request(rangeFrom: Option<nat>)

  /**
   * The outcome of `download_file`: whether it returned success, the disk,
   * the replies left, the requests sent, and `total_size` once computed.
   */
  datatype Fetched = Fetched(ok: bool, fs: FileSystem, replies: seq<Reply>, requests: seq<Request>, totalSize: Option<int>)

  /** The `Range` offset of the first request: the size of the file when it exists. */
  function ResumeFrom(path: string, fs: FileSystem): Option<nat> {
    if path in fs then Some(|fs[path]|) else None
  }

  /**
   * From `raise_for_status` on: the reply `reply` to the last request, sent
   * with (`resumed`) or without a `Range` header.
   */
  function Receive(path: string, fs: FileSystem, reply: Reply, resumed: bool, rest: seq<Reply>, requests: seq<Request>): (f: Fetched)
    requires resumed ==> path in fs
    ensures f.requests == requests && f.replies == rest
  {
    if reply.Unreachable? || ErrorStatus(reply.status) then Fetched(false, fs, rest, requests, None)
    else match HeaderInt(reply.contentLength)
      case None => Fetched(false, fs, rest, requests, None)
      case Some(cl) =>
        var before := if resumed then fs[path] else [];
        Fetched(!reply.broken, fs[path := before + Concat(reply.chunks)], rest, requests,
                Some(if resumed then cl + |fs[path]| else cl))
  }

  function TseDownloadFile(path: string, fs: FileSystem, replies: seq<Reply>): Fetched {
    var first := NextReply(replies);
    var rest := RestReplies(replies);
    var asked := [Request(ResumeFrom(path, fs))];
    if first.Unreachable? then Fetched(false, fs, rest, asked, None)
    else if first.status == 416 then
      Receive(path, fs, NextReply(rest), false, RestReplies(rest), asked + [Request(None)])
    else Receive(path, fs, first, path in fs, rest, asked)
  }

  /** An existing file of size K is asked for from byte K on; a new one from the start. */
  lemma ResumeSendsRange(path: string, fs: FileSystem, replies: seq<Reply>)
    ensures var f := TseDownloadFile(path, fs, replies);
      |f.requests| >= 1 &&
      f.requests[0] == Request(if path in fs then Some(|fs[path]|) else None)
  {
  }

  /**
   * On `416` the second request has no `Range` and its body, when it
   * arrives whole, is the whole file: nothing of the old contents remains.
   */
  lemma On416Truncates(path: string, fs: FileSystem, replies: seq<Reply>)
    requires |replies| >= 2 && replies[0].Response? && replies[0].status == 416
    requires replies[1].Response? && !ErrorStatus(replies[1].status) && HeaderInt(replies[1].contentLength).Some?
    ensures var f := TseDownloadFile(path, fs, replies);
      f.requests == [Request(ResumeFrom(path, fs)), Request(None)] &&
      f.ok == !replies[1].broken && path in f.fs && f.fs[path] == Concat(replies[1].chunks) &&
      f.totalSize == HeaderInt(replies[1].contentLength)
  {
  }

  /**
   * Any other accepted reply to a resumed request is appended to what the
   * file held, and the size shown is the header's plus the old size.
   */
  lemma ResumeAppends(path: string, fs: FileSystem, replies: seq<Reply>)
    requires path in fs && |replies| >= 1 && replies[0].Response?
    requires replies[0].status != 416 && !ErrorStatus(replies[0].status)
    requires HeaderInt(replies[0].contentLength).Some?
    ensures var f := TseDownloadFile(path, fs, replies);
      path in f.fs && f.fs[path] == fs[path] + Concat(replies[0].chunks) &&
      f.totalSize == Some(HeaderInt(replies[0].contentLength).value + |fs[path]|)
  {
  }

  /**
   * A server that ignores `Range` and sends the whole body with `200`
   * leaves the file holding the old bytes followed by the whole body.
   */
  lemma IgnoredRangeDuplicates(path: string, fs: FileSystem, body: seq<Bytes>, cl: Option<string>, rest: seq<Reply>)
    requires path in fs && fs[path] != [] && HeaderInt(cl).Some?
    ensures var f := TseDownloadFile(path, fs, [Response(200, cl, None, body, false)] + rest);
      f.ok && f.fs[path] == fs[path] + Concat(body) && |f.fs[path]| > |Concat(body)|
  {
    assert ([Response(200, cl, None, body, false)] + rest)[0] == Response(200, cl, None, body, false);
  }

  /**
   * Only the file at `path` may change; a failure before the file is
   * opened leaves the disk as it was.
   */
  lemma DownloadFrame(path: string, fs: FileSystem, replies: seq<Reply>)
    ensures var f := TseDownloadFile(path, fs, replies);
      (forall q :: q != path ==> (q in f.fs <==> q in fs) && (q in fs ==> f.fs[q] == fs[q])) &&
      (f.totalSize.None? ==> f.fs == fs && !f.ok) &&
      1 <= |f.requests| <= 2
  {
  }

  /** `download_file`: the request, the `416` retry, the mode choice and the chunk loop. */
  method DownloadFile(path: string, fs: FileSystem, replies: seq<Reply>) returns (f: Fetched)
    ensures f == TseDownloadFile(path, fs, replies)
  {
    var resume := ResumeFrom(path, fs);
    var requests := [Request(resume)];
    var reply := NextReply(replies);
    var rest := RestReplies(replies);
    if reply.Unreachable? {
      return Fetched(false, fs, rest, requests, None);
    }
    var resumed := resume.Some?;
    if reply.status == 416 {
      resumed := false;
      requests := requests + [Request(None)];
      reply := NextReply(rest);
      rest := RestReplies(rest);
    }
    if reply.Unreachable? || ErrorStatus(reply.status) {
      return Fetched(false, fs, rest, requests, None);
    }
    var cl := HeaderInt(reply.contentLength);
    if cl.None? {
      return Fetched(false, fs, rest, requests, None);
    }
    var totalSize := cl.value;
    var initial: Bytes := [];
    if resumed {
      totalSize := totalSize + |fs[path]|;
      initial := fs[path];
    }
    var content := WriteChunks(initial, reply.chunks);
    return Fetched(!reply.broken, fs[path := content], rest, requests, Some(totalSize));
  }

  // ---------------------------------------------------------------- the retry loop in main

  const MaxRetries: nat := 3

  function Pow2(n: nat): (r: nat)
    ensures r >= 1
  {
    if n == 0 then 1 else 2 * Pow2(n - 1)
  }

  /** The retries of one resource: the outcome, the disk, the replies left, the pauses taken and the attempts made. */
  datatype Retried = Retried(ok: bool, fs: FileSystem, replies: seq<Reply>, sleeps: seq<nat>, attempts: nat)

  /** Attempts `attempt` to `MaxRetries`, each after a pause of `2**attempt` seconds except the first. */
  function RetryFrom(path: string, fs: FileSystem, replies: seq<Reply>, attempt: nat): Retried
    requires 1 <= attempt <= MaxRetries
    decreases MaxRetries - attempt
  {
    var pause := if attempt > 1 then [Pow2(attempt)] else [];
    var f := TseDownloadFile(path, fs, replies);
    if f.ok then Retried(true, f.fs, f.replies, pause, attempt)
    else if attempt == MaxRetries then Retried(false, f.fs, f.replies, pause, attempt)
    else
      var r := RetryFrom(path, f.fs, f.replies, attempt + 1);
      r.(sleeps := pause + r.sleeps)
  }

  function Retry(path: string, fs: FileSystem, replies: seq<Reply>): Retried {
    RetryFrom(path, fs, replies, 1)
  }

  /**
   * At most three attempts, with pauses of 4 and then 8 seconds before the
   * second and third; failure only once the third attempt has failed.
   */
  lemma RetryShape(path: string, fs: FileSystem, replies: seq<Reply>)
    ensures var r := Retry(path, fs, replies);
      1 <= r.attempts <= MaxRetries && r.sleeps == [4, 8][..r.attempts - 1] &&
      (!r.ok ==> r.attempts == MaxRetries)
  {
    var f := TseDownloadFile(path, fs, replies);
    if !f.ok {
      SecondAttempt(path, f.fs, f.replies);
    }
  }

  /** From the second attempt on: a pause of 4 seconds, then possibly the third attempt. */
  lemma SecondAttempt(path: string, fs: FileSystem, replies: seq<Reply>)
    ensures var r := RetryFrom(path, fs, replies, 2);
      2 <= r.attempts <= MaxRetries && r.sleeps == [4, 8][..r.attempts - 1] &&
      (!r.ok ==> r.attempts == MaxRetries)
  {
    var f := TseDownloadFile(path, fs, replies);
    assert Pow2(2) == 4;
    if !f.ok {
      LastAttempt(path, f.fs, f.replies);
    }
  }

  /** The third attempt comes after a pause of 8 seconds and is the last. */
  lemma LastAttempt(path: string, fs: FileSystem, replies: seq<Reply>)
    ensures var r := RetryFrom(path, fs, replies, 3);
      r.attempts == MaxRetries && r.sleeps == [8]
  {
    assert Pow2(3) == 8;
  }

  /** A later attempt resumes from what an earlier broken one left on disk. */
  lemma RetryResumes(path: string, fs: FileSystem, replies: seq<Reply>)
    requires |replies| >= 1 && replies[0].Response? && replies[0].status != 416 && !ErrorStatus(replies[0].status)
    requires HeaderInt(replies[0].contentLength).Some? && replies[0].broken
    ensures var f1 := TseDownloadFile(path, fs, replies);
      !f1.ok && path in f1.fs &&
      TseDownloadFile(path, f1.fs, f1.replies).requests[0] == Request(Some(|f1.fs[path]|))
  {
  }

  /** The retries from `attempt` on, after the pauses `sleeps` already taken. */
  function After(sleeps: seq<nat>, r: Retried): Retried {
    r.(sleeps := sleeps + r.sleeps)
  }

  /** One pass of the retry loop: stop on success or after the last attempt, else go on with the next. */
  lemma RetryStep(path: string, disk: FileSystem, rs: seq<Reply>, attempt: nat, sleeps: seq<nat>, f: Fetched)
    requires 1 <= attempt <= MaxRetries && f == TseDownloadFile(path, disk, rs)
    ensures var pause := if attempt > 1 then [Pow2(attempt)] else [];
      && (f.ok ==> After(sleeps, RetryFrom(path, disk, rs, attempt)) == Retried(true, f.fs, f.replies, sleeps + pause, attempt))
      && (!f.ok && attempt == MaxRetries ==>
            After(sleeps, RetryFrom(path, disk, rs, attempt)) == Retried(false, f.fs, f.replies, sleeps + pause, attempt))
      && (!f.ok && attempt < MaxRetries ==>
            After(sleeps, RetryFrom(path, disk, rs, attempt)) == After(sleeps + pause, RetryFrom(path, f.fs, f.replies, attempt + 1)))
  {
    var pause := if attempt > 1 then [Pow2(attempt)] else [];
    if !f.ok && attempt < MaxRetries {
      var next := RetryFrom(path, f.fs, f.replies, attempt + 1);
      assert sleeps + (pause + next.sleeps) == (sleeps + pause) + next.sleeps;
    }
  }

  /** One pass of the retry loop: the attempt, then either the result or the state for the next pass. */
  method RetryPass(path: string, disk: FileSystem, rs: seq<Reply>, attempt: nat, sleeps: seq<nat>)
    returns (done: bool, r: Retried, disk': FileSystem, rs': seq<Reply>, sleeps': seq<nat>)
    requires 1 <= attempt <= MaxRetries
    ensures done ==> r == After(sleeps, RetryFrom(path, disk, rs, attempt))
    ensures !done ==> attempt < MaxRetries
    ensures !done ==> After(sleeps, RetryFrom(path, disk, rs, attempt)) == After(sleeps', RetryFrom(path, disk', rs', attempt + 1))
  {
    var pause := if attempt > 1 then [Pow2(attempt)] else [];
    var f := DownloadFile(path, disk, rs);
    RetryStep(path, disk, rs, attempt, sleeps, f);
    done, disk', rs', sleeps' := f.ok || attempt == MaxRetries, f.fs, f.replies, sleeps + pause;
    r := Retried(f.ok, f.fs, f.replies, sleeps + pause, attempt);
  }

  /** The `for attempt in range(1, max_retries + 1)` loop, its backoff recorded rather than slept. */
  method RetryDownload(path: string, fs: FileSystem, replies: seq<Reply>) returns (r: Retried)
    ensures r == Retry(path, fs, replies)
  {
    var disk, rs, sleeps := fs, replies, [];
    var attempt := 1;
    assert sleeps + Retry(path, fs, replies).sleeps == Retry(path, fs, replies).sleeps;
    while true
      invariant 1 <= attempt <= MaxRetries
      invariant Retry(path, fs, replies) == After(sleeps, RetryFrom(path, disk, rs, attempt))
      decreases MaxRetries - attempt
    {
      var done;
      done, r, disk, rs, sleeps := RetryPass(path, disk, rs, attempt, sleeps);
      if done {
        return;
      }
      attempt := attempt + 1;
    }
  }
}
