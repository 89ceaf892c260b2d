/** The per-link bookkeeping of AdvancedRASDownloader: building the records
    (extract_links_from_text), downloading one record while updating its
    status, progress, size and downloaded fields in place
    (download_file_with_progress), and downloading a batch
    (batch_download). The file system and the HTTP server appear only as a
    `Fetch` value that says what they do. */
module Downloader {
  import opened Text
  import opened Links

  datatype Status = Pending | Downloading | Completed | Failed

  /** The fields of a link record at one moment. */
  datatype LinkState = LinkState(info: LinkInfo, status: Status, progress: real, size: int, downloaded: int)

  /** A record as extract_links_from_text creates it. */
  function NewRecord(info: LinkInfo): LinkState {
    LinkState(info, Pending, 0.0, 0, 0)
  }

  /** Where a download raises: nowhere; in the request itself (connection
      error, error status, unparsable content-length); or once `count`
      chunks of the body have been read (a broken stream, or, when `count`
      is at least the number of chunks, a failure after the loop). */
  datatype Failure = Succeeds | FailsBeforeBody | FailsAfterChunks(count: nat)

  /** What the outside world does during one download: whether the file is
      already on disk, the content-length the server announces (0 when
      absent), the lengths of the chunks it streams, and where it fails. */
  datatype Fetch = Fetch(onDisk: bool, contentLength: int, chunks: seq<nat>, failure: Failure)

  /** The dictionary the download returns, without its message text. */
  datatype DownloadResult = Fetched(filename: string) | AlreadyPresent(filename: string) | Error {
    predicate Success() {
      !Error?
    }
  }

  /** The record after a download together with what the download returned. */
  datatype Attempt = Attempt(state: LinkState, result: DownloadResult)

  /** The percentage shown for `downloaded` bytes of `total`,
      (downloaded / total) * 100; 50 when the server announced no positive
      length. It is never negative, is 0 only before any byte, and while no
      more bytes than announced have arrived it stays at most 100 and
      reaches 100 exactly at the announced length. */
  function Percent(downloaded: nat, total: int): (p: real)
    ensures total <= 0 ==> p == 50.0
    ensures total > 0 ==> 0.0 <= p && (p == 0.0 <==> downloaded == 0)
    ensures total > 0 && downloaded <= total ==> p <= 100.0 && (p == 100.0 <==> downloaded == total)
  {
    if total > 0 then
      QuotientBounds(downloaded, total);
      (downloaded as real) / (total as real) * 100.0
    else 50.0
  }

  /** A product with a positive whole number keeps the sign of the other
      factor. */
  lemma {:induction false} ProductSign(x: real, n: nat)
    ensures x > 0.0 && n > 0 ==> x * (n as real) > 0.0
  {
    if n > 1 {
      ProductSign(x, n - 1);
      assert x * (n as real) == x * ((n - 1) as real) + x;
    }
  }

  /** The share of `c` in `t` is never negative and is 0 only when `c` is;
      when `c` is at most `t` it is at most 1 and reaches 1 only when `c`
      is `t`. */
  lemma QuotientBounds(c: nat, t: nat)
    requires t > 0
    ensures var q := (c as real) / (t as real);
      && 0.0 <= q && (q == 0.0 <==> c == 0)
      && (c <= t ==> q <= 1.0 && (q == 1.0 <==> c == t))
  {
    var q := (c as real) / (t as real);
    var r := t as real;
    assert q * r == c as real;
    ProductSign(q, t);
    ProductSign(-q, t);
    ProductSign(q - 1.0, t);
    ProductSign(1.0 - q, t);
    assert (-q) * r == -(c as real);
    assert (q - 1.0) * r == (c as real) - r;
    assert (1.0 - q) * r == r - (c as real);
    assert q < 0.0 ==> c < 0;
    assert q > 0.0 ==> c > 0;
    assert q > 1.0 ==> c > t;
    assert q < 1.0 ==> c < t;
  }

  function Sum(chunks: seq<nat>): nat {
    if chunks == [] then 0 else Sum(chunks[..|chunks| - 1]) + chunks[|chunks| - 1]
  }

  /** The record after the chunk loop has read `chunks` of a body whose
      announced length is `total`: each non-empty chunk sets `downloaded`
      to the bytes read so far and `progress` to the matching percentage;
      empty chunks change nothing. */
  function Received(s: LinkState, total: int, chunks: seq<nat>): (r: LinkState)
    ensures r.info == s.info && r.status == s.status && r.size == s.size
  {
    if chunks == [] then s
    else
      var p := Received(s, total, chunks[..|chunks| - 1]);
      if chunks[|chunks| - 1] == 0 then p
      else p.(downloaded := Sum(chunks), progress := Percent(Sum(chunks), total))
  }

  /** After the loop, `downloaded` holds the total length of the chunks read
      and `progress` the percentage of it; both stay as they were when every
      chunk was empty. */
  lemma {:induction false} ReceivedTotals(s: LinkState, total: int, chunks: seq<nat>)
    ensures Received(s, total, chunks).downloaded == if Sum(chunks) > 0 then Sum(chunks) else s.downloaded
    ensures Received(s, total, chunks).progress == if Sum(chunks) > 0 then Percent(Sum(chunks), total) else s.progress
  {
    if chunks != [] {
      ReceivedTotals(s, total, chunks[..|chunks| - 1]);
    }
  }

  lemma {:induction false} SumPrefix(chunks: seq<nat>, i: nat, j: nat)
    requires i <= j <= |chunks|
    ensures Sum(chunks[..i]) <= Sum(chunks[..j])
    decreases j - i
  {
    if i < j {
      SumPrefix(chunks, i, j - 1);
      assert chunks[..j][..j - 1] == chunks[..j - 1];
    }
  }

  /** On a fresh record the downloaded count never goes down while the
      loop runs. */
  lemma DownloadedMonotone(s: LinkState, total: int, chunks: seq<nat>, i: nat, j: nat)
    requires s.downloaded == 0
    requires i <= j <= |chunks|
    ensures Received(s, total, chunks[..i]).downloaded <= Received(s, total, chunks[..j]).downloaded
  {
    ReceivedTotals(s, total, chunks[..i]);
    ReceivedTotals(s, total, chunks[..j]);
    SumPrefix(chunks, i, j);
  }

  /** Without a positive content-length the progress is pinned at 50 once
      a byte has arrived; with one, reading exactly that many bytes shows
      100. */
  lemma ProgressWhileReceiving(s: LinkState, total: int, chunks: seq<nat>)
    requires Sum(chunks) > 0
    ensures total <= 0 ==> Received(s, total, chunks).progress == 50.0
    ensures total > 0 && Sum(chunks) == total ==> Received(s, total, chunks).progress == 100.0
  {
    ReceivedTotals(s, total, chunks);
  }

  /** download_file_with_progress, called without a progress callback (its
      default), as a function of the record before it and of what the
      outside world does. */
  function Outcome(s: LinkState, f: Fetch): (a: Attempt)
    ensures a.state.info == s.info
    ensures a.state.status == Completed || a.state.status == Failed
    ensures a.result.Success() <==> a.state.status == Completed
    ensures a.state.status == Completed ==> a.state.progress == 100.0
    ensures a.state.status == Failed ==> a.state.progress == 0.0
    ensures a.result.Success() ==> a.result.filename == s.info.filename
  {
    var start := s.(status := Downloading);
    if f.onDisk then
      Attempt(start.(status := Completed, progress := 100.0), AlreadyPresent(s.info.filename))
    else
      match f.failure
      case FailsBeforeBody =>
        Attempt(start.(status := Failed, progress := 0.0), Error)
      case FailsAfterChunks(k) =>
        var read := if k < |f.chunks| then f.chunks[..k] else f.chunks;
        var r := Received(start.(size := f.contentLength), f.contentLength, read);
        Attempt(r.(status := Failed, progress := 0.0), Error)
      case Succeeds =>
        var r := Received(start.(size := f.contentLength), f.contentLength, f.chunks);
        Attempt(r.(status := Completed, progress := 100.0), Fetched(s.info.filename))
  }

  /** The three ways a download ends. A file already on disk is reported
      without fetching and keeps the size and count it had; a download that
      raises leaves the record failed at 0%; a download that runs to the
      end records the announced size and the bytes read. */
  lemma OutcomeCases(s: LinkState, f: Fetch)
    ensures f.onDisk ==> Outcome(s, f) == Attempt(s.(status := Completed, progress := 100.0), AlreadyPresent(s.info.filename))
    ensures !f.onDisk && !f.failure.Succeeds? ==> Outcome(s, f).result == Error
    ensures !f.onDisk && f.failure.FailsBeforeBody? ==> Outcome(s, f).state == s.(status := Failed, progress := 0.0)
    ensures !f.onDisk && f.failure.Succeeds? ==>
      && Outcome(s, f).result == Fetched(s.info.filename)
      && Outcome(s, f).state.size == f.contentLength
      && Outcome(s, f).state.downloaded == if Sum(f.chunks) > 0 then Sum(f.chunks) else s.downloaded
  {
    var start := s.(status := Downloading, size := f.contentLength);
    ReceivedTotals(start, f.contentLength, f.chunks);
  }

  /** Whether the chunk loop calls the progress callback once chunk `i`
      is written: the chunk is not empty and brings the byte count to a
      multiple of 81920. */
  predicate CallbackAfter(chunks: seq<nat>, i: nat)
    requires i < |chunks|
  {
    chunks[i] > 0 && Sum(chunks[..i + 1]) % 81920 == 0
  }

  /** How many chunks the loop reads, from chunk `i` on, up to and including
      the first one after which it calls the callback; all of them when it
      never does. */
  function ReadUntilCallback(chunks: seq<nat>, i: nat): (n: nat)
    requires i <= |chunks|
    ensures i <= n <= |chunks|
    ensures forall j :: i <= j && j + 1 < n ==> !CallbackAfter(chunks, j)
    ensures n < |chunks| ==> i < n && CallbackAfter(chunks, n - 1)
    decreases |chunks| - i
  {
    if i == |chunks| then i
    else if CallbackAfter(chunks, i) then i + 1
    else ReadUntilCallback(chunks, i + 1)
  }

  /** download_file_with_progress with the callback start_batch_download
      passes it. That callback calls asyncio.create_task from a worker thread
      of batch_download, where no event loop is running, so every call
      raises. The first call (file already on disk, a chunk that brings the
      count to a multiple of 81920, or the end of the body) sends the
      download to the except handler, unless the download raised first; the
      handler marks the record failed at 0% and calls the callback again,
      which raises out of the function, and batch_download records a
      failure. */
  function OutcomeWithRaisingCallback(s: LinkState, f: Fetch): (a: Attempt)
    ensures a.state.info == s.info
    ensures a.state.status == Failed && a.state.progress == 0.0
    ensures a.result == Error
  {
    var start := s.(status := Downloading);
    if f.onDisk || f.failure.FailsBeforeBody? then
      Attempt(start.(status := Failed, progress := 0.0), Error)
    else
      var stop := if f.failure.FailsAfterChunks? && f.failure.count < |f.chunks| then f.failure.count else |f.chunks|;
      var n := ReadUntilCallback(f.chunks, 0);
      var read := f.chunks[..if n < stop then n else stop];
      var r := Received(start.(size := f.contentLength), f.contentLength, read);
      Attempt(r.(status := Failed, progress := 0.0), Error)
  }

  /** The raising callback turns every download that would succeed into a
      failure: a file already on disk, and a body read to the end. */
  lemma RaisingCallbackFails(s: LinkState, f: Fetch)
    ensures f.onDisk ==> Outcome(s, f).result == AlreadyPresent(s.info.filename) && OutcomeWithRaisingCallback(s, f).result == Error
    ensures !f.onDisk && f.failure.Succeeds? ==>
      && Outcome(s, f).state.status == Completed
      && OutcomeWithRaisingCallback(s, f).state.status == Failed
  {
    OutcomeCases(s, f);
  }

  /** A concrete case: a PDF already on disk is reported present without
      the callback and failed with the bot's own callback. */
  lemma PresentFileFailsUnderRaisingCallback()
    ensures var s := NewRecord(LinkInfo(1, "Maths", "Notes", "https://example.org/notes.pdf", "001_Maths_Notes.pdf", Pdf));
      var f := Fetch(true, 0, [], Succeeds);
      && Outcome(s, f).state.status == Completed
      && Outcome(s, f).result.Success()
      && OutcomeWithRaisingCallback(s, f).state.status == Failed
      && !OutcomeWithRaisingCallback(s, f).result.Success()
  {
  }

  predicate Distinct(links: seq<Link>) {
    forall i, j :: 0 <= i < j < |links| ==> links[i] != links[j]
  }

  /** The fields of each record of `links`, in order. */
  function States(links: seq<Link>): (r: seq<LinkState>)
    reads links
    ensures |r| == |links|
    ensures forall k :: 0 <= k < |links| ==> r[k] == links[k].State()
  {
    if links == [] then []
    else States(links[..|links| - 1]) + [links[|links| - 1].State()]
  }

  /** One link record, a dictionary the download updates in place while the
      bot reads it to report progress. */
  class Link {
    const info: LinkInfo
    var status: Status
    var progress: real
    var size: int
    var downloaded: int

    function State(): LinkState
      reads this
    {
      LinkState(info, status, progress, size, downloaded)
    }

    constructor (info: LinkInfo)
      ensures State() == NewRecord(info)
    {
      this.info := info;
      status := Pending;
      progress := 0.0;
      size := 0;
      downloaded := 0;
    }

    /** download_file_with_progress: marks the record as downloading, then
        either finds the file on disk or reads the body chunk by chunk, and
        leaves the record completed or failed. */
    method Download(f: Fetch) returns (res: DownloadResult)
      modifies this
      ensures Attempt(State(), res) == Outcome(old(State()), f)
    {
      status := Downloading;
      if f.onDisk {
        status := Completed;
        progress := 100.0;
        return AlreadyPresent(info.filename);
      }
      if f.failure.FailsBeforeBody? {
        status := Failed;
        progress := 0.0;
        return Error;
      }
      var total := f.contentLength;
      size := total;
      var stop := if f.failure.FailsAfterChunks? && f.failure.count < |f.chunks| then f.failure.count else |f.chunks|;
      ghost var before := State();
      var downloadedSize := 0;
      var i := 0;
      while i < stop
        invariant 0 <= i <= stop <= |f.chunks|
        invariant downloadedSize == Sum(f.chunks[..i])
        invariant State() == Received(before, total, f.chunks[..i])
      {
        var n := f.chunks[i];
        assert f.chunks[..i + 1][..i] == f.chunks[..i];
        if n > 0 {
          downloadedSize := downloadedSize + n;
          downloaded := downloadedSize;
          progress := Percent(downloadedSize, total);
        }
        i := i + 1;
      }
      assert stop == |f.chunks| ==> f.chunks[..stop] == f.chunks;
      if stop < |f.chunks| {
        status := Failed;
        progress := 0.0;
        return Error;
      }
      status := Completed;
      progress := 100.0;
      if f.failure.FailsAfterChunks? {
        status := Failed;
        progress := 0.0;
        return Error;
      }
      res := Fetched(info.filename);
    }
  }

  /** The records extract_links_from_text returns for `matches`, in order:
      the k-th is built from the k-th match, numbered k + 1, keeps that
      match's stripped groups and takes its type from the stripped URL. */
  function Records(matches: seq<Match>, isWord: char -> bool): (r: seq<LinkInfo>)
    ensures |r| == |matches|
    ensures forall k :: 0 <= k < |r| ==> r[k].id == k + 1
    ensures forall k :: 0 <= k < |r| ==>
      && r[k].subject == Strip(matches[k].subject)
      && r[k].description == Strip(matches[k].description)
      && r[k].url == Strip(matches[k].url)
      && r[k].ftype == Classify(r[k].url)
  {
    seq(|matches|, k requires 0 <= k < |matches| => RecordFor(k, matches[k], isWord))
  }

  /** One fresh pending record per entry of `infos`, in order. */
  method NewLinks(infos: seq<LinkInfo>) returns (links: seq<Link>)
    ensures |links| == |infos|
    ensures forall k :: 0 <= k < |links| ==> fresh(links[k]) && links[k].State() == NewRecord(infos[k])
    ensures Distinct(links)
  {
    links := [];
    for i := 0 to |infos|
      invariant |links| == i
      invariant forall k :: 0 <= k < i ==> fresh(links[k]) && links[k].State() == NewRecord(infos[k])
      invariant Distinct(links)
    {
      var link := new Link(infos[i]);
      links := links + [link];
    }
  }

  /** extract_links_from_text once the matches are known: one fresh pending
      record per match, in match order. */
  method ExtractLinks(matches: seq<Match>, isWord: char -> bool) returns (links: seq<Link>)
    ensures |links| == |matches|
    ensures forall k :: 0 <= k < |links| ==> fresh(links[k]) && links[k].State() == NewRecord(Records(matches, isWord)[k])
    ensures Distinct(links)
  {
    links := NewLinks(Records(matches, isWord));
  }

  /** batch_download, run one link after the other: the k-th result belongs
      to the k-th link, and each link ends as its own download left it. */
  method BatchDownload(links: seq<Link>, env: LinkInfo -> Fetch) returns (results: seq<DownloadResult>)
    requires Distinct(links)
    modifies links
    ensures |results| == |links|
    ensures forall k :: 0 <= k < |links| ==>
      Attempt(links[k].State(), results[k]) == Outcome(old(links[k].State()), env(links[k].info))
  {
    results := [];
    for i := 0 to |links|
      invariant |results| == i
      invariant forall k :: 0 <= k < i ==>
        Attempt(links[k].State(), results[k]) == Outcome(old(links[k].State()), env(links[k].info))
      invariant forall k :: i <= k < |links| ==> links[k].State() == old(links[k].State())
    {
      var r := links[i].Download(env(links[i].info));
      results := results + [r];
    }
  }
}
