/** AdvancedFileDownloaderBot's bookkeeping: the map from user to the
    records the user's last message produced (handle_text), the buttons
    that pick which of them to download or cancel (button_handler), the
    batch that follows (start_batch_download), the files sent back
    (send_downloaded_files) and the /status report (status_command). */
module Session {
  import opened Text
  import opened Links
  import opened Downloader
  import opened Tallies

  /** Whether the button with callback data `data` keeps a record of type
      `t`: the PDF button keeps PDFs, the video button MP4s, and any other
      data keeps everything. */
  predicate Wanted(t: FileType, data: string) {
    if data == "download_pdf" then t == Pdf
    else if data == "download_video" then t == Mp4
    else true
  }

  /** The list comprehension of button_handler: the records the button
      keeps, in their original order. */
  function Select(links: seq<Link>, data: string): (r: seq<Link>)
    ensures |r| <= |links|
    ensures forall i :: 0 <= i < |r| ==> r[i] in links && Wanted(r[i].info.ftype, data)
    ensures forall i :: 0 <= i < |links| && Wanted(links[i].info.ftype, data) ==> links[i] in r
  {
    if links == [] then []
    else
      var p := Select(links[..|links| - 1], data);
      var last := links[|links| - 1];
      assert forall i :: 0 <= i < |links| - 1 ==> links[..|links| - 1][i] == links[i];
      if Wanted(last.info.ftype, data) then p + [last] else p
  }

  /** Selecting from two lists one after the other is selecting from each
      and keeping the order. */
  lemma {:induction false} SelectAppend(a: seq<Link>, b: seq<Link>, data: string)
    ensures Select(a + b, data) == Select(a, data) + Select(b, data)
    decreases |b|
  {
    if b == [] {
      assert a + b == a;
    } else {
      var n := |b| - 1;
      assert (a + b)[..|a + b| - 1] == a + b[..n];
      SelectAppend(a, b[..n], data);
    }
  }

  /** The "download all" button (and any data other than the PDF and video
      buttons) keeps the list as it is. */
  lemma {:induction false} SelectAll(links: seq<Link>, data: string)
    requires data != "download_pdf" && data != "download_video"
    ensures Select(links, data) == links
  {
    if links != [] {
      SelectAll(links[..|links| - 1], data);
    }
  }

  /** Selecting never repeats a record. */
  lemma {:induction false} SelectDistinct(links: seq<Link>, data: string)
    requires Distinct(links)
    ensures Distinct(Select(links, data))
  {
    if links != [] {
      var n := |links| - 1;
      SelectDistinct(links[..n], data);
      assert links[n] !in links[..n];
    }
  }

  /** sum(1 for l in links if l['type'] == t). */
  function CountType(links: seq<Link>, t: FileType): (n: nat)
    ensures n <= |links|
  {
    if links == [] then 0
    else CountType(links[..|links| - 1], t) + (if links[|links| - 1].info.ftype == t then 1 else 0)
  }

  /** The PDF and video figures handle_text offers are the numbers of
      records the PDF and video buttons select. */
  lemma {:induction false} SelectCounts(links: seq<Link>)
    ensures |Select(links, "download_pdf")| == CountType(links, Pdf)
    ensures |Select(links, "download_video")| == CountType(links, Mp4)
  {
    if links != [] {
      SelectCounts(links[..|links| - 1]);
    }
  }

  /** A file sent back to the chat: a PDF as a document under its
      filename, an MP4 as a video; both with the subject and description as
      the caption. */
  datatype Delivery = Document(filename: string, caption: string) | Video(caption: string)

  /** f"{icon} {subject}\n{description}": the icon and a space, then the
      subject, a line break and the description. */
  function Caption(icon: char, info: LinkInfo): (r: string)
    ensures |r| == |info.subject| + |info.description| + 3
    ensures r[0] == icon && r[1] == ' ' && r[|info.subject| + 2] == '\n'
    ensures r[2..|info.subject| + 2] == info.subject && r[|info.subject| + 3..] == info.description
  {
    [icon, ' '] + info.subject + "\n" + info.description
  }

  /** What the loop of send_downloaded_files sends for one completed record:
      nothing when its file is not on disk, and nothing for a record of the
      plain `file` type. */
  function Send(s: LinkState, onDisk: string -> bool): (r: seq<Delivery>)
    ensures |r| <= 1
    ensures |r| == 1 <==> onDisk(s.info.filename) && s.info.ftype != File
  {
    if !onDisk(s.info.filename) then []
    else match s.info.ftype
      case Pdf => [Document(s.info.filename, Caption('\U{1F4C4}', s.info))]
      case Mp4 => [Video(Caption('\U{1F3A5}', s.info))]
      case File => []
  }

  /** Everything the loop sends for `states`, in order. */
  function Deliveries(states: seq<LinkState>, onDisk: string -> bool): seq<Delivery> {
    if states == [] then []
    else Deliveries(states[..|states| - 1], onDisk) + Send(states[|states| - 1], onDisk)
  }

  /** The files go out in record order: sending two lists one after the
      other sends the files of each, one after the other. */
  lemma {:induction false} DeliveriesAppend(a: seq<LinkState>, b: seq<LinkState>, onDisk: string -> bool)
    ensures Deliveries(a + b, onDisk) == Deliveries(a, onDisk) + Deliveries(b, onDisk)
    decreases |b|
  {
    if b == [] {
      assert a + b == a;
    } else {
      var n := |b| - 1;
      assert (a + b)[..|a + b| - 1] == a + b[..n];
      DeliveriesAppend(a, b[..n], onDisk);
    }
  }

  /** [l for l in links if l['status'] == 'completed']. */
  function Successful(states: seq<LinkState>): (r: seq<LinkState>)
    ensures |r| == Count(states, Completed)
    ensures forall i :: 0 <= i < |r| ==> r[i].status == Completed
  {
    if states == [] then []
    else
      var p := Successful(states[..|states| - 1]);
      var last := states[|states| - 1];
      if last.status == Completed then p + [last] else p
  }

  /** A single record is kept exactly when it is completed. */
  lemma SuccessfulSingle(s: LinkState)
    ensures Successful([s]) == if s.status == Completed then [s] else []
  {
    assert [s][..0] == [];
  }

  /** The successful list keeps record order: the list for two lists one
      after the other is the list for each, one after the other. */
  lemma {:induction false} SuccessfulAppend(a: seq<LinkState>, b: seq<LinkState>)
    ensures Successful(a + b) == Successful(a) + Successful(b)
    decreases |b|
  {
    if b == [] {
      assert a + b == a;
    } else {
      var n := |b| - 1;
      assert (a + b)[..|a + b| - 1] == a + b[..n];
      SuccessfulAppend(a, b[..n]);
    }
  }

  /** Under the callback start_batch_download passes, every record of the
      batch ends failed, so none is completed and nothing is sent. */
  lemma {:induction false} RaisingCallbackSendsNothing(before: seq<LinkState>, after: seq<LinkState>,
                                                      env: LinkInfo -> Fetch, onDisk: string -> bool)
    requires |before| == |after|
    requires forall k :: 0 <= k < |before| ==> after[k] == OutcomeWithRaisingCallback(before[k], env(before[k].info)).state
    ensures Count(after, Completed) == 0 && Count(after, Failed) == |after|
    ensures Successful(after) == [] && Deliveries(Successful(after), onDisk) == []
  {
    if before != [] {
      var n := |before| - 1;
      RaisingCallbackSendsNothing(before[..n], after[..n], env, onDisk);
    }
  }

  /** Completed records are sent at most once each; when every completed
      file is on disk and is a PDF or an MP4, every one of them is sent. */
  lemma {:induction false} DeliveriesBound(states: seq<LinkState>, onDisk: string -> bool)
    ensures |Deliveries(Successful(states), onDisk)| <= Count(states, Completed)
    ensures (forall k :: 0 <= k < |states| && states[k].status == Completed ==>
               onDisk(states[k].info.filename) && states[k].info.ftype != File)
            ==> |Deliveries(Successful(states), onDisk)| == Count(states, Completed)
  {
    if states != [] {
      var n := |states| - 1;
      DeliveriesBound(states[..n], onDisk);
      var p := Successful(states[..n]);
      if states[n].status == Completed {
        assert Successful(states) == p + [states[n]];
        assert (p + [states[n]])[..|p|] == p;
      }
    }
  }

  /** What a user's session holds; the start time and the status message
      are not modelled. */
  datatype Session = Session(links: seq<Link>)

  /** How handle_text answers a message. */
  datatype TextReply = AskForLinks | NoValidLinks | Offered(total: nat, pdfs: nat, videos: nat)

  /** How button_handler ends. */
  datatype ButtonReply = Expired | Cancelled | NothingSelected | Finished(summary: Summary, sent: seq<Delivery>)

  class Bot {
    var sessions: map<int, Session>

    /** Every session holds a non-empty list of distinct records. */
    ghost predicate Valid()
      reads this
    {
      forall u :: u in sessions ==> sessions[u].links != [] && Distinct(sessions[u].links)
    }

    /** The records of `user`'s session, if there is one. */
    ghost function LinksOf(user: int): seq<Link>
      reads this
    {
      if user in sessions then sessions[user].links else []
    }

    constructor ()
      ensures sessions == map[] && Valid()
    {
      sessions := map[];
    }

    /** handle_text: `matches` are the triples the link pattern finds in
        `text`. A message without "https://" or without a match leaves the
        sessions alone; otherwise the user's session is replaced by fresh
        pending records, one per match. */
    method HandleText(user: int, text: string, matches: seq<Match>, isWord: char -> bool) returns (reply: TextReply)
      requires Valid()
      modifies this
      ensures Valid()
      ensures !Contains(text, "https://") ==> reply == AskForLinks && sessions == old(sessions)
      ensures Contains(text, "https://") && matches == [] ==> reply == NoValidLinks && sessions == old(sessions)
      ensures Contains(text, "https://") && matches != [] ==>
        && user in sessions
        && sessions == old(sessions)[user := sessions[user]]
        && |sessions[user].links| == |matches|
        && (forall k :: 0 <= k < |matches| ==>
              fresh(sessions[user].links[k]) && sessions[user].links[k].State() == NewRecord(Records(matches, isWord)[k]))
        && reply == Offered(|matches|, CountType(sessions[user].links, Pdf), CountType(sessions[user].links, Mp4))
    {
      if !Contains(text, "https://") {
        return AskForLinks;
      }
      var links := ExtractLinks(matches, isWord);
      if links == [] {
        return NoValidLinks;
      }
      sessions := sessions[user := Session(links)];
      reply := Offered(|links|, CountType(links, Pdf), CountType(links, Mp4));
    }

    /** status_command: the report on the user's records, or nothing when
        the user has no session. */
    method Status(user: int) returns (r: Option<StatusView>)
      ensures user in sessions <==> r.Some?
      ensures user in sessions ==> r == Some(StatusReport(States(sessions[user].links)))
    {
      if user in sessions {
        r := Some(StatusReport(States(sessions[user].links)));
      } else {
        r := None;
      }
    }

    /** The loop of send_downloaded_files over the completed records: each
        one whose file is on disk is sent, a PDF as a document and an MP4 as
        a video, in order. */
    method SendEach(successful: seq<LinkState>, onDisk: string -> bool) returns (sent: seq<Delivery>)
      ensures sent == Deliveries(successful, onDisk)
    {
      sent := [];
      for i := 0 to |successful|
        invariant sent == Deliveries(successful[..i], onDisk)
      {
        assert successful[..i + 1][..i] == successful[..i];
        var s := successful[i];
        if onDisk(s.info.filename) {
          if s.info.ftype == Pdf {
            sent := sent + [Document(s.info.filename, Caption('\U{1F4C4}', s.info))];
          } else if s.info.ftype == Mp4 {
            sent := sent + [Video(Caption('\U{1F3A5}', s.info))];
          }
        }
      }
      assert successful[..|successful|] == successful;
    }

    /** send_downloaded_files: sends the completed records whose files are
        on disk, in order, then forgets the user's session. */
    method SendDownloadedFiles(user: int, links: seq<Link>, onDisk: string -> bool) returns (sent: seq<Delivery>)
      modifies this
      ensures sent == Deliveries(Successful(States(links)), onDisk)
      ensures sessions == old(sessions) - {user}
    {
      var successful := Successful(States(links));
      sent := SendEach(successful, onDisk);
      sessions := sessions - {user};
    }

    /** start_batch_download: downloads the selected records one after the
        other, reports how many succeeded and failed, and sends the files. */
    method StartBatchDownload(user: int, links: seq<Link>, env: LinkInfo -> Fetch, onDisk: string -> bool)
      returns (summary: Summary, sent: seq<Delivery>)
      requires Distinct(links)
      modifies this, links
      ensures forall k :: 0 <= k < |links| ==>
        links[k].State() == Outcome(old(links[k].State()), env(links[k].info)).state
      ensures summary == Summary(Count(States(links), Completed), Count(States(links), Failed))
      ensures Count(States(links), Downloading) == 0 && Count(States(links), Pending) == 0
      ensures sent == Deliveries(Successful(States(links)), onDisk)
      ensures sessions == old(sessions) - {user}
    {
      ghost var before := States(links);
      var results := BatchDownload(links, env);
      BatchOutcomeCounts(before, States(links), results, env);
      summary := Summarise(results);
      sent := SendDownloadedFiles(user, links, onDisk);
    }

    /** button_handler: without a session nothing changes; "cancel" drops
        the user's session; a button that selects nothing starts nothing;
        otherwise the selected records are downloaded and sent, and the
        session is dropped. Records left out of the selection keep their
        state. */
    method ButtonHandler(user: int, data: string, env: LinkInfo -> Fetch, onDisk: string -> bool) returns (reply: ButtonReply)
      requires Valid()
      modifies this, LinksOf(user)
      ensures Valid()
      ensures user !in old(sessions) ==> reply == Expired && sessions == old(sessions)
      ensures user in old(sessions) && data == "cancel" ==>
        && reply == Cancelled
        && sessions == old(sessions) - {user}
        && forall l :: l in old(sessions[user].links) ==> l.State() == old(l.State())
      ensures user in old(sessions) && data != "cancel" && Select(old(sessions[user].links), data) == [] ==>
        && reply == NothingSelected
        && sessions == old(sessions)
        && forall l :: l in old(sessions[user].links) ==> l.State() == old(l.State())
      ensures user in old(sessions) && data != "cancel" && Select(old(sessions[user].links), data) != [] ==>
        var chosen := Select(old(sessions[user].links), data);
        && sessions == old(sessions) - {user}
        && (forall l :: l in old(sessions[user].links) ==>
              l.State() == if l in chosen then Outcome(old(l.State()), env(l.info)).state else old(l.State()))
        && reply == Finished(Summary(Count(States(chosen), Completed), Count(States(chosen), Failed)),
                             Deliveries(Successful(States(chosen)), onDisk))
    {
      if user !in sessions {
        return Expired;
      }
      var links := sessions[user].links;
      if data == "cancel" {
        sessions := sessions - {user};
        return Cancelled;
      }
      var chosen := Select(links, data);
      if chosen == [] {
        return NothingSelected;
      }
      SelectDistinct(links, data);
      var summary, sent := StartBatchDownload(user, chosen, env, onDisk);
      reply := Finished(summary, sent);
      forall l | l in chosen ensures l.State() == Outcome(old(l.State()), env(l.info)).state {
        var k :| 0 <= k < |chosen| && chosen[k] == l;
      }
    }
  }
}
