# RAS downloader bot: the link bookkeeping, in Dafny

The bot in `deepseek_python_20251028_59d3bb.py` takes a Telegram message that
lists course files as `(subject) description https://…` lines. It turns each
line into a link record and offers PDF / video / all buttons. It then
downloads the chosen records while tracking each one's status, progress,
size and byte count, reports progress bars and counts, and sends the
finished files back. This project models the logic around the Telegram and
HTTP plumbing and proves what that logic promises.

Modules, one file each:

- `text.dfy` (`Text`): the Python string operations the bot relies on.
  - `str.strip()` and `str.isspace`, with Python's own whitespace set.
  - The `in` operator on strings, and ASCII lower-casing.
  - `c * n` repetition.
  - `03d` zero padding, plus the readers used to read a filename back.
- `links.dfy` (`Links`): `extract_links_from_text` after `re.findall`.
  - The URL type test.
  - The two `re.sub` sanitisers.
  - The filename format and the record built for one match.
- `downloader.dfy` (`Downloader`): the record as a `Link` object with the fields
  the download updates in place.
  - `download_file_with_progress` as the method `Link.Download`, proved
    against the function `Outcome`.
  - The same download under the callback `start_batch_download` passes it,
    as the function `OutcomeWithRaisingCallback` (see Findings).
  - `extract_links_from_text` as the method `ExtractLinks`.
  - `batch_download` as the method `BatchDownload`.
- `progress.dfy` (`Progress`): `create_progress_bar`.
- `tallies.dfy` (`Tallies`): the status counts and in-flight lines of
  `update_progress_message` and `generate_status_message`, and the
  success/failure figures of `start_batch_download`.
- `session.dfy` (`Session`): the `user_sessions` map as the class `Bot`, with
  these methods:
  - `handle_text` as `HandleText`.
  - `button_handler` as `ButtonHandler`, and its selection as `Select`.
  - `start_batch_download` as `StartBatchDownload`.
  - `send_downloaded_files` as `SendDownloadedFiles` / `SendEach`.
  - `status_command` as `Status`.

The outside world enters only as parameters:

- `Fetch` says what one download meets: whether the file is already on disk,
  the announced content-length, the lengths of the streamed chunks, and
  where (if anywhere) an exception is raised.
- `env: LinkInfo -> Fetch` gives that for every record of a batch.
- `onDisk: string -> bool` says which files `os.path.exists` finds when
  sending.
- `isWord: char -> bool` stands for the regular-expression class `\w`.
- `matches` are the triples `re.findall` returns for the message.

## Model

| member | source | states |
|---|---|---|
| Text.IsSpace | deepseek_python_20251028_59d3bb.py:33-35 | the whitespace set of `str.isspace()`, which is also what `strip()` removes and what `\s` matches at lines 44-46; a definition, with no contract of its own |
| Text.Strip | deepseek_python_20251028_59d3bb.py:33-35 | strip() keeps a slice with no whitespace at either end, starting at the first non-whitespace character, with only whitespace around it |
| Text.StripUnique | deepseek_python_20251028_59d3bb.py:33-35 | any edge-trimmed text surrounded only by whitespace is exactly what strip() returns |
| Text.StripIdempotent | deepseek_python_20251028_59d3bb.py:33-35 | stripping a stripped group changes nothing |
| Text.Contains | deepseek_python_20251028_59d3bb.py:37-42 | `w in s` holds exactly when `w` occurs at some index of `s` |
| Text.Lower | deepseek_python_20251028_59d3bb.py:37-39 | `url.lower()` has the length of `url`, and each character is the lower-cased counterpart of the one at the same index (ASCII letters only) |
| Text.ContainsLower | deepseek_python_20251028_59d3bb.py:37-42 | searching `url.lower()` finds exactly the case-insensitive occurrences in `url` |
| Text.Repeat | deepseek_python_20251028_59d3bb.py:168 | `c * n` has max(n, 0) characters, all equal to `c` |
| Text.Digits | deepseek_python_20251028_59d3bb.py:48 | the decimal rendering is non-empty, all digits, and has no leading zero |
| Text.ZeroPad | deepseek_python_20251028_59d3bb.py:48 | `{n:03d}` is all digits and max(3, number of digits) long |
| Text.ZeroPadRoundTrip | deepseek_python_20251028_59d3bb.py:48 | the zero-padded id reads back as the id |
| Text.ValueOfDigits | deepseek_python_20251028_59d3bb.py:48 | the unpadded decimal rendering reads back as the number |
| Text.ValueOfLeadingZeros | deepseek_python_20251028_59d3bb.py:48 | leading zeros do not change the value a digit string reads as |
| Text.LeadingDigits | deepseek_python_20251028_59d3bb.py:48 | the longest all-digit prefix: a prefix, all digits, followed by a non-digit or the end |
| Text.AfterLast | deepseek_python_20251028_59d3bb.py:48 | the suffix after the last occurrence of a character: it holds no such character and is preceded by one |
| Links.TypeOfExtension | deepseek_python_20251028_59d3bb.py:37-42 | an extension names a type exactly when it is that type's extension ("pdf", "mp4", "file") |
| Links.Classify | deepseek_python_20251028_59d3bb.py:37-42 | pdf iff the URL mentions ".pdf" in any case; mp4 iff it does not but mentions ".mp4" or "video"; file otherwise |
| Links.KeepSafe | deepseek_python_20251028_59d3bb.py:44-45 | `re.sub(r'[^\w\s-]', '', s)` leaves only word characters, whitespace and '-', and never lengthens `s` |
| Links.KeepSafeAppend | deepseek_python_20251028_59d3bb.py:44-45 | the deletion works character by character: it commutes with concatenation |
| Links.KeepSafeFixed | deepseek_python_20251028_59d3bb.py:44-45 | the substitution changes a string exactly when the string holds a character outside the allowed classes |
| Links.JoinWords | deepseek_python_20251028_59d3bb.py:46 | `re.sub(r'\s+', '_', s)` leaves no whitespace and never lengthens `s` |
| Links.JoinFrom | deepseek_python_20251028_59d3bb.py:46 | the left-to-right scan behind the substitution writes no whitespace and never lengthens its input |
| Links.JoinFromAppend | deepseek_python_20251028_59d3bb.py:46 | the scan of a concatenation is the scan of each part, the second resumed in the state the first left |
| Links.JoinWordsNoSpace | deepseek_python_20251028_59d3bb.py:46 | text without whitespace is left unchanged |
| Links.JoinWordsRun | deepseek_python_20251028_59d3bb.py:46 | a whole run of whitespace becomes exactly one '_' |
| Links.JoinWordsAppend | deepseek_python_20251028_59d3bb.py:46 | cutting a string anywhere except inside a whitespace run commutes with the substitution |
| Links.JoinFromCopies | deepseek_python_20251028_59d3bb.py:46 | every character written is '_' or a character of the input that is not whitespace |
| Links.JoinFromKeeps | deepseek_python_20251028_59d3bb.py:45-46 | given input of word characters, whitespace and '-', every character written is '_', a word character or '-' |
| Links.SanitisedParts | deepseek_python_20251028_59d3bb.py:44-46 | the subject part holds only word characters, whitespace and '-'; the description part holds only word characters, '-' and '_', with no whitespace |
| Links.Filename | deepseek_python_20251028_59d3bb.py:48 | the filename format `{id:03d}_{subject}_{description}.{type}`; a definition, whose id and type `FilenameRoundTrip` reads back |
| Links.FilenameRoundTrip | deepseek_python_20251028_59d3bb.py:48 | a filename's leading digits read back as its id, and the text after its last '.' names its type |
| Links.RecordFor | deepseek_python_20251028_59d3bb.py:32-61 | the record for match i is numbered i+1, keeps the three groups stripped with no whitespace at either end, and takes its type from the stripped URL |
| Links.RecordForFilename | deepseek_python_20251028_59d3bb.py:32-61 | the record for match i has id i+1; it stores the stripped groups and the type of the stripped URL; its filename gives back its id and type |
| Downloader.Percent | deepseek_python_20251028_59d3bb.py:97-101 | `(downloaded / total) * 100`, or 50 without a positive length: never negative, 0 only before any byte, at most 100 while no more than the announced bytes have arrived, and 100 exactly at the announced length |
| Downloader.QuotientBounds | deepseek_python_20251028_59d3bb.py:98 | a share `c / t` is never negative and is 0 only for `c = 0`; for `c ≤ t` it is at most 1 and is 1 only for `c = t` |
| Downloader.Received | deepseek_python_20251028_59d3bb.py:89-101 | the chunk loop changes only `downloaded` and `progress`, never the status, the size or the fixed fields |
| Downloader.ReceivedTotals | deepseek_python_20251028_59d3bb.py:89-101 | after the loop, `downloaded` is the total length of the chunks read and `progress` its percentage of the content-length (50 without one); both keep their old values when every chunk was empty |
| Downloader.DownloadedMonotone | deepseek_python_20251028_59d3bb.py:89-95 | on a fresh record, `downloaded` never decreases as the loop goes on |
| Downloader.ProgressWhileReceiving | deepseek_python_20251028_59d3bb.py:97-101 | without a positive content-length the progress is pinned at 50; with one, reading exactly that many bytes shows 100 |
| Downloader.Outcome | deepseek_python_20251028_59d3bb.py:65-125 | a download always ends completed or failed; success iff completed; completed means progress 100, failed means progress 0; a success reports the record's filename |
| Downloader.OutcomeCases | deepseek_python_20251028_59d3bb.py:70-125 | a file on disk is reported as present without fetching; any exception gives an error; an exception before the body leaves the record failed at 0%; a full run records the announced size and the bytes read |
| Downloader.ReadUntilCallback | deepseek_python_20251028_59d3bb.py:89-104 | the chunk loop reads up to and including the first non-empty chunk that brings the byte count to a multiple of 81920, where it calls the callback, or every chunk when none does |
| Downloader.OutcomeWithRaisingCallback | deepseek_python_20251028_59d3bb.py:65-125 | as written, under the callback of lines 330-331, which raises on every call: every download ends failed at 0% with an error result |
| Downloader.RaisingCallbackFails | deepseek_python_20251028_59d3bb.py:70-125 | a file already on disk, or a body read to the end, succeeds without the callback and fails with the raising one |
| Downloader.PresentFileFailsUnderRaisingCallback | deepseek_python_20251028_59d3bb.py:70-76 | a PDF already on disk ends completed without the callback and failed with the raising one |
| Downloader.Link.constructor | deepseek_python_20251028_59d3bb.py:50-61 | a new record is pending, with progress, size and downloaded all 0 |
| Downloader.Link.Download | deepseek_python_20251028_59d3bb.py:65-125 | updating the record in place (status, then size, then `downloaded`/`progress` chunk by chunk, then the final status) leaves the record and returns the result that `Outcome` gives |
| Downloader.States | deepseek_python_20251028_59d3bb.py:371-374 | the record fields of a list of links, one per link, in order |
| Downloader.Records | deepseek_python_20251028_59d3bb.py:32-61 | one record per match, in match order: the k-th is numbered k+1, keeps the k-th match's stripped subject, description and URL, and has the type of that URL |
| Downloader.NewLinks | deepseek_python_20251028_59d3bb.py:50-61 | one fresh, distinct, pending record per entry, in order |
| Downloader.ExtractLinks | deepseek_python_20251028_59d3bb.py:25-63 | the returned list has one fresh pending record per match, in order, no two the same object, each with the record `Records` gives |
| Downloader.BatchDownload | deepseek_python_20251028_59d3bb.py:127-144 | one result per link, in submission order; each link ends as its own download left it |
| Progress.Trunc | deepseek_python_20251028_59d3bb.py:167 | `int(x)` truncates toward zero |
| Progress.Filled | deepseek_python_20251028_59d3bb.py:167 | for 0 ≤ progress ≤ 100, `int(length * progress / 100)` lies between 0 and `length` and is the whole part of the exact share |
| Progress.BarCells | deepseek_python_20251028_59d3bb.py:167-168 | every cell is '█' or '░' |
| Progress.CreateProgressBar | deepseek_python_20251028_59d3bb.py:165-169 | the text is '[', the cells, ']', a space, the shown percentage and '%' |
| Progress.BarShape | deepseek_python_20251028_59d3bb.py:165-169 | for 0 ≤ progress ≤ 100 the bar has exactly `length` cells; the first floor(length·progress/100) are full and the rest empty |
| Progress.FilledMonotone | deepseek_python_20251028_59d3bb.py:167 | a higher percentage never shows fewer full cells |
| Progress.BarEnds | deepseek_python_20251028_59d3bb.py:165-169 | 0% is all empty cells and 100% all full cells |
| Progress.BarOverflow | deepseek_python_20251028_59d3bb.py:167-168 | above 100% every cell is full and there are at least `length` of them |
| Tallies.Count | deepseek_python_20251028_59d3bb.py:372-374 | a status count never exceeds the number of records |
| Tallies.CountsPartition | deepseek_python_20251028_59d3bb.py:371-375 | the pending, downloading, completed and failed counts add up to the total |
| Tallies.TallyOf | deepseek_python_20251028_59d3bb.py:371-375 | `pending = total - completed - downloading - failed` is never negative and equals the number of pending records |
| Tallies.InFlight | deepseek_python_20251028_59d3bb.py:377 | the in-flight list has as many records as the downloading count, all downloading, all taken from the records |
| Tallies.InFlightSingle | deepseek_python_20251028_59d3bb.py:377 | a single record is in flight exactly when it is downloading |
| Tallies.InFlightAppend | deepseek_python_20251028_59d3bb.py:377 | the in-flight list keeps record order: the list for a concatenation is the concatenation of the lists, so `[:2]` and `[:3]` show the first records in flight |
| Tallies.Take | deepseek_python_20251028_59d3bb.py:383 | `s[:n]` is the prefix of length min(n, len(s)) |
| Tallies.LineFor | deepseek_python_20251028_59d3bb.py:383-387 | an entry shows the first min(width, length) characters of the filename, the record's progress, and the size only when it is positive |
| Tallies.Lines | deepseek_python_20251028_59d3bb.py:382-387 | min(limit, downloading) entries; the i-th belongs to the i-th in-flight record, with its name cut to the width |
| Tallies.OverallProgress | deepseek_python_20251028_59d3bb.py:391 | the overall percentage lies in [0, 100]; it is 100 iff a non-empty batch is all completed, and 0 iff nothing is completed |
| Tallies.ProgressReport | deepseek_python_20251028_59d3bb.py:369-393 | the progress report shows the tally; min(2, downloading) entries, the i-th being the i-th in-flight record with its filename cut to 30 characters; and the overall percentage in [0, 100] |
| Tallies.OverallBar | deepseek_python_20251028_59d3bb.py:391-392 | the overall bar always has 20 cells, and is entirely full iff a non-empty batch is all completed |
| Tallies.StatusReport | deepseek_python_20251028_59d3bb.py:459-478 | the status report shows the four counts and min(3, downloading) entries, the i-th being the i-th in-flight record with its filename cut to 25 characters |
| Tallies.Successes | deepseek_python_20251028_59d3bb.py:350 | the success count never exceeds the number of results |
| Tallies.Summarise | deepseek_python_20251028_59d3bb.py:350-351 | completed plus failed files equals the number of results |
| Tallies.BatchOutcomeCounts | deepseek_python_20251028_59d3bb.py:350-351 | after a batch, the reported successes are exactly the completed records and the reported failures exactly the failed ones; none is pending or downloading |
| Session.Wanted | deepseek_python_20251028_59d3bb.py:306-311 | the PDF button keeps PDFs, the video button MP4s, any other data every record; a definition, with no contract of its own |
| Session.Select | deepseek_python_20251028_59d3bb.py:306-311 | the selection holds exactly the records of the chosen type (every record for "download_all" or any other data) |
| Session.SelectAppend | deepseek_python_20251028_59d3bb.py:306-311 | the selection keeps the original order: selecting from a concatenation concatenates the selections |
| Session.SelectAll | deepseek_python_20251028_59d3bb.py:310-311 | data other than the PDF and video buttons selects the list unchanged |
| Session.SelectDistinct | deepseek_python_20251028_59d3bb.py:306-311 | the selection never repeats a record |
| Session.CountType | deepseek_python_20251028_59d3bb.py:251-252 | a type count never exceeds the number of records |
| Session.SelectCounts | deepseek_python_20251028_59d3bb.py:251-252 | the PDF and video figures offered are the sizes of the PDF and video selections |
| Session.Caption | deepseek_python_20251028_59d3bb.py:422-428 | the caption is the icon, a space, the subject, a line break and the description |
| Session.Send | deepseek_python_20251028_59d3bb.py:414-432 | a completed record is sent exactly when its file is on disk and it is a PDF or an MP4 |
| Session.Successful | deepseek_python_20251028_59d3bb.py:402 | the successful list has as many records as the completed count, all completed |
| Session.SuccessfulSingle | deepseek_python_20251028_59d3bb.py:402 | a single record is kept exactly when it is completed |
| Session.SuccessfulAppend | deepseek_python_20251028_59d3bb.py:402 | the successful list keeps record order: the list for a concatenation is the concatenation of the lists |
| Session.Deliveries | deepseek_python_20251028_59d3bb.py:411-429 | the files the loop sends for a list of completed records, in order; a definition, whose order `DeliveriesAppend` and whose count `DeliveriesBound` state |
| Session.DeliveriesAppend | deepseek_python_20251028_59d3bb.py:411-429 | files go out in record order: sending a concatenation sends the files of each part, one after the other |
| Session.DeliveriesBound | deepseek_python_20251028_59d3bb.py:402-432 | at most one file per completed record is sent; exactly one each when every completed file is on disk and is a PDF or an MP4 |
| Session.RaisingCallbackSendsNothing | deepseek_python_20251028_59d3bb.py:326-367 | as written, with the callback of lines 330-331, every record of the batch ends failed: none is completed and no file is sent |
| Session.Bot.constructor | deepseek_python_20251028_59d3bb.py:147-152 | the bot starts with no sessions |
| Session.Bot.HandleText | deepseek_python_20251028_59d3bb.py:229-285 | no "https://" or no match leaves the sessions alone; otherwise only the user's entry is replaced, by fresh pending records (one per match, in order), and the offer counts the records and their PDFs and videos |
| Session.Bot.Status | deepseek_python_20251028_59d3bb.py:207-214 | a status report exists iff the user has a session, and it is the report on that session's records |
| Session.Bot.SendEach | deepseek_python_20251028_59d3bb.py:411-432 | the loop sends, in order, a document for each PDF and a video for each MP4 whose file is on disk |
| Session.Bot.SendDownloadedFiles | deepseek_python_20251028_59d3bb.py:400-453 | sends what `Deliveries` gives for the completed records, then removes exactly the user's entry |
| Session.Bot.StartBatchDownload | deepseek_python_20251028_59d3bb.py:326-367 | every selected record ends as its download leaves it; the reported figures are the completed and failed counts; nothing is left pending or downloading; the completed files are sent and the session is dropped |
| Session.Bot.ButtonHandler | deepseek_python_20251028_59d3bb.py:287-324 | no session: nothing changes; "cancel": only the user's entry is removed and no record changes; an empty selection: nothing changes; otherwise only the selected records are downloaded, the reply carries their counts and deliveries, and only the user's entry is removed |

## Left out

- The regular expression of `extract_links_from_text` (line 29) is not modelled. Its matches are an input.
- Python's `\w` is a parameter (`isWord`). The Unicode word-character table is not part of this model.
- Lower-casing is ASCII only. No other character lower-cases to a letter of ".pdf", ".mp4" or "video" in a way that could complete those words, so the type test is unaffected.
- Floating-point behaviour is not modelled. Percentages are exact rationals, and `round(progress, 1)` at line 99 is omitted, so the model's progress is the unrounded value. What `Percent` states about 0 and 100 holds of that unrounded value only: the stored `round(progress, 1)` is already 0.0 after the first 8192 bytes of a file above about 16.4 MB, and is 100.0 once 99.95% has arrived.
- The MB figures, the `{progress}%` rendering and every message text are not modelled. `CreateProgressBar` takes the shown percentage as a string.
- HTTP (`requests.get`, `raise_for_status`, `iter_content`), file writes, `os.path.exists` and `os.path.getsize` are not modelled. They become the `Fetch` input and the `onDisk` predicate.
  - A failure of `getsize` is a `FailsAfterChunks` count at least the number of chunks.
  - An unparsable content-length is a `FailsBeforeBody`.
- Concurrency is not modelled: the thread pools, `future.result(timeout=300)` and the asyncio tasks.
  - `BatchDownload` runs the downloads one after the other, in submission order.
  - A timed-out future (whose record may still be downloading) is not modelled.
- `Outcome` and `Link.Download` model `download_file_with_progress` with its default `progress_callback=None`, which is how `BatchDownload` calls it. The callback of `start_batch_download` is modelled only by `OutcomeWithRaisingCallback` (see Findings).
- `update_progress_message` is modelled as the report it computes (`ProgressReport`). As written, the callback never schedules it, because the call raises first.
- Session.Bot.StartBatchDownload: downloads as `Outcome` does, without the callback. Under the bot's own callback every download ends failed and nothing is sent (`RaisingCallbackSendsNothing`); see Findings.
- Session.Bot.ButtonHandler: starts the batch through `StartBatchDownload`, so it too downloads without the callback; under the bot's own callback every selected record would end failed and nothing would be sent.
- Exceptions raised by Telegram calls are not modelled. These are the `try`/`except` blocks of `handle_text`, `start_batch_download` and `send_downloaded_files`, and the per-file `except` when sending.
- The per-file progress bar shown while sending (lines 431-437) is not modelled.
- `start_time` and `status_message` are not stored in a session.
- The entries of `StatusReport` are `Line` values whose `sizeKnown` flag `generate_status_message` does not show (lines 474-476); only the progress report uses it.
- The command handlers that only print help text are not modelled: `start`, `help`, `download_ras` and `batch_download`.
- `check_environment`, `main` and `main.py` are configuration and I/O, and are not modelled.

## Findings

| source | as written | input that shows it | evidently intended | confidence | as-written member | corrected member |
|---|---|---|---|---|---|---|
| deepseek_python_20251028_59d3bb.py:330-331 | the progress callback calls `asyncio.create_task` from the worker threads of `batch_download`, where no event loop runs, so every call raises; the except handler at lines 120-124 marks the record failed at 0% and calls the callback again, and that exception escapes to `batch_download`, which records a failure at lines 141-142 | a selected PDF already on disk: it ends failed and is not sent (`PresentFileFailsUnderRaisingCallback`); in general no download of a batch succeeds (`RaisingCallbackSendsNothing`) | the callback only schedules a progress message on the bot's loop, and each download ends as it does without a callback | high; not executed | Downloader.OutcomeWithRaisingCallback | Downloader.Outcome |
