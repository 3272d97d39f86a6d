# paste.gd — request logic and backups, in Dafny

This project models the core of the paste.gd text-paste server: the three request handlers of
`src/cmd/paste/paste.go`, taken out of their HTTP closures, and the backup routine of
`src/cmd/paste/dump.go`.

The handlers sit on two stores, modelled as maps held in two classes (module `Stores`):

- `Disk.files` is the filesystem. The text of paste `id` lives in the file `dir + "/" + id`.
- `Bolt.pastes` is the bolt bucket `"paste"`. It maps an id to its `Paste` record, the record type
  of `src/cmd/paste/types.go` (module `PasteTypes`).

Module `PasteService` has the handlers:

- `Create` models POST `/paste`.
- `Show` models GET `/:id`, which gives the page, or the raw text for a path ending in `.txt`.
- `Download` models GET `/dl/:id`.

Each handler is an imperative method that runs the source's steps in order, with an early return
at each failure. Each is proved equal to a specification function (`CreateSpec`, `ShowSpec`,
`DownloadSpec`). The lemmas about those functions state what the handlers promise:

- how create fails, in which order, and what each failure leaves behind;
- the round trips from create to show, to the raw text and to the download;
- what create never changes;
- which invariants of the stores create keeps, and which it can break.

Module `Backup` has the rest. `Stamp` and `BackupName` build the backup file name in the
`20060102-150405` layout. `ParseStamp` reads a stamp back, which proves that the naming is
injective. `Dump` writes a snapshot of the bucket into the backup directory. `DumpEvery` runs one
dump per tick and ignores what each dump returns.

The inputs that come from outside the code are parameters:

- the id `Id(6)` returns;
- the clock (`now`, and the local date-time fields of a tick);
- whether each library call fails: `ioutil.WriteFile` (`WriteResult`), the bolt update and view
  transactions, reading a file, and opening, writing or closing a backup;
- whether `os.Stat` fails to report "does not exist" for a name that holds no content file
  (`statFails`): another stat error, such as a name too long, or a directory, such as the content
  directory `dir + "/"` that the raw path `/.txt` names.

The model follows the code, including these behaviours of it that a reader might not expect:

- Empty text is accepted and stored with size 0; no check on the text exists.
- A disallowed visibility is answered with a server error (500). It is not a validation error.
- No collision check is made on the id. An existing paste with the same id is overwritten.
- No public index exists. Only the bucket `"paste"` is ever created.
- A record whose content file is missing is answered with 404, the same as an unknown id.
- A missing record is not answered with 404 on its own. The handler keeps the zero record
  `Paste{}` and goes on to check the file. So a paste whose record write failed is still served,
  with that zero record (`OrphanShowsZeroRecord`).
- The content is written directly. No temporary file is renamed into place.

A missing key in `rod.GetJson` is modelled as leaving the record it was given untouched, with
no error. Any error from that read, such as a decoding error, is covered by the `viewFails` input.
The `rod` library is not part of this model.

## Model

| member | source | states |
|---|---|---|
| GoStrings.HasSuffix | src/cmd/paste/paste.go:145 | a string has a suffix when the suffix is no longer than it and equals its last characters, as `strings.HasSuffix` decides |
| GoStrings.TrimSuffix | src/cmd/paste/paste.go:146-149 | with the suffix present, the result followed by the suffix is the input; without it, the input is returned unchanged |
| GoStrings.HasSuffixIff | src/cmd/paste/paste.go:145 | a string has a suffix exactly when it is some string followed by that suffix |
| GoStrings.TrimAppended | src/cmd/paste/paste.go:145-149 | appending ".txt" and trimming it again gives back the original id |
| Stores.Bolt.Put | src/cmd/paste/paste.go:128-130 | the update transaction either commits the record under its key or leaves the bucket as it was, and reports which |
| Stores.Bolt.Get | src/cmd/paste/paste.go:152-155 | the view reports a read error, or gives the stored record, or leaves the zero record when the key is missing |
| Stores.Disk.WriteFile | src/cmd/paste/paste.go:121 | a full write stores the text; a failed open changes nothing; a failure after truncation leaves a prefix of the text; only a full write reports success |
| Stores.Disk.NotExist | src/cmd/paste/paste.go:170 | true exactly when no file of that name exists and the stat reports it as not existing; it does not when the stat fails in another way (a name too long) or the name is a directory (`dir + "/"` for `/.txt`), cases `os.IsNotExist` does not recognise |
| Stores.Disk.ReadFile | src/cmd/paste/paste.go:177-198 | succeeds exactly when the file exists and reading does not fail, and then gives its whole contents |
| PasteService.AllowedVisibility | src/cmd/paste/paste.go:101-106 | the visibilities create accepts are exactly "unlisted", "public" and "encrypted" |
| PasteService.FileName | src/cmd/paste/paste.go:120 | the content file of a paste is its id inside the content directory (the same name is used by show and download) |
| PasteService.NewPaste | src/cmd/paste/paste.go:110-117 | the record create builds: the id, the form's title and visibility, the text's byte length as size, no expiry, and the current time as both created and updated |
| PasteService.Disposition | src/cmd/paste/paste.go:234 | the download's Content-Disposition value names the file id + ".txt" as an attachment |
| PasteService.CreateSpec | src/cmd/paste/paste.go:97-138 | the create handler as a function of the old stores and of which writes fail: a disallowed visibility changes nothing; a failed open changes nothing; a short write leaves a prefix of the text; a failed record write leaves only the text; otherwise the text and the new record are stored and the answer redirects to the paste |
| PasteService.FileNameInjective | src/cmd/paste/paste.go:120 | two ids give the same content file name in a directory exactly when they are equal |
| PasteService.Create | src/cmd/paste/paste.go:97-138 | the response and both new stores are those of CreateSpec applied to the old stores |
| PasteService.CreateSucceedsIff | src/cmd/paste/paste.go:99-137 | create redirects exactly when the visibility is allowed and both writes succeed, and every other outcome is a server error; the text is not checked |
| PasteService.CreateRejectsVisibility | src/cmd/paste/paste.go:101-106 | a visibility other than "unlisted", "public" or "encrypted" gives a server error and changes neither store |
| PasteService.CreateStores | src/cmd/paste/paste.go:108-137 | a successful create redirects to "/" + id and stores the text under the id's file and a record with the id, the title, size equal to the text's byte length, the visibility, no expiry and created == updated == now, replacing whatever was there |
| PasteService.CreateAcceptsEmptyText | src/cmd/paste/paste.go:99-117 | empty text is accepted and stored with size 0 |
| PasteService.CreateContentFirst | src/cmd/paste/paste.go:119-125 | when the content write fails, the response is a server error, the bucket is unchanged, and the file holds at most a prefix of the text |
| PasteService.CreateLeavesOrphan | src/cmd/paste/paste.go:127-134 | when the record write fails after the content write, the response is a server error and the bucket is unchanged, but the content file stays |
| PasteService.CreateFrame | src/cmd/paste/paste.go:119-137 | create adds or changes at most the content file of the id and the record of the id; every other file and record keeps its value |
| PasteService.CreateKeepsKeyedById | src/cmd/paste/paste.go:127-130 | if every record is stored under its own id before a create, that still holds afterwards |
| PasteService.CreateKeepsRecordsWithContent | src/cmd/paste/paste.go:119-134 | whatever fails, create never leaves a record without its content file, because the content is written first |
| PasteService.CreateFreshKeepsSizes | src/cmd/paste/paste.go:110-134 | with an id not yet in the bucket, every record's size still equals its file's length after a create, whatever fails |
| PasteService.CollidingOrphanBreaksSizes | src/cmd/paste/paste.go:120-134 | with an id already in use whose record's size differs from the new text's length, a create whose record write fails replaces the text but not the record, so the stored size no longer matches |
| PasteService.ParseShowPath | src/cmd/paste/paste.go:144-149 | a path is raw exactly when it ends in ".txt"; a raw path names the id that, followed by ".txt", is the path; any other path names itself |
| PasteService.RawPathNamesPaste | src/cmd/paste/paste.go:144-149 | the path id + ".txt" is the raw path of paste id |
| PasteService.ShowSpec | src/cmd/paste/paste.go:140-213 | the show handler as a function of the stores, the path and which of the view, the stat and the read fail, in the handler's order: view error, not-exist, unreported missing file or read error, then raw text or the page with the record or Paste{} |
| PasteService.Show | src/cmd/paste/paste.go:140-213 | the response is that of ShowSpec on the current stores and on which of the view, the stat and the read fail; neither store changes |
| PasteService.ShowOutcomes | src/cmd/paste/paste.go:151-212 | a record read error gives a server error before the file is consulted; the answer is 404 exactly when there is no read error, the file is missing and the stat reported it as not existing; a missing file that the stat does not report as such (another stat error, or a directory) gives a server error; it is raw text exactly when the path ends in ".txt" and the file can be read, and is then the file's bytes verbatim; it is the page exactly in the other readable case, with the stored record, or Paste{} when there is none, and the full text |
| PasteService.ShowRawIgnoresRecords | src/cmd/paste/paste.go:175-191 | for a raw path the answer does not depend on the bucket's contents |
| PasteService.ShowNeverCreated | src/cmd/paste/paste.go:168-173 | an id with no content file gives 404 on its raw path and its page path, or a server error when the stat does not report "does not exist" (another stat error, or a directory such as the content directory named by `/.txt`) |
| PasteService.ShowIgnoresExpiry | src/cmd/paste/paste.go:161-166 | a record is served as stored whatever its expiry |
| PasteService.DownloadSpec | src/cmd/paste/paste.go:215-240 | the download handler as a function of the content files and of whether the stat and the read fail: not-exist gives 404, an unreported missing file or a read error 500, else the file as an attachment |
| PasteService.Download | src/cmd/paste/paste.go:215-240 | the response is that of DownloadSpec on the content files and on whether the stat and the read fail; it reads only the content file and never the bucket, and neither store changes |
| PasteService.DownloadOutcomes | src/cmd/paste/paste.go:218-239 | 404 exactly when the file is missing and the stat reported it as not existing; a missing file that the stat does not report as such (another stat error, or a directory) gives a server error; an existing file whose read fails gives a server error; otherwise the file's bytes verbatim as plain text with disposition "attachment; filename=" + id + ".txt", a file name that is also the paste's raw path |
| PasteService.CreateThenRead | src/cmd/paste/paste.go:97-239 | after a successful create, following the redirect shows the page with the new record and the full text, the raw path gives the text, and the download gives the text |
| PasteService.OrphanShowsZeroRecord | src/cmd/paste/paste.go:127-212 | after a create whose record write failed, a new id is served as a page with the zero record and the orphaned text, and as raw text |
| Backup.Decimal | src/cmd/paste/dump.go:43 | a time field is written as at least one decimal digit and at least the field's width |
| Backup.DecimalDigits | src/cmd/paste/dump.go:43 | a time field is written with decimal digits only |
| Backup.DecimalValue | src/cmd/paste/dump.go:43 | reading the digits of a field back gives the number |
| Backup.DecimalWidth | src/cmd/paste/dump.go:43 | a number below 10^width is written in exactly width characters |
| Backup.YearText | src/cmd/paste/dump.go:43 | the "2006" field: the year zero-padded to four digits, with '-' before the magnitude of a negative year |
| Backup.Clock | src/cmd/paste/dump.go:43 | the "0102-150405" part: month and day, '-', hour, minute and second, each zero-padded to two digits |
| Backup.Stamp | src/cmd/paste/dump.go:43 | the time formatted with the layout "20060102-150405": the year field followed by the clock part |
| Backup.NegativeYearText | src/cmd/paste/dump.go:43 | a negative year is written as '-' and the digits of its magnitude, at least four characters |
| Backup.NonNegativeYearText | src/cmd/paste/dump.go:43 | any other year is written as at least four digits that read back as the year |
| Backup.TwoDigits | src/cmd/paste/dump.go:43 | a two-character field is the tens digit and then the units digit |
| Backup.ClockFields | src/cmd/paste/dump.go:43 | the "0102-150405" part is eleven characters with '-' in the middle, and its two-digit fields read back as month, day, hour, minute and second |
| Backup.StampRoundTrip | src/cmd/paste/dump.go:43 | every stamp parses back to the date-time it was made from |
| Backup.StampInjective | src/cmd/paste/dump.go:43 | two local date-times give the same stamp exactly when their fields are equal |
| Backup.StampShape | src/cmd/paste/dump.go:43 | for years 0 to 9999 a stamp is eight digits, '-', and six digits |
| Backup.Join | src/cmd/paste/dump.go:43 | `path.Join` of a clean directory and a one-element file name: the name alone for "" and ".", '/' and the name for "/", else the two joined by '/' |
| Backup.BackupName | src/cmd/paste/dump.go:43 | the backup taken at a time is the stamp followed by ".db.gz", inside the backup directory |
| Backup.BackupNameExample | src/cmd/paste/dump.go:24-28 | the backup taken at 2017-03-29 09:59:36 is named 20170329-095936.db.gz |
| Backup.BackupNameInjective | src/cmd/paste/dump.go:43 | backups taken at different local date-time fields (to the second) go to different files in the same directory |
| Backup.Dumped | src/cmd/paste/dump.go:42-62 | one dump adds or changes only the file named after its time; every other backup keeps its value |
| Backup.DumpOutcomes | src/cmd/paste/dump.go:46-61 | if opening the file fails nothing is written; otherwise the file named after the time exists, and it holds the complete snapshot of the bucket exactly when neither writing the snapshot nor the deferred close failed |
| Backup.Dump | src/cmd/paste/dump.go:42-62 | the backup directory becomes Dumped of the old one; the open error or the snapshot error is returned, else none, also when the deferred close fails and leaves the file incomplete; the bucket is not changed |
| Backup.AfterTicks | src/cmd/paste/dump.go:32-38 | the backup directory after a run of ticks: each tick's dump applied in order to the result of the ones before, failed dumps included |
| Backup.DumpEvery | src/cmd/paste/dump.go:29-40 | after the ticks, the backup directory is the old one with every tick's dump applied in turn, failed ones included |
| Backup.TickRecorded | src/cmd/paste/dump.go:32-38 | a tick whose dump completes (open, write and close all succeed) leaves the snapshot in its file, whatever earlier ticks did, unless a later tick fires at the same local date-time |
| Backup.AfterTicksKeeps | src/cmd/paste/dump.go:32-38 | a backup file that no tick names is left as it was |

## Left out

- The HTTP server, the mux and route registration, logging, the static, favicon, robots and
  sitemap routes, and template rendering. A rendered page is the `Page(record, text)` response.
- The `Id(6)` generator. The id is a parameter, and nothing is claimed about uniqueness, because
  the code never checks it.
- `time.Now()`, UTC and local-time conversion. The clock value and the date-time fields are
  parameters.
- The internals of bolt and of `rod.PutJson` and `rod.GetJson`, including JSON encoding. The
  bucket is a map, and each transaction's failure is an input. A title is a sequence of Unicode
  characters, while Go's form value is bytes that `json.Marshal` turns into U+FFFD where they are
  not valid UTF-8; so `CreateThenRead`'s page showing the form's title holds only for titles
  that are valid UTF-8.
- gzip compression and `tx.WriteTo`. A backup file is `Snapshot(bucket)` or `Incomplete`, with no
  byte encoding and no decompression round trip.
- `os.OpenFile` without truncation: a dump over an existing file of the same name is modelled as
  replacing it, although the real file could keep trailing bytes of the old one.
- Backup.BackupName: the name uses local time, which can repeat after a daylight-saving change,
  so two ticks an hour apart can get the same name; the injectivity lemmas hold over the local
  date-time fields only, and a repeated name is rewritten without truncation.
- Backup.Join, Backup.BackupName: `path.Join` is modelled for a clean directory only ("", ".", "/"
  and other clean paths); cleaning a directory with "..", "." elements, trailing or repeated
  slashes is not modelled.
- PasteService.Create: the redirect location is "/" + id; the cleaning `http.Redirect` applies to it
  is not modelled (it leaves an alphanumeric id unchanged).
- PasteService.Show, PasteService.Download: an `io.Copy` failure (raw mode of show, and every
  download) is modelled as a server error, although the headers and part of the text may already
  have been sent.
- Backup.DumpEvery: the ticker and the endless `for`/`select` loop are modelled as a finite
  sequence of ticks. Timing, the goroutine, and creates running at the same time as a dump are
  not modelled. The bucket is the same for every tick of a run.
- Concurrency of requests. The create handler assigns the `err` variable it shares with `main`
  and with other requests; this race is not visible in a sequential model.
- Expiry, encryption and a public index are not implemented by the code, so none is modelled.
  The `expire` field is stored and never acted upon (the one test of it has empty branches).
- The logging in `dump` and `dumpEvery`, and the byte count `tx.WriteTo` reports.
- static/s/js/iframe.js is browser clipboard glue and is not part of this model.
