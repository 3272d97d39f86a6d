/** The request logic of the paste server (src/cmd/paste/paste.go), lifted out of its HTTP closures:
    create (POST /paste), show (GET /:id, as a page or raw) and download (GET /dl/:id).
    Each handler is a method over the bolt bucket and the filesystem, proved equal to a
    specification function; the properties of the handlers are lemmas about those functions. */
module PasteService {
  import opened PasteTypes
  import opened GoStrings
  import opened Stores

  /** What a handler sends back. */
  datatype Response =
    | Redirect(location: string)                                       // 302 Found
    | ServerError                                                      // 500, internalServerError
    | NotFound                                                         // 404, notFound
    | Raw(contentType: string, body: seq<byte>)                        // the file streamed as plain text
    | Page(paste: Paste, text: seq<byte>)                              // paste.html rendered with record and text
    | Attachment(contentType: string, disposition: string, body: seq<byte>)

  /** The fields of the create form. */
  datatype Form = Form(title: string, text: seq<byte>, visibility: string)

  const PlainText: string := "text/plain; charset=utf-8"
  const RawSuffix: string := ".txt"

  /** The visibilities the create handler accepts. */
  predicate AllowedVisibility(v: string) {
    v == "unlisted" || v == "public" || v == "encrypted"
  }

  /** The content file of paste `id` in directory `dir`. */
  function FileName(dir: string, id: string): string {
    dir + "/" + id
  }

  lemma FileNameInjective(dir: string, a: string, b: string)
    ensures FileName(dir, a) == FileName(dir, b) <==> a == b
  {
    if FileName(dir, a) == FileName(dir, b) {
      var n := |dir| + 1;
      assert a == FileName(dir, a)[n..];
      assert b == FileName(dir, b)[n..];
    }
  }

  /** The record the create handler builds: no expiry, created and updated now. */
  function NewPaste(id: string, form: Form, now: Time): Paste {
    Paste(id, form.title, |form.text|, form.visibility, ZeroTime, now, now)
  }

  /** The value of the Content-Disposition header of a download. */
  function Disposition(id: string): string {
    "attachment; filename=" + id + RawSuffix
  }

  // ---------------------------------------------------------------------------------------------
  // Create

  datatype CreateResult = CreateResult(resp: Response, files: map<string, seq<byte>>, pastes: map<string, Paste>)

  /** The create handler: check the visibility, write the content file, then the record,
      returning at the first failure. `id` is what `Id(6)` produced and `now` the clock. */
  function CreateSpec(dir: string, files: map<string, seq<byte>>, pastes: map<string, Paste>,
                      form: Form, id: string, now: Time, write: WriteResult, putFails: bool): CreateResult
  {
    if !AllowedVisibility(form.visibility) then CreateResult(ServerError, files, pastes)
    else
      var name := FileName(dir, id);
      match write
      case OpenFailed => CreateResult(ServerError, files, pastes)
      case WriteFailedAfter(n) => CreateResult(ServerError, files[name := Prefix(form.text, n)], pastes)
      case Written =>
        if putFails then CreateResult(ServerError, files[name := form.text], pastes)
        else CreateResult(Redirect("/" + id), files[name := form.text], pastes[id := NewPaste(id, form, now)])
  }

  method Create(db: Bolt, disk: Disk, dir: string, form: Form, id: string, now: Time,
                write: WriteResult, putFails: bool) returns (resp: Response)
    modifies db, disk
    ensures CreateResult(resp, disk.files, db.pastes)
         == CreateSpec(dir, old(disk.files), old(db.pastes), form, id, now, write, putFails)
  {
    if !AllowedVisibility(form.visibility) {
      return ServerError;
    }
    var paste := NewPaste(id, form, now);
    var filename := FileName(dir, paste.id);
    var ok := disk.WriteFile(filename, form.text, write);
    if !ok {
      return ServerError;
    }
    ok := db.Put(paste.id, paste, putFails);
    if !ok {
      return ServerError;
    }
    return Redirect("/" + paste.id);
  }

  /** Create succeeds exactly when the visibility is allowed and both writes succeed; there is no
      check on the text (empty text is accepted) and none on whether `id` is already taken. */
  lemma CreateSucceedsIff(dir: string, files: map<string, seq<byte>>, pastes: map<string, Paste>,
                          form: Form, id: string, now: Time, write: WriteResult, putFails: bool)
    ensures var c := CreateSpec(dir, files, pastes, form, id, now, write, putFails);
      && (c.resp.Redirect? <==> AllowedVisibility(form.visibility) && write.Written? && !putFails)
      && (!c.resp.Redirect? ==> c.resp == ServerError)
  {
  }

  /** A disallowed visibility is a server error that touches neither store. */
  lemma CreateRejectsVisibility(dir: string, files: map<string, seq<byte>>, pastes: map<string, Paste>,
                                form: Form, id: string, now: Time, write: WriteResult, putFails: bool)
    requires !AllowedVisibility(form.visibility)
    ensures CreateSpec(dir, files, pastes, form, id, now, write, putFails) == CreateResult(ServerError, files, pastes)
  {
  }

  /** A successful create redirects to "/" + id and stores, under `id`, a record of the text's
      byte length, the given title and visibility, no expiry and created == updated == now,
      together with the text itself; whatever was stored under `id` before is replaced. */
  lemma CreateStores(dir: string, files: map<string, seq<byte>>, pastes: map<string, Paste>,
                     form: Form, id: string, now: Time)
    requires AllowedVisibility(form.visibility)
    ensures var c := CreateSpec(dir, files, pastes, form, id, now, Written, false);
      && c.resp == Redirect("/" + id)
      && id in c.pastes && FileName(dir, id) in c.files
      && c.files[FileName(dir, id)] == form.text
      && c.pastes[id].id == id && c.pastes[id].title == form.title
      && c.pastes[id].size == |form.text| && c.pastes[id].visibility == form.visibility
      && c.pastes[id].expire == ZeroTime
      && c.pastes[id].created == now && c.pastes[id].updated == now
  {
  }

  /** Empty text is accepted and stored with size 0. */
  lemma CreateAcceptsEmptyText(dir: string, files: map<string, seq<byte>>, pastes: map<string, Paste>,
                               title: string, visibility: string, id: string, now: Time)
    requires AllowedVisibility(visibility)
    ensures var c := CreateSpec(dir, files, pastes, Form(title, [], visibility), id, now, Written, false);
      c.resp.Redirect? && c.pastes[id].size == 0 && c.files[FileName(dir, id)] == []
  {
  }

  /** The content file is written before the record: if the content write fails, the bucket is
      unchanged, the response is a server error, and the file, if any, holds a prefix of the text. */
  lemma CreateContentFirst(dir: string, files: map<string, seq<byte>>, pastes: map<string, Paste>,
                           form: Form, id: string, now: Time, write: WriteResult, putFails: bool)
    requires !write.Written?
    ensures var c := CreateSpec(dir, files, pastes, form, id, now, write, putFails);
      && c.resp == ServerError && c.pastes == pastes
      && (FileName(dir, id) in c.files && c.files != files ==> c.files[FileName(dir, id)] <= form.text)
  {
  }

  /** When the record write fails after the content write succeeded, the response is a server
      error but the content file stays behind. */
  lemma CreateLeavesOrphan(dir: string, files: map<string, seq<byte>>, pastes: map<string, Paste>,
                           form: Form, id: string, now: Time)
    requires AllowedVisibility(form.visibility)
    ensures var c := CreateSpec(dir, files, pastes, form, id, now, Written, true);
      c.resp == ServerError && c.pastes == pastes && c.files == files[FileName(dir, id) := form.text]
  {
  }

  /** Create changes nothing but the content file of `id` and the record of `id`. */
  lemma CreateFrame(dir: string, files: map<string, seq<byte>>, pastes: map<string, Paste>,
                    form: Form, id: string, now: Time, write: WriteResult, putFails: bool)
    ensures var c := CreateSpec(dir, files, pastes, form, id, now, write, putFails);
      && c.files.Keys <= files.Keys + {FileName(dir, id)}
      && c.pastes.Keys <= pastes.Keys + {id}
      && (forall k :: k in files && k != FileName(dir, id) ==> k in c.files && c.files[k] == files[k])
      && (forall k :: k in pastes && k != id ==> k in c.pastes && c.pastes[k] == pastes[k])
  {
  }

  /** Records are always stored under their own id. */
  lemma CreateKeepsKeyedById(dir: string, files: map<string, seq<byte>>, pastes: map<string, Paste>,
                             form: Form, id: string, now: Time, write: WriteResult, putFails: bool)
    requires KeyedById(pastes)
    ensures KeyedById(CreateSpec(dir, files, pastes, form, id, now, write, putFails).pastes)
  {
  }

  /** Every record has its content file. */
  ghost predicate RecordsHaveContent(dir: string, files: map<string, seq<byte>>, pastes: map<string, Paste>) {
    forall k :: k in pastes ==> FileName(dir, k) in files
  }

  /** Because the content is written first, create never leaves a record without its file,
      whatever fails. */
  lemma CreateKeepsRecordsWithContent(dir: string, files: map<string, seq<byte>>, pastes: map<string, Paste>,
                                      form: Form, id: string, now: Time, write: WriteResult, putFails: bool)
    requires RecordsHaveContent(dir, files, pastes)
    ensures var c := CreateSpec(dir, files, pastes, form, id, now, write, putFails);
      RecordsHaveContent(dir, c.files, c.pastes)
  {
  }

  /** Every record has its content file, and its size is that file's length. */
  ghost predicate SizesMatch(dir: string, files: map<string, seq<byte>>, pastes: map<string, Paste>) {
    forall k :: k in pastes ==> FileName(dir, k) in files && pastes[k].size == |files[FileName(dir, k)]|
  }

  /** With an id not yet in the bucket, create keeps every record's size equal to its file's
      length, whatever fails; the code itself never checks that the id is unused. */
  lemma {:induction false} CreateFreshKeepsSizes(dir: string, files: map<string, seq<byte>>, pastes: map<string, Paste>,
                                                 form: Form, id: string, now: Time, write: WriteResult, putFails: bool)
    requires SizesMatch(dir, files, pastes)
    requires id !in pastes
    ensures var c := CreateSpec(dir, files, pastes, form, id, now, write, putFails);
      SizesMatch(dir, c.files, c.pastes)
  {
    var c := CreateSpec(dir, files, pastes, form, id, now, write, putFails);
    forall k | k in c.pastes
      ensures FileName(dir, k) in c.files && c.pastes[k].size == |c.files[FileName(dir, k)]|
    {
      FileNameInjective(dir, k, id);
    }
  }

  /** With an id already in use whose record's size differs from the new text's length, a create
      whose record write fails still replaces that paste's text, so the stored size no longer
      matches. */
  lemma CollidingOrphanBreaksSizes(dir: string, files: map<string, seq<byte>>, pastes: map<string, Paste>,
                                   form: Form, id: string, now: Time)
    requires AllowedVisibility(form.visibility)
    requires id in pastes && pastes[id].size != |form.text|
    ensures var c := CreateSpec(dir, files, pastes, form, id, now, Written, true);
      !SizesMatch(dir, c.files, c.pastes)
  {
    var c := CreateSpec(dir, files, pastes, form, id, now, Written, true);
    assert c.files[FileName(dir, id)] == form.text;
  }

  // ---------------------------------------------------------------------------------------------
  // Show

  /** Which paste a show request is for and whether it asks for the raw text. */
  datatype ShowTarget = ShowTarget(id: string, raw: bool)

  /** `/TtysPe` is the page of paste TtysPe and `/TtysPe.txt` its raw text: a path is raw exactly
      when it ends in ".txt", and then names the paste with that one ".txt" removed. */
  function ParseShowPath(path: string): (t: ShowTarget)
    ensures t.raw <==> HasSuffix(path, RawSuffix)
    ensures t.raw ==> t.id + RawSuffix == path
    ensures !t.raw ==> t.id == path
  {
    var raw := HasSuffix(path, RawSuffix);
    ShowTarget(if raw then TrimSuffix(path, RawSuffix) else path, raw)
  }

  /** The raw path of a paste leads back to that paste. */
  lemma RawPathNamesPaste(id: string)
    ensures ParseShowPath(id + RawSuffix) == ShowTarget(id, true)
  {
    TrimAppended(id, RawSuffix);
  }

  /** The show handler: read the record (a read error is a server error, a missing key leaves the
      zero record), then require the content file (404 only when the stat says it does not exist;
      a missing name the stat does not report, through another error or a directory, goes on to
      a read that fails), then answer raw or with the page.
      The record's expiry is not consulted. */
  function ShowSpec(dir: string, files: map<string, seq<byte>>, pastes: map<string, Paste>,
                    path: string, viewFails: bool, statFails: bool, readFails: bool): Response
  {
    var t := ParseShowPath(path);
    if viewFails then ServerError
    else
      var paste := if t.id in pastes then pastes[t.id] else ZeroPaste;
      var name := FileName(dir, t.id);
      if name !in files && !statFails then NotFound
      else if readFails || name !in files then ServerError
      else if t.raw then Raw(PlainText, files[name])
      else Page(paste, files[name])
  }

  method Show(db: Bolt, disk: Disk, dir: string, path: string, viewFails: bool, statFails: bool, readFails: bool)
    returns (resp: Response)
    ensures resp == ShowSpec(dir, disk.files, db.pastes, path, viewFails, statFails, readFails)
  {
    var id := path;
    var raw := HasSuffix(id, RawSuffix);
    if raw {
      id := TrimSuffix(id, RawSuffix);
    }
    var ok, paste := db.Get(id, ZeroPaste, viewFails);
    if !ok {
      return ServerError;
    }
    var filename := FileName(dir, id);
    var missing := disk.NotExist(filename, statFails);
    if missing {
      return NotFound;
    }
    var text;
    ok, text := disk.ReadFile(filename, readFails);
    if !ok {
      return ServerError;
    }
    if raw {
      return Raw(PlainText, text);
    }
    return Page(paste, text);
  }

  /** The outcomes of show, in the order the handler checks them. */
  lemma ShowOutcomes(dir: string, files: map<string, seq<byte>>, pastes: map<string, Paste>,
                     path: string, viewFails: bool, statFails: bool, readFails: bool)
    ensures var r := ShowSpec(dir, files, pastes, path, viewFails, statFails, readFails);
      var t := ParseShowPath(path);
      var name := FileName(dir, t.id);
      && (viewFails ==> r == ServerError)
      && (r == NotFound <==> !viewFails && name !in files && !statFails)
      && (!viewFails && name !in files && statFails ==> r == ServerError)
      && (r.Raw? <==> !viewFails && name in files && !readFails && HasSuffix(path, RawSuffix))
      && (r.Page? <==> !viewFails && name in files && !readFails && !HasSuffix(path, RawSuffix))
      && (r.Raw? ==> r.contentType == PlainText && r.body == files[name])
      && (r.Page? ==> r.text == files[name] && r.paste == (if t.id in pastes then pastes[t.id] else ZeroPaste))
      && (r.ServerError? || r.NotFound? || r.Raw? || r.Page?)
  {
  }

  /** The raw text does not depend on the bucket at all (only on whether it can be read). */
  lemma ShowRawIgnoresRecords(dir: string, files: map<string, seq<byte>>, pastes1: map<string, Paste>,
                              pastes2: map<string, Paste>, path: string, viewFails: bool, statFails: bool,
                              readFails: bool)
    requires HasSuffix(path, RawSuffix)
    ensures ShowSpec(dir, files, pastes1, path, viewFails, statFails, readFails)
         == ShowSpec(dir, files, pastes2, path, viewFails, statFails, readFails)
  {
  }

  /** A paste whose content file does not exist is not found, on either path, unless the stat
      does not report not-exist (another stat error, or a directory such as the content
      directory named by the raw path "/.txt"), which lets the handler through to a failing read. */
  lemma ShowNeverCreated(dir: string, files: map<string, seq<byte>>, pastes: map<string, Paste>, id: string,
                         statFails: bool, readFails: bool)
    requires FileName(dir, id) !in files
    ensures ShowSpec(dir, files, pastes, id + RawSuffix, false, statFails, readFails)
         == if statFails then ServerError else NotFound
    ensures !HasSuffix(id, RawSuffix) ==>
      ShowSpec(dir, files, pastes, id, false, statFails, readFails) == if statFails then ServerError else NotFound
  {
    RawPathNamesPaste(id);
  }

  /** Show serves a record as stored, whatever its expiry. */
  lemma ShowIgnoresExpiry(dir: string, files: map<string, seq<byte>>, pastes: map<string, Paste>,
                          id: string, expire: Time)
    requires id in pastes && FileName(dir, id) in files && !HasSuffix(id, RawSuffix)
    ensures var p := pastes[id].(expire := expire);
      ShowSpec(dir, files, pastes[id := p], id, false, false, false) == Page(p, files[FileName(dir, id)])
  {
  }

  // ---------------------------------------------------------------------------------------------
  // Download

  /** The download handler: only the content file is consulted, never the bucket. */
  function DownloadSpec(dir: string, files: map<string, seq<byte>>, id: string, statFails: bool, readFails: bool)
    : Response
  {
    var name := FileName(dir, id);
    if name !in files && !statFails then NotFound
    else if readFails || name !in files then ServerError
    else Attachment(PlainText, Disposition(id), files[name])
  }

  method Download(disk: Disk, dir: string, id: string, statFails: bool, readFails: bool) returns (resp: Response)
    ensures resp == DownloadSpec(dir, disk.files, id, statFails, readFails)
  {
    var filename := FileName(dir, id);
    var missing := disk.NotExist(filename, statFails);
    if missing {
      return NotFound;
    }
    var ok, text := disk.ReadFile(filename, readFails);
    if !ok {
      return ServerError;
    }
    return Attachment(PlainText, Disposition(id), text);
  }

  /** Download answers 404 exactly for a file the stat reports as missing, a server error when the
      stat does not report a missing file (another error, a directory) or the read fails, and
      otherwise hands out the file's bytes verbatim as an attachment named id + ".txt", which is
      also the paste's raw path. */
  lemma DownloadOutcomes(dir: string, files: map<string, seq<byte>>, id: string, statFails: bool, readFails: bool)
    ensures var r := DownloadSpec(dir, files, id, statFails, readFails);
      && (r == NotFound <==> FileName(dir, id) !in files && !statFails)
      && (FileName(dir, id) !in files && statFails ==> r == ServerError)
      && (FileName(dir, id) in files && readFails ==> r == ServerError)
      && (r.Attachment? <==> FileName(dir, id) in files && !readFails)
      && (r.Attachment? ==> r.body == files[FileName(dir, id)] && r.contentType == PlainText)
      && (r.Attachment? ==> r.disposition == "attachment; filename=" + id + RawSuffix)
      && (r.Attachment? ==> ParseShowPath(id + RawSuffix) == ShowTarget(id, true))
      && (r.NotFound? || r.ServerError? || r.Attachment?)
  {
    RawPathNamesPaste(id);
  }

  // ---------------------------------------------------------------------------------------------
  // Round trips

  /** After a successful create, following the redirect shows the page with the new record and the
      full text, the raw path gives the text verbatim, and the download gives it as id + ".txt". */
  lemma CreateThenRead(dir: string, files: map<string, seq<byte>>, pastes: map<string, Paste>,
                       form: Form, id: string, now: Time)
    requires AllowedVisibility(form.visibility)
    requires !HasSuffix(id, RawSuffix)
    ensures var c := CreateSpec(dir, files, pastes, form, id, now, Written, false);
      && c.resp.Redirect? && c.resp.location[..1] == "/"
      && ShowSpec(dir, c.files, c.pastes, c.resp.location[1..], false, false, false)
         == Page(Paste(id, form.title, |form.text|, form.visibility, ZeroTime, now, now), form.text)
      && ShowSpec(dir, c.files, c.pastes, id + RawSuffix, false, false, false) == Raw(PlainText, form.text)
      && DownloadSpec(dir, c.files, id, false, false) == Attachment(PlainText, Disposition(id), form.text)
  {
    var c := CreateSpec(dir, files, pastes, form, id, now, Written, false);
    assert c.resp.location[1..] == id;
    RawPathNamesPaste(id);
  }

  /** After a create whose record write failed, an id that had no record shows the zero record
      `Paste{}` together with the orphaned text, and its raw path serves the text. */
  lemma OrphanShowsZeroRecord(dir: string, files: map<string, seq<byte>>, pastes: map<string, Paste>,
                              form: Form, id: string, now: Time)
    requires AllowedVisibility(form.visibility)
    requires id !in pastes && !HasSuffix(id, RawSuffix)
    ensures var c := CreateSpec(dir, files, pastes, form, id, now, Written, true);
      && c.resp == ServerError
      && ShowSpec(dir, c.files, c.pastes, id, false, false, false) == Page(ZeroPaste, form.text)
      && ShowSpec(dir, c.files, c.pastes, id + RawSuffix, false, false, false) == Raw(PlainText, form.text)
  {
    RawPathNamesPaste(id);
  }
}
