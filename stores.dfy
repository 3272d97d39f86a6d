/** The two stores the handlers sit on: the bolt database with its one bucket "paste",
    and the filesystem that holds one content file per paste. Failures of the underlying
    libraries are inputs, since their causes (disk full, permissions, decoding) are not modelled. */
module Stores {
  import opened PasteTypes

  /** The bolt database; only the bucket "paste" exists (id -> record). */
  class Bolt {
    var pastes: map<string, Paste>

    /** `db.Update` around `rod.PutJson`: the transaction commits the record under `key`,
        or, when it fails, rolls back and leaves the bucket as it was. */
    method Put(key: string, p: Paste, fails: bool) returns (ok: bool)
      modifies this
      ensures ok == !fails
      ensures pastes == if ok then old(pastes)[key := p] else old(pastes)
    {
      if fails {
        ok := false;
      } else {
        pastes := pastes[key := p];
        ok := true;
      }
    }

    /** `db.View` around `rod.GetJson(tx, "paste", key, &into)`: a read error is reported;
        otherwise the stored record replaces `into`, and a missing key leaves `into` as it was. */
    method Get(key: string, into: Paste, fails: bool) returns (ok: bool, p: Paste)
      ensures ok == !fails
      ensures ok && key in pastes ==> p == pastes[key]
      ensures key !in pastes || !ok ==> p == into
    {
      ok := !fails;
      p := into;
      if ok && key in pastes {
        p := pastes[key];
      }
    }
  }

  /** How `ioutil.WriteFile` ends: it writes everything, fails to open the file (nothing is created),
      or fails after creating and truncating the file with the first `n` bytes written. */
  datatype WriteResult = Written | OpenFailed | WriteFailedAfter(n: nat)

  /** The first `n` bytes of `data`, or all of them when there are fewer. */
  function Prefix(data: seq<byte>, n: nat): (r: seq<byte>)
    ensures |r| <= |data| && r <= data
    ensures n <= |data| ==> |r| == n
  {
    if n <= |data| then data[..n] else data
  }

  /** The filesystem, as a map from file name to contents. */
  class Disk {
    var files: map<string, seq<byte>>

    /** `ioutil.WriteFile(name, data, 0755)`. */
    method WriteFile(name: string, data: seq<byte>, outcome: WriteResult) returns (ok: bool)
      modifies this
      ensures ok == outcome.Written?
      ensures files == match outcome
        case Written => old(files)[name := data]
        case OpenFailed => old(files)
        case WriteFailedAfter(n) => old(files)[name := Prefix(data, n)]
    {
      ok := outcome.Written?;
      match outcome
      case Written =>
        files := files[name := data];
      case OpenFailed =>
      case WriteFailedAfter(n) =>
        files := files[name := Prefix(data, n)];
    }

    /** `os.Stat(name)` followed by `os.IsNotExist(err)`: true when no file of that name exists,
        unless `statFails`: the stat does not report not-exist for a name that holds no file,
        either because it fails in another way (a name too long, a permission denied) or because
        the name is a directory (the content directory itself, `dir + "/"`, for the raw path
        "/.txt"). The handler then goes on as if the file were there, and its read fails. */
    method NotExist(name: string, statFails: bool) returns (missing: bool)
      ensures missing <==> name !in files && !statFails
    {
      missing := name !in files && !statFails;
    }

    /** `os.Open` with `io.Copy`, or `ioutil.ReadFile`: the whole contents of an existing file,
        unless reading fails. */
    method ReadFile(name: string, fails: bool) returns (ok: bool, data: seq<byte>)
      ensures ok <==> !fails && name in files
      ensures ok ==> data == files[name]
    {
      ok := !fails && name in files;
      data := if ok then files[name] else [];
    }
  }
}
