/** The backup of the bolt database (src/cmd/paste/dump.go): `dump` writes a snapshot of the
    store to a file named after the current local time, and `dumpEvery` does so on every tick. */
module Backup {
  import opened PasteTypes
  import opened Stores

  // ---------------------------------------------------------------------------------------------
  // The "20060102-150405" layout

  type Month = m: int | 1 <= m <= 12 witness 1
  type Day = d: int | 1 <= d <= 31 witness 1
  type Hour = h: int | 0 <= h < 24
  type Minute = m: int | 0 <= m < 60
  type Second = s: int | 0 <= s < 60

  /** The calendar fields of a local time, to second precision. */
  datatype DateTime = DateTime(year: int, month: Month, day: Day, hour: Hour, minute: Minute, second: Second)

  predicate IsDigit(c: char) {
    '0' <= c <= '9'
  }

  function DigitChar(d: nat): (c: char)
    requires d < 10
    ensures IsDigit(c)
  {
    ('0' as int + d) as char
  }

  /** Decimal digits of `n`, left-padded with zeros to at least `width` characters, as Go's
      time formatting writes a field. */
  function Decimal(n: nat, width: nat): (r: string)
    decreases n + width
    ensures |r| >= 1 && |r| >= width
  {
    if n < 10 && width <= 1 then [DigitChar(n)]
    else Decimal(n / 10, if width == 0 then 0 else width - 1) + [DigitChar(n % 10)]
  }

  /** A field is written with decimal digits only. */
  lemma {:induction false} DecimalDigits(n: nat, width: nat)
    decreases n + width
    ensures forall i :: 0 <= i < |Decimal(n, width)| ==> IsDigit(Decimal(n, width)[i])
  {
    if !(n < 10 && width <= 1) {
      DecimalDigits(n / 10, if width == 0 then 0 else width - 1);
    }
  }

  /** The number a string of decimal digits denotes. */
  function Value(s: string): nat {
    if s == [] then 0
    else Value(s[..|s| - 1]) * 10 + (if IsDigit(s[|s| - 1]) then s[|s| - 1] as int - '0' as int else 0)
  }

  /** Reading back the digits gives the number. */
  lemma {:induction false} DecimalValue(n: nat, width: nat)
    decreases n + width
    ensures Value(Decimal(n, width)) == n
  {
    var r := Decimal(n, width);
    if n < 10 && width <= 1 {
      assert r[..0] == [];
    } else {
      var w := if width == 0 then 0 else width - 1;
      DecimalValue(n / 10, w);
      assert r[..|r| - 1] == Decimal(n / 10, w);
    }
  }

  /** A field below 10^width takes exactly `width` characters. */
  lemma {:induction false} DecimalWidth(n: nat, width: nat)
    requires 1 <= width && n < Pow10(width)
    decreases width
    ensures |Decimal(n, width)| == width
  {
    if !(n < 10 && width <= 1) {
      DecimalWidth(n / 10, width - 1);
    }
  }

  function Pow10(k: nat): (r: nat)
    ensures r >= 1
  {
    if k == 0 then 1 else 10 * Pow10(k - 1)
  }

  /** The "2006" field: at least four digits, with a leading '-' before a negative year. */
  function YearText(year: int): string {
    if year < 0 then "-" + Decimal(-year, 4) else Decimal(year, 4)
  }

  /** The "0102-150405" part of the layout: month, day, '-', hour, minute, second. */
  function Clock(t: DateTime): string {
    Decimal(t.month, 2) + Decimal(t.day, 2) + "-" + Decimal(t.hour, 2) + Decimal(t.minute, 2) + Decimal(t.second, 2)
  }

  /** `Format("20060102-150405")`. */
  function Stamp(t: DateTime): string {
    YearText(t.year) + Clock(t)
  }

  function DigitValue(c: char): nat {
    if IsDigit(c) then c as int - '0' as int else 0
  }

  /** The two-digit field at `i`. */
  function Pair(c: string, i: nat): nat
    requires i + 1 < |c|
  {
    10 * DigitValue(c[i]) + DigitValue(c[i + 1])
  }

  datatype Option<T> = None | Some(value: T)

  /** Reads the fields back from a stamp: the last eleven characters are "MMDD-hhmmss" and the
      rest is the year. */
  function ParseStamp(s: string): Option<DateTime> {
    if |s| < 15 then None
    else
      var ys, c := s[..|s| - 11], s[|s| - 11..];
      var year: int := if ys[0] == '-' then -(Value(ys[1..]) as int) else Value(ys);
      var month, day, hour, minute, second := Pair(c, 0), Pair(c, 2), Pair(c, 5), Pair(c, 7), Pair(c, 9);
      if 1 <= month <= 12 && 1 <= day <= 31 && hour < 24 && minute < 60 && second < 60
      then Some(DateTime(year, month, day, hour, minute, second))
      else None
  }

  /** A negative year is written as '-' and the digits of its magnitude. */
  lemma {:induction false} NegativeYearText(year: int)
    requires year < 0
    ensures |YearText(year)| >= 4
    ensures YearText(year)[0] == '-' && Value(YearText(year)[1..]) == -year
  {
    var d := Decimal(-year, 4);
    DecimalValue(-year, 4);
    assert YearText(year) == "-" + d;
    assert ("-" + d)[1..] == d;
  }

  /** Any other year is written as its digits alone. */
  lemma {:induction false} NonNegativeYearText(year: int)
    requires year >= 0
    ensures |YearText(year)| >= 4
    ensures YearText(year)[0] != '-' && Value(YearText(year)) == year
  {
    var d := Decimal(year, 4);
    DecimalValue(year, 4);
    DecimalDigits(year, 4);
    assert YearText(year) == d;
    assert IsDigit(d[0]);
  }

  /** A field below 100 is its tens digit and its units digit. */
  lemma TwoDigits(n: nat)
    requires n < 100
    ensures Decimal(n, 2) == [DigitChar(n / 10), DigitChar(n % 10)]
  {
    assert Decimal(n / 10, 1) == [DigitChar(n / 10)];
  }

  /** The clock part is eleven characters, and its two-digit fields read back as the time's fields. */
  lemma ClockFields(t: DateTime)
    ensures var c := Clock(t);
      |c| == 11 && c[4] == '-'
      && Pair(c, 0) == t.month && Pair(c, 2) == t.day
      && Pair(c, 5) == t.hour && Pair(c, 7) == t.minute && Pair(c, 9) == t.second
  {
    TwoDigits(t.month); TwoDigits(t.day); TwoDigits(t.hour); TwoDigits(t.minute); TwoDigits(t.second);
    assert Clock(t) == [DigitChar(t.month / 10), DigitChar(t.month % 10), DigitChar(t.day / 10), DigitChar(t.day % 10), '-',
                        DigitChar(t.hour / 10), DigitChar(t.hour % 10), DigitChar(t.minute / 10), DigitChar(t.minute % 10),
                        DigitChar(t.second / 10), DigitChar(t.second % 10)];
  }

  /** Every stamp reads back as the time it was made from. */
  lemma StampRoundTrip(t: DateTime)
    ensures ParseStamp(Stamp(t)) == Some(t)
  {
    var y, c := YearText(t.year), Clock(t);
    ClockFields(t);
    if t.year < 0 { NegativeYearText(t.year); } else { NonNegativeYearText(t.year); }
    var s := Stamp(t);
    assert s[..|s| - 11] == y;
    assert s[|s| - 11..] == c;
  }

  /** Two times that differ to the second give different stamps. */
  lemma StampInjective(a: DateTime, b: DateTime)
    ensures Stamp(a) == Stamp(b) <==> a == b
  {
    StampRoundTrip(a);
    StampRoundTrip(b);
  }

  /** For years 0 to 9999 a stamp is an 8-digit date, '-', and a 6-digit time. */
  lemma StampShape(t: DateTime)
    requires 0 <= t.year <= 9999
    ensures var s := Stamp(t);
      |s| == 15 && s[8] == '-'
      && (forall i :: 0 <= i < 15 && i != 8 ==> IsDigit(s[i]))
  {
    DecimalWidth(t.year, 4);
    DecimalDigits(t.year, 4);
    ClockFields(t);
    TwoDigits(t.month); TwoDigits(t.day); TwoDigits(t.hour); TwoDigits(t.minute); TwoDigits(t.second);
    var y, c := Decimal(t.year, 4), Clock(t);
    assert forall i :: 0 <= i < 11 && i != 4 ==> IsDigit(c[i]);
    assert Stamp(t) == y + c;
  }

  /** `path.Join(dir, name)` for a clean directory name and a name that is one plain element:
      the name alone in the current directory, right under the root, or under `dir`. */
  function Join(dir: string, name: string): string {
    DirPrefix(dir) + name
  }

  /** What `path.Join` puts before a plain name: nothing in the current directory, a single '/'
      at the root, otherwise the directory and a '/'. */
  function DirPrefix(dir: string): string {
    if dir == "" || dir == "." then "" else if dir == "/" then "/" else dir + "/"
  }

  /** The name of the backup taken at `t`. */
  function BackupName(dir: string, t: DateTime): string {
    Join(dir, Stamp(t) + ".db.gz")
  }

  /** One of the example file names, taken at 2017-03-29 09:59:36. */
  lemma BackupNameExample()
    ensures BackupName("", DateTime(2017, 3, 29, 9, 59, 36)) == "20170329-095936.db.gz"
  {
    ExampleStamp();
    JoinEmpty(Stamp(DateTime(2017, 3, 29, 9, 59, 36)) + ".db.gz");
    assert "20170329-095936" + ".db.gz" == "20170329-095936.db.gz";
  }

  lemma JoinEmpty(name: string)
    ensures Join("", name) == name
  {
    assert DirPrefix("") == "";
  }

  lemma ExampleStamp()
    ensures Stamp(DateTime(2017, 3, 29, 9, 59, 36)) == "20170329-095936"
  {
    ExampleYear();
    ExampleClock();
    assert "2017" + "0329-095936" == "20170329-095936";
  }

  lemma ExampleYear()
    ensures YearText(2017) == "2017"
  {
    assert Decimal(20, 2) == "20";
    assert Decimal(201, 3) == "201";
  }

  lemma ExampleClock()
    ensures Clock(DateTime(2017, 3, 29, 9, 59, 36)) == "0329-095936"
  {
    TwoDigits(3); TwoDigits(29); TwoDigits(9); TwoDigits(59); TwoDigits(36);
  }

  /** Backups taken at different local date-times (to the second) go to different files. */
  lemma BackupNameInjective(dir: string, a: DateTime, b: DateTime)
    ensures BackupName(dir, a) == BackupName(dir, b) <==> a == b
  {
    if BackupName(dir, a) == BackupName(dir, b) {
      var k := |DirPrefix(dir)|;
      var x, y := Stamp(a) + ".db.gz", Stamp(b) + ".db.gz";
      assert BackupName(dir, a)[k..] == x;
      assert BackupName(dir, b)[k..] == y;
      assert x[..|x| - 6] == Stamp(a);
      assert y[..|y| - 6] == Stamp(b);
      StampInjective(a, b);
    }
  }

  // ---------------------------------------------------------------------------------------------
  // dump and dumpEvery

  /** A backup file: a complete snapshot of the bucket, or one whose writing failed part way.
      The gzip encoding of the snapshot is not modelled. */
  datatype BackupFile = Snapshot(pastes: map<string, Paste>) | Incomplete

  /** The backup directory. */
  class BackupDir {
    var files: map<string, BackupFile>
  }

  /** One tick of the ticker: the local time it fires at and how opening the file, writing the
      snapshot (`tx.WriteTo`) and the deferred closes go. `closeFails` is a failure of the deferred
      `zw.Close()` or `f.Close()`, which write the last compressed block and the gzip trailer;
      their errors are discarded, so the file is left incomplete while `dump` returns nil. */
  datatype Tick = Tick(at: DateTime, openFails: bool, writeFails: bool, closeFails: bool)

  datatype Error = OpenError | SnapshotError

  /** The backup directory after one dump: untouched when the file cannot be opened, otherwise the
      file named after the tick holds the snapshot, or an incomplete one if writing or closing failed. */
  function Dumped(backups: map<string, BackupFile>, pastes: map<string, Paste>, dir: string, tick: Tick)
    : (r: map<string, BackupFile>)
    ensures r.Keys <= backups.Keys + {BackupName(dir, tick.at)}
    ensures forall k :: k in backups && k != BackupName(dir, tick.at) ==> k in r && r[k] == backups[k]
  {
    if tick.openFails then backups
    else backups[BackupName(dir, tick.at) := if tick.writeFails || tick.closeFails then Incomplete else Snapshot(pastes)]
  }

  /** The outcomes of one dump. */
  lemma DumpOutcomes(backups: map<string, BackupFile>, pastes: map<string, Paste>, dir: string, tick: Tick)
    ensures tick.openFails ==> Dumped(backups, pastes, dir, tick) == backups
    ensures !tick.openFails ==> var r := Dumped(backups, pastes, dir, tick);
      BackupName(dir, tick.at) in r
      && (r[BackupName(dir, tick.at)] == Snapshot(pastes) <==> !tick.writeFails && !tick.closeFails)
  {
  }

  /** `dump(db, dir)`: name the file after the time, open it (creating it), write the snapshot
      inside a read-only `View`, so the bucket is never changed, and close the file on the way out.
      Only the open error and the snapshot error are returned: a failed close is not reported. */
  method Dump(db: Bolt, out: BackupDir, dir: string, tick: Tick) returns (err: Option<Error>)
    modifies out
    ensures out.files == Dumped(old(out.files), db.pastes, dir, tick)
    ensures err == if tick.openFails then Some(OpenError) else if tick.writeFails then Some(SnapshotError) else None
    ensures db.pastes == old(db.pastes)
  {
    var filename := BackupName(dir, tick.at);
    if tick.openFails {
      return Some(OpenError);
    }
    out.files := out.files[filename := Incomplete];
    var snapshot := db.pastes;
    if tick.writeFails {
      return Some(SnapshotError);
    }
    out.files := out.files[filename := Snapshot(snapshot)];
    if tick.closeFails {
      out.files := out.files[filename := Incomplete];
    }
    return None;
  }

  /** The backup directory after a run of ticks, each applying `Dumped` in turn. */
  function AfterTicks(backups: map<string, BackupFile>, pastes: map<string, Paste>, dir: string, ticks: seq<Tick>)
    : map<string, BackupFile>
  {
    if ticks == [] then backups
    else Dumped(AfterTicks(backups, pastes, dir, ticks[..|ticks| - 1]), pastes, dir, ticks[|ticks| - 1])
  }

  /** `dumpEvery`: on each tick, dump and ignore the error. */
  method DumpEvery(db: Bolt, out: BackupDir, dir: string, ticks: seq<Tick>)
    modifies out
    ensures out.files == AfterTicks(old(out.files), db.pastes, dir, ticks)
  {
    for i := 0 to |ticks|
      invariant out.files == AfterTicks(old(out.files), db.pastes, dir, ticks[..i])
    {
      var ignored := Dump(db, out, dir, ticks[i]);
      assert ticks[..i + 1][..i] == ticks[..i];
    }
    assert ticks[..|ticks|] == ticks;
  }

  /** A failed dump does not stop later ones: a tick whose dump completes (open, write and close all
      succeed) leaves its snapshot in place, whatever the ticks before it did, unless a later tick
      fires at the same local date-time. */
  lemma {:induction false} TickRecorded(backups: map<string, BackupFile>, pastes: map<string, Paste>, dir: string,
                                        ticks: seq<Tick>, i: nat)
    requires i < |ticks| && !ticks[i].openFails && !ticks[i].writeFails && !ticks[i].closeFails
    requires forall j :: i < j < |ticks| ==> ticks[j].at != ticks[i].at
    ensures var r := AfterTicks(backups, pastes, dir, ticks);
      BackupName(dir, ticks[i].at) in r && r[BackupName(dir, ticks[i].at)] == Snapshot(pastes)
  {
    var last := |ticks| - 1;
    var front := ticks[..last];
    var before := AfterTicks(backups, pastes, dir, front);
    if i < last {
      assert ticks[i] == front[i];
      forall j | i < j < |front|
        ensures front[j].at != front[i].at
      {
        assert front[j] == ticks[j];
      }
      TickRecorded(backups, pastes, dir, front, i);
      KeptByLaterDump(before, pastes, dir, ticks[last], ticks[i].at);
    } else {
      DumpOutcomes(before, pastes, dir, ticks[last]);
    }
  }

  /** A dump at another local date-time keeps the backup taken at `t` as it was. */
  lemma KeptByLaterDump(backups: map<string, BackupFile>, pastes: map<string, Paste>, dir: string, tick: Tick, t: DateTime)
    requires BackupName(dir, t) in backups && tick.at != t
    ensures var r := Dumped(backups, pastes, dir, tick);
      BackupName(dir, t) in r && r[BackupName(dir, t)] == backups[BackupName(dir, t)]
  {
    BackupNameInjective(dir, tick.at, t);
  }

  /** A file no tick names is left as it was. */
  lemma {:induction false} AfterTicksKeeps(backups: map<string, BackupFile>, pastes: map<string, Paste>, dir: string,
                                           ticks: seq<Tick>, name: string)
    requires name in backups
    requires forall j :: 0 <= j < |ticks| ==> BackupName(dir, ticks[j].at) != name
    ensures var r := AfterTicks(backups, pastes, dir, ticks);
      name in r && r[name] == backups[name]
  {
    if ticks != [] {
      AfterTicksKeeps(backups, pastes, dir, ticks[..|ticks| - 1], name);
    }
  }
}
