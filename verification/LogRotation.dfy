/**
 The file logger and its rotation (logs/file.go) over a disk of named files.

 A name stands for an inode, so that a handle stays with its file when the file is renamed.
 Everything happens on one date, so the stamp in the archive names is fixed.
 */
module LogRotation {
  import opened Wrappers
  import opened Text

  // ---------------------------------------------------------------- the disk

  type Inode = nat

  datatype Disk = Disk(dir: map<string, Inode>, data: seq<Bytes>)

  /** Every name has an inode of its own. */
  ghost predicate Sound(d: Disk)
  {
    (forall n :: n in d.dir ==> d.dir[n] < |d.data|) &&
    forall m, n :: m in d.dir && n in d.dir && m != n ==> d.dir[m] != d.dir[n]
  }

  /** What is stored under a name; nothing for a name that does not exist. */
  function Content(d: Disk, name: string): Bytes
  {
    if name in d.dir && d.dir[name] < |d.data| then d.data[d.dir[name]] else ""
  }

  /** Opening to append, creating the file if need be. */
  function Created(d: Disk, name: string): Disk
  {
    if name in d.dir then d else Disk(d.dir[name := |d.data|], d.data + [""])
  }

  /** `os.Rename` replaces whatever the new name stood for. */
  function Renamed(d: Disk, from: string, to: string): Disk
    requires from in d.dir
  {
    Disk((d.dir - {from})[to := d.dir[from]], d.data)
  }

  function Appended(d: Disk, i: Inode, bytes: Bytes): Disk
  {
    if i < |d.data| then d.(data := d.data[i := d.data[i] + bytes]) else d
  }

  // ---------------------------------------------------------------- the logger's steps

  datatype Config = Config(nameOnly: string, suffix: string, stamp: string, maxLines: int, maxSize: int, maxFiles: int,
                           daily: bool)
  {
    predicate Limited()
    {
      maxLines > 0 || maxSize > 0
    }

    function Live(): string
    {
      nameOnly + suffix
    }

    function Archive(num: nat): string
    {
      nameOnly + ("." + stamp + ".") + Pad3(num) + suffix
    }
  }

  /** The disk, the open handle if any, and `MaxFilesCurFiles`. */
  datatype State = State(disk: Disk, handle: Option<Inode>, cur: nat)

  /** Which system calls of a rotation succeed. */
  datatype Calls = Calls(perm: bool, rename: bool, create: bool)

  /** Whether the size and the lines of a file that was opened can be counted. */
  datatype Counts = Counts(stat: bool, lines: bool)

  datatype Event = Check(create: bool) | Write(bytes: Bytes, ok: bool) | Rotate(calls: Calls)

  function StartLogger(cfg: Config, s: State, create: bool): State
  {
    if !create then s
    else
      var d := Created(s.disk, cfg.Live());
      s.(disk := d, handle := Some(d.dir[cfg.Live()]))
  }

  /** The least number from `num` on whose archive does not exist. */
  function LeastFree(cfg: Config, d: Disk, num: nat): (r: Option<nat>)
    ensures r.Some? ==> num <= r.value <= cfg.maxFiles && cfg.Archive(r.value) !in d.dir
    ensures forall n :: num <= n < (if r.Some? then r.value else cfg.maxFiles + 1) ==> cfg.Archive(n) in d.dir
    decreases cfg.maxFiles + 1 - num
  {
    if num > cfg.maxFiles then None
    else if cfg.Archive(num) !in d.dir then Some(num)
    else LeastFree(cfg, d, num + 1)
  }

  /** The number the next archive gets. */
  function Target(cfg: Config, s: State): Option<nat>
  {
    if cfg.Limited() then LeastFree(cfg, s.disk, s.cur + 1)
    else if cfg.Archive(s.cur + 1) in s.disk.dir then None else Some(s.cur + 1)
  }

  function DoRotate(cfg: Config, s: State, calls: Calls): State
  {
    if !calls.perm then s
    else if cfg.Live() !in s.disk.dir then StartLogger(cfg, s, calls.create)
    else
      var s1 := if cfg.Limited() then s else s.(cur := s.cur + 1);
      match Target(cfg, s)
      case None => s1
      case Some(num) =>
        var d := if calls.rename then Renamed(s.disk, cfg.Live(), cfg.Archive(num)) else s.disk;
        StartLogger(cfg, s1.(disk := d, handle := None), calls.create)
  }

  function WriteBytes(s: State, bytes: Bytes, ok: bool): State
  {
    if ok && s.handle.Some? then s.(disk := Appended(s.disk, s.handle.value, bytes)) else s
  }

  function Next(cfg: Config, s: State, e: Event): State
  {
    match e
    case Check(create) => StartLogger(cfg, s, create)
    case Write(bytes, ok) => WriteBytes(s, bytes, ok)
    case Rotate(calls) => DoRotate(cfg, s, calls)
  }

  /** The bytes an event adds to the log: those of a write that succeeds. */
  function Gained(s: State, e: Event): Bytes
  {
    if e.Write? && e.ok && s.handle.Some? then e.bytes else ""
  }

  // ---------------------------------------------------------------- names

  lemma ArchiveInjective(cfg: Config, m: nat, n: nat)
    requires cfg.Archive(m) == cfg.Archive(n)
    ensures m == n
  {
    var p := cfg.nameOnly + ("." + cfg.stamp + ".");
    var a := cfg.Archive(m);
    assert a == p + Pad3(m) + cfg.suffix == p + Pad3(n) + cfg.suffix;
    assert a[|p|..|a| - |cfg.suffix|] == Pad3(m);
    assert a[|p|..|a| - |cfg.suffix|] == Pad3(n);
    Pad3Injective(m, n);
  }

  lemma ArchiveIsNotLive(cfg: Config, n: nat)
    ensures cfg.Archive(n) != cfg.Live()
  {
    assert |cfg.Archive(n)| > |cfg.Live()|;
  }

  // ---------------------------------------------------------------- single steps

  /** The log as a whole: the archives up to a number, in order, and the live file. */
  function Archives(cfg: Config, d: Disk, k: nat): Bytes
  {
    if k == 0 then "" else Archives(cfg, d, k - 1) + Content(d, cfg.Archive(k))
  }

  function Whole(cfg: Config, d: Disk, k: nat): Bytes
  {
    Archives(cfg, d, k) + Content(d, cfg.Live())
  }

  /** The archives end at `k`, with no gap before it when their number is limited. */
  ghost predicate Inv(cfg: Config, s: State, k: nat)
  {
    Sound(s.disk) && (s.handle.Some? ==> cfg.Live() in s.disk.dir && s.disk.dir[cfg.Live()] == s.handle.value) &&
    (forall n: nat :: n > k ==> cfg.Archive(n) !in s.disk.dir) &&
    if cfg.Limited() then s.cur <= k && forall n: nat :: s.cur < n <= k ==> cfg.Archive(n) in s.disk.dir else k <= s.cur
  }

  lemma {:induction false} SameArchives(cfg: Config, d: Disk, d': Disk, k: nat)
    requires forall n: nat :: 0 < n <= k ==> Content(d', cfg.Archive(n)) == Content(d, cfg.Archive(n))
    ensures Archives(cfg, d', k) == Archives(cfg, d, k)
  {
    if k > 0 {
      SameArchives(cfg, d, d', k - 1);
    }
  }

  lemma {:induction false} AbsentArchives(cfg: Config, d: Disk, k: nat, k': nat)
    requires k <= k' && forall n: nat :: k < n <= k' ==> cfg.Archive(n) !in d.dir
    ensures Archives(cfg, d, k') == Archives(cfg, d, k)
  {
    if k < k' {
      AbsentArchives(cfg, d, k, k' - 1);
    }
  }

  lemma CreatedKeeps(cfg: Config, d: Disk, name: string)
    requires Sound(d)
    ensures Sound(Created(d, name)) && name in Created(d, name).dir
    ensures forall n :: Content(Created(d, name), n) == Content(d, n)
    ensures forall n :: n in Created(d, name).dir <==> n in d.dir || n == name
  {
  }

  lemma RenamedKeeps(d: Disk, from: string, to: string)
    requires Sound(d) && from in d.dir && to !in d.dir
    ensures var r := Renamed(d, from, to);
            Sound(r) && (forall n :: n in r.dir <==> (n in d.dir || n == to) && n != from) &&
            forall n :: Content(r, n) == if n == to then Content(d, from) else if n == from then "" else Content(d, n)
  {
  }

  lemma AppendedKeeps(d: Disk, name: string, bytes: Bytes)
    requires Sound(d) && name in d.dir
    ensures var a := Appended(d, d.dir[name], bytes);
            Sound(a) && a.dir == d.dir &&
            forall n :: Content(a, n) == if n == name then Content(d, n) + bytes else Content(d, n)
  {
  }

  /** Restarting changes no content. */
  lemma StartKeeps(cfg: Config, s: State, create: bool, k: nat)
    requires Inv(cfg, s, k)
    ensures Inv(cfg, StartLogger(cfg, s, create), k)
    ensures forall n :: Content(StartLogger(cfg, s, create).disk, n) == Content(s.disk, n)
  {
    if create {
      CreatedKeeps(cfg, s.disk, cfg.Live());
      forall n: nat ensures cfg.Archive(n) != cfg.Live() {
        ArchiveIsNotLive(cfg, n);
      }
    }
  }

  /** The next archive comes after all the others. */
  lemma TargetIsNext(cfg: Config, s: State, k: nat)
    requires Inv(cfg, s, k)
    ensures Target(cfg, s).Some? <==> (cfg.maxLines <= 0 && cfg.maxSize <= 0) || k < cfg.maxFiles
    ensures Target(cfg, s).Some? ==>
              Target(cfg, s).value == if cfg.maxLines > 0 || cfg.maxSize > 0 then k + 1 else s.cur + 1
    ensures Target(cfg, s).Some? ==> cfg.Archive(Target(cfg, s).value) !in s.disk.dir
  {
    if cfg.Limited() {
      var r := Target(cfg, s);
      if r.Some? {
        assert r.value > k by { assert cfg.Archive(r.value) !in s.disk.dir; }
        assert r.value <= k + 1 by { assert cfg.Archive(k + 1) !in s.disk.dir; }
      } else {
        assert k >= cfg.maxFiles by { assert cfg.Archive(k + 1) !in s.disk.dir; }
      }
    }
  }

  lemma RenameKeeps(cfg: Config, s: State, num: nat, k: nat)
    requires Inv(cfg, s, k) && cfg.Live() in s.disk.dir && num > k && (cfg.Limited() ==> num == k + 1)
    ensures var s' := State(Renamed(s.disk, cfg.Live(), cfg.Archive(num)), None, if cfg.Limited() then s.cur else num);
            Inv(cfg, s', num) && Whole(cfg, s'.disk, num) == Whole(cfg, s.disk, k)
  {
    var d' := Renamed(s.disk, cfg.Live(), cfg.Archive(num));
    ArchiveIsNotLive(cfg, num);
    RenamedKeeps(s.disk, cfg.Live(), cfg.Archive(num));
    forall n: nat ensures cfg.Archive(n) != cfg.Live() && (cfg.Archive(n) == cfg.Archive(num) ==> n == num) {
      ArchiveIsNotLive(cfg, n);
      if cfg.Archive(n) == cfg.Archive(num) {
        ArchiveInjective(cfg, n, num);
      }
    }
    AbsentArchives(cfg, s.disk, k, num - 1);
    SameArchives(cfg, s.disk, d', num - 1);
    assert Whole(cfg, d', num) == (Archives(cfg, s.disk, k) + Content(s.disk, cfg.Live())) + "";
  }

  /** After a rotation the archives end one later, or where they did. */
  function Last(cfg: Config, s: State, e: Event, k: nat): nat
  {
    if e.Rotate? && e.calls.perm && e.calls.rename && cfg.Live() in s.disk.dir && Target(cfg, s).Some?
    then Target(cfg, s).value else k
  }

  lemma RotateKeeps(cfg: Config, s: State, calls: Calls, k: nat)
    requires Inv(cfg, s, k)
    ensures var k' := Last(cfg, s, Rotate(calls), k); var s' := DoRotate(cfg, s, calls);
            Inv(cfg, s', k') && Whole(cfg, s'.disk, k') == Whole(cfg, s.disk, k)
  {
    var s' := DoRotate(cfg, s, calls);
    if calls.perm && cfg.Live() !in s.disk.dir {
      StartWhole(cfg, s, calls.create, k);
    } else if calls.perm {
      TargetIsNext(cfg, s, k);
      var s1 := if cfg.Limited() then s else s.(cur := s.cur + 1);
      if Target(cfg, s).Some? {
        var num := Target(cfg, s).value;
        if calls.rename {
          RenameKeeps(cfg, s, num, k);
          StartWhole(cfg, State(Renamed(s.disk, cfg.Live(), cfg.Archive(num)), None, s1.cur), calls.create, num);
        } else {
          StartWhole(cfg, s1.(handle := None), calls.create, k);
        }
      }
    }
  }

  lemma StartWhole(cfg: Config, s: State, create: bool, k: nat)
    requires Inv(cfg, s, k)
    ensures Inv(cfg, StartLogger(cfg, s, create), k)
    ensures Whole(cfg, StartLogger(cfg, s, create).disk, k) == Whole(cfg, s.disk, k)
  {
    StartKeeps(cfg, s, create, k);
    SameArchives(cfg, s.disk, StartLogger(cfg, s, create).disk, k);
  }

  lemma WriteKeeps(cfg: Config, s: State, bytes: Bytes, ok: bool, k: nat)
    requires Inv(cfg, s, k)
    ensures Inv(cfg, WriteBytes(s, bytes, ok), k)
    ensures Whole(cfg, WriteBytes(s, bytes, ok).disk, k) == Whole(cfg, s.disk, k) + Gained(s, Write(bytes, ok))
  {
    if ok && s.handle.Some? {
      AppendedKeeps(s.disk, cfg.Live(), bytes);
      forall n: nat ensures cfg.Archive(n) != cfg.Live() {
        ArchiveIsNotLive(cfg, n);
      }
      SameArchives(cfg, s.disk, WriteBytes(s, bytes, ok).disk, k);
      Assoc(Archives(cfg, s.disk, k), Content(s.disk, cfg.Live()), bytes);
    } else {
      assert Whole(cfg, s.disk, k) + "" == Whole(cfg, s.disk, k);
    }
  }

  // ---------------------------------------------------------------- runs

  function Run(cfg: Config, s: State, events: seq<Event>): State
    decreases |events|
  {
    if events == [] then s else Run(cfg, Next(cfg, s, events[0]), events[1..])
  }

  /** All the bytes whose writes succeed in a run, in order. */
  function Stream(cfg: Config, s: State, events: seq<Event>): Bytes
    decreases |events|
  {
    if events == [] then "" else Gained(s, events[0]) + Stream(cfg, Next(cfg, s, events[0]), events[1..])
  }

  /**
   Over any run of writes and rotations, whichever calls fail, the archives in order followed by
   the live file are what they were at the start followed by everything written since.
   */
  lemma {:induction false} RunConserves(cfg: Config, s: State, events: seq<Event>, k: nat) returns (k': nat)
    requires Inv(cfg, s, k)
    ensures k' >= k && Inv(cfg, Run(cfg, s, events), k')
    ensures Whole(cfg, Run(cfg, s, events).disk, k') == Whole(cfg, s.disk, k) + Stream(cfg, s, events)
    decreases |events|
  {
    if events == [] {
      k' := k;
      assert Whole(cfg, s.disk, k) + "" == Whole(cfg, s.disk, k);
    } else {
      var e := events[0];
      var s1, k1 := Next(cfg, s, e), Last(cfg, s, e, k);
      StepConserves(cfg, s, e, k);
      k' := RunConserves(cfg, s1, events[1..], k1);
      Assoc(Whole(cfg, s.disk, k), Gained(s, e), Stream(cfg, s1, events[1..]));
    }
  }

  lemma StepConserves(cfg: Config, s: State, e: Event, k: nat)
    requires Inv(cfg, s, k)
    ensures var k' := Last(cfg, s, e, k); var s' := Next(cfg, s, e);
            k' >= k && Inv(cfg, s', k') && Whole(cfg, s'.disk, k') == Whole(cfg, s.disk, k) + Gained(s, e)
  {
    match e {
      case Check(create) =>
        StartWhole(cfg, s, create, k);
      case Write(bytes, ok) =>
        WriteKeeps(cfg, s, bytes, ok, k);
      case Rotate(calls) =>
        TargetIsNext(cfg, s, k);
        RotateKeeps(cfg, s, calls, k);
    }
    assert Whole(cfg, s.disk, k) + "" == Whole(cfg, s.disk, k);
  }

  /**
   A logger that starts on an empty disk with a line or size limit: the archives are numbered
   1 to k without a gap, and with the live file they hold exactly what was written.
   */
  lemma LogIsStream(cfg: Config, events: seq<Event>) returns (k: nat)
    requires cfg.maxLines > 0 || cfg.maxSize > 0
    ensures var s := State(Disk(map[], []), None, 0); var d := Run(cfg, s, events).disk;
            (forall n: nat :: n > 0 ==> (cfg.Archive(n) in d.dir <==> n <= k)) &&
            Whole(cfg, d, k) == Stream(cfg, s, events)
  {
    var s := State(Disk(map[], []), None, 0);
    k := RunConserves(cfg, s, events, 0);
    CurStays(cfg, s, events);
    assert Whole(cfg, s.disk, 0) + Stream(cfg, s, events) == Stream(cfg, s, events);
  }

  // ---------------------------------------------------------------- nothing written is lost

  /** The open handle is that of the live file. */
  predicate LiveIsOpen(cfg: Config, s: State)
  {
    cfg.Live() in s.disk.dir && s.handle == Some(s.disk.dir[cfg.Live()])
  }

  /** Opening succeeds whenever the event opens the file. */
  predicate Opens(e: Event)
  {
    match e
    case Check(create) => create
    case Write(_, _) => true
    case Rotate(calls) => calls.create
  }

  /** After a check whose open succeeds the live file is open, and no event whose open succeeds closes it. */
  lemma LiveStaysOpen(cfg: Config, s: State, e: Event)
    requires Sound(s.disk) && Opens(e) && (e.Check? || LiveIsOpen(cfg, s))
    ensures LiveIsOpen(cfg, Next(cfg, s, e))
  {
    CreatedKeeps(cfg, s.disk, cfg.Live());
    if e.Rotate? && e.calls.perm && Target(cfg, s).Some? && e.calls.rename && cfg.Live() in s.disk.dir {
      CreatedKeeps(cfg, Renamed(s.disk, cfg.Live(), cfg.Archive(Target(cfg, s).value)), cfg.Live());
    }
  }

  /** The bytes of all writes that the system carries out. */
  function Written(events: seq<Event>): Bytes
  {
    if events == [] then ""
    else (if events[0].Write? && events[0].ok then events[0].bytes else "") + Written(events[1..])
  }

  /** Once the live file is open, and while opening succeeds, every such write is in the log's stream. */
  lemma {:induction false} StreamIsWritten(cfg: Config, s: State, events: seq<Event>, k: nat)
    requires Inv(cfg, s, k) && LiveIsOpen(cfg, s) && forall i :: 0 <= i < |events| ==> Opens(events[i])
    ensures Stream(cfg, s, events) == Written(events)
    ensures LiveIsOpen(cfg, Run(cfg, s, events))
    decreases |events|
  {
    if events != [] {
      assert forall i :: 0 <= i < |events[1..]| ==> events[1..][i] == events[i + 1];
      StepConserves(cfg, s, events[0], k);
      LiveStaysOpen(cfg, s, events[0]);
      StreamIsWritten(cfg, Next(cfg, s, events[0]), events[1..], Last(cfg, s, events[0], k));
    }
  }

  /**
   So a logger that starts on an empty disk with a limit, checks its file first and can always
   open it, keeps all that is written: archives 1 to k and the live file are the bytes of the
   writes that the system carried out, in order.
   */
  lemma LogIsWritten(cfg: Config, events: seq<Event>) returns (k: nat)
    requires (cfg.maxLines > 0 || cfg.maxSize > 0) && events != [] && events[0] == Check(true)
    requires forall i :: 0 <= i < |events| ==> Opens(events[i])
    ensures var d := Run(cfg, State(Disk(map[], []), None, 0), events).disk;
            (forall n: nat :: n > 0 ==> (cfg.Archive(n) in d.dir <==> n <= k)) &&
            Whole(cfg, d, k) == Written(events)
  {
    var s := State(Disk(map[], []), None, 0);
    k := LogIsStream(cfg, events);
    assert forall i :: 0 <= i < |events[1..]| ==> events[1..][i] == events[i + 1];
    StepConserves(cfg, s, events[0], 0);
    LiveStaysOpen(cfg, s, events[0]);
    StreamIsWritten(cfg, Next(cfg, s, events[0]), events[1..], Last(cfg, s, events[0], 0));
    assert "" + Written(events[1..]) == Written(events[1..]);
  }

  /** With a limit `MaxFilesCurFiles` never changes. */
  lemma {:induction false} CurStays(cfg: Config, s: State, events: seq<Event>)
    requires cfg.Limited()
    ensures Run(cfg, s, events).cur == s.cur
    decreases |events|
  {
    if events != [] {
      CurStays(cfg, Next(cfg, s, events[0]), events[1..]);
    }
  }

  /** A rotation replaces nothing: every file but the live one is still there, unchanged. */
  lemma NothingReplaced(cfg: Config, s: State, calls: Calls, name: string)
    requires Sound(s.disk) && name in s.disk.dir && name != cfg.Live()
    ensures name in DoRotate(cfg, s, calls).disk.dir &&
              Content(DoRotate(cfg, s, calls).disk, name) == Content(s.disk, name)
  {
    CreatedKeeps(cfg, s.disk, cfg.Live());
    if calls.perm && cfg.Live() in s.disk.dir && Target(cfg, s).Some? && calls.rename {
      var to := cfg.Archive(Target(cfg, s).value);
      RenamedKeeps(s.disk, cfg.Live(), to);
      CreatedKeeps(cfg, Renamed(s.disk, cfg.Live(), to), cfg.Live());
    }
  }

  /** Without a free number nothing happens at all; without the rename, no content changes. */
  lemma FailedRotation(cfg: Config, s: State, calls: Calls)
    requires Sound(s.disk)
    ensures Target(cfg, s).None? && cfg.Live() in s.disk.dir ==>
              DoRotate(cfg, s, calls).disk == s.disk && DoRotate(cfg, s, calls).handle == s.handle
    ensures !calls.rename ==> forall n :: Content(DoRotate(cfg, s, calls).disk, n) == Content(s.disk, n)
  {
    CreatedKeeps(cfg, s.disk, cfg.Live());
  }

  // ---------------------------------------------------------------- counting lines

  function Newlines(s: Bytes): nat
  {
    if s == [] then 0 else (if s[0] == '\n' then 1 else 0) + Newlines(s[1..])
  }

  lemma {:induction false} NewlinesAreCounted(s: Bytes)
    ensures Newlines(s) == multiset(s)['\n']
  {
    if s != [] {
      NewlinesAreCounted(s[1..]);
      assert s == [s[0]] + s[1..];
    }
  }

  lemma {:induction false} NewlinesConcat(a: Bytes, b: Bytes)
    ensures Newlines(a + b) == Newlines(a) + Newlines(b)
  {
    if a == [] {
      assert a + b == b;
    } else {
      assert (a + b)[1..] == a[1..] + b;
      NewlinesConcat(a[1..], b);
    }
  }

  /** `bytes.Count` of a newline. */
  method Count(s: Bytes) returns (c: nat)
    ensures c == Newlines(s)
  {
    c := 0;
    assert s[..0] == [];
    for i := 0 to |s|
      invariant c == Newlines(s[..i])
    {
      NewlinesConcat(s[..i], [s[i]]);
      assert s[..i + 1] == s[..i] + [s[i]] && [s[i]][1..] == [];
      if s[i] == '\n' {
        c := c + 1;
      }
    }
    assert s[..|s|] == s;
  }

  /** lines: reads the file in pieces of whatever size the system returns, at most the buffer's. */
  method Lines(content: Bytes) returns (count: nat)
    ensures count == Newlines(content)
  {
    count := 0;
    var read := 0;
    assert content[..0] == [];
    while read < |content|
      invariant read <= |content| && count == Newlines(content[..read])
    {
      var c: nat :| 0 < c <= 32768 && read + c <= |content| by { assert read + 1 <= |content|; }
      var n := Count(content[read..read + c]);
      NewlinesConcat(content[..read], content[read..read + c]);
      assert content[..read + c] == content[..read] + content[read..read + c];
      count := count + n;
      read := read + c;
    }
    assert content[..|content|] == content;
  }

  // ---------------------------------------------------------------- the logger

  class FileLogWriter {
    const cfg: Config
    var disk: Disk
    var fileWriter: Option<Inode>
    var maxFilesCurFiles: nat
    var maxLinesCurLines: nat
    var maxSizeCurSize: nat
    var dailyOpenDate: int

    function S(): State
      reads this
    {
      State(disk, fileWriter, maxFilesCurFiles)
    }

    constructor (cfg: Config, disk: Disk)
      ensures this.cfg == cfg && S() == State(disk, None, 0)
    {
      this.cfg, this.disk, fileWriter := cfg, disk, None;
      maxFilesCurFiles, maxLinesCurLines, maxSizeCurSize, dailyOpenDate := 0, 0, 0, 0;
    }

    /** The counters are those of the live file. */
    predicate Counted()
      reads this
    {
      maxSizeCurSize == |Content(disk, cfg.Live())| &&
      (cfg.maxLines > 0 ==> maxLinesCurLines == Newlines(Content(disk, cfg.Live())))
    }

    /** startLogger, and initFd on the new handle: a counter that cannot be taken leaves an error, not the old file. */
    method Start(create: bool, counts: Counts, today: int) returns (ok: bool)
      modifies this
      ensures S() == StartLogger(cfg, old(S()), create)
      ensures if create then LiveIsOpen(cfg, S()) else S() == old(S())
      ensures ok <==> create && counts.stat && (counts.lines || cfg.maxLines <= 0 || Content(disk, cfg.Live()) == "")
      ensures ok && Sound(old(disk)) ==> Counted()
      ensures create && counts.stat ==> maxSizeCurSize == |Content(disk, cfg.Live())| && dailyOpenDate == today
      ensures create && counts.stat && !ok ==> maxLinesCurLines == 0
      ensures !(create && counts.stat) ==>
                maxLinesCurLines == old(maxLinesCurLines) && maxSizeCurSize == old(maxSizeCurSize) &&
                dailyOpenDate == old(dailyOpenDate)
    {
      if !create {
        return false;
      }
      disk := Created(disk, cfg.Live());
      fileWriter := Some(disk.dir[cfg.Live()]);
      // initFd
      if !counts.stat {
        return false;
      }
      maxSizeCurSize := |Content(disk, cfg.Live())|;
      dailyOpenDate := today;
      maxLinesCurLines := 0;
      if maxSizeCurSize > 0 && cfg.maxLines > 0 {
        if !counts.lines {
          return false;
        }
        maxLinesCurLines := Lines(Content(disk, cfg.Live()));
      }
      return true;
    }

    /** Restarts the logger whether or not the file is there, and ignores failure. */
    method CheckFileName(create: bool, counts: Counts, today: int)
      modifies this
      ensures S() == Next(cfg, old(S()), Check(create))
      ensures if create then LiveIsOpen(cfg, S()) else S() == old(S())
      ensures create && counts == Counts(true, true) && Sound(old(disk)) ==> Counted()
    {
      var _ := Start(create, counts, today);
    }

    /**
     The part of WriteMsg that writes: `msg` is the formatted message, `escaped` what is left of it
     without ANSI codes.
     */
    method WriteEscaped(msg: Bytes, escaped: Bytes, ok: bool) returns (written: bool)
      requires Sound(disk) && (fileWriter.Some? ==> cfg.Live() in disk.dir && disk.dir[cfg.Live()] == fileWriter.value)
      modifies this
      ensures S() == Next(cfg, old(S()), Write(escaped, ok)) && written == (ok && old(fileWriter).Some?)
      ensures !written ==> maxLinesCurLines == old(maxLinesCurLines) && maxSizeCurSize == old(maxSizeCurSize)
      ensures written && old(Counted()) ==>
                (Counted() <==> |msg| == |escaped| && (cfg.maxLines > 0 ==> Newlines(escaped) == 1))
    {
      if !ok || fileWriter.None? {
        return false;
      }
      AppendedKeeps(disk, cfg.Live(), escaped);
      NewlinesConcat(Content(disk, cfg.Live()), escaped);
      disk := Appended(disk, fileWriter.value, escaped);
      maxLinesCurLines := maxLinesCurLines + 1;
      maxSizeCurSize := maxSizeCurSize + |msg|;
      return true;
    }

    predicate NeedRotateDaily(day: int)
      reads this
    {
      (cfg.maxLines > 0 && maxLinesCurLines >= cfg.maxLines) || (cfg.maxSize > 0 && maxSizeCurSize >= cfg.maxSize) ||
      (cfg.daily && day != dailyOpenDate)
    }

    /** Looks for a free archive name; `taken` if the last name looked at exists. */
    method FindName() returns (fName: string, taken: bool)
      modifies this`maxFilesCurFiles
      ensures taken <==> Target(cfg, old(S())).None?
      ensures !taken ==> fName == cfg.Archive(Target(cfg, old(S())).value)
      ensures maxFilesCurFiles == if cfg.Limited() then old(maxFilesCurFiles) else old(maxFilesCurFiles) + 1
    {
      var num := maxFilesCurFiles + 1;
      fName, taken := "", true;
      if cfg.maxLines > 0 || cfg.maxSize > 0 {
        while taken && num <= cfg.maxFiles
          invariant maxFilesCurFiles == old(maxFilesCurFiles) && num > 0
          invariant if taken then LeastFree(cfg, disk, maxFilesCurFiles + 1) == LeastFree(cfg, disk, num)
                    else fName == cfg.Archive(num - 1) && LeastFree(cfg, disk, maxFilesCurFiles + 1) == Some(num - 1)
          decreases cfg.maxFiles - num
        {
          fName := cfg.Archive(num);
          taken := fName in disk.dir;
          num := num + 1;
        }
      } else {
        fName := cfg.Archive(num);
        taken := fName in disk.dir;
        maxFilesCurFiles := num;
      }
    }

    /** doRotate */
    method Rotated(calls: Calls, chmod: bool, counts: Counts, today: int) returns (ok: bool)
      modifies this
      ensures S() == Next(cfg, old(S()), Rotate(calls))
      ensures ok <==> calls.perm && calls.create && calls.rename && chmod && counts.stat &&
                      old(cfg.Live() in disk.dir && Target(cfg, S()).Some?)
    {
      if !calls.perm {
        return false;
      }
      var failed := cfg.Live() !in disk.dir;
      if !failed {
        var fName, taken := FindName();
        if taken {
          return false;
        }
        fileWriter := None;
        if calls.rename {
          disk := Renamed(disk, cfg.Live(), fName);
        }
        failed := !calls.rename || !chmod;
      }
      var started := Start(calls.create, counts, today);
      return started && !failed;
    }

    /** A limit is reached by what is in the live file, or the day has changed. */
    predicate LimitReached(day: int)
      reads this
    {
      || (cfg.maxLines > 0 && Newlines(Content(disk, cfg.Live())) >= cfg.maxLines)
      || (cfg.maxSize > 0 && |Content(disk, cfg.Live())| >= cfg.maxSize)
      || (cfg.daily && day != dailyOpenDate)
    }

    /** What the timer of a day does when it goes off; counters that agree with the file make it look at the file. */
    method DailyRotate(day: int, calls: Calls, chmod: bool, counts: Counts)
      modifies this
      ensures old(Counted()) ==>
                S() == if old(LimitReached(day)) then Next(cfg, old(S()), Rotate(calls)) else old(S())
      ensures S() == if old(NeedRotateDaily(day)) then Next(cfg, old(S()), Rotate(calls)) else old(S())
    {
      if NeedRotateDaily(day) {
        var _ := Rotated(calls, chmod, counts, day);
      }
    }

    /**
     Writes a message whose level is not filtered out; `timer` tells whether the rotation timer
     gets the lock between the two times this method holds it.
     */
    method WriteMsg(level: int, maxLevel: int, msg: Bytes, escaped: Bytes, create: bool, ok: bool,
                    timer: bool, day: int, calls: Calls, chmod: bool, counts: Counts, ghost k: nat)
      returns (written: bool, ghost k2: nat, ghost between: seq<Event>)
      requires Inv(cfg, S(), k)
      modifies this
      ensures Inv(cfg, S(), k2)
      ensures level > maxLevel ==> S() == old(S()) && written && k2 == k
      ensures level <= maxLevel ==>
                && (between == [] || (timer && between == [Rotate(calls)]))
                && S() == Run(cfg, old(S()), [Check(create)] + between + [Write(escaped, ok)])
                && Whole(cfg, disk, k2) == Whole(cfg, old(disk), k) + (if written then escaped else "")
                && (create && (between == [] || calls.create) ==> written == ok)
    {
      if level > maxLevel {
        return true, k, [];
      }
      ghost var before := S();
      CheckFileName(create, counts, day);
      between := TimerBetween(timer, day, calls, chmod, counts);
      k2 := ReadyToWrite(cfg, before, create, between, k);
      WrittenLast(cfg, before, create, between, escaped, ok, k, k2);
      written := WriteEscaped(msg, escaped, ok);
    }

    /** What the timer does if it gets the lock. */
    method TimerBetween(timer: bool, day: int, calls: Calls, chmod: bool, counts: Counts)
      returns (ghost between: seq<Event>)
      modifies this
      ensures between == [] || (timer && between == [Rotate(calls)])
      ensures S() == if between == [] then old(S()) else Next(cfg, old(S()), between[0])
    {
      between := if timer && NeedRotateDaily(day) then [Rotate(calls)] else [];
      if timer {
        DailyRotate(day, calls, chmod, counts);
      }
    }
  }

  /** The state in which a message is written: after the check, and a rotation if there was one. */
  function WhenWriting(cfg: Config, s: State, create: bool, between: seq<Event>): State
  {
    var t := Next(cfg, s, Check(create));
    if between == [] then t else Next(cfg, t, between[0])
  }

  lemma ReadyToWrite(cfg: Config, s: State, create: bool, between: seq<Event>, k: nat) returns (k2: nat)
    requires Inv(cfg, s, k) && |between| <= 1 && (between != [] ==> between[0].Rotate?)
    ensures var t := WhenWriting(cfg, s, create, between);
            && Inv(cfg, t, k2) && Whole(cfg, t.disk, k2) == Whole(cfg, s.disk, k)
            && (create && (between == [] || between[0].calls.create) ==> LiveIsOpen(cfg, t))
  {
    StepConserves(cfg, s, Check(create), k);
    assert Whole(cfg, s.disk, k) + "" == Whole(cfg, s.disk, k);
    if create {
      LiveStaysOpen(cfg, s, Check(create));
    }
    k2 := k;
    if between != [] {
      TimerRuns(cfg, Next(cfg, s, Check(create)), between[0].calls, create, k);
      k2 := Last(cfg, Next(cfg, s, Check(create)), between[0], k);
    }
  }

  lemma WrittenLast(cfg: Config, s: State, create: bool, between: seq<Event>, escaped: Bytes, ok: bool, k: nat, k2: nat)
    requires |between| <= 1 && Inv(cfg, WhenWriting(cfg, s, create, between), k2)
    requires Whole(cfg, WhenWriting(cfg, s, create, between).disk, k2) == Whole(cfg, s.disk, k)
    ensures var t := WhenWriting(cfg, s, create, between); var u := Next(cfg, t, Write(escaped, ok));
            && u == Run(cfg, s, [Check(create)] + between + [Write(escaped, ok)])
            && Inv(cfg, u, k2)
            && Whole(cfg, u.disk, k2) == Whole(cfg, s.disk, k) + if ok && t.handle.Some? then escaped else ""
  {
    RunThree(cfg, s, Check(create), between, Write(escaped, ok));
    WriteKeeps(cfg, WhenWriting(cfg, s, create, between), escaped, ok, k2);
  }

  /** A rotation between check and write keeps the log and, if it can open the file, the open handle. */
  lemma TimerRuns(cfg: Config, s: State, calls: Calls, create: bool, k: nat)
    requires Inv(cfg, s, k) && (create ==> LiveIsOpen(cfg, s))
    ensures var t, l := Next(cfg, s, Rotate(calls)), Last(cfg, s, Rotate(calls), k);
            && Inv(cfg, t, l) && Whole(cfg, t.disk, l) == Whole(cfg, s.disk, k)
            && (create && calls.create ==> LiveIsOpen(cfg, t))
  {
    StepConserves(cfg, s, Rotate(calls), k);
    assert Whole(cfg, s.disk, k) + "" == Whole(cfg, s.disk, k);
    if create && calls.create {
      LiveStaysOpen(cfg, s, Rotate(calls));
    }
  }

  lemma RunThree(cfg: Config, s: State, first: Event, between: seq<Event>, last: Event)
    requires |between| <= 1
    ensures var t := Next(cfg, s, first);
            Run(cfg, s, [first] + between + [last]) ==
            Next(cfg, if between == [] then t else Next(cfg, t, between[0]), last)
  {
    RunTwo(cfg, s, first, between);
    RunLast(cfg, s, [first] + between, last);
  }

  lemma RunTwo(cfg: Config, s: State, first: Event, between: seq<Event>)
    requires |between| <= 1
    ensures Run(cfg, s, [first] + between) ==
            if between == [] then Next(cfg, s, first) else Next(cfg, Next(cfg, s, first), between[0])
  {
    RunLast(cfg, s, [], first);
    assert [] + [first] == [first] && Run(cfg, s, []) == s;
    if between != [] {
      RunLast(cfg, s, [first], between[0]);
      assert between == [between[0]];
    } else {
      assert [first] + between == [first];
    }
  }

  lemma {:induction false} RunLast(cfg: Config, s: State, events: seq<Event>, e: Event)
    ensures Run(cfg, s, events + [e]) == Next(cfg, Run(cfg, s, events), e)
    decreases |events|
  {
    if events == [] {
      assert [e][1..] == [];
      assert Run(cfg, Next(cfg, s, e), []) == Next(cfg, s, e);
      assert [] + [e] == [e];
    } else {
      assert (events + [e])[1..] == events[1..] + [e];
      RunLast(cfg, Next(cfg, s, events[0]), events[1..], e);
    }
  }
}
