/** The rotating diagnostic log: session markers, tracked writes and rotation on a FAT file system. */
module DiagnosticLog {
  import opened Bytes

  const ROTATION_SIZE_LIMIT: nat := 0x30_0000

  type text = seq<byte>

  /** Contents of the log and of its two rotated predecessors. */
  datatype Disk = Disk(log: Option<text>, first: Option<text>, second: Option<text>)

  /** Outcomes of the best-effort operations of one rotation, and of the open that ends it. */
  datatype Io = Io(removes: bool, renamesFirst: bool, renamesLog: bool, opens: bool)

  // ----- The file system -----

  function Content(file: Option<text>): text { if file.Some? then file.value else [] }

  function RemoveSecond(d: Disk, works: bool): Disk { if works then d.(second := None) else d }

  /** A rename fails on a missing source, and on FAT also when the destination exists. */
  function RenameFirst(d: Disk, works: bool): Disk {
    if works && d.first.Some? && d.second.None? then d.(first := None, second := d.first) else d
  }

  function RenameLog(d: Disk, works: bool): Disk {
    if works && d.log.Some? && d.first.None? then d.(log := None, first := d.log) else d
  }

  /** Opening for append creates a missing file. */
  function OpenAppend(d: Disk): Disk { d.(log := Some(Content(d.log))) }

  // ----- Specification -----

  /** `written` is everything the files held at the start and every byte accepted since. */
  datatype Writer = Writer(disk: Disk, active: bool, tracked: nat, written: text)

  function Chain(d: Disk): text { Content(d.second) + Content(d.first) + Content(d.log) }

  predicate IsSuffix(s: text, whole: text) {
    |s| <= |whole| && whole[|whole| - |s|..] == s
  }

  /** A write of which the port accepts the first bytes. */
  function Append(w: Writer, record: text, accepted: nat): Writer {
    var bytes := if accepted <= |record| then record[..accepted] else record;
    w.(disk := w.disk.(log := Some(Content(w.disk.log) + bytes)),
       tracked := w.tracked + |bytes|, written := w.written + bytes)
  }

  function OpenSession(w: Writer, marker: text, accepted: nat, opens: bool): Writer {
    if !opens then w.(active := false)
    else
      var disk := OpenAppend(w.disk);
      Append(w.(disk := disk, active := true, tracked := |Content(disk.log)|), marker, accepted)
  }

  function Moved(d: Disk, io: Io): Disk {
    RenameLog(RenameFirst(RemoveSecond(d, io.removes), io.renamesFirst), io.renamesLog)
  }

  function Rotate(w: Writer, io: Io): Writer {
    var moved := Moved(w.disk, io);
    if !io.opens then w.(disk := moved, active := false)
    else w.(disk := OpenAppend(moved), tracked := |Content(moved.log)|)
  }

  function WriteRecord(w: Writer, record: text, accepted: nat, io: Io): Writer {
    if !w.active then w
    else
      var ready := if w.tracked + |record| > ROTATION_SIZE_LIMIT then Rotate(w, io) else w;
      if ready.active then Append(ready, record, accepted) else ready
  }

  datatype Event =
    | Open(marker: text, accepted: nat, opens: bool)
    | Synced(marker: text, accepted: nat)
    | Record(record: text, accepted: nat, io: Io)
    | Close

  function Apply(w: Writer, e: Event): Writer {
    match e
    case Open(marker, accepted, opens) => OpenSession(w, marker, accepted, opens)
    case Synced(marker, accepted) => if w.active then Append(w, marker, accepted) else w
    case Record(record, accepted, io) => WriteRecord(w, record, accepted, io)
    case Close => w.(active := false)
  }

  function Run(start: Disk, events: seq<Event>): Writer
    decreases |events|
  {
    if events == [] then Writer(start, false, 0, Chain(start))
    else Apply(Run(start, events[..|events| - 1]), events[|events| - 1])
  }

  // ----- Nothing is reordered, duplicated or lost in the middle -----

  /** The kept files are a suffix of everything written; while a session is open the size is exact. */
  predicate Sound(w: Writer) {
    && IsSuffix(Chain(w.disk), w.written)
    && (w.active ==> w.disk.log.Some? && w.tracked == |w.disk.log.value|)
  }

  lemma AppendKeepsSound(w: Writer, record: text, accepted: nat)
    requires Sound(w) && w.active
    ensures Sound(Append(w, record, accepted))
  {
    var bytes := if accepted <= |record| then record[..accepted] else record;
    var r := Append(w, record, accepted);
    assert Chain(r.disk) == Chain(w.disk) + bytes;
    SuffixAppend(Chain(w.disk), w.written, bytes);
  }

  lemma SuffixAppend(s: text, whole: text, more: text)
    requires IsSuffix(s, whole)
    ensures IsSuffix(s + more, whole + more)
  {
    var n := |whole| - |s|;
    assert (whole + more)[n..] == whole[n..] + more;
  }

  lemma SuffixTrans(s: text, t: text, whole: text)
    requires IsSuffix(s, t) && IsSuffix(t, whole)
    ensures IsSuffix(s, whole)
  {
    assert whole[|whole| - |s|..] == whole[|whole| - |t|..][|t| - |s|..];
  }

  lemma RenamesKeepChain(d: Disk, first: bool, log: bool)
    ensures Chain(RenameLog(RenameFirst(d, first), log)) == Chain(d)
  {
    var moved := RenameFirst(d, first);
    assert Chain(moved) == Chain(d);
    assert Chain(RenameLog(moved, log)) == Chain(moved);
  }

  /** Whichever of its steps fail, a rotation keeps the chain in order, except for a log.2 that it removes. */
  lemma MovedIsSuffix(d: Disk, io: Io)
    ensures IsSuffix(Chain(Moved(d, io)), Chain(d))
    ensures Chain(Moved(d, io)) == if io.removes then Content(d.first) + Content(d.log) else Chain(d)
  {
    hide RenameFirst, RenameLog, Chain, IsSuffix;
    RenamesKeepChain(RemoveSecond(d, io.removes), io.renamesFirst, io.renamesLog);
    RemovalKeeps(d, io.removes);
  }

  lemma RemovalKeeps(d: Disk, removes: bool)
    ensures Chain(RemoveSecond(d, removes)) == if removes then Content(d.first) + Content(d.log) else Chain(d)
    ensures IsSuffix(Chain(RemoveSecond(d, removes)), Chain(d))
  {
    var newer := Content(d.first) + Content(d.log);
    assert Chain(d) == Content(d.second) + newer;
    assert [] + Content(d.first) + Content(d.log) == newer;
  }

  lemma StepKeepsSound(w: Writer, e: Event)
    requires Sound(w)
    ensures Sound(Apply(w, e))
  {
    hide IsSuffix, Moved;
    match e
    case Open(marker, accepted, opens) =>
      if opens {
        var session := w.(disk := OpenAppend(w.disk), active := true, tracked := |Content(w.disk.log)|);
        assert Chain(session.disk) == Chain(w.disk);
        AppendKeepsSound(session, marker, accepted);
      }
    case Synced(marker, accepted) =>
      if w.active { AppendKeepsSound(w, marker, accepted); }
    case Record(record, accepted, io) =>
      if w.active {
        RotateKeepsSound(w, io);
        var ready := if w.tracked + |record| > ROTATION_SIZE_LIMIT then Rotate(w, io) else w;
        if ready.active { AppendKeepsSound(ready, record, accepted); }
      }
    case Close =>
  }

  lemma RotateKeepsSound(w: Writer, io: Io)
    requires Sound(w)
    ensures Sound(Rotate(w, io))
  {
    hide IsSuffix, Moved;
    MovedIsSuffix(w.disk, io);
    SuffixTrans(Chain(Moved(w.disk, io)), Chain(w.disk), w.written);
    assert Chain(OpenAppend(Moved(w.disk, io))) == Chain(Moved(w.disk, io));
  }

  /**
   Over every run, with any removal, rename, open or write failing or falling short, the three files
   end with what was written last: log.2, log.1 and log together are a suffix of all bytes ever
   written, and the tracked size of an open log is its real length.
   */
  lemma {:induction false} LogIsSuffix(start: Disk, events: seq<Event>)
    ensures Sound(Run(start, events))
    decreases |events|
  {
    hide Sound, Apply;
    if events == [] {
      StartIsSound(start);
    } else {
      LogIsSuffix(start, events[..|events| - 1]);
      StepKeepsSound(Run(start, events[..|events| - 1]), events[|events| - 1]);
    }
  }

  lemma StartIsSound(start: Disk)
    ensures Sound(Writer(start, false, 0, Chain(start)))
  {
  }

  // ----- What is written -----

  /** The part of a text that a write accepts. */
  function Front(s: text, accepted: nat): text { if accepted < |s| then s[..accepted] else s }

  /** What an event adds to the log: markers and records of an open session, as far as they are accepted. */
  function Adds(w: Writer, e: Event): text {
    match e
    case Open(marker, accepted, opens) => if opens then Front(marker, accepted) else []
    case Synced(marker, accepted) => if w.active then Front(marker, accepted) else []
    case Record(record, accepted, io) =>
      if w.active && (|Content(w.disk.log)| + |record| <= 0x30_0000 || io.opens) then Front(record, accepted) else []
    case Close => []
  }

  function Added(start: Disk, events: seq<Event>): text
    decreases |events|
  {
    if events == [] then []
    else
      var before := events[..|events| - 1];
      Added(start, before) + Adds(Run(start, before), events[|events| - 1])
  }

  /** A rotation that removes log.2. */
  predicate Removes(w: Writer, e: Event) {
    e.Record? && w.active && |Content(w.disk.log)| + |e.record| > 0x30_0000 && e.io.removes
  }

  lemma StepWrites(w: Writer, e: Event)
    requires Sound(w)
    ensures Apply(w, e).written == w.written + Adds(w, e)
    ensures Chain(Apply(w, e).disk) ==
            (if Removes(w, e) then Content(w.disk.first) + Content(w.disk.log) else Chain(w.disk)) + Adds(w, e)
    ensures Apply(w, e).active <==>
            match e
            case Open(_, _, opens) => opens
            case Synced(_, _) => w.active
            case Record(record, _, io) => w.active && (|Content(w.disk.log)| + |record| <= 0x30_0000 || io.opens)
            case Close => false
  {
    hide IsSuffix, Moved;
    var front := Adds(w, e);
    assert w.written + [] == w.written && Chain(w.disk) + [] == Chain(w.disk);
    if e.Record? {
      MovedIsSuffix(w.disk, e.io);
      RecordWrites(w, e);
    } else {
      assert Content(w.disk.second) + Content(w.disk.first) + (Content(w.disk.log) + front) == Chain(w.disk) + front;
    }
  }

  lemma RecordWrites(w: Writer, e: Event)
    requires e.Record? && Sound(w)
    ensures Apply(w, e).written == w.written + Adds(w, e)
    ensures Chain(Apply(w, e).disk) ==
            Chain(if w.active && |Content(w.disk.log)| + |e.record| > 0x30_0000 then Moved(w.disk, e.io) else w.disk) +
            Adds(w, e)
  {
    hide IsSuffix, Moved;
    var d := if w.active && |Content(w.disk.log)| + |e.record| > 0x30_0000 then Moved(w.disk, e.io) else w.disk;
    var front := Adds(w, e);
    assert w.written + [] == w.written && Chain(d) + [] == Chain(d);
    assert Content(d.second) + Content(d.first) + (Content(d.log) + front) == Chain(d) + front;
  }

  /** Everything written is what the files held at the start and, in order, what the events added. */
  lemma {:induction false} WrittenFromEvents(start: Disk, events: seq<Event>)
    ensures Run(start, events).written == Chain(start) + Added(start, events)
    decreases |events|
  {
    hide Apply, Adds, Chain, Sound;
    if events == [] {
      assert Chain(start) + [] == Chain(start);
    } else {
      var before := events[..|events| - 1];
      WrittenFromEvents(start, before);
      LogIsSuffix(start, before);
      StepWrites(Run(start, before), events[|events| - 1]);
    }
  }

  predicate NeverRemoves(start: Disk, events: seq<Event>)
    decreases |events|
  {
    events == [] ||
    (NeverRemoves(start, events[..|events| - 1]) &&
     !Removes(Run(start, events[..|events| - 1]), events[|events| - 1]))
  }

  /** As long as no rotation removes log.2 the three files hold everything ever written. */
  lemma {:induction false} AllIsKept(start: Disk, events: seq<Event>)
    requires NeverRemoves(start, events)
    ensures Chain(Run(start, events).disk) == Chain(start) + Added(start, events)
    decreases |events|
  {
    hide Apply, Adds, Chain, Sound, Removes;
    if events == [] {
      assert Chain(start) + [] == Chain(start);
    } else {
      var before := events[..|events| - 1];
      AllIsKept(start, before);
      LogIsSuffix(start, before);
      StepWrites(Run(start, before), events[|events| - 1]);
    }
  }

  // ----- The size limit -----

  /**
   After a record is written whole, the log is within the limit exactly when there was room without
   a rotation, or the rotation did move the log away and the record alone fits.
   */
  lemma RecordWithinLimitExactly(start: Disk, events: seq<Event>, record: text, io: Io)
    requires Run(start, events).active && io.opens
    ensures var w := Run(start, events);
            var after := WriteRecord(w, record, |record|, io);
            && after.active && after.tracked == |Content(after.disk.log)|
            && (after.tracked <= ROTATION_SIZE_LIMIT <==>
                || w.tracked + |record| <= ROTATION_SIZE_LIMIT
                || (Moved(w.disk, io).log.None? && |record| <= ROTATION_SIZE_LIMIT))
  {
    hide Moved, Run;
    LogIsSuffix(start, events);
    var w := Run(start, events);
    LogIsSuffix(start, events + [Record(record, |record|, io)]);
    StepKeepsSound(w, Record(record, |record|, io));
    LogMovesOrStays(w.disk, io);
  }

  lemma LogMovesOrStays(d: Disk, io: Io)
    requires d.log.Some?
    ensures Moved(d, io).log.None? || Moved(d, io).log == d.log
    ensures Moved(d, io).log.None? <==>
            io.renamesLog && (d.first.None? || (io.renamesFirst && (io.removes || d.second.None?)))
  {
  }

  /** While all file operations succeed, every record of at most 3 MiB leaves the log at most 3 MiB. */
  lemma RecordWithinLimit(start: Disk, events: seq<Event>, record: text, accepted: nat)
    requires Run(start, events).active && |record| <= ROTATION_SIZE_LIMIT
    ensures var after := WriteRecord(Run(start, events), record, accepted, Io(true, true, true, true));
            |Content(after.disk.log)| <= ROTATION_SIZE_LIMIT
  {
    hide Moved, Run;
    LogIsSuffix(start, events);
    LogMovesOrStays(Run(start, events).disk, Io(true, true, true, true));
  }

  // ----- The writer -----

  class DiagnosticLogWriter {
    var disk: Disk
    var active: bool
    var trackedSize: nat
    ghost var written: text

    ghost function Abstract(): Writer
      reads this
    {
      Writer(disk, active, trackedSize, written)
    }

    constructor (disk: Disk)
      ensures Abstract() == Writer(disk, false, 0, Chain(disk))
    {
      this.disk, active, trackedSize, written := disk, false, 0, Chain(disk);
    }

    method Write(record: text, accepted: nat) returns (count: nat)
      modifies `disk, `written
      ensures Abstract().(tracked := trackedSize + count) == Append(old(Abstract()), record, accepted)
    {
      var bytes := if accepted <= |record| then record[..accepted] else record;
      disk := disk.(log := Some((if disk.log.Some? then disk.log.value else []) + bytes));
      written := written + bytes;
      count := |bytes|;
    }

    method OpenLog(opens: bool) returns (size: Option<nat>)
      modifies `disk
      ensures size == if opens then Some(|Content(old(disk).log)|) else None
      ensures disk == if opens then OpenAppend(old(disk)) else old(disk)
    {
      if !opens { return None; }
      if disk.log.None? { disk := disk.(log := Some([])); }
      size := Some(|disk.log.value|);
    }

    method StartSession(marker: text, accepted: nat, opens: bool) returns (ok: bool)
      modifies this
      ensures Abstract() == OpenSession(old(Abstract()), marker, accepted, opens) && ok == opens
    {
      var size := OpenLog(opens);
      if size.None? {
        active := false;
        return false;
      }
      trackedSize, active := size.value, true;
      var count := Write(marker, accepted);
      trackedSize := trackedSize + count;
      return true;
    }

    method TimeSynced(marker: text, accepted: nat)
      modifies this
      ensures Abstract() == Apply(old(Abstract()), Synced(marker, accepted))
    {
      if active {
        var count := Write(marker, accepted);
        trackedSize := trackedSize + count;
      }
    }

    method WriteOne(record: text, accepted: nat, io: Io)
      modifies this
      ensures Abstract() == WriteRecord(old(Abstract()), record, accepted, io)
    {
      if !active { return; }
      if trackedSize + |record| > ROTATION_SIZE_LIMIT {
        var ok := RotateFiles(io);
        if !ok { return; }
      }
      var count := Write(record, accepted);
      trackedSize := trackedSize + count;
    }

    method RotateFiles(io: Io) returns (ok: bool)
      requires active
      modifies this
      ensures Abstract() == Rotate(old(Abstract()), io) && ok == active
    {
      if io.removes { disk := disk.(second := None); }
      if io.renamesFirst && disk.first.Some? && disk.second.None? {
        disk := disk.(first := None, second := disk.first);
      }
      if io.renamesLog && disk.log.Some? && disk.first.None? { disk := disk.(log := None, first := disk.log); }
      var size := OpenLog(io.opens);
      if size.None? {
        active := false;
        return false;
      }
      trackedSize := size.value;
      return true;
    }

    method FlushAndClose()
      modifies this
      ensures Abstract() == Apply(old(Abstract()), Close)
    {
      active := false;
    }
  }
}
