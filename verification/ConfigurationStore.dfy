/** The store of config.txt: fresh reads and the read, modify, replace transaction over two files. */
module ConfigurationStore {
  import opened Bytes
  import opened ConfigurationText
  import opened ConfigurationDocument
  import opened ConfigurationUpdate

  /** The tag used when a request names none: "MAINBOARD". */
  const MAINBOARD: text := [77, 65, 73, 78, 66, 79, 65, 82, 68]

  /** Contents of the active and the temporary file; an absent file is None. */
  datatype Disk = Disk(active: Option<text>, temporary: Option<text>)

  /**
   Outcomes of the file operations of one transaction. `leftover` is what a failed write leaves in
   the temporary file. A rename also fails when its destination exists.
   */
  datatype Io = Io(readable: bool, written: bool, leftover: Option<text>,
                   removable: bool, renamable: bool, cleanable: bool)

  function EffectiveTag(tag: text): text { if tag == [] then MAINBOARD else tag }

  function FullKey(tag: text, key: text): text { Prefix(EffectiveTag(tag)) + key }

  /** A missing or unreadable file reads as an empty one. */
  function Read(disk: Disk, readable: bool): text {
    if disk.active.Some? && readable then disk.active.value else []
  }

  function Answer(disk: Disk, readable: bool, tag: text, key: text): Option<text> {
    Get(Parse(Read(disk, readable)), FullKey(tag, key))
  }

  datatype Result = Result(disk: Disk, ok: bool)

  /** Writes the temporary file, removes the active one and renames. */
  function Exchanged(disk: Disk, s: text, io: Io): Result {
    if !io.written then Result(disk.(temporary := io.leftover), false)
    else
      var active := if io.removable then None else disk.active;
      if active.None? && io.renamable then Result(Disk(Some(s), None), true)
      else Result(Disk(active, if io.cleanable then None else Some(s)), false)
  }

  /** The transaction for a complete key. */
  function SetRawKey(disk: Disk, key: text, value: text, io: Io): Result {
    Exchanged(disk, Updated(Read(disk, io.readable), key, value), io)
  }

  // ----- The file as a list of settings -----

  /** Whether the active file exists, and the settings that a read of it finds. */
  datatype Memory = Memory(present: bool, entries: seq<Entry>)

  function Recall(disk: Disk): Memory { Memory(disk.active.Some?, Entries(Parse(Read(disk, true)))) }

  predicate Commits(present: bool, io: Io) { io.written && io.renamable && (io.removable || !present) }

  /** The old file was removed and the rename then fails. */
  predicate Loses(io: Io) { io.written && io.removable && !io.renamable }

  /** What one transaction does to the settings, for any key, any value and any file operations. */
  function Remember(m: Memory, key: text, value: text, io: Io): Memory {
    if Commits(m.present, io) then Memory(true, Replace(if io.readable then m.entries else [], key, Held(key, value)))
    else if Loses(io) then Memory(false, [])
    else m
  }

  lemma UpdateIsRemembered(disk: Disk, key: text, value: text, io: Io)
    ensures var r := SetRawKey(disk, key, value, io);
            && r.ok == Commits(disk.active.Some?, io)
            && Recall(r.disk) == Remember(Recall(disk), key, value, io)
  {
    hide Parse, Updated, Replace, Held;
    NothingRecalled();
    UpdateReads(Read(disk, io.readable), key, value);
  }

  lemma NothingRecalled()
    ensures Parse([]) == [] && Entries(Parse([])) == []
  {
  }

  /** Every answer of the store is a lookup in the recalled settings. */
  lemma AnswerIsLookup(disk: Disk, tag: text, key: text)
    ensures Answer(disk, true, tag, key) == Lookup(Recall(disk).entries, FullKey(tag, key))
  {
    GetIsLookup(Parse(Read(disk, true)), FullKey(tag, key));
  }

  // ----- Single transactions -----

  /**
   The replacement is all or nothing except in one case: the old file was removed and the rename
   then failed. In that case no setting is left.
   */
  lemma ReplaceIsAtomicExactly(disk: Disk, s: text, io: Io)
    ensures var r := Exchanged(disk, s, io);
            && (r.ok ==> r.disk.active == Some(s))
            && ((r.disk.active == if r.ok then Some(s) else disk.active) <==> !(Loses(io) && disk.active.Some?))
  {
  }

  /**
   After a complete write the temporary file remains, with the new text, exactly when the replacement
   failed and could not be cleaned up; after a failed write it is what that left. So the new text is in
   one of the two files unless it was deleted on purpose.
   */
  lemma TemporaryRemainsExactly(disk: Disk, s: text, io: Io)
    ensures var r := Exchanged(disk, s, io);
            && (!io.written ==> r.disk == Disk(disk.active, io.leftover))
            && (io.written ==> (r.disk.temporary.Some? <==> !r.ok && !io.cleanable))
            && (io.written && r.disk.temporary.Some? ==> r.disk.temporary == Some(s))
            && (io.written && !io.cleanable ==> Some(s) in {r.disk.active, r.disk.temporary})
  {
  }

  /** Removing before the rename can lose every setting, although the update is reported as failed. */
  lemma FailedRenameLosesEverything(disk: Disk, key: text, value: text, io: Io, tag: text, other: text)
    requires Loses(io)
    ensures var r := SetRawKey(disk, key, value, io); !r.ok && Answer(r.disk, true, tag, other) == None
  {
    UpdateIsRemembered(disk, key, value, io);
    AnswerIsLookup(SetRawKey(disk, key, value, io).disk, tag, other);
  }

  /** An accepted update over a file that cannot be read replaces it by what the one written line holds. */
  lemma UnreadableFileIsReplaced(disk: Disk, key: text, value: text, io: Io)
    requires !io.readable
    ensures var r := SetRawKey(disk, key, value, io); r.ok ==> Recall(r.disk) == Memory(true, Held(key, value))
  {
    UpdateIsRemembered(disk, key, value, io);
  }

  /** The new value is read under every spelling of its tag and key, and every other setting as before. */
  ghost predicate AnswersRight(before: Disk, readable: bool, after: Disk, tag: text, key: text, value: text) {
    forall tag', key' :: Answer(after, true, tag', key') ==
                         if Same(FullKey(tag, key), FullKey(tag', key')) then Some(Trim(value))
                         else Answer(before, readable, tag', key')
  }

  /**
   An accepted update leaves the store answering right, as far as the file could be read, if and only if
   the full key is well formed and the value has no newline before its trailing white space.
   */
  lemma SetThenGetExactly(disk: Disk, tag: text, key: text, value: text, io: Io)
    ensures var r := SetRawKey(disk, FullKey(tag, key), value, io);
            r.ok ==> (AnswersRight(disk, io.readable, r.disk, tag, key, value) <==> Survives(FullKey(tag, key), value))
  {
    hide Get, Parse, Updated, Survives, FullKey;
    var full, s := FullKey(tag, key), Read(disk, io.readable);
    var r := SetRawKey(disk, full, value, io);
    UpdateIsRightExactly(s, full, value);
    if r.ok {
      assert Read(r.disk, true) == Updated(s, full, value);
      if Survives(full, value) {
        forall tag', key' ensures Answer(r.disk, true, tag', key') ==
                                  if Same(full, FullKey(tag', key')) then Some(Trim(value))
                                  else Answer(disk, io.readable, tag', key')
        {
          UpdateThenRead(s, full, value, FullKey(tag', key'));
        }
      } else {
        assert Answer(r.disk, true, tag, key) != Some(Trim(value)) && Same(full, FullKey(tag, key));
      }
    }
  }

  // ----- Runs of transactions -----

  datatype Request = Request(tag: text, key: text, value: text, io: Io)

  function Run(disk: Disk, requests: seq<Request>): Disk
    decreases |requests|
  {
    if requests == [] then disk
    else
      var last := requests[|requests| - 1];
      SetRawKey(Run(disk, requests[..|requests| - 1]), FullKey(last.tag, last.key), last.value, last.io).disk
  }

  function Remembered(m: Memory, requests: seq<Request>): Memory
    decreases |requests|
  {
    if requests == [] then m
    else
      var last := requests[|requests| - 1];
      Remember(Remembered(m, requests[..|requests| - 1]), FullKey(last.tag, last.key), last.value, last.io)
  }

  /**
   Over every run of updates, whatever their keys and values and whatever fails, the file holds the
   settings of the abstract memory: accepted updates replace one setting, or all of an unreadable file,
   failing ones change nothing, and a rename that fails after the removal forgets everything.
   */
  lemma {:induction false} StoreIsRemembered(disk: Disk, requests: seq<Request>)
    ensures Recall(Run(disk, requests)) == Remembered(Recall(disk), requests)
    decreases |requests|
  {
    hide Recall, Remember, SetRawKey, FullKey;
    if requests != [] {
      var n := |requests| - 1;
      var last := requests[n];
      StoreIsRemembered(disk, requests[..n]);
      UpdateIsRemembered(Run(disk, requests[..n]), FullKey(last.tag, last.key), last.value, last.io);
    }
  }

  /** The latest value of a setting as a map would remember it; a map is cleared as the memory is. */
  function Latest(m: Memory, requests: seq<Request>, key: text): Option<text>
    decreases |requests|
  {
    if requests == [] then Lookup(m.entries, key)
    else
      var before, last := requests[..|requests| - 1], requests[|requests| - 1];
      if Commits(Remembered(m, before).present, last.io) then
        if Same(FullKey(last.tag, last.key), key) then Some(Trim(last.value))
        else if last.io.readable then Latest(m, before, key)
        else None
      else if Loses(last.io) then None
      else Latest(m, before, key)
  }

  /** Over every run the store answers from the abstract memory. */
  lemma StoreAnswers(disk: Disk, requests: seq<Request>, tag: text, key: text)
    ensures Answer(Run(disk, requests), true, tag, key) ==
            Lookup(Remembered(Recall(disk), requests).entries, FullKey(tag, key))
  {
    StoreIsRemembered(disk, requests);
    AnswerIsLookup(Run(disk, requests), tag, key);
  }

  /** With settings that survive being written, the store is a map, over every run and whatever fails. */
  lemma {:induction false} StoreIsAMap(disk: Disk, requests: seq<Request>, tag: text, key: text)
    requires forall i :: 0 <= i < |requests| ==>
               Survives(FullKey(requests[i].tag, requests[i].key), requests[i].value)
    ensures Answer(Run(disk, requests), true, tag, key) == Latest(Recall(disk), requests, FullKey(tag, key))
  {
    StoreAnswers(disk, requests, tag, key);
    MemoryIsAMap(Recall(disk), requests, FullKey(tag, key));
  }

  lemma {:induction false} MemoryIsAMap(m: Memory, requests: seq<Request>, key: text)
    requires forall i :: 0 <= i < |requests| ==>
               Survives(FullKey(requests[i].tag, requests[i].key), requests[i].value)
    ensures Lookup(Remembered(m, requests).entries, key) == Latest(m, requests, key)
    decreases |requests|
  {
    hide Survives, FullKey, Replace, Held, Commits, Loses;
    if requests != [] {
      var n := |requests| - 1;
      var last := requests[n];
      MemoryIsAMap(m, requests[..n], key);
      assert Survives(FullKey(last.tag, last.key), last.value);
      RememberedLookup(Remembered(m, requests[..n]), FullKey(last.tag, last.key), last.value, last.io, key);
    }
  }

  lemma RememberedLookup(m: Memory, key: text, value: text, io: Io, query: text)
    requires Survives(key, value)
    ensures Lookup(Remember(m, key, value, io).entries, query) ==
            if Commits(m.present, io) then
              if Same(key, query) then Some(Trim(value)) else if io.readable then Lookup(m.entries, query) else None
            else if Loses(io) then None
            else Lookup(m.entries, query)
  {
    hide Survives, Replace, Held;
    SurvivorIsHeld(key, value);
    UppercaseIsSame(key);
    LookupReplaced(if io.readable then m.entries else [], key, Entry(Uppercase(key), Trim(value)), query);
  }

  // ----- The store -----

  class ConfigurationFileStore {
    var disk: Disk

    constructor (disk: Disk)
      ensures this.disk == disk
    {
      this.disk := disk;
    }

    method ReadDocument(readable: bool) returns (document: Document)
      ensures fresh(document) && document.lines == Parse(Read(disk, readable))
    {
      if disk.active.Some? && readable {
        document := new Document(disk.active.value);
      } else {
        document := new Document([]);
      }
    }

    method Lookup(tag: text, key: text, readable: bool) returns (value: Option<text>)
      ensures value == Answer(disk, readable, tag, key)
    {
      var document := ReadDocument(readable);
      var configuration := new Namespace(document, if tag == [] then MAINBOARD else tag);
      value := configuration.Read(key);
    }

    method LookupAll(tag: text, readable: bool) returns (entries: seq<Entry>)
      ensures entries == Below(Entries(Parse(Read(disk, readable))), Prefix(EffectiveTag(tag)))
      ensures forall key :: ConfigurationDocument.Lookup(entries, key) == Answer(disk, readable, tag, key)
    {
      var document := ReadDocument(readable);
      var configuration := new Namespace(document, if tag == [] then MAINBOARD else tag);
      entries := configuration.ReadAll();
      forall key ensures ConfigurationDocument.Lookup(entries, key) == Answer(disk, readable, tag, key) {
        BelowIsLookup(Entries(document.lines), Prefix(EffectiveTag(tag)), key);
        GetIsLookup(document.lines, FullKey(tag, key));
      }
    }

    method Update(tag: text, key: text, value: text, io: Io) returns (ok: bool)
      modifies this
      ensures Result(disk, ok) == SetRawKey(old(disk), FullKey(tag, key), value, io)
    {
      var document := ReadDocument(io.readable);
      var configuration := new Namespace(document, if tag == [] then MAINBOARD else tag);
      configuration.Update(key, value);
      document.RaiseKeys();
      var content := document.Write();
      ok := Exchange(content, io);
    }

    method UpdateRawKey(key: text, value: text, io: Io) returns (ok: bool)
      modifies this
      ensures Result(disk, ok) == SetRawKey(old(disk), key, value, io)
    {
      var document := ReadDocument(io.readable);
      document.Update(key, value);
      document.RaiseKeys();
      var content := document.Write();
      ok := Exchange(content, io);
    }

    method Exchange(content: text, io: Io) returns (ok: bool)
      modifies this
      ensures Result(disk, ok) == Exchanged(old(disk), content, io)
    {
      if !io.written {
        disk := disk.(temporary := io.leftover);
        return false;
      }
      disk := disk.(temporary := Some(content));
      if io.removable { disk := disk.(active := None); }
      if disk.active.Some? || !io.renamable {
        if io.cleanable { disk := disk.(temporary := None); }
        return false;
      }
      disk := Disk(disk.temporary, None);
      return true;
    }
  }
}
