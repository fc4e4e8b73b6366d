/** The local run store: run directories with their metadata, and the logs in them. */
module LocalRuns {
  import opened EditScripts
  import opened Ids
  import opened Retention
  import opened RunLogs
  import opened Seqs
  import opened Sorting
  import opened Wrappers

  datatype StoreError =
    | DirectoryNotMade | DirectoryNotReadable | MetadataNotWritten | NoSuchRun | IndexOutOfRange
    | NoDescriptor | NotEncodable | LogNotWritten | LogNotClosed

  /** A metadata write that fails may leave a file that cannot be read. */
  datatype MetaFault = NoMetaFault | MkdirFails | MetaWriteFails(garbled: bool)

  function MetadataOf(dirs: Dirs, id: RunId): Option<Run> {
    if id in dirs then dirs[id] else None
  }

  /** The directory exists, with whatever metadata it has. */
  function MadeDir(dirs: Dirs, id: RunId): Dirs {
    dirs[id := MetadataOf(dirs, id)]
  }

  class RunStore<E> {
    const codec: Codec<E>
    var dirs: Dirs
    var files: Files
    var logFDs: set<RunId>

    /** Open logs exist, and logs are in run directories. */
    ghost predicate Valid()
      reads this
    {
      logFDs <= files.Keys <= dirs.Keys
    }

    function Logs(): Disk
      reads this
    {
      Disk(files, logFDs)
    }

    constructor (codec: Codec<E>)
      ensures Valid() && this.codec == codec && dirs == map[] && Logs() == Disk(map[], {})
    {
      this.codec, dirs, files, logFDs := codec, map[], map[], {};
    }

    // ----- runs

    /** Both CreateRun and UpdateRun end here. */
    method WriteMetadata(run: Run, fault: MetaFault) returns (r: Result<(), StoreError>)
      requires Valid() && run.id in dirs
      modifies this`dirs
      ensures Valid()
      ensures r == if fault.MetaWriteFails? then Err(MetadataNotWritten) else Ok(())
      ensures dirs == if r.Ok? then old(dirs)[run.id := Some(run)]
                      else if fault.garbled then old(dirs)[run.id := None]
                      else old(dirs)
    {
      if fault.MetaWriteFails? {
        if fault.garbled {
          dirs := dirs[run.id := None];
        }
        return Err(MetadataNotWritten);
      }
      dirs := dirs[run.id := Some(run)];
      r := Ok(());
    }

    method CreateRun(run: Run, fault: MetaFault) returns (r: Result<(), StoreError>)
      requires Valid()
      modifies this`dirs
      ensures Valid() && (old(NamesItself(dirs)) ==> NamesItself(dirs))
      ensures r.Ok? <==> fault.NoMetaFault?
      ensures r.Ok? ==> dirs == old(dirs)[run.id := Some(run)]
      ensures r == Err(DirectoryNotMade) <==> fault.MkdirFails?
      ensures r == Err(DirectoryNotMade) ==> dirs == old(dirs)
      ensures fault.MetaWriteFails? ==> r == Err(MetadataNotWritten)
      ensures fault.MetaWriteFails? ==>
              dirs == old(dirs)[run.id := if fault.garbled then None else MetadataOf(old(dirs), run.id)]
    {
      if fault.MkdirFails? {
        return Err(DirectoryNotMade);
      }
      dirs := MadeDir(dirs, run.id);
      r := WriteMetadata(run, fault);
    }

    method UpdateRun(run: Run, fault: MetaFault) returns (r: Result<(), StoreError>)
      requires Valid()
      modifies this`dirs
      ensures Valid() && (old(NamesItself(dirs)) ==> NamesItself(dirs))
      ensures r == Err(NoSuchRun) <==> run.id !in old(dirs)
      ensures r == Err(NoSuchRun) ==> dirs == old(dirs)
      ensures r.Ok? <==> run.id in old(dirs) && !fault.MetaWriteFails?
      ensures r.Ok? ==> dirs == old(dirs)[run.id := Some(run)]
      ensures run.id in old(dirs) && fault.MetaWriteFails? ==>
              dirs == if fault.garbled then old(dirs)[run.id := None] else old(dirs)
    {
      if run.id !in dirs {
        return Err(NoSuchRun);
      }
      r := WriteMetadata(run, fault);
    }

    /** Closes the run's log first. */
    method DeleteRun(id: RunId, faults: Faults) returns (ok: bool)
      requires Valid()
      modifies this`dirs, this`files, this`logFDs
      ensures Valid() && dirs == DeleteOne(old(dirs), id, faults) && (ok <==> id !in faults)
      ensures ok ==> dirs == old(dirs) - {id}
      ensures !ok ==> dirs == if faults[id].metadataGone && id in old(dirs) then old(dirs)[id := None] else old(dirs)
      ensures old(NamesItself(dirs)) ==> NamesItself(dirs)
      ensures files == if id in faults && !faults[id].logGone then old(files) else old(files) - {id}
      ensures logFDs == old(logFDs) - {id}
    {
      logFDs := logFDs - {id};
      dirs := DeleteOne(dirs, id, faults);
      if id !in faults || faults[id].logGone {
        files := files - {id};
      }
      ok := id !in faults;
    }

    /** `entries` are the directory's entries in the order they are read. */
    method ListRuns(entries: seq<RunId>, readFails: bool) returns (r: Result<seq<Run>, StoreError>)
      requires Enumerates(entries, dirs)
      ensures r == Err(DirectoryNotReadable) <==> readFails
      ensures r.Ok? <==> !readFails
      ensures r.Ok? ==> IsListing(dirs, r.value)
    {
      if readFails {
        return Err(DirectoryNotReadable);
      }
      var runs: seq<Run> := [];
      for i := 0 to |entries|
        invariant runs == Metadata(dirs, entries[..i])
      {
        assert entries[..i + 1][..i] == entries[..i];
        if entries[i] in dirs && dirs[entries[i]].Some? {
          runs := runs + [dirs[entries[i]].value];
        }
      }
      assert entries[..|entries|] == entries;
      SortSorts(Age, runs);
      r := Ok(Sort(Age, runs));
    }

    method CleanOldRuns(entries: seq<RunId>, cutoff: int, readFails: bool, faults: Faults)
      returns (deleted: Result<nat, StoreError>, ghost listing: seq<Run>)
      requires Valid() && Enumerates(entries, dirs)
      modifies this`dirs, this`files, this`logFDs
      ensures Valid()
      ensures readFails ==> deleted == Err(DirectoryNotReadable) && unchanged(this)
      ensures !readFails ==> IsListing(old(dirs), listing)
      ensures old(NamesItself(dirs)) ==> NamesItself(dirs)
      ensures !readFails ==> dirs == DeleteEach(old(dirs), Older(listing, cutoff), faults)
      ensures !readFails ==> deleted == Ok(Deleted(Older(listing, cutoff), faults))
    {
      hide IsListing, Enumerates, Older, DeleteEach, Deleted;
      var listed := ListRuns(entries, readFails);
      if listed.Err? {
        return Err(listed.error), [];
      }
      var runs := listed.value;
      listing := runs;
      var count := 0;
      NothingOlder(dirs, runs, cutoff, faults);
      for i := 0 to |runs|
        invariant Valid() && (old(NamesItself(dirs)) ==> NamesItself(dirs))
        invariant dirs == DeleteEach(old(dirs), Older(runs[..i], cutoff), faults)
        invariant count == Deleted(Older(runs[..i], cutoff), faults)
      {
        StepOlder(old(dirs), runs, i, cutoff, faults);
        if runs[i].startedAt < cutoff {
          var ok := DeleteRun(runs[i].id, faults);
          if ok {
            count := count + 1;
          }
        }
      }
      assert runs[..|runs|] == runs;
      deleted := Ok(count);
    }

    /** A negative count indexes before the start of the list, and panics. */
    method CleanExcessRuns(entries: seq<RunId>, keepCount: int, readFails: bool, faults: Faults)
      returns (deleted: Result<nat, StoreError>, ghost listing: seq<Run>)
      requires Valid() && Enumerates(entries, dirs)
      modifies this`dirs, this`files, this`logFDs
      ensures Valid()
      ensures readFails ==> deleted == Err(DirectoryNotReadable) && unchanged(this)
      ensures !readFails ==> IsListing(old(dirs), listing)
      ensures old(NamesItself(dirs)) ==> NamesItself(dirs)
      ensures !readFails && keepCount < 0 ==> deleted == Err(IndexOutOfRange) && unchanged(this)
      ensures !readFails && keepCount >= 0 ==>
        dirs == DeleteEach(old(dirs), Excess(listing, keepCount), faults)
      ensures !readFails && keepCount >= 0 ==> deleted == Ok(Deleted(Excess(listing, keepCount), faults))
    {
      hide IsListing, Enumerates;
      var listed := ListRuns(entries, readFails);
      if listed.Err? {
        return Err(listed.error), [];
      }
      var runs := listed.value;
      listing := runs;
      if |runs| <= keepCount {
        return Ok(0), listing;
      }
      if keepCount < 0 {
        return Err(IndexOutOfRange), listing;
      }
      var count := 0;
      for i := keepCount to |runs|
        invariant Valid() && (old(NamesItself(dirs)) ==> NamesItself(dirs))
        invariant dirs == DeleteEach(old(dirs), runs[keepCount..][..i - keepCount], faults)
        invariant count == Deleted(runs[keepCount..][..i - keepCount], faults)
      {
        StepEach(old(dirs), runs[keepCount..], i - keepCount, faults);
        var ok := DeleteRun(runs[i].id, faults);
        if ok {
          count := count + 1;
        }
      }
      assert runs[keepCount..][..|runs| - keepCount] == runs[keepCount..];
      deleted := Ok(count);
    }

    // ----- logs

    method GetOrCreateLogFD(id: RunId, fault: WriteFault) returns (ok: bool)
      requires Valid()
      modifies this`dirs, this`files, this`logFDs
      ensures Valid()
      ensures ok <==> Opens(old(Logs()), id, fault)
      ensures Logs() == if ok then OpenLog(old(Logs()), id) else old(Logs())
      ensures ok <==> id in old(logFDs) || !fault.OpenFails?
      ensures ok ==> logFDs == old(logFDs) + {id}
      ensures ok ==> files == old(files)[id := if id in old(files) then old(files)[id] else []]
      ensures old(NamesItself(dirs)) ==> NamesItself(dirs)
      ensures dirs == if ok || (fault.OpenFails? && fault.dirMade) then MadeDir(old(dirs), id) else old(dirs)
    {
      if id in logFDs {
        assert logFDs + {id} == logFDs && files[id := files[id]] == files && dirs[id := dirs[id]] == dirs;
        return true;
      }
      if fault.OpenFails? {
        if fault.dirMade {
          dirs := MadeDir(dirs, id);
        }
        return false;
      }
      dirs := MadeDir(dirs, id);
      files := files[id := Stored(files, id)];
      logFDs := logFDs + {id};
      ok := true;
    }

    /** Adds the line of `entry` to the file, or, when that fails, at most a part of it. */
    method AppendLog(id: RunId, entry: E, fault: WriteFault) returns (r: Result<(), StoreError>)
      requires Valid()
      modifies this`dirs, this`files, this`logFDs
      ensures Valid()
      ensures Logs() == AppendTo(codec, old(Logs()), id, [entry], fault)
      ensures old(NamesItself(dirs)) ==> NamesItself(dirs)
      ensures r == Err(NoDescriptor) <==> id !in old(logFDs) && fault.OpenFails?
      ensures r == Err(NotEncodable) <==> (id in old(logFDs) || !fault.OpenFails?) && codec.encode(entry).None?
      ensures r == Err(LogNotWritten) <==> fault.WriteFails? && codec.encode(entry).Some?
      ensures r != Err(NoDescriptor) ==> logFDs == old(logFDs) + {id}
      ensures r.Ok? ==>
        files == old(files)[id := (if id in old(files) then old(files)[id] else []) + codec.encode(entry).value + [10]]
      ensures r == Err(NoDescriptor) ==> files == old(files) && logFDs == old(logFDs)
      ensures r == Err(NotEncodable) ==> files == old(files)[id := if id in old(files) then old(files)[id] else []]
    {
      OneEntry(codec, entry);
      var ok := GetOrCreateLogFD(id, fault);
      if !ok {
        return Err(NoDescriptor);
      }
      var data := codec.encode(entry);
      if data.None? {
        return Err(NotEncodable);
      }
      var line := data.value + [NEWLINE];
      assert Stored(old(files), id) + line == Stored(old(files), id) + data.value + [NEWLINE];
      files := files[id := files[id] + Written(line, fault)];
      if fault.WriteFails? {
        return Err(LogNotWritten);
      }
      r := Ok(());
    }

    /** Adds the lines of all the entries in one write; one entry that does not encode keeps
        the whole batch out of the file. */
    method AppendLogs(id: RunId, entries: seq<E>, fault: WriteFault) returns (r: Result<(), StoreError>)
      requires Valid()
      modifies this`dirs, this`files, this`logFDs
      ensures Valid()
      ensures Logs() == AppendTo(codec, old(Logs()), id, entries, fault)
      ensures old(NamesItself(dirs)) ==> NamesItself(dirs)
      ensures entries == [] ==> r.Ok? && unchanged(this)
      ensures r == Err(NoDescriptor) <==> entries != [] && id !in old(logFDs) && fault.OpenFails?
      ensures r == Err(NotEncodable) <==>
                entries != [] && (id in old(logFDs) || !fault.OpenFails?) && !Encodable(codec, entries)
      ensures r == Err(NotEncodable) ==> files == old(files)[id := if id in old(files) then old(files)[id] else []]
      ensures r.Ok? && entries != [] ==>
        files == old(files)[id := (if id in old(files) then old(files)[id] else []) + FileOf(codec, entries)]
      ensures r == Err(LogNotWritten) <==> entries != [] && fault.WriteFails? && Encodable(codec, entries)
      ensures r.Ok? || r == Err(NoDescriptor) || r == Err(NotEncodable) || r == Err(LogNotWritten)
    {
      if |entries| == 0 {
        return Ok(());
      }
      var ok := GetOrCreateLogFD(id, fault);
      if !ok {
        return Err(NoDescriptor);
      }
      label ready:
      var buf: Text := [];
      for i := 0 to |entries|
        invariant unchanged@ready(this)
        invariant Encodable(codec, entries[..i]) && buf == FileOf(codec, entries[..i])
      {
        var data := codec.encode(entries[i]);
        if data.None? {
          return Err(NotEncodable);
        }
        assert entries[..i + 1] == entries[..i] + [entries[i]];
        FileSnoc(codec, entries[..i], entries[i]);
        buf := buf + data.value;
        buf := buf + [NEWLINE];
      }
      assert entries[..|entries|] == entries;
      files := files[id := files[id] + Written(buf, fault)];
      if fault.WriteFails? {
        return Err(LogNotWritten);
      }
      r := Ok(());
    }

    /** A run without a log file has no entries.  `failsAt` is the byte before which reading
        the file fails; what was read up to there is dropped. */
    method ReadLogs(id: RunId, openFails: bool, failsAt: Option<nat>) returns (r: Result<seq<E>, ReadError>)
      ensures openFails ==> r == Err(NotReadable)
      ensures !openFails && (failsAt.None? || id !in files) ==> r == Read(codec, Stored(files, id))
      ensures !openFails && failsAt.Some? && id in files ==>
              r == Err(if Read(codec, Readable(files[id], failsAt)).Err? then LineTooLong else NotReadable)
    {
      if openFails {
        return Err(NotReadable);
      }
      if id !in files {
        return Ok([]);
      }
      var rest := Readable(files[id], failsAt);
      ghost var all := rest;
      var entries: seq<E> := [];
      PrependNothing(Read(codec, rest));
      while rest != []
        invariant Read(codec, all) == Prepend(entries, Read(codec, rest))
        decreases |rest|
      {
        var n := LineEnd(rest);
        if n >= MAX_LINE {
          return Err(LineTooLong);
        }
        var entry := codec.decode(DropCR(rest[..n]));
        ghost var before := entries;
        if entry.Some? {
          entries := entries + [entry.value];
        }
        assert entries == before + Decoded(codec, rest[..n]);
        PrependTwice(before, Decoded(codec, rest[..n]), Read(codec, After(rest)));
        rest := After(rest);
      }
      assert entries + [] == entries;
      if failsAt.Some? {
        return Err(NotReadable);
      }
      r := Ok(entries);
    }

    /** The descriptor is given up even if closing it fails. */
    method CloseLogs(id: RunId, closeFails: bool) returns (r: Result<(), StoreError>)
      requires Valid()
      modifies this`logFDs
      ensures Valid() && logFDs == old(logFDs) - {id}
      ensures r == if id in old(logFDs) && closeFails then Err(LogNotClosed) else Ok(())
    {
      if id in logFDs {
        logFDs := logFDs - {id};
        return if closeFails then Err(LogNotClosed) else Ok(());
      }
      r := Ok(());
    }
  }

  lemma NothingOlder(dirs: Dirs, runs: seq<Run>, cutoff: int, faults: Faults)
    ensures DeleteEach(dirs, Older(runs[..0], cutoff), faults) == dirs && Deleted(Older(runs[..0], cutoff), faults) == 0
  {
  }

  /** What a read that fails at `failsAt` still delivers. */
  function Readable(file: Text, failsAt: Option<nat>): Text {
    if failsAt.Some? && failsAt.value < |file| then file[..failsAt.value] else file
  }

  lemma OneEntry<E>(c: Codec<E>, e: E)
    ensures Encodable(c, [e]) <==> c.encode(e).Some?
    ensures c.encode(e).Some? ==> FileOf(c, [e]) == c.encode(e).value + [NEWLINE]
  {
    assert Front([e]) == [] && [e][0] == e;
    if c.encode(e).Some? {
      assert [] + c.encode(e).value + [NEWLINE] == c.encode(e).value + [NEWLINE];
    }
  }
}
