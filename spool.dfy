/**
 * The spool manager (DiskSpool): a directory of batch files that writeBatch
 * adds to after enforceMaxSize has trimmed it to the configured cap.
 *
 * The directory is the field `entries`, in the (unspecified) order in which
 * `listFiles` returns the files. The clock, the random token, the outcome of
 * each file-system call and the compressed size of the new file are inputs.
 */
module Spool {
  import opened Wrappers
  import opened SpoolNames
  import opened BatchFormat
  import opened Retention

  /**
   * Where writing the new file throws, if anywhere: opening it (nothing
   * created), or after `lines` lines have been handed to the writer (a later
   * position than the last line stands for the final flush or close).
   */
  datatype WriteFault = NoFault | OpenFails | FailsAfter(lines: nat)

  /**
   * The inputs writeBatch takes from its environment: `Instant.now()`,
   * `UUID.randomUUID()`, `System.currentTimeMillis()`, how the write goes, the
   * file's size and modification time on disk and whether the clean-up
   * `deleteIfExists` succeeds (its exception is swallowed).
   */
  datatype WriteIo = WriteIo(
    nowMs: int,
    token: string,
    createdAtMs: int,
    fault: WriteFault,
    size: nat,
    mtime: int,
    cleanupDeletes: bool)

  /** How many of `n` lines reach the writer before the fault. */
  function LinesWritten(n: nat, fault: WriteFault): (k: nat)
    ensures k <= n
  {
    match fault
    case NoFault => n
    case OpenFails => 0
    case FailsAfter(m) => if m < n then m else n
  }

  /**
   * The directory after a write of `lines` to the file `name`, starting from
   * the swept directory: opening creates or truncates `name`, and on any
   * exception the clean-up deletes it again unless that delete fails too.
   */
  function AfterWrite(swept: seq<Entry>, name: string, lines: seq<Line>, enc: Line -> string, io: WriteIo): seq<Entry> {
    var created := Without(swept, {name}) + [Entry(name, io.size, io.mtime, Render(enc, lines[..LinesWritten(|lines|, io.fault)]))];
    if io.fault == NoFault then created
    else if io.cleanupDeletes then Without(swept, {name})
    else if io.fault == OpenFails then swept
    else created
  }

  /** The first loop of enforceMaxSize: `for (File f : files) total += f.length()`. */
  method SumSizes(files: seq<Entry>) returns (total: int)
    ensures total == TotalSize(files)
  {
    total := 0;
    for i := 0 to |files|
      invariant total == TotalSize(files[..i])
    {
      assert files[..i + 1] == files[..i] + [files[i]];
      TotalSizeAppend(files[..i], [files[i]]);
      total := total + files[i].size;
    }
    assert files[..|files|] == files;
  }

  class DiskSpool {
    /** `spoolDir`: fixed at construction. */
    const spoolDir: string
    /** `config.getSpoolMaxMb()`. */
    const spoolMaxMb: int32
    /** `gson.toJson` on a line's map. */
    const toJson: Line -> string
    /** The files of the spool directory, in listing order. */
    var entries: seq<Entry>

    ghost predicate Valid()
      reads this
    {
      DistinctNames(entries)
    }

    /** The directory's existing files are an input; creating the directory is not modelled. */
    constructor (spoolDir: string, spoolMaxMb: int32, toJson: Line -> string, existing: seq<Entry>)
      requires DistinctNames(existing)
      ensures Valid()
      ensures this.spoolDir == spoolDir && this.spoolMaxMb == spoolMaxMb && this.toJson == toJson
      ensures entries == existing
    {
      this.spoolDir := spoolDir;
      this.spoolMaxMb := spoolMaxMb;
      this.toJson := toJson;
      entries := existing;
    }

    /** The directory handed to the uploaders: always the one given at construction. */
    function GetSpoolDir(): (dir: string)
      ensures dir == spoolDir
    {
      spoolDir
    }

    /**
     * Deletes the oldest batch files until their total is within the cap.
     * The new directory is Swept of the old one; the properties of Swept are
     * the lemmas of module Retention.
     */
    method EnforceMaxSize(io: SweepIo)
      requires Valid()
      modifies this
      ensures Valid()
      ensures entries == Swept(old(entries), MaxBytes(spoolMaxMb), io)
    {
      var maxBytes := MaxBytes(spoolMaxMb);
      if maxBytes <= 0 {
        SweepDisabledByCap(entries, spoolMaxMb, io);
        return;
      }
      if !io.listed {
        SweepUnlistable(entries, maxBytes, io);
        return;
      }
      var files := Matching(entries);
      if |files| == 0 {
        SweepWithinCap(entries, maxBytes, io);
        return;
      }
      var total := SumSizes(files);
      if total <= maxBytes {
        SweepWithinCap(entries, maxBytes, io);
        return;
      }
      var sorted := SortByMtime(files);
      DeleteOldest(sorted, total, maxBytes, io);
      WithoutDistinct(old(entries), NamesOf(Evict(sorted, total, maxBytes, io.delete).removed));
    }

    /**
     * The try block of enforceMaxSize: walk `sorted`, stop once `total` is
     * within the cap, delete each file and subtract its size when the delete
     * returns true, go on when it returns false, stop when it throws.
     */
    method DeleteOldest(sorted: seq<Entry>, total: int, maxBytes: int, io: SweepIo)
      modifies this
      ensures entries == Without(old(entries), NamesOf(Evict(sorted, total, maxBytes, io.delete).removed))
    {
      ghost var start := entries;
      ghost var gone: seq<Entry> := [];
      WithoutNothing(start);
      var running := total;
      var j := 0;
      while j < |sorted|
        invariant j <= |sorted|
        invariant Evict(sorted, total, maxBytes, io.delete).removed
                  == gone + Evict(sorted[j..], running, maxBytes, io.delete).removed
        invariant entries == Without(start, NamesOf(gone))
        modifies this
      {
        var f := sorted[j];
        if running <= maxBytes {
          break;
        }
        var outcome := io.delete(f);
        if outcome == Threw {
          // The exception leaves the loop; the catch around it only logs.
          break;
        }
        DeletionStep(start, sorted, total, maxBytes, io.delete, j, running, gone);
        // False means the file no longer existed: it is gone all the same.
        entries := Without(entries, {f.name});
        if outcome == Deleted {
          running := running - f.size;
        }
        gone := gone + [f];
        j := j + 1;
      }
      DeletionEnd(sorted, total, maxBytes, io.delete, j, running, gone);
    }

    /**
     * The body of writeBatch's try block: open the file, write the metadata
     * object and then each record's object, each followed by a newline, and
     * flush. Returns the text that reached the file and whether an exception
     * was raised; a fault stops the writing at the line it names.
     */
    method WriteLines(meta: Line, records: seq<PacketRecord>, fault: WriteFault) returns (text: string, failed: bool)
      ensures failed <==> fault != NoFault
      ensures text == Render(toJson, ([meta] + RecordLines(records))[..LinesWritten(|records| + 1, fault)])
    {
      ghost var lines := [meta] + RecordLines(records);
      if fault == OpenFails {
        // `new FileOutputStream(out)` throws before anything is written.
        return "", true;
      }
      if fault == FailsAfter(0) {
        assert lines[..0] == [];
        return "", true;
      }
      WriteStep(toJson, lines, 0);
      text := toJson(meta) + "\n";
      failed := false;
      var i := 0;
      while i < |records|
        invariant 0 <= i <= |records|
        invariant fault.FailsAfter? ==> i + 1 <= fault.lines
        invariant text == Render(toJson, lines[..i + 1])
      {
        if fault == FailsAfter(i + 1) {
          failed := true;
          break;
        }
        WriteStep(toJson, lines, i + 1);
        text := text + toJson(RecordLine(records[i])) + "\n";
        i := i + 1;
      }
      // `writer.flush()` and closing the three streams can throw as well.
      if fault.FailsAfter? {
        failed := true;
      }
      assert i + 1 == LinesWritten(|lines|, fault);
    }

    /**
     * Sweeps, then writes the batch file `batch-<ms>-<token>.ndjson.gz`: the
     * metadata line, then one line per record. Returns the file's name, or
     * None (Java's null) when any step throws.
     */
    method WriteBatch(records: seq<PacketRecord>, serverId: string, sessionId: string, sweep: SweepIo, io: WriteIo)
      returns (out: Option<string>)
      requires Valid()
      modifies this
      ensures Valid()
      ensures out == if io.fault == NoFault then Some(BatchName(io.nowMs, io.token)) else None
      ensures entries == AfterWrite(Swept(old(entries), MaxBytes(spoolMaxMb), sweep),
                                    BatchName(io.nowMs, io.token),
                                    BatchLines(serverId, sessionId, io.createdAtMs, records), toJson, io)
    {
      EnforceMaxSize(sweep);
      var name := BatchName(io.nowMs, io.token);
      var meta := MetaLine(Meta(serverId, sessionId, io.createdAtMs, |records|));
      ghost var swept := entries;
      WithoutDistinct(swept, {name});
      var text, failed := WriteLines(meta, records, io.fault);
      if io.fault == OpenFails {
        // Nothing was created; the clean-up delete may still remove an older file of that name.
        if io.cleanupDeletes {
          entries := Without(entries, {name});
        }
        return None;
      }
      var created := Entry(name, io.size, io.mtime, text);
      entries := Without(entries, {name}) + [created];
      FreshTargetKeepsDistinct(swept, name, created);
      if failed {
        if io.cleanupDeletes {
          DropTarget(swept, name, created);
          entries := Without(entries, {name});
        }
        out := None;
      } else {
        out := Some(name);
      }
    }
  }

  /** Writing the next object and a newline extends the text to one more line. */
  lemma WriteStep(enc: Line -> string, lines: seq<Line>, k: nat)
    requires k < |lines|
    ensures Render(enc, lines[..k]) + enc(lines[k]) + "\n" == Render(enc, lines[..k + 1])
  {
    assert lines[..k + 1] == lines[..k] + [lines[k]];
    RenderAppend(enc, lines[..k], lines[k]);
  }

  /** How one visit of the deletion loop carries its invariant to the next position. */
  lemma DeletionStep(start: seq<Entry>, sorted: seq<Entry>, total: int, maxBytes: int,
                     delete: Entry -> DeleteOutcome, j: nat, running: int, gone: seq<Entry>)
    requires j < |sorted| && running > maxBytes && delete(sorted[j]) != Threw
    requires Evict(sorted, total, maxBytes, delete).removed == gone + Evict(sorted[j..], running, maxBytes, delete).removed
    ensures Evict(sorted, total, maxBytes, delete).removed
            == (gone + [sorted[j]])
               + Evict(sorted[j + 1..], if delete(sorted[j]) == Deleted then running - sorted[j].size else running,
                       maxBytes, delete).removed
    ensures Without(Without(start, NamesOf(gone)), {sorted[j].name}) == Without(start, NamesOf(gone + [sorted[j]]))
  {
    WithoutOneMore(start, gone, sorted[j]);
    var next := if delete(sorted[j]) == Deleted then running - sorted[j].size else running;
    var rest := Evict(sorted[j + 1..], next, maxBytes, delete).removed;
    assert Evict(sorted[j..], running, maxBytes, delete).removed == [sorted[j]] + rest by {
      EvictAt(sorted, j, running, maxBytes, delete);
    }
    assert gone + ([sorted[j]] + rest) == (gone + [sorted[j]]) + rest;
  }

  /** Where the deletion loop stops, the files it removed are those of the eviction. */
  lemma DeletionEnd(sorted: seq<Entry>, total: int, maxBytes: int,
                    delete: Entry -> DeleteOutcome, j: nat, running: int, gone: seq<Entry>)
    requires j <= |sorted|
    requires Evict(sorted, total, maxBytes, delete).removed == gone + Evict(sorted[j..], running, maxBytes, delete).removed
    requires j == |sorted| || running <= maxBytes || delete(sorted[j]) == Threw
    ensures gone == Evict(sorted, total, maxBytes, delete).removed
  {
    if j < |sorted| {
      EvictAt(sorted, j, running, maxBytes, delete);
    } else {
      assert sorted[j..] == [];
    }
    assert gone + [] == gone;
  }

  // ---------------------------------------------------------------------------
  // Properties of a write.

  /** Deleting the target after it was (re)created leaves what deleting it from the start leaves. */
  lemma DropTarget(s: seq<Entry>, name: string, e: Entry)
    requires e.name == name
    ensures Without(Without(s, {name}) + [e], {name}) == Without(s, {name})
  {
    WithoutAppend(Without(s, {name}), [e], {name});
    WithoutTwice(s, {name}, {name});
    assert {name} + {name} == {name};
  }

  lemma FreshTargetKeepsDistinct(s: seq<Entry>, name: string, e: Entry)
    requires DistinctNames(s) && e.name == name
    ensures DistinctNames(Without(s, {name}) + [e])
  {
    var w := Without(s, {name});
    WithoutDistinct(s, {name});
    WithoutNames(s, {name});
    DistinctJoin(w, e);
  }

  lemma {:induction false} DistinctJoin(s: seq<Entry>, e: Entry)
    requires DistinctNames(s) && e.name !in NamesOf(s)
    ensures DistinctNames(s + [e])
    decreases |s|
  {
    if s != [] {
      assert (s + [e])[1..] == s[1..] + [e];
      NamesOfAppend(s[1..], [e]);
      DistinctJoin(s[1..], e);
    } else {
      assert [] + [e] == [e];
    }
  }

  /**
   * A write that succeeds under a fresh name adds exactly one file, the whole
   * batch text, behind the swept directory; every file the sweep left stays.
   */
  lemma WriteAdmitsOneBatch(swept: seq<Entry>, name: string, lines: seq<Line>, enc: Line -> string, io: WriteIo)
    requires io.fault == NoFault
    requires name !in NamesOf(swept)
    ensures AfterWrite(swept, name, lines, enc, io) == swept + [Entry(name, io.size, io.mtime, Render(enc, lines))]
  {
    WithoutIgnoresAbsent(swept, {}, {name});
    assert {} + {name} == {name};
    WithoutNothing(swept);
    assert lines[..|lines|] == lines;
  }

  /**
   * No file is left behind by a failed write whose clean-up succeeds, and a
   * fresh name then leaves the directory exactly as the sweep left it.
   */
  lemma FailedWriteLeavesNoFile(swept: seq<Entry>, name: string, lines: seq<Line>, enc: Line -> string, io: WriteIo)
    requires io.fault != NoFault && io.cleanupDeletes
    ensures name !in NamesOf(AfterWrite(swept, name, lines, enc, io))
    ensures name !in NamesOf(swept) ==> AfterWrite(swept, name, lines, enc, io) == swept
  {
    WithoutNames(swept, {name});
    if name !in NamesOf(swept) {
      WithoutIgnoresAbsent(swept, {}, {name});
      assert {} + {name} == {name};
      WithoutNothing(swept);
    }
  }

  /** Whatever happens, a write changes no file but its own target. */
  lemma WriteTouchesOnlyTarget(swept: seq<Entry>, name: string, lines: seq<Line>, enc: Line -> string, io: WriteIo)
    ensures Without(AfterWrite(swept, name, lines, enc, io), {name}) == Without(swept, {name})
  {
    var e := Entry(name, io.size, io.mtime, Render(enc, lines[..LinesWritten(|lines|, io.fault)]));
    DropTarget(swept, name, e);
    WithoutTwice(swept, {name}, {name});
    assert {name} + {name} == {name};
  }

  /**
   * When the clean-up fails too, the file left behind holds a prefix of the
   * batch text: the lines handed to the writer before the exception, and
   * fewer than all of them unless the failure came at the flush or close.
   */
  lemma FailedWriteLeavesPrefix(swept: seq<Entry>, name: string, lines: seq<Line>, enc: Line -> string, io: WriteIo)
    requires io.fault.FailsAfter? && !io.cleanupDeletes
    ensures var after := AfterWrite(swept, name, lines, enc, io);
      var k := LinesWritten(|lines|, io.fault);
      && |after| > 0
      && after[|after| - 1].name == name
      && after[|after| - 1].content == Render(enc, lines[..k])
      && Render(enc, lines[..k]) <= Render(enc, lines)
      && (io.fault.lines < |lines| ==> k < |lines|)
  {
    var k := LinesWritten(|lines|, io.fault);
    RenderPrefix(enc, lines, k);
  }

  /** The text of the first k lines is a prefix of the text of all of them. */
  lemma {:induction false} RenderPrefix(enc: Line -> string, lines: seq<Line>, k: nat)
    requires k <= |lines|
    ensures Render(enc, lines[..k]) <= Render(enc, lines)
    decreases |lines|
  {
    if k > 0 {
      assert lines[..k][1..] == lines[1..][..k - 1];
      RenderPrefix(enc, lines[1..], k - 1);
    }
  }

  /**
   * The batch written by a successful call passes the next sweep's filter and
   * reads back as its metadata (with `event_count` the number of records)
   * followed by the records in input order.
   */
  lemma WrittenBatchReadsBack(swept: seq<Entry>, records: seq<PacketRecord>, serverId: string, sessionId: string,
                              enc: Line -> string, dec: string -> Option<Line>, io: WriteIo)
    requires io.fault == NoFault
    requires var lines := BatchLines(serverId, sessionId, io.createdAtMs, records);
      forall k :: 0 <= k < |lines| ==> '\n' !in enc(lines[k]) && dec(enc(lines[k])) == Some(lines[k])
    ensures var name := BatchName(io.nowMs, io.token);
      var after := AfterWrite(swept, name, BatchLines(serverId, sessionId, io.createdAtMs, records), enc, io);
      && IsBatchName(after[|after| - 1].name)
      && ReadBatch(after[|after| - 1].content, dec)
         == Some(Batch(Meta(serverId, sessionId, io.createdAtMs, |records|), records))
  {
    var lines := BatchLines(serverId, sessionId, io.createdAtMs, records);
    assert lines[..|lines|] == lines;
    BatchNameIsSwept(io.nowMs, io.token);
    ReadBackBatch(enc, dec, serverId, sessionId, io.createdAtMs, records);
  }

  // ---------------------------------------------------------------------------
  // The worked example of the spool cap: a 10 MB cap over four 3 MB batch files
  // A, B, C, D, oldest first, 12 MB in all, with every delete succeeding.

  const Mb: nat := 0x10_0000
  const FileA: Entry := Entry("a.ndjson.gz", 3 * Mb, 1, "")
  const FileB: Entry := Entry("b.ndjson.gz", 3 * Mb, 2, "")
  const FileC: Entry := Entry("c.ndjson.gz", 3 * Mb, 3, "")
  const FileD: Entry := Entry("d.ndjson.gz", 3 * Mb, 4, "")
  /** A file system on which every `deleteIfExists` returns true. */
  const AlwaysDeletes: Entry -> DeleteOutcome := (e: Entry) => Deleted

  lemma CapScenarioBatchNames()
    ensures IsBatchName(FileA.name) && IsBatchName(FileB.name)
    ensures IsBatchName(FileC.name) && IsBatchName(FileD.name)
  {
    assert FileA.name == "a" + BatchSuffix;
    assert FileB.name == "b" + BatchSuffix;
    assert FileC.name == "c" + BatchSuffix;
    assert FileD.name == "d" + BatchSuffix;
  }

  /** All four are batch files, listed oldest first, 12 MB in all. */
  lemma CapScenarioListing()
    ensures Matching([FileA, FileB, FileC, FileD]) == [FileA, FileB, FileC, FileD]
    ensures SortByMtime([FileA, FileB, FileC, FileD]) == [FileA, FileB, FileC, FileD]
    ensures TotalSize([FileA, FileB, FileC, FileD]) == 12 * Mb
  {
    var all := [FileA, FileB, FileC, FileD];
    CapScenarioBatchNames();
    MatchingAll(all);
    CapScenarioOrder();
    SortOfSorted(all);
    CapScenarioTotal();
  }

  lemma CapScenarioOrder()
    ensures SortedByMtime([FileA, FileB, FileC, FileD])
  {
    var all := [FileA, FileB, FileC, FileD];
    assert forall k :: 0 <= k < 4 ==> all[k].mtime == k + 1;
  }

  lemma CapScenarioTotal()
    ensures TotalSize([FileA, FileB, FileC, FileD]) == 12 * Mb
  {
    var all := [FileA, FileB, FileC, FileD];
    assert all[1..] == [FileB, FileC, FileD];
    assert [FileB, FileC, FileD][1..] == [FileC, FileD];
    assert [FileC, FileD][1..] == [FileD];
    assert TotalSize([FileD]) == 3 * Mb;
    assert TotalSize([FileC, FileD]) == 6 * Mb;
    assert TotalSize([FileB, FileC, FileD]) == 9 * Mb;
  }

  /** With every delete succeeding, the deletion loop deletes A and stops at 9 MB. */
  lemma CapScenarioEvict()
    ensures Evict([FileA, FileB, FileC, FileD], 12 * Mb, MaxBytes(10), AlwaysDeletes).deleted == [FileA]
    ensures Evict([FileA, FileB, FileC, FileD], 12 * Mb, MaxBytes(10), AlwaysDeletes).removed == [FileA]
  {
    var all := [FileA, FileB, FileC, FileD];
    assert all[1..] == [FileB, FileC, FileD];
    assert Evict([FileB, FileC, FileD], 9 * Mb, MaxBytes(10), AlwaysDeletes).removed == [];
  }

  lemma CapScenarioEviction()
    ensures EvictionOf([FileA, FileB, FileC, FileD], MaxBytes(10), SweepIo(true, AlwaysDeletes)).deleted == [FileA]
    ensures EvictionOf([FileA, FileB, FileC, FileD], MaxBytes(10), SweepIo(true, AlwaysDeletes)).removed == [FileA]
  {
    CapScenarioListing();
    CapScenarioEvict();
  }

  lemma CapScenarioWithout()
    ensures Without([FileA, FileB, FileC, FileD], {FileA.name}) == [FileB, FileC, FileD]
  {
    CapScenarioNames();
    assert [FileA, FileB, FileC, FileD][1..] == [FileB, FileC, FileD];
    WithoutIgnoresAbsent([FileB, FileC, FileD], {}, {FileA.name});
    assert {} + {FileA.name} == {FileA.name};
    WithoutNothing([FileB, FileC, FileD]);
  }

  /** The sweep deletes A alone, which leaves 9 MB. */
  lemma CapScenarioSweep()
    ensures Swept([FileA, FileB, FileC, FileD], MaxBytes(10), SweepIo(true, AlwaysDeletes))
            == [FileB, FileC, FileD]
  {
    CapScenarioEviction();
    assert NamesOf([FileA]) == {FileA.name};
    CapScenarioWithout();
  }

  lemma CapScenarioNames()
    ensures NamesOf([FileB, FileC, FileD]) == {FileB.name, FileC.name, FileD.name}
    ensures FileA.name !in NamesOf([FileB, FileC, FileD])
  {
    assert FileA.name[0] == 'a' && FileB.name[0] == 'b' && FileC.name[0] == 'c' && FileD.name[0] == 'd';
    assert NamesOf([FileD]) == {FileD.name};
    assert NamesOf([FileC, FileD]) == {FileC.name, FileD.name};
  }

  /** No name that starts with the batch prefix is one of B, C, D. */
  lemma CapScenarioFresh(name: string)
    requires |name| > |BatchPrefix| && name[..|BatchPrefix|] == BatchPrefix
    ensures name !in NamesOf([FileB, FileC, FileD])
  {
    assert name[1] == BatchPrefix[1] == 'a';
    assert FileB.name[1] == '.' && FileC.name[1] == '.' && FileD.name[1] == '.';
    CapScenarioNames();
  }

  /**
   * Writing a new batch into that spool: the sweep deletes A, and a write
   * that succeeds leaves B, C, D and the new file.
   */
  lemma CapScenario(io: WriteIo, lines: seq<Line>, enc: Line -> string)
    requires io.fault == NoFault
    ensures var name := BatchName(io.nowMs, io.token);
      AfterWrite(Swept([FileA, FileB, FileC, FileD], MaxBytes(10), SweepIo(true, AlwaysDeletes)),
                 name, lines, enc, io)
      == [FileB, FileC, FileD, Entry(name, io.size, io.mtime, Render(enc, lines))]
  {
    var name := BatchName(io.nowMs, io.token);
    CapScenarioSweep();
    BatchNameIsSwept(io.nowMs, io.token);
    CapScenarioFresh(name);
    WriteAdmitsOneBatch([FileB, FileC, FileD], name, lines, enc, io);
  }
}
