/** `Disk.commit` on values: the contents of the files it works on, the caches of the
    two headers, and the four writes, both as the code performs them and as they are
    meant to be performed. */
module GptCommit {
  import opened Bytes
  import opened FileImage
  import opened Gpt

  /** The exceptions the code raises: `IOError` from `commit`, `struct.error` from
      unpacking a short read, `AttributeError` from reading the backup header before
      the primary one. */
  datatype Error = IOError | StructError | AttributeError

  datatype Result<T> = Ok(value: T) | Err(error: Error)

  /** The four writes `commit` performs, in order: the header at LBA 1, its table at
      `partition_table_lba`, the backup header at `backup_lba`, its table at the backup
      header's `partition_table_lba`. Each `s` is how far past that block the cursor
      stood when the write happened. */
  function CommitWrites(h: Header, t: seq<Partition>, bh: Header, bt: seq<Partition>,
                        s1: nat, s2: nat, s3: nat, s4: nat): (r: seq<Write>)
    ensures |r| == 4
  {
    [Write(LBA_SIZE * 1 + s1, PackHeader(h, true)),
     Write(LBA_SIZE * h.partitionTableLba + s2, PackTable(t)),
     Write(LBA_SIZE * h.backupLba + s3, PackHeader(bh, true)),
     Write(LBA_SIZE * bh.partitionTableLba + s4, PackTable(bt))]
  }

  /** What `commit` is meant to write: every record at the start of its block. */
  function IntendedWrites(h: Header, t: seq<Partition>, bh: Header, bt: seq<Partition>): seq<Write>
  {
    CommitWrites(h, t, bh, bt, 0, 0, 0, 0)
  }

  /** How far past its block a record lands: the length of what was just read there
      when the read went through the file being written, nothing otherwise. */
  function Shift(sameFile: bool, wasRead: bool, n: nat): nat
  {
    if sameFile && wasRead then n else 0
  }

  /** The contents of the files `commit` works on: the disk's own file, through which
      every lazy read goes, and the file written to when that is another one. */
  datatype Files = Files(own: seq<Byte>, other: Option<seq<Byte>>)
  {
    /** The contents of the file written to. */
    function Written(): seq<Byte>
    {
      if other.Some? then other.value else own
    }

    /** `b` written at `at` into the file written to. */
    function WriteAt(at: nat, b: seq<Byte>): (r: Files)
      ensures r.Written() == Overwrite(Written(), at, b)
      ensures other.Some? ==> r.own == own
      ensures r.other.Some? == other.Some?
    {
      if other.Some? then Files(own, Some(Overwrite(other.value, at, b))) else Files(Overwrite(own, at, b), None)
    }

    /** The writes `ws`, in order, into the file written to. */
    function WriteAll(ws: seq<Write>): (r: Files)
      ensures r.Written() == ApplyWrites(Written(), ws)
      ensures other.Some? ==> r.own == own
      ensures r.other.Some? == other.Some?
    {
      if other.Some? then Files(own, Some(ApplyWrites(other.value, ws))) else Files(ApplyWrites(own, ws), None)
    }
  }

  /** A cached header: its fields and, once it has been read, its table's entries. */
  datatype Cached = Cached(fields: Header, table: Option<seq<Partition>>)

  /** How one step of `commit` ends: whether it succeeded, the header's cache after it,
      and the files. */
  datatype Step = Step(ok: bool, cache: Option<Cached>, files: Files)

  /** How `commit` ends: its result, the files, and the caches of the header and of the
      backup header. */
  datatype Outcome = Outcome(result: Result<()>, files: Files, header: Option<Cached>, backup: Option<Cached>)

  /** The `header` (or `backup_header`) property at block `lba`: the cached header, or
      the one unpacked from the `HEADER_SIZE` bytes there; `None` for `struct.error`. */
  function LoadHeader(d: seq<Byte>, lba: nat, c: Option<Cached>): (r: Option<Cached>)
    ensures c.Some? ==> r == c
    ensures c.None? ==> (r.Some? <==> LBA_SIZE * lba + HEADER_SIZE <= |d|)
    ensures c.None? && r.Some? ==> r.value.table.None? && Some(r.value.fields) == UnpackHeader(Slice(d, LBA_SIZE * lba, HEADER_SIZE))
  {
    if c.Some? then c
    else
      var u := UnpackHeader(Slice(d, LBA_SIZE * lba, HEADER_SIZE));
      if u.None? then None else Some(Cached(u.value, None))
  }

  /** The `partition_table` property of a header: the cached entries, or the ones read
      from its `partition_table_lba`; `None` for `struct.error`. */
  function LoadTable(d: seq<Byte>, c: Cached): (r: Option<Cached>)
    ensures r.Some? ==> r.value.fields == c.fields && r.value.table.Some?
    ensures c.table.Some? ==> r == Some(c)
    ensures c.table.None? && r.Some? ==>
              |r.value.table.value| == c.fields.partitionTableSize &&
              forall k :: 0 <= k < |r.value.table.value| ==> WellFormedPartition(r.value.table.value[k])
    ensures c.table.None? && c.fields.partitionTableEntrySize == ENTRY_SIZE ==>
              (r.Some? <==> c.fields.partitionTableSize == 0 ||
                            LBA_SIZE * c.fields.partitionTableLba + ENTRY_SIZE * c.fields.partitionTableSize <= |d|)
  {
    if c.table.Some? then Some(c)
    else
      var pos, n, size := LBA_SIZE * c.fields.partitionTableLba, c.fields.partitionTableSize,
                          c.fields.partitionTableEntrySize;
      var e := ReadEntries(d, pos, n, size);
      ReadEntriesSucceeds(d, pos, n);
      if e.None? then None
      else
        ReadEntriesWellFormed(d, pos, n, size);
        Some(c.(table := e))
  }

  /** One header step of `commit`: seek to block `lba`, obtain the header (read through
      the disk's own file when not cached) and write its packing at the cursor. When the
      disk's own file is the one written to, a read has left the cursor past the header. */
  function HeaderStep(fs: Files, lba: nat, c: Option<Cached>): (r: Step)
    ensures r.ok ==> r.cache.Some?
  {
    var l := LoadHeader(fs.own, lba, c);
    if l.None? then Step(false, c, fs)
    else Step(true, l, fs.WriteAt(LBA_SIZE * lba + Shift(fs.other.None?, c.None?, HEADER_SIZE), PackHeader(l.value.fields, true)))
  }

  /** One table step of `commit`: seek to the header's `partition_table_lba`, obtain its
      table (read through the disk's own file when not cached) and write its packing at
      the cursor, past the entries just read when they were read through that file. */
  function TableStep(fs: Files, c: Cached): (r: Step)
    ensures r.cache.Some? && r.cache.value.fields == c.fields
    ensures r.ok ==> r.cache.value.table.Some?
  {
    var l := LoadTable(fs.own, c);
    if l.None? then Step(false, Some(c), fs)
    else
      var ps := l.value.table.value;
      Step(true, l, fs.WriteAt(LBA_SIZE * c.fields.partitionTableLba + Shift(fs.other.None?, c.table.None?, 128 * |ps|),
                               PackTable(ps)))
  }

  /** A header step and, when it succeeds, the step for that header's table. */
  function HeaderPhase(fs: Files, lba: nat, c: Option<Cached>): (r: Step)
    ensures r.ok ==> r.cache.Some? && r.cache.value.table.Some?
  {
    var s := HeaderStep(fs, lba, c);
    if !s.ok then s else TableStep(s.files, s.cache.value)
  }

  /** `commit` on the pure state: the header and its table, then the backup header (at
      the header's `backup_lba`) and its table, each step seeing the files as the
      previous steps left them; the first step that fails ends it with `struct.error`. */
  function CommitModel(fs: Files, h: Option<Cached>, b: Option<Cached>): Outcome
  {
    var p := HeaderPhase(fs, 1, h);
    if !p.ok then Outcome(Err(StructError), p.files, p.cache, b)
    else
      var q := HeaderPhase(p.files, p.cache.value.fields.backupLba, b);
      Outcome(if q.ok then Ok(()) else Err(StructError), q.files, p.cache, q.cache)
  }

  lemma CommitPrimaryFails(fs: Files, h: Option<Cached>, b: Option<Cached>)
    requires !HeaderPhase(fs, 1, h).ok
    ensures var p := HeaderPhase(fs, 1, h);
            CommitModel(fs, h, b) == Outcome(Err(StructError), p.files, p.cache, b)
  {
  }

  lemma CommitBothPhases(fs: Files, h: Option<Cached>, b: Option<Cached>)
    requires HeaderPhase(fs, 1, h).ok
    ensures var p := HeaderPhase(fs, 1, h);
            var q := HeaderPhase(p.files, p.cache.value.fields.backupLba, b);
            CommitModel(fs, h, b) == Outcome(if q.ok then Ok(()) else Err(StructError), q.files, p.cache, q.cache)
  {
  }

  /** A header step that loads (or has) the header `l` writes its packing. */
  lemma HeaderStepWrites(fs: Files, lba: nat, c: Option<Cached>, l: Cached)
    requires LoadHeader(fs.own, lba, c) == Some(l)
    ensures HeaderStep(fs, lba, c)
         == Step(true, Some(l), fs.WriteAt(LBA_SIZE * lba + Shift(fs.other.None?, c.None?, HEADER_SIZE), PackHeader(l.fields, true)))
  {
  }

  /** A header step whose read fails writes nothing. */
  lemma HeaderStepFails(fs: Files, lba: nat, c: Option<Cached>)
    requires LoadHeader(fs.own, lba, c).None?
    ensures HeaderStep(fs, lba, c) == Step(false, c, fs)
  {
  }

  /** A table step whose read fails writes nothing. */
  lemma TableStepFails(fs: Files, c: Cached)
    requires LoadTable(fs.own, c).None?
    ensures TableStep(fs, c) == Step(false, Some(c), fs)
  {
  }

  /** A table step that loads (or has) the entries `ps` writes their packing. */
  lemma TableStepWrites(fs: Files, c: Cached, ps: seq<Partition>)
    requires LoadTable(fs.own, c) == Some(c.(table := Some(ps)))
    ensures TableStep(fs, c)
         == Step(true, Some(c.(table := Some(ps))),
                 fs.WriteAt(LBA_SIZE * c.fields.partitionTableLba + Shift(fs.other.None?, c.table.None?, 128 * |ps|), PackTable(ps)))
  {
  }


  /** How the reads of a phase end: whether they succeeded, and the header's cache. */
  datatype Load = Load(ok: bool, cache: Option<Cached>)

  /** The reads of one phase of the intended commit: the header at block `lba` and then
      its table, both through the disk's own file; nothing is written. */
  function LoadPhase(d: seq<Byte>, lba: nat, c: Option<Cached>): (r: Load)
    ensures r.ok ==> r.cache.Some? && r.cache.value.table.Some?
  {
    var lh := LoadHeader(d, lba, c);
    if lh.None? then Load(false, c)
    else
      var lt := LoadTable(d, lh.value);
      if lt.None? then Load(false, lh) else Load(true, lt)
  }

  /** What `commit` is meant to do: obtain the header, its table, the backup header and
      its table, each read through the disk's own file before anything is written, and
      then write every record at the start of its block. A read that fails ends it with
      `struct.error` before the first write. */
  function IntendedCommit(fs: Files, h: Option<Cached>, b: Option<Cached>): (r: Outcome)
    ensures r.result.Err? ==> r.result == Err(StructError) && r.files == fs
  {
    var p := LoadPhase(fs.own, 1, h);
    if !p.ok then Outcome(Err(StructError), fs, p.cache, b)
    else
      var q := LoadPhase(fs.own, p.cache.value.fields.backupLba, b);
      if !q.ok then Outcome(Err(StructError), fs, p.cache, q.cache)
      else
        var c, bc := p.cache.value, q.cache.value;
        Outcome(Ok(()), fs.WriteAll(IntendedWrites(c.fields, c.table.value, bc.fields, bc.table.value)), p.cache, q.cache)
  }

  /** The writes a successful commit ending in `o` performed at the start of each block. */
  function OutcomeWrites(o: Outcome): seq<Write>
    requires o.header.Some? && o.header.value.table.Some? && o.backup.Some? && o.backup.value.table.Some?
  {
    IntendedWrites(o.header.value.fields, o.header.value.table.value, o.backup.value.fields, o.backup.value.table.value)
  }

  /** No write of `ws` overlaps a later one. */
  predicate Disjoint(ws: seq<Write>)
  {
    forall i :: 0 <= i < |ws| ==> LastOver(ws, i)
  }

  /** One phase of `commit` on another file than the disk's own: it reads what the
      intended phase reads, through the untouched own file, and writes the header and then
      its table without a shift. */
  lemma PhaseElsewhere(fs: Files, lba: nat, c: Option<Cached>)
    requires fs.other.Some?
    ensures PhaseAsLoaded(fs, lba, c)
  {
    var lh := LoadHeader(fs.own, lba, c);
    if lh.Some? {
      PhaseElsewhereLoaded(fs, lba, c, lh.value);
    } else {
      HeaderStepFails(fs, lba, c);
    }
  }

  /** The phase reads what `LoadPhase` reads, leaves the own file alone and writes the
      header and then its table at the start of their blocks. */
  predicate PhaseAsLoaded(fs: Files, lba: nat, c: Option<Cached>)
  {
    var p, l := HeaderPhase(fs, lba, c), LoadPhase(fs.own, lba, c);
    p.ok == l.ok && p.cache == l.cache && p.files.own == fs.own && p.files.other.Some? &&
    (p.ok ==>
       p.files.Written()
       == Overwrite(Overwrite(fs.Written(), LBA_SIZE * lba, PackHeader(p.cache.value.fields, true)),
                    LBA_SIZE * p.cache.value.fields.partitionTableLba, PackTable(p.cache.value.table.value)))
  }

  /** `PhaseElsewhere` once the header `l` is obtained. */
  lemma PhaseElsewhereLoaded(fs: Files, lba: nat, c: Option<Cached>, l: Cached)
    requires fs.other.Some? && LoadHeader(fs.own, lba, c) == Some(l)
    ensures PhaseAsLoaded(fs, lba, c)
  {
    HeaderStepWrites(fs, lba, c, l);
    var s1 := HeaderStep(fs, lba, c);
    var f1 := fs.WriteAt(LBA_SIZE * lba, PackHeader(l.fields, true));
    assert s1 == Step(true, Some(l), f1);
    var lt := LoadTable(fs.own, l);
    if lt.None? {
      TableStepFails(f1, l);
    } else {
      var ps := lt.value.table.value;
      TableStepWrites(f1, l, ps);
      var f2 := f1.WriteAt(LBA_SIZE * l.fields.partitionTableLba, PackTable(ps));
      assert HeaderPhase(fs, lba, c) == Step(true, lt, f2);
    }
  }

  /** Committing to another file than the disk's own (as `dump_to_disk` and the converter
      do) reads every record from the untouched disk and writes each at the start of its
      block: it ends as the intended commit does, except that a read failing after the
      first write leaves the earlier writes in place. */
  lemma CommitElsewhere(fs: Files, h: Option<Cached>, b: Option<Cached>)
    requires fs.other.Some?
    ensures var o, i := CommitModel(fs, h, b), IntendedCommit(fs, h, b);
            o.files.own == fs.own && o.result == i.result && o.header == i.header && o.backup == i.backup &&
            (o.result.Ok? ==> o.files == i.files)
  {
    PhaseElsewhere(fs, 1, h);
    var p := HeaderPhase(fs, 1, h);
    if !p.ok {
      CommitPrimaryFails(fs, h, b);
    } else {
      CommitBothPhases(fs, h, b);
      var c := p.cache.value;
      PhaseElsewhere(p.files, c.fields.backupLba, b);
      var q := HeaderPhase(p.files, c.fields.backupLba, b);
      assert LoadPhase(p.files.own, c.fields.backupLba, b) == LoadPhase(fs.own, c.fields.backupLba, b);
      if q.ok {
        var bc := q.cache.value;
        var ws := IntendedWrites(c.fields, c.table.value, bc.fields, bc.table.value);
        ApplyFourFlat(fs.other.value, ws[0], ws[1], ws[2], ws[3]);
        assert q.files.Written() == ApplyWrites(fs.Written(), ws);
        assert q.files == fs.WriteAll(ws);
      }
    }
  }

  /** `commit` on the disk's own file with the header not yet cached: reading it leaves
      the cursor past it, and the header is written `HEADER_SIZE` bytes into block 1
      instead of at its start; the table step then starts from that file. */
  lemma CommitMisplacesHeader(fs: Files)
    requires fs.other.None?
    requires UnpackHeader(Slice(fs.own, LBA_SIZE, HEADER_SIZE)).Some?
    ensures var u := UnpackHeader(Slice(fs.own, LBA_SIZE, HEADER_SIZE)).value;
            var written := Overwrite(fs.own, LBA_SIZE + HEADER_SIZE, PackHeader(u, true));
            HeaderStep(fs, 1, None) == Step(true, Some(Cached(u, None)), Files(written, None)) &&
            HeaderPhase(fs, 1, None) == TableStep(Files(written, None), Cached(u, None))
  {
    var u := UnpackHeader(Slice(fs.own, LBA_SIZE, HEADER_SIZE)).value;
    HeaderStepWrites(fs, 1, None, Cached(u, None));
  }

  /** A phase whose header and table are both cached reads nothing and writes both at
      the start of their blocks. */
  lemma PhaseCached(fs: Files, lba: nat, c: Option<Cached>)
    requires c.Some? && c.value.table.Some?
    ensures LoadPhase(fs.own, lba, c) == Load(true, c)
    ensures HeaderPhase(fs, lba, c)
         == Step(true, c, fs.WriteAt(LBA_SIZE * lba, PackHeader(c.value.fields, true))
                            .WriteAt(LBA_SIZE * c.value.fields.partitionTableLba, PackTable(c.value.table.value)))
  {
    var hd := c.value;
    HeaderStepWrites(fs, lba, c, hd);
    var f1 := fs.WriteAt(LBA_SIZE * lba, PackHeader(hd.fields, true));
    assert HeaderStep(fs, lba, c) == Step(true, c, f1);
    TableStepWrites(f1, hd, hd.table.value);
    assert hd.(table := Some(hd.table.value)) == hd;
  }

  /** With the header, the backup header and both their tables already cached, `commit`
      reads nothing, and so it is the intended commit on any file. */
  lemma CommitAllCached(fs: Files, h: Option<Cached>, b: Option<Cached>)
    requires h.Some? && h.value.table.Some? && b.Some? && b.value.table.Some?
    ensures CommitModel(fs, h, b) == IntendedCommit(fs, h, b)
    ensures CommitModel(fs, h, b).result.Ok?
  {
    var c, bc := h.value, b.value;
    PhaseCached(fs, 1, h);
    CommitBothPhases(fs, h, b);
    var p := HeaderPhase(fs, 1, h);
    PhaseCached(p.files, c.fields.backupLba, b);
    var q := HeaderPhase(p.files, c.fields.backupLba, b);
    var ws := IntendedWrites(c.fields, c.table.value, bc.fields, bc.table.value);
    ApplyFourFlat(fs.Written(), ws[0], ws[1], ws[2], ws[3]);
    assert q.files.Written() == ApplyWrites(fs.Written(), ws);
    assert q.files == fs.WriteAll(ws);
  }

  /** A successful intended commit writes the four records at the starts of their blocks
      and nothing else: every byte outside them keeps its value, the disk's own file is
      untouched when another file is written, and when no record overlaps a later one
      each can be read back whole where it was written. */
  lemma IntendedCommitWrites(fs: Files, h: Option<Cached>, b: Option<Cached>)
    requires IntendedCommit(fs, h, b).result.Ok?
    ensures var i := IntendedCommit(fs, h, b);
            i.header.Some? && i.header.value.table.Some? && i.backup.Some? && i.backup.value.table.Some? &&
            var ws, d, e := OutcomeWrites(i), fs.Written(), i.files.Written();
            e == ApplyWrites(d, ws) &&
            (fs.other.Some? ==> i.files.own == fs.own) &&
            (forall k :: 0 <= k < |d| && !Covered(ws, k) ==> k < |e| && e[k] == d[k]) &&
            (Disjoint(ws) ==> forall j :: 0 <= j < |ws| ==> Slice(e, ws[j].offset, |ws[j].bytes|) == ws[j].bytes)
  {
    var i := IntendedCommit(fs, h, b);
    var ws, d, e := OutcomeWrites(i), fs.Written(), i.files.Written();
    forall k | 0 <= k < |d| && !Covered(ws, k) ensures k < |e| && e[k] == d[k] {
      Untouched(d, ws, k);
    }
    if Disjoint(ws) {
      forall j | 0 <= j < |ws| ensures Slice(e, ws[j].offset, |ws[j].bytes|) == ws[j].bytes {
        WriteLands(d, ws, j);
      }
    }
  }

  /** After a successful intended commit whose records do not overlap, reading the header
      at block 1 gives back the committed header. */
  lemma IntendedHeaderReadsBack(fs: Files, h: Option<Cached>, b: Option<Cached>)
    requires IntendedCommit(fs, h, b).result.Ok?
    requires var i := IntendedCommit(fs, h, b);
             Disjoint(OutcomeWrites(i)) && WellFormedHeader(i.header.value.fields)
    ensures var i := IntendedCommit(fs, h, b);
            UnpackHeader(Slice(i.files.Written(), LBA_SIZE, HEADER_SIZE)) == Some(i.header.value.fields)
  {
    var i := IntendedCommit(fs, h, b);
    IntendedCommitWrites(fs, h, b);
    var ws := OutcomeWrites(i);
    assert ws[0] == Write(LBA_SIZE * 1, PackHeader(i.header.value.fields, true));
    WriteLands(fs.Written(), ws, 0);
    HeaderRoundTrip(i.header.value.fields);
  }

  /** After a successful intended commit whose records do not overlap, reading the header's
      table of 128-byte entries back from its block gives the committed entries. */
  lemma IntendedTableReadsBack(fs: Files, h: Option<Cached>, b: Option<Cached>)
    requires IntendedCommit(fs, h, b).result.Ok?
    requires var i := IntendedCommit(fs, h, b);
             var ps := i.header.value.table.value;
             Disjoint(OutcomeWrites(i)) && forall k :: 0 <= k < |ps| ==> WellFormedPartition(ps[k])
    ensures var i := IntendedCommit(fs, h, b);
            var ps := i.header.value.table.value;
            ReadEntries(i.files.Written(), LBA_SIZE * i.header.value.fields.partitionTableLba, |ps|, ENTRY_SIZE) == Some(ps)
  {
    var i := IntendedCommit(fs, h, b);
    var ps := i.header.value.table.value;
    var e := i.files.Written();
    var at := LBA_SIZE * i.header.value.fields.partitionTableLba;
    IntendedCommitWrites(fs, h, b);
    var ws := OutcomeWrites(i);
    assert ws[1] == Write(at, PackTable(ps));
    WriteLands(fs.Written(), ws, 1);
    if ps == [] {
      ReadPackedTable([], ps, []);
      assert ReadEntries(e, at, 0, ENTRY_SIZE) == ReadEntries([], 0, 0, ENTRY_SIZE);
    } else {
      SliceSplit(e, at, PackTable(ps));
      ReadPackedTable(e[..at], ps, e[at + |PackTable(ps)|..]);
    }
  }

  /** After a successful intended commit whose records do not overlap, and whose backup
      header was read from the disk's own file, the bytes of the backup header are what
      that file held there: the backup header is written back exactly as it was read. */
  lemma IntendedBackupKept(fs: Files, h: Option<Cached>)
    requires IntendedCommit(fs, h, None).result.Ok?
    requires Disjoint(OutcomeWrites(IntendedCommit(fs, h, None)))
    ensures var i := IntendedCommit(fs, h, None);
            var at := LBA_SIZE * i.header.value.fields.backupLba;
            Slice(i.files.Written(), at, HEADER_SIZE) == Slice(fs.own, at, HEADER_SIZE)
  {
    var i := IntendedCommit(fs, h, None);
    var ws := OutcomeWrites(i);
    var at := LBA_SIZE * i.header.value.fields.backupLba;
    assert i.files.Written() == ApplyWrites(fs.Written(), ws);
    assert ws[2] == Write(at, PackHeader(i.backup.value.fields, true));
    WriteLands(fs.Written(), ws, 2);
    assert Some(i.backup.value.fields) == UnpackHeader(Slice(fs.own, at, HEADER_SIZE));
    HeaderBytesRoundTrip(Slice(fs.own, at, HEADER_SIZE));
  }

  /** Committing again what a successful intended commit left, with nothing changed in
      between, reads nothing (every record is cached) and writes the same bytes at the
      same places: it ends exactly as the first commit did. */
  lemma IntendedCommitTwice(fs: Files, h: Option<Cached>, b: Option<Cached>)
    requires IntendedCommit(fs, h, b).result.Ok?
    ensures var i := IntendedCommit(fs, h, b);
            IntendedCommit(i.files, i.header, i.backup) == i
  {
    var i := IntendedCommit(fs, h, b);
    IntendedCommitWrites(fs, h, b);
    var ws := OutcomeWrites(i);
    var c, bc := i.header.value, i.backup.value;
    assert LoadPhase(i.files.own, 1, i.header) == Load(true, i.header);
    assert LoadPhase(i.files.own, c.fields.backupLba, i.backup) == Load(true, i.backup);
    assert IntendedCommit(i.files, i.header, i.backup) == Outcome(Ok(()), i.files.WriteAll(ws), i.header, i.backup);
    WritesIdempotent(fs.Written(), ws);
    assert i.files.WriteAll(ws) == i.files;
  }

  /** Two commits in a row to another file than the disk's own, with nothing changed in
      between, write the same bytes: the second ends exactly as the first. */
  lemma CommitTwice(fs: Files, h: Option<Cached>, b: Option<Cached>)
    requires fs.other.Some? && CommitModel(fs, h, b).result.Ok?
    ensures var o := CommitModel(fs, h, b);
            CommitModel(o.files, o.header, o.backup) == o
  {
    var o := CommitModel(fs, h, b);
    CommitElsewhere(fs, h, b);
    var i := IntendedCommit(fs, h, b);
    assert o == i;
    IntendedCommitWrites(fs, h, b);
    CommitAllCached(o.files, o.header, o.backup);
    IntendedCommitTwice(fs, h, b);
  }

  /** The disk's own file beside a new one holding zeros up to the end of block
      `last_lba` of the header `l`. */
  function DumpFiles(d: seq<Byte>, l: Cached): (fs: Files)
    ensures fs.own == d && fs.other.Some? && fs.Written() == Zeros(LBA_SIZE * l.fields.lastLba + LBA_SIZE)
  {
    Files(d, Some(Zeros(LBA_SIZE * l.fields.lastLba + LBA_SIZE)))
  }

  /** `dump_to_disk` on values: the header is obtained first (for its `last_lba`); the new
      file, holding zeros up to the end of that block, then receives the commit. */
  function DumpModel(d: seq<Byte>, h: Option<Cached>, b: Option<Cached>): Outcome
  {
    var lh := LoadHeader(d, 1, h);
    if lh.None? then Outcome(Err(StructError), Files(d, Some([])), h, b)
    else CommitModel(DumpFiles(d, lh.value), lh, b)
  }

  /** A dump whose header loads commits to the zeroed file. */
  lemma DumpCommits(d: seq<Byte>, h: Option<Cached>, b: Option<Cached>, lh: Option<Cached>)
    requires LoadHeader(d, 1, h) == lh && lh.Some?
    ensures DumpModel(d, h, b) == CommitModel(DumpFiles(d, lh.value), lh, b)
  {
  }

  /** A dump commits to another file than the disk's own, so it is the intended commit:
      the disk is left as it was and, when it succeeds, the new file holds the intended writes. */
  lemma DumpIntended(d: seq<Byte>, h: Option<Cached>, b: Option<Cached>)
    ensures var o := DumpModel(d, h, b);
            var lh := LoadHeader(d, 1, h);
            o.files.own == d &&
            (lh.None? ==> o.result == Err(StructError) && o.files.Written() == []) &&
            (lh.Some? ==>
               var i := IntendedCommit(DumpFiles(d, lh.value), lh, b);
               o.result == i.result && o.header == i.header && o.backup == i.backup &&
               (o.result.Ok? ==> o.files == i.files))
  {
    var lh := LoadHeader(d, 1, h);
    if lh.Some? {
      CommitElsewhere(DumpFiles(d, lh.value), lh, b);
    }
  }
}
