/** `gptutil`'s objects: a `Disk` over a file with lazily read GPT headers, a
    `GPTHeader` with a lazily read partition table, and a `GPTPartitionTable`
    holding the entries. A cache that Python keeps in an attribute set on first
    use (`hasattr`) is a nullable field here: `null` until it is read. */
module GptDisk {
  import opened Bytes
  import opened FileImage
  import opened Records
  import opened Gpt
  import opened GptCommit

  /** The cache a `GPTHeader` object holds: nothing before it is read, else its fields
      and, once read, its table's entries. */
  ghost function CacheOf(h: GptHeader?): Option<Cached>
    reads h, if h != null then h.table else null
  {
    if h == null then None
    else Some(Cached(h.fields, if h.table == null then None else Some(h.table.partitions)))
  }

  /** A GPT disk over an open file; `write` is the flag `from_path` opened it with. */
  class Disk {
    const file: File
    const write: bool
    var gptHeader: GptHeader?
    var gptBackupHeader: GptHeader?

    /** Every cached object belongs to this disk, every cached table to its header, and
        the two headers are distinct objects. */
    predicate Valid()
      reads this, gptHeader, gptBackupHeader
    {
      (gptHeader != null && gptBackupHeader != null ==> gptHeader != gptBackupHeader) &&
      (gptHeader != null ==> gptHeader.disk == this && (gptHeader.table != null ==> gptHeader.table.header == gptHeader)) &&
      (gptBackupHeader != null ==>
         gptBackupHeader.disk == this && (gptBackupHeader.table != null ==> gptBackupHeader.table.header == gptBackupHeader))
    }

    constructor (fobj: File, write: bool)
      ensures file == fobj && this.write == write
      ensures gptHeader == null && gptBackupHeader == null && Valid()
    {
      file := fobj;
      this.write := write;
      gptHeader := null;
      gptBackupHeader := null;
    }

    /** The file an operation given the optional file `f` works on. */
    function Target(f: File?): File
    {
      if f != null then f else file
    }

    /** `seek_to_lba(lba, f)`: moves the cursor of `f`, or of the disk's own file, to the block. */
    method SeekToLba(lba: nat, f: File?)
      modifies Target(f)
      ensures Target(f).data == old(Target(f).data)
      ensures Target(f).pos == LBA_SIZE * lba
    {
      Target(f).Seek(LBA_SIZE * lba);
    }

    /** `read_gpt_header`: reads the header at LBA 1 of the disk's file and caches it. */
    method ReadGptHeader() returns (r: Result<GptHeader>)
      requires Valid()
      modifies this, file
      ensures Valid()
      ensures file.data == old(file.data) && gptBackupHeader == old(gptBackupHeader)
      ensures file.pos == LBA_SIZE + |Slice(file.data, LBA_SIZE, HEADER_SIZE)|
      ensures HeaderLoaded(file.data, LBA_SIZE, r)
      ensures r.Ok? ==> fresh(r.value) && gptHeader == r.value && r.value.disk == this && r.value.table == null
      ensures r.Err? ==> gptHeader == old(gptHeader)
    {
      SeekToLba(1, null);
      r := GptHeader.FromDisk(this);
      if r.Ok? {
        gptHeader := r.value;
      }
    }

    /** The `header` property: the cached header, or the one `read_gpt_header` reads. */
    method Header() returns (r: Result<GptHeader>)
      requires Valid()
      modifies this, file
      ensures Valid()
      ensures file.data == old(file.data) && gptBackupHeader == old(gptBackupHeader)
      ensures old(gptHeader) != null ==> r.Ok? && r.value == old(gptHeader) && gptHeader == old(gptHeader) && file.pos == old(file.pos)
      ensures old(gptHeader) == null ==>
                file.pos == LBA_SIZE + |Slice(file.data, LBA_SIZE, HEADER_SIZE)| &&
                HeaderLoaded(file.data, LBA_SIZE, r) &&
                (r.Ok? ==> fresh(r.value) && gptHeader == r.value && r.value.disk == this && r.value.table == null) &&
                (r.Err? ==> gptHeader == null)
    {
      if gptHeader != null {
        r := Ok(gptHeader);
      } else {
        r := ReadGptHeader();
      }
    }

    /** `read_gpt_backup_header`: reads the header at the cached header's `backup_lba`;
        without a cached header the attribute lookup fails. */
    method ReadGptBackupHeader() returns (r: Result<GptHeader>)
      requires Valid()
      modifies this, file
      ensures Valid()
      ensures file.data == old(file.data) && gptHeader == old(gptHeader)
      ensures gptHeader == null ==> r == Err(AttributeError) && unchanged(this, file)
      ensures gptHeader != null ==>
                var at := LBA_SIZE * gptHeader.fields.backupLba;
                file.pos == at + |Slice(file.data, at, HEADER_SIZE)| &&
                HeaderLoaded(file.data, at, r) &&
                (r.Ok? ==> fresh(r.value) && gptBackupHeader == r.value && r.value.disk == this && r.value.table == null) &&
                (r.Err? ==> gptBackupHeader == old(gptBackupHeader))
    {
      if gptHeader == null {
        return Err(AttributeError);
      }
      SeekToLba(gptHeader.fields.backupLba, null);
      r := GptHeader.FromDisk(this);
      if r.Ok? {
        gptBackupHeader := r.value;
      }
    }

    /** The `backup_header` property: the cached backup header, or the one
        `read_gpt_backup_header` reads. */
    method BackupHeader() returns (r: Result<GptHeader>)
      requires Valid()
      modifies this, file
      ensures Valid()
      ensures file.data == old(file.data) && gptHeader == old(gptHeader)
      ensures old(gptBackupHeader) != null ==>
                r.Ok? && r.value == old(gptBackupHeader) && gptBackupHeader == old(gptBackupHeader) && file.pos == old(file.pos)
      ensures old(gptBackupHeader) == null && gptHeader == null ==> r == Err(AttributeError) && unchanged(this, file)
      ensures old(gptBackupHeader) == null && gptHeader != null ==>
                var at := LBA_SIZE * gptHeader.fields.backupLba;
                file.pos == at + |Slice(file.data, at, HEADER_SIZE)| &&
                HeaderLoaded(file.data, at, r) &&
                (r.Ok? ==> fresh(r.value) && gptBackupHeader == r.value && r.value.disk == this && r.value.table == null) && (r.Err? ==> gptBackupHeader == null)
    {
      if gptBackupHeader != null {
        r := Ok(gptBackupHeader);
      } else {
        r := ReadGptBackupHeader();
      }
    }

    /** The files `commit` works on when it writes to `t`. */
    ghost function Image(t: File): Files
      reads file, t
    {
      Files(file.data, if t == file then None else Some(t.data))
    }

    /** Writing `b` at `at` into `t` is writing it into the file `commit` writes to. */
    lemma WrittenImage(fs: Files, t: File, at: nat, b: seq<Byte>)
      requires fs.other.None? <==> t == file
      requires t.data == Overwrite(fs.Written(), at, b)
      requires t != file ==> file.data == fs.own
      ensures Image(t) == fs.WriteAt(at, b)
    {
    }

    /** Writing `bytes` at the cursor of `t`, standing at `at`, writes them into the file
        `commit` writes to. */
    method WriteImage(t: File, ghost fs: Files, ghost at: nat, bytes: seq<Byte>)
      requires fs.other.None? <==> t == file
      requires t.pos == at && t.data == fs.Written()
      requires t != file ==> file.data == fs.own
      modifies t
      ensures Image(t) == fs.WriteAt(at, bytes)
    {
      t.Write(bytes);
      WrittenImage(fs, t, at, bytes);
    }

    /** `commit(f)`: refuses when the disk was opened read-only and no file is given;
        otherwise writes the header, its table, the backup header and its table, in that
        order, to `f` or to the disk's own file, as `CommitModel` describes. */
    method Commit(f: File?) returns (r: Result<()>)
      requires Valid()
      modifies this, file, f, gptHeader, gptBackupHeader
      ensures Valid()
      ensures r == Err(IOError) <==> !write && f == null
      ensures r == Err(IOError) ==> unchanged(this, file)
      ensures r != Err(IOError) ==>
                CommitModel(old(Image(Target(f))), old(CacheOf(gptHeader)), old(CacheOf(gptBackupHeader)))
                == Outcome(r, Image(Target(f)), CacheOf(gptHeader), CacheOf(gptBackupHeader))
    {
      if !write && f == null {
        return Err(IOError);
      }
      var t := Target(f);
      ghost var fs, hc, bc := Image(t), CacheOf(gptHeader), CacheOf(gptBackupHeader);
      var p := CommitPrimary(t);
      if !p {
        CommitPrimaryFails(fs, hc, bc);
        return Err(StructError);
      }
      ghost var ps := HeaderPhase(fs, 1, hc);
      assert Image(t) == ps.files && CacheOf(gptHeader) == ps.cache;
      var q := CommitBackup(t);
      r := if q then Ok(()) else Err(StructError);
      CommitBothPhases(fs, hc, bc);
    }

    /** `dump_to_disk`: a new file (returned for the one created at the path), extended
        with zeros to the end of block `last_lba` of the header, and the disk committed to it.
        Committing to another file than the disk's own is the intended commit. */
    method DumpToDisk() returns (r: Result<()>, out: File)
      requires Valid()
      modifies this, file, gptHeader, gptBackupHeader
      ensures Valid() && fresh(out) && file.data == old(file.data)
      ensures var o := DumpModel(old(file.data), old(CacheOf(gptHeader)), old(CacheOf(gptBackupHeader)));
              r == o.result && CacheOf(gptHeader) == o.header && CacheOf(gptBackupHeader) == o.backup &&
              (r.Ok? || o.header.None? ==> out.data == o.files.Written())
    {
      ghost var d, hc, bc := file.data, CacheOf(gptHeader), CacheOf(gptBackupHeader);
      var hr := Header();
      if hr.Err? {
        out := new File([]);
        assert DumpModel(d, hc, bc) == Outcome(Err(StructError), Files(d, Some([])), hc, bc);
        return Err(StructError), out;
      }
      ghost var lh := CacheOf(gptHeader);
      assert lh == LoadHeader(d, 1, hc) && CacheOf(gptBackupHeader) == bc;
      out := CreateZeroed(LBA_SIZE * hr.value.fields.lastLba + LBA_SIZE - 1);
      assert out.data == Zeros(LBA_SIZE * lh.value.fields.lastLba + LBA_SIZE);
      ghost var fs := DumpFiles(d, lh.value);
      DumpCommits(d, hc, bc, lh);
      DumpIntended(d, hc, bc);
      assert Image(Target(out)) == fs && CacheOf(gptHeader) == lh && CacheOf(gptBackupHeader) == bc;
      r := Commit(out);
      assert CommitModel(fs, lh, bc) == Outcome(r, Image(out), CacheOf(gptHeader), CacheOf(gptBackupHeader));
    }

    /** The header and its table, written to `t`; `ok` is false on `struct.error`. */
    method CommitPrimary(t: File) returns (ok: bool)
      requires Valid()
      modifies this, file, t, gptHeader
      ensures Valid() && gptBackupHeader == old(gptBackupHeader)
      ensures CacheOf(gptBackupHeader) == old(CacheOf(gptBackupHeader))
      ensures old(gptHeader) != null ==> gptHeader == old(gptHeader)
      ensures var s := HeaderPhase(old(Image(t)), 1, old(CacheOf(gptHeader)));
              Image(t) == s.files && CacheOf(gptHeader) == s.cache && ok == s.ok
    {
      var h := CommitHeader(t);
      if h.Err? {
        return false;
      }
      var tab := CommitTable(h.value, t);
      ok := tab.Ok?;
    }

    /** The backup header and its table, written to `t`. */
    method CommitBackup(t: File) returns (ok: bool)
      requires Valid() && gptHeader != null
      modifies this, file, t, gptBackupHeader
      ensures Valid() && gptHeader == old(gptHeader) && CacheOf(gptHeader) == old(CacheOf(gptHeader))
      ensures var s := HeaderPhase(old(Image(t)), gptHeader.fields.backupLba, old(CacheOf(gptBackupHeader)));
              Image(t) == s.files && CacheOf(gptBackupHeader) == s.cache && ok == s.ok
    {
      var h := CommitBackupHeader(t);
      if h.Err? {
        return false;
      }
      var tab := CommitTable(h.value, t);
      ok := tab.Ok?;
    }

    /** `commit`'s first step: seek `t` to LBA 1, obtain the header, write its packing. */
    method CommitHeader(t: File) returns (r: Result<GptHeader>)
      requires Valid()
      modifies this, file, t
      ensures Valid() && gptBackupHeader == old(gptBackupHeader)
      ensures old(gptHeader) != null ==> gptHeader == old(gptHeader)
      ensures old(gptHeader) == null && gptHeader != null ==> fresh(gptHeader)
      ensures r.Ok? ==> r.value == gptHeader
      ensures var s := HeaderStep(old(Image(t)), 1, old(CacheOf(gptHeader)));
              Image(t) == s.files && CacheOf(gptHeader) == s.cache && r.Ok? == s.ok
    {
      ghost var fs, c := Image(t), CacheOf(gptHeader);
      SeekToLba(1, t);
      r := Header();
      if r.Err? {
        assert Image(t) == fs && CacheOf(gptHeader) == c;
        HeaderStepFails(fs, 1, c);
        return;
      }
      ghost var l := CacheOf(gptHeader).value;
      assert LoadHeader(fs.own, 1, c) == Some(l);
      ghost var g := gptHeader;
      assert Valid() && old(gptHeader) != null ==> g == old(gptHeader);
      ghost var at := LBA_SIZE * 1 + Shift(fs.other.None?, c.None?, HEADER_SIZE);
      assert t.pos == at && t.data == fs.Written() && file.data == fs.own;
      var bytes := PackHeader(r.value.fields, true);
      t.Write(bytes);
      assert gptHeader == g && CacheOf(gptHeader) == Some(l);
      WrittenImage(fs, t, at, bytes);
      HeaderStepWrites(fs, 1, c, l);
    }

    /** `commit`'s third step: seek `t` to the header's `backup_lba`, obtain the backup
        header, write its packing. */
    method CommitBackupHeader(t: File) returns (r: Result<GptHeader>)
      requires Valid() && gptHeader != null
      modifies this, file, t
      ensures Valid() && gptHeader == old(gptHeader)
      ensures old(gptBackupHeader) != null ==> gptBackupHeader == old(gptBackupHeader)
      ensures old(gptBackupHeader) == null && gptBackupHeader != null ==> fresh(gptBackupHeader)
      ensures r.Ok? ==> r.value == gptBackupHeader
      ensures var s := HeaderStep(old(Image(t)), gptHeader.fields.backupLba, old(CacheOf(gptBackupHeader)));
              Image(t) == s.files && CacheOf(gptBackupHeader) == s.cache && r.Ok? == s.ok
    {
      ghost var fs, c := Image(t), CacheOf(gptBackupHeader);
      ghost var lba := gptHeader.fields.backupLba;
      SeekToLba(gptHeader.fields.backupLba, t);
      r := BackupHeader();
      if r.Err? {
        assert Image(t) == fs && CacheOf(gptBackupHeader) == c;
        HeaderStepFails(fs, lba, c);
        return;
      }
      ghost var l := CacheOf(gptBackupHeader).value;
      assert LoadHeader(fs.own, lba, c) == Some(l);
      ghost var at := LBA_SIZE * lba + Shift(fs.other.None?, c.None?, HEADER_SIZE);
      assert t.pos == at && t.data == fs.Written() && file.data == fs.own;
      var bytes := PackHeader(r.value.fields, true);
      WriteImage(t, fs, at, bytes);
      HeaderStepWrites(fs, lba, c, l);
    }

    /** `commit`'s second and fourth steps: seek `t` to the `partition_table_lba` of
        header `hd`, obtain its table, write its packing. */
    method CommitTable(hd: GptHeader, t: File) returns (r: Result<GptPartitionTable>)
      requires hd.disk == this && (hd.table != null ==> hd.table.header == hd)
      modifies hd, file, t
      ensures hd.fields == old(hd.fields) && (hd.table != null ==> hd.table.header == hd)
      ensures var s := TableStep(old(Image(t)), old(CacheOf(hd)).value);
              Image(t) == s.files && CacheOf(hd) == s.cache && r.Ok? == s.ok
    {
      ghost var fs := Image(t);
      ghost var c := CacheOf(hd).value;
      ghost var l := LoadTable(fs.own, c);
      SeekToLba(hd.fields.partitionTableLba, t);
      r := hd.PartitionTable();
      if r.Err? {
        assert l.None? && Image(t) == fs;
        TableStepFails(fs, c);
        return;
      }
      ghost var ps := r.value.partitions;
      assert l == Some(c.(table := Some(ps)));
      ghost var at := LBA_SIZE * c.fields.partitionTableLba + Shift(fs.other.None?, c.table.None?, 128 * |ps|);
      assert t.pos == at && t.data == fs.Written() && file.data == fs.own;
      var bytes := PackTable(r.value.partitions);
      WriteImage(t, fs, at, bytes);
      TableStepWrites(fs, c, ps);
    }
  }

  /** `r` is what `GPTHeader.from_disk` gives after reading at `at`: the unpacked header
      of the `HEADER_SIZE` bytes there, or `struct.error` when fewer are left. */
  predicate HeaderLoaded(data: seq<Byte>, at: nat, r: Result<GptHeader>)
    reads if r.Ok? then {r.value} else {}
  {
    var u := UnpackHeader(Slice(data, at, HEADER_SIZE));
    (r.Ok? <==> u.Some?) &&
    (r.Ok? ==> r.value.fields == u.value) &&
    (r.Err? ==> r.error == StructError)
  }

  /** `r` is what `GPTPartitionTable.from_header` gives after reading `count` entries of
      `entrySize` bytes from `at`. */
  predicate TableLoaded(data: seq<Byte>, at: nat, count: nat, entrySize: nat, r: Result<GptPartitionTable>)
    reads if r.Ok? then {r.value} else {}
  {
    var e := ReadEntries(data, at, count, entrySize);
    (r.Ok? <==> e.Some?) &&
    (r.Ok? ==> r.value.partitions == e.value) &&
    (r.Err? ==> r.error == StructError)
  }

  /** A GPT header read from a disk, with its table once read. */
  class GptHeader {
    const disk: Disk
    var fields: Header
    var table: GptPartitionTable?

    constructor (disk: Disk, fields: Header)
      ensures this.disk == disk && this.fields == fields && table == null
    {
      this.disk := disk;
      this.fields := fields;
      table := null;
    }

    /** `GPTHeader.from_disk`: unpacks the 92 bytes read at the cursor of the disk's file. */
    static method FromDisk(disk: Disk) returns (r: Result<GptHeader>)
      modifies disk.file
      ensures disk.file.data == old(disk.file.data)
      ensures disk.file.pos == old(disk.file.pos) + |Slice(disk.file.data, old(disk.file.pos), HEADER_SIZE)|
      ensures HeaderLoaded(disk.file.data, old(disk.file.pos), r)
      ensures r.Ok? ==> fresh(r.value) && r.value.disk == disk && r.value.table == null
    {
      var data := disk.file.Read(HEADER_SIZE);
      var u := UnpackHeader(data);
      if u.None? {
        return Err(StructError);
      }
      var o := new GptHeader(disk, u.value);
      r := Ok(o);
    }

    /** `read_gpt_partition_table`: seeks the disk's file to the table and reads it. */
    method ReadGptPartitionTable() returns (r: Result<GptPartitionTable>)
      modifies this, disk.file
      ensures fields == old(fields) && disk.file.data == old(disk.file.data)
      ensures TableLoaded(disk.file.data, LBA_SIZE * fields.partitionTableLba,
                          fields.partitionTableSize, fields.partitionTableEntrySize, r)
      ensures r.Ok? ==> fresh(r.value) && table == r.value && r.value.header == this &&
                        disk.file.pos == LBA_SIZE * fields.partitionTableLba + 128 * fields.partitionTableSize
      ensures r.Err? ==> table == old(table)
    {
      disk.SeekToLba(fields.partitionTableLba, null);
      r := GptPartitionTable.FromHeader(this);
      if r.Ok? {
        table := r.value;
      }
    }

    /** The `partition_table` property: the cached table, or the one read now. */
    method PartitionTable() returns (r: Result<GptPartitionTable>)
      modifies this, disk.file
      ensures fields == old(fields) && disk.file.data == old(disk.file.data)
      ensures old(table) != null ==> r.Ok? && r.value == old(table) && table == old(table) && disk.file.pos == old(disk.file.pos)
      ensures old(table) == null ==>
                TableLoaded(disk.file.data, LBA_SIZE * fields.partitionTableLba,
                            fields.partitionTableSize, fields.partitionTableEntrySize, r) &&
                (r.Ok? ==> fresh(r.value) && table == r.value && r.value.header == this &&
                           disk.file.pos == LBA_SIZE * fields.partitionTableLba + 128 * fields.partitionTableSize) &&
                (r.Err? ==> table == null)
    {
      if table != null {
        r := Ok(table);
      } else {
        r := ReadGptPartitionTable();
      }
    }

    /** `fix_crc`: stores the CRC of the (possibly just read) table, then the header CRC
        computed over the header that already holds it. */
    method FixCrc() returns (r: Result<GptPartitionTable>)
      modifies this, disk.file
      ensures disk.file.data == old(disk.file.data)
      ensures old(table) != null ==> r.Ok? && r.value == old(table)
      ensures old(table) == null ==>
                TableLoaded(old(disk.file.data), LBA_SIZE * old(fields).partitionTableLba,
                            old(fields).partitionTableSize, old(fields).partitionTableEntrySize, r)
      ensures r.Ok? ==> table == r.value && fields == WithFixedCrcs(old(fields), r.value.partitions)
      ensures r.Err? ==> fields == old(fields) && table == old(table) && r.error == StructError
    {
      r := PartitionTable();
      if r.Ok? {
        ghost var h := fields;
        var ps := r.value.partitions;
        fields := fields.(partitionTableCrc := TableCrc(ps));
        fields := fields.(crc := CalculateCrc(fields));
        assert fields == WithFixedCrcs(h, ps);
      }
    }
  }

  /** The entries of a GPT partition table, in slot order. */
  class GptPartitionTable {
    const header: GptHeader
    var partitions: seq<Partition>

    constructor (header: GptHeader, partitions: seq<Partition>)
      ensures this.header == header && this.partitions == partitions
    {
      this.header := header;
      this.partitions := partitions;
    }

    /** `GPTPartitionTable.from_header`: `partition_table_size` reads of
        `partition_table_entry_size` bytes each from the cursor of the disk's file,
        each unpacked as an entry. */
    static method FromHeader(header: GptHeader) returns (r: Result<GptPartitionTable>)
      modifies header.disk.file
      ensures header.disk.file.data == old(header.disk.file.data)
      ensures TableLoaded(header.disk.file.data, old(header.disk.file.pos),
                          header.fields.partitionTableSize, header.fields.partitionTableEntrySize, r)
      ensures r.Ok? ==> fresh(r.value) && r.value.header == header &&
                        header.disk.file.pos == old(header.disk.file.pos) + 128 * header.fields.partitionTableSize
    {
      var file := header.disk.file;
      var count := header.fields.partitionTableSize;
      var size := header.fields.partitionTableEntrySize;
      ghost var d := file.data;
      ghost var start := file.pos;
      ghost var whole := Chunks(d, start, count, size);
      ghost var chunks: seq<seq<Byte>> := [];
      var partitions: seq<Partition> := [];
      for i := 0 to count
        invariant file.data == d
        invariant file.pos == start + 128 * i
        invariant whole == chunks + Chunks(d, file.pos, count - i, size)
        invariant UnpackEach(UnpackPartition, chunks) == Some(partitions)
      {
        ghost var at := file.pos;
        ReadStep(d, at, count - i, count - (i + 1), size, chunks, partitions, whole);
        var data := file.Read(size);
        var p := UnpackPartition(data);
        if p.None? {
          return Err(StructError);
        }
        partitions := partitions + [p.value];
        chunks := chunks + [data];
      }
      assert chunks + [] == chunks;
      var o := new GptPartitionTable(header, partitions);
      r := Ok(o);
    }

    /** The `active_partitions` property: the entries up to, not including, the first
        one whose type GUID is all zeros. */
    method ActivePartitions() returns (active: seq<Partition>)
      ensures active == ActivePrefix(partitions)
      ensures active == partitions[..|active|]
      ensures forall i :: 0 <= i < |active| ==> active[i].typeGuid != UNUSED_GUID
      ensures |active| < |partitions| ==> partitions[|active|].typeGuid == UNUSED_GUID
    {
      active := [];
      var i := 0;
      while i < |partitions|
        invariant 0 <= i <= |partitions|
        invariant active == partitions[..i]
        invariant forall j :: 0 <= j < i ==> partitions[j].typeGuid != UNUSED_GUID
        invariant ActivePrefix(partitions) == active + ActivePrefix(partitions[i..])
      {
        if partitions[i].typeGuid == UNUSED_GUID {
          assert ActivePrefix(partitions[i..]) == [];
          break;
        }
        assert partitions[i..][1..] == partitions[i + 1..];
        AppendAssoc(active, [partitions[i]], ActivePrefix(partitions[i + 1..]));
        active := active + [partitions[i]];
        i := i + 1;
      }
      assert active + [] == active;
    }

    /** `GPTPartitionTable.check_crc`: the CRC stored in its header matches the entries. */
    predicate CheckCrc()
      reads this, header
    {
      TableCheckCrc(header.fields, partitions)
    }
  }
}
