/** `xboxonehdd`: turns a GPT disk laid out with the five partitions an Xbox One expects
    into one the console accepts. It checks the partition count and sizes, asks for
    confirmation, gives the partitions and the disk the console's GUIDs and names, fixes
    the CRCs and commits the primary header and table (the backup ones are re-packed as
    they were read). */
module XboxOneHdd {
  import opened Bytes
  import opened FileImage
  import opened Gpt
  import opened GptCommit
  import opened GptDisk

  // ---------------------------------------------------------------------
  // Constants

  const DISK_GUID: seq<Byte> :=
    [0xDB, 0x4B, 0x34, 0xA2, 0xDE, 0xD6, 0x66, 0x47, 0x9E, 0xB5, 0x41, 0x09, 0xA1, 0x22, 0x28, 0xE5]
  const TEMP_CONTENT_GUID: seq<Byte> :=
    [0xA5, 0x7D, 0x72, 0xB3, 0xAC, 0xA3, 0x3D, 0x4B, 0x9F, 0xD6, 0x2E, 0xA5, 0x44, 0x41, 0x01, 0x1B]
  const USER_CONTENT_GUID: seq<Byte> :=
    [0xE0, 0xB5, 0x9B, 0x86, 0x56, 0x33, 0xE6, 0x4B, 0x85, 0xF7, 0x29, 0x32, 0x3A, 0x67, 0x5C, 0xC7]
  const SYSTEM_SUPPORT_GUID: seq<Byte> :=
    [0x47, 0x7A, 0x0D, 0xC9, 0xB9, 0xCC, 0xBA, 0x4C, 0x8C, 0x66, 0x04, 0x59, 0xF6, 0xB8, 0x57, 0x24]
  const SYSTEM_UPDATE_GUID: seq<Byte> :=
    [0xD7, 0x6A, 0x05, 0x9A, 0xED, 0x32, 0x41, 0x41, 0xAE, 0xB1, 0xAF, 0xB9, 0xBD, 0x55, 0x65, 0xDC]
  const SYSTEM_UPDATE2_GUID: seq<Byte> :=
    [0x7C, 0x19, 0xB2, 0x24, 0x01, 0x9D, 0xF9, 0x45, 0xA8, 0xE1, 0xDB, 0xBC, 0xFA, 0x16, 0x1E, 0xB2]

  /** A text of characters below U+10000 as its UTF-16 code units, one per character. */
  function Utf16(s: string): (r: seq<U16>)
    requires forall i :: 0 <= i < |s| ==> s[i] as int < 0x1_0000
    ensures |r| == |s|
  {
    seq(|s|, i requires 0 <= i < |s| => s[i] as int)
  }

  const TEMP_CONTENT_NAME: seq<U16> := Utf16("Temp Content")
  const USER_CONTENT_NAME: seq<U16> := Utf16("User Content")
  const SYSTEM_SUPPORT_NAME: seq<U16> := Utf16("System Support")
  const SYSTEM_UPDATE_NAME: seq<U16> := Utf16("System Update")
  const SYSTEM_UPDATE2_NAME: seq<U16> := Utf16("System Update 2")

  /** The partition GUID and the name slot `i` is given, in slot order. */
  const PART_GUIDS: seq<seq<Byte>> :=
    [TEMP_CONTENT_GUID, USER_CONTENT_GUID, SYSTEM_SUPPORT_GUID, SYSTEM_UPDATE_GUID, SYSTEM_UPDATE2_GUID]
  const PART_NAMES: seq<seq<U16>> :=
    [TEMP_CONTENT_NAME, USER_CONTENT_NAME, SYSTEM_SUPPORT_NAME, SYSTEM_UPDATE_NAME, SYSTEM_UPDATE2_NAME]

  /** The sizes in bytes the console expects, in slot order; the second is replaced by
      what the disk leaves for user content. */
  const PARTITION_SIZES: seq<int> := [44023414784, 0, 42949672960, 12884901888, 7516192768]

  const MIB: nat := 1024 * 1024
  const GIB: nat := 1024 * 1024 * 1024

  /** The unit of the block count the kernel reports for a disk. */
  const SECTOR_SIZE: nat := 512

  // ---------------------------------------------------------------------
  // The field rewrites

  /** The entries after `fixup_part_table`: the first five get the console's partition
      GUID and name, in that order of fields, and everything else is kept. */
  function FixupEntries(ps: seq<Partition>): (r: seq<Partition>)
    requires |ps| >= 5
    ensures |r| == |ps|
    ensures forall i :: 0 <= i < 5 ==>
              r[i].partGuid == PART_GUIDS[i] && r[i].name == PART_NAMES[i] &&
              r[i].typeGuid == ps[i].typeGuid && r[i].firstLba == ps[i].firstLba &&
              r[i].lastLba == ps[i].lastLba && r[i].flags == ps[i].flags
    ensures forall i :: 5 <= i < |ps| ==> r[i] == ps[i]
  {
    ps[0 := ps[0].(partGuid := TEMP_CONTENT_GUID, name := TEMP_CONTENT_NAME)]
      [1 := ps[1].(partGuid := USER_CONTENT_GUID, name := USER_CONTENT_NAME)]
      [2 := ps[2].(partGuid := SYSTEM_SUPPORT_GUID, name := SYSTEM_SUPPORT_NAME)]
      [3 := ps[3].(partGuid := SYSTEM_UPDATE_GUID, name := SYSTEM_UPDATE_NAME)]
      [4 := ps[4].(partGuid := SYSTEM_UPDATE2_GUID, name := SYSTEM_UPDATE2_NAME)]
  }

  /** `fixup_part_table`: assigns the GUID and then the name of each of the first five
      entries of the table. Fewer than five entries would be an `IndexError`. */
  method FixupPartTable(pt: GptPartitionTable)
    requires |pt.partitions| >= 5
    modifies pt
    ensures pt.partitions == FixupEntries(old(pt.partitions))
  {
    ghost var ps := pt.partitions;
    pt.partitions := pt.partitions[0 := pt.partitions[0].(partGuid := TEMP_CONTENT_GUID)];
    pt.partitions := pt.partitions[0 := pt.partitions[0].(name := TEMP_CONTENT_NAME)];
    assert pt.partitions == ps[0 := ps[0].(partGuid := TEMP_CONTENT_GUID, name := TEMP_CONTENT_NAME)];
    pt.partitions := pt.partitions[1 := pt.partitions[1].(partGuid := USER_CONTENT_GUID)];
    pt.partitions := pt.partitions[1 := pt.partitions[1].(name := USER_CONTENT_NAME)];
    assert pt.partitions == ps[0 := ps[0].(partGuid := TEMP_CONTENT_GUID, name := TEMP_CONTENT_NAME)][1 := ps[1].(partGuid := USER_CONTENT_GUID, name := USER_CONTENT_NAME)];
    pt.partitions := pt.partitions[2 := pt.partitions[2].(partGuid := SYSTEM_SUPPORT_GUID)];
    pt.partitions := pt.partitions[2 := pt.partitions[2].(name := SYSTEM_SUPPORT_NAME)];
    assert pt.partitions == ps[0 := ps[0].(partGuid := TEMP_CONTENT_GUID, name := TEMP_CONTENT_NAME)][1 := ps[1].(partGuid := USER_CONTENT_GUID, name := USER_CONTENT_NAME)][2 := ps[2].(partGuid := SYSTEM_SUPPORT_GUID, name := SYSTEM_SUPPORT_NAME)];
    pt.partitions := pt.partitions[3 := pt.partitions[3].(partGuid := SYSTEM_UPDATE_GUID)];
    pt.partitions := pt.partitions[3 := pt.partitions[3].(name := SYSTEM_UPDATE_NAME)];
    assert pt.partitions == ps[0 := ps[0].(partGuid := TEMP_CONTENT_GUID, name := TEMP_CONTENT_NAME)][1 := ps[1].(partGuid := USER_CONTENT_GUID, name := USER_CONTENT_NAME)][2 := ps[2].(partGuid := SYSTEM_SUPPORT_GUID, name := SYSTEM_SUPPORT_NAME)][3 := ps[3].(partGuid := SYSTEM_UPDATE_GUID, name := SYSTEM_UPDATE_NAME)];
    pt.partitions := pt.partitions[4 := pt.partitions[4].(partGuid := SYSTEM_UPDATE2_GUID)];
    pt.partitions := pt.partitions[4 := pt.partitions[4].(name := SYSTEM_UPDATE2_NAME)];
    assert pt.partitions == ps[0 := ps[0].(partGuid := TEMP_CONTENT_GUID, name := TEMP_CONTENT_NAME)][1 := ps[1].(partGuid := USER_CONTENT_GUID, name := USER_CONTENT_NAME)][2 := ps[2].(partGuid := SYSTEM_SUPPORT_GUID, name := SYSTEM_SUPPORT_NAME)][3 := ps[3].(partGuid := SYSTEM_UPDATE_GUID, name := SYSTEM_UPDATE_NAME)][4 := ps[4].(partGuid := SYSTEM_UPDATE2_GUID, name := SYSTEM_UPDATE2_NAME)];
  }

  /** The console's GUIDs are 16 bytes and its names at most 15 code units without NUL. */
  lemma XboxSlot(i: nat)
    requires i < 5
    ensures |PART_GUIDS[i]| == 16 && |PART_NAMES[i]| <= 15 && 0 !in PART_NAMES[i]
  {
  }

  /** Every name the fixup assigns is at most 15 code units without NUL, so the name field
      of the packed entry decodes to it exactly. */
  lemma FixupNamesRoundTrip(i: nat)
    requires i < 5
    ensures var n := PART_NAMES[i];
            |n| <= 15 && 0 !in n && CutAtNul(DecodeUtf16Le(Fixed(EncodeUtf16Le(n), NAME_BYTES))) == n
  {
    XboxSlot(i);
    NameRoundTrip(PART_NAMES[i]);
  }

  /** An entry as `from_table` produces it stays so after the fixup. */
  lemma FixupSlotWellFormed(ps: seq<Partition>, k: nat)
    requires |ps| >= 5 && k < |ps| && WellFormedPartition(ps[k])
    ensures WellFormedPartition(FixupEntries(ps)[k])
  {
    if k < 5 {
      XboxSlot(k);
    }
  }

  /** Entries as `from_table` produces them stay so after the fixup, so the fixed table
      reads back from its packed bytes as it is. */
  lemma FixupKeepsWellFormed(ps: seq<Partition>)
    requires |ps| >= 5 && forall k :: 0 <= k < |ps| ==> WellFormedPartition(ps[k])
    ensures forall k :: 0 <= k < |ps| ==> WellFormedPartition(FixupEntries(ps)[k])
  {
    forall k | 0 <= k < |ps| ensures WellFormedPartition(FixupEntries(ps)[k]) {
      FixupSlotWellFormed(ps, k);
    }
  }

  /** The header after `fixup_header` over a table with entries `ps`: the console's disk
      GUID, then both CRCs fixed; every other field as it was. */
  function FixedHeader(h: Header, ps: seq<Partition>): (r: Header)
    ensures r.diskGuid == DISK_GUID && CheckCrc(r) && TableCheckCrc(r, ps)
    ensures r == h.(diskGuid := DISK_GUID, crc := r.crc, partitionTableCrc := r.partitionTableCrc)
    ensures WellFormedHeader(h) ==> WellFormedHeader(r)
  {
    WithFixedCrcs(h.(diskGuid := DISK_GUID), ps)
  }

  /** `fixup_header`: sets the disk GUID, then `fix_crc`, which reads the table when it
      is not yet cached; a failure of that read leaves only the GUID changed. */
  method FixupHeader(hdr: GptHeader) returns (r: Result<()>)
    modifies hdr, hdr.disk.file
    ensures hdr.disk.file.data == old(hdr.disk.file.data)
    ensures old(hdr.table) != null ==> r.Ok? && hdr.table == old(hdr.table)
    ensures old(hdr.table) == null ==>
              var e := ReadEntries(old(hdr.disk.file.data), LBA_SIZE * old(hdr.fields).partitionTableLba,
                                   old(hdr.fields).partitionTableSize, old(hdr.fields).partitionTableEntrySize);
              (r.Ok? <==> e.Some?) && (r.Ok? ==> hdr.table != null && hdr.table.partitions == e.value)
    ensures r.Ok? ==> hdr.table != null && hdr.fields == FixedHeader(old(hdr.fields), hdr.table.partitions)
    ensures r.Err? ==> hdr.fields == old(hdr.fields).(diskGuid := DISK_GUID) && hdr.table == old(hdr.table) &&
                       r.error == StructError
  {
    hdr.fields := hdr.fields.(diskGuid := DISK_GUID);
    var t := hdr.FixCrc();
    r := if t.Ok? then Ok(()) else Err(t.error);
  }

  // ---------------------------------------------------------------------
  // Size arithmetic

  /** Python's `sum` of a list of integers. */
  function Total(s: seq<int>): int
  {
    if s == [] then 0 else s[0] + Total(s[1..])
  }

  lemma TotalFive(s: seq<int>)
    requires |s| == 5
    ensures Total(s) == s[0] + s[1] + s[2] + s[3] + s[4]
  {
    assert Total(s) == s[0] + Total(s[1..]);
    assert Total(s[1..]) == s[1] + Total(s[2..]);
    assert Total(s[2..]) == s[2] + Total(s[3..]);
    assert Total(s[3..]) == s[3] + Total(s[4..]);
    assert Total(s[4..]) == s[4] + Total(s[5..]);
  }

  /** The four fixed partitions take exactly 100 GiB. */
  lemma FixedSizesTotal()
    ensures Total(PARTITION_SIZES) == 100 * GIB
  {
    TotalFive(PARTITION_SIZES);
  }

  /** `user_content_size`: what the disk leaves beyond the fixed sizes, in whole GiB.
      Python 2's `/` on integers rounds toward minus infinity, as Dafny's does for a
      positive divisor, so a disk smaller than the fixed sizes gives a negative count. */
  function UserContentGiB(totalSize: int): (g: int)
    ensures g * GIB <= totalSize - Total(PARTITION_SIZES) < g * GIB + GIB
  {
    (totalSize - Total(PARTITION_SIZES)) / 1024 / 1024 / 1024
  }

  /** `PARTITION_SIZES` after the update of its second element for a disk of
      `totalSize` bytes. */
  function TargetSizes(totalSize: int): (r: seq<int>)
    ensures |r| == 5 && r[1] % GIB == 0
    ensures forall i :: 0 <= i < 5 && i != 1 ==> r[i] == PARTITION_SIZES[i]
    ensures Total(r) <= totalSize < Total(r) + GIB
    ensures totalSize >= Total(PARTITION_SIZES) ==> 0 <= r[1] <= totalSize - Total(PARTITION_SIZES)
    ensures totalSize < Total(PARTITION_SIZES) ==> r[1] < 0
  {
    var g := UserContentGiB(totalSize);
    var r := PARTITION_SIZES[1 := g * GIB];
    TotalFive(r);
    TotalFive(PARTITION_SIZES);
    r
  }

  /** On a device smaller than the fixed sizes, the expected user-content size is
      negative, and an entry whose block range is reversed by just that much has exactly
      that size: the size check lets it through. */
  lemma ReversedRangeMatches(sectors: nat, p: Partition)
    requires SECTOR_SIZE * sectors < Total(PARTITION_SIZES)
    requires p.lastLba == 0 && p.firstLba == 1 - TargetSizes(SECTOR_SIZE * sectors)[1] / LBA_SIZE
    ensures PartitionSize(p) == TargetSizes(SECTOR_SIZE * sectors)[1] < 0
  {
    var s := TargetSizes(SECTOR_SIZE * sectors)[1];
    assert s % LBA_SIZE == 0 by {
      var g := s / GIB;
      assert s == g * GIB;
      assert s == (g * 2097152) * LBA_SIZE;
    }
  }

  /** The end, in MiB, of each of the partitions the generated `parted` script creates,
      the first starting at 1 MiB and each of the others at the end of the one before. */
  function PartedEnds(sizes: seq<int>): (ends: seq<int>)
    requires |sizes| == 5
    ensures |ends| == 5
  {
    var tempEnd := 1 + sizes[0] / 1024 / 1024;
    var userEnd := tempEnd + sizes[1] / 1024 / 1024;
    var sysEnd := userEnd + sizes[2] / 1024 / 1024;
    var uptEnd := sysEnd + sizes[3] / 1024 / 1024;
    var upt2End := uptEnd + sizes[4] / 1024 / 1024;
    [tempEnd, userEnd, sysEnd, uptEnd, upt2End]
  }

  /** Floor division by 1024 twice is floor division by 1 MiB. */
  lemma DivMib(x: int)
    ensures x / 1024 / 1024 == x / MIB
  {
    var q1 := x / 1024;
    var q2 := q1 / 1024;
    assert x == 1024 * q1 + x % 1024;
    assert q1 == 1024 * q2 + q1 % 1024;
    ModUnique(x, MIB, q2, 1024 * (q1 % 1024) + x % 1024);
  }

  /** For sizes that are not negative the ends never go down. */
  lemma PartedEndsOrdered(sizes: seq<int>)
    requires |sizes| == 5 && forall i :: 0 <= i < 5 ==> sizes[i] >= 0
    ensures var e := PartedEnds(sizes);
            1 <= e[0] && forall i :: 1 <= i < 5 ==> e[i - 1] <= e[i]
  {
  }

  /** For sizes in whole MiB each partition of the script spans exactly its size, and
      the last ends at 1 MiB plus the total. */
  lemma {:induction false} PartedEndsExact(sizes: seq<int>)
    requires |sizes| == 5 && forall i :: 0 <= i < 5 ==> sizes[i] % MIB == 0
    ensures var e := PartedEnds(sizes);
            (e[0] - 1) * MIB == sizes[0] &&
            (forall i :: 1 <= i < 5 ==> (e[i] - e[i - 1]) * MIB == sizes[i]) &&
            (e[4] - 1) * MIB == Total(sizes)
  {
    var e := PartedEnds(sizes);
    forall i | 0 <= i < 5 ensures (sizes[i] / 1024 / 1024) * MIB == sizes[i] {
      DivMib(sizes[i]);
      ModUnique(sizes[i], MIB, sizes[i] / MIB, 0);
    }
    TotalFive(sizes);
  }

  /** The sizes the console expects are whole MiB for every disk, so the script the
      tool prints creates the five partitions at exactly those sizes. */
  lemma TargetSizesInMib(totalSize: int)
    ensures forall i :: 0 <= i < 5 ==> TargetSizes(totalSize)[i] % MIB == 0
  {
    var r := TargetSizes(totalSize);
    ModUnique(r[0], MIB, 41984, 0);
    ModUnique(r[1], MIB, (r[1] / GIB) * 1024, 0);
    ModUnique(r[2], MIB, 40960, 0);
    ModUnique(r[3], MIB, 12288, 0);
    ModUnique(r[4], MIB, 7168, 0);
  }

  // ---------------------------------------------------------------------
  // The checks before writing

  /** Each of the five partitions has exactly the size the console expects for its slot. */
  predicate SizesMatch(partitions: seq<Partition>, sizes: seq<int>)
    requires |partitions| >= 5 && |sizes| == 5
  {
    forall i :: 0 <= i < 5 ==> PartitionSize(partitions[i]) == sizes[i]
  }

  /** The loop over the five slots: the first whose partition is not exactly the size
      expected for it, or 5 when there is none. */
  method FirstWrongSize(partitions: seq<Partition>, sizes: seq<int>) returns (k: nat)
    requires |partitions| >= 5 && |sizes| == 5
    ensures k <= 5 && (k == 5 <==> SizesMatch(partitions, sizes))
    ensures forall i :: 0 <= i < k ==> PartitionSize(partitions[i]) == sizes[i]
    ensures k < 5 ==> PartitionSize(partitions[k]) != sizes[k]
  {
    k := 0;
    while k < 5
      invariant k <= 5
      invariant forall i :: 0 <= i < k ==> PartitionSize(partitions[i]) == sizes[i]
    {
      var correct := sizes[k];
      var actual := PartitionSize(partitions[k]);
      if correct != actual {
        return;
      }
      k := k + 1;
    }
  }

  /** How the script ends: an exception from reading the disk, exit code -2 (not five
      active partitions), -3 (a partition of the wrong size), -4 (not confirmed), or the
      commit with its outcome. */
  datatype Verdict = Raised(error: Error) | WrongCount | WrongSize | NotConfirmed | Committed(result: Result<()>)

  /** The verdict and the contents of the device afterwards. */
  datatype Conversion = Conversion(verdict: Verdict, image: seq<Byte>)

  /** The header and entries the script reads, fixed up. */
  function Converted(c: Cached): (r: Cached)
    requires c.table.Some? && |c.table.value| >= 5
    ensures r.table.Some? && r.table.value == FixupEntries(c.table.value)
    ensures r.fields == FixedHeader(c.fields, r.table.value)
  {
    var fixed := FixupEntries(c.table.value);
    Cached(FixedHeader(c.fields, fixed), Some(fixed))
  }

  /** The script on values, for a device holding `d`, `sectors` blocks long, and the
      answer typed at the prompt. The header and table are read from the device; the
      commit goes through a second handle on the same device, with neither backup cached. */
  function ConvertModel(d: seq<Byte>, sectors: nat, answer: string): Conversion
  {
    var p := LoadPhase(d, 1, None);
    if !p.ok then Conversion(Raised(StructError), d)
    else
      var c := p.cache.value;
      var ps := c.table.value;
      var active := ActivePrefix(ps);
      var sizes := TargetSizes(SECTOR_SIZE * sectors);
      if |active| != 5 then Conversion(WrongCount, d)
      else if !SizesMatch(active, sizes) then Conversion(WrongSize, d)
      else if answer != "yes" then Conversion(NotConfirmed, d)
      else
        var o := CommitModel(Files(d, Some(d)), Some(Converted(c)), None);
        Conversion(Committed(o.result), o.files.Written())
  }

  /** The header and table read, there are exactly five active partitions, each of the
      size expected for its slot, and the answer is `yes`. */
  predicate Ready(d: seq<Byte>, sectors: nat, answer: string)
  {
    var p := LoadPhase(d, 1, None);
    p.ok && |ActivePrefix(p.cache.value.table.value)| == 5 &&
    SizesMatch(ActivePrefix(p.cache.value.table.value), TargetSizes(SECTOR_SIZE * sectors)) &&
    answer == "yes"
  }

  /** The disk is written only when the header and table read, there are exactly five
      active partitions, each of its expected size, and the answer is `yes`; otherwise
      the device is left as it was. The commit never fails for the disk being opened
      read-only, since it is given its own handle. */
  lemma ConvertGate(d: seq<Byte>, sectors: nat, answer: string)
    ensures var c := ConvertModel(d, sectors, answer);
            (c.verdict.Committed? <==> Ready(d, sectors, answer)) &&
            (!c.verdict.Committed? ==> c.image == d) &&
            c.verdict != Committed(Err(IOError))
  {
    var p := LoadPhase(d, 1, None);
    var c := ConvertModel(d, sectors, answer);
    if !p.ok {
      assert c == Conversion(Raised(StructError), d) && !Ready(d, sectors, answer);
    } else {
      var active := ActivePrefix(p.cache.value.table.value);
      var sizes := TargetSizes(SECTOR_SIZE * sectors);
      if |active| != 5 {
        assert c == Conversion(WrongCount, d) && !Ready(d, sectors, answer);
      } else if !SizesMatch(active, sizes) {
        assert c == Conversion(WrongSize, d) && !Ready(d, sectors, answer);
      } else if answer != "yes" {
        assert c == Conversion(NotConfirmed, d) && !Ready(d, sectors, answer);
      } else {
        var o := CommitModel(Files(d, Some(d)), Some(Converted(p.cache.value)), None);
        assert c == Conversion(Committed(o.result), o.files.Written()) && Ready(d, sectors, answer);
        CommitElsewhere(Files(d, Some(d)), Some(Converted(p.cache.value)), None);
      }
    }
  }

  /** When the device is ready the script commits the fixed header and table. */
  lemma ConvertCommits(d: seq<Byte>, sectors: nat, answer: string)
    requires Ready(d, sectors, answer)
    ensures var p := LoadPhase(d, 1, None);
            |p.cache.value.table.value| >= 5 &&
            var o := CommitModel(Files(d, Some(d)), Some(Converted(p.cache.value)), None);
            ConvertModel(d, sectors, answer) == Conversion(Committed(o.result), o.files.Written())
  {
  }

  /** A successful conversion read the header, its table of at least five entries and the
      backup header and table from the device. */
  lemma ConvertReads(d: seq<Byte>, sectors: nat, answer: string)
    requires ConvertModel(d, sectors, answer).verdict == Committed(Ok(()))
    ensures var p := LoadPhase(d, 1, None);
            p.ok && |p.cache.value.table.value| >= 5 &&
            LoadPhase(d, Converted(p.cache.value).fields.backupLba, None).ok
  {
    ConvertGate(d, sectors, answer);
    ConvertCommits(d, sectors, answer);
    var p := LoadPhase(d, 1, None);
    var c := Converted(p.cache.value);
    var fs := Files(d, Some(d));
    CommitElsewhere(fs, Some(c), None);
    PhaseCached(fs, 1, Some(c));
  }

  /** The records a successful conversion writes: the fixed header and its table, then
      the backup header and table as they were read from the device. */
  function Plan(d: seq<Byte>, sectors: nat, answer: string): (ws: seq<Write>)
    requires ConvertModel(d, sectors, answer).verdict == Committed(Ok(()))
    ensures |ws| == 4
  {
    ConvertReads(d, sectors, answer);
    var c := Converted(LoadPhase(d, 1, None).cache.value);
    var b := LoadPhase(d, c.fields.backupLba, None).cache.value;
    IntendedWrites(c.fields, c.table.value, b.fields, b.table.value)
  }

  /** A successful conversion is the intended commit of the fixed header and table to
      the second handle, which leaves the disk's own file as it was. */
  lemma ConvertIntended(d: seq<Byte>, sectors: nat, answer: string)
    requires ConvertModel(d, sectors, answer).verdict == Committed(Ok(()))
    ensures (ConvertReads(d, sectors, answer);
            var fs := Files(d, Some(d));
            var c := Converted(LoadPhase(d, 1, None).cache.value);
            var i := IntendedCommit(fs, Some(c), None);
            i.result.Ok? && i.header == Some(c) && i.backup.Some? && i.backup.value.table.Some? &&
            OutcomeWrites(i) == Plan(d, sectors, answer) && i.files.own == d &&
            ConvertModel(d, sectors, answer).image == i.files.Written())
  {
    ConvertReads(d, sectors, answer);
    ConvertGate(d, sectors, answer);
    ConvertCommits(d, sectors, answer);
    var c := Converted(LoadPhase(d, 1, None).cache.value);
    var fs := Files(d, Some(d));
    CommitElsewhere(fs, Some(c), None);
    var i := IntendedCommit(fs, Some(c), None);
    PhaseCached(fs, 1, Some(c));
    var q := LoadPhase(d, c.fields.backupLba, None);
    var ws := Plan(d, sectors, answer);
    assert i == Outcome(Ok(()), fs.WriteAll(ws), Some(c), q.cache);
  }

  /** The header and entries a conversion reads are well formed, and stay so fixed. */
  lemma ConvertedWellFormed(d: seq<Byte>)
    requires var p := LoadPhase(d, 1, None); p.ok && |p.cache.value.table.value| >= 5
    ensures var c := Converted(LoadPhase(d, 1, None).cache.value);
            WellFormedHeader(c.fields) && forall k :: 0 <= k < |c.table.value| ==> WellFormedPartition(c.table.value[k])
  {
    var l := LoadPhase(d, 1, None).cache.value;
    UnpackHeaderWellFormed(Slice(d, LBA_SIZE * 1, HEADER_SIZE));
    ReadEntriesWellFormed(d, LBA_SIZE * l.fields.partitionTableLba, l.fields.partitionTableSize,
                          l.fields.partitionTableEntrySize);
    FixupKeepsWellFormed(l.table.value);
  }

  /** A successful conversion writes its four records at the start of their blocks and
      nothing else. */
  lemma ConvertWrites(d: seq<Byte>, sectors: nat, answer: string)
    requires ConvertModel(d, sectors, answer).verdict == Committed(Ok(()))
    ensures var ws, e := Plan(d, sectors, answer), ConvertModel(d, sectors, answer).image;
            e == ApplyWrites(d, ws) &&
            (forall k :: 0 <= k < |d| && !Covered(ws, k) ==> k < |e| && e[k] == d[k])
  {
    ConvertIntended(d, sectors, answer);
    var c := Converted(LoadPhase(d, 1, None).cache.value);
    IntendedCommitWrites(Files(d, Some(d)), Some(c), None);
  }

  /** After a successful conversion whose records do not overlap, the device holds at
      block 1 the header with the console's disk GUID and both CRCs valid, its table reads
      back as the entries read from the device with the fixup applied. */
  lemma ConvertReadsBack(d: seq<Byte>, sectors: nat, answer: string)
    requires ConvertModel(d, sectors, answer).verdict == Committed(Ok(()))
    requires Disjoint(Plan(d, sectors, answer))
    ensures (ConvertReads(d, sectors, answer);
            var l := LoadPhase(d, 1, None).cache.value;
            var c := Converted(l);
            var h, ps, e := c.fields, c.table.value, ConvertModel(d, sectors, answer).image;
            UnpackHeader(Slice(e, LBA_SIZE, HEADER_SIZE)) == Some(h) &&
            h.diskGuid == DISK_GUID && CheckCrc(h) && TableCheckCrc(h, ps) &&
            ps == FixupEntries(l.table.value) &&
            ReadEntries(e, LBA_SIZE * h.partitionTableLba, |ps|, ENTRY_SIZE) == Some(ps))
  {
    ConvertIntended(d, sectors, answer);
    var c := Converted(LoadPhase(d, 1, None).cache.value);
    var fs := Files(d, Some(d));
    ConvertedWellFormed(d);
    IntendedHeaderReadsBack(fs, Some(c), None);
    IntendedTableReadsBack(fs, Some(c), None);
  }

  /** After a successful conversion whose records do not overlap, the bytes of the backup
      header are as they were: it is written back exactly as it was read. */
  lemma ConvertKeepsBackupHeader(d: seq<Byte>, sectors: nat, answer: string)
    requires ConvertModel(d, sectors, answer).verdict == Committed(Ok(()))
    requires Disjoint(Plan(d, sectors, answer))
    ensures (ConvertReads(d, sectors, answer);
            var at := LBA_SIZE * Converted(LoadPhase(d, 1, None).cache.value).fields.backupLba;
            Slice(ConvertModel(d, sectors, answer).image, at, HEADER_SIZE) == Slice(d, at, HEADER_SIZE))
  {
    ConvertIntended(d, sectors, answer);
    var c := Converted(LoadPhase(d, 1, None).cache.value);
    IntendedBackupKept(Files(d, Some(d)), Some(c));
  }

  /** `Disk.from_path` on a device holding `d`, opened read-only, and the table of its
      header: the reads of the intended commit's first phase. */
  method OpenDisk(d: seq<Byte>) returns (r: Result<GptPartitionTable>, disk: Disk)
    ensures fresh(disk) && fresh(disk.file) && !disk.write && disk.file.data == d
    ensures var p := LoadPhase(d, 1, None);
            (r.Ok? <==> p.ok) && (r.Err? ==> r.error == StructError) &&
            (r.Ok? ==> disk.Valid() && disk.gptHeader != null && fresh(disk.gptHeader) && fresh(r.value) &&
                       disk.gptBackupHeader == null && disk.gptHeader.table == r.value &&
                       CacheOf(disk.gptHeader) == p.cache)
  {
    var dev := new File(d);
    disk := new Disk(dev, false);
    var hr := disk.Header();
    if hr.Err? {
      return Err(hr.error), disk;
    }
    var hdr := hr.value;
    r := hdr.PartitionTable();
  }

  /** The fixups and the commit to a second handle on the device: `fixup_part_table`,
      `fixup_header` and `commit(f=diskf)`, where `diskf` starts as a copy of the device. */
  method WriteConverted(disk: Disk, pt: GptPartitionTable) returns (r: Result<()>, image: seq<Byte>)
    requires disk.Valid() && disk.gptHeader != null && disk.gptHeader.table == pt && disk.gptBackupHeader == null
    requires |pt.partitions| >= 5
    modifies disk, disk.file, disk.gptHeader, pt
    ensures var d := old(disk.file.data);
            var o := CommitModel(Files(d, Some(d)), Some(Converted(old(CacheOf(disk.gptHeader)).value)), None);
            r == o.result && image == o.files.Written()
  {
    ghost var d, c := disk.file.data, CacheOf(disk.gptHeader).value;
    var hdr := disk.gptHeader;
    FixupPartTable(pt);
    var _ := FixupHeader(hdr);
    assert CacheOf(disk.gptHeader) == Some(Converted(c));
    var diskf := new File(disk.file.data);
    assert disk.Image(diskf) == Files(d, Some(d));
    r := disk.Commit(diskf);
    image := diskf.data;
  }

  /** The script's main part on a device holding `d`, `sectors` blocks long, with `answer`
      typed at the prompt: the disk is opened read-only, its header and table are read and
      checked, and after confirmation the fixed-up header and table are committed through
      a second, writable handle on the device, whose contents are then returned. */
  method Convert(d: seq<Byte>, sectors: nat, answer: string) returns (v: Verdict, image: seq<Byte>)
    ensures ConvertModel(d, sectors, answer) == Conversion(v, image)
  {
    var tr, disk := OpenDisk(d);
    if tr.Err? {
      return Raised(tr.error), d;
    }
    var pt := tr.value;
    var partitions := pt.ActivePartitions();
    var sizes := TargetSizes(SECTOR_SIZE * sectors);
    if |partitions| != 5 {
      return WrongCount, d;
    }
    var k := FirstWrongSize(partitions, sizes);
    if k < 5 {
      return WrongSize, d;
    }
    if answer != "yes" {
      return NotConfirmed, d;
    }
    assert Ready(d, sectors, answer);
    ConvertCommits(d, sectors, answer);
    var r;
    r, image := WriteConverted(disk, pt);
    v := Committed(r);
  }
}
