# GPT metadata and the Xbox One disk converter, in Dafny

This project models `gptutil`, a small library that reads and writes the GUID
Partition Table of a disk image, following section 5.3 of the UEFI
specification. It also models the part of `xboxonehdd` that uses the library
to turn a disk into one an Xbox One accepts. The properties below are proved
about the model.

- **GPT header** (section 5.3.2 of the UEFI specification). A 92-byte
  little-endian record, modelled as `Gpt.Header`.
  - `pack` can zero the CRC field.
  - `from_disk` unpacks the record.
  - `calculate_crc`, `check_crc` and `fix_crc` are specified, including the
    order `fix_crc` depends on: the table CRC is set first, then the header
    CRC.
- **GPT partition entry** (section 5.3.3). A 128-byte record, modelled as
  `Gpt.Partition`. Its name is a 72-byte UTF-16LE field: it is NUL-padded
  when packed and cut at the first NUL when read.
- **Partition table.** The entries in slot order.
  - `pack` joins them.
  - `active_partitions` is the prefix that ends at the first unused type GUID.
  - The table has its own CRC, stored in the header.
- **CRC.** `binascii.crc32` is the reflected CRC-32 with polynomial
  0xEDB88320. Python 2 returns it signed. `crc2bytes` is the loop that stores
  it as four little-endian bytes.
- **`Disk`, `GPTHeader` and `GPTPartitionTable` objects.** These are classes
  over a file object, which is a byte sequence plus a cursor.
  - Each cache that Python sets on first use with `hasattr` is a nullable
    field here.
  - `commit` makes four seek-and-write steps. `dump_to_disk` commits to a
    new zero-filled file.
  - The object methods are proved against pure functions of the file contents
    and the cached state (`GptCommit.CommitModel` for `commit`).
- **`xboxonehdd`.**
  - `fixup_part_table` and `fixup_header` rewrite fields in place.
  - The sizes the console expects depend on the disk size, and the offsets of
    the `parted` script are computed from them.
  - The script's main part checks the partition count, the sizes and the
    confirmation, then commits through a second writable handle on the
    device.
  - `XboxOneHdd.Convert` runs this sequence on the classes. Its result equals
    `XboxOneHdd.ConvertModel`, which the end-to-end lemmas are about.

Modules:
- `Bytes`: bytes, little-endian integers and fixed-width fields.
- `Struct`: the subset of `struct.pack`/`struct.unpack` the formats use (`<`, `Ns`, `L`, `Q`).
- `Records`: packing and unpacking sequences of records.
- `FileImage`: a file object, positioned writes and their images.
- `Crc`: the checksum and `crc2bytes`.
- `Gpt`: the record codecs, CRCs and the active prefix.
- `GptCommit`: `commit` and `dump_to_disk` on values, as written and as intended.
- `GptDisk`: the classes.
- `XboxOneHdd`: the converter.

Where the format description and the code disagree, the model follows the code:

- The header's `reserved` field is unpacked with `L`, as a 32-bit integer, not
  as four opaque bytes. It survives a round trip either way.
- A name longer than 36 code units is not refused. `struct`'s `72s` silently
  cuts it to 72 bytes (`Gpt.NameField`).
- Entries are read `partition_table_entry_size` bytes at a time, and
  `from_table` raises `struct.error` (`None` from `Gpt.UnpackPartition`) on any
  chunk that is not exactly 128 bytes. That is every entry size below 128, and
  every size above 128 unless the end of the file cuts the read to exactly 128
  bytes. With `partition_table_size` 0 nothing is read at all.
- For a device smaller than 100 GiB, the user-content size the script computes
  is negative (`XboxOneHdd.TargetSizes`). `Gpt.PartitionSize` gives an entry
  whose `last_lba` is below `first_lba - 1` a negative size too, so such an
  entry can pass the size check, as it would in the script
  (`XboxOneHdd.ReversedRangeMatches`).

## Model

| member | source | states |
|---|---|---|
| Crc.Crc2Bytes | gptutil.py:8-14 | the loop produces exactly the 4 little-endian bytes of `crc`; read back as a `u32` they give `crc mod 2^32`, also for the negative values Python 2's `crc32` returns |
| Crc.Checksum | gptutil.py:131-133 | `crc2bytes(binascii.crc32(data))` is 4 bytes, the little-endian bytes of the unsigned CRC-32 even though the signed value is what is converted |
| Crc.ChecksumValue | gptutil.py:173-175 | the stored checksum, read as a little-endian `u32`, is the unsigned CRC-32 of the data |
| Gpt.PackHeader | gptutil.py:122-129 | `pack` of any header is exactly 92 bytes |
| Gpt.UnpackHeader | gptutil.py:105-114 | `from_disk` succeeds exactly when it is given 92 bytes (otherwise `struct.error`) |
| Gpt.UnpackHeaderWellFormed | gptutil.py:105-114 | every unpacked header has byte fields of exactly their widths (8, 4, 16, 4) |
| Gpt.HeaderRoundTrip | gptutil.py:105-129 | `from_disk` of `pack()` reproduces every field of a well-formed header |
| Gpt.HeaderBytesRoundTrip | gptutil.py:105-129 | `pack()` of the header unpacked from any 92 bytes gives those bytes back |
| Gpt.PackZeroedBytes | gptutil.py:122-129 | `pack(use_crc=False)` and `pack()` agree on every byte except bytes 16..19, the CRC field, which the first fills with zeros |
| Gpt.CalculateCrcIgnoresCrc | gptutil.py:131-133 | `calculate_crc` does not depend on the stored `crc` field |
| Gpt.WithFixedCrcs | gptutil.py:135-140 | after `fix_crc` both `check_crc` of the header and `check_crc` of its table hold, and only the two CRC fields differ from before |
| Gpt.FixCrcIdempotent | gptutil.py:138-140 | a second `fix_crc` with no change in between changes nothing |
| Gpt.FixCrcKeepsValid | gptutil.py:135-140 | a header whose two checks pass is a fixed point of `fix_crc` |
| Gpt.PackPartition | gptutil.py:201-204 | `GPTPartition.pack` is exactly 128 bytes |
| Gpt.UnpackPartition | gptutil.py:190-199 | `from_table` succeeds exactly when it is given 128 bytes |
| Gpt.UnpackWellFormed | gptutil.py:190-199 | every entry `from_table` produces has 16-byte GUIDs and a name of at most 36 units with no NUL |
| Gpt.PartitionRoundTrip | gptutil.py:190-204 | `from_table` of `pack()` gives back every well-formed entry |
| Gpt.NameField | gptutil.py:196-204 | the name read back from the 72-byte field is the first 36 units (when longer), cut at the first NUL |
| Gpt.NameRoundTrip | gptutil.py:196-204 | a name of at most 36 units with no NUL survives the field exactly |
| Gpt.NameStopsAtNul | gptutil.py:196-198 | whatever follows the terminating NUL in the field does not change the decoded name |
| Gpt.CutAtNulSpec | gptutil.py:197-198 | the cut name is a NUL-free prefix that ends only at a NUL or at the end |
| Gpt.DecodeEncode | gptutil.py:196-204 | decoding UTF-16LE bytes of code units gives the units back |
| Gpt.PartitionSize | gptutil.py:206-209 | `size` is `(last_lba - first_lba + 1) * 512` for every entry: 512 bytes per block of the inclusive range `first_lba..last_lba`, a multiple of 512, positive exactly when the range is not empty, negative when `last_lba` is below `first_lba - 1` |
| Gpt.ActivePrefixSpec | gptutil.py:161-168 | `active_partitions` is a prefix of the table, holds no unused type GUID, and the slot after it (if any) is unused |
| Gpt.PackTable | gptutil.py:170-171 | the packed table is 128 bytes per entry |
| Gpt.EntryRecords | gptutil.py:170-171 | the joined records are the entries' `pack()`, one per slot, in slot order |
| Gpt.PackTableSlot | gptutil.py:170-171 | slot `i` of the packed table holds the `pack()` of entry `i` |
| Gpt.ReadEntriesSucceeds | gptutil.py:152-159 | reading `n` 128-byte entries from `pos` succeeds exactly when `n` is 0 or the file holds `pos + 128n` bytes |
| Gpt.ReadEntriesWellFormed | gptutil.py:152-159 | every entry `from_header` reads is one `from_table` can produce |
| Gpt.ReadPackedTable | gptutil.py:152-171 | a packed table of well-formed entries reads back as the same entries, whatever surrounds it |
| GptCommit.LoadHeader | gptutil.py:29-33 | the `header` property gives the cached header; with none cached it succeeds exactly when the file holds the 92 bytes from `512*lba`, and then gives the fields unpacked there with no table cached |
| GptCommit.LoadTable | gptutil.py:116-120 | the `partition_table` property gives the cached entries untouched; otherwise it reads `partition_table_size` well-formed entries, and with 128-byte entries it succeeds exactly when that size is 0 or the whole table lies inside the file |
| GptCommit.CommitMisplacesHeader | gptutil.py:49-50 | on the disk's own file with no cached header, the header is written at byte 604 instead of 512 |
| GptCommit.PhaseCached | gptutil.py:48-54 | with header and table cached, a phase reads nothing and writes both at the start of their blocks |
| GptCommit.CommitAllCached | gptutil.py:41-62 | with all four records cached, `commit` succeeds on any file and is the intended commit |
| GptCommit.PhaseElsewhere | gptutil.py:48-54 | on another file, a phase reads through the untouched own file and writes without a shift |
| GptCommit.CommitElsewhere | gptutil.py:41-62 | on another file, `commit` ends as the intended commit does; when it succeeds it has the same files |
| GptCommit.IntendedCommit | gptutil.py:41-62 | the corrected commit: a failed read ends it with `struct.error` and writes nothing |
| GptCommit.IntendedCommitWrites | gptutil.py:48-62 | the intended commit writes the four records at the starts of their blocks and no other byte; the own file is untouched when another file is written; non-overlapping records read back whole |
| GptCommit.IntendedHeaderReadsBack | gptutil.py:48-50 | after it, `from_disk` at block 1 gives back the committed header |
| GptCommit.IntendedTableReadsBack | gptutil.py:52-54 | after it, `from_header` gives back the committed entries |
| GptCommit.IntendedCommitTwice | gptutil.py:41-62 | a second intended commit, with nothing changed in between, reads nothing and ends exactly as the first: the same bytes, the same caches |
| GptCommit.CommitTwice | gptutil.py:41-62 | two commits in a row to another file than the disk's own write the same bytes: the second ends exactly as the first |
| GptCommit.IntendedBackupKept | gptutil.py:56-58 | after it, the backup header's bytes are what the disk held there, since it is written back as it was read |
| GptCommit.DumpIntended | gptutil.py:64-68 | `dump_to_disk` leaves the disk alone; a failed header read leaves the new file empty; otherwise it ends as the intended commit to the zeroed file |
| GptDisk.Disk.constructor | gptutil.py:24-27 | a disk over the file with the `write` flag and nothing cached |
| GptDisk.Disk.SeekToLba | gptutil.py:72-75 | moves the cursor of `f`, or of the disk's file, to `512*lba`, and the contents stay as they were |
| GptDisk.Disk.ReadGptHeader | gptutil.py:77-80 | reads 92 bytes at block 1, caches a fresh header holding the unpacked fields, or gives `struct.error` |
| GptDisk.Disk.Header | gptutil.py:29-33 | gives the cached header untouched, or reads it |
| GptDisk.Disk.ReadGptBackupHeader | gptutil.py:82-85 | without a cached primary header it fails (`AttributeError`) and changes nothing; otherwise it reads at the cached header's `backup_lba` |
| GptDisk.Disk.BackupHeader | gptutil.py:35-39 | gives the cached backup header, or reads it |
| GptDisk.Disk.Commit | gptutil.py:41-62 | raises `IOError` exactly when the disk is read-only and no file is given; otherwise the files and caches end as `CommitModel` says |
| GptDisk.Disk.CommitPrimary | gptutil.py:48-54 | the first phase on the object state ends as `HeaderPhase` says |
| GptDisk.Disk.CommitBackup | gptutil.py:56-62 | the backup phase ends as `HeaderPhase` at the header's `backup_lba` says |
| GptDisk.Disk.CommitHeader | gptutil.py:49-50 | seek, then the `header` property, then the write, end as `HeaderStep` says |
| GptDisk.Disk.CommitBackupHeader | gptutil.py:57-58 | seek, then the `backup_header` property, then the write, end as `HeaderStep` says |
| GptDisk.Disk.CommitTable | gptutil.py:53-54 | seek, then `partition_table`, then the write, end as `TableStep` says |
| GptDisk.Disk.DumpToDisk | gptutil.py:64-70 | the disk's file keeps its contents; result and caches are those of `DumpModel`; the new file holds what `DumpModel` writes |
| GptDisk.GptHeader.FromDisk | gptutil.py:105-114 | reads 92 bytes at the cursor and gives a fresh header of the unpacked fields, or `struct.error` |
| GptDisk.GptHeader.ReadGptPartitionTable | gptutil.py:142-145 | reads the table at `partition_table_lba` and caches it, or gives `struct.error` |
| GptDisk.GptHeader.PartitionTable | gptutil.py:116-120 | gives the cached table untouched, or reads it |
| GptDisk.GptHeader.FixCrc | gptutil.py:138-140 | the header's fields become `WithFixedCrcs` of them over its table; when none is cached, that table is the one read at `partition_table_lba` and cached; a failed read is `struct.error` and changes no field and no cache |
| GptDisk.GptPartitionTable.FromHeader | gptutil.py:152-159 | the loop reads the entries `ReadEntries` describes and leaves the cursor after them, or gives `struct.error` |
| GptDisk.GptPartitionTable.ActivePartitions | gptutil.py:161-168 | the loop with `break` gives the prefix before the first unused type GUID, and the slot after it is unused |
| XboxOneHdd.FixupEntries | xboxonehdd.py:62-72 | entries 0..4 get the console's partition GUIDs and names, with their type GUID, block range and flags kept; entries from 5 on are untouched |
| XboxOneHdd.FixupPartTable | xboxonehdd.py:62-72 | the in-place assignments leave the table's entries as `FixupEntries` of the old ones |
| XboxOneHdd.FixupNamesRoundTrip | xboxonehdd.py:64-72 | every assigned name is at most 15 units with no NUL, and the packed name field decodes to it exactly |
| XboxOneHdd.FixupKeepsWellFormed | xboxonehdd.py:62-72 | entries as `from_table` produces them stay so after the fixup |
| XboxOneHdd.FixedHeader | xboxonehdd.py:57-59 | the header gets the console's disk GUID, its CRC and its table's CRC both check, and every other field is kept |
| XboxOneHdd.FixupHeader | xboxonehdd.py:57-59 | `fixup_header` leaves the header as `FixedHeader` over its table, which is the one read at `partition_table_lba` when none was cached; it always succeeds once the table is cached; a failed read is `struct.error` and changes only the disk GUID |
| XboxOneHdd.FixedSizesTotal | xboxonehdd.py:17-23 | the fixed partition sizes add up to exactly 100 GiB |
| XboxOneHdd.UserContentGiB | xboxonehdd.py:89-90 | `user_content_size` is the whole number of GiB the disk has beyond the fixed sizes, rounded down, also when the result is negative |
| XboxOneHdd.TargetSizes | xboxonehdd.py:88-91 | after the update, `PARTITION_SIZES[1]` is a multiple of 1 GiB; the other sizes are unchanged; the total is within 1 GiB below the disk size; the new size is between 0 and the remaining space when the disk is big enough, and negative otherwise |
| XboxOneHdd.ReversedRangeMatches | xboxonehdd.py:89-115 | on a device under 100 GiB the expected user-content size is negative, and an entry with `last_lba` 0 and `first_lba` just above it in blocks has exactly that size, so it passes the size check |
| XboxOneHdd.PartedEndsOrdered | xboxonehdd.py:26-31 | for sizes that are not negative, the partition ends start at 1 MiB or more and never go down |
| XboxOneHdd.PartedEndsExact | xboxonehdd.py:26-31 | for sizes in whole MiB, each partition of the script spans exactly its size, and the last ends at 1 MiB plus the total |
| XboxOneHdd.TargetSizesInMib | xboxonehdd.py:17-23 | the sizes the console expects are whole MiB for every disk size |
| XboxOneHdd.FirstWrongSize | xboxonehdd.py:107-115 | the loop finds the first slot whose size is wrong, or 5 exactly when all five sizes match |
| XboxOneHdd.ConvertGate | xboxonehdd.py:94-122 | the disk is written exactly when the header and table read, there are 5 active partitions, all of the expected sizes, and the answer is `yes`; otherwise the device is unchanged; the commit never raises `IOError` |
| XboxOneHdd.ConvertReads | xboxonehdd.py:85-86 | a successful conversion read the header, a table of at least 5 entries, and the backup header and table |
| XboxOneHdd.Plan | xboxonehdd.py:131-132 | the four records a successful conversion writes |
| XboxOneHdd.ConvertIntended | xboxonehdd.py:131-132 | a successful conversion is the intended commit, which writes exactly `Plan` |
| XboxOneHdd.ConvertedWellFormed | xboxonehdd.py:125-128 | the header and entries the conversion writes are well formed |
| XboxOneHdd.ConvertWrites | xboxonehdd.py:125-132 | the device afterwards is the device with the four planned writes applied, and every byte outside them is unchanged |
| XboxOneHdd.ConvertReadsBack | xboxonehdd.py:125-132 | when the records do not overlap, block 1 holds a header with the console's disk GUID and both CRCs valid, and its table reads back as the read entries with the fixup applied |
| XboxOneHdd.ConvertKeepsBackupHeader | xboxonehdd.py:131-132 | when the records do not overlap, the backup header's bytes are as they were |
| XboxOneHdd.OpenDisk | xboxonehdd.py:84-86 | opening the device read-only and reading its header and table succeeds exactly when the bytes allow it, and caches what `LoadPhase` reads |
| XboxOneHdd.WriteConverted | xboxonehdd.py:125-132 | the fixups, then `commit(f=diskf)` on a copy of the device, give `CommitModel` of the converted state |
| XboxOneHdd.Convert | xboxonehdd.py:83-132 | the script's main part on the classes ends exactly as `ConvertModel` says |

## Left out

- Opening files and devices (`open`, `Disk.from_path` and its modes), `flush`, `close` and `os.chmod` are OS I/O. A disk is given as its contents; `XboxOneHdd.OpenDisk` creates the disk object read-only, as `from_path` does by default.
- The two handles the script holds on one device are modelled as two independent copies of its contents. The commit's reads of the backup header therefore never see its own earlier writes. Buffering and coherence between handles are not modelled.
- Reading `/sys/class/block/<dev>/size` and `raw_input` are parameters of `XboxOneHdd.Convert`: the block count and the typed answer. The usage message and exit code -1 for wrong arguments, all `print` output and the `sys.exit` mechanism are left out. The exit codes -2, -3 and -4 are the `Verdict` cases `WrongCount`, `WrongSize` and `NotConfirmed`.
- `print_parted_commands` writes a shell script and runs no tool. Only its end-offset arithmetic is modelled (`XboxOneHdd.PartedEnds`).
- `binascii.crc32` is defined bit by bit as the reflected CRC-32. No concrete check value is evaluated.
- UTF-16 is modelled on code units: a name is a sequence of 16-bit units, and `.encode`/`.decode('utf-16le')` map units to byte pairs. Surrogate pairs and decode errors are not modelled. The constant names are written as text of characters below U+10000.
- The hex-decoded GUID constants are written as byte literals.
- GptCommit.CommitMisplacesHeader: states the displaced write only for the first record of a same-file commit. Through `CommitModel`, the model computes the later shifted steps exactly as written, but no lemma names their offsets.
- GptDisk.Disk.DumpToDisk: states the new file's contents only when the dump succeeds or the header read fails. After a later read failure, the records written so far stay in the file, as `DumpModel` computes, but the method's contract says nothing about them.
- Python objects created on the fly with `cls()` and class attributes defaulting to `None` become constructors taking every field. A header object without fields, or a partition before `from_table`, is not modelled.

## Findings

| source | as written | input that shows it | evidently intended | confidence | as-written member | corrected member |
|---|---|---|---|---|---|---|
| gptutil.py:49-50 | `commit()` on the disk's own file seeks to block 1, and only then evaluates `self.header`. When no header is cached, that property re-seeks the same file to block 1 (gptutil.py:78) and reads 92 bytes, so `pack()` is written at byte 604. The table, backup header and backup table steps shift the same way after their lazy reads (gptutil.py:83, 143, 157). | A disk opened with `write=True`, nothing read yet, and a valid header at byte 512. `commit()` writes the header at bytes 604..695, and block 1's own header is left in place. | Every record is written at the start of its block. This is what happens when the caches are full or another file is passed, as `dump_to_disk` and the converter do. | not executed | GptCommit.CommitMisplacesHeader (over GptCommit.CommitModel, which GptDisk.Disk.Commit follows) | GptCommit.IntendedCommit (with IntendedCommitWrites, IntendedHeaderReadsBack and IntendedTableReadsBack). DumpToDisk and the converter's lemmas use it through GptCommit.CommitElsewhere and GptCommit.DumpIntended |

As written, on the disk's own file with nothing cached, a second commit can
change the file. The first commit writes each record after the bytes it has
just read: the header 92 bytes into block 1, and each table `128*n` bytes past
its start. The second commit finds every record cached, so it writes them at
the starts of their blocks (`GptCommit.CommitAllCached`). There it repacks the
records that the first commit read. A header repacks to exactly the bytes it
was read from (`Gpt.HeaderBytesRoundTrip`). An entry does not when its name
field holds non-zero bytes after the terminating NUL, because packing fills the
field with zeros after the name. On such a disk the second commit rewrites that
entry's slot with different bytes. Idempotence holds for the intended commit
(`GptCommit.IntendedCommitTwice`) and for a commit to another file
(`GptCommit.CommitTwice`).
