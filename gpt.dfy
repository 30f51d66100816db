/** The GPT on-disk records (section 5.3 of the UEFI specification) as `gptutil`
    packs and unpacks them with `struct`: the 92-byte header (section 5.3.2),
    the 128-byte partition entry (section 5.3.3), the entry array and their CRCs. */
module Gpt {
  import opened Bytes
  import opened Crc
  import opened FileImage
  import opened Records
  import opened Struct

  const LBA_SIZE: nat := 512
  /** `struct.calcsize('< 8s L L 4s L Q Q Q Q 16s Q L L 4s')` */
  const HEADER_SIZE: nat := 92
  /** `struct.calcsize('< 16s 16s Q Q Q 72s')` */
  const ENTRY_SIZE: nat := 128
  /** The name field holds 72 bytes, that is 36 UTF-16 code units. */
  const NAME_BYTES: nat := 72
  const NAME_UNITS: nat := 36
  const UNUSED_GUID: seq<Byte> := Zeros(16)

  /** The fields of a GPT header, in the order of the `struct` format. The
      byte-string fields are Python strings and may have any length; `pack`
      pads or cuts them to their width. */
  datatype Header = Header(
    signature: seq<Byte>,
    revision: U32,
    headerSize: U32,
    crc: seq<Byte>,
    reserved: U32,
    currentLba: U64,
    backupLba: U64,
    firstLba: U64,
    lastLba: U64,
    diskGuid: seq<Byte>,
    partitionTableLba: U64,
    partitionTableSize: U32,
    partitionTableEntrySize: U32,
    partitionTableCrc: seq<Byte>)

  /** Every byte-string field has exactly its on-disk width, as after `from_disk`. */
  predicate WellFormedHeader(h: Header)
  {
    |h.signature| == 8 && |h.crc| == 4 && |h.diskGuid| == 16 && |h.partitionTableCrc| == 4
  }

  /** The header format `< 8s L L 4s L Q Q Q Q 16s Q L L 4s`. */
  const HEADER_FORMAT: seq<Code> :=
    [Str(8), UInt(4), UInt(4), Str(4), UInt(4), UInt(8), UInt(8), UInt(8), UInt(8),
     Str(16), UInt(8), UInt(4), UInt(4), Str(4)]

  lemma HeaderFormatSize()
    ensures |HEADER_FORMAT| == 14 && Size(HEADER_FORMAT) == HEADER_SIZE
  {
    var f := HEADER_FORMAT;
    assert SizeFrom(f, 13) == 4;
    assert SizeFrom(f, 12) == 8;
    assert SizeFrom(f, 11) == 12;
    assert SizeFrom(f, 10) == 20;
    assert SizeFrom(f, 9) == 36;
    assert SizeFrom(f, 8) == 44;
    assert SizeFrom(f, 7) == 52;
    assert SizeFrom(f, 6) == 60;
    assert SizeFrom(f, 5) == 68;
    assert SizeFrom(f, 4) == 72;
    assert SizeFrom(f, 3) == 76;
    assert SizeFrom(f, 2) == 80;
    assert SizeFrom(f, 1) == 84;
    assert SizeFrom(f, 0) == 92;
  }

  /** The arguments `pack` hands to `struct.pack`; with `useCrc` false the CRC is four
      zero bytes. */
  function HeaderValues(h: Header, useCrc: bool): (r: seq<Value>)
  {
    [Blob(h.signature), Num(h.revision), Num(h.headerSize), Blob(if useCrc then h.crc else Zeros(4)),
     Num(h.reserved), Num(h.currentLba), Num(h.backupLba), Num(h.firstLba), Num(h.lastLba),
     Blob(h.diskGuid), Num(h.partitionTableLba), Num(h.partitionTableSize),
     Num(h.partitionTableEntrySize), Blob(h.partitionTableCrc)]
  }

  lemma HeaderValuesKinds(h: Header, useCrc: bool)
    ensures Kinds(HEADER_FORMAT, HeaderValues(h, useCrc))
  {
    var vs := HeaderValues(h, useCrc);
    forall i | 0 <= i < 14 ensures HEADER_FORMAT[i].Str? <==> vs[i].Blob? {
    }
  }

  /** A well-formed header's values fit the format's fields. */
  lemma HeaderValuesFit(h: Header)
    requires WellFormedHeader(h)
    ensures Fits(HEADER_FORMAT, HeaderValues(h, true))
  {
    Pow256Values();
    var vs := HeaderValues(h, true);
    forall i | 0 <= i < 14 ensures FitsOne(HEADER_FORMAT[i], vs[i]) {
    }
  }

  /** The header `from_disk` builds from the unpacked values. */
  function HeaderOf(vs: seq<Value>): (h: Header)
    requires Fits(HEADER_FORMAT, vs)
  {
    Pow256Values();
    Header(vs[0].bytes, vs[1].n, vs[2].n, vs[3].bytes, vs[4].n, vs[5].n, vs[6].n, vs[7].n, vs[8].n,
           vs[9].bytes, vs[10].n, vs[11].n, vs[12].n, vs[13].bytes)
  }

  /** `GPTHeader.pack(use_crc)`: 92 bytes. */
  function PackHeader(h: Header, useCrc: bool): (r: seq<Byte>)
    ensures |r| == HEADER_SIZE
  {
    HeaderFormatSize();
    HeaderValuesKinds(h, useCrc);
    Pack(HEADER_FORMAT, HeaderValues(h, useCrc))
  }

  /** `struct.unpack` of the header format, as `from_disk` does it: fails unless given
      exactly 92 bytes. */
  function UnpackHeader(data: seq<Byte>): (r: Option<Header>)
    ensures r.Some? <==> |data| == HEADER_SIZE
  {
    HeaderFormatSize();
    var vs := Unpack(HEADER_FORMAT, data);
    if vs.None? then None
    else
      UnpackFits(HEADER_FORMAT, data);
      Some(HeaderOf(vs.value))
  }

  /** Every header `from_disk` produces has byte strings of exactly their widths. */
  lemma UnpackHeaderWellFormed(data: seq<Byte>)
    requires |data| == HEADER_SIZE
    ensures WellFormedHeader(UnpackHeader(data).value)
  {
    HeaderFormatSize();
    UnpackFits(HEADER_FORMAT, data);
    var vs := Unpack(HEADER_FORMAT, data).value;
    assert FitsOne(HEADER_FORMAT[0], vs[0]) && FitsOne(HEADER_FORMAT[3], vs[3]);
    assert FitsOne(HEADER_FORMAT[9], vs[9]) && FitsOne(HEADER_FORMAT[13], vs[13]);
  }

  /** `from_disk` applied to the bytes of `pack()` reproduces every field. */
  lemma HeaderRoundTrip(h: Header)
    requires WellFormedHeader(h)
    ensures UnpackHeader(PackHeader(h, true)) == Some(h)
  {
    HeaderFormatSize();
    HeaderValuesFit(h);
    UnpackPackFits(HEADER_FORMAT, HeaderValues(h, true));
  }

  /** Unpacking 92 bytes and packing the header again gives back the same bytes. */
  lemma HeaderBytesRoundTrip(data: seq<Byte>)
    requires |data| == HEADER_SIZE
    ensures PackHeader(UnpackHeader(data).value, true) == data
  {
    HeaderFormatSize();
    UnpackFits(HEADER_FORMAT, data);
    PackUnpack(HEADER_FORMAT, data);
    HeaderOfValues(Unpack(HEADER_FORMAT, data).value);
  }

  /** Values that fit the header format are the values of the header built from them. */
  lemma HeaderOfValues(vs: seq<Value>)
    requires Fits(HEADER_FORMAT, vs)
    ensures HeaderValues(HeaderOf(vs), true) == vs
  {
    var again := HeaderValues(HeaderOf(vs), true);
    forall i | 0 <= i < 14 ensures again[i] == vs[i] {
      assert FitsOne(HEADER_FORMAT[i], vs[i]);
    }
  }

  /** The two packings of a header agree on every byte but the CRC field at bytes 16..19,
      which `pack(use_crc=False)` fills with zeros. */
  lemma PackZeroedBytes(h: Header)
    ensures var a, b := PackHeader(h, false), PackHeader(h, true);
            a[..16] == b[..16] && a[16..20] == Zeros(4) && a[20..] == b[20..]
  {
    var f := HEADER_FORMAT;
    var va, vb := HeaderValues(h, false), HeaderValues(h, true);
    HeaderValuesKinds(h, false);
    HeaderValuesKinds(h, true);
    assert va[4..] == vb[4..] by {
      forall i | 0 <= i < 10 ensures va[4..][i] == vb[4..][i] {
      }
    }
    PackAroundFourth(f, va);
    PackAroundFourth(f, vb);
    var head := PackOne(f[0], va[0]) + (PackOne(f[1], va[1]) + PackOne(f[2], va[2]));
    var rest := Pack(f[4..], va[4..]);
    var za, cb := PackOne(f[3], va[3]), PackOne(f[3], vb[3]);
    assert |head| == 16 && za == Zeros(4) && |cb| == 4;
    SplitAround(PackHeader(h, false), PackHeader(h, true), head, za, cb, rest);
  }

  /** `GPTHeader.calculate_crc`: the checksum of the header packed with a zero CRC field. */
  function CalculateCrc(h: Header): (r: seq<Byte>)
    ensures |r| == 4
  {
    Checksum(PackHeader(h, false))
  }

  /** The stored CRC field does not take part in the header checksum. */
  lemma CalculateCrcIgnoresCrc(h: Header, c: seq<Byte>)
    ensures CalculateCrc(h.(crc := c)) == CalculateCrc(h)
  {
  }

  /** `GPTHeader.check_crc` */
  predicate CheckCrc(h: Header)
  {
    h.crc == CalculateCrc(h)
  }

  // ---------------------------------------------------------------------
  // Partition entries

  /** A partition entry; `name` is its UTF-16 code units. */
  datatype Partition = Partition(
    typeGuid: seq<Byte>,
    partGuid: seq<Byte>,
    firstLba: U64,
    lastLba: U64,
    flags: U64,
    name: seq<U16>)

  /** The shape `from_table` produces: 16-byte GUIDs, a name of at most 36 units with no NUL. */
  predicate WellFormedPartition(p: Partition)
  {
    |p.typeGuid| == 16 && |p.partGuid| == 16 && |p.name| <= NAME_UNITS && 0 !in p.name
  }

  /** `.encode('utf-16le')` of code units: each unit becomes its low byte, then its high byte. */
  function EncodeUtf16Le(units: seq<U16>): (r: seq<Byte>)
    ensures |r| == 2 * |units|
  {
    if units == [] then []
    else
      var lo, hi := units[0] % 256, units[0] / 256;
      assert hi < 256;
      [lo, hi] + EncodeUtf16Le(units[1..])
  }

  /** The code unit whose low byte is `lo` and high byte is `hi`. */
  function Unit(lo: Byte, hi: Byte): (u: U16)
    ensures u % 256 == lo && u / 256 == hi
  {
    lo as int + 256 * (hi as int)
  }

  /** `.decode('utf-16le')` of an even number of bytes, as code units. */
  function DecodeUtf16Le(bytes: seq<Byte>): (r: seq<U16>)
    requires |bytes| % 2 == 0
    ensures |r| == |bytes| / 2
  {
    if bytes == [] then []
    else
      [Unit(bytes[0], bytes[1])] + DecodeUtf16Le(bytes[2..])
  }

  /** The text before the first NUL code unit, or all of it when there is none. */
  function CutAtNul(units: seq<U16>): (r: seq<U16>)
    ensures |r| <= |units|
  {
    if units == [] || units[0] == 0 then [] else [units[0]] + CutAtNul(units[1..])
  }

  /** `CutAtNul` keeps a prefix of the units that holds no NUL, and stops only at a NUL
      or at the end. */
  lemma {:induction false} CutAtNulSpec(units: seq<U16>)
    ensures CutAtNul(units) == units[..|CutAtNul(units)|]
    ensures 0 !in CutAtNul(units)
    ensures |CutAtNul(units)| < |units| ==> units[|CutAtNul(units)|] == 0
  {
    if units != [] && units[0] != 0 {
      CutAtNulSpec(units[1..]);
    }
  }

  /** These properties of `CutAtNul` determine its result. */
  lemma CutAtNulUnique(units: seq<U16>, r: seq<U16>)
    requires |r| <= |units| && r == units[..|r|] && 0 !in r && (|r| < |units| ==> units[|r|] == 0)
    ensures CutAtNul(units) == r
  {
    var c := CutAtNul(units);
    CutAtNulSpec(units);
    assert |c| == |r|;
  }

  /** Units after a NUL do not matter. */
  lemma {:induction false} CutAtNulAppend(a: seq<U16>, b: seq<U16>)
    requires b == [] || b[0] == 0
    ensures CutAtNul(a + b) == CutAtNul(a)
  {
    if a != [] {
      assert (a + b)[1..] == a[1..] + b;
      CutAtNulAppend(a[1..], b);
    }
  }

  lemma {:induction false} DecodeEncode(units: seq<U16>)
    ensures DecodeUtf16Le(EncodeUtf16Le(units)) == units
  {
    if units != [] {
      var e := EncodeUtf16Le(units);
      assert e[2..] == EncodeUtf16Le(units[1..]);
      assert Unit(e[0], e[1]) == units[0];
      DecodeEncode(units[1..]);
      assert DecodeUtf16Le(e) == [units[0]] + units[1..];
    }
  }

  lemma {:induction false} DecodeAppend(a: seq<Byte>, b: seq<Byte>)
    requires |a| % 2 == 0 && |b| % 2 == 0
    ensures DecodeUtf16Le(a + b) == DecodeUtf16Le(a) + DecodeUtf16Le(b)
  {
    if a != [] {
      assert (a + b)[2..] == a[2..] + b;
      assert (a + b)[0] == a[0] && (a + b)[1] == a[1];
      DecodeAppend(a[2..], b);
      calc {
        DecodeUtf16Le(a + b);
        [Unit(a[0], a[1])] + DecodeUtf16Le(a[2..] + b);
        [Unit(a[0], a[1])] + (DecodeUtf16Le(a[2..]) + DecodeUtf16Le(b));
        ([Unit(a[0], a[1])] + DecodeUtf16Le(a[2..])) + DecodeUtf16Le(b);
      }
    } else {
      assert a + b == b;
    }
  }

  lemma {:induction false} EncodeAppend(a: seq<U16>, b: seq<U16>)
    ensures EncodeUtf16Le(a + b) == EncodeUtf16Le(a) + EncodeUtf16Le(b)
  {
    if a != [] {
      assert (a + b)[1..] == a[1..] + b;
      assert (a + b)[0] == a[0];
      EncodeAppend(a[1..], b);
      var u := a[0];
      calc {
        EncodeUtf16Le(a + b);
        [u % 256, u / 256] + EncodeUtf16Le(a[1..] + b);
        [u % 256, u / 256] + (EncodeUtf16Le(a[1..]) + EncodeUtf16Le(b));
        ([u % 256, u / 256] + EncodeUtf16Le(a[1..])) + EncodeUtf16Le(b);
      }
    } else {
      assert a + b == b;
    }
  }

  lemma {:induction false} DecodeZeros(n: nat)
    ensures forall i :: 0 <= i < n ==> DecodeUtf16Le(Zeros(2 * n))[i] == 0
  {
    if n > 0 {
      assert Zeros(2 * n)[2..] == Zeros(2 * (n - 1));
      DecodeZeros(n - 1);
    }
  }

  /** The name as the 72-byte field stores and `from_table` reads it back: the first 36
      units survive (longer names are cut by `struct`), up to the first NUL. */
  lemma NameField(name: seq<U16>)
    ensures |name| >= NAME_UNITS ==>
              CutAtNul(DecodeUtf16Le(Fixed(EncodeUtf16Le(name), NAME_BYTES))) == CutAtNul(name[..NAME_UNITS])
    ensures |name| < NAME_UNITS ==>
              CutAtNul(DecodeUtf16Le(Fixed(EncodeUtf16Le(name), NAME_BYTES))) == CutAtNul(name)
  {
    if |name| >= NAME_UNITS {
      NameFieldLong(name);
    } else {
      NameFieldShort(name);
    }
  }

  lemma NameFieldLong(name: seq<U16>)
    requires |name| >= NAME_UNITS
    ensures DecodeUtf16Le(Fixed(EncodeUtf16Le(name), NAME_BYTES)) == name[..NAME_UNITS]
  {
    var e := EncodeUtf16Le(name);
    EncodeAppend(name[..NAME_UNITS], name[NAME_UNITS..]);
    assert name[..NAME_UNITS] + name[NAME_UNITS..] == name;
    assert Fixed(e, NAME_BYTES) == e[..NAME_BYTES] == EncodeUtf16Le(name[..NAME_UNITS]);
    DecodeEncode(name[..NAME_UNITS]);
  }

  lemma NameFieldShort(name: seq<U16>)
    requires |name| < NAME_UNITS
    ensures CutAtNul(DecodeUtf16Le(Fixed(EncodeUtf16Le(name), NAME_BYTES))) == CutAtNul(name)
  {
    var e := EncodeUtf16Le(name);
    var m := NAME_UNITS - |name|;
    FixedPad(e, NAME_BYTES, 2 * m);
    DecodePadded(name, m);
  }

  /** NUL padding after an encoded name is cut off again when decoding. */
  lemma DecodePadded(name: seq<U16>, m: nat)
    requires m > 0
    ensures CutAtNul(DecodeUtf16Le(EncodeUtf16Le(name) + Zeros(2 * m))) == CutAtNul(name)
  {
    var e := EncodeUtf16Le(name);
    var pad := Zeros(2 * m);
    DecodeAppend(e, pad);
    DecodeEncode(name);
    var tail := DecodeUtf16Le(pad);
    DecodeZeros(m);
    assert tail[0] == 0;
    CutAtNulAppend(name, tail);
  }

  /** A name of at most 36 units without NUL survives the name field unchanged. */
  lemma NameRoundTrip(name: seq<U16>)
    requires |name| <= NAME_UNITS && 0 !in name
    ensures CutAtNul(DecodeUtf16Le(Fixed(EncodeUtf16Le(name), NAME_BYTES))) == name
  {
    if |name| == NAME_UNITS {
      NameFieldLong(name);
      assert name[..NAME_UNITS] == name;
    } else {
      NameFieldShort(name);
    }
    CutAtNulUnique(name, name);
  }

  /** Whatever follows the terminating NUL in the name field does not affect the decoded name. */
  lemma NameStopsAtNul(field: seq<Byte>, name: seq<U16>)
    requires |field| == NAME_BYTES && |name| < NAME_UNITS && 0 !in name
    requires field[..2 * |name|] == EncodeUtf16Le(name)
    requires field[2 * |name|] == 0 && field[2 * |name| + 1] == 0
    ensures CutAtNul(DecodeUtf16Le(field)) == name
  {
    var n := 2 * |name|;
    var rest := field[n..];
    assert field == field[..n] + rest;
    DecodeAppend(field[..n], rest);
    DecodeEncode(name);
    DecodeNulFirst(rest);
    CutAtNulAppend(name, DecodeUtf16Le(rest));
    CutAtNulUnique(name, name);
  }

  /** Bytes starting with two zero bytes decode to units starting with NUL. */
  lemma DecodeNulFirst(bytes: seq<Byte>)
    requires |bytes| >= 2 && |bytes| % 2 == 0 && bytes[0] == 0 && bytes[1] == 0
    ensures DecodeUtf16Le(bytes)[0] == 0
  {
    assert Unit(0, 0) == 0;
  }

  /** The entry format `< 16s 16s Q Q Q 72s`. */
  const ENTRY_FORMAT: seq<Code> := [Str(16), Str(16), UInt(8), UInt(8), UInt(8), Str(NAME_BYTES)]

  lemma EntryFormatSize()
    ensures |ENTRY_FORMAT| == 6 && Size(ENTRY_FORMAT) == ENTRY_SIZE
  {
    var f := ENTRY_FORMAT;
    assert SizeFrom(f, 5) == 72;
    assert SizeFrom(f, 4) == 80;
    assert SizeFrom(f, 3) == 88;
    assert SizeFrom(f, 2) == 96;
    assert SizeFrom(f, 1) == 112;
    assert SizeFrom(f, 0) == 128;
  }

  /** The arguments `pack` hands to `struct.pack`; the name is encoded as UTF-16LE. */
  function PartitionValues(p: Partition): (r: seq<Value>)
  {
    [Blob(p.typeGuid), Blob(p.partGuid), Num(p.firstLba), Num(p.lastLba), Num(p.flags),
     Blob(EncodeUtf16Le(p.name))]
  }

  lemma PartitionValuesKinds(p: Partition)
    ensures Kinds(ENTRY_FORMAT, PartitionValues(p))
  {
    var vs := PartitionValues(p);
    forall i | 0 <= i < 6 ensures ENTRY_FORMAT[i].Str? <==> vs[i].Blob? {
    }
  }

  /** The entry `from_table` builds from the unpacked values: the name decoded and cut at
      its first NUL. */
  function PartitionOf(vs: seq<Value>): (p: Partition)
    requires Fits(ENTRY_FORMAT, vs)
  {
    Pow256Values();
    assert forall i :: 0 <= i < 6 ==> FitsOne(ENTRY_FORMAT[i], vs[i]);
    Partition(vs[0].bytes, vs[1].bytes, vs[2].n, vs[3].n, vs[4].n, CutAtNul(DecodeUtf16Le(vs[5].bytes)))
  }

  /** `GPTPartition.pack`: 128 bytes. */
  function PackPartition(p: Partition): (r: seq<Byte>)
    ensures |r| == ENTRY_SIZE
  {
    EntryFormatSize();
    PartitionValuesKinds(p);
    Pack(ENTRY_FORMAT, PartitionValues(p))
  }

  /** `GPTPartition.from_table`: fails unless given exactly 128 bytes. */
  function UnpackPartition(data: seq<Byte>): (r: Option<Partition>)
    ensures r.Some? <==> |data| == ENTRY_SIZE
  {
    EntryFormatSize();
    var vs := Unpack(ENTRY_FORMAT, data);
    if vs.None? then None
    else
      UnpackFits(ENTRY_FORMAT, data);
      Some(PartitionOf(vs.value))
  }

  /** Every entry `from_table` produces has 16-byte GUIDs and a name of at most 36 units without NUL. */
  lemma UnpackWellFormed(data: seq<Byte>)
    requires |data| == ENTRY_SIZE
    ensures WellFormedPartition(UnpackPartition(data).value)
  {
    EntryFormatSize();
    UnpackFits(ENTRY_FORMAT, data);
    var vs := Unpack(ENTRY_FORMAT, data).value;
    assert FitsOne(ENTRY_FORMAT[0], vs[0]) && FitsOne(ENTRY_FORMAT[1], vs[1]) && FitsOne(ENTRY_FORMAT[5], vs[5]);
    CutAtNulSpec(DecodeUtf16Le(vs[5].bytes));
  }

  /** Packing an entry and reading it back gives the same entry, for every entry `from_table` can produce. */
  lemma PartitionRoundTrip(p: Partition)
    requires WellFormedPartition(p)
    ensures UnpackPartition(PackPartition(p)) == Some(p)
  {
    EntryFormatSize();
    PartitionValuesKinds(p);
    var vs := PartitionValues(p);
    UnpackPack(ENTRY_FORMAT, vs);
    var back := Unpack(ENTRY_FORMAT, Pack(ENTRY_FORMAT, vs)).value;
    Pow256Values();
    forall i | 0 <= i < 5 ensures back[i] == vs[i] {
      assert FitsOne(ENTRY_FORMAT[i], vs[i]);
      RepackedFits(ENTRY_FORMAT[i], vs[i]);
    }
    assert back[5] == Blob(Fixed(EncodeUtf16Le(p.name), NAME_BYTES));
    NameRoundTrip(p.name);
  }

  /** The block addresses `a, a+1, ..., b`, each once. */
  function BlockRange(a: int, b: int): (r: seq<int>)
    ensures forall k :: k in r <==> a <= k <= b
    ensures forall i :: 0 <= i < |r| ==> r[i] == a + i
    decreases b - a
  {
    if a > b then [] else [a] + BlockRange(a + 1, b)
  }

  /** `GPTPartition.size` with the disk's block size: 512 bytes for every block of the
      inclusive range `first_lba..last_lba`, not positive when the range is empty, and
      negative when `last_lba` is below `first_lba - 1`. */
  function PartitionSize(p: Partition): (r: int)
    ensures r % LBA_SIZE == 0
    ensures r > 0 <==> p.firstLba <= p.lastLba
    ensures p.firstLba <= p.lastLba ==> r == LBA_SIZE * |BlockRange(p.firstLba, p.lastLba)|
    ensures r == (p.lastLba - p.firstLba + 1) * LBA_SIZE
  {
    if p.firstLba <= p.lastLba then
      RangeLength(p.firstLba, p.lastLba);
      (p.lastLba - p.firstLba + 1) * LBA_SIZE
    else
      (p.lastLba - p.firstLba + 1) * LBA_SIZE
  }

  lemma {:induction false} RangeLength(a: int, b: int)
    requires a <= b + 1
    ensures |BlockRange(a, b)| == b - a + 1
    decreases b - a
  {
    if a <= b {
      RangeLength(a + 1, b);
    }
  }

  // ---------------------------------------------------------------------
  // The partition table

  /** Every record holds a whole entry. */
  predicate AllWhole(rs: seq<seq<Byte>>)
  {
    forall i :: 0 <= i < |rs| ==> |rs[i]| == ENTRY_SIZE
  }

  lemma AllWholeCons(c: seq<Byte>, rest: seq<seq<Byte>>)
    ensures AllWhole([c] + rest) <==> |c| == ENTRY_SIZE && AllWhole(rest)
  {
    var cs := [c] + rest;
    assert cs[0] == c;
    assert forall j :: 0 <= j < |rest| ==> rest[j] == cs[j + 1];
  }

  /** Whole records join into 128 bytes per record. */
  lemma {:induction false} ConcatWhole(rs: seq<seq<Byte>>)
    requires AllWhole(rs)
    ensures |Concat(rs)| == 128 * |rs|
  {
    if rs != [] {
      assert rs == [rs[0]] + rs[1..];
      AllWholeCons(rs[0], rs[1..]);
      ConcatWhole(rs[1..]);
    }
  }

  /** The records of the entries, one per slot. */
  function EntryRecords(ps: seq<Partition>): (r: seq<seq<Byte>>)
    ensures |r| == |ps| && AllWhole(r)
    ensures forall i :: 0 <= i < |ps| ==> r[i] == PackPartition(ps[i])
  {
    PackEachAt(PackPartition, ps);
    PackEach(PackPartition, ps)
  }

  /** The leading entries that are in use: those before the first all-zero type GUID. */
  function ActivePrefix(ps: seq<Partition>): (r: seq<Partition>)
    ensures |r| <= |ps|
  {
    if ps == [] || ps[0].typeGuid == UNUSED_GUID then [] else [ps[0]] + ActivePrefix(ps[1..])
  }

  /** The active entries are a prefix of the table, none of them unused, and the slot
      after them, if any, is unused. */
  lemma {:induction false} ActivePrefixSpec(ps: seq<Partition>)
    ensures ActivePrefix(ps) == ps[..|ActivePrefix(ps)|]
    ensures forall i :: 0 <= i < |ActivePrefix(ps)| ==> ActivePrefix(ps)[i].typeGuid != UNUSED_GUID
    ensures |ActivePrefix(ps)| < |ps| ==> ps[|ActivePrefix(ps)|].typeGuid == UNUSED_GUID
  {
    if ps != [] && ps[0].typeGuid != UNUSED_GUID {
      ActivePrefixSpec(ps[1..]);
      var r := ActivePrefix(ps[1..]);
      assert ActivePrefix(ps) == [ps[0]] + r;
      assert ps[..|r| + 1] == [ps[0]] + ps[1..][..|r|];
    }
  }

  /** `GPTPartitionTable.pack`: the entries' records joined in slot order, 128 bytes each. */
  function PackTable(ps: seq<Partition>): (r: seq<Byte>)
    ensures |r| == 128 * |ps|
  {
    ConcatWhole(EntryRecords(ps));
    Concat(EntryRecords(ps))
  }

  /** `GPTPartitionTable.calculate_crc` */
  function TableCrc(ps: seq<Partition>): (r: seq<Byte>)
    ensures |r| == 4
  {
    Checksum(PackTable(ps))
  }

  /** `GPTPartitionTable.check_crc`, against the CRC its header stores. */
  predicate TableCheckCrc(h: Header, ps: seq<Partition>)
  {
    h.partitionTableCrc == TableCrc(ps)
  }

  /** The header after `fix_crc`: the table CRC is set first, then the header CRC over
      the header that already holds it; both checks then pass and nothing else changes. */
  function WithFixedCrcs(h: Header, ps: seq<Partition>): (r: Header)
    ensures CheckCrc(r) && TableCheckCrc(r, ps)
    ensures r == h.(crc := r.crc, partitionTableCrc := r.partitionTableCrc)
  {
    var h1 := h.(partitionTableCrc := TableCrc(ps));
    var r := h1.(crc := CalculateCrc(h1));
    CalculateCrcIgnoresCrc(h1, r.crc);
    r
  }

  /** A second `fix_crc` with no change in between changes nothing. */
  lemma FixCrcIdempotent(h: Header, ps: seq<Partition>)
    ensures WithFixedCrcs(WithFixedCrcs(h, ps), ps) == WithFixedCrcs(h, ps)
  {
    var once := WithFixedCrcs(h, ps);
    CalculateCrcIgnoresCrc(once.(partitionTableCrc := TableCrc(ps)), once.crc);
  }

  /** A header whose checks both pass is left as it is by `fix_crc`. */
  lemma FixCrcKeepsValid(h: Header, ps: seq<Partition>)
    requires CheckCrc(h) && TableCheckCrc(h, ps)
    ensures WithFixedCrcs(h, ps) == h
  {
  }

  /** The chunks `from_header` reads: `count` times `read(entrySize)` from the cursor,
      each short only at the end of the file. */
  function Chunks(data: seq<Byte>, pos: nat, count: nat, entrySize: nat): (r: seq<seq<Byte>>)
    ensures |r| == count
    decreases count
  {
    if count == 0 then []
    else
      var chunk := Slice(data, pos, entrySize);
      [chunk] + Chunks(data, pos + |chunk|, count - 1, entrySize)
  }

  /** What `from_header` produces from the file contents: the entries of the `count`
      chunks read from `pos`, or a failure at the first chunk that is not 128 bytes. */
  function ReadEntries(data: seq<Byte>, pos: nat, count: nat, entrySize: nat): (r: Option<seq<Partition>>)
    ensures r.Some? ==> |r.value| == count
  {
    UnpackEach(UnpackPartition, Chunks(data, pos, count, entrySize))
  }

  /** Every entry `from_header` produces is one `from_table` can produce. */
  lemma ReadEntriesWellFormed(data: seq<Byte>, pos: nat, count: nat, entrySize: nat)
    requires ReadEntries(data, pos, count, entrySize).Some?
    ensures var ps := ReadEntries(data, pos, count, entrySize).value;
            forall k :: 0 <= k < |ps| ==> WellFormedPartition(ps[k])
  {
    var cs := Chunks(data, pos, count, entrySize);
    var ps := ReadEntries(data, pos, count, entrySize).value;
    UnpackEachAt(UnpackPartition, cs);
    forall k | 0 <= k < |ps| ensures WellFormedPartition(ps[k]) {
      assert UnpackPartition(cs[k]) == Some(ps[k]);
      UnpackWellFormed(cs[k]);
    }
  }

  /** One read of `from_header`'s loop: the chunk at `at` either fails to unpack, and so
      does the whole array, or it is a whole entry that extends the entries read so far. */
  lemma ReadStep(d: seq<Byte>, at: nat, n: nat, m: nat, size: nat,
                 done: seq<seq<Byte>>, ps: seq<Partition>, whole: seq<seq<Byte>>)
    requires n == m + 1
    requires whole == done + Chunks(d, at, n, size)
    requires UnpackEach(UnpackPartition, done) == Some(ps)
    ensures var data := Slice(d, at, size);
            (UnpackPartition(data).None? ==> UnpackEach(UnpackPartition, whole) == None) &&
            (UnpackPartition(data).Some? ==>
               |data| == ENTRY_SIZE &&
               whole == (done + [data]) + Chunks(d, at + |data|, m, size) &&
               UnpackEach(UnpackPartition, done + [data]) == Some(ps + [UnpackPartition(data).value]))
  {
    var data := Slice(d, at, size);
    var rest := Chunks(d, at + |data|, m, size);
    assert Chunks(d, at, n, size) == [data] + rest;
    UnpackEachAppend(UnpackPartition, done, [data] + rest);
    var p := UnpackPartition(data);
    if p.Some? {
      var none: seq<seq<Byte>> := [];
      assert [data][1..] == none && [p.value] + [] == [p.value];
      assert UnpackEach(UnpackPartition, [data]) == Some([p.value]);
      UnpackEachAppend(UnpackPartition, done, [data]);
      AppendAssoc(done, [data], rest);
    }
  }

  /** With the standard 128-byte entries every chunk is whole exactly when the array lies
      inside the file. */
  lemma {:induction false} ChunksWhole(data: seq<Byte>, pos: nat, count: nat)
    ensures AllWhole(Chunks(data, pos, count, ENTRY_SIZE)) <==> (count == 0 || pos + 128 * count <= |data|)
    decreases count
  {
    if count > 0 {
      var chunk := Slice(data, pos, ENTRY_SIZE);
      var rest := Chunks(data, pos + |chunk|, count - 1, ENTRY_SIZE);
      AllWholeCons(chunk, rest);
      if pos + 128 <= |data| {
        ChunksWhole(data, pos + |chunk|, count - 1);
      }
    }
  }

  /** `from_header` with the standard 128-byte entries succeeds exactly when the whole
      array lies inside the file. */
  lemma ReadEntriesSucceeds(data: seq<Byte>, pos: nat, count: nat)
    ensures ReadEntries(data, pos, count, ENTRY_SIZE).Some? <==> (count == 0 || pos + 128 * count <= |data|)
  {
    var cs := Chunks(data, pos, count, ENTRY_SIZE);
    UnpackEachSucceeds(UnpackPartition, cs);
    ChunksWhole(data, pos, count);
    if AllWhole(cs) {
      forall i | 0 <= i < |cs| ensures UnpackPartition(cs[i]).Some? {
        assert |cs[i]| == ENTRY_SIZE;
      }
    } else {
      var i :| 0 <= i < |cs| && |cs[i]| != ENTRY_SIZE;
      assert UnpackPartition(cs[i]).None?;
    }
  }

  /** The bytes `read` returns from the middle of a file. */
  lemma SliceMiddle(d: seq<Byte>, pre: seq<Byte>, mid: seq<Byte>, post: seq<Byte>, pos: nat, n: nat)
    requires d == pre + mid + post && pos == |pre| && n == |mid|
    ensures Slice(d, pos, n) == mid
  {
    var s := Slice(d, pos, n);
    SliceIndex(d, pos, n);
    assert |s| == |mid|;
    forall i | 0 <= i < |mid| ensures s[i] == mid[i] {
      assert d[|pre| + i] == mid[i];
    }
  }

  /** In a file holding the joined records `rs` after `pre`, the 128 bytes read at slot `i`
      are record `i`. */
  lemma RecordAt(data: seq<Byte>, pre: seq<Byte>, rs: seq<seq<Byte>>, post: seq<Byte>, i: nat, pos: nat)
    requires data == pre + Concat(rs) + post && AllWhole(rs)
    requires i < |rs| && pos == |pre| + 128 * i
    ensures Slice(data, pos, ENTRY_SIZE) == rs[i]
  {
    var a, r, b := Concat(rs[..i]), rs[i], Concat(rs[i + 1..]);
    ConcatAround(rs, i);
    assert AllWhole(rs[..i]) by {
      forall j | 0 <= j < i ensures |rs[..i][j]| == ENTRY_SIZE {
        assert rs[..i][j] == rs[j];
      }
    }
    ConcatWhole(rs[..i]);
    AppendAssoc(pre, a, r + b);
    AppendAssoc(pre + a, r, b);
    AppendAssoc(pre + a + r, b, post);
    AppendAssoc(pre + a, r, b + post);
    SliceMiddle(data, pre + a, r, b + post, pos, ENTRY_SIZE);
  }

  /** One step of the chunking: record `k` at the cursor, then the records after it. */
  lemma ChunkStep(data: seq<Byte>, pos: nat, n: nat, rs: seq<seq<Byte>>, k: nat)
    requires n > 0 && k < |rs| && |rs[k]| == ENTRY_SIZE
    requires Slice(data, pos, ENTRY_SIZE) == rs[k]
    requires Chunks(data, pos + 128, n - 1, ENTRY_SIZE) == rs[k + 1..]
    ensures Chunks(data, pos, n, ENTRY_SIZE) == rs[k..]
  {
    assert rs[k..] == [rs[k]] + rs[k + 1..];
  }

  /** The `n` chunks read from slot `k` (at byte `pos`) of records joined after `pre` are
      the records `k..`. */
  lemma {:induction false} ChunksOfRecords(data: seq<Byte>, pre: seq<Byte>, rs: seq<seq<Byte>>, post: seq<Byte>,
                                           k: nat, pos: nat, n: nat)
    requires data == pre + Concat(rs) + post && AllWhole(rs)
    requires k + n == |rs| && pos == |pre| + 128 * k
    ensures Chunks(data, pos, n, ENTRY_SIZE) == rs[k..]
    decreases n
  {
    if n > 0 {
      RecordAt(data, pre, rs, post, k, pos);
      ChunksOfRecords(data, pre, rs, post, k + 1, pos + 128, n - 1);
      ChunkStep(data, pos, n, rs, k);
    }
  }

  /** Reading back a packed table of well-formed entries gives the same entries,
      whatever surrounds it in the file. */
  lemma ReadPackedTable(pre: seq<Byte>, ps: seq<Partition>, post: seq<Byte>)
    requires forall i :: 0 <= i < |ps| ==> WellFormedPartition(ps[i])
    ensures ReadEntries(pre + PackTable(ps) + post, |pre|, |ps|, ENTRY_SIZE) == Some(ps)
  {
    var data := pre + PackTable(ps) + post;
    var rs := EntryRecords(ps);
    ChunksOfRecords(data, pre, rs, post, 0, |pre|, |ps|);
    assert rs[0..] == rs;
    forall i | 0 <= i < |ps| ensures UnpackPartition(PackPartition(ps[i])) == Some(ps[i]) {
      PartitionRoundTrip(ps[i]);
    }
    UnpackEachPacked(UnpackPartition, PackPartition, ps);
  }

  /** Slot `i` of the packed table holds the record of entry `i`. */
  lemma PackTableSlot(ps: seq<Partition>, i: nat)
    requires i < |ps|
    ensures Slice(PackTable(ps), 128 * i, ENTRY_SIZE) == PackPartition(ps[i])
  {
    var rs := EntryRecords(ps);
    assert PackTable(ps) == [] + Concat(rs) + [];
    RecordAt(PackTable(ps), [], rs, [], i, 128 * i);
  }
}
