/** A seekable file (a disk image or a block device) as a byte sequence and
    a cursor, with the effect of Python's `seek`, `read` and `write` on it. */
module FileImage {
  import opened Bytes

  /** What `read(n)` returns when the cursor is at `pos`: at most `n` bytes,
      fewer at the end of the file, none past it. */
  function Slice(d: seq<Byte>, pos: nat, n: nat): (r: seq<Byte>)
    ensures |r| == if pos >= |d| then 0 else Min(n, |d| - pos)
  {
    if pos >= |d| then [] else if pos + n <= |d| then d[pos..pos + n] else d[pos..]
  }

  /** Byte `i` of what `read` returns is byte `pos + i` of the file. */
  lemma SliceIndex(d: seq<Byte>, pos: nat, n: nat)
    ensures forall i :: 0 <= i < |Slice(d, pos, n)| ==> Slice(d, pos, n)[i] == d[pos + i]
  {
  }

  /** The file after `write(b)` at `pos`; `OverwriteIndex` says what each byte holds.
      Writing nothing changes nothing, not even the length. */
  function Overwrite(d: seq<Byte>, pos: nat, b: seq<Byte>): (r: seq<Byte>)
    ensures |r| == if b == [] then |d| else Max(|d|, pos + |b|)
    decreases |b|
  {
    if b == [] then d else Overwrite(Put(d, pos, b[0]), pos + 1, b[1..])
  }

  /** After `write(b)` at `pos` the bytes at `pos..pos+|b|` are `b`, a gap between the old
      end and `pos` reads as zeros, and all else is kept. */
  lemma {:induction false} OverwriteIndex(d: seq<Byte>, pos: nat, b: seq<Byte>)
    ensures forall k :: 0 <= k < |Overwrite(d, pos, b)| ==>
              Overwrite(d, pos, b)[k] == if pos <= k < pos + |b| then b[k - pos] else if k < |d| then d[k] else 0
    decreases |b|
  {
    if b != [] {
      var e := Put(d, pos, b[0]);
      PutIndex(d, pos, b[0]);
      OverwriteIndex(e, pos + 1, b[1..]);
      forall k | 0 <= k < |Overwrite(d, pos, b)|
        ensures Overwrite(d, pos, b)[k] == if pos <= k < pos + |b| then b[k - pos] else if k < |d| then d[k] else 0
      {
        if pos + 1 <= k < pos + |b| {
          assert b[1..][k - (pos + 1)] == b[k - pos];
        }
      }
    }
  }

  /** The file after writing the single byte `x` at `pos`. */
  function Put(d: seq<Byte>, pos: nat, x: Byte): (r: seq<Byte>)
    ensures |r| == Max(|d|, pos + 1)
  {
    if pos < |d| then d[pos := x] else d + Zeros(pos - |d|) + [x]
  }

  lemma PutIndex(d: seq<Byte>, pos: nat, x: Byte)
    ensures forall k :: 0 <= k < |Put(d, pos, x)| ==> Put(d, pos, x)[k] == if k == pos then x else if k < |d| then d[k] else 0
  {
  }

  /** A Python file object: its contents and its cursor. */
  class File {
    var data: seq<Byte>
    var pos: nat

    constructor (contents: seq<Byte>)
      ensures data == contents && pos == 0
    {
      data := contents;
      pos := 0;
    }

    method Seek(offset: nat)
      modifies this
      ensures data == old(data) && pos == offset
    {
      pos := offset;
    }

    method Read(n: nat) returns (chunk: seq<Byte>)
      modifies this
      ensures data == old(data)
      ensures chunk == Slice(old(data), old(pos), n)
      ensures pos == old(pos) + |chunk|
    {
      chunk := Slice(data, pos, n);
      pos := pos + |chunk|;
    }

    method Write(bytes: seq<Byte>)
      modifies this
      ensures data == Overwrite(old(data), old(pos), bytes)
      ensures pos == old(pos) + |bytes|
    {
      data := Overwrite(data, pos, bytes);
      pos := pos + |bytes|;
    }
  }

  /** One positioned write: `seek(offset)` followed by `write(bytes)`. */
  datatype Write = Write(offset: nat, bytes: seq<Byte>)

  predicate Covers(w: Write, k: nat)
  {
    w.offset <= k < w.offset + |w.bytes|
  }

  /** Some write of `ws` covers byte `k`. */
  predicate Covered(ws: seq<Write>, k: nat)
  {
    exists i :: 0 <= i < |ws| && Covers(ws[i], k)
  }

  /** The length of a file of length `n` after the writes `ws`. */
  function ImageSize(n: nat, ws: seq<Write>): nat
    decreases |ws|
  {
    if ws == [] then n
    else
      var w := ws[|ws| - 1];
      var m := ImageSize(n, ws[..|ws| - 1]);
      if w.bytes == [] then m else Max(m, w.offset + |w.bytes|)
  }

  /** Byte `k` after the writes `ws` on `d`, stated independently of `Overwrite`:
      the last write that covers `k` decides it; otherwise it is `d[k]`,
      or zero in a gap. */
  ghost function ByteAt(d: seq<Byte>, ws: seq<Write>, k: nat): int
    decreases |ws|
  {
    if ws == [] then (if k < |d| then d[k] else 0)
    else
      var w := ws[|ws| - 1];
      if Covers(w, k) then w.bytes[k - w.offset] else ByteAt(d, ws[..|ws| - 1], k)
  }

  /** Past the end of the image no byte has been written. */
  lemma {:induction false} ByteAtBeyond(d: seq<Byte>, ws: seq<Write>)
    ensures forall k: nat :: k >= ImageSize(|d|, ws) ==> ByteAt(d, ws, k) == 0
    decreases |ws|
  {
    if ws != [] {
      ByteAtBeyond(d, ws[..|ws| - 1]);
    }
  }

  /** The file contents after performing the writes `ws` in order. */
  function ApplyWrites(d: seq<Byte>, ws: seq<Write>): (r: seq<Byte>)
    ensures |r| == ImageSize(|d|, ws)
    decreases |ws|
  {
    if ws == [] then d else Overwrite(ApplyWrites(d, ws[..|ws| - 1]), ws[|ws| - 1].offset, ws[|ws| - 1].bytes)
  }

  /** Every byte after the writes is the one `ByteAt` names. */
  lemma {:induction false} ApplyWritesIndex(d: seq<Byte>, ws: seq<Write>)
    ensures forall k :: 0 <= k < |ApplyWrites(d, ws)| ==> ApplyWrites(d, ws)[k] == ByteAt(d, ws, k)
    decreases |ws|
  {
    if ws != [] {
      var w := ws[|ws| - 1];
      var init := ws[..|ws| - 1];
      ApplyWritesIndex(d, init);
      ByteAtBeyond(d, init);
      OverwriteIndex(ApplyWrites(d, init), w.offset, w.bytes);
    }
  }

  /** Four writes applied one after the other, with the file after each prefix of them. */
  lemma ApplyFour(d: seq<Byte>, ws: seq<Write>)
    requires |ws| == 4
    ensures ApplyWrites(d, ws[..1]) == Overwrite(d, ws[0].offset, ws[0].bytes)
    ensures ApplyWrites(d, ws[..2]) == Overwrite(ApplyWrites(d, ws[..1]), ws[1].offset, ws[1].bytes)
    ensures ApplyWrites(d, ws[..3]) == Overwrite(ApplyWrites(d, ws[..2]), ws[2].offset, ws[2].bytes)
    ensures ApplyWrites(d, ws) == Overwrite(ApplyWrites(d, ws[..3]), ws[3].offset, ws[3].bytes)
  {
    assert ws[..1][..0] == [];
    assert ws[..2][..1] == ws[..1];
    assert ws[..3][..2] == ws[..2];
    assert ws[..3] == ws[..|ws| - 1];
  }

  /** The four writes as nested `Overwrite`s. */
  lemma ApplyFourFlat(d: seq<Byte>, w1: Write, w2: Write, w3: Write, w4: Write)
    ensures ApplyWrites(d, [w1, w2, w3, w4])
         == Overwrite(Overwrite(Overwrite(Overwrite(d, w1.offset, w1.bytes), w2.offset, w2.bytes), w3.offset, w3.bytes),
                      w4.offset, w4.bytes)
  {
    ApplyFour(d, [w1, w2, w3, w4]);
  }

  /** No write after write `i` overlaps it. */
  predicate LastOver(ws: seq<Write>, i: nat)
    requires i < |ws|
  {
    forall j :: i < j < |ws| ==>
      ws[j].offset + |ws[j].bytes| <= ws[i].offset || ws[i].offset + |ws[i].bytes| <= ws[j].offset
  }

  lemma LandsAt(d: seq<Byte>, ws: seq<Write>, i: nat, k: nat)
    requires i < |ws| && LastOver(ws, i) && k < |ws[i].bytes|
    ensures ws[i].offset + k < |ApplyWrites(d, ws)| && ApplyWrites(d, ws)[ws[i].offset + k] == ws[i].bytes[k]
  {
    LastWriteWins(d, ws, i, ws[i].offset + k);
  }

  /** A write that no later write overlaps can be read back whole. */
  lemma WriteLands(d: seq<Byte>, ws: seq<Write>, i: nat)
    requires i < |ws| && LastOver(ws, i)
    ensures Slice(ApplyWrites(d, ws), ws[i].offset, |ws[i].bytes|) == ws[i].bytes
  {
    var r := ApplyWrites(d, ws);
    var o, b := ws[i].offset, ws[i].bytes;
    if b != [] {
      LandsAt(d, ws, i, |b| - 1);
      var sl := r[o..o + |b|];
      forall k | 0 <= k < |b| ensures sl[k] == b[k] {
        LandsAt(d, ws, i, k);
      }
      assert sl == b;
    }
  }

  /** Bytes read whole from the middle of a file split it around them. */
  lemma SliceSplit(d: seq<Byte>, pos: nat, b: seq<Byte>)
    requires b != [] && Slice(d, pos, |b|) == b
    ensures d == d[..pos] + b + d[pos + |b|..]
  {
    assert d[pos..pos + |b|] == b;
    assert d == d[..pos] + d[pos..pos + |b|] + d[pos + |b|..];
  }

  /** Seeking an empty file to `n` and writing one zero byte leaves `n + 1` zeros. */
  lemma ExtendWithZero(n: nat)
    ensures Overwrite([], n, [0]) == Zeros(n + 1)
  {
    PutIndex([], n, 0);
    assert Overwrite([], n, [0]) == Put([], n, 0);
  }

  /** A file created empty, then sought to `n` and given one zero byte. */
  method CreateZeroed(n: nat) returns (f: File)
    ensures fresh(f) && f.data == Zeros(n + 1)
  {
    f := new File([]);
    f.Seek(n);
    f.Write([0]);
    ExtendWithZero(n);
  }

  /** A byte that no write covers keeps its old value. */
  lemma Untouched(d: seq<Byte>, ws: seq<Write>, k: nat)
    requires k < |d| && !Covered(ws, k)
    ensures k < |ApplyWrites(d, ws)| && ApplyWrites(d, ws)[k] == d[k]
  {
    ImageSizeMax(|d|, ws);
    ApplyWritesIndex(d, ws);
    ByteAtUncovered(d, ws, k);
  }

  /** Write `i` covers byte `k` and no later write does: the byte holds what write `i` put there. */
  lemma {:induction false} LastWriteWins(d: seq<Byte>, ws: seq<Write>, i: nat, k: nat)
    requires i < |ws| && Covers(ws[i], k)
    requires forall j :: i < j < |ws| ==> !Covers(ws[j], k)
    ensures k < |ApplyWrites(d, ws)| && ApplyWrites(d, ws)[k] == ws[i].bytes[k - ws[i].offset]
    decreases |ws|
  {
    var init := ws[..|ws| - 1];
    var w := ws[|ws| - 1];
    OverwriteIndex(ApplyWrites(d, init), w.offset, w.bytes);
    if i < |ws| - 1 {
      assert init[i] == ws[i];
      forall j | i < j < |init| ensures !Covers(init[j], k) {
        assert init[j] == ws[j];
      }
      LastWriteWins(d, init, i, k);
    }
  }

  /** The image is as long as the longer of the original file and the writes alone. */
  lemma {:induction false} ImageSizeMax(n: nat, ws: seq<Write>)
    ensures ImageSize(n, ws) == Max(n, ImageSize(0, ws))
    decreases |ws|
  {
    if ws != [] {
      ImageSizeMax(n, ws[..|ws| - 1]);
    }
  }

  lemma {:induction false} ByteAtCovered(d: seq<Byte>, e: seq<Byte>, ws: seq<Write>, k: nat)
    requires Covered(ws, k)
    ensures ByteAt(d, ws, k) == ByteAt(e, ws, k)
    decreases |ws|
  {
    var w := ws[|ws| - 1];
    var init := ws[..|ws| - 1];
    if !Covers(w, k) {
      var i :| 0 <= i < |ws| && Covers(ws[i], k);
      assert i < |init| && init[i] == ws[i];
      ByteAtCovered(d, e, init, k);
    }
  }

  lemma {:induction false} ByteAtUncovered(d: seq<Byte>, ws: seq<Write>, k: nat)
    requires !Covered(ws, k)
    ensures ByteAt(d, ws, k) == if k < |d| then d[k] else 0
    decreases |ws|
  {
    if ws != [] {
      var init := ws[..|ws| - 1];
      assert !Covered(init, k) by {
        forall i | 0 <= i < |init| ensures !Covers(init[i], k) {
          assert init[i] == ws[i];
        }
      }
      ByteAtUncovered(d, init, k);
    }
  }

  /** Performing the same writes a second time produces the same file. */
  lemma WritesIdempotent(d: seq<Byte>, ws: seq<Write>)
    ensures ApplyWrites(ApplyWrites(d, ws), ws) == ApplyWrites(d, ws)
  {
    var once := ApplyWrites(d, ws);
    var twice := ApplyWrites(once, ws);
    ImageSizeMax(|d|, ws);
    ImageSizeMax(|once|, ws);
    ApplyWritesIndex(d, ws);
    ApplyWritesIndex(once, ws);
    forall k | 0 <= k < |once| ensures twice[k] == once[k] {
      if Covered(ws, k) {
        ByteAtCovered(once, d, ws, k);
      } else {
        ByteAtUncovered(once, ws, k);
      }
    }
  }
}
