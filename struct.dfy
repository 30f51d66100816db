/** Python's `struct.pack` and `struct.unpack` for little-endian formats made of
    `Ns` byte strings and unsigned integers (`L`, four bytes; `Q`, eight bytes). */
module Struct {
  import opened Bytes

  /** One field of a format: a byte string or an unsigned integer of `width` bytes. */
  datatype Code = Str(width: nat) | UInt(width: nat)

  /** A Python value handed to `pack` or returned by `unpack`. */
  datatype Value = Blob(bytes: seq<Byte>) | Num(n: int)

  /** `struct.calcsize` */
  function Size(fmt: seq<Code>): nat
  {
    SizeFrom(fmt, 0)
  }

  /** The widths of the fields from `k` on, added up. */
  function SizeFrom(fmt: seq<Code>, k: nat): nat
    decreases |fmt| - k
  {
    if k >= |fmt| then 0 else fmt[k].width + SizeFrom(fmt, k + 1)
  }

  lemma {:induction false} SizeFromTail(fmt: seq<Code>, k: nat)
    requires fmt != []
    ensures SizeFrom(fmt[1..], k) == SizeFrom(fmt, k + 1)
    decreases |fmt| - k
  {
    if k < |fmt| - 1 {
      assert fmt[1..][k] == fmt[k + 1];
      SizeFromTail(fmt, k + 1);
    }
  }

  /** A format takes its first field's width and then the rest's. */
  lemma SizeTail(fmt: seq<Code>)
    requires fmt != []
    ensures Size(fmt) == fmt[0].width + Size(fmt[1..])
  {
    SizeFromTail(fmt, 0);
  }

  /** The values are of the kinds the format asks for, one per field. */
  predicate Kinds(fmt: seq<Code>, vs: seq<Value>)
  {
    |fmt| == |vs| && forall i :: 0 <= i < |fmt| ==> (fmt[i].Str? <==> vs[i].Blob?)
  }

  /** `v` is a value `unpack` can return for field `c`: a string exactly as wide as the
      field, or a number the field's bytes can hold. */
  predicate FitsOne(c: Code, v: Value)
  {
    match c
    case Str(w) => v.Blob? && |v.bytes| == w
    case UInt(w) => v.Num? && 0 <= v.n < Pow256(w)
  }

  predicate Fits(fmt: seq<Code>, vs: seq<Value>)
  {
    |fmt| == |vs| && forall i :: 0 <= i < |fmt| ==> FitsOne(fmt[i], vs[i])
  }

  lemma FitsKinds(fmt: seq<Code>, vs: seq<Value>)
    requires Fits(fmt, vs)
    ensures Kinds(fmt, vs)
  {
    forall i | 0 <= i < |fmt| ensures fmt[i].Str? <==> vs[i].Blob? {
      assert FitsOne(fmt[i], vs[i]);
    }
  }

  lemma KindsTail(fmt: seq<Code>, vs: seq<Value>)
    requires fmt != [] && Kinds(fmt, vs)
    ensures (fmt[0].Str? <==> vs[0].Blob?) && Kinds(fmt[1..], vs[1..])
  {
    forall i | 0 <= i < |fmt| - 1 ensures fmt[1..][i].Str? <==> vs[1..][i].Blob? {
      assert fmt[1..][i] == fmt[i + 1] && vs[1..][i] == vs[i + 1];
    }
  }

  /** One field packed: a string cut or NUL-padded to its width, a number as its
      `width` low bytes, least significant first. */
  function PackOne(c: Code, v: Value): (r: seq<Byte>)
    requires c.Str? <==> v.Blob?
    ensures |r| == c.width
  {
    match c
    case Str(w) => Fixed(v.bytes, w)
    case UInt(w) => LE(v.n, w)
  }

  /** `struct.pack(fmt, *vs)`: the fields packed one after the other. */
  function Pack(fmt: seq<Code>, vs: seq<Value>): (r: seq<Byte>)
    requires Kinds(fmt, vs)
    ensures |r| == Size(fmt)
  {
    if fmt == [] then []
    else
      KindsTail(fmt, vs);
      SizeTail(fmt);
      PackOne(fmt[0], vs[0]) + Pack(fmt[1..], vs[1..])
  }

  /** A packing is its first field's bytes followed by the packing of the rest. */
  lemma PackStep(fmt: seq<Code>, vs: seq<Value>)
    requires fmt != [] && Kinds(fmt, vs)
    ensures (fmt[0].Str? <==> vs[0].Blob?) && Kinds(fmt[1..], vs[1..])
    ensures Pack(fmt, vs) == PackOne(fmt[0], vs[0]) + Pack(fmt[1..], vs[1..])
  {
    KindsTail(fmt, vs);
  }

  /** The fields from `k` on of well-kinded values are well kinded. */
  lemma KindsDrop(fmt: seq<Code>, vs: seq<Value>, k: nat)
    requires Kinds(fmt, vs) && k <= |fmt|
    ensures Kinds(fmt[k..], vs[k..])
  {
    forall i | 0 <= i < |fmt| - k ensures fmt[k..][i].Str? <==> vs[k..][i].Blob? {
      assert fmt[k..][i] == fmt[k + i] && vs[k..][i] == vs[k + i];
    }
  }

  /** The packing of the fields from `k` on is field `k`'s bytes followed by the packing
      of the fields from `k + 1` on. */
  lemma PackDrop(fmt: seq<Code>, vs: seq<Value>, k: nat)
    requires Kinds(fmt, vs) && k < |fmt|
    ensures Kinds(fmt[k..], vs[k..]) && Kinds(fmt[k + 1..], vs[k + 1..]) && (fmt[k].Str? <==> vs[k].Blob?)
    ensures Pack(fmt[k..], vs[k..]) == PackOne(fmt[k], vs[k]) + Pack(fmt[k + 1..], vs[k + 1..])
  {
    KindsDrop(fmt, vs, k);
    KindsDrop(fmt, vs, k + 1);
    PackStep(fmt[k..], vs[k..]);
    assert fmt[k..][1..] == fmt[k + 1..] && vs[k..][1..] == vs[k + 1..];
  }

  /** The packing of the fields from `k` on is the bytes of fields `k` and `k + 1`
      followed by the packing of the fields from `k + 2` on. */
  lemma PackDropTwo(fmt: seq<Code>, vs: seq<Value>, k: nat)
    requires Kinds(fmt, vs) && k + 1 < |fmt|
    ensures (fmt[k].Str? <==> vs[k].Blob?) && (fmt[k + 1].Str? <==> vs[k + 1].Blob?)
    ensures Kinds(fmt[k..], vs[k..]) && Kinds(fmt[k + 2..], vs[k + 2..])
    ensures Pack(fmt[k..], vs[k..]) == PackOne(fmt[k], vs[k]) + PackOne(fmt[k + 1], vs[k + 1]) + Pack(fmt[k + 2..], vs[k + 2..])
  {
    PackDrop(fmt, vs, k);
    PackDrop(fmt, vs, k + 1);
  }

  /** A packing of four fields or more: the bytes of the first three, then those of
      field 3, then the packing of the rest. */
  lemma PackAroundFourth(fmt: seq<Code>, vs: seq<Value>)
    requires |fmt| >= 4 && Kinds(fmt, vs)
    ensures (fmt[3].Str? <==> vs[3].Blob?) && Kinds(fmt[4..], vs[4..])
    ensures Pack(fmt, vs) == (PackOne(fmt[0], vs[0]) + (PackOne(fmt[1], vs[1]) + PackOne(fmt[2], vs[2])))
                           + (PackOne(fmt[3], vs[3]) + Pack(fmt[4..], vs[4..]))
  {
    PackStep(fmt, vs);
    PackDropTwo(fmt, vs, 1);
    PackDrop(fmt, vs, 3);
    var p0, p12 := PackOne(fmt[0], vs[0]), PackOne(fmt[1], vs[1]) + PackOne(fmt[2], vs[2]);
    var tail := PackOne(fmt[3], vs[3]) + Pack(fmt[4..], vs[4..]);
    assert Pack(fmt[1..], vs[1..]) == p12 + tail;
    AppendAssoc(p0, p12, tail);
  }

  /** One field read back from exactly its bytes. */
  function UnpackOne(c: Code, s: seq<Byte>): (v: Value)
    requires |s| == c.width
  {
    match c
    case Str(_) => Blob(s)
    case UInt(_) => Num(FromLE(s))
  }

  /** `struct.unpack(fmt, data)`: the fields read one after the other; `struct.error`
      (here `None`) unless the data is exactly as long as the format. */
  function Unpack(fmt: seq<Code>, data: seq<Byte>): (r: Option<seq<Value>>)
    ensures r.Some? <==> |data| == Size(fmt)
    ensures r.Some? ==> |r.value| == |fmt|
  {
    if fmt == [] then (if data == [] then Some([]) else None)
    else if |data| < fmt[0].width then SizeTail(fmt); None
    else
      SizeTail(fmt);
      var w := fmt[0].width;
      var rest := Unpack(fmt[1..], data[w..]);
      if rest.None? then None else Some([UnpackOne(fmt[0], data[..w])] + rest.value)
  }

  /** Every value `unpack` returns fits its field. */
  lemma {:induction false} UnpackFits(fmt: seq<Code>, data: seq<Byte>)
    requires |data| == Size(fmt)
    ensures Fits(fmt, Unpack(fmt, data).value)
  {
    if fmt != [] {
      SizeTail(fmt);
      var w := fmt[0].width;
      var vs := Unpack(fmt, data).value;
      UnpackFits(fmt[1..], data[w..]);
      assert vs[1..] == Unpack(fmt[1..], data[w..]).value;
      assert FitsOne(fmt[0], vs[0]);
      forall i | 1 <= i < |fmt| ensures FitsOne(fmt[i], vs[i]) {
        assert fmt[i] == fmt[1..][i - 1] && vs[i] == vs[1..][i - 1];
      }
    }
  }

  /** What `unpack` returns for the field `pack` wrote for `v`: the string cut or padded
      to its width, the number modulo the field's range. */
  function Repacked(c: Code, v: Value): (r: Value)
    requires c.Str? <==> v.Blob?
    ensures FitsOne(c, r)
  {
    match c
    case Str(w) => Blob(Fixed(v.bytes, w))
    case UInt(w) => Num(v.n % Pow256(w))
  }

  lemma RepackedFits(c: Code, v: Value)
    requires FitsOne(c, v)
    ensures Repacked(c, v) == v
  {
    if c.UInt? {
      ModUnique(v.n, Pow256(c.width), 0, v.n);
    }
  }

  lemma UnpackPackOne(c: Code, v: Value)
    requires c.Str? <==> v.Blob?
    ensures UnpackOne(c, PackOne(c, v)) == Repacked(c, v)
  {
    if c.UInt? {
      LEMod(v.n, c.width);
    }
  }

  /** Unpacking what `pack` wrote gives every field back as its field holds it. */
  lemma {:induction false} UnpackPack(fmt: seq<Code>, vs: seq<Value>)
    requires Kinds(fmt, vs)
    ensures var r := Unpack(fmt, Pack(fmt, vs));
            r.Some? && forall i :: 0 <= i < |fmt| ==> r.value[i] == Repacked(fmt[i], vs[i])
  {
    if fmt != [] {
      KindsTail(fmt, vs);
      SizeTail(fmt);
      var b := Pack(fmt, vs);
      var head := PackOne(fmt[0], vs[0]);
      assert b == head + Pack(fmt[1..], vs[1..]);
      assert b[..fmt[0].width] == head && b[fmt[0].width..] == Pack(fmt[1..], vs[1..]);
      UnpackPack(fmt[1..], vs[1..]);
      UnpackPackOne(fmt[0], vs[0]);
      var r := Unpack(fmt, b).value;
      forall i | 1 <= i < |fmt| ensures r[i] == Repacked(fmt[i], vs[i]) {
        assert r[i] == Unpack(fmt[1..], Pack(fmt[1..], vs[1..])).value[i - 1];
        assert fmt[i] == fmt[1..][i - 1] && vs[i] == vs[1..][i - 1];
      }
    }
  }

  /** Values that fit their fields survive `pack` and `unpack` unchanged. */
  lemma UnpackPackFits(fmt: seq<Code>, vs: seq<Value>)
    requires Fits(fmt, vs)
    ensures Kinds(fmt, vs) && Unpack(fmt, Pack(fmt, vs)) == Some(vs)
  {
    FitsKinds(fmt, vs);
    UnpackPack(fmt, vs);
    var r := Unpack(fmt, Pack(fmt, vs)).value;
    forall i | 0 <= i < |fmt| ensures r[i] == vs[i] {
      assert FitsOne(fmt[i], vs[i]);
      RepackedFits(fmt[i], vs[i]);
    }
    assert r == vs;
  }

  /** Packing the values `unpack` returns reproduces the bytes. */
  lemma {:induction false} PackUnpack(fmt: seq<Code>, data: seq<Byte>)
    requires |data| == Size(fmt)
    ensures var vs := Unpack(fmt, data).value;
            Kinds(fmt, vs) && Pack(fmt, vs) == data
  {
    UnpackFits(fmt, data);
    FitsKinds(fmt, Unpack(fmt, data).value);
    if fmt != [] {
      SizeTail(fmt);
      var w := fmt[0].width;
      var vs := Unpack(fmt, data).value;
      assert vs[1..] == Unpack(fmt[1..], data[w..]).value;
      PackUnpack(fmt[1..], data[w..]);
      if fmt[0].UInt? {
        FromLERoundTrip(data[..w]);
      }
      assert data == data[..w] + data[w..];
    }
  }
}
