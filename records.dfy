/** Sequences of fixed-size records: packing each element, unpacking each chunk, and
    joining records into one byte string (`''.join(...)`). */
module Records {
  import opened Bytes

  /** The records joined in order. */
  function Concat(rs: seq<seq<Byte>>): (r: seq<Byte>)
  {
    if rs == [] then [] else rs[0] + Concat(rs[1..])
  }

  lemma {:induction false} ConcatAppend(a: seq<seq<Byte>>, b: seq<seq<Byte>>)
    ensures Concat(a + b) == Concat(a) + Concat(b)
  {
    if a == [] {
      assert a + b == b;
    } else {
      assert (a + b)[0] == a[0] && (a + b)[1..] == a[1..] + b;
      ConcatAppend(a[1..], b);
      AppendAssoc(a[0], Concat(a[1..]), Concat(b));
    }
  }

  /** The join around record `i`: the records before it, record `i`, then the rest. */
  lemma ConcatAround(rs: seq<seq<Byte>>, i: nat)
    requires i < |rs|
    ensures Concat(rs) == Concat(rs[..i]) + (rs[i] + Concat(rs[i + 1..]))
  {
    assert rs == rs[..i] + rs[i..];
    ConcatAppend(rs[..i], rs[i..]);
    assert rs[i..][0] == rs[i] && rs[i..][1..] == rs[i + 1..];
  }

  /** `unpack` applied to each chunk in turn, failing at the first chunk it rejects. */
  function UnpackEach<T>(unpack: seq<Byte> -> Option<T>, chunks: seq<seq<Byte>>): (r: Option<seq<T>>)
    ensures r.Some? ==> |r.value| == |chunks|
  {
    if chunks == [] then Some([])
    else
      var x := unpack(chunks[0]);
      var rest := UnpackEach(unpack, chunks[1..]);
      if x.None? || rest.None? then None else Some([x.value] + rest.value)
  }

  /** `pack` applied to each element, one record per element. */
  function PackEach<T>(pack: T -> seq<Byte>, xs: seq<T>): (r: seq<seq<Byte>>)
    ensures |r| == |xs|
  {
    if xs == [] then [] else [pack(xs[0])] + PackEach(pack, xs[1..])
  }

  /** Record `i` is the packing of element `i`. */
  lemma {:induction false} PackEachAt<T>(pack: T -> seq<Byte>, xs: seq<T>)
    ensures forall i :: 0 <= i < |xs| ==> PackEach(pack, xs)[i] == pack(xs[i])
  {
    if xs != [] {
      PackEachAt(pack, xs[1..]);
      assert forall i :: 1 <= i < |xs| ==> xs[i] == xs[1..][i - 1];
    }
  }

  /** Unpacking succeeds exactly when `unpack` accepts every chunk. */
  lemma {:induction false} UnpackEachSucceeds<T>(unpack: seq<Byte> -> Option<T>, chunks: seq<seq<Byte>>)
    ensures UnpackEach(unpack, chunks).Some? <==> forall i :: 0 <= i < |chunks| ==> unpack(chunks[i]).Some?
  {
    if chunks != [] {
      UnpackEachSucceeds(unpack, chunks[1..]);
      assert forall i :: 1 <= i < |chunks| ==> chunks[i] == chunks[1..][i - 1];
    }
  }

  /** Each element of a successful unpacking is what `unpack` gives for its chunk. */
  lemma {:induction false} UnpackEachAt<T>(unpack: seq<Byte> -> Option<T>, chunks: seq<seq<Byte>>)
    requires UnpackEach(unpack, chunks).Some?
    ensures forall i :: 0 <= i < |chunks| ==> unpack(chunks[i]) == Some(UnpackEach(unpack, chunks).value[i])
  {
    if chunks != [] {
      UnpackEachAt(unpack, chunks[1..]);
      assert forall i :: 1 <= i < |chunks| ==> chunks[i] == chunks[1..][i - 1];
    }
  }

  /** Unpacking two runs of chunks one after the other. */
  lemma {:induction false} UnpackEachAppend<T>(unpack: seq<Byte> -> Option<T>, a: seq<seq<Byte>>, b: seq<seq<Byte>>)
    ensures UnpackEach(unpack, a + b)
         == if UnpackEach(unpack, a).Some? && UnpackEach(unpack, b).Some?
            then Some(UnpackEach(unpack, a).value + UnpackEach(unpack, b).value) else None
  {
    if a == [] {
      assert a + b == b;
      if UnpackEach(unpack, b).Some? {
        assert [] + UnpackEach(unpack, b).value == UnpackEach(unpack, b).value;
      }
    } else {
      assert (a + b)[0] == a[0] && (a + b)[1..] == a[1..] + b;
      UnpackEachAppend(unpack, a[1..], b);
      if UnpackEach(unpack, a).Some? && UnpackEach(unpack, b).Some? {
        AppendAssoc([unpack(a[0]).value], UnpackEach(unpack, a[1..]).value, UnpackEach(unpack, b).value);
      }
    }
  }

  /** When `unpack` inverts `pack` on every element, unpacking the records gives the elements back. */
  lemma {:induction false} UnpackEachPacked<T>(unpack: seq<Byte> -> Option<T>, pack: T -> seq<Byte>, xs: seq<T>)
    requires forall i :: 0 <= i < |xs| ==> unpack(pack(xs[i])) == Some(xs[i])
    ensures UnpackEach(unpack, PackEach(pack, xs)) == Some(xs)
  {
    if xs != [] {
      var rs := PackEach(pack, xs);
      assert rs[0] == pack(xs[0]) && rs[1..] == PackEach(pack, xs[1..]);
      assert forall i :: 1 <= i < |xs| ==> xs[i] == xs[1..][i - 1];
      UnpackEachPacked(unpack, pack, xs[1..]);
      assert [xs[0]] + xs[1..] == xs;
    }
  }

}
