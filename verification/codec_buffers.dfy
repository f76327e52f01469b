/** The codec as the program runs it: parts written to and read from a byte array, the offset handed along. */
module CodecBuffers {
  import opened Arithmetic
  import opened Codec

  /** A block of bytes is written at the offset; nothing else in the array changes. */
  method WriteBytes(dst: array<Byte>, offset: nat, bytes: seq<Byte>) returns (end: nat)
    requires offset + |bytes| <= dst.Length
    modifies dst
    ensures end == offset + |bytes|
    ensures dst[..] == Patched(old(dst[..]), offset, bytes)
  {
    for i := 0 to |bytes|
      invariant dst[..] == old(dst[..offset]) + bytes[..i] + old(dst[offset + i..])
    {
      dst[offset + i] := bytes[i];
    }
    end := offset + |bytes|;
    assert dst[..] == Patched(old(dst[..]), offset, bytes);
  }

  /** The bytes of an array with a block replaced. */
  function Patched(buffer: seq<Byte>, offset: nat, bytes: seq<Byte>): seq<Byte>
    requires offset + |bytes| <= |buffer|
  {
    buffer[..offset] + bytes + buffer[offset + |bytes|..]
  }

  lemma PatchTwice(buffer: seq<Byte>, offset: nat, a: seq<Byte>, b: seq<Byte>)
    requires offset + |a| + |b| <= |buffer|
    ensures |Patched(buffer, offset, a)| == |buffer|
    ensures Patched(Patched(buffer, offset, a), offset + |a|, b) == Patched(buffer, offset, a + b)
  {
  }

  lemma PatchNothing(buffer: seq<Byte>, offset: nat)
    requires offset <= |buffer|
    ensures Patched(buffer, offset, []) == buffer
  {
  }

  /** serialize: exactly the encoding goes to the offset. */
  method Serialize(s: Schema, v: Value, dst: array<Byte>, offset: nat) returns (end: nat)
    requires Typed(s, v) && offset + |Encode(s, v)| <= dst.Length
    modifies dst
    ensures end == offset + |Encode(s, v)|
    ensures dst[..] == Patched(old(dst[..]), offset, Encode(s, v))
    decreases s, 0
  {
    hide Word, Wrap, Flat, EncodeAll, EncodeFields, Patched;
    ghost var before := dst[..];
    match s
    case Number(w) =>
      end := WriteBytes(dst, offset, v.bytes);
    case Text =>
      var n := Wrap(|v.bytes|);
      PatchTwice(before, offset, Word(n), v.bytes[..n]);
      end := WriteBytes(dst, offset, Word(n));
      end := WriteBytes(dst, end, v.bytes[..n]);
    case NumberList(w) =>
      var n := Wrap(|v.items|);
      CutFits(v.items, w);
      var numbers := Flat(v.items)[..Wrap(n * w)];
      PatchTwice(before, offset, Word(n), numbers);
      end := WriteBytes(dst, offset, Word(n));
      end := WriteBytes(dst, end, numbers);
    case List(e) =>
      var n := Wrap(|v.items|);
      PatchTwice(before, offset, Word(n), EncodeAll(e, v.items));
      end := WriteBytes(dst, offset, Word(n));
      end := SerializeAll(e, v.items, dst, end);
    case Record(fs) =>
      end := SerializeFields(fs, v.items, dst, offset);
  }

  /** The loop over the elements of a vector of messages. */
  method SerializeAll(e: Schema, items: seq<Value>, dst: array<Byte>, offset: nat) returns (end: nat)
    requires forall i :: 0 <= i < |items| ==> Typed(e, items[i])
    requires offset + |EncodeAll(e, items)| <= dst.Length
    modifies dst
    ensures end == offset + |EncodeAll(e, items)|
    ensures dst[..] == Patched(old(dst[..]), offset, EncodeAll(e, items))
    decreases e, 1
  {
    hide Encode, Typed, EncodeAll, Patched;
    end := offset;
    NoneWritten(e);
    PatchNothing(dst[..], offset);
    for i := 0 to |items|
      invariant end == offset + |EncodeAll(e, items[..i])| <= dst.Length
      invariant dst[..] == Patched(old(dst[..]), offset, EncodeAll(e, items[..i]))
    {
      OneWritten(e, items, i);
      PatchTwice(old(dst[..]), offset, EncodeAll(e, items[..i]), Encode(e, items[i]));
      end := Serialize(e, items[i], dst, end);
    }
    assert items[..|items|] == items;
  }

  lemma NoneWritten(e: Schema)
    ensures EncodeAll(e, []) == [] && EncodeFields([], []) == []
  {
  }

  lemma {:induction false} OneWritten(e: Schema, items: seq<Value>, i: nat)
    requires i < |items| && forall i :: 0 <= i < |items| ==> Typed(e, items[i])
    ensures EncodeAll(e, items[..i + 1]) == EncodeAll(e, items[..i]) + Encode(e, items[i])
    ensures |EncodeAll(e, items[..i + 1])| <= |EncodeAll(e, items)|
    decreases |items| - i
  {
    hide Encode, Typed;
    assert items[..i + 1][..i] == items[..i];
    if i + 1 == |items| {
      assert items[..i + 1] == items;
    } else {
      OneWritten(e, items, i + 1);
    }
  }

  /** The fields of a message, one after the other. */
  method SerializeFields(fs: seq<Schema>, items: seq<Value>, dst: array<Byte>, offset: nat) returns (end: nat)
    requires |fs| == |items| && forall i :: 0 <= i < |fs| ==> Typed(fs[i], items[i])
    requires offset + |EncodeFields(fs, items)| <= dst.Length
    modifies dst
    ensures end == offset + |EncodeFields(fs, items)|
    ensures dst[..] == Patched(old(dst[..]), offset, EncodeFields(fs, items))
    decreases fs, 0
  {
    hide Encode, Typed, EncodeFields, Patched;
    end := offset;
    NoneWritten(Text);
    PatchNothing(dst[..], offset);
    for i := 0 to |fs|
      invariant end == offset + |EncodeFields(fs[..i], items[..i])| <= dst.Length
      invariant dst[..] == Patched(old(dst[..]), offset, EncodeFields(fs[..i], items[..i]))
    {
      OneFieldWritten(fs, items, i);
      PatchTwice(old(dst[..]), offset, EncodeFields(fs[..i], items[..i]), Encode(fs[i], items[i]));
      end := Serialize(fs[i], items[i], dst, end);
    }
    assert items[..|items|] == items && fs[..|fs|] == fs;
  }

  lemma {:induction false} OneFieldWritten(fs: seq<Schema>, items: seq<Value>, i: nat)
    requires |fs| == |items| && i < |items| && forall i :: 0 <= i < |fs| ==> Typed(fs[i], items[i])
    ensures EncodeFields(fs[..i + 1], items[..i + 1]) == EncodeFields(fs[..i], items[..i]) + Encode(fs[i], items[i])
    ensures |EncodeFields(fs[..i + 1], items[..i + 1])| <= |EncodeFields(fs, items)|
    decreases |items| - i
  {
    hide Encode, Typed;
    assert items[..i + 1][..i] == items[..i] && fs[..i + 1][..i] == fs[..i];
    if i + 1 == |items| {
      assert items[..i + 1] == items && fs[..i + 1] == fs;
    } else {
      OneFieldWritten(fs, items, i + 1);
    }
  }

  /**
   deserialize: the outcome depends on the first size bytes alone. Where the program would go on to read past them,
   in a vector of numbers, the outcome is Overrun.
   */
  method Deserialize(s: Schema, src: array<Byte>, size: nat, offset: nat) returns (r: Result)
    requires size <= src.Length
    ensures r == Decode(s, src[..size], offset)
    decreases s, 0
  {
    hide WordValue, Cut, DecodeAll, DecodeFields;
    if s.Record? {
      r := DeserializeFields(s.fields, src, size, offset);
      return;
    }
    if s.Number? {
      if offset + s.width > size {
        return Rejected(offset);
      }
      SliceWithin(src[..], size, offset, offset + s.width);
      return Decoded(Bytes(src[offset..offset + s.width]), offset + s.width);
    }
    if offset + 4 > size {
      return Rejected(offset);
    }
    SliceWithin(src[..], size, offset, offset + 4);
    var n, start := WordValue(src[offset..offset + 4]), offset + 4;
    if s.List? {
      r := DeserializeAll(s.element, n, src, size, start);
      return;
    }
    if start + n > size {
      return Rejected(start);
    }
    if s.Text? {
      SliceWithin(src[..], size, start, start + n);
      return Decoded(Bytes(src[start..start + n]), start + n);
    }
    if n * s.width > size - start {
      return Overrun;
    }
    TimesGrows(0, n, s.width);
    return Decoded(Values(Cut(src[..size], start, n, s.width)), start + n * s.width);
  }

  lemma SliceWithin(all: seq<Byte>, size: nat, i: nat, j: nat)
    requires i <= j <= size <= |all|
    ensures all[..size][i..j] == all[i..j]
  {
  }

  /** The loop over the elements of a vector of messages, up to the first that is rejected. */
  method DeserializeAll(e: Schema, n: nat, src: array<Byte>, size: nat, offset: nat) returns (r: Result)
    requires size <= src.Length
    ensures r == DecodeAll(e, n, src[..size], offset)
    decreases e, 1
  {
    hide Decode;
    var items: seq<Value>, end := [], offset;
    for i := 0 to n
      invariant DecodeAll(e, i, src[..size], offset) == Decoded(Values(items), end)
    {
      var next := Deserialize(e, src, size, end);
      if !next.Decoded? {
        RejectionStays(e, i + 1, n, src[..size], offset);
        return next;
      }
      items, end := items + [next.value], next.offset;
    }
    r := Decoded(Values(items), end);
  }

  lemma {:induction false} RejectionStays(e: Schema, i: nat, n: nat, src: seq<Byte>, offset: nat)
    requires i <= n && !DecodeAll(e, i, src, offset).Decoded?
    ensures DecodeAll(e, n, src, offset) == DecodeAll(e, i, src, offset)
    decreases n
  {
    hide Decode;
    if i < n {
      RejectionStays(e, i, n - 1, src, offset);
    }
  }

  method DeserializeFields(fs: seq<Schema>, src: array<Byte>, size: nat, offset: nat) returns (r: Result)
    requires size <= src.Length
    ensures r == DecodeFields(fs, src[..size], offset)
    decreases fs, 0
  {
    hide Decode;
    var items: seq<Value>, end := [], offset;
    for i := 0 to |fs|
      invariant DecodeFields(fs[..i], src[..size], offset) == Decoded(Values(items), end)
    {
      assert fs[..i + 1][..i] == fs[..i];
      var next := Deserialize(fs[i], src, size, end);
      if !next.Decoded? {
        FieldRejectionStays(fs, i + 1, src[..size], offset);
        return next;
      }
      items, end := items + [next.value], next.offset;
    }
    assert fs[..|fs|] == fs;
    r := Decoded(Values(items), end);
  }

  lemma {:induction false} FieldRejectionStays(fs: seq<Schema>, i: nat, src: seq<Byte>, offset: nat)
    requires i <= |fs| && !DecodeFields(fs[..i], src, offset).Decoded?
    ensures DecodeFields(fs, src, offset) == DecodeFields(fs[..i], src, offset)
    decreases fs
  {
    hide Decode;
    if i == |fs| {
      assert fs[..i] == fs;
    } else {
      var init := fs[..|fs| - 1];
      assert init[..i] == fs[..i];
      FieldRejectionStays(init, i, src, offset);
    }
  }
}
