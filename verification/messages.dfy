/** The messages of the pipeline, described field by field, and what the codec promises of them. */
module Messages {
  import opened Codec

  const TIME := Record([Number(4), Number(4)])
  const HEADER := Record([Number(4), TIME, Text])
  const VECTOR3 := Record([Number(4), Number(4), Number(4)])
  const QUATERNION := Record([Number(4), Number(4), Number(4), Number(4)])
  const TRANSFORM := Record([VECTOR3, QUATERNION])
  const TRANSFORM_STAMPED := Record([HEADER, Text, TRANSFORM])
  const JOINT_STATE := Record([Text, Number(8), Number(8), Number(8)])

  /** The fields of a TF message. */
  const TF := [List(TRANSFORM_STAMPED)]

  /** The fields of a JS message. */
  const JS := [TIME, List(JOINT_STATE)]

  lemma FieldsChecked()
    ensures BytesChecked(Record(TF)) && BytesChecked(Record(JS))
  {
    assert BytesChecked(TRANSFORM);
    assert BytesChecked(HEADER);
    assert BytesChecked(TRANSFORM_STAMPED);
    assert BytesChecked(JOINT_STATE);
  }

  /**
   A message of checked fields, read from any input shorter than 2^32 bytes: the read stays inside the input,
   and a success has consumed exactly size() bytes, which are the ones that serializing the result produces.
   */
  lemma ReadIsExact(fs: seq<Schema>, src: seq<Byte>, offset: nat)
    requires BytesChecked(Record(fs)) && offset <= |src| < LIMIT
    ensures var r := Decode(Record(fs), src, offset);
            && r != Overrun
            && (r.Decoded? ==>
                  && Typed(Record(fs), r.value) && Fits(Record(fs), r.value)
                  && r.offset == offset + Size(fs, r.value) <= |src|
                  && src[offset..r.offset] == Encode(Record(fs), r.value))
  {
    hide EncodeFields, DecodeFields, SumFields, BytesChecked;
    var s := Record(fs);
    NeverOverruns(s, src, offset);
    if Decode(s, src, offset).Decoded? {
      Canonical(s, src, offset);
      SumFieldsExact(fs, Decode(s, src, offset).value.items);
    }
  }

  /** What is written is size() bytes long, is read back equal from anywhere, and no strict prefix of it is accepted. */
  lemma WriteIsExact(fs: seq<Schema>, v: Value, src: seq<Byte>, offset: nat, k: nat)
    requires BytesChecked(Record(fs)) && Typed(Record(fs), v) && Fits(Record(fs), v)
    requires |Encode(Record(fs), v)| < LIMIT && k < |Encode(Record(fs), v)|
    requires Holds(src, offset, Encode(Record(fs), v))
    ensures Size(fs, v) == |Encode(Record(fs), v)|
    ensures Decode(Record(fs), src, offset) == Decoded(v, offset + Size(fs, v))
    ensures Decode(Record(fs), Encode(Record(fs), v)[..k], 0).Rejected?
  {
    hide EncodeFields, DecodeFields, SumFields, BytesChecked, Holds;
    var s := Record(fs);
    SumFieldsExact(fs, v.items);
    RoundTrip(s, v, src, offset);
    PrefixFails(s, v, k);
    NeverOverruns(s, Encode(s, v)[..k], 0);
  }

  /** TF and JS messages are such messages. */
  lemma TfReadIsExact(src: seq<Byte>, offset: nat)
    requires offset <= |src| < LIMIT
    ensures var r := Decode(Record(TF), src, offset);
            r != Overrun && (r.Decoded? ==>
              && Typed(Record(TF), r.value) && Fits(Record(TF), r.value)
              && r.offset == offset + Size(TF, r.value) <= |src|
              && src[offset..r.offset] == Encode(Record(TF), r.value))
  {
    FieldsChecked();
    ReadIsExact(TF, src, offset);
  }

  lemma JsReadIsExact(src: seq<Byte>, offset: nat)
    requires offset <= |src| < LIMIT
    ensures var r := Decode(Record(JS), src, offset);
            r != Overrun && (r.Decoded? ==>
              && Typed(Record(JS), r.value) && Fits(Record(JS), r.value)
              && r.offset == offset + Size(JS, r.value) <= |src|
              && src[offset..r.offset] == Encode(Record(JS), r.value))
  {
    FieldsChecked();
    ReadIsExact(JS, src, offset);
  }

  lemma HeaderLength(v: Value)
    requires Typed(HEADER, v) && Fits(HEADER, v)
    ensures v.items[2].Bytes? && |Encode(HEADER, v)| == 16 + |v.items[2].bytes|
  {
    hide EncodeFields;
    assert Typed(TIME, v.items[1]) && Typed(Text, v.items[2]) && Fits(Text, v.items[2]);
    LengthOf(TIME.fields, v.items[1].items);
    LengthOf(HEADER.fields, v.items);
  }

  lemma TransformLength(v: Value)
    requires Typed(TRANSFORM, v)
    ensures |Encode(TRANSFORM, v)| == 28
  {
    hide EncodeFields;
    assert Typed(VECTOR3, v.items[0]) && Typed(QUATERNION, v.items[1]);
    LengthOf(VECTOR3.fields, v.items[0].items);
    LengthOf(QUATERNION.fields, v.items[1].items);
    LengthOf(TRANSFORM.fields, v.items);
  }

  /** A stamped transform takes 48 bytes besides its two frame names. */
  lemma TransformStampedLength(v: Value)
    requires Typed(TRANSFORM_STAMPED, v) && Fits(TRANSFORM_STAMPED, v)
    ensures Typed(HEADER, v.items[0]) && v.items[0].items[2].Bytes? && v.items[1].Bytes?
    ensures |Encode(TRANSFORM_STAMPED, v)| == 48 + |v.items[0].items[2].bytes| + |v.items[1].bytes|
  {
    hide EncodeFields;
    assert Typed(HEADER, v.items[0]) && Typed(Text, v.items[1]) && Typed(TRANSFORM, v.items[2]);
    assert Fits(HEADER, v.items[0]) && Fits(Text, v.items[1]);
    HeaderLength(v.items[0]);
    TransformLength(v.items[2]);
    LengthOf(TRANSFORM_STAMPED.fields, v.items);
  }

  lemma LengthOf(fs: seq<Schema>, items: seq<Value>)
    requires |fs| == |items| <= 4 && forall i :: 0 <= i < |fs| ==> Typed(fs[i], items[i])
    ensures |EncodeFields(fs, items)| == |Field(fs, items, 0)| + |Field(fs, items, 1)| + |Field(fs, items, 2)|
                                         + |Field(fs, items, 3)|
  {
    hide EncodeFields, Encode, Typed;
    FieldsOf(fs, items);
  }

  /** The bytes of one field. */
  ghost function Field(fs: seq<Schema>, items: seq<Value>, i: nat): seq<Byte>
    requires |fs| == |items| && forall i :: 0 <= i < |fs| ==> Typed(fs[i], items[i])
  {
    if i < |fs| then Encode(fs[i], items[i]) else []
  }

  /** A message of up to four fields is these, the first one first. */
  lemma FieldsOf(fs: seq<Schema>, items: seq<Value>)
    requires |fs| == |items| <= 4 && forall i :: 0 <= i < |fs| ==> Typed(fs[i], items[i])
    ensures |fs| == 0 ==> EncodeFields(fs, items) == []
    ensures |fs| == 1 ==> EncodeFields(fs, items) == Field(fs, items, 0)
    ensures |fs| == 2 ==> EncodeFields(fs, items) == Field(fs, items, 0) + Field(fs, items, 1)
    ensures |fs| == 3 ==>
              EncodeFields(fs, items) == Field(fs, items, 0) + Field(fs, items, 1) + Field(fs, items, 2)
    ensures |fs| == 4 ==>
              EncodeFields(fs, items)
              == Field(fs, items, 0) + Field(fs, items, 1) + Field(fs, items, 2) + Field(fs, items, 3)
  {
    hide Encode, Typed, EncodeFields, Field;
    if fs == [] {
      NoFields(fs, items);
    } else {
      FieldsOf(fs[..|fs| - 1], items[..|fs| - 1]);
      FieldsSnoc(fs, items);
    }
  }

  lemma NoFields(fs: seq<Schema>, items: seq<Value>)
    requires fs == [] && items == []
    ensures EncodeFields(fs, items) == []
  {
  }

  lemma FieldsSnoc(fs: seq<Schema>, items: seq<Value>)
    requires 0 < |fs| == |items| && forall i :: 0 <= i < |fs| ==> Typed(fs[i], items[i])
    ensures var n := |fs| - 1;
            && EncodeFields(fs, items) == EncodeFields(fs[..n], items[..n]) + Field(fs, items, n)
            && forall i: nat :: i < n ==> Field(fs[..n], items[..n], i) == Field(fs, items, i)
  {
    hide Encode, Typed;
  }
}
