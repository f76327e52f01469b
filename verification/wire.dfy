/** TF messages as bytes: what a publisher writes is what a listener's graph is fed with. */
module Wire {
  import opened Common
  import opened TransformAlgebra
  import opened FrameTrees
  import opened RobotStructure
  import opened RobotWalk
  import opened Kinematics
  import opened Codec
  import opened Messages

  /** How the seven numbers of a transform are laid out in bytes, and read back. */
  datatype Layout<!T> = Layout(pack: T -> Value, unpack: Value -> T)

  const NANOSECONDS := 1_000_000_000

  /** A character is one byte. */
  predicate IsNarrow(name: string) {
    |name| < LIMIT && forall i :: 0 <= i < |name| ==> name[i] as int < 256
  }

  function TextOf(name: string): (v: Value)
    requires IsNarrow(name)
  {
    Bytes(seq(|name|, i requires 0 <= i < |name| => name[i] as int))
  }

  function NameOf(v: Value): string
    requires Typed(Text, v)
  {
    seq(|v.bytes|, i requires 0 <= i < |v.bytes| => v.bytes[i] as char)
  }

  lemma NameBack(name: string)
    requires IsNarrow(name)
    ensures Typed(Text, TextOf(name)) && Fits(Text, TextOf(name)) && NameOf(TextOf(name)) == name
  {
  }

  /** The message fits its fields: the bytes of its numbers give them back, the transform's included. */
  predicate IsSendable<T(==)>(y: Layout<T>, m: Stamped<T>) {
    && m.sequence < LIMIT && 0 <= m.stamp && m.stamp / NANOSECONDS < LIMIT
    && IsNarrow(m.frameId) && IsNarrow(m.childFrameId)
    && Typed(TRANSFORM, y.pack(m.transform)) && y.unpack(y.pack(m.transform)) == m.transform
  }

  function StampValue(stamp: nat): Value
    requires stamp / NANOSECONDS < LIMIT
  {
    Values([Bytes(Word(stamp / NANOSECONDS)), Bytes(Word(stamp % NANOSECONDS))])
  }

  function HeaderValue(sequence: nat, stamp: nat, frameId: string): Value
    requires sequence < LIMIT && stamp / NANOSECONDS < LIMIT && IsNarrow(frameId)
  {
    Values([Bytes(Word(sequence)), StampValue(stamp), TextOf(frameId)])
  }

  function StampedValue<T(==)>(y: Layout<T>, m: Stamped<T>): Value
    requires IsSendable(y, m)
  {
    Values([HeaderValue(m.sequence, m.stamp, m.frameId), TextOf(m.childFrameId), y.pack(m.transform)])
  }

  function StampOf(v: Value): int
    requires Typed(TIME, v)
  {
    assert Typed(Number(4), v.items[0]) && Typed(Number(4), v.items[1]);
    WordValue(v.items[0].bytes) * NANOSECONDS + WordValue(v.items[1].bytes)
  }

  function StampedOf<T>(y: Layout<T>, v: Value): Stamped<T>
    requires Typed(TRANSFORM_STAMPED, v)
  {
    var header, child, transform := v.items[0], v.items[1], v.items[2];
    assert Typed(HEADER, header) && Typed(Text, child);
    assert Typed(Number(4), header.items[0]) && Typed(TIME, header.items[1]) && Typed(Text, header.items[2]);
    Stamped(WordValue(header.items[0].bytes), StampOf(header.items[1]), NameOf(header.items[2]), NameOf(child),
            y.unpack(transform))
  }

  lemma StampBack(stamp: nat)
    requires stamp / NANOSECONDS < LIMIT
    ensures Typed(TIME, StampValue(stamp)) && Fits(TIME, StampValue(stamp)) && StampOf(StampValue(stamp)) == stamp
  {
    hide Word, WordValue;
    WordRoundTrip(stamp / NANOSECONDS);
    WordRoundTrip(stamp % NANOSECONDS);
  }

  lemma HeaderBack(sequence: nat, stamp: nat, frameId: string)
    requires sequence < LIMIT && stamp / NANOSECONDS < LIMIT && IsNarrow(frameId)
    ensures Typed(HEADER, HeaderValue(sequence, stamp, frameId)) && Fits(HEADER, HeaderValue(sequence, stamp, frameId))
    ensures WordValue(Word(sequence)) == sequence
  {
    hide Word, WordValue, StampValue, TextOf;
    WordRoundTrip(sequence);
    StampBack(stamp);
    NameBack(frameId);
  }

  lemma FitsNumbers(v: Value)
    requires Typed(TRANSFORM, v)
    ensures Fits(TRANSFORM, v)
  {
    assert Typed(VECTOR3, v.items[0]) && Typed(QUATERNION, v.items[1]);
    assert Fits(VECTOR3, v.items[0]) && Fits(QUATERNION, v.items[1]);
  }

  /** A stamped transform survives the way into a message and back. */
  lemma StampedBack<T>(y: Layout<T>, m: Stamped<T>)
    requires IsSendable(y, m)
    ensures Typed(TRANSFORM_STAMPED, StampedValue(y, m)) && Fits(TRANSFORM_STAMPED, StampedValue(y, m))
    ensures StampedOf(y, StampedValue(y, m)) == m
  {
    hide Word, WordValue, StampValue, StampOf, TextOf, NameOf, IsNarrow;
    StampBack(m.stamp);
    HeaderBack(m.sequence, m.stamp, m.frameId);
    NameBack(m.frameId);
    NameBack(m.childFrameId);
    FitsNumbers(y.pack(m.transform));
  }

  /**
   On the wire, a stamped transform is its sequence number, the whole seconds and the nanoseconds left over, the length
   and the characters of its frame, those of its child frame, and its transform.
   */
  lemma StampedBytes<T>(y: Layout<T>, m: Stamped<T>) returns (frame: seq<Byte>, child: seq<Byte>)
    requires IsSendable(y, m)
    ensures |frame| == |m.frameId| && forall i :: 0 <= i < |frame| ==> frame[i] == m.frameId[i] as int
    ensures |child| == |m.childFrameId| && forall i :: 0 <= i < |child| ==> child[i] == m.childFrameId[i] as int
    ensures Typed(TRANSFORM_STAMPED, StampedValue(y, m))
    ensures var (sec, nsec) := (m.stamp / 1_000_000_000, m.stamp % 1_000_000_000);
            Encode(TRANSFORM_STAMPED, StampedValue(y, m)) ==
              Word(m.sequence) + Word(sec) + Word(nsec) + Word(|frame|) + frame + Word(|child|) + child
              + Encode(TRANSFORM, y.pack(m.transform))
  {
    hide Word, WordValue, IsNarrow, EncodeFields, HeaderValue, TextOf, Encode;
    StampedBack(y, m);
    NameBytes(m.frameId);
    NameBytes(m.childFrameId);
    frame, child := TextOf(m.frameId).bytes, TextOf(m.childFrameId).bytes;
    HeaderBytes(m.sequence, m.stamp, m.frameId);
    var v := StampedValue(y, m);
    FieldsOf(TRANSFORM_STAMPED.fields, v.items);
    RecordBytes(TRANSFORM_STAMPED, v);
  }

  lemma RecordBytes(s: Schema, v: Value)
    requires s.Record? && Typed(s, v)
    ensures Encode(s, v) == EncodeFields(s.fields, v.items)
  {
  }

  lemma NameBytes(name: string)
    requires IsNarrow(name)
    ensures var v := TextOf(name);
            && v.Bytes? && |v.bytes| == |name| && forall i :: 0 <= i < |name| ==> v.bytes[i] == name[i] as int
    ensures Typed(Text, TextOf(name)) && Encode(Text, TextOf(name)) == Word(|name|) + TextOf(name).bytes
  {
    hide Word;
    NameBack(name);
    TextBytes(TextOf(name));
  }

  lemma HeaderBytes(sequence: nat, stamp: nat, frameId: string)
    requires sequence < LIMIT && stamp / NANOSECONDS < LIMIT && IsNarrow(frameId)
    ensures Typed(HEADER, HeaderValue(sequence, stamp, frameId)) && TextOf(frameId).Bytes?
    ensures Encode(HEADER, HeaderValue(sequence, stamp, frameId)) ==
              Word(sequence) + Word(stamp / NANOSECONDS) + Word(stamp % NANOSECONDS) + Word(|frameId|)
              + TextOf(frameId).bytes
  {
    hide Word, WordValue, IsNarrow, EncodeFields, TextOf;
    HeaderBack(sequence, stamp, frameId);
    StampBack(stamp);
    NameBytes(frameId);
    var v := HeaderValue(sequence, stamp, frameId);
    FieldsOf(TIME.fields, v.items[1].items);
    FieldsOf(HEADER.fields, v.items);
  }

  predicate AllSendable<T(==)>(y: Layout<T>, tf: seq<Stamped<T>>) {
    |tf| < LIMIT && forall k :: 0 <= k < |tf| ==> IsSendable(y, tf[k])
  }

  function TfValue<T(==)>(y: Layout<T>, tf: seq<Stamped<T>>): Value
    requires AllSendable(y, tf)
  {
    Values([Values(seq(|tf|, k requires 0 <= k < |tf| => StampedValue(y, tf[k])))])
  }

  function TfOf<T>(y: Layout<T>, v: Value): seq<Stamped<T>>
    requires Typed(Record(TF), v)
  {
    assert Typed(List(TRANSFORM_STAMPED), v.items[0]);
    var items := v.items[0].items;
    seq(|items|, k requires 0 <= k < |items| => StampedOf(y, items[k]))
  }

  lemma TfBack<T>(y: Layout<T>, tf: seq<Stamped<T>>)
    requires AllSendable(y, tf)
    ensures Typed(Record(TF), TfValue(y, tf)) && Fits(Record(TF), TfValue(y, tf)) && TfOf(y, TfValue(y, tf)) == tf
  {
    hide StampedValue, StampedOf, IsSendable;
    var list := TfValue(y, tf).items[0];
    forall k | 0 <= k < |tf|
      ensures Typed(TRANSFORM_STAMPED, list.items[k]) && Fits(TRANSFORM_STAMPED, list.items[k])
      ensures StampedOf(y, list.items[k]) == tf[k] {
      StampedBack(y, tf[k]);
    }
    assert Typed(List(TRANSFORM_STAMPED), list) && Fits(List(TRANSFORM_STAMPED), list);
  }

  /** The bytes of a TF message. */
  ghost function TfBytes<T>(y: Layout<T>, tf: seq<Stamped<T>>): seq<Byte>
    requires AllSendable(y, tf)
  {
    TfBack(y, tf);
    Encode(Record(TF), TfValue(y, tf))
  }

  /** Written anywhere into a buffer and read from there, a TF message is the one that was sent. */
  lemma Carried<T>(y: Layout<T>, tf: seq<Stamped<T>>, src: seq<Byte>, offset: nat)
    requires AllSendable(y, tf) && Holds(src, offset, TfBytes(y, tf))
    ensures var r := Decode(Record(TF), src, offset);
            r.Decoded? && Typed(Record(TF), r.value) && TfOf(y, r.value) == tf
  {
    hide Encode, Decode, TfValue, TfOf;
    TfBack(y, tf);
    RoundTrip(Record(TF), TfValue(y, tf), src, offset);
  }

  /**
   End to end over the wire: a graph that is fed with what it reads from the bytes of a robot's transforms answers for
   every link with the product over its chain.
   */
  lemma EndToEndOverWire<T(!new)>(m: Model<T>, g: Algebra<T>, world: T, sent: map<string, T>, order: seq<string>,
                                  tf: seq<Stamped<T>>, y: Layout<T>, src: seq<Byte>, offset: nat, d: int, l: string,
                                  time: int)
    requires Proper(m) && IsGroup(g) && Publishes(m, world, sent, order, tf)
    requires sent.Keys == m.joints.Keys && l in m.links
    requires AllSendable(y, tf) && Holds(src, offset, TfBytes(y, tf))
    ensures Ascends(m, l) && Covers(sent, Chain(m, l))
    ensures var r := Decode(Record(TF), src, offset);
            && r.Decoded? && Typed(Record(TF), r.value)
            && var (t, ok) := ApplyAll(Fresh(WORLD, d), TfOf(y, r.value));
               && ok && WellFormed(t)
               && Query(t, g, l, WORLD, time) == Some(ProductOver(g, world, sent, Chain(m, l)))
  {
    hide Proper, IsGroup, Publishes, AllSendable, Ascends, Covers, Chain, ProductOver, ApplyAll, Query,
         WellFormed, Encode, Decode, TfValue, TfOf, Holds;
    Carried(y, tf, src, offset);
    EndToEnd(m, g, world, sent, order, tf, d, l, time);
  }
}
