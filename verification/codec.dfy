/**
 The byte codec as values. A message is described by its schema; numbers are the bytes they occupy, lengths
 are 32 bits wide and stored with the lowest byte first.
 */
module Codec {
  import opened Arithmetic

  const LIMIT := 0x1_0000_0000

  type Byte = x: int | 0 <= x < 256

  // A number or a fixed array of numbers occupies at least one byte, and its size fits 32 bits.
  type Width = w: int | 0 < w < LIMIT witness 1

  /**
   Number is a number, or a fixed array of numbers, of so many bytes; NumberList and List are the length-prefixed
   vectors; Record is a message, or a fixed array of strings or messages, whose parts follow one another.
   */
  datatype Schema =
    | Number(width: Width)
    | Text
    | NumberList(width: Width)
    | List(element: Schema)
    | Record(fields: seq<Schema>)

  datatype Value = Bytes(bytes: seq<Byte>) | Values(items: seq<Value>)

  /** The value has the shape of the schema. */
  predicate Typed(s: Schema, v: Value)
    decreases s
  {
    match s
    case Number(w) => v.Bytes? && |v.bytes| == w
    case Text => v.Bytes?
    case NumberList(w) => v.Values? && forall i :: 0 <= i < |v.items| ==> v.items[i].Bytes? && |v.items[i].bytes| == w
    case List(e) => v.Values? && forall i :: 0 <= i < |v.items| ==> Typed(e, v.items[i])
    case Record(fs) => v.Values? && |v.items| == |fs| && forall i :: 0 <= i < |fs| ==> Typed(fs[i], v.items[i])
  }

  /** Every count and every block of bytes in the value is one that 32 bits can hold. */
  predicate Fits(s: Schema, v: Value)
    requires Typed(s, v)
    decreases s
  {
    match s
    case Number(w) => true
    case Text => |v.bytes| < LIMIT
    case NumberList(w) => |v.items| < LIMIT && |v.items| * w < LIMIT
    case List(e) => |v.items| < LIMIT && forall i :: 0 <= i < |v.items| ==> Fits(e, v.items[i])
    case Record(fs) => forall i :: 0 <= i < |fs| ==> Fits(fs[i], v.items[i])
  }

  // ---------- Writing

  /** The low 32 bits. */
  function Wrap(n: nat): (r: nat)
    ensures r < LIMIT && r <= n && (n < LIMIT ==> r == n)
  {
    n % LIMIT
  }

  lemma WrapMore(n: nat, k: nat)
    ensures Wrap(n + k * LIMIT) == Wrap(n)
  {
  }

  lemma WrapAdd(a: nat, b: nat)
    ensures Wrap(a + Wrap(b)) == Wrap(a + b) && Wrap(Wrap(a) + b) == Wrap(a + b)
  {
    WrapMore(a + Wrap(b), b / LIMIT);
    WrapMore(Wrap(a) + b, a / LIMIT);
  }

  function Digit(n: nat): Byte {
    var digit: int := n % 256;
    digit
  }

  function Word(n: nat): (b: seq<Byte>)
    requires n < LIMIT
    ensures |b| == 4
  {
    [Digit(n), Digit(n / 256), Digit(n / 65536), Digit(n / 16777216)]
  }

  function WordValue(b: seq<Byte>): (n: nat)
    requires |b| == 4
    ensures n < LIMIT
  {
    Weigh(b[0], b[1], b[2], b[3])
  }

  function Weigh(a: int, b: int, c: int, d: int): int {
    a + 256 * b + 65536 * c + 16777216 * d
  }

  /** Lengths that do not fit are cut to their low 32 bits, and the text is cut with them. */
  function Encode(s: Schema, v: Value): seq<Byte>
    requires Typed(s, v)
    decreases s, 0
  {
    match s
    case Number(w) => v.bytes
    case Text => Word(Wrap(|v.bytes|)) + v.bytes[..Wrap(|v.bytes|)]
    case NumberList(w) =>
      var n := Wrap(|v.items|);
      CutFits(v.items, w);
      Word(n) + Flat(v.items)[..Wrap(n * w)]
    case List(e) => Word(Wrap(|v.items|)) + EncodeAll(e, v.items)
    case Record(fs) => EncodeFields(fs, v.items)
  }

  function EncodeAll(e: Schema, items: seq<Value>): seq<Byte>
    requires forall i :: 0 <= i < |items| ==> Typed(e, items[i])
    decreases e, 1 + |items|
  {
    if items == [] then [] else EncodeAll(e, items[..|items| - 1]) + Encode(e, items[|items| - 1])
  }

  function EncodeFields(fs: seq<Schema>, items: seq<Value>): seq<Byte>
    requires |fs| == |items| && forall i :: 0 <= i < |fs| ==> Typed(fs[i], items[i])
    decreases fs, 0
  {
    if fs == [] then []
    else EncodeFields(fs[..|fs| - 1], items[..|fs| - 1]) + Encode(fs[|fs| - 1], items[|fs| - 1])
  }

  /** The numbers of a vector, side by side. */
  function Flat(items: seq<Value>): seq<Byte>
    requires forall i :: 0 <= i < |items| ==> items[i].Bytes?
  {
    if items == [] then [] else Flat(items[..|items| - 1]) + items[|items| - 1].bytes
  }

  lemma {:induction false} FlatLength(items: seq<Value>, w: nat)
    requires forall i :: 0 <= i < |items| ==> items[i].Bytes? && |items[i].bytes| == w
    ensures |Flat(items)| == |items| * w
  {
    if items != [] {
      FlatLength(items[..|items| - 1], w);
      OnceMore(|items|, w);
    }
  }

  lemma CutFits(items: seq<Value>, w: nat)
    requires forall i :: 0 <= i < |items| ==> items[i].Bytes? && |items[i].bytes| == w
    ensures Wrap(|items|) * w >= 0 && Wrap(Wrap(|items|) * w) <= |Flat(items)|
  {
    hide Wrap;
    FlatLength(items, w);
    TimesGrows(Wrap(|items|), |items|, w);
    TimesGrows(0, Wrap(|items|), w);
  }

  // ---------- Sizes

  /** The 32-bit size of a part: sums of sizes wrap around. */
  function PartSize(s: Schema, v: Value): nat
    requires Typed(s, v)
    decreases s, 0
  {
    match s
    case Number(w) => Wrap(w)
    case Text => Wrap(4 + |v.bytes|)
    case NumberList(w) => Wrap(4 + |v.items| * w)
    case List(e) => SumAll(e, v.items)
    case Record(fs) => Wrap(SumFields(fs, v.items))
  }

  function SumAll(e: Schema, items: seq<Value>): nat
    requires forall i :: 0 <= i < |items| ==> Typed(e, items[i])
    decreases e, 1 + |items|
  {
    if items == [] then 4
    else Wrap(SumAll(e, items[..|items| - 1]) + PartSize(e, items[|items| - 1]))
  }

  function SumFields(fs: seq<Schema>, items: seq<Value>): nat
    requires |fs| == |items| && forall i :: 0 <= i < |fs| ==> Typed(fs[i], items[i])
    decreases fs, 0
  {
    if fs == [] then 0
    else SumFields(fs[..|fs| - 1], items[..|fs| - 1]) + PartSize(fs[|fs| - 1], items[|fs| - 1])
  }

  /** size() of a message adds its parts up without wrapping. */
  function Size(fs: seq<Schema>, v: Value): nat
    requires Typed(Record(fs), v)
  {
    SumFields(fs, v.items)
  }

  // ---------- Reading

  /** Overrun is the read past the end that a vector of numbers allows: its check counts numbers, not bytes. */
  datatype Result = Decoded(value: Value, offset: nat) | Rejected(offset: nat) | Overrun

  /** n numbers of w bytes each, from a position on. */
  function Cut(src: seq<Byte>, start: nat, n: nat, w: nat): (items: seq<Value>)
    requires n * w >= 0 && start + n * w <= |src|
    ensures |items| == n && forall i :: 0 <= i < n ==> items[i].Bytes? && |items[i].bytes| == w
  {
    if n == 0 then []
    else
      var k := n - 1;
      OnceMore(n, w);
      TimesGrows(0, k, w);
      Cut(src, start, k, w) + [Bytes(src[start + k * w..start + k * w + w])]
  }

  function Decode(s: Schema, src: seq<Byte>, offset: nat): Result
    decreases s, 0
  {
    match s
    case Number(w) =>
      if offset + w > |src| then Rejected(offset) else Decoded(Bytes(src[offset..offset + w]), offset + w)
    case Text =>
      if offset + 4 > |src| then Rejected(offset) else
      var n, start := WordValue(src[offset..offset + 4]), offset + 4;
      if start + n > |src| then Rejected(start) else Decoded(Bytes(src[start..start + n]), start + n)
    case NumberList(w) =>
      if offset + 4 > |src| then Rejected(offset) else
      var n, start := WordValue(src[offset..offset + 4]), offset + 4;
      if start + n > |src| then Rejected(start)
      else if n * w > |src| - start then Overrun
      else
        TimesGrows(0, n, w);
        Decoded(Values(Cut(src, start, n, w)), start + n * w)
    case List(e) =>
      if offset + 4 > |src| then Rejected(offset)
      else DecodeAll(e, WordValue(src[offset..offset + 4]), src, offset + 4)
    case Record(fs) => DecodeFields(fs, src, offset)
  }

  function DecodeAll(e: Schema, n: nat, src: seq<Byte>, offset: nat): (r: Result)
    ensures r.Decoded? ==> r.value.Values? && |r.value.items| == n
    decreases e, 1 + n
  {
    if n == 0 then Decoded(Values([]), offset)
    else
      var before := DecodeAll(e, n - 1, src, offset);
      if !before.Decoded? then before else
      Extend(before, Decode(e, src, before.offset))
  }

  function DecodeFields(fs: seq<Schema>, src: seq<Byte>, offset: nat): (r: Result)
    ensures r.Decoded? ==> r.value.Values? && |r.value.items| == |fs|
    decreases fs, 0
  {
    if fs == [] then Decoded(Values([]), offset)
    else
      var before := DecodeFields(fs[..|fs| - 1], src, offset);
      if !before.Decoded? then before else
      Extend(before, Decode(fs[|fs| - 1], src, before.offset))
  }

  function Extend(before: Result, next: Result): (r: Result)
    requires before.Decoded? && before.value.Values?
    ensures r.Decoded? <==> next.Decoded?
    ensures r.Decoded? ==> r == Decoded(Values(before.value.items + [next.value]), next.offset)
  {
    if next.Decoded? then Decoded(Values(before.value.items + [next.value]), next.offset) else next
  }

  // ---------- Sizes are right

  /** If the counts fit, a part's size is the number of bytes written for it, modulo 2^32. */
  lemma {:induction false} PartSizeExact(s: Schema, v: Value)
    requires Typed(s, v) && Fits(s, v)
    ensures PartSize(s, v) == Wrap(|Encode(s, v)|)
    decreases s, 0
  {
    hide Wrap;
    match s
    case Number(w) =>
    case Text =>
    case NumberList(w) =>
      TimesGrows(0, |v.items|, w);
      FlatLength(v.items, w);
    case List(e) =>
      SumAllExact(e, v.items);
    case Record(fs) =>
      SumFieldsExact(fs, v.items);
      WrapAdd(0, SumFields(fs, v.items));
  }

  lemma {:induction false} SumAllExact(e: Schema, items: seq<Value>)
    requires forall i :: 0 <= i < |items| ==> Typed(e, items[i]) && Fits(e, items[i])
    ensures SumAll(e, items) == Wrap(4 + |EncodeAll(e, items)|)
    decreases e, 1 + |items|
  {
    hide Wrap, Encode, PartSize, Typed, Fits;
    if items != [] {
      var init, last := items[..|items| - 1], items[|items| - 1];
      SumAllExact(e, init);
      PartSizeExact(e, last);
      WrapAdd(4 + |EncodeAll(e, init)|, Wrap(|Encode(e, last)|));
      WrapAdd(4 + |EncodeAll(e, init)|, |Encode(e, last)|);
    }
  }

  lemma {:induction false} SumFieldsExact(fs: seq<Schema>, items: seq<Value>)
    requires |fs| == |items| && forall i :: 0 <= i < |fs| ==> Typed(fs[i], items[i]) && Fits(fs[i], items[i])
    ensures Wrap(SumFields(fs, items)) == Wrap(|EncodeFields(fs, items)|)
    ensures |EncodeFields(fs, items)| < LIMIT ==> SumFields(fs, items) == |EncodeFields(fs, items)|
    decreases fs, 0
  {
    hide Wrap, Encode, PartSize, Typed, Fits;
    if fs != [] {
      var n := |fs| - 1;
      var a, b := SumFields(fs[..n], items[..n]), PartSize(fs[n], items[n]);
      var c, d := |EncodeFields(fs[..n], items[..n])|, |Encode(fs[n], items[n])|;
      SumFieldsExact(fs[..n], items[..n]);
      PartSizeExact(fs[n], items[n]);
      WrapAdd(a, b);
      WrapAdd(c, b);
      WrapAdd(c, d);
    }
  }

  // ---------- What is written is read back

  lemma WordRoundTrip(n: nat)
    requires n < LIMIT
    ensures WordValue(Word(n)) == n
  {
    hide Weigh;
    DivideTwice(n);
    Remainders(n, n / 256, n / 65536, n / 16777216);
    var b := Word(n);
    assert b[0] == n % 256 && b[1] == n / 256 % 256 && b[2] == n / 65536 % 256 && b[3] == n / 16777216 % 256;
  }

  lemma Remainders(n: nat, q1: nat, q2: nat, q3: nat)
    requires n < LIMIT && q1 == n / 256 && q2 == q1 / 256 && q3 == q2 / 256
    ensures Weigh(n % 256, q1 % 256, q2 % 256, q3 % 256) == n
  {
    Split(n, 256);
    Split(q1, 256);
    Split(q2, 256);
    Split(q3, 256);
    assert q3 < 256 && q3 / 256 == 0;
    Weighed(n % 256, q1 % 256, q2 % 256, q3, n, q1, q2);
  }

  lemma Weighed(a: int, b: int, c: int, d: int, n: int, q1: int, q2: int)
    requires n == 256 * q1 + a && q1 == 256 * q2 + b && q2 == 256 * d + c
    ensures Weigh(a, b, c, d) == n
  {
  }

  lemma WordUnique(b: seq<Byte>)
    requires |b| == 4
    ensures Word(WordValue(b)) == b
  {
    Digits(b[0], b[1], b[2], b[3]);
    var back := Word(WordValue(b));
    assert back[0] == b[0] && back[1] == b[1] && back[2] == b[2] && back[3] == b[3];
  }

  lemma Digits(a: int, b: int, c: int, d: int)
    requires 0 <= a < 256 && 0 <= b < 256 && 0 <= c < 256 && 0 <= d < 256
    ensures var n := Weigh(a, b, c, d);
            n % 256 == a && n / 256 % 256 == b && n / 65536 % 256 == c && n / 16777216 % 256 == d
  {
    var n := Weigh(a, b, c, d);
    assert n / 256 == b + 256 * c + 65536 * d;
    assert n / 65536 == c + 256 * d;
    assert n / 16777216 == d;
  }

  // ---------- What the bytes are, from the first to the last

  /** The lowest byte of a word comes first. */
  lemma WordBytes(a: Byte, b: Byte, c: Byte, d: Byte)
    ensures var n: int := a + 256 * b + 65536 * c + 16777216 * d;
            0 <= n < LIMIT && Word(n) == [a, b, c, d]
  {
    hide Word;
    WordUnique([a, b, c, d]);
  }

  /** A text is its length and then its bytes. */
  lemma TextBytes(v: Value)
    requires Typed(Text, v) && Fits(Text, v)
    ensures Encode(Text, v) == Word(|v.bytes|) + v.bytes
  {
  }

  /** A text whose length 32 bits cannot hold is cut, together with the length, by a multiple of 2^32. */
  lemma TextCut(v: Value) returns (n: nat, times: nat)
    requires Typed(Text, v)
    ensures n < LIMIT && |v.bytes| == n + times * LIMIT
    ensures Encode(Text, v) == Word(n) + v.bytes[..n]
  {
    hide Word;
    n, times := Wrap(|v.bytes|), |v.bytes| / LIMIT;
  }

  /** So is the count of a vector of numbers, and then the size of those numbers once more. */
  lemma NumbersCut(w: Width, items: seq<Value>) returns (n: nat, k: nat, times: nat, over: nat)
    requires Typed(NumberList(w), Values(items))
    ensures n < LIMIT && |items| == n + times * LIMIT
    ensures k < LIMIT && n * w == k + over * LIMIT && k <= |Flat(items)|
    ensures Encode(NumberList(w), Values(items)) == Word(n) + Flat(items)[..k]
  {
    hide Word, Flat, Wrap;
    CutFits(items, w);
    n, times := Wrap(|items|), |items| / LIMIT;
    WrapSplit(|items|);
    k, over := Wrap(n * w), n * w / LIMIT;
    WrapSplit(n * w);
  }

  lemma WrapSplit(n: nat)
    ensures n == Wrap(n) + n / LIMIT * LIMIT
  {
  }

  /** Of a vector of messages only the count is cut: all of them are written. */
  lemma CountCut(e: Schema, items: seq<Value>) returns (n: nat, times: nat)
    requires Typed(List(e), Values(items))
    ensures n < LIMIT && |items| == n + times * LIMIT
    ensures Encode(List(e), Values(items)) == Word(n) + EncodeAll(e, items)
  {
    hide Word, EncodeAll;
    n, times := Wrap(|items|), |items| / LIMIT;
  }

  /** A vector of numbers is their count and then the numbers, the first one first. */
  lemma NumbersFirst(w: Width, items: seq<Value>)
    requires Typed(NumberList(w), Values(items)) && Fits(NumberList(w), Values(items)) && items != []
    ensures Encode(NumberList(w), Values(items)) == Word(|items|) + items[0].bytes + Flat(items[1..])
  {
    hide Wrap, Word;
    NumbersBytes(w, items);
    FlatFirst(items);
  }

  lemma {:induction false} FlatFirst(items: seq<Value>)
    requires items != [] && forall i :: 0 <= i < |items| ==> items[i].Bytes?
    ensures Flat(items) == items[0].bytes + Flat(items[1..])
    decreases |items|
  {
    hide Flat;
    var n := |items| - 1;
    var first := [items[0]];
    FlatNone();
    if n == 0 {
      FlatOneMore([], items[0]);
      assert items == [] + first && items[1..] == [];
    } else {
      var middle, last := items[1..n], items[n];
      FlatFirst(first + middle);
      assert (first + middle)[1..] == middle && items == first + middle + [last] && items[1..] == middle + [last];
      FlatOneMore(first + middle, last);
      FlatOneMore(middle, last);
    }
  }

  /** A vector of messages is their count and then the messages, the first one first. */
  lemma {:induction false} AllFirst(e: Schema, items: seq<Value>)
    requires items != [] && forall i :: 0 <= i < |items| ==> Typed(e, items[i])
    ensures EncodeAll(e, items) == Encode(e, items[0]) + EncodeAll(e, items[1..])
    decreases |items|
  {
    hide Encode, EncodeAll, Typed;
    var n := |items| - 1;
    var first := [items[0]];
    NoneWritten(e);
    if n == 0 {
      OneMoreWritten(e, [], items[0]);
      assert items == [] + first && items[1..] == [];
    } else {
      var middle, last := items[1..n], items[n];
      AllFirst(e, first + middle);
      assert (first + middle)[1..] == middle && items == first + middle + [last] && items[1..] == middle + [last];
      OneMoreWritten(e, first + middle, last);
      OneMoreWritten(e, middle, last);
    }
  }

  lemma NoneWritten(e: Schema)
    ensures EncodeAll(e, []) == []
  {
  }

  lemma OneMoreWritten(e: Schema, items: seq<Value>, last: Value)
    requires Typed(e, last) && forall i :: 0 <= i < |items| ==> Typed(e, items[i])
    ensures EncodeAll(e, items + [last]) == EncodeAll(e, items) + Encode(e, last)
  {
    hide Encode, Typed;
    assert (items + [last])[..|items|] == items;
  }

  /** A message is its fields, the first one first. */
  lemma {:induction false} FieldsFirst(fs: seq<Schema>, items: seq<Value>)
    requires fs != [] && |fs| == |items| && forall i :: 0 <= i < |fs| ==> Typed(fs[i], items[i])
    ensures EncodeFields(fs, items) == Encode(fs[0], items[0]) + EncodeFields(fs[1..], items[1..])
  {
    hide Encode, Typed;
    var n := |fs| - 1;
    if n > 0 {
      FieldsFirst(fs[..n], items[..n]);
      assert items[..n][1..] == items[1..][..n - 1] && fs[..n][1..] == fs[1..][..n - 1];
    }
  }

  // ---------- Reading finds what was written

  /** Numbers cut from where they stand side by side are those numbers. */
  lemma {:induction false} CutFlat(src: seq<Byte>, start: nat, items: seq<Value>, w: nat)
    requires forall i :: 0 <= i < |items| ==> items[i].Bytes? && |items[i].bytes| == w
    requires Holds(src, start, Flat(items))
    ensures |Flat(items)| == |items| * w && Cut(src, start, |items|, w) == items
  {
    hide Flat, Cut;
    FlatLength(items, w);
    if items == [] {
      CutNone(src, start, w);
    } else {
      var k := |items| - 1;
      var init, last := items[..k], items[k];
      assert init + [last] == items;
      FlatLength(init, w);
      FlatOneMore(init, last);
      HoldsSplit(src, start, Flat(init), last.bytes);
      CutFlat(src, start, init, w);
      CutOneMore(src, start, |items|, w);
    }
  }

  lemma CutNone(src: seq<Byte>, start: nat, w: nat)
    requires start <= |src|
    ensures 0 * w == 0 && Cut(src, start, 0, w) == []
  {
  }

  lemma CutOneMore(src: seq<Byte>, start: nat, n: nat, w: nat)
    requires 0 < n && n * w >= 0 && start + n * w <= |src|
    ensures var k := n - 1;
            && 0 <= k * w && n * w == k * w + w
            && Cut(src, start, n, w) == Cut(src, start, k, w) + [Bytes(src[start + k * w..start + k * w + w])]
  {
    OnceMore(n, w);
    TimesGrows(0, n - 1, w);
  }

  lemma {:induction false} FlatCut(src: seq<Byte>, start: nat, n: nat, w: nat)
    requires n * w >= 0 && start + n * w <= |src|
    ensures Flat(Cut(src, start, n, w)) == src[start..start + n * w]
  {
    hide Flat;
    if n == 0 {
      FlatNone();
    } else {
      var k := n - 1;
      OnceMore(n, w);
      TimesGrows(0, k, w);
      FlatCut(src, start, k, w);
      var before, last := Cut(src, start, k, w), src[start + k * w..start + k * w + w];
      FlatOneMore(before, Bytes(last));
      Joins(src, start, start + k * w, start + k * w + w);
    }
  }

  lemma FlatNone()
    ensures Flat([]) == []
  {
  }

  lemma FlatOneMore(items: seq<Value>, last: Value)
    requires last.Bytes? && forall i :: 0 <= i < |items| ==> items[i].Bytes?
    ensures Flat(items + [last]) == Flat(items) + last.bytes
  {
    assert (items + [last])[..|items|] == items;
  }

  lemma Joins(src: seq<Byte>, a: nat, b: nat, c: nat)
    requires a <= b <= c <= |src|
    ensures src[a..b] + src[b..c] == src[a..c]
  {
  }

  /** The bytes of a value stand at an offset of the input. */
  predicate Holds(src: seq<Byte>, offset: nat, bytes: seq<Byte>) {
    offset + |bytes| <= |src| && src[offset..offset + |bytes|] == bytes
  }

  lemma HoldsSplit(src: seq<Byte>, offset: nat, a: seq<Byte>, b: seq<Byte>)
    ensures Holds(src, offset, a + b) <==> Holds(src, offset, a) && Holds(src, offset + |a|, b)
  {
    if Holds(src, offset, a + b) {
      assert src[offset..offset + |a|] == (a + b)[..|a|] == a;
      assert src[offset + |a|..offset + |a| + |b|] == (a + b)[|a|..] == b;
    }
    if Holds(src, offset, a) && Holds(src, offset + |a|, b) {
      assert src[offset..offset + |a| + |b|] == src[offset..offset + |a|] + src[offset + |a|..offset + |a| + |b|];
    }
  }

  /** Wherever the encoding of a value stands in an input, decoding there gives the value and the end. */
  lemma {:induction false} RoundTrip(s: Schema, v: Value, src: seq<Byte>, offset: nat)
    requires Typed(s, v) && Fits(s, v) && Holds(src, offset, Encode(s, v))
    ensures Decode(s, src, offset) == Decoded(v, offset + |Encode(s, v)|)
    decreases s, 0
  {
    hide Word, WordValue, Wrap, Cut, Flat, EncodeAll, EncodeFields, DecodeAll, DecodeFields;
    match s
    case Number(w) =>
    case Text =>
      WordThen(src, offset, |v.bytes|, v.bytes);
    case NumberList(w) =>
      NumbersBytes(w, v.items);
      WordThen(src, offset, |v.items|, Flat(v.items));
      CutFlat(src, offset + 4, v.items, w);
    case List(e) =>
      WordThen(src, offset, |v.items|, EncodeAll(e, v.items));
      RoundTripAll(e, v.items, src, offset + 4);
    case Record(fs) =>
      RoundTripFields(fs, v.items, src, offset);
  }

  /** A vector of numbers that fits is written whole: its count, and every number. */
  lemma NumbersBytes(w: Width, items: seq<Value>)
    requires Typed(NumberList(w), Values(items)) && Fits(NumberList(w), Values(items))
    ensures Encode(NumberList(w), Values(items)) == Word(Wrap(|items|)) + Flat(items)
    ensures |items| <= |items| * w == |Flat(items)|
  {
    hide Word, Wrap, Flat;
    TimesGrows(0, |items|, w);
    FlatLength(items, w);
    WrapSmall(|items|);
    WrapSmall(|items| * w);
    TimesGrows(1, w, |items|);
    assert Flat(items)[..|Flat(items)|] == Flat(items);
  }

  lemma WrapSmall(n: nat)
    requires n < LIMIT
    ensures Wrap(n) == n
  {
  }

  /** A length and then what it is the length of. */
  lemma WordThen(src: seq<Byte>, offset: nat, n: nat, rest: seq<Byte>)
    requires n < LIMIT && Holds(src, offset, Word(Wrap(n)) + rest)
    ensures Wrap(n) == n && offset + 4 + |rest| <= |src|
    ensures WordValue(src[offset..offset + 4]) == n && Holds(src, offset + 4, rest)
  {
    hide Word, WordValue;
    HoldsSplit(src, offset, Word(Wrap(n)), rest);
    WordRoundTrip(n);
  }

  lemma {:induction false} RoundTripAll(e: Schema, items: seq<Value>, src: seq<Byte>, offset: nat)
    requires forall i :: 0 <= i < |items| ==> Typed(e, items[i]) && Fits(e, items[i])
    requires Holds(src, offset, EncodeAll(e, items))
    ensures DecodeAll(e, |items|, src, offset) == Decoded(Values(items), offset + |EncodeAll(e, items)|)
    decreases e, 1 + |items|
  {
    hide Encode, Decode, Typed, Fits, Holds, Extend, EncodeAll, DecodeAll;
    if items == [] {
      AllNone(e, src, offset);
    } else {
      var init, last := items[..|items| - 1], items[|items| - 1];
      AllOneMore(e, init, last, src, offset);
      assert items == init + [last];
      HoldsSplit(src, offset, EncodeAll(e, init), Encode(e, last));
      RoundTripAll(e, init, src, offset);
      RoundTrip(e, last, src, offset + |EncodeAll(e, init)|);
    }
  }

  lemma AllNone(e: Schema, src: seq<Byte>, offset: nat)
    ensures EncodeAll(e, []) == [] && DecodeAll(e, 0, src, offset) == Decoded(Values([]), offset)
  {
  }

  lemma AllOneMore(e: Schema, init: seq<Value>, last: Value, src: seq<Byte>, offset: nat)
    requires (forall i :: 0 <= i < |init| ==> Typed(e, init[i])) && Typed(e, last)
    ensures EncodeAll(e, init + [last]) == EncodeAll(e, init) + Encode(e, last)
    ensures var before := DecodeAll(e, |init|, src, offset);
            before.Decoded? && Decode(e, src, before.offset).Decoded? ==>
              DecodeAll(e, |init| + 1, src, offset)
              == Decoded(Values(before.value.items + [Decode(e, src, before.offset).value]),
                         Decode(e, src, before.offset).offset)
  {
    hide Encode, Decode, Typed;
    assert (init + [last])[..|init|] == init;
  }

  lemma {:induction false} RoundTripFields(fs: seq<Schema>, items: seq<Value>, src: seq<Byte>, offset: nat)
    requires |fs| == |items| && forall i :: 0 <= i < |fs| ==> Typed(fs[i], items[i]) && Fits(fs[i], items[i])
    requires Holds(src, offset, EncodeFields(fs, items))
    ensures DecodeFields(fs, src, offset) == Decoded(Values(items), offset + |EncodeFields(fs, items)|)
    decreases fs, 0
  {
    hide Encode, Decode, Typed, Fits, Holds, Extend, EncodeFields, DecodeFields;
    if fs == [] {
      FieldsNone(src, offset);
    } else {
      var n := |fs| - 1;
      FieldsOneMore(fs, items, src, offset);
      HoldsSplit(src, offset, EncodeFields(fs[..n], items[..n]), Encode(fs[n], items[n]));
      RoundTripFields(fs[..n], items[..n], src, offset);
      RoundTrip(fs[n], items[n], src, offset + |EncodeFields(fs[..n], items[..n])|);
      assert items[..n] + [items[n]] == items;
    }
  }

  lemma FieldsNone(src: seq<Byte>, offset: nat)
    ensures EncodeFields([], []) == [] && DecodeFields([], src, offset) == Decoded(Values([]), offset)
  {
  }

  lemma FieldsOneMore(fs: seq<Schema>, items: seq<Value>, src: seq<Byte>, offset: nat)
    requires |fs| == |items| > 0 && forall i :: 0 <= i < |fs| ==> Typed(fs[i], items[i])
    ensures var n := |fs| - 1;
            EncodeFields(fs, items) == EncodeFields(fs[..n], items[..n]) + Encode(fs[n], items[n])
    ensures var n := |fs| - 1;
            var before := DecodeFields(fs[..n], src, offset);
            before.Decoded? && Decode(fs[n], src, before.offset).Decoded? ==>
              DecodeFields(fs, src, offset)
              == Decoded(Values(before.value.items + [Decode(fs[n], src, before.offset).value]),
                         Decode(fs[n], src, before.offset).offset)
  {
    hide Encode, Decode, Typed;
  }

  // ---------- What is read was written

  /**
   Whatever the input, a success stays inside it, gives a well-shaped value whose counts fit, and has consumed
   exactly the bytes that writing the value again would produce.
   */
  lemma {:induction false} Canonical(s: Schema, src: seq<Byte>, offset: nat)
    requires offset <= |src| < LIMIT && Decode(s, src, offset).Decoded?
    ensures var Decoded(v, end) := Decode(s, src, offset);
            && offset <= end <= |src| && Typed(s, v) && Fits(s, v)
            && src[offset..end] == Encode(s, v)
    decreases s, 0
  {
    hide Word, WordValue, Wrap, Cut, Flat, EncodeAll, EncodeFields, DecodeAll, DecodeFields;
    match s
    case Number(w) =>
    case Text =>
      var n := WordValue(src[offset..offset + 4]);
      WordRead(src, offset, n, offset + 4 + n);
    case NumberList(w) =>
      var n := WordValue(src[offset..offset + 4]);
      TimesGrows(0, n, w);
      WordRead(src, offset, n, offset + 4 + n * w);
      FlatCut(src, offset + 4, n, w);
      WrapSmall(n * w);
    case List(e) =>
      var n := WordValue(src[offset..offset + 4]);
      CanonicalAll(e, n, src, offset + 4);
      WordRead(src, offset, n, Decode(s, src, offset).offset);
    case Record(fs) =>
      CanonicalFields(fs, src, offset);
  }

  lemma WordRead(src: seq<Byte>, offset: nat, n: nat, end: nat)
    requires offset + 4 <= end <= |src| && n == WordValue(src[offset..offset + 4])
    ensures Wrap(n) == n && n < LIMIT
    ensures src[offset..end] == Word(Wrap(n)) + src[offset + 4..end]
  {
    WordUnique(src[offset..offset + 4]);
    hide Word, WordValue;
    Joins(src, offset, offset + 4, end);
  }

  lemma {:induction false} CanonicalAll(e: Schema, n: nat, src: seq<Byte>, offset: nat)
    requires offset <= |src| < LIMIT && DecodeAll(e, n, src, offset).Decoded?
    ensures var Decoded(v, end) := DecodeAll(e, n, src, offset);
            && offset <= end <= |src|
            && (forall i :: 0 <= i < n ==> Typed(e, v.items[i]) && Fits(e, v.items[i]))
            && src[offset..end] == EncodeAll(e, v.items)
    decreases e, 1 + n
  {
    hide Encode, Decode, Typed, Fits, EncodeAll, DecodeAll;
    if n == 0 {
      AllNone(e, src, offset);
    } else {
      LastDecoded(e, n, src, offset);
      CanonicalAll(e, n - 1, src, offset);
      var before := DecodeAll(e, n - 1, src, offset);
      Canonical(e, src, before.offset);
      var next := Decode(e, src, before.offset);
      AllOneMore(e, before.value.items, next.value, src, offset);
      Joins(src, offset, before.offset, next.offset);
    }
  }

  /** A vector is decoded when its first elements are and the last one is too. */
  lemma LastDecoded(e: Schema, n: nat, src: seq<Byte>, offset: nat)
    requires n > 0 && DecodeAll(e, n, src, offset).Decoded?
    ensures var before := DecodeAll(e, n - 1, src, offset);
            && before.Decoded? && Decode(e, src, before.offset).Decoded?
            && var next := Decode(e, src, before.offset);
               DecodeAll(e, n, src, offset) == Decoded(Values(before.value.items + [next.value]), next.offset)
  {
    hide Decode;
  }

  lemma {:induction false} CanonicalFields(fs: seq<Schema>, src: seq<Byte>, offset: nat)
    requires offset <= |src| < LIMIT && DecodeFields(fs, src, offset).Decoded?
    ensures var Decoded(v, end) := DecodeFields(fs, src, offset);
            && offset <= end <= |src|
            && (forall i :: 0 <= i < |fs| ==> Typed(fs[i], v.items[i]) && Fits(fs[i], v.items[i]))
            && src[offset..end] == EncodeFields(fs, v.items)
    decreases fs, 0
  {
    hide Encode, Decode, Typed, Fits, EncodeFields, DecodeFields;
    if fs == [] {
      FieldsNone(src, offset);
    } else {
      var n := |fs| - 1;
      LastFieldDecoded(fs, src, offset);
      CanonicalFields(fs[..n], src, offset);
      var before := DecodeFields(fs[..n], src, offset);
      Canonical(fs[n], src, before.offset);
      var next := Decode(fs[n], src, before.offset);
      var items := before.value.items + [next.value];
      assert items[..n] == before.value.items && items[n] == next.value;
      FieldsOneMore(fs, items, src, offset);
      Joins(src, offset, before.offset, next.offset);
    }
  }

  lemma LastFieldDecoded(fs: seq<Schema>, src: seq<Byte>, offset: nat)
    requires fs != [] && DecodeFields(fs, src, offset).Decoded?
    ensures var n := |fs| - 1;
            var before := DecodeFields(fs[..n], src, offset);
            && before.Decoded? && Decode(fs[n], src, before.offset).Decoded?
            && var next := Decode(fs[n], src, before.offset);
               DecodeFields(fs, src, offset) == Decoded(Values(before.value.items + [next.value]), next.offset)
  {
    hide Decode;
  }

  /** No encoding is cut short and still read: every strict prefix fails. */
  lemma PrefixFails(s: Schema, v: Value, k: nat)
    requires Typed(s, v) && Fits(s, v) && k < |Encode(s, v)| < LIMIT
    ensures !Decode(s, Encode(s, v)[..k], 0).Decoded?
  {
    var all := Encode(s, v);
    var cut := all[..k];
    RoundTrip(s, v, all, 0);
    if Decode(s, cut, 0).Decoded? {
      Canonical(s, cut, 0);
      var Decoded(w, end) := Decode(s, cut, 0);
      assert all[0..end] == cut[0..end];
      RoundTrip(s, w, all, 0);
    }
  }

  /** Two values of one schema never share an encoding. */
  lemma EncodingUnique(s: Schema, v: Value, w: Value)
    requires Typed(s, v) && Fits(s, v) && Typed(s, w) && Fits(s, w) && Encode(s, v) == Encode(s, w)
    ensures v == w
  {
    RoundTrip(s, v, Encode(s, v), 0);
    RoundTrip(s, w, Encode(s, v), 0);
  }

  // ---------- Which reads stay inside the input

  /** No vector of numbers wider than a byte. */
  predicate BytesChecked(s: Schema)
    decreases s
  {
    match s
    case NumberList(w) => w <= 1
    case List(e) => BytesChecked(e)
    case Record(fs) => forall i :: 0 <= i < |fs| ==> BytesChecked(fs[i])
    case _ => true
  }

  /** One vector of numbers overruns exactly when its numbers, but not its bytes, pass the check. */
  /** A number is rejected where it starts, a text or a vector of numbers there or behind its length: the rest is
      missing. */
  lemma RejectedAt(s: Schema, src: seq<Byte>, offset: nat, end: nat)
    requires s.Number? || s.Text? || s.NumberList?
    ensures Decode(s, src, offset) == Rejected(end) <==>
              if s.Number? then end == offset && offset + s.width > |src|
              else if offset + 4 > |src| then end == offset
              else end == offset + 4 && end + WordValue(src[offset..offset + 4]) > |src|
  {
    hide WordValue;
  }

  /** Elements are rejected where the first of them is that cannot be read. */
  lemma {:induction false} AllRejectedAt(e: Schema, n: nat, src: seq<Byte>, offset: nat, end: nat)
    ensures DecodeAll(e, n, src, offset) == Rejected(end) <==>
              exists k: nat :: k < n && FailsAfter(DecodeAll(e, k, src, offset), e, src, end)
  {
    hide Decode;
    if n > 0 {
      AllRejectedAt(e, n - 1, src, offset, end);
      if k: nat :| k < n && FailsAfter(DecodeAll(e, k, src, offset), e, src, end) {
        StaysFailed(e, k, n, src, offset);
      }
    }
  }

  /** All before it was read, and the next element is rejected there. */
  ghost predicate FailsAfter(before: Result, e: Schema, src: seq<Byte>, end: nat) {
    before.Decoded? && Decode(e, src, before.offset) == Rejected(end)
  }

  lemma {:induction false} StaysFailed(e: Schema, k: nat, n: nat, src: seq<Byte>, offset: nat)
    requires k < n && DecodeAll(e, k, src, offset).Decoded?
    requires Decode(e, src, DecodeAll(e, k, src, offset).offset).Rejected?
    ensures DecodeAll(e, n, src, offset) == Decode(e, src, DecodeAll(e, k, src, offset).offset)
  {
    hide Decode;
    if k < n - 1 {
      StaysFailed(e, k, n - 1, src, offset);
    }
  }

  /** So are the fields of a message. */
  lemma {:induction false} FieldsRejectedAt(fs: seq<Schema>, src: seq<Byte>, offset: nat, end: nat)
    ensures DecodeFields(fs, src, offset) == Rejected(end) <==>
              exists k: nat :: k < |fs| && FailsAfter(DecodeFields(fs[..k], src, offset), fs[k], src, end)
  {
    hide Decode;
    if fs != [] {
      var init := fs[..|fs| - 1];
      FieldsRejectedAt(init, src, offset, end);
      assert forall k: nat | k <= |init| :: init[..k] == fs[..k];
      if k: nat :| k < |fs| && FailsAfter(DecodeFields(fs[..k], src, offset), fs[k], src, end) {
        FieldsStayFailed(fs, k, src, offset);
      }
    }
  }

  lemma {:induction false} FieldsStayFailed(fs: seq<Schema>, k: nat, src: seq<Byte>, offset: nat)
    requires k < |fs| && DecodeFields(fs[..k], src, offset).Decoded?
    requires Decode(fs[k], src, DecodeFields(fs[..k], src, offset).offset).Rejected?
    ensures DecodeFields(fs, src, offset) == Decode(fs[k], src, DecodeFields(fs[..k], src, offset).offset)
  {
    hide Decode;
    if k < |fs| - 1 {
      assert fs[..|fs| - 1][..k] == fs[..k];
      FieldsStayFailed(fs[..|fs| - 1], k, src, offset);
    }
  }

  lemma NumberListOverrunsIff(w: Width, src: seq<Byte>, offset: nat)
    ensures Decode(NumberList(w), src, offset) == Overrun
            <==> offset + 4 <= |src| &&
                 var n := WordValue(src[offset..offset + 4]);
                 offset + 4 + n <= |src| && n * w > |src| - (offset + 4)
  {
  }

  /** A schema without such vectors never overruns, whatever the input. */
  lemma {:induction false} NeverOverruns(s: Schema, src: seq<Byte>, offset: nat)
    requires BytesChecked(s)
    ensures Decode(s, src, offset) != Overrun
    decreases s, 0
  {
    match s
    case Number(w) =>
    case Text =>
    case NumberList(w) =>
      NumberListOverrunsIff(w, src, offset);
      if offset + 4 <= |src| {
        TimesGrows(0, WordValue(src[offset..offset + 4]), w);
      }
    case List(e) =>
      if offset + 4 <= |src| {
        NeverOverrunsAll(e, WordValue(src[offset..offset + 4]), src, offset + 4);
      }
    case Record(fs) =>
      NeverOverrunsFields(fs, src, offset);
  }

  lemma {:induction false} NeverOverrunsAll(e: Schema, n: nat, src: seq<Byte>, offset: nat)
    requires BytesChecked(e)
    ensures DecodeAll(e, n, src, offset) != Overrun
    decreases e, 1 + n
  {
    if n > 0 {
      NeverOverrunsAll(e, n - 1, src, offset);
      var before := DecodeAll(e, n - 1, src, offset);
      if before.Decoded? {
        NeverOverruns(e, src, before.offset);
      }
    }
  }

  lemma {:induction false} NeverOverrunsFields(fs: seq<Schema>, src: seq<Byte>, offset: nat)
    requires forall i :: 0 <= i < |fs| ==> BytesChecked(fs[i])
    ensures DecodeFields(fs, src, offset) != Overrun
    decreases fs, 0
  {
    if fs != [] {
      var n := |fs| - 1;
      NeverOverrunsFields(fs[..n], src, offset);
      var before := DecodeFields(fs[..n], src, offset);
      if before.Decoded? {
        NeverOverruns(fs[n], src, before.offset);
      }
    }
  }

  // ---------- And which do not

  /** The least value of a schema: numbers are 0, and texts and vectors are empty. */
  function Blank(s: Schema): (v: Value)
    ensures Typed(s, v) && Fits(s, v)
    decreases s, 0
  {
    match s
    case Number(w) => Bytes(seq(w, _ => 0))
    case Text => Bytes([])
    case NumberList(w) => Values([])
    case List(e) => Values([])
    case Record(fs) => Values(Blanks(fs))
  }

  function Blanks(fs: seq<Schema>): (items: seq<Value>)
    ensures |items| == |fs| && forall i :: 0 <= i < |fs| ==> Typed(fs[i], items[i]) && Fits(fs[i], items[i])
    decreases fs, 0
  {
    if fs == [] then [] else Blanks(fs[..|fs| - 1]) + [Blank(fs[|fs| - 1])]
  }

  /** An input that overruns: blank fields, down to a vector that announces one number and holds one byte. */
  ghost function OverrunInput(s: Schema): seq<Byte>
    requires !BytesChecked(s)
    decreases s, 0
  {
    match s
    case NumberList(w) => Word(1) + [0]
    case List(e) => Word(1) + OverrunInput(e)
    case Record(fs) => OverrunFields(fs)
  }

  ghost function OverrunFields(fs: seq<Schema>): seq<Byte>
    requires exists i :: 0 <= i < |fs| && !BytesChecked(fs[i])
    decreases fs, 0
  {
    var init, last := fs[..|fs| - 1], fs[|fs| - 1];
    if exists i :: 0 <= i < |init| && !BytesChecked(init[i]) then OverrunFields(init)
    else
      assert forall i :: 0 <= i < |init| ==> init[i] == fs[i];
      EncodeFields(init, Blanks(init)) + OverrunInput(last)
  }

  lemma {:induction false} Overruns(s: Schema, src: seq<Byte>, offset: nat)
    requires !BytesChecked(s) && offset <= |src| && src[offset..] == OverrunInput(s)
    ensures Decode(s, src, offset) == Overrun
    decreases s, 0
  {
    hide Word, WordValue, EncodeFields, DecodeFields, OverrunFields;
    match s
    case NumberList(w) =>
      OneAnnounced(src, offset, [0]);
      NumberListOverrunsIff(w, src, offset);
    case List(e) =>
      OneAnnounced(src, offset, OverrunInput(e));
      Overruns(e, src, offset + 4);
      assert DecodeAll(e, 0, src, offset + 4) == Decoded(Values([]), offset + 4);
      assert DecodeAll(e, 1, src, offset + 4) == Overrun;
    case Record(fs) =>
      OverrunsFields(fs, src, offset);
  }

  lemma OneAnnounced(src: seq<Byte>, offset: nat, rest: seq<Byte>)
    requires offset <= |src| && src[offset..] == Word(1) + rest
    ensures offset + 4 + |rest| == |src| && src[offset + 4..] == rest
    ensures WordValue(src[offset..offset + 4]) == 1
  {
    hide Word, WordValue;
    WordRoundTrip(1);
    assert src[offset..offset + 4] == src[offset..][..4];
    assert src[offset + 4..] == src[offset..][4..];
  }

  lemma {:induction false} OverrunsFields(fs: seq<Schema>, src: seq<Byte>, offset: nat)
    requires exists i :: 0 <= i < |fs| && !BytesChecked(fs[i])
    requires offset <= |src| && src[offset..] == OverrunFields(fs)
    ensures DecodeFields(fs, src, offset) == Overrun
    decreases fs, 0
  {
    hide Encode, Decode, BytesChecked, Blanks;
    var init, last := fs[..|fs| - 1], fs[|fs| - 1];
    if exists i :: 0 <= i < |init| && !BytesChecked(init[i]) {
      OverrunsFields(init, src, offset);
    } else {
      assert forall i :: 0 <= i < |init| ==> init[i] == fs[i];
      var blank := EncodeFields(init, Blanks(init));
      Prefixed(src, offset, blank, OverrunInput(last));
      RoundTripFields(init, Blanks(init), src, offset);
      Overruns(last, src, offset + |blank|);
    }
  }

  lemma Prefixed(src: seq<Byte>, offset: nat, a: seq<Byte>, b: seq<Byte>)
    requires offset <= |src| && src[offset..] == a + b
    ensures offset + |a| <= |src| && Holds(src, offset, a) && src[offset + |a|..] == b
  {
    assert src[offset..offset + |a|] == src[offset..][..|a|];
    assert src[offset + |a|..] == src[offset..][|a|..];
  }

  /** A schema is read inside every input exactly when it has no vector of numbers wider than a byte. */
  lemma OverrunsIff(s: Schema)
    ensures (forall src, offset :: Decode(s, src, offset) != Overrun) <==> BytesChecked(s)
  {
    hide Decode, BytesChecked, OverrunInput;
    if BytesChecked(s) {
      forall src, offset ensures Decode(s, src, offset) != Overrun {
        NeverOverruns(s, src, offset);
      }
    } else {
      var src := OverrunInput(s);
      assert src[0..] == src;
      Overruns(s, src, 0);
    }
  }
}
