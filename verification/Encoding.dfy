/** The bytes `poc_parcel_write_variant` leaves for a value, written as one function of the
    value, and the size and alignment of those bytes. */
module Encoding {
  import opened Bytes
  import opened Variants
  import opened Bundles
  import opened Vardict
  import opened BundleFormat

  /** The raw memory of a byte array. */
  function RawBytes(vs: seq<Variant>): (r: Bytes)
    ensures |r| == |vs|
  {
    seq(|vs|, i requires 0 <= i < |vs| => Num(vs[i]) % 256)
  }

  /** Dictionaries are a flag and a bundle, byte arrays a blob, every other array a count
      and its children in order; the classes the writer only warns about write nothing. */
  function Encode(v: Variant): Bytes
    decreases v
  {
    match v
    case Bool(b) => BoolWord(b)
    case Byte(n) => Int32(Wrap8(n))
    case I32(n) => Int32(n)
    case U32(n) => Int32(n)
    case I64(n) => Int64(n)
    case U64(n) => Int64(n)
    case Double(bits) => Int64(bits)
    case Str(s) => Blob(s)
    case Arr(elem, children) =>
      if elem.TEntry? then Int32(1) + EncodeBundle(BundleOf(children))
      else if elem.TByte? then Blob(RawBytes(children))
      else Int32(|children|) + EncodeAll(children)
    case _ => []
  }

  function EncodeAll(vs: seq<Variant>): Bytes
    decreases vs
  {
    if vs == [] then [] else Encode(vs[0]) + EncodeAll(vs[1..])
  }

  lemma {:induction false} EncodeAllSnoc(vs: seq<Variant>, v: Variant)
    ensures EncodeAll(vs + [v]) == EncodeAll(vs) + Encode(v)
  {
    hide Encode;
    if vs == [] {
      assert [v][1..] == [] && [] + [v] == [v];
    } else {
      EncodeAllSnoc(vs[1..], v);
      assert (vs + [v])[1..] == vs[1..] + [v];
    }
  }

  /** The types whose values the writer really writes: basic types other than the 16-bit
      ones, `a{sv}`, and arrays of handled types. */
  predicate Handled(t: Ty) {
    match t
    case TArray(e) => e.TEntry? || Handled(e)
    case _ => (IsNumeric(t) && !t.TInt16? && !t.TUint16?) || t.TString?
  }

  /** Every count fits the int32 it is written in. */
  predicate Fits(v: Variant)
    decreases v
  {
    match v
    case Str(s) => |s| < TWO_31
    case Arr(elem, children) =>
      if elem.TEntry? then |EncodeBundle(BundleOf(children))| < TWO_31
      else |children| < TWO_31 && FitsAll(children)
    case _ => true
  }

  predicate FitsAll(vs: seq<Variant>)
    decreases vs
  {
    forall i | 0 <= i < |vs| :: Fits(vs[i])
  }

  // ----- sizes, in 4-byte words

  function BlobWords(n: nat): nat {
    1 + (n + 3) / 4
  }

  function BlobsWords(ss: seq<Text>): nat {
    if ss == [] then 0 else BlobWords(|ss[0]|) + BlobsWords(ss[1..])
  }

  function ValueWords(x: BundleValue): nat
    decreases x
  {
    match x
    case PBool(_) => 2
    case PInt(_) => 2
    case PDouble(_) => 3
    case PString(s) => 1 + BlobWords(|s|)
    case PBoolVec(bs) => 2 + |bs|
    case PIntVec(ns) => 2 + |ns|
    case PLongVec(ns) => 2 + 2 * |ns|
    case PDoubleVec(ns) => 2 + 2 * |ns|
    case PStringVec(ss) => 2 + BlobsWords(ss)
    case PBundle(slots) => 2 + SlotsWords(slots)
  }

  function SlotsWords(slots: seq<Slot>): nat
    decreases slots
  {
    if slots == [] then 0
    else BlobWords(|slots[0].key|) + ValueWords(slots[0].value) + SlotsWords(slots[1..])
  }

  function WordCount(v: Variant): nat
    decreases v
  {
    match v
    case Bool(_) => 1
    case Byte(_) => 1
    case I32(_) => 1
    case U32(_) => 1
    case I64(_) => 2
    case U64(_) => 2
    case Double(_) => 2
    case Str(s) => BlobWords(|s|)
    case Arr(elem, children) =>
      if elem.TEntry? then 2 + SlotsWords(BundleOf(children))
      else if elem.TByte? then BlobWords(|children|)
      else 1 + WordCountAll(children)
    case _ => 0
  }

  function WordCountAll(vs: seq<Variant>): nat
    decreases vs
  {
    if vs == [] then 0 else WordCount(vs[0]) + WordCountAll(vs[1..])
  }

  lemma BlobSize(bs: Bytes)
    ensures |Blob(bs)| == 4 * BlobWords(|bs|)
  {
  }

  lemma {:induction false} BlobsSize(ss: seq<Text>)
    ensures |Blobs(ss)| == 4 * BlobsWords(ss)
  {
    hide Blob, BlobWords;
    if ss == [] {
    } else {
      BlobSize(ss[0]);
      BlobsSize(ss[1..]);
    }
  }

  lemma {:induction false} ValueSize(x: BundleValue)
    ensures |EncodeValue(x)| == 4 * ValueWords(x)
    decreases x
  {
    hide Blob, BlobWords, Int32, Int64;
    match x
    case PString(s) => BlobSize(s);
    case PStringVec(ss) => BlobsSize(ss);
    case PBundle(slots) =>
      SlotsSize(slots);
      assert EncodePayload(x) == EncodeBundle(slots);
    case _ =>
  }

  lemma {:induction false} SlotsSize(slots: seq<Slot>)
    ensures |EncodeSlots(slots)| == 4 * SlotsWords(slots)
    decreases slots
  {
    hide Blob, BlobWords, EncodeValue, ValueWords;
    if slots == [] {
    } else {
      BlobSize(slots[0].key);
      ValueSize(slots[0].value);
      SlotsSize(slots[1..]);
    }
  }

  /** `WordCount` predicts the size of what is written, for every value of every type; in
      particular no value disturbs the word alignment. */
  lemma {:induction false} SizeExact(v: Variant)
    ensures |Encode(v)| == 4 * WordCount(v)
    decreases v
  {
    hide Blob, BlobWords, Int32, Int64;
    match v
    case Str(s) => BlobSize(s);
    case Arr(elem, children) =>
      if elem.TEntry? {
        SlotsSize(BundleOf(children));
      } else if elem.TByte? {
        BlobSize(RawBytes(children));
      } else {
        SizeAllExact(children);
      }
    case _ =>
  }

  lemma {:induction false} SizeAllExact(vs: seq<Variant>)
    ensures |EncodeAll(vs)| == 4 * WordCountAll(vs)
    decreases vs
  {
    hide Encode, WordCount;
    if vs == [] {
    } else {
      SizeExact(vs[0]);
      SizeAllExact(vs[1..]);
    }
  }

  /** A handled value takes at least one word, so a count never exceeds the bytes it counts. */
  lemma HandledTakesSpace(v: Variant)
    requires Handled(TypeOf(v))
    ensures |Encode(v)| >= 4
  {
    hide Int32, Int64, Blob, EncodeBundle, EncodeAll;
  }

  lemma {:induction false} CountBoundedBySize(vs: seq<Variant>, t: Ty)
    requires Handled(t) && AllOfType(vs, t)
    ensures |EncodeAll(vs)| >= 4 * |vs|
  {
    hide Encode;
    if vs == [] {
    } else {
      HandledTakesSpace(vs[0]);
      CountBoundedBySize(vs[1..], t);
    }
  }
}
