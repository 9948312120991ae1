/** The wire form of a persistable bundle, a self-delimiting map, and its reader. */
module BundleFormat {
  import opened Bytes
  import opened Variants
  import opened Bundles

  function EncodeBundle(slots: seq<Slot>): (bs: Bytes)
    ensures |bs| >= 4
    decreases slots, 1
  {
    Int32(|slots|) + EncodeSlots(slots)
  }

  function EncodeSlots(slots: seq<Slot>): Bytes
    decreases slots, 0
  {
    if slots == [] then []
    else Blob(slots[0].key) + EncodeValue(slots[0].value) + EncodeSlots(slots[1..])
  }

  function Tag(x: BundleValue): nat {
    match x
    case PBool(_) => 0
    case PInt(_) => 1
    case PDouble(_) => 2
    case PString(_) => 3
    case PBoolVec(_) => 4
    case PIntVec(_) => 5
    case PLongVec(_) => 6
    case PDoubleVec(_) => 7
    case PStringVec(_) => 8
    case PBundle(_) => 9
  }

  function EncodeValue(x: BundleValue): (bs: Bytes)
    ensures |bs| >= 4
    decreases x
  {
    Int32(Tag(x)) + EncodePayload(x)
  }

  function EncodePayload(x: BundleValue): Bytes
    decreases x, 0
  {
    match x
    case PBool(b) => BoolWord(b)
    case PInt(i) => Int32(i)
    case PDouble(bits) => Int64(bits)
    case PString(s) => Blob(s)
    case PBoolVec(bs) => Int32(|bs|) + Words4(Bits(bs))
    case PIntVec(ns) => Int32(|ns|) + Words4(ns)
    case PLongVec(ns) => Int32(|ns|) + Words8(ns)
    case PDoubleVec(ns) => Int32(|ns|) + Words8(ns)
    case PStringVec(ss) => Int32(|ss|) + Blobs(ss)
    case PBundle(slots) => EncodeBundle(slots)
  }

  // ----- the reader

  function ReadIntVec(bs: Bytes): (r: Option<(seq<int32>, Bytes)>)
    ensures r.Some? ==> |r.value.1| < |bs|
  {
    match ReadCount(bs)
    case None => None
    case Some((n, rest)) => ReadWords4(n, rest)
  }

  function ReadLongVec(bs: Bytes): (r: Option<(seq<int64>, Bytes)>)
    ensures r.Some? ==> |r.value.1| < |bs|
  {
    match ReadCount(bs)
    case None => None
    case Some((n, rest)) => ReadWords8(n, rest)
  }

  function ReadTextVec(bs: Bytes): (r: Option<(seq<Text>, Bytes)>)
    ensures r.Some? ==> |r.value.1| < |bs|
  {
    match ReadCount(bs)
    case None => None
    case Some((n, rest)) => ReadBlobs(n, rest)
  }

  function Wrapped<T>(r: Option<(T, Bytes)>, wrap: T -> BundleValue): Option<(BundleValue, Bytes)> {
    match r
    case None => None
    case Some((x, rest)) => Some((wrap(x), rest))
  }

  function DecodeBundle(bs: Bytes): (r: Option<(seq<Slot>, Bytes)>)
    ensures r.Some? ==> |r.value.1| < |bs|
    decreases |bs|, 0
  {
    match ReadCount(bs)
    case None => None
    case Some((n, rest)) => DecodeSlots(n, rest)
  }

  function DecodeSlots(n: nat, bs: Bytes): (r: Option<(seq<Slot>, Bytes)>)
    ensures r.Some? ==> |r.value.1| <= |bs|
    decreases |bs|, 2
  {
    if n == 0 then Some(([], bs))
    else
      match ReadBlob(bs)
      case None => None
      case Some((key, rest)) =>
        match DecodeValue(rest)
        case None => None
        case Some((x, rest')) =>
          match DecodeSlots(n - 1, rest')
          case None => None
          case Some((slots, rest'')) => Some(([Slot(key, x)] + slots, rest''))
  }

  function DecodeValue(bs: Bytes): (r: Option<(BundleValue, Bytes)>)
    ensures r.Some? ==> |r.value.1| < |bs|
    decreases |bs|, 1
  {
    match ReadInt32(bs)
    case None => None
    case Some((tag, rest)) =>
      match tag
      case 0 => Wrapped(ReadBool(rest), b => PBool(b))
      case 1 => Wrapped(ReadInt32(rest), n => PInt(n))
      case 2 => Wrapped(ReadUint64(rest), n => PDouble(n))
      case 3 => Wrapped(ReadBlob(rest), s => PString(s))
      case 4 => Wrapped(ReadIntVec(rest), xs => PBoolVec(Bools(xs)))
      case 5 => Wrapped(ReadIntVec(rest), xs => PIntVec(xs))
      case 6 => Wrapped(ReadLongVec(rest), xs => PLongVec(xs))
      case 7 => Wrapped(ReadLongVec(rest), xs => PDoubleVec(Unsigned64(xs)))
      case 8 => Wrapped(ReadTextVec(rest), xs => PStringVec(xs))
      case 9 => Wrapped(DecodeBundle(rest), slots => PBundle(slots))
      case _ => None
  }

  // ----- the reader undoes the writer

  lemma IntVecRoundTrip(ns: seq<int32>, rest: Bytes)
    requires |ns| < TWO_31
    ensures ReadIntVec(Int32(|ns|) + Words4(ns) + rest) == Some((ns, rest))
  {
    hide Int32, ReadCount, Words4, ReadWords4;
    var head, body := Int32(|ns|), Words4(ns);
    assert head + body + rest == head + (body + rest);
    ReadCountOf(|ns|, body + rest);
    ReadWords4Of(ns, rest);
  }

  lemma LongVecRoundTrip(ns: seq<int64>, rest: Bytes)
    requires |ns| < TWO_31
    ensures ReadLongVec(Int32(|ns|) + Words8(ns) + rest) == Some((ns, rest))
  {
    hide Int32, ReadCount, Words8, ReadWords8;
    var head, body := Int32(|ns|), Words8(ns);
    assert head + body + rest == head + (body + rest);
    ReadCountOf(|ns|, body + rest);
    ReadWords8Of(ns, rest);
  }

  lemma TextVecRoundTrip(ss: seq<Text>, rest: Bytes)
    requires |Blobs(ss)| < TWO_31
    ensures ReadTextVec(Int32(|ss|) + Blobs(ss) + rest) == Some((ss, rest))
  {
    hide Int32, ReadCount, Blobs, ReadBlobs;
    var head, body := Int32(|ss|), Blobs(ss);
    assert head + body + rest == head + (body + rest);
    ReadCountOf(|ss|, body + rest);
    ReadBlobsOf(ss, rest);
  }

  lemma {:induction false} BundleRoundTrip(slots: seq<Slot>, rest: Bytes)
    requires |EncodeBundle(slots)| < TWO_31
    ensures DecodeBundle(EncodeBundle(slots) + rest) == Some((slots, rest))
    decreases slots, 1
  {
    hide Int32, Int64, Wrap32, Wrap64, ReadInt32, ReadInt64, Blob, ReadBlob, BoolWord, ReadBool, ReadUint64;
    SlotsBound(slots);
    ReadCountOf(|slots|, EncodeSlots(slots) + rest);
    assert EncodeBundle(slots) + rest == Int32(|slots|) + (EncodeSlots(slots) + rest);
    SlotsRoundTrip(slots, rest);
  }

  lemma {:induction false} SlotsBound(slots: seq<Slot>)
    ensures |slots| <= |EncodeSlots(slots)|
  {
    if slots == [] {
    } else {
      SlotsBound(slots[1..]);
    }
  }

  lemma {:induction false} SlotsRoundTrip(slots: seq<Slot>, rest: Bytes)
    requires |EncodeSlots(slots)| < TWO_31
    ensures DecodeSlots(|slots|, EncodeSlots(slots) + rest) == Some((slots, rest))
    decreases slots, 0
  {
    hide Int32, Int64, Wrap32, Wrap64, ReadInt32, ReadInt64, Blob, ReadBlob, BoolWord, ReadBool, ReadUint64;
    if slots == [] {
      assert EncodeSlots(slots) + rest == rest;
    } else {
      var key, x := slots[0].key, slots[0].value;
      var tail := EncodeSlots(slots[1..]) + rest;
      assert EncodeSlots(slots) + rest == Blob(key) + (EncodeValue(x) + tail);
      ReadBlobOf(key, EncodeValue(x) + tail);
      ValueRoundTrip(x, tail);
      SlotsRoundTrip(slots[1..], rest);
      assert slots == [Slot(key, x)] + slots[1..];
    }
  }

  lemma {:induction false} ValueRoundTrip(x: BundleValue, rest: Bytes)
    requires |EncodeValue(x)| < TWO_31
    ensures DecodeValue(EncodeValue(x) + rest) == Some((x, rest))
    decreases x
  {
    hide Int32, Int64, Wrap32, Wrap64, ReadInt32, ReadInt64, Blob, ReadBlob, BoolWord, ReadBool, ReadUint64;
    var body := EncodePayload(x);
    assert EncodeValue(x) + rest == Int32(Tag(x)) + (body + rest);
    ReadInt32Of(Tag(x), body + rest);
    match x
    case PBool(b) => ReadBoolOf(b, rest);
    case PInt(i) => ReadInt32Of(i, rest);
    case PDouble(bits) => ReadUint64Of(bits, rest);
    case PString(s) => ReadBlobOf(s, rest);
    case PBoolVec(bs) => BoolsOfBits(bs); IntVecRoundTrip(Bits(bs), rest);
    case PIntVec(ns) => IntVecRoundTrip(ns, rest);
    case PLongVec(ns) => LongVecRoundTrip(ns, rest);
    case PDoubleVec(ns) => Unsigned64OfLongs(ns); Words8OfLongs(ns); LongVecRoundTrip(Longs(ns), rest);
    case PStringVec(ss) => TextVecRoundTrip(ss, rest);
    case PBundle(slots) => BundleRoundTrip(slots, rest);
  }
}
