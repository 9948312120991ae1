/** Machine integers, little-endian words and length-prefixed blobs: the primitive
    layer that parcels and bundles are written with. */
module Bytes {

  datatype Option<+T> = None | Some(value: T)

  type byte = x: int | 0 <= x < 256
  type Bytes = seq<byte>

  const TWO_16 := 0x1_0000
  const TWO_31 := 0x8000_0000
  const TWO_32 := 0x1_0000_0000
  const TWO_63 := 0x8000_0000_0000_0000
  const TWO_64 := 0x1_0000_0000_0000_0000

  type int8 = x: int | -0x80 <= x < 0x80
  type int16 = x: int | -0x8000 <= x < 0x8000
  type uint16 = x: int | 0 <= x < 0x1_0000
  type int32 = x: int | -0x8000_0000 <= x < 0x8000_0000
  type uint32 = x: int | 0 <= x < 0x1_0000_0000
  type int64 = x: int | -0x8000_0000_0000_0000 <= x < 0x8000_0000_0000_0000
  type uint64 = x: int | 0 <= x < 0x1_0000_0000_0000_0000

  /** The C conversions to int8_t, int32_t and int64_t: the congruent value in range. */
  function Wrap8(n: int): int8 {
    var u := n % 256;
    if u < 128 then u else u - 256
  }

  function Wrap32(n: int): int32 {
    var u := n % TWO_32;
    if u < TWO_31 then u else u - TWO_32
  }

  function Wrap64(n: int): int64 {
    var u := n % TWO_64;
    if u < TWO_63 then u else u - TWO_64
  }

  /** Two integers wrap to the same value exactly when they are congruent. */
  lemma WrapCongruent(n: int, m: int)
    ensures Wrap8(n) % 256 == n % 256
    ensures Wrap32(n) % TWO_32 == n % TWO_32
    ensures Wrap64(n) % TWO_64 == n % TWO_64
    ensures Wrap32(n) == Wrap32(m) <==> n % TWO_32 == m % TWO_32
    ensures Wrap64(n) == Wrap64(m) <==> n % TWO_64 == m % TWO_64
  {
  }

  /** A count handed on as an int32_t: exact below 2^31, never larger than the count. */
  lemma WrapCount(n: nat)
    ensures Wrap32(n) <= n && (Wrap32(n) == n <==> n < TWO_31)
    ensures TWO_31 <= n < TWO_32 ==> Wrap32(n) == n - TWO_32
  {
  }

  /** Integers in range are their own conversions. */
  lemma WrapInRange(n: int)
    ensures -TWO_31 <= n < TWO_31 ==> Wrap32(n) == n
    ensures -TWO_63 <= n < TWO_63 ==> Wrap64(n) == n
  {
  }

  // ----- little-endian words

  function Pow256(k: nat): (p: nat)
    ensures p > 0
  {
    if k == 0 then 1 else 256 * Pow256(k - 1)
  }

  function LittleEndian(n: nat, k: nat): (bs: Bytes)
    ensures |bs| == k
    decreases k
  {
    if k == 0 then [] else [n % 256] + LittleEndian(n / 256, k - 1)
  }

  function FromLittleEndian(bs: Bytes): nat {
    if bs == [] then 0 else bs[0] + 256 * FromLittleEndian(bs[1..])
  }

  lemma {:induction false} LittleEndianRoundTrip(n: nat, k: nat)
    requires n < Pow256(k)
    ensures FromLittleEndian(LittleEndian(n, k)) == n
    decreases k
  {
    if k == 0 {
    } else {
      LittleEndianRoundTrip(n / 256, k - 1);
      assert LittleEndian(n, k)[1..] == LittleEndian(n / 256, k - 1);
    }
  }

  function Int32(n: int): (bs: Bytes)
    ensures |bs| == 4
  {
    LittleEndian(n % TWO_32, 4)
  }

  function Int64(n: int): (bs: Bytes)
    ensures |bs| == 8
  {
    LittleEndian(n % TWO_64, 8)
  }

  /** The byte order of the target: least significant byte first. */
  lemma Int32Layout(n: uint32)
    ensures Int32(n) == [n % 256, n / 0x100 % 256, n / 0x1_0000 % 256, n / 0x100_0000]
  {
    var a := n / 256;
    var b := a / 256;
    var c := b / 256;
    assert b == n / 0x1_0000 && c == n / 0x100_0000 && c < 256;
    assert LittleEndian(c, 1) == [c];
    assert LittleEndian(b, 2) == [b % 256] + LittleEndian(c, 1);
    assert LittleEndian(a, 3) == [a % 256] + LittleEndian(b, 2);
  }

  lemma {:induction false} LittleEndianConcat(n: nat, m: nat, j: nat, k: nat)
    requires n < Pow256(j)
    ensures LittleEndian(n + Pow256(j) * m, j + k) == LittleEndian(n, j) + LittleEndian(m, k)
    decreases j
  {
    if j == 0 {
      assert LittleEndian(n, 0) + LittleEndian(m, k) == LittleEndian(m, k);
    } else {
      var rest := Pow256(j - 1) * m;
      assert Pow256(j) * m == 256 * rest;
      assert (n + 256 * rest) % 256 == n % 256 && (n + 256 * rest) / 256 == n / 256 + rest;
      LittleEndianConcat(n / 256, m, j - 1, k);
    }
  }

  lemma Int64Halves(low: uint32, high: uint32)
    ensures Int64(low + TWO_32 * high) == Int32(low) + Int32(high)
  {
    hide LittleEndian;
    assert Pow256(4) == TWO_32;
    LittleEndianConcat(low, high, 4, 4);
  }

  /** A 64-bit word is its low 32-bit word and then its high one, eight bytes in all, least
      significant first. */
  lemma Int64Layout(low: uint32, high: uint32)
    ensures Int64(low + TWO_32 * high) ==
            [low % 256, low / 0x100 % 256, low / 0x1_0000 % 256, low / 0x100_0000,
             high % 256, high / 0x100 % 256, high / 0x1_0000 % 256, high / 0x100_0000]
  {
    hide Int32, Int64;
    Int64Halves(low, high);
    Int32Layout(low);
    Int32Layout(high);
  }

  function ReadInt32(bs: Bytes): (r: Option<(int32, Bytes)>)
    ensures r.Some? ==> |r.value.1| < |bs|
  {
    if |bs| < 4 then None else Some((Wrap32(FromLittleEndian(bs[..4])), bs[4..]))
  }

  function ReadInt64(bs: Bytes): (r: Option<(int64, Bytes)>)
    ensures r.Some? ==> |r.value.1| < |bs|
  {
    if |bs| < 8 then None else Some((Wrap64(FromLittleEndian(bs[..8])), bs[8..]))
  }

  lemma ReadInt32Of(n: int, rest: Bytes)
    ensures ReadInt32(Int32(n) + rest) == Some((Wrap32(n), rest))
    ensures -TWO_31 <= n < TWO_31 ==> Wrap32(n) == n
  {
    hide LittleEndian, FromLittleEndian;
    assert Pow256(4) == TWO_32;
    LittleEndianRoundTrip(n % TWO_32, 4);
    assert (Int32(n) + rest)[..4] == Int32(n) && (Int32(n) + rest)[4..] == rest;
  }

  lemma ReadInt64Of(n: int, rest: Bytes)
    ensures ReadInt64(Int64(n) + rest) == Some((Wrap64(n), rest))
    ensures -TWO_63 <= n < TWO_63 ==> Wrap64(n) == n
  {
    hide LittleEndian, FromLittleEndian;
    assert Pow256(8) == TWO_64;
    LittleEndianRoundTrip(n % TWO_64, 8);
    assert (Int64(n) + rest)[..8] == Int64(n) && (Int64(n) + rest)[8..] == rest;
  }

  // ----- booleans and unsigned 64-bit words

  function BoolWord(b: bool): Bytes {
    Int32(if b then 1 else 0)
  }

  /** The word of a boolean is the number 0 or 1, not just zero or non-zero. */
  lemma BoolWordLayout(b: bool, rest: Bytes)
    ensures BoolWord(b) == if b then [1, 0, 0, 0] else [0, 0, 0, 0]
    ensures ReadInt32(BoolWord(b) + rest) == Some((if b then 1 else 0, rest))
  {
    hide LittleEndian, FromLittleEndian;
    Int32Layout(if b then 1 else 0);
    ReadInt32Of(if b then 1 else 0, rest);
  }

  function ReadBool(bs: Bytes): (r: Option<(bool, Bytes)>)
    ensures r.Some? ==> |r.value.1| < |bs|
  {
    match ReadInt32(bs)
    case None => None
    case Some((n, rest)) => Some((n != 0, rest))
  }

  function ReadUint64(bs: Bytes): (r: Option<(uint64, Bytes)>)
    ensures r.Some? ==> |r.value.1| < |bs|
  {
    match ReadInt64(bs)
    case None => None
    case Some((n, rest)) => Some((n % TWO_64, rest))
  }

  lemma ReadBoolOf(b: bool, rest: Bytes)
    ensures ReadBool(BoolWord(b) + rest) == Some((b, rest))
  {
    ReadInt32Of(if b then 1 else 0, rest);
  }

  lemma ReadUint64Of(n: uint64, rest: Bytes)
    ensures ReadUint64(Int64(n) + rest) == Some((n, rest))
  {
    hide Int64, ReadInt64;
    ReadInt64Of(n, rest);
  }

  // ----- counts and blobs: an int32 length, then the bytes, padded to a whole word

  function ReadCount(bs: Bytes): (r: Option<(nat, Bytes)>)
    ensures r.Some? ==> |r.value.1| < |bs|
  {
    match ReadInt32(bs)
    case None => None
    case Some((n, rest)) => if n < 0 then None else Some((n, rest))
  }

  lemma ReadCountOf(n: nat, rest: Bytes)
    requires n < TWO_31
    ensures ReadCount(Int32(n) + rest) == Some((n, rest))
  {
    ReadInt32Of(n, rest);
  }

  function PadLength(n: nat): (p: nat)
    ensures p < 4 && (n + p) % 4 == 0
  {
    (4 - n % 4) % 4
  }

  function Padding(n: nat): (bs: Bytes)
    ensures |bs| == PadLength(n)
  {
    seq(PadLength(n), _ => 0)
  }

  function Blob(bs: Bytes): (r: Bytes)
    ensures |r| == 4 + |bs| + PadLength(|bs|)
  {
    Int32(|bs|) + bs + Padding(|bs|)
  }

  /** A blob: its length, its bytes, and zeros up to the next whole word. */
  lemma BlobLayout(bs: Bytes)
    ensures Blob(bs)[..4] == Int32(|bs|) && Blob(bs)[4..4 + |bs|] == bs
    ensures forall i | 4 + |bs| <= i < |Blob(bs)| :: Blob(bs)[i] == 0
    ensures |Blob(bs)| % 4 == 0 && |Blob(bs)| < 4 + |bs| + 4
  {
    hide Int32;
  }

  function ReadBlob(bs: Bytes): (r: Option<(Bytes, Bytes)>)
    ensures r.Some? ==> |r.value.1| < |bs|
  {
    match ReadCount(bs)
    case None => None
    case Some((n, rest)) =>
      if |rest| < n + PadLength(n) then None else Some((rest[..n], rest[n + PadLength(n)..]))
  }

  lemma ReadBlobOf(bs: Bytes, rest: Bytes)
    requires |bs| < TWO_31
    ensures ReadBlob(Blob(bs) + rest) == Some((bs, rest))
  {
    var tail := bs + Padding(|bs|) + rest;
    assert Blob(bs) + rest == Int32(|bs|) + tail;
    ReadCountOf(|bs|, tail);
    assert tail[..|bs|] == bs && tail[|bs| + PadLength(|bs|)..] == rest;
  }

  // ----- sequences of items

  function Words4(ns: seq<int>): (bs: Bytes)
    ensures |bs| == 4 * |ns|
  {
    if ns == [] then [] else Int32(ns[0]) + Words4(ns[1..])
  }

  function Words8(ns: seq<int>): (bs: Bytes)
    ensures |bs| == 8 * |ns|
  {
    if ns == [] then [] else Int64(ns[0]) + Words8(ns[1..])
  }

  function Blobs(ss: seq<Bytes>): (bs: Bytes)
    ensures |bs| >= 4 * |ss|
  {
    if ss == [] then [] else Blob(ss[0]) + Blobs(ss[1..])
  }

  function ReadWords4(n: nat, bs: Bytes): (r: Option<(seq<int32>, Bytes)>)
    ensures r.Some? ==> |r.value.1| <= |bs|
  {
    if n == 0 then Some(([], bs))
    else
      match ReadInt32(bs)
      case None => None
      case Some((x, rest)) =>
        match ReadWords4(n - 1, rest)
        case None => None
        case Some((xs, rest')) => Some(([x] + xs, rest'))
  }

  function ReadWords8(n: nat, bs: Bytes): (r: Option<(seq<int64>, Bytes)>)
    ensures r.Some? ==> |r.value.1| <= |bs|
  {
    if n == 0 then Some(([], bs))
    else
      match ReadInt64(bs)
      case None => None
      case Some((x, rest)) =>
        match ReadWords8(n - 1, rest)
        case None => None
        case Some((xs, rest')) => Some(([x] + xs, rest'))
  }

  function ReadBlobs(n: nat, bs: Bytes): (r: Option<(seq<Bytes>, Bytes)>)
    ensures r.Some? ==> |r.value.1| <= |bs|
  {
    if n == 0 then Some(([], bs))
    else
      match ReadBlob(bs)
      case None => None
      case Some((x, rest)) =>
        match ReadBlobs(n - 1, rest)
        case None => None
        case Some((xs, rest')) => Some(([x] + xs, rest'))
  }

  lemma {:induction false} ReadWords4Of(ns: seq<int32>, rest: Bytes)
    ensures ReadWords4(|ns|, Words4(ns) + rest) == Some((ns, rest))
  {
    hide Int32, ReadInt32, Wrap32;
    if ns == [] {
      assert Words4(ns) + rest == rest;
    } else {
      var head, body := Int32(ns[0]), Words4(ns[1..]);
      assert Words4(ns) == head + body;
      assert head + body + rest == head + (body + rest);
      ReadInt32Of(ns[0], body + rest);
      ReadWords4Of(ns[1..], rest);
      assert ns == [ns[0]] + ns[1..];
    }
  }

  lemma {:induction false} ReadWords8Of(ns: seq<int64>, rest: Bytes)
    ensures ReadWords8(|ns|, Words8(ns) + rest) == Some((ns, rest))
  {
    hide Int64, ReadInt64, Wrap64;
    if ns == [] {
      assert Words8(ns) + rest == rest;
    } else {
      var head, body := Int64(ns[0]), Words8(ns[1..]);
      assert Words8(ns) == head + body;
      assert head + body + rest == head + (body + rest);
      ReadInt64Of(ns[0], body + rest);
      ReadWords8Of(ns[1..], rest);
      assert ns == [ns[0]] + ns[1..];
    }
  }

  lemma {:induction false} ReadBlobsOf(ss: seq<Bytes>, rest: Bytes)
    requires |Blobs(ss)| < TWO_31
    ensures ReadBlobs(|ss|, Blobs(ss) + rest) == Some((ss, rest))
  {
    hide Blob, ReadBlob;
    if ss == [] {
      assert Blobs(ss) + rest == rest;
    } else {
      var head, body := Blob(ss[0]), Blobs(ss[1..]);
      assert Blobs(ss) == head + body;
      assert head + body + rest == head + (body + rest);
      ReadBlobOf(ss[0], body + rest);
      ReadBlobsOf(ss[1..], rest);
      assert ss == [ss[0]] + ss[1..];
    }
  }

  /** The C view of booleans and doubles as words. */
  function Bits(bs: seq<bool>): (r: seq<int32>)
    ensures |r| == |bs|
  {
    seq(|bs|, i requires 0 <= i < |bs| => if bs[i] then 1 else 0)
  }

  function Bools(ns: seq<int>): (r: seq<bool>)
    ensures |r| == |ns|
  {
    seq(|ns|, i requires 0 <= i < |ns| => ns[i] != 0)
  }

  /** Memory of 32-bit (64-bit) words taken as signed words. */
  function Ints(ns: seq<int>): (r: seq<int32>)
    ensures |r| == |ns|
  {
    seq(|ns|, i requires 0 <= i < |ns| => Wrap32(ns[i]))
  }

  function Longs(ns: seq<int>): (r: seq<int64>)
    ensures |r| == |ns|
  {
    seq(|ns|, i requires 0 <= i < |ns| => Wrap64(ns[i]))
  }

  function Unsigned64(ns: seq<int>): (r: seq<uint64>)
    ensures |r| == |ns|
  {
    seq(|ns|, i requires 0 <= i < |ns| => ns[i] % TWO_64)
  }

  /** A boolean vector is written as ones and zeros. */
  lemma BitsLayout(bs: seq<bool>, i: nat)
    requires i < |bs|
    ensures Words4(Bits(bs))[4 * i..4 * i + 4] == if bs[i] then [1, 0, 0, 0] else [0, 0, 0, 0]
  {
    hide Int32, BoolWord;
    BoolWordLayout(bs[i], []);
    Words4At(Bits(bs), i);
    BoolWordOf(bs[i]);
  }

  lemma BoolWordOf(b: bool)
    ensures BoolWord(b) == Int32(if b then 1 else 0)
  {
  }

  lemma {:induction false} Words4At(ns: seq<int>, i: nat)
    requires i < |ns|
    ensures Words4(ns)[4 * i..4 * i + 4] == Int32(ns[i])
  {
    hide Int32;
    if i == 0 {
    } else {
      Words4At(ns[1..], i - 1);
      assert Words4(ns)[4..] == Words4(ns[1..]);
    }
  }

  lemma BoolsOfBits(bs: seq<bool>)
    ensures Bools(Bits(bs)) == bs
  {
  }

  lemma Unsigned64OfLongs(ns: seq<uint64>)
    ensures Unsigned64(Longs(ns)) == ns
  {
  }

  /** Only the low 64 bits of a number are written. */
  lemma Int64OfWrap(n: int)
    ensures Int64(Wrap64(n)) == Int64(n)
  {
    WrapCongruent(n, n);
  }

  lemma {:induction false} Words8OfLongs(ns: seq<int>)
    ensures Words8(Longs(ns)) == Words8(ns)
  {
    hide Int64, Wrap64;
    if ns == [] {
    } else {
      Words8OfLongs(ns[1..]);
      assert Longs(ns)[1..] == Longs(ns[1..]);
      Int64OfWrap(ns[0]);
    }
  }
}
