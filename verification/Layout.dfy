/** The bytes of a value written out, without the functions that compute them. */
module Layout {
  import opened Bytes
  import opened Variants
  import opened Bundles
  import opened Vardict
  import opened BundleFormat
  import opened Encoding

  // ----- scalars

  lemma Int32Negative(n: int)
    requires -TWO_31 <= n < 0
    ensures Int32(n) == Int32(n + TWO_32)
  {
    assert n % TWO_32 == (n + TWO_32) % TWO_32;
  }

  lemma Int64Negative(n: int)
    requires -TWO_63 <= n < 0
    ensures Int64(n) == Int64(n + TWO_64)
  {
    assert n % TWO_64 == (n + TWO_64) % TWO_64;
  }

  /** A boolean is the word 1 or 0. */
  lemma BoolLayout(b: bool)
    ensures Encode(Bool(b)) == if b then [1, 0, 0, 0] else [0, 0, 0, 0]
  {
    hide Int32;
    BoolWordLayout(b, []);
  }

  /** A byte is followed by three copies of its sign. */
  lemma ByteLayout(n: byte)
    ensures var sign := if n < 128 then 0 else 255; Encode(Byte(n)) == [n, sign, sign, sign]
  {
    hide Int32;
    if n < 128 {
      Int32Layout(n);
    } else {
      Int32Negative(n - 256);
      Int32Layout(n - 256 + TWO_32);
      assert n - 256 + TWO_32 == n + 0xFF00 + 0xFF_0000 + 0xFF00_0000;
    }
  }

  /** A 32-bit integer, signed or not, is the four bytes of its bit pattern. */
  lemma WordLayout(u: uint32, n: int32)
    requires n == if u < TWO_31 then u else u - TWO_32
    ensures Encode(U32(u)) == [u % 256, u / 0x100 % 256, u / 0x1_0000 % 256, u / 0x100_0000]
    ensures Encode(I32(n)) == Encode(U32(u))
  {
    hide Int32;
    Int32Layout(u);
    if n < 0 {
      Int32Negative(n);
    }
  }

  /** A 64-bit integer, signed or not, and a double are the eight bytes of their bit pattern. */
  lemma LongLayout(low: uint32, high: uint32, n: int64)
    requires var u := low + TWO_32 * high; n == if u < TWO_63 then u else u - TWO_64
    ensures Encode(U64(low + TWO_32 * high)) ==
            [low % 256, low / 0x100 % 256, low / 0x1_0000 % 256, low / 0x100_0000,
             high % 256, high / 0x100 % 256, high / 0x1_0000 % 256, high / 0x100_0000]
    ensures Encode(I64(n)) == Encode(U64(low + TWO_32 * high)) == Encode(Double(low + TWO_32 * high))
  {
    hide Int64;
    Int64Layout(low, high);
    if n < 0 {
      Int64Negative(n);
    }
  }

  /** A string is its length as a word, its bytes, and zeros up to the next whole word. */
  lemma StringLayout(s: Text)
    requires |s| < TWO_32
    ensures var n, bytes := |s|, Encode(Str(s));
            |bytes| % 4 == 0 && 4 + n <= |bytes| < 8 + n &&
            bytes[..4] == [n % 256, n / 0x100 % 256, n / 0x1_0000 % 256, n / 0x100_0000] &&
            bytes[4..4 + n] == s && forall i | 4 + n <= i < |bytes| :: bytes[i] == 0
  {
    hide Int32, Blob;
    BlobLayout(s);
    Int32Layout(|s|);
  }

  // ----- arrays

  /** Element `i` of an array stands behind the count and the elements before it. */
  lemma {:induction false} ElementStandsAt(vs: seq<Variant>, i: nat)
    requires i < |vs|
    ensures var o := 4 * WordCountAll(vs[..i]);
            o + |Encode(vs[i])| <= |EncodeAll(vs)| && EncodeAll(vs)[o..o + |Encode(vs[i])|] == Encode(vs[i])
  {
    hide Encode, WordCount;
    if i == 0 {
      assert vs[..0] == [];
    } else {
      var first, rest := Encode(vs[0]), EncodeAll(vs[1..]);
      SizeExact(vs[0]);
      ElementStandsAt(vs[1..], i - 1);
      assert vs[..i][1..] == vs[1..][..i - 1];
      assert EncodeAll(vs)[|first|..] == rest;
    }
  }

  lemma {:induction false} OneWordEach(vs: seq<Variant>)
    requires forall i | 0 <= i < |vs| :: WordCount(vs[i]) == 1
    ensures WordCountAll(vs) == |vs|
  {
    if vs == [] {
    } else {
      OneWordEach(vs[1..]);
    }
  }

  /** An array is its count as a word and then its elements in order. */
  lemma ArrayLayout(elem: Ty, vs: seq<Variant>, i: nat)
    requires !elem.TEntry? && !elem.TByte? && i < |vs| < TWO_32
    ensures var n, bytes, o := |vs|, Encode(Arr(elem, vs)), 4 + 4 * WordCountAll(vs[..i]);
            |bytes| == 4 + 4 * WordCountAll(vs) && o + |Encode(vs[i])| <= |bytes| &&
            bytes[..4] == [n % 256, n / 0x100 % 256, n / 0x1_0000 % 256, n / 0x100_0000] &&
            bytes[o..o + |Encode(vs[i])|] == Encode(vs[i])
  {
    hide Int32, EncodeAll, WordCountAll;
    Int32Layout(|vs|);
    SizeAllExact(vs);
    ElementStandsAt(vs, i);
    CountFirst(elem, vs);
    var o, all := 4 * WordCountAll(vs[..i]), EncodeAll(vs);
    assert Encode(Arr(elem, vs))[4 + o..4 + o + |Encode(vs[i])|] == all[o..o + |Encode(vs[i])|];
  }

  lemma CountFirst(elem: Ty, vs: seq<Variant>)
    requires !elem.TEntry? && !elem.TByte?
    ensures Encode(Arr(elem, vs)) == Int32(|vs|) + EncodeAll(vs)
  {
  }

  /** A boolean array is its count and then a word 1 or 0 for each element, in order. */
  lemma BoolArrayLayout(bs: seq<Variant>, i: nat)
    requires AllOfType(bs, TBool) && i < |bs| < TWO_32
    ensures var n, bytes := |bs|, Encode(Arr(TBool, bs));
            |bytes| == 4 + 4 * n &&
            bytes[..4] == [n % 256, n / 0x100 % 256, n / 0x1_0000 % 256, n / 0x100_0000] &&
            bytes[4 + 4 * i..8 + 4 * i] == if bs[i] == Bool(true) then [1, 0, 0, 0] else [0, 0, 0, 0]
  {
    hide Encode, WordCountAll;
    forall k | 0 <= k < |bs| ensures WordCount(bs[k]) == 1 {
      assert WellTyped(bs[k]) && bs[k].Bool?;
    }
    ArrayLayout(TBool, bs, i);
    OneWordEach(bs);
    OneWordEach(bs[..i]);
    BoolLayout(bs[i].b);
  }

  /** A byte array is its length as a word, one byte for each element, and zeros. */
  lemma ByteArrayLayout(vs: seq<Variant>, i: nat)
    requires AllOfType(vs, TByte) && |vs| < TWO_32
    ensures var n, bytes := |vs|, Encode(Arr(TByte, vs));
            |bytes| % 4 == 0 && 4 + n <= |bytes| < 8 + n &&
            bytes[..4] == [n % 256, n / 0x100 % 256, n / 0x1_0000 % 256, n / 0x100_0000] &&
            (i < n ==> vs[i] == Byte(bytes[4 + i])) && (4 + n <= i < |bytes| ==> bytes[i] == 0)
  {
    hide Int32, Blob;
    var memory := RawBytes(vs);
    BlobLayout(memory);
    Int32Layout(|vs|);
    if i < |vs| {
      assert WellTyped(vs[i]) && vs[i].Byte?;
      assert Blob(memory)[4..4 + |memory|][i] == memory[i];
    }
  }

  // ----- bundles

  /** Element `i` of a boolean vector in a bundle is a word 1 or 0 as well. */
  lemma BoolVectorLayout(bs: seq<bool>, i: nat)
    requires i < |bs|
    ensures |EncodeValue(PBoolVec(bs))| == 8 + 4 * |bs|
    ensures EncodeValue(PBoolVec(bs))[8 + 4 * i..12 + 4 * i] == if bs[i] then [1, 0, 0, 0] else [0, 0, 0, 0]
  {
    hide Int32, Bits, Words4;
    BitsLayout(bs, i);
    var words := Words4(Bits(bs));
    assert EncodeValue(PBoolVec(bs)) == Int32(4) + (Int32(|bs|) + words);
    assert EncodeValue(PBoolVec(bs))[8..] == words;
  }

  /** A dictionary is the flag 1, a word, and then its bundle, headed by the number of keys. */
  lemma DictLayout(entries: seq<Variant>)
    requires |BundleOf(entries)| < TWO_32
    ensures var n, bytes := |BundleOf(entries)|, Encode(Arr(TEntry, entries));
            |bytes| >= 8 && bytes[..4] == [1, 0, 0, 0] &&
            bytes[4..8] == [n % 256, n / 0x100 % 256, n / 0x1_0000 % 256, n / 0x100_0000]
  {
    hide Int32, BundleOf;
    Int32Layout(1);
    Int32Layout(|BundleOf(entries)|);
  }

  const SAMPLE := Arr(TEntry, [Entry([98], I32(5)), Entry([97], Bool(true)), Entry([98], Byte(200))])

  lemma SampleBundle()
    ensures BundleOf(SAMPLE.children) == [Slot([97], PBool(true)), Slot([98], PInt(200))]
  {
    var es := SAMPLE.children;
    assert es[..1][..0] == [] && es[..2][..1] == es[..1] && BundleOf([]) == [];
    assert BundleOf(es[..1]) == [Slot([98], PInt(5))];
    assert BundleOf(es[..2]) == [Slot([97], PBool(true)), Slot([98], PInt(5))];
  }

  /** The keys b, a, b again: one slot each, in key order, the later value of b. */
  lemma SampleLayout()
    ensures Encode(SAMPLE) ==
            [1, 0, 0, 0] + [2, 0, 0, 0] +
            [1, 0, 0, 0, 97, 0, 0, 0] + [0, 0, 0, 0] + [1, 0, 0, 0] +
            [1, 0, 0, 0, 98, 0, 0, 0] + [1, 0, 0, 0] + [200, 0, 0, 0]
  {
    hide Int32, BundleOf, EncodeSlots;
    SampleBundle();
    Int32Layout(1);
    Int32Layout(2);
    SampleSlots();
  }

  lemma SampleSlots()
    ensures EncodeSlots([Slot([97], PBool(true)), Slot([98], PInt(200))]) ==
            [1, 0, 0, 0, 97, 0, 0, 0] + [0, 0, 0, 0] + [1, 0, 0, 0] +
            [1, 0, 0, 0, 98, 0, 0, 0] + [1, 0, 0, 0] + [200, 0, 0, 0]
  {
    hide EncodeSlots, EncodeValue;
    var a, b := Slot([97], PBool(true)), Slot([98], PInt(200));
    SampleValues();
    FirstSlot(97, a.value, [b]);
    FirstSlot(98, b.value, []);
    NoSlots();
    assert [a] + [b] == [a, b] && [b] + [] == [b];
  }

  lemma FirstSlot(x: byte, value: BundleValue, rest: seq<Slot>)
    ensures EncodeSlots([Slot([x], value)] + rest) ==
            [1, 0, 0, 0, x, 0, 0, 0] + EncodeValue(value) + EncodeSlots(rest)
  {
    hide Blob, EncodeValue;
    ShortBlob(x);
    assert ([Slot([x], value)] + rest)[1..] == rest;
  }

  lemma NoSlots()
    ensures EncodeSlots([]) == []
  {
  }

  lemma SampleValues()
    ensures EncodeValue(PBool(true)) == [0, 0, 0, 0] + [1, 0, 0, 0]
    ensures EncodeValue(PInt(200)) == [1, 0, 0, 0] + [200, 0, 0, 0]
  {
    hide Int32, BoolWord;
    Int32Layout(0);
    Int32Layout(1);
    Int32Layout(200);
    BoolWordLayout(true, []);
  }

  lemma ShortBlob(x: byte)
    ensures Blob([x]) == [1, 0, 0, 0, x, 0, 0, 0]
  {
    hide Int32;
    Int32Layout(1);
  }
}
