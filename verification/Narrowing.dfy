/** Which integers survive the bundle: the exact reach of the narrowing conversions,
    lifted through vectors and nested dictionaries. */
module Narrowing {
  import opened Bytes
  import opened Variants
  import opened Bundles
  import opened Vardict
  import opened Collisions

  /** `x` shows a reader the very value `v`: the same mathematical integers, the same
      texts, and for a dictionary the same keys with matching values. */
  ghost predicate Matches(v: Variant, x: BundleValue)
    decreases v
  {
    match v
    case Bool(b) => x == PBool(b)
    case Double(bits) => x == PDouble(bits)
    case Str(s) => x == PString(s)
    case Arr(elem, children) =>
      (match elem
       case TBool => x.PBoolVec? && |x.bools| == |children| &&
                     forall i | 0 <= i < |children| :: children[i] == Bool(x.bools[i])
       case TInt32 => x.PIntVec? && SameInts(children, x.ints)
       case TUint32 => x.PIntVec? && SameInts(children, x.ints)
       case TInt64 => x.PLongVec? && SameInts(children, x.longs)
       case TUint64 => x.PLongVec? && SameInts(children, x.longs)
       case TDouble => x.PDoubleVec? && SameInts(children, x.doubles)
       case TString => x.PStringVec? && |x.strings| == |children| &&
                       forall i | 0 <= i < |children| :: children[i] == Str(x.strings[i])
       case TEntry => x.PBundle? && MatchesDict(children, x.slots)
       case _ => false)
    case _ => IsNumeric(TypeOf(v)) && x.PInt? && x.i as int == Num(v)
  }

  predicate KeyIs(e: Variant, key: Text) {
    e.Entry? && e.key == key
  }

  /** Entry `i` is the last one for its key, of whatever type its value is. */
  predicate Last(entries: seq<Variant>, i: int) {
    0 <= i < |entries| && entries[i].Entry? &&
    forall j | i < j < |entries| :: !KeyIs(entries[j], entries[i].key)
  }

  /** The bundle has every key of the dictionary and no other, each with a value that
      matches the key's last entry. */
  ghost predicate MatchesDict(entries: seq<Variant>, slots: seq<Slot>)
    decreases entries
  {
    (forall k :: Lookup(slots, k).Some? <==> exists i :: 0 <= i < |entries| && KeyIs(entries[i], k)) &&
    forall i | 0 <= i < |entries| && Last(entries, i) ::
      Lookup(slots, entries[i].key).Some? && Matches(entries[i].value, Lookup(slots, entries[i].key).value)
  }

  ghost predicate SameInts(vs: seq<Variant>, ns: seq<int>) {
    |vs| == |ns| && forall i | 0 <= i < |vs| :: Num(vs[i]) == ns[i]
  }

  /** The values the conversion keeps: of a supported type, with every integer fitting the
      slot it is put in, no int16 negative (its bits are read as unsigned), and in a
      dictionary the last entry of every key kept. */
  predicate Exact(v: Variant)
    decreases v
  {
    SupportedType(TypeOf(v)) &&
    match v
    case I16(n) => n >= 0
    case U32(n) => n < TWO_31
    case I64(n) => -TWO_31 <= n < TWO_31
    case U64(n) => n < TWO_31
    case Arr(elem, children) =>
      (match elem
       case TUint32 => forall i | 0 <= i < |children| :: Num(children[i]) < TWO_31
       case TUint64 => forall i | 0 <= i < |children| :: Num(children[i]) < TWO_63
       case TEntry => ExactDict(children)
       case _ => true)
    case _ => true
  }

  predicate ExactDict(entries: seq<Variant>)
    decreases entries
  {
    forall i | 0 <= i < |entries| && Last(entries, i) :: Exact(entries[i].value)
  }

  lemma MatchesOnlySupported(v: Variant, x: BundleValue)
    requires Matches(v, x)
    ensures SupportedType(TypeOf(v))
  {
    hide MatchesDict, SameInts;
  }

  /** A value reaches the bundle's reader unchanged if and only if it is exact. */
  lemma {:induction false} ConversionFaithfulIffExact(v: Variant)
    requires WellTyped(v)
    ensures Exact(v) ==> Convert(v).Some? && Matches(v, Convert(v).value)
    ensures Convert(v).Some? && Matches(v, Convert(v).value) ==> Exact(v)
    decreases v
  {
    hide MatchesDict, ExactDict, BundleOf, SameInts, Ints, Longs, Bools, Unsigned64, Texts, Nums;
    SupportIsByType(v);
    if SupportedType(TypeOf(v)) && v.Arr? {
      match v.elem
      case TBool => BoolVecFaithful(v.children);
      case TInt32 => IntsFaithful(v.children);
      case TUint32 => IntsFaithful(v.children);
      case TInt64 => LongsFaithful(v.children);
      case TUint64 => LongsFaithful(v.children);
      case TDouble => DoublesFaithful(v.children);
      case TString => TextsFaithful(v.children);
      case TEntry => DictFaithfulIffExact(v.children);
    }
  }

  lemma DoublesFaithful(children: seq<Variant>)
    requires AllOfType(children, TDouble)
    ensures SameInts(children, Unsigned64(Nums(children)))
  {
  }

  lemma BoolVecFaithful(children: seq<Variant>)
    requires AllOfType(children, TBool)
    ensures Matches(Arr(TBool, children), PBoolVec(Bools(Nums(children))))
  {
    forall i | 0 <= i < |children| ensures children[i] == Bool(Bools(Nums(children))[i]) {
      BasicValueDetermined(children[i], Bool(Bools(Nums(children))[i]));
    }
  }

  lemma TextsFaithful(children: seq<Variant>)
    requires AllOfType(children, TString)
    ensures Matches(Arr(TString, children), PStringVec(Texts(children)))
  {
    forall i | 0 <= i < |children| ensures children[i] == Str(Texts(children)[i]) {
      BasicValueDetermined(children[i], Str(Texts(children)[i]));
    }
  }

  lemma IntFaithful(v: Variant)
    requires v.I32? || v.U32?
    ensures Wrap32(Num(v)) == Num(v) <==> Num(v) < TWO_31
    ensures v.I32? ==> Num(v) < TWO_31
  {
  }

  lemma LongFaithful(v: Variant)
    requires v.I64? || v.U64?
    ensures Wrap64(Num(v)) == Num(v) <==> Num(v) < TWO_63
    ensures v.I64? ==> Num(v) < TWO_63
  {
  }

  lemma IntsFaithful(children: seq<Variant>)
    requires forall i | 0 <= i < |children| :: children[i].I32? || children[i].U32?
    ensures SameInts(children, Ints(Nums(children))) <==>
            forall i | 0 <= i < |children| :: Num(children[i]) < TWO_31
    ensures (forall i | 0 <= i < |children| :: children[i].I32?) ==> SameInts(children, Ints(Nums(children)))
  {
    hide Wrap32, Num;
    forall i | 0 <= i < |children|
      ensures Ints(Nums(children))[i] == Num(children[i]) <==> Num(children[i]) < TWO_31
      ensures children[i].I32? ==> Num(children[i]) < TWO_31
    {
      IntFaithful(children[i]);
    }
  }

  lemma LongsFaithful(children: seq<Variant>)
    requires forall i | 0 <= i < |children| :: children[i].I64? || children[i].U64?
    ensures SameInts(children, Longs(Nums(children))) <==>
            forall i | 0 <= i < |children| :: Num(children[i]) < TWO_63
    ensures (forall i | 0 <= i < |children| :: children[i].I64?) ==> SameInts(children, Longs(Nums(children)))
  {
    hide Wrap64, Num;
    forall i | 0 <= i < |children|
      ensures Longs(Nums(children))[i] == Num(children[i]) <==> Num(children[i]) < TWO_63
      ensures children[i].I64? ==> Num(children[i]) < TWO_63
    {
      LongFaithful(children[i]);
    }
  }

  lemma {:induction false} SomeLast(entries: seq<Variant>, key: Text, i: int)
    requires 0 <= i < |entries| && KeyIs(entries[i], key)
    ensures exists l :: Last(entries, l) && entries[l].key == key
    decreases |entries| - i
  {
    if !Last(entries, i) {
      var j :| i < j < |entries| && KeyIs(entries[j], key);
      SomeLast(entries, key, j);
    }
  }

  /** A supported last entry is what the bundle has for its key. */
  lemma LastIsEffective(entries: seq<Variant>, i: int)
    requires Last(entries, i) && SupportedType(TypeOf(entries[i].value))
    ensures Lookup(BundleOf(entries), entries[i].key) == Convert(entries[i].value)
  {
    hide Convert, SupportedType, BundleOf;
    BundleLoopMeaning(entries, entries[i].key);
    forall j | i < j < |entries| ensures !SupportedFor(entries[j], entries[i].key) {
      assert !KeyIs(entries[j], entries[i].key);
    }
    EffectiveAt(entries, entries[i].key, i);
  }

  lemma {:induction false} DictFaithfulIffExact(entries: seq<Variant>)
    requires AllOfType(entries, TEntry)
    ensures ExactDict(entries) ==> MatchesDict(entries, BundleOf(entries))
    ensures MatchesDict(entries, BundleOf(entries)) ==> ExactDict(entries)
    decreases entries, 1
  {
    hide Convert, SupportedType, BundleOf, Exact, Matches;
    var slots := BundleOf(entries);
    forall i | 0 <= i < |entries| && Last(entries, i)
      ensures Lookup(slots, entries[i].key).Some? && Matches(entries[i].value, Lookup(slots, entries[i].key).value)
              <==> Exact(entries[i].value)
    {
      assert WellTyped(entries[i]);
      LastFaithful(entries, i);
    }
    if ExactDict(entries) {
      forall k ensures Lookup(slots, k).Some? <==> exists i :: 0 <= i < |entries| && KeyIs(entries[i], k) {
        BundleLoopMeaning(entries, k);
        if i :| 0 <= i < |entries| && KeyIs(entries[i], k) {
          SomeLast(entries, k, i);
          var l :| Last(entries, l) && entries[l].key == k;
          assert Exact(entries[l].value);
        }
      }
    }
  }

  lemma {:induction false} LastFaithful(entries: seq<Variant>, i: int)
    requires Last(entries, i) && WellTyped(entries[i])
    ensures var x := Lookup(BundleOf(entries), entries[i].key);
            x.Some? && Matches(entries[i].value, x.value) <==> Exact(entries[i].value)
    decreases entries, 0
  {
    hide Convert, BundleOf, SupportedType, Matches;
    var value := entries[i].value;
    var x := Lookup(BundleOf(entries), entries[i].key);
    if SupportedType(TypeOf(value)) {
      LastIsEffective(entries, i);
      ConversionFaithfulIffExact(value);
    } else if x.Some? && Matches(value, x.value) {
      MatchesOnlySupported(value, x.value);
    }
  }

  predicate Is64Bit(t: Ty) {
    t.TInt64? || t.TUint64?
  }

  /** The width at which the loop reads a numeric value. */
  function Modulus(t: Ty): int {
    match t
    case TByte => 256
    case TInt16 | TUint16 => TWO_16
    case _ => TWO_32
  }

  /** The stored number itself: below 0 an int16 gains 2^16, from 2^31 up a uint32 loses 2^32,
      and everything that fits is stored as it is. */
  lemma StoredNumber(v: Variant)
    requires IsNumeric(TypeOf(v)) && !v.Bool? && !v.Double?
    ensures v.I16? && v.i16 < 0 ==> Convert(v) == Some(PInt(v.i16 + 0x1_0000))
    ensures v.U32? && v.u32 >= 0x8000_0000 ==> Convert(v) == Some(PInt(v.u32 - 0x1_0000_0000))
    ensures !(v.I16? && v.i16 < 0) && -0x8000_0000 <= Num(v) < 0x8000_0000 ==> Convert(v) == Some(PInt(Num(v)))
  {
    hide Wrap32;
    WrapInRange(Num(v));
    if v.U32? {
      WrapCount(v.u32);
    }
  }

  /** The stored int32 is congruent to the original at that width. */
  lemma StoredIsCongruent(v: Variant)
    requires IsNumeric(TypeOf(v)) && !v.Bool? && !v.Double?
    ensures Convert(v).Some? && Convert(v).value.PInt?
    ensures Convert(v).value.i % Modulus(TypeOf(v)) == Num(v) % Modulus(TypeOf(v))
  {
    hide Wrap32;
    WrapCongruent(Num(v), 0);
  }

  lemma NarrowScalarsDoNotCollide(v: Variant, w: Variant)
    requires TypeOf(v) == TypeOf(w) && IsNumeric(TypeOf(v)) && !Is64Bit(TypeOf(v))
    requires Convert(v) == Convert(w)
    ensures v == w
  {
    hide Wrap32;
    match v
    case U32(n) => Uint32sDoNotCollide(n, w.u32);
    case I16(n) => Int16sDoNotCollide(n, w.i16);
    case _ =>
  }

  lemma Uint32sDoNotCollide(n: uint32, m: uint32)
    requires Wrap32(n) == Wrap32(m)
    ensures n == m
  {
  }

  lemma Int16sDoNotCollide(n: int16, m: int16)
    requires n % TWO_16 == m % TWO_16
    ensures n == m
  {
  }

  lemma WideScalarsCollide(v: Variant, w: Variant)
    requires TypeOf(v) == TypeOf(w) && Is64Bit(TypeOf(v))
    ensures Convert(v) == Convert(w) <==> Num(v) % TWO_32 == Num(w) % TWO_32
  {
    hide Wrap32;
    WrapCongruent(Num(v), Num(w));
  }

  /** For scalars up to 32 bits wide the conversion forgets nothing, given the type; for
      64-bit scalars it forgets exactly the upper half. */
  lemma ScalarCollisions(v: Variant, w: Variant)
    requires TypeOf(v) == TypeOf(w) && IsNumeric(TypeOf(v))
    ensures Convert(v) == Convert(w) <==>
            v == w || (Is64Bit(TypeOf(v)) && Num(v) % TWO_32 == Num(w) % TWO_32)
  {
    hide Convert, Num;
    if Is64Bit(TypeOf(v)) {
      WideScalarsCollide(v, w);
    } else if Convert(v) == Convert(w) {
      NarrowScalarsDoNotCollide(v, w);
    }
  }

  /** At its own width an integer is determined by its residue. */
  lemma ResidueDetermines(v: Variant, w: Variant)
    requires TypeOf(v) == TypeOf(w)
    requires ((v.I32? || v.U32?) && Num(v) % TWO_32 == Num(w) % TWO_32) ||
             ((v.I64? || v.U64?) && Num(v) % TWO_64 == Num(w) % TWO_64)
    ensures v == w
  {
  }

  /** Vectors never collide: 32- and 64-bit elements are stored bit for bit. */
  lemma VectorsDoNotCollide(v: Variant, w: Variant)
    requires WellTyped(v) && WellTyped(w) && v.Arr? && TypeOf(v) == TypeOf(w)
    requires SupportedType(TypeOf(v)) && v.elem != TEntry
    requires Convert(v) == Convert(w)
    ensures v == w
  {
    hide Convert, Num, SupportedType;
    AlikeIffSameConversion(v, w);
    if v.elem.TInt32? || v.elem.TUint32? || v.elem.TInt64? || v.elem.TUint64? {
      assert |v.children| == |w.children|;
      forall i | 0 <= i < |v.children| ensures v.children[i] == w.children[i] {
        ResidueDetermines(v.children[i], w.children[i]);
      }
    }
  }

  // ----- nothing at these widths is out of reach

  function Int32s(ns: seq<int32>): (r: seq<Variant>)
    ensures |r| == |ns| && AllOfType(r, TInt32)
  {
    seq(|ns|, i requires 0 <= i < |ns| => I32(ns[i]))
  }

  function Int64s(ns: seq<int64>): (r: seq<Variant>)
    ensures |r| == |ns| && AllOfType(r, TInt64)
  {
    seq(|ns|, i requires 0 <= i < |ns| => I64(ns[i]))
  }

  function Uint32s(ns: seq<int32>): (r: seq<Variant>)
    ensures |r| == |ns| && AllOfType(r, TUint32)
  {
    seq(|ns|, i requires 0 <= i < |ns| => U32(ns[i] % TWO_32))
  }

  function Uint64s(ns: seq<int64>): (r: seq<Variant>)
    ensures |r| == |ns| && AllOfType(r, TUint64)
  {
    seq(|ns|, i requires 0 <= i < |ns| => U64(ns[i] % TWO_64))
  }

  /** Every slot value comes from a value of each type, so that with the lemmas above the
      32-bit scalars and the 32- and 64-bit vectors are stored one to one. */
  lemma EverySlotIsReached(n: int32, ints: seq<int32>, longs: seq<int64>)
    ensures Convert(I32(n)) == Some(PInt(n)) && Convert(U32(n % TWO_32)) == Some(PInt(n))
    ensures Convert(Arr(TInt32, Int32s(ints))) == Some(PIntVec(ints))
    ensures Convert(Arr(TUint32, Uint32s(ints))) == Some(PIntVec(ints))
    ensures Convert(Arr(TInt64, Int64s(longs))) == Some(PLongVec(longs))
    ensures Convert(Arr(TUint64, Uint64s(longs))) == Some(PLongVec(longs))
  {
    hide Ints, Longs, Nums, Int32s, Uint32s, Int64s, Uint64s;
    IntsReached(ints);
    LongsReached(longs);
  }

  lemma IntsReached(ns: seq<int32>)
    ensures Ints(Nums(Int32s(ns))) == ns && Ints(Nums(Uint32s(ns))) == ns
  {
    hide Wrap32;
    forall i | 0 <= i < |ns| ensures Wrap32(ns[i]) == ns[i] == Wrap32(ns[i] % TWO_32) {
      WrapInRange(ns[i]);
      WrapCongruent(ns[i], ns[i] % TWO_32);
    }
  }

  lemma LongsReached(ns: seq<int64>)
    ensures Longs(Nums(Int64s(ns))) == ns && Longs(Nums(Uint64s(ns))) == ns
  {
    hide Wrap64;
    forall i | 0 <= i < |ns| ensures Wrap64(ns[i]) == ns[i] == Wrap64(ns[i] % TWO_64) {
      WrapInRange(ns[i]);
      WrapCongruent(ns[i], ns[i] % TWO_64);
    }
  }

  // ----- inputs that are lost

  /** An int16 of -1, as the sample's `max_u16`, is stored as 65535. */
  lemma NegativeInt16IsLost()
    ensures Convert(I16(-1)) == Some(PInt(65535)) && !Matches(I16(-1), PInt(65535))
  {
  }

  /** The sample's `max_u32` is stored as -1. */
  lemma LargeUint32IsLost()
    ensures Convert(U32(0xFFFF_FFFF)) == Some(PInt(-1)) && !Matches(U32(0xFFFF_FFFF), PInt(-1))
  {
  }

  lemma LargeInt64IsLost()
    ensures Convert(I64(0x8000_0000)) == Some(PInt(-0x8000_0000)) && !Exact(I64(0x8000_0000))
  {
  }

  lemma LargeUint64IsLost()
    ensures Convert(U64(0x1_0000_0000)) == Some(PInt(0)) && !Exact(U64(0x1_0000_0000))
  {
  }

  /** A dictionary whose only value is a byte array becomes an empty bundle. */
  lemma UnsupportedEntryIsDropped()
    ensures var entries := [Entry([97], Arr(TByte, [Byte(1)]))];
            BundleOf(entries) == [] && !ExactDict(entries) && !MatchesDict(entries, [])
  {
    hide MatchesDict, ExactDict, BundleOf;
    var entry := Entry([97], Arr(TByte, [Byte(1)]));
    DroppedAlone(entry);
    assert WellTyped(entry) && TypeOf(entry) == TEntry;
    assert AllOfType([entry], TEntry);
    DictFaithfulIffExact([entry]);
  }

  lemma DroppedAlone(entry: Variant)
    requires entry.Entry? && !SupportedType(TypeOf(entry.value))
    ensures BundleOf([entry]) == [] && !ExactDict([entry])
  {
    hide Convert, SupportedType;
    SupportIsByType(entry.value);
    assert [entry][..0] == [] && BundleOf([]) == [];
    assert Last([entry], 0) && !Exact([entry][0].value);
  }

  /** An unsupported entry leaves the earlier value of its key in the bundle. */
  lemma EarlierEntryShowsThrough()
    ensures var entries := [Entry([97], Byte(1)), Entry([97], Arr(TByte, []))];
            BundleOf(entries) == [Slot([97], PInt(1))] && !ExactDict(entries)
  {
    var entries := [Entry([97], Byte(1)), Entry([97], Arr(TByte, []))];
    assert entries[..1] == [entries[0]] && entries[..1][..0] == [] && BundleOf([]) == [];
    assert Last(entries, 1) && !Exact(entries[1].value);
  }
}
