/** `poc_vardict_to_bundle`, `poc_parcel_write_variant` and their callbacks, in the form the
    C code has them, proved against `BundleOf` and `Encode`. */
module Writer {
  import opened Bytes
  import opened Variants
  import opened Bundles
  import opened Vardict
  import opened BundleFormat
  import opened Encoding
  import opened Layout
  import opened Parcels
  import opened Objects

  // ----- what the compiler and GLib decide

  /** GLib's getters may check the type of their argument and answer 0 when it is wrong. */
  datatype GetterCheck = Unchecked | Checked

  /** C leaves open whether the length argument is read before or after the getter that
      sets it has run. */
  datatype ArgumentOrder = LeftToRight | RightToLeft

  datatype Platform = Platform(getters: GetterCheck, arguments: ArgumentOrder)

  /** `g_variant_get_int64` on any value. */
  function GetInt64(h: Platform, v: Variant): int {
    if h.getters.Checked? && !v.I64? then 0 else Num(v)
  }

  /** The value whose encoding is really written for a top-level `v`. */
  function Sent(h: Platform, v: Variant): Variant {
    match v
    case U64(_) => if h.getters.Checked? then U64(0) else v
    case Str(_) => if h.arguments.RightToLeft? then Str([]) else v
    case _ => v
  }

  // ----- the bundle loop

  /** The integer behind the pointer that the loop dereferences for a numeric class. */
  function RawInt(v: Variant): int {
    match v
    case I16(_) | U16(_) => Num(v) % TWO_16
    case I32(_) | U32(_) => Num(v) % TWO_32
    case I64(_) | U64(_) => Num(v) % TWO_64
    case _ => Num(v)
  }

  lemma LowBits(n: int)
    ensures n % TWO_64 % TWO_32 == n % TWO_32
  {
  }

  lemma RawIntConverted(v: Variant)
    requires IsNumeric(TypeOf(v)) && !v.Bool? && !v.Double?
    ensures Convert(v) == Some(PInt(Wrap32(RawInt(v))))
  {
    hide Wrap32;
    var n := Num(v);
    LowBits(n);
    WrapCongruent(RawInt(v), n);
    WrapInRange(n);
    WrapInRange(n % TWO_16);
  }

  /** One turn of the loop: the switch over the class of the value. */
  method PutConverted(bundle: PersistableBundle, key: Text, value: Variant)
    requires bundle.Valid() && WellTyped(value)
    modifies bundle
    ensures bundle.Valid() && bundle.slots == Absorb(old(bundle.slots), key, Convert(value))
    decreases value, 2
  {
    hide Sorted, Put, Wrap32, RawInt, Num, WellTyped, BundleOf;
    match value {
      case Bool(b) => bundle.PutValue(key, PBool(b));
      case Byte(_) | I16(_) | U16(_) | I32(_) | U32(_) | I64(_) | U64(_) =>
        bundle.PutInt(key, RawInt(value));
        RawIntConverted(value);
      case Double(bits) => bundle.PutValue(key, PDouble(bits));
      case Str(s) => bundle.PutValue(key, PString(s));
      case Arr(_, _) => PutConvertedArray(bundle, key, value);
      case _ =>
    }
  }

  /** The inner switch, over the class of the array's elements. */
  method PutConvertedArray(bundle: PersistableBundle, key: Text, value: Variant)
    requires bundle.Valid() && WellTyped(value) && value.Arr?
    modifies bundle
    ensures bundle.Valid() && bundle.slots == Absorb(old(bundle.slots), key, Convert(value))
    decreases value, 1
  {
    hide Sorted, Put, Nums, Bools, Ints, Longs, Unsigned64, Texts, BundleOf;
    var children := value.children;
    match value.elem {
      case TBool => bundle.PutValue(key, PBoolVec(Bools(Nums(children))));
      case TInt32 | TUint32 => bundle.PutIntVector(key, Nums(children));
      case TInt64 | TUint64 => bundle.PutLongVector(key, Nums(children));
      case TDouble => bundle.PutValue(key, PDoubleVec(Unsigned64(Nums(children))));
      case TString => bundle.PutValue(key, PStringVec(Texts(children)));
      case TEntry =>
        var child := VardictToBundle(value);
        bundle.PutPersistableBundle(key, child);
      case _ =>
    }
  }

  method VardictToBundle(vardict: Variant) returns (bundle: PersistableBundle)
    requires WellTyped(vardict) && TypeOf(vardict) == TArray(TEntry)
    ensures fresh(bundle) && bundle.Valid() && bundle.slots == BundleOf(vardict.children)
    decreases vardict, 0
  {
    var entries := vardict.children;
    bundle := new PersistableBundle();
    var iter := new GVariantIter(vardict);
    var entry := iter.NextValue();
    while entry.Some?
      invariant fresh(bundle) && fresh(iter) && bundle.Valid() && iter.Valid()
      invariant iter.children == entries
      invariant entry.Some? ==> iter.next > 0 && entry.value == entries[iter.next - 1]
      invariant entry.None? ==> iter.next == |entries|
      invariant bundle.slots == BundleOf(entries[..if entry.Some? then iter.next - 1 else iter.next])
      decreases entry.Some?, |entries| - iter.next
    {
      ghost var done := iter.next;
      assert WellTyped(entry.value) && entry.value.Entry?;
      PutConverted(bundle, entry.value.key, entry.value.value);
      BundleOfNext(entries, done);
      entry := iter.NextValue();
    }
    assert entries[..|entries|] == entries;
  }

  lemma BundleOfNext(entries: seq<Variant>, n: nat)
    requires 0 < n <= |entries| && entries[n - 1].Entry?
    ensures BundleOf(entries[..n]) ==
            Absorb(BundleOf(entries[..n - 1]), entries[n - 1].key, Convert(entries[n - 1].value))
  {
    assert entries[..n][..n - 1] == entries[..n - 1];
  }

  // ----- the element getters and the callbacks that use them

  function StrLen(s: Text): nat {
    if s == [] || s[0] == 0 then 0 else 1 + StrLen(s[1..])
  }

  lemma {:induction false} StrLenOfText(s: Text)
    requires 0 !in s
    ensures StrLen(s) == |s|
  {
    if s == [] {
    } else {
      StrLenOfText(s[1..]);
    }
  }

  /** The length is stored in a gint32. */
  method StringElement(strv: Variant, index: nat) returns (s: Text, length: int32)
    requires WellTyped(strv) && TypeOf(strv) == TArray(TString) && index < |strv.children|
    ensures s == TextOf(strv.children[index])
    ensures length <= |s| && (length == |s| <==> |s| < TWO_31) && length % TWO_32 == |s| % TWO_32
  {
    hide Wrap32;
    var child := strv.children[index];
    assert WellTyped(child) && child.Str?;
    s := child.s;
    length := Wrap32(StrLen(s));
    StrLenOfText(s);
    WrapCount(|s|);
    WrapCongruent(|s|, 0);
  }

  method BooleanElement(boolv: Variant, index: nat) returns (b: bool)
    requires WellTyped(boolv) && TypeOf(boolv) == TArray(TBool) && index < |boolv.children|
    ensures boolv.children[index] == Bool(b)
  {
    var child := boolv.children[index];
    assert WellTyped(child) && child.Bool?;
    b := child.b;
  }

  /** `AParcel_writeStringArray` with the string getter: a negative count is refused, and so
      is, inside, an element with a negative length. */
  method WriteStringArray(parcel: Parcel, strv: Variant, length: int32) returns (status: Status)
    requires parcel.Valid()
    requires WellTyped(strv) && TypeOf(strv) == TArray(TString) && length == Wrap32(|strv.children|)
    modifies parcel
    ensures parcel.Valid()
    ensures Fits(strv) ==> status == STATUS_OK && parcel.Wrote(Encode(strv))
    ensures length < 0 ==> status == STATUS_BAD_VALUE && unchanged(parcel)
  {
    hide Overwrite, Encode, EncodeAll, Blob, Int32, Wrap32;
    ghost var start, pos, cs, fits := parcel.data, parcel.pos, strv.children, Fits(strv);
    WrapCount(|cs|);
    if length < 0 {
      return STATUS_BAD_VALUE;
    }
    parcel.WriteInt32(length);
    CountedElements(strv);
    assert fits ==> FitsAll(cs);
    status := STATUS_OK;
    var i := 0;
    while i < length && status == STATUS_OK
      invariant 0 <= i <= length && parcel.Valid()
      invariant fits ==> status == STATUS_OK && parcel.Wrote(Int32(length) + EncodeAll(cs[..i]))
    {
      var s, n := StringElement(strv, i);
      assert WellTyped(cs[i]) && s == cs[i].s;
      assert fits ==> Fits(cs[i]);
      assert fits ==> n == |s| && s[..n] == s;
      status := parcel.WriteString(s, n);
      EncodeBasic(cs[i]);
      NextElement(start, pos, Int32(length), cs, i);
      i := i + 1;
    }
  }

  /** `AParcel_writeBoolArray` with the boolean getter. */
  method WriteBoolArray(parcel: Parcel, boolv: Variant, length: int32) returns (status: Status)
    requires parcel.Valid()
    requires WellTyped(boolv) && TypeOf(boolv) == TArray(TBool) && length == Wrap32(|boolv.children|)
    modifies parcel
    ensures parcel.Valid()
    ensures Fits(boolv) ==> status == STATUS_OK && parcel.Wrote(Encode(boolv))
    ensures Fits(boolv) ==>
              forall i | 0 <= i < |boolv.children| ::
                var at := old(parcel.pos) + 4 + 4 * i;
                at + 4 <= |parcel.data| &&
                parcel.data[at..at + 4] == if boolv.children[i] == Bool(true) then [1, 0, 0, 0] else [0, 0, 0, 0]
    ensures length < 0 ==> status == STATUS_BAD_VALUE && unchanged(parcel)
  {
    hide Overwrite, Encode, EncodeAll, BoolWord, Int32, Wrap32;
    ghost var start, pos, cs, fits := parcel.data, parcel.pos, boolv.children, Fits(boolv);
    WrapCount(|cs|);
    if length < 0 {
      return STATUS_BAD_VALUE;
    }
    parcel.WriteInt32(length);
    CountedElements(boolv);
    status := STATUS_OK;
    var i := 0;
    while i < length
      invariant 0 <= i <= length
      invariant parcel.Wrote(Int32(length) + EncodeAll(cs[..i]))
    {
      var b := BooleanElement(boolv, i);
      parcel.WriteBool(b);
      EncodeBasic(cs[i]);
      NextElement(start, pos, Int32(length), cs, i);
      i := i + 1;
    }
    forall k | fits && 0 <= k < |cs|
      ensures pos + 4 + 4 * k + 4 <= |parcel.data|
      ensures parcel.data[pos + 4 + 4 * k..pos + 4 + 4 * k + 4] ==
              if cs[k] == Bool(true) then [1, 0, 0, 0] else [0, 0, 0, 0]
    {
      BooleanInPlace(start, pos, cs, k);
    }
  }

  /** Where the word of an element of a written boolean array stands. */
  lemma BooleanInPlace(data: Bytes, pos: nat, cs: seq<Variant>, i: nat)
    requires pos <= |data| && AllOfType(cs, TBool) && i < |cs| < TWO_31
    ensures var written, at := Overwrite(data, pos, Encode(Arr(TBool, cs))), pos + 4 + 4 * i;
            at + 4 <= |written| && written[at..at + 4] == if cs[i] == Bool(true) then [1, 0, 0, 0] else [0, 0, 0, 0]
  {
    hide Overwrite, Encode;
    var bytes := Encode(Arr(TBool, cs));
    var written, at := Overwrite(data, pos, bytes), pos + 4 + 4 * i;
    OverwriteFrame(data, pos, bytes);
    BoolArrayLayout(cs, i);
    SliceOfSlice(written, pos, pos + |bytes|, 4 + 4 * i, 8 + 4 * i);
  }

  lemma SliceOfSlice(bs: Bytes, from: nat, to: nat, i: nat, j: nat)
    requires from <= to <= |bs| && i <= j <= to - from
    ensures bs[from..to][i..j] == bs[from + i..from + j]
  {
    forall k | 0 <= k < j - i ensures bs[from..to][i..j][k] == bs[from + i..from + j][k] {
      assert bs[from..to][i + k] == bs[from + (i + k)];
    }
  }

  lemma CountedElements(v: Variant)
    requires v.Arr? && !v.elem.TEntry? && !v.elem.TByte?
    ensures Encode(v) == Int32(|v.children|) + EncodeAll(v.children)
    ensures v.children[..|v.children|] == v.children
    ensures forall head: Bytes :: head + EncodeAll(v.children[..0]) == head
  {
    hide Int32;
  }

  lemma EncodeBasic(v: Variant)
    ensures v.Str? ==> Encode(v) == Blob(v.s)
    ensures v.Bool? ==> Encode(v) == BoolWord(v.b)
  {
  }

  /** One more element behind a head and the elements before it. */
  lemma NextElement(data: Bytes, pos: nat, head: Bytes, cs: seq<Variant>, i: nat)
    requires pos <= |data| && i < |cs|
    ensures var before := head + EncodeAll(cs[..i]);
            Overwrite(Overwrite(data, pos, before), pos + |before|, Encode(cs[i])) ==
            Overwrite(data, pos, head + EncodeAll(cs[..i + 1]))
    ensures |EncodeAll(cs[..i + 1])| == |EncodeAll(cs[..i])| + |Encode(cs[i])|
  {
    hide Overwrite, Encode, EncodeAll;
    assert cs[..i + 1] == cs[..i] + [cs[i]];
    EncodeAllSnoc(cs[..i], cs[i]);
    OverwriteTwice(data, pos, head + EncodeAll(cs[..i]), Encode(cs[i]));
    assert head + EncodeAll(cs[..i]) + Encode(cs[i]) == head + EncodeAll(cs[..i + 1]);
  }

  // ----- fixed arrays: one bulk write of the memory is the children written one by one

  lemma {:induction false} FixedWords4(vs: seq<Variant>, t: Ty)
    requires AllOfType(vs, t) && (t.TInt32? || t.TUint32?)
    ensures EncodeAll(vs) == Words4(Nums(vs))
    decreases vs
  {
    hide Int32;
    if vs == [] {
    } else {
      FixedWords4(vs[1..], t);
      assert Nums(vs)[1..] == Nums(vs[1..]);
    }
  }

  lemma {:induction false} FixedWords8(vs: seq<Variant>, t: Ty)
    requires AllOfType(vs, t) && (t.TInt64? || t.TUint64? || t.TDouble?)
    ensures EncodeAll(vs) == Words8(Nums(vs))
    decreases vs
  {
    hide Int64;
    if vs == [] {
    } else {
      FixedWords8(vs[1..], t);
      assert Nums(vs)[1..] == Nums(vs[1..]);
    }
  }

  // ----- the recursive writer

  /** The library refuses the value's own length: from 2^31 up to 2^32 - 1 it narrows to a
      negative int32. */
  predicate Refused(h: Platform, v: Variant) {
    (v.Str? && h.arguments.LeftToRight? && TWO_31 <= |v.s| < TWO_32) ||
    (v.Arr? && !v.elem.TEntry? && TWO_31 <= |v.children| < TWO_32)
  }

  /** `poc_parcel_write_variant`. A refused value leaves the parcel as it was, and except for
      arrays of booleans the answer is OK all the same. */
  method WriteVariant(h: Platform, parcel: Parcel, variant: Variant) returns (status: Status)
    requires parcel.Valid() && WellTyped(variant)
    modifies parcel
    ensures parcel.Valid()
    ensures Fits(variant) ==> status == STATUS_OK && parcel.Wrote(Encode(Sent(h, variant)))
    ensures variant.Byte? ==>
              var sign := if variant.y < 128 then 0 else 255; parcel.Wrote([variant.y, sign, sign, sign])
    ensures variant.Bool? ==> parcel.Wrote(if variant.b then [1, 0, 0, 0] else [0, 0, 0, 0])
    ensures Refused(h, variant) ==>
              unchanged(parcel) &&
              status == if TypeOf(variant) == TArray(TBool) then STATUS_BAD_VALUE else STATUS_OK
    decreases variant, 2
  {
    hide Overwrite, Int32, Int64, Blob, BoolWord, Num, WellTyped;
    status := STATUS_OK;
    match variant {
      case Bool(b) =>
        parcel.WriteBool(b);
        BoolLayout(b);
      case Byte(n) =>
        parcel.WriteByte(n);
        ByteLayout(n);
      case I32(n) => parcel.WriteInt32(n);
      case U32(n) => parcel.WriteInt32(n);
      case I64(n) => parcel.WriteInt64(n);
      case U64(n) => WriteUint64Scalar(h, parcel, variant);
      case Double(bits) => parcel.WriteInt64(bits);
      case Str(s) => WriteStringScalar(h, parcel, s);
      case Arr(_, _) => status := WriteArray(h, parcel, variant);
      case _ => NothingWritten(parcel.data, parcel.pos);
    }
  }

  lemma NothingWritten(data: Bytes, pos: nat)
    requires pos <= |data|
    ensures Overwrite(data, pos, []) == data
  {
  }

  method WriteUint64Scalar(h: Platform, parcel: Parcel, variant: Variant)
    requires parcel.Valid() && variant.U64?
    modifies parcel
    ensures parcel.Wrote(Encode(Sent(h, variant)))
  {
    parcel.WriteInt64(GetInt64(h, variant));
  }

  /** The getter stores the length in `size` when it runs; the argument list reads `size` and
      hands it on as an int32_t. The status is not looked at. */
  method WriteStringScalar(h: Platform, parcel: Parcel, s: Text)
    requires parcel.Valid()
    modifies parcel
    ensures parcel.Valid()
    ensures |s| < TWO_31 ==> parcel.Wrote(Encode(Sent(h, Str(s))))
    ensures h.arguments.LeftToRight? && TWO_31 <= |s| < TWO_32 ==> unchanged(parcel)
  {
    var size := 0;
    if h.arguments == LeftToRight {
      size := |s|;
    }
    WrapCount(size);
    var status := parcel.WriteString(s, Wrap32(size));
    assert s[..size] == if h.arguments == LeftToRight then s else [];
  }

  /** The switch over the class of the elements. Lengths are handed on as int32_t; only the
      bundle and boolean branches look at the status. */
  method WriteArray(h: Platform, parcel: Parcel, variant: Variant) returns (status: Status)
    requires parcel.Valid() && WellTyped(variant) && variant.Arr?
    modifies parcel
    ensures parcel.Valid()
    ensures Fits(variant) ==> status == STATUS_OK && parcel.Wrote(Encode(variant))
    ensures !variant.elem.TEntry? && TWO_31 <= |variant.children| < TWO_32 ==>
              unchanged(parcel) && status == if variant.elem.TBool? then STATUS_BAD_VALUE else STATUS_OK
    decreases variant, 1
  {
    hide Overwrite, Int32, Int64, Blob, BoolWord, RawBytes, Nums, EncodeAll, EncodeBundle, Words4, Words8, Wrap32,
      FitsAll;
    status := STATUS_OK;
    var children := variant.children;
    var length := Wrap32(|children|);
    WrapCount(|children|);
    match variant.elem {
      case TEntry => status := WriteFlaggedBundle(parcel, variant);
      case TBool => status := WriteBoolArray(parcel, variant, length);
      case TByte =>
        var memory := RawBytes(children);
        assert memory[..|memory|] == memory;
        var _ := parcel.WriteByteArray(memory, length);
      case TInt32 | TUint32 =>
        var memory := Nums(children);
        FixedWords4(children, variant.elem);
        assert memory[..|memory|] == memory;
        var _ := parcel.WriteInt32Array(memory, length);
      case TInt64 | TUint64 | TDouble =>
        var memory := Nums(children);
        FixedWords8(children, variant.elem);
        assert memory[..|memory|] == memory;
        var _ := parcel.WriteInt64Array(memory, length);
      case TString => var _ := WriteStringArray(parcel, variant, length);
      case _ =>
        var iter := new GVariantIter(variant);
        var _ := WriteParcelableArray(h, parcel, iter, Wrap32(iter.NChildren()));
    }
  }

  /** Convert, write the non-null flag, write the bundle. */
  method WriteFlaggedBundle(parcel: Parcel, vardict: Variant) returns (status: Status)
    requires parcel.Valid() && WellTyped(vardict) && TypeOf(vardict) == TArray(TEntry)
    modifies parcel
    ensures status == STATUS_OK && parcel.Wrote(Encode(vardict))
  {
    hide Overwrite, Int32, EncodeBundle, BundleOf;
    ghost var start, pos := parcel.data, parcel.pos;
    var bundle := VardictToBundle(vardict);
    parcel.WriteInt32(1);
    status := bundle.WriteToParcel(parcel);
    OverwriteTwice(start, pos, Int32(1), EncodeBundle(bundle.slots));
  }

  /** The element types that reach the generic branch. */
  predicate Generic(t: Ty) {
    match t
    case TEntry | TBool | TByte | TInt32 | TUint32 | TInt64 | TUint64 | TDouble | TString => false
    case _ => true
  }

  /** `poc_parcel_variant_array_element_writer`: it ignores `index` and takes what the shared
      iterator yields. Whoever has called it `index` times before gets child `index`. */
  method ArrayElementWriter(h: Platform, parcel: Parcel, iter: GVariantIter, index: nat) returns (status: Status)
    requires parcel.Valid() && iter.Valid() && iter.next < |iter.children|
    requires exists t :: Generic(t) && AllOfType(iter.children, t)
    modifies parcel, iter
    ensures parcel.Valid() && iter.Valid() && iter.next == old(iter.next) + 1
    ensures Fits(iter.children[old(iter.next)]) ==>
              status == STATUS_OK && parcel.Wrote(Encode(iter.children[old(iter.next)]))
    decreases iter.children, 0
  {
    hide Overwrite, Encode, Fits;
    var child := iter.NextValue();
    assert WellTyped(child.value) && Sent(h, child.value) == child.value;
    status := WriteVariant(h, parcel, child.value);
  }

  /** `AParcel_writeParcelableArray` with that callback: a count, then one call for each
      index from 0 up, until one fails. The iterator stays in step with the index and, if
      nothing fails, ends exhausted. */
  method WriteParcelableArray(h: Platform, parcel: Parcel, iter: GVariantIter, length: int32) returns (status: Status)
    requires parcel.Valid() && iter.next == 0 && length == Wrap32(|iter.children|)
    requires exists t :: Generic(t) && AllOfType(iter.children, t)
    modifies parcel, iter
    ensures parcel.Valid()
    ensures |iter.children| < TWO_31 && FitsAll(iter.children) ==>
              status == STATUS_OK && iter.next == |iter.children| &&
              parcel.Wrote(Int32(|iter.children|) + EncodeAll(iter.children))
    ensures length < 0 ==> status == STATUS_BAD_VALUE && unchanged(parcel)
    decreases iter.children, 1
  {
    hide Overwrite, Encode, EncodeAll, Int32, Wrap32, Fits;
    ghost var start, pos, cs := parcel.data, parcel.pos, iter.children;
    ghost var fits := |cs| < TWO_31 && FitsAll(cs);
    WrapCount(|cs|);
    if length < 0 {
      return STATUS_BAD_VALUE;
    }
    parcel.WriteInt32(length);
    CountedElements(Arr(TVariant, cs));
    status := STATUS_OK;
    var index := 0;
    while index < length && status == STATUS_OK
      invariant 0 <= index <= length && iter.next == index && parcel.Valid()
      invariant fits ==> status == STATUS_OK && parcel.Wrote(Int32(length) + EncodeAll(cs[..index]))
    {
      status := ArrayElementWriter(h, parcel, iter, index);
      NextElement(start, pos, Int32(length), cs, index);
      index := index + 1;
    }
  }

  // ----- the second encoder for arrays of dictionaries

  /** `poc_write_gvariant_element`: by index, with a constant flag. */
  method WriteGVariantElement(parcel: Parcel, variants: seq<Variant>, index: nat) returns (status: Status)
    requires parcel.Valid() && index < |variants| && AllOfType(variants, TArray(TEntry))
    modifies parcel
    ensures status == STATUS_OK && parcel.Wrote(Encode(variants[index]))
  {
    hide Overwrite, Int32, EncodeBundle, BundleOf;
    ghost var start, pos := parcel.data, parcel.pos;
    var bundle := VardictToBundle(variants[index]);
    parcel.WriteInt32(1);
    status := bundle.WriteToParcel(parcel);
    OverwriteTwice(start, pos, Int32(1), EncodeBundle(bundle.slots));
  }

  /** `AParcel_writeParcelableArray` with that element writer leaves the very bytes that
      `WriteVariant` leaves for the same dictionaries as one `aa{sv}` value. */
  method WriteDictArray(parcel: Parcel, variants: seq<Variant>, length: int32) returns (status: Status)
    requires parcel.Valid() && AllOfType(variants, TArray(TEntry)) && length == Wrap32(|variants|)
    modifies parcel
    ensures |variants| < TWO_31 ==> status == STATUS_OK && parcel.Wrote(Encode(Arr(TArray(TEntry), variants)))
    ensures length < 0 ==> status == STATUS_BAD_VALUE && unchanged(parcel)
  {
    hide Overwrite, Encode, EncodeAll, Int32, Wrap32;
    ghost var start, pos := parcel.data, parcel.pos;
    WrapCount(|variants|);
    if length < 0 {
      return STATUS_BAD_VALUE;
    }
    parcel.WriteInt32(length);
    CountedElements(Arr(TArray(TEntry), variants));
    status := STATUS_OK;
    var index := 0;
    while index < length
      invariant 0 <= index <= length && status == STATUS_OK
      invariant parcel.Wrote(Int32(length) + EncodeAll(variants[..index]))
    {
      status := WriteGVariantElement(parcel, variants, index);
      NextElement(start, pos, Int32(length), variants, index);
      index := index + 1;
    }
  }
}
