/** Writer and reader together: what a client gets for a value handed to the writer. */
module Transmission {
  import opened Bytes
  import opened Variants
  import opened Vardict
  import opened BundleFormat
  import opened Narrowing
  import opened Encoding
  import opened Decoding
  import opened Parcels
  import opened Writer

  /** The platform does not come between this value and its reader. It matters only for a
      value that is itself a non-zero uint64 (read with the int64 getter) or a non-empty
      string (its length and its getter are arguments of one call). */
  predicate Undisturbed(h: Platform, v: Variant) {
    !(h.getters.Checked? && v.U64? && v.u64 != 0) &&
    !(h.arguments.RightToLeft? && v.Str? && v.s != [])
  }

  lemma SentFacts(h: Platform, v: Variant)
    requires WellTyped(v) && Fits(v)
    ensures WellTyped(Sent(h, v)) && Fits(Sent(h, v)) && TypeOf(Sent(h, v)) == TypeOf(v)
    ensures View(Sent(h, v)) == View(v) <==> Undisturbed(h, v)
  {
  }

  /** A reader who knows the type gets the view of the value if and only if the value is
      undisturbed; arrays and dictionaries, however nested, always are. */
  lemma {:induction false} TransmittedIffUndisturbed(h: Platform, v: Variant, rest: Bytes)
    requires WellTyped(v) && Fits(v)
    ensures Decode(TypeOf(v), Encode(Sent(h, v)) + rest) == Some((View(v), rest)) <==> Undisturbed(h, v)
    ensures v.Arr? ==> Undisturbed(h, v)
  {
    hide Decode, Encode, Sent, View, WellTyped, Fits, TypeOf;
    SentFacts(h, v);
    RoundTrip(Sent(h, v), rest);
  }

  // ----- what the client is shown

  /** `r` shows a client the very value `v`: its number or text, its elements in order, and
      for a dictionary the same keys with the same values. */
  ghost predicate Shows(v: Variant, r: Received)
    decreases v
  {
    match v
    case Str(s) => r == RText(s)
    case Arr(elem, children) =>
      if elem.TEntry? then r.RBundle? && MatchesDict(children, r.slots)
      else r.RArray? && ShowsAll(children, r.items)
    case _ => r == RNumber(Num(v))
  }

  ghost predicate ShowsAll(vs: seq<Variant>, rs: seq<Received>)
    decreases vs
  {
    |vs| == |rs| && (vs == [] || (Shows(vs[0], rs[0]) && ShowsAll(vs[1..], rs[1..])))
  }

  /** Every dictionary in the value is exact. */
  predicate Survives(v: Variant)
    decreases v
  {
    v.Arr? ==> if v.elem.TEntry? then ExactDict(v.children) else SurvivesAll(v.children)
  }

  predicate SurvivesAll(vs: seq<Variant>)
    decreases vs
  {
    vs == [] || (Survives(vs[0]) && SurvivesAll(vs[1..]))
  }

  /** Something is written for every part of the value: its class is handled, and so are
      the classes of all elements there are. */
  predicate Written(v: Variant)
    decreases v
  {
    match v
    case Arr(elem, children) => elem.TEntry? || WrittenAll(children)
    case _ => Handled(TypeOf(v))
  }

  predicate WrittenAll(vs: seq<Variant>)
    decreases vs
  {
    vs == [] || (Written(vs[0]) && WrittenAll(vs[1..]))
  }

  lemma {:induction false} HandledIsWritten(v: Variant)
    requires WellTyped(v) && Handled(TypeOf(v))
    ensures Written(v)
    decreases v
  {
    if v.Arr? && !v.elem.TEntry? {
      AllHandledAreWritten(v.children, v.elem);
    }
  }

  lemma {:induction false} AllHandledAreWritten(vs: seq<Variant>, t: Ty)
    requires AllOfType(vs, t) && Handled(t)
    ensures WrittenAll(vs)
    decreases vs
  {
    hide Written, Handled;
    if vs == [] {
    } else {
      HandledIsWritten(vs[0]);
      AllHandledAreWritten(vs[1..], t);
    }
  }

  lemma {:induction false} ViewShows(v: Variant)
    requires WellTyped(v)
    ensures Shows(v, View(v)) ==> Survives(v)
    ensures Shows(v, View(v)) ==> Written(v)
    ensures Survives(v) && Written(v) ==> Shows(v, View(v))
    decreases v
  {
    hide BundleOf, MatchesDict, ExactDict;
    if v.Arr? {
      if v.elem.TEntry? {
        DictFaithfulIffExact(v.children);
      } else {
        ViewsShow(v.children, v.elem);
      }
    }
  }

  lemma {:induction false} ViewsShow(vs: seq<Variant>, t: Ty)
    requires AllOfType(vs, t)
    ensures ShowsAll(vs, ViewAll(vs)) <==> SurvivesAll(vs) && WrittenAll(vs)
    decreases vs
  {
    hide View, Shows, Survives, Written, WellTyped;
    if vs == [] {
    } else {
      ViewShows(vs[0]);
      ViewsShow(vs[1..], t);
      assert ViewAll(vs)[0] == View(vs[0]) && ViewAll(vs)[1..] == ViewAll(vs[1..]);
    }
  }

  lemma SentShows(h: Platform, v: Variant)
    requires WellTyped(v)
    ensures Shows(v, View(Sent(h, v))) <==> Undisturbed(h, v) && Survives(v) && Written(v)
  {
    hide ExactDict, MatchesDict, WrittenAll, SurvivesAll, ShowsAll;
    ViewShows(v);
  }

  /** Sending any value end to end, with any bytes behind it: the client reads some `r` and
      stops where the value ends, and `r` shows the value exactly when the platform leaves it
      alone, every part of it is of a handled class and, in every dictionary, the last entry
      of each key is of a supported type and holds integers that fit where the bundle puts
      them. */
  lemma {:induction false} ClientSeesValue(h: Platform, v: Variant, rest: Bytes) returns (r: Received)
    requires WellTyped(v) && Fits(v)
    ensures Decode(TypeOf(v), Encode(Sent(h, v)) + rest) == Some((r, rest))
    ensures Shows(v, r) ==> Undisturbed(h, v)
    ensures Shows(v, r) ==> Survives(v)
    ensures Shows(v, r) ==> Written(v)
    ensures Undisturbed(h, v) && Survives(v) && Written(v) ==> Shows(v, r)
  {
    hide Decode, Encode, Sent, View, WellTyped, Fits, TypeOf, Shows, Survives, Written, Undisturbed;
    SentFacts(h, v);
    r := View(Sent(h, v));
    RoundTrip(Sent(h, v), rest);
    SentShows(h, v);
  }

  /** For a handled type the size of the parcel is all there is to check about counts, and
      everything is written. */
  lemma {:induction false} ClientSeesHandledValue(h: Platform, v: Variant, rest: Bytes) returns (r: Received)
    requires WellTyped(v) && Handled(TypeOf(v)) && |Encode(v)| < TWO_31
    ensures Decode(TypeOf(v), Encode(Sent(h, v)) + rest) == Some((r, rest))
    ensures Shows(v, r) ==> Undisturbed(h, v)
    ensures Shows(v, r) ==> Survives(v)
    ensures Undisturbed(h, v) && Survives(v) ==> Shows(v, r)
  {
    hide Decode, Encode, Sent, View, WellTyped, Fits, TypeOf, Shows, Survives, Written, Undisturbed;
    SmallParcelFits(v);
    HandledIsWritten(v);
    r := ClientSeesValue(h, v, rest);
  }

  /** What a client reads for each scalar is the number itself. */
  lemma ScalarReadBack(v: Variant, rest: Bytes)
    ensures v.Bool? ==> Decode(TBool, Encode(v) + rest) == Some((RNumber(if v.b then 1 else 0), rest))
    ensures v.Byte? ==> Decode(TByte, Encode(v) + rest) == Some((RNumber(v.y), rest))
    ensures v.I32? ==> Decode(TInt32, Encode(v) + rest) == Some((RNumber(v.i32), rest))
    ensures v.U32? ==> Decode(TUint32, Encode(v) + rest) == Some((RNumber(v.u32), rest))
    ensures v.I64? ==> Decode(TInt64, Encode(v) + rest) == Some((RNumber(v.i64), rest))
    ensures v.U64? ==> Decode(TUint64, Encode(v) + rest) == Some((RNumber(v.u64), rest))
    ensures v.Double? ==> Decode(TDouble, Encode(v) + rest) == Some((RNumber(v.bits), rest))
  {
    hide Decode, Encode;
    if IsNumeric(TypeOf(v)) && !v.I16? && !v.U16? {
      RoundTrip(v, rest);
    }
  }

  /** A tuple vanishes: nothing is written for it, and nothing is read. */
  lemma TupleVanishes()
    ensures var v := Tuple([I32(5)]);
            Encode(v) == [] && Decode(TypeOf(v), Encode(v) + []) == Some((RNothing, [])) && !Shows(v, RNothing)
  {
    UnhandledRoundTrip(Tuple([I32(5)]), []);
  }

  /** The elements of an array of int16 vanish: the client reads an array of nothing. */
  lemma Int16ElementVanishes()
    ensures var v := Arr(TInt16, [I16(1)]);
            View(v) == RArray([RNothing]) && !Written(v) && !Shows(v, RArray([RNothing]))
  {
    var v := Arr(TInt16, [I16(1)]);
    assert v.children[1..] == [] && ViewAll([]) == [];
    assert ViewAll(v.children) == [RNothing];
    assert !Written(I16(1));
    ViewShows(v);
  }

  lemma EmptyBundleIsSmall()
    ensures |EncodeBundle([])| < TWO_31
  {
    hide Int32;
  }

  /** A client reads an empty bundle for a dictionary whose only entry is a byte array. */
  lemma DroppedEntryIsNotShown()
    ensures var v := Arr(TEntry, [Entry([97], Arr(TByte, [Byte(1)]))]);
            Decode(TypeOf(v), Encode(v) + []) == Some((RBundle([]), [])) && !Shows(v, RBundle([]))
  {
    hide Decode, Encode, MatchesDict, BundleOf, EncodeBundle, AllOfType;
    var entries := [Entry([97], Arr(TByte, [Byte(1)]))];
    UnsupportedEntryIsDropped();
    EmptyBundleIsSmall();
    DictRoundTrip(entries, []);
  }

  lemma CheckedGetterLosesUint64()
    ensures var h := Platform(Checked, LeftToRight);
            Decode(TUint64, Encode(Sent(h, U64(1))) + []) == Some((RNumber(0), []))
  {
    RoundTrip(U64(0), []);
  }

  lemma LateLengthLosesString()
    ensures var h := Platform(Unchecked, RightToLeft);
            Decode(TString, Encode(Sent(h, Str([104]))) + []) == Some((RText([]), []))
  {
    RoundTrip(Str([]), []);
  }

  /** A reply: write the status header (its bytes are the library's) and the value into a
      fresh parcel, ask for the size and marshal the whole parcel. */
  method MarshalReply(h: Platform, header: Bytes, v: Variant) returns (buffer: array<byte>)
    requires WellTyped(v) && Fits(v) && |header| + |Encode(Sent(h, v))| < TWO_31
    ensures buffer[..] == header + Encode(Sent(h, v))
    ensures buffer.Length == |header| + 4 * WordCount(Sent(h, v))
  {
    hide Encode, Sent, WellTyped, Fits, WordCount, Overwrite;
    var parcel := new Parcel();
    parcel.WriteRaw(header);
    var status := WriteVariant(h, parcel, v);
    ghost var bytes := header + Encode(Sent(h, v));
    OverwriteTwice([], 0, header, Encode(Sent(h, v)));
    OverwriteFrame([], 0, bytes);
    assert parcel.data == [] + bytes == bytes;
    SizeExact(Sent(h, v));
    var size := parcel.GetDataSize();
    buffer := new byte[size](_ => 0);
    status := parcel.Marshal(buffer, 0, size);
    assert buffer[..] == buffer[..size] && parcel.data[0..size] == parcel.data;
  }
}
