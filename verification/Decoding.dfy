/** The receiving side: a reader driven by the type alone, and what it can and cannot tell
    about the value that was sent. */
module Decoding {
  import opened Bytes
  import opened Variants
  import opened Bundles
  import opened Vardict
  import opened Collisions
  import opened BundleFormat
  import opened Encoding

  /** What arrives: numbers, texts, bundles, arrays, and nothing at all for a class the
      writer does not handle. */
  datatype Received =
    | RNumber(n: int)
    | RText(s: Text)
    | RBundle(slots: seq<Slot>)
    | RArray(items: seq<Received>)
    | RNothing

  function View(v: Variant): Received
    decreases v
  {
    match v
    case Str(s) => RText(s)
    case Arr(elem, children) => if elem.TEntry? then RBundle(BundleOf(children)) else RArray(ViewAll(children))
    case _ => if Handled(TypeOf(v)) then RNumber(Num(v)) else RNothing
  }

  function ViewAll(vs: seq<Variant>): (r: seq<Received>)
    ensures |r| == |vs|
    decreases vs
  {
    if vs == [] then [] else [View(vs[0])] + ViewAll(vs[1..])
  }

  // ----- the reader

  function Numbers(bs: Bytes): (r: seq<Received>)
    ensures |r| == |bs|
  {
    seq(|bs|, i requires 0 <= i < |bs| => RNumber(bs[i]))
  }

  function Number(r: Option<(int, Bytes)>, decode: int -> int): Option<(Received, Bytes)> {
    match r
    case None => None
    case Some((n, rest)) => Some((RNumber(decode(n)), rest))
  }

  function Decode(t: Ty, bs: Bytes): Option<(Received, Bytes)>
    decreases t, 0
  {
    match t
    case TBool => Number(ReadInt32(bs), n => if n != 0 then 1 else 0)
    case TByte => Number(ReadInt32(bs), n => n % 256)
    case TInt32 => Number(ReadInt32(bs), n => n)
    case TUint32 => Number(ReadInt32(bs), n => n % TWO_32)
    case TInt64 => Number(ReadInt64(bs), n => n)
    case TUint64 => Number(ReadInt64(bs), n => n % TWO_64)
    case TDouble => Number(ReadInt64(bs), n => n % TWO_64)
    case TString =>
      (match ReadBlob(bs)
       case None => None
       case Some((s, rest)) => Some((RText(s), rest)))
    case TArray(elem) =>
      if elem.TEntry? then DecodeNullableBundle(bs)
      else if elem.TByte? then
        match ReadBlob(bs)
        case None => None
        case Some((s, rest)) => Some((RArray(Numbers(s)), rest))
      else
        (match ReadCount(bs)
         case None => None
         case Some((n, rest)) =>
           match DecodeMany(elem, n, rest)
           case None => None
           case Some((items, rest')) => Some((RArray(items), rest')))
    case _ => Some((RNothing, bs))
  }

  function DecodeNullableBundle(bs: Bytes): Option<(Received, Bytes)> {
    match ReadInt32(bs)
    case None => None
    case Some((flag, rest)) =>
      if flag == 0 then Some((RNothing, rest))
      else
        match DecodeBundle(rest)
        case None => None
        case Some((slots, rest')) => Some((RBundle(slots), rest'))
  }

  function DecodeMany(t: Ty, n: nat, bs: Bytes): Option<(seq<Received>, Bytes)>
    decreases t, n + 1
  {
    if n == 0 then Some(([], bs))
    else
      match Decode(t, bs)
      case None => None
      case Some((x, rest)) =>
        match DecodeMany(t, n - 1, rest)
        case None => None
        case Some((xs, rest')) => Some(([x] + xs, rest'))
  }

  // ----- round trip

  lemma WordRoundTrip(v: Variant, rest: Bytes)
    requires v.Bool? || v.Byte? || v.I32? || v.U32?
    ensures Decode(TypeOf(v), Encode(v) + rest) == Some((RNumber(Num(v)), rest))
  {
    hide Int32, ReadInt32, Wrap8, Wrap32;
    WrapCongruent(Num(v), 0);
    match v
    case Bool(b) => ReadInt32Of(if b then 1 else 0, rest);
    case Byte(n) => ReadInt32Of(Wrap8(n), rest);
    case I32(n) => ReadInt32Of(n, rest);
    case U32(n) => ReadInt32Of(n, rest);
  }

  lemma LongRoundTrip(v: Variant, rest: Bytes)
    requires v.I64? || v.U64? || v.Double?
    ensures Decode(TypeOf(v), Encode(v) + rest) == Some((RNumber(Num(v)), rest))
  {
    hide Int64, ReadInt64, Wrap64;
    WrapCongruent(Num(v), 0);
    ReadInt64Of(Num(v), rest);
  }

  lemma BytesView(children: seq<Variant>)
    requires AllOfType(children, TByte)
    ensures Numbers(RawBytes(children)) == ViewAll(children)
  {
    forall i | 0 <= i < |children| ensures Numbers(RawBytes(children))[i] == ViewAll(children)[i] {
      ViewAllAt(children, i);
    }
  }

  lemma NumbersInjective(a: Bytes, b: Bytes)
    requires Numbers(a) == Numbers(b)
    ensures a == b
  {
    assert |a| == |b|;
    forall i | 0 <= i < |a| ensures a[i] == b[i] {
      assert Numbers(a)[i] == Numbers(b)[i];
    }
  }

  lemma {:induction false} ViewAllAt(vs: seq<Variant>, i: nat)
    requires i < |vs|
    ensures ViewAll(vs)[i] == View(vs[i])
  {
    if i == 0 {
    } else {
      ViewAllAt(vs[1..], i - 1);
    }
  }

  lemma BundleViewRoundTrip(children: seq<Variant>, rest: Bytes)
    requires |EncodeBundle(BundleOf(children))| < TWO_31
    ensures DecodeNullableBundle(Int32(1) + EncodeBundle(BundleOf(children)) + rest) ==
            Some((RBundle(BundleOf(children)), rest))
  {
    hide Int32, ReadInt32, EncodeBundle, DecodeBundle, BundleOf;
    var b := EncodeBundle(BundleOf(children));
    ReadInt32Of(1, b + rest);
    BundleRoundTrip(BundleOf(children), rest);
    assert Int32(1) + b + rest == Int32(1) + (b + rest);
  }

  lemma StringRoundTrip(s: Text, rest: Bytes)
    requires |s| < TWO_31
    ensures Decode(TString, Encode(Str(s)) + rest) == Some((RText(s), rest))
  {
    hide Blob, ReadBlob;
    ReadBlobOf(s, rest);
  }

  lemma ByteArrayRoundTrip(children: seq<Variant>, rest: Bytes)
    requires AllOfType(children, TByte) && |children| < TWO_31
    ensures Decode(TArray(TByte), Encode(Arr(TByte, children)) + rest) == Some((RArray(ViewAll(children)), rest))
  {
    hide Blob, ReadBlob, RawBytes, ViewAll, Numbers, AllOfType;
    ReadBlobOf(RawBytes(children), rest);
    BytesView(children);
  }

  lemma DictRoundTrip(children: seq<Variant>, rest: Bytes)
    requires |EncodeBundle(BundleOf(children))| < TWO_31
    ensures Decode(TArray(TEntry), Encode(Arr(TEntry, children)) + rest) == Some((RBundle(BundleOf(children)), rest))
  {
    hide EncodeBundle, DecodeNullableBundle, BundleOf, Int32;
    BundleViewRoundTrip(children, rest);
  }

  /** A count and the children, given that the children are read back. */
  lemma CountedRoundTrip(elem: Ty, children: seq<Variant>, rest: Bytes)
    requires !elem.TEntry? && !elem.TByte? && |children| < TWO_31
    requires DecodeMany(elem, |children|, EncodeAll(children) + rest) == Some((ViewAll(children), rest))
    ensures Decode(TArray(elem), Encode(Arr(elem, children)) + rest) == Some((RArray(ViewAll(children)), rest))
  {
    hide Int32, ReadCount, EncodeAll, DecodeMany, ViewAll;
    var head, body := Int32(|children|), EncodeAll(children);
    assert head + body + rest == head + (body + rest);
    ReadCountOf(|children|, body + rest);
  }

  lemma UnhandledRoundTrip(v: Variant, rest: Bytes)
    requires !v.Str? && !v.Arr? && !Handled(TypeOf(v))
    ensures Decode(TypeOf(v), Encode(v) + rest) == Some((View(v), rest))
  {
    assert Encode(v) + rest == rest;
  }

  lemma ViewOfArray(v: Variant)
    requires v.Arr?
    ensures View(v) == if v.elem.TEntry? then RBundle(BundleOf(v.children)) else RArray(ViewAll(v.children))
    ensures TypeOf(v) == TArray(v.elem) && v == Arr(v.elem, v.children)
  {
    hide BundleOf, ViewAll;
  }

  lemma ViewOfScalar(v: Variant)
    requires !v.Arr? && Handled(TypeOf(v))
    ensures View(v) == if v.Str? then RText(v.s) else RNumber(Num(v))
    ensures v.Str? <==> TypeOf(v) == TString
  {
    hide Num;
  }

  /** Whatever follows in the parcel, the reader gets the view of the value that was
      written and stops exactly where the writer did. */
  lemma {:induction false} RoundTrip(v: Variant, rest: Bytes)
    requires WellTyped(v) && Fits(v)
    ensures Decode(TypeOf(v), Encode(v) + rest) == Some((View(v), rest))
    decreases v
  {
    hide Decode, Encode, View, BundleOf, EncodeBundle, AllOfType, FitsAll;
    if v.Arr? {
      ViewOfArray(v);
      if v.elem.TEntry? {
        DictRoundTrip(v.children, rest);
      } else if v.elem.TByte? {
        ByteArrayRoundTrip(v.children, rest);
      } else {
        RoundTripAll(v.children, v.elem, rest);
        CountedRoundTrip(v.elem, v.children, rest);
      }
    } else if !Handled(TypeOf(v)) {
      UnhandledRoundTrip(v, rest);
    } else {
      ViewOfScalar(v);
      if v.Str? {
        StringRoundTrip(v.s, rest);
      } else if v.I64? || v.U64? || v.Double? {
        LongRoundTrip(v, rest);
      } else {
        WordRoundTrip(v, rest);
      }
    }
  }

  lemma {:induction false} RoundTripAll(vs: seq<Variant>, t: Ty, rest: Bytes)
    requires AllOfType(vs, t) && FitsAll(vs)
    ensures DecodeMany(t, |vs|, EncodeAll(vs) + rest) == Some((ViewAll(vs), rest))
    decreases vs
  {
    hide Encode, View, Decode, Fits, WellTyped, TypeOf;
    if vs == [] {
      assert EncodeAll(vs) + rest == rest;
    } else {
      var tail := EncodeAll(vs[1..]) + rest;
      RoundTrip(vs[0], tail);
      RoundTripAll(vs[1..], t, rest);
      assert EncodeAll(vs) + rest == Encode(vs[0]) + tail;
    }
  }

  /** For a handled type the only thing to check is that the parcel stays below 2^31 bytes. */
  lemma {:induction false} SmallParcelFits(v: Variant)
    requires WellTyped(v) && Handled(TypeOf(v)) && |Encode(v)| < TWO_31
    ensures Fits(v)
    decreases v
  {
    if v.Arr? && !v.elem.TEntry? && !v.elem.TByte? {
      CountBoundedBySize(v.children, v.elem);
      SmallParcelsFit(v.children, v.elem);
    }
  }

  lemma {:induction false} SmallParcelsFit(vs: seq<Variant>, t: Ty)
    requires AllOfType(vs, t) && Handled(t) && |EncodeAll(vs)| < TWO_31
    ensures FitsAll(vs)
    decreases vs
  {
    hide Encode, Fits;
    if vs == [] {
    } else {
      SmallParcelFits(vs[0]);
      SmallParcelsFit(vs[1..], t);
      assert vs == [vs[0]] + vs[1..];
    }
  }

  // ----- full abstraction

  lemma EncodeOfArray(v: Variant)
    requires v.Arr?
    ensures Encode(v) == if v.elem.TEntry? then Int32(1) + EncodeBundle(BundleOf(v.children))
                         else if v.elem.TByte? then Blob(RawBytes(v.children))
                         else Int32(|v.children|) + EncodeAll(v.children)
  {
    hide Int32, EncodeBundle, BundleOf, Blob, RawBytes, EncodeAll;
  }

  lemma UnhandledWritesNothing(v: Variant)
    requires !v.Arr? && !Handled(TypeOf(v))
    ensures Encode(v) == []
  {
  }

  /** The view is also enough to rebuild the bytes. */
  lemma {:induction false} ViewDeterminesBytes(v: Variant, w: Variant)
    requires WellTyped(v) && WellTyped(w) && TypeOf(v) == TypeOf(w) && View(v) == View(w)
    ensures Encode(v) == Encode(w)
    decreases v
  {
    hide Encode, View, Handled, EncodeBundle, BundleOf, RawBytes, AllOfType;
    assert v.Arr? <==> w.Arr?;
    if v.Arr? {
      ViewOfArray(v);
      ViewOfArray(w);
      EncodeOfArray(v);
      EncodeOfArray(w);
      if v.elem.TByte? {
        BytesView(v.children);
        BytesView(w.children);
        NumbersInjective(RawBytes(v.children), RawBytes(w.children));
      } else if !v.elem.TEntry? {
        ViewsDetermineBytes(v.children, w.children, v.elem);
        assert |ViewAll(v.children)| == |v.children| && |ViewAll(w.children)| == |w.children|;
      }
    } else if Handled(TypeOf(v)) {
      ScalarDetermined(v, w);
    } else {
      UnhandledWritesNothing(v);
      UnhandledWritesNothing(w);
    }
  }

  lemma ScalarDetermined(v: Variant, w: Variant)
    requires !v.Arr? && !w.Arr? && TypeOf(v) == TypeOf(w) && Handled(TypeOf(v)) && View(v) == View(w)
    ensures v == w
  {
    hide View, Num;
    ViewOfScalar(v);
    ViewOfScalar(w);
    BasicValueDetermined(v, w);
  }

  lemma {:induction false} ViewsDetermineBytes(a: seq<Variant>, b: seq<Variant>, t: Ty)
    requires AllOfType(a, t) && AllOfType(b, t) && ViewAll(a) == ViewAll(b)
    ensures EncodeAll(a) == EncodeAll(b)
    decreases a
  {
    hide Encode, View;
    assert |a| == |b|;
    if a == [] {
    } else {
      assert ViewAll(a)[0] == ViewAll(b)[0] && ViewAll(a)[1..] == ViewAll(b)[1..];
      ViewDeterminesBytes(a[0], b[0]);
      ViewsDetermineBytes(a[1..], b[1..], t);
    }
  }

  /** Two values of one type, handled or not, are written alike exactly when their views
      are equal: the view is all that the encoding keeps and it keeps all of it. */
  lemma SameBytesIffSameView(v: Variant, w: Variant)
    requires WellTyped(v) && WellTyped(w) && TypeOf(v) == TypeOf(w) && Fits(v) && Fits(w)
    ensures Encode(v) == Encode(w) <==> View(v) == View(w)
  {
    hide Encode, View, Decode, Fits, WellTyped, TypeOf;
    if Encode(v) == Encode(w) {
      RoundTrip(v, []);
      RoundTrip(w, []);
      assert Encode(v) + [] == Encode(w) + [];
    }
    if View(v) == View(w) {
      ViewDeterminesBytes(v, w);
    }
  }

  /** No encoding is a proper prefix of another of its type: with any bytes behind them,
      equal streams begin with the same value and go on with the same rest. */
  lemma {:induction false} PrefixFree(v: Variant, w: Variant, r: Bytes, s: Bytes)
    requires WellTyped(v) && WellTyped(w) && TypeOf(v) == TypeOf(w) && Fits(v) && Fits(w)
    requires Encode(v) + r == Encode(w) + s
    ensures View(v) == View(w)
    ensures Encode(v) == Encode(w) && r == s
  {
    hide Encode, View, Decode, Fits, WellTyped, TypeOf;
    RoundTrip(v, r);
    RoundTrip(w, s);
    ViewDeterminesBytes(v, w);
  }

  lemma FirstOf(vs: seq<Variant>)
    requires vs != []
    ensures EncodeAll(vs) == Encode(vs[0]) + EncodeAll(vs[1..]) && ViewAll(vs) == [View(vs[0])] + ViewAll(vs[1..])
  {
    hide Encode, View;
  }

  /** Concatenated encodings of a handled type split in one way only, even without a count. */
  lemma {:induction false} UniqueSplitting(vs: seq<Variant>, ws: seq<Variant>, t: Ty)
    requires Handled(t) && AllOfType(vs, t) && AllOfType(ws, t) && FitsAll(vs) && FitsAll(ws)
    requires EncodeAll(vs) == EncodeAll(ws)
    ensures ViewAll(vs) == ViewAll(ws)
  {
    hide Encode, View, Fits, WellTyped, Handled, EncodeAll, ViewAll, TypeOf;
    if vs == [] || ws == [] {
      CountBoundedBySize(vs, t);
      CountBoundedBySize(ws, t);
      NothingEncoded();
    } else {
      FirstOf(vs);
      FirstOf(ws);
      PrefixFree(vs[0], ws[0], EncodeAll(vs[1..]), EncodeAll(ws[1..]));
      UniqueSplitting(vs[1..], ws[1..], t);
    }
  }

  lemma NothingEncoded()
    ensures EncodeAll([]) == []
  {
  }

  // ----- exact reach

  /** The type an array of arrays bottoms out at is `a{sv}`. */
  predicate EndsInDict(t: Ty) {
    t.TArray? && (t.elem.TEntry? || EndsInDict(t.elem))
  }

  /** A view without bundles is the value. */
  lemma {:induction false} ViewInjective(v: Variant, w: Variant)
    requires WellTyped(v) && WellTyped(w) && TypeOf(v) == TypeOf(w) && View(v) == View(w)
    requires Handled(TypeOf(v)) && !EndsInDict(TypeOf(v))
    ensures v == w
    decreases v
  {
    if v.Arr? {
      ViewsInjective(v.children, w.children, v.elem);
    } else {
      BasicValueDetermined(v, w);
    }
  }

  lemma {:induction false} ViewsInjective(a: seq<Variant>, b: seq<Variant>, t: Ty)
    requires AllOfType(a, t) && AllOfType(b, t) && ViewAll(a) == ViewAll(b)
    requires Handled(t) && !EndsInDict(t)
    ensures a == b
    decreases a
  {
    hide View, Handled, EndsInDict;
    assert |a| == |b|;
    if a == [] {
    } else {
      assert ViewAll(a)[0] == ViewAll(b)[0] && ViewAll(a)[1..] == ViewAll(b)[1..];
      ViewInjective(a[0], b[0]);
      ViewsInjective(a[1..], b[1..], t);
      assert a == [a[0]] + a[1..] && b == [b[0]] + b[1..];
    }
  }

  /** The nesting of array lengths, with everything below the arrays erased. */
  datatype Shape = Leaf | Node(items: seq<Shape>)

  function ShapeOf(v: Variant): Shape
    decreases v
  {
    if v.Arr? then Node(ShapesOf(v.children)) else Leaf
  }

  function ShapesOf(vs: seq<Variant>): (r: seq<Shape>)
    ensures |r| == |vs|
    decreases vs
  {
    if vs == [] then [] else [ShapeOf(vs[0])] + ShapesOf(vs[1..])
  }

  lemma {:induction false} UnhandledViewIsShape(v: Variant, w: Variant)
    requires WellTyped(v) && WellTyped(w) && TypeOf(v) == TypeOf(w) && !Handled(TypeOf(v))
    ensures View(v) == View(w) <==> ShapeOf(v) == ShapeOf(w)
    decreases v
  {
    if v.Arr? {
      UnhandledViewsAreShapes(v.children, w.children, v.elem);
    }
  }

  lemma {:induction false} UnhandledViewsAreShapes(a: seq<Variant>, b: seq<Variant>, t: Ty)
    requires AllOfType(a, t) && AllOfType(b, t) && !Handled(t)
    ensures ViewAll(a) == ViewAll(b) <==> ShapesOf(a) == ShapesOf(b)
    decreases a
  {
    hide View, ShapeOf, Handled;
    if a != [] && b != [] {
      UnhandledViewIsShape(a[0], b[0]);
      UnhandledViewsAreShapes(a[1..], b[1..], t);
      assert ViewAll(a)[0] == View(a[0]) && ViewAll(a)[1..] == ViewAll(a[1..]);
      assert ViewAll(b)[0] == View(b[0]) && ViewAll(b)[1..] == ViewAll(b[1..]);
      assert ShapesOf(a)[0] == ShapeOf(a[0]) && ShapesOf(a)[1..] == ShapesOf(a[1..]);
      assert ShapesOf(b)[0] == ShapeOf(b[0]) && ShapesOf(b)[1..] == ShapesOf(b[1..]);
    } else {
      assert |ViewAll(a)| == |a| && |ViewAll(b)| == |b|;
    }
  }

  /** Arrays of dictionaries that are alike, dictionary by dictionary. */
  ghost predicate AlikeArrays(v: Variant, w: Variant)
    decreases v
  {
    v.Arr? && w.Arr? &&
    if v.elem.TEntry? then AlikeDict(v.children, w.children)
    else AlikeAll(v.children, w.children)
  }

  ghost predicate AlikeAll(a: seq<Variant>, b: seq<Variant>)
    decreases a
  {
    |a| == |b| && (a == [] || (AlikeArrays(a[0], b[0]) && AlikeAll(a[1..], b[1..])))
  }

  lemma {:induction false} DictViewIsAlike(v: Variant, w: Variant)
    requires WellTyped(v) && WellTyped(w) && TypeOf(v) == TypeOf(w) && EndsInDict(TypeOf(v))
    ensures View(v) == View(w) <==> AlikeArrays(v, w)
    decreases v
  {
    hide AlikeDict, BundleOf;
    if v.elem.TEntry? {
      DictsAlike(v.children, w.children);
    } else {
      DictViewsAreAlike(v.children, w.children, v.elem);
    }
  }

  lemma {:induction false} DictViewsAreAlike(a: seq<Variant>, b: seq<Variant>, t: Ty)
    requires AllOfType(a, t) && AllOfType(b, t) && EndsInDict(t)
    ensures ViewAll(a) == ViewAll(b) <==> AlikeAll(a, b)
    decreases a
  {
    hide View, AlikeArrays, EndsInDict;
    if a != [] && b != [] {
      DictViewIsAlike(a[0], b[0]);
      DictViewsAreAlike(a[1..], b[1..], t);
      assert ViewAll(a)[0] == View(a[0]) && ViewAll(a)[1..] == ViewAll(a[1..]);
      assert ViewAll(b)[0] == View(b[0]) && ViewAll(b)[1..] == ViewAll(b[1..]);
    } else {
      assert |ViewAll(a)| == |a| && |ViewAll(b)| == |b|;
    }
  }

  /** What the encoder distinguishes, by the type at the bottom of the array nesting: for a
      handled basic type everything, for `a{sv}` the dictionaries up to `AlikeDict`, and for an
      unhandled type nothing but the lengths of the arrays. */
  lemma {:induction false} ExactReach(v: Variant, w: Variant)
    requires WellTyped(v) && WellTyped(w) && TypeOf(v) == TypeOf(w) && Fits(v) && Fits(w)
    ensures !Handled(TypeOf(v)) ==> (Encode(v) == Encode(w) <==> ShapeOf(v) == ShapeOf(w))
    ensures Handled(TypeOf(v)) && EndsInDict(TypeOf(v)) ==> (Encode(v) == Encode(w) <==> AlikeArrays(v, w))
    ensures Handled(TypeOf(v)) && !EndsInDict(TypeOf(v)) ==> (Encode(v) == Encode(w) <==> v == w)
  {
    hide Encode, Fits, AlikeArrays;
    SameBytesIffSameView(v, w);
    if !Handled(TypeOf(v)) {
      UnhandledViewIsShape(v, w);
    } else if EndsInDict(TypeOf(v)) {
      DictViewIsAlike(v, w);
    } else if View(v) == View(w) {
      ViewInjective(v, w);
    }
  }

  /** Two different arrays of int16 that are written alike: the count 1 and nothing else. */
  lemma Int16ArraysCollide()
    ensures var a, b := Arr(TInt16, [I16(1)]), Arr(TInt16, [I16(2)]);
            WellTyped(a) && WellTyped(b) && a != b && Encode(a) == Encode(b) == Int32(1)
  {
    var a, b := [I16(1)], [I16(2)];
    assert a[1..] == [] && b[1..] == [] && EncodeAll([]) == [];
    assert EncodeAll(a) == [] && EncodeAll(b) == [];
    assert Arr(TInt16, a).children[0] != Arr(TInt16, b).children[0];
  }
}
