/** Sized parcelables: the write that reserves a size slot, writes the fields, seeks back,
    patches the size and restores the cursor, nested to any depth. */
module SizedParcelables {
  import opened Bytes
  import opened Variants
  import opened Parcels

  /** A parcelable is the list of its fields; a field may be a (nullable) parcelable. */
  datatype Field =
    | FInt(n: int32)
    | FString(s: Text)
    | FNull
    | FParcelable(fields: seq<Field>)

  /** The finished bytes, sizes known in advance. The size counts its own slot. */
  function EncodeField(f: Field): Bytes
    decreases f
  {
    match f
    case FInt(n) => Int32(n)
    case FString(s) => Blob(s)
    case FNull => Int32(0)
    case FParcelable(fields) =>
      var body := EncodeFields(fields);
      Int32(1) + (Int32(4 + |body|) + body)
  }

  function EncodeFields(fs: seq<Field>): Bytes
    decreases fs
  {
    if fs == [] then [] else EncodeField(fs[0]) + EncodeFields(fs[1..])
  }

  lemma {:induction false} EncodeFieldsSnoc(fs: seq<Field>, f: Field)
    ensures EncodeFields(fs + [f]) == EncodeFields(fs) + EncodeField(f)
  {
    hide EncodeField;
    if fs == [] {
      assert [f][1..] == [] && [] + [f] == [f];
    } else {
      EncodeFieldsSnoc(fs[1..], f);
      assert (fs + [f])[1..] == fs[1..] + [f];
    }
  }

  lemma {:induction false} FieldsPrefix(fs: seq<Field>, i: nat)
    requires i <= |fs|
    ensures |EncodeFields(fs[..i])| <= |EncodeFields(fs)|
  {
    hide EncodeField;
    if i == 0 {
    } else {
      FieldsPrefix(fs[1..], i - 1);
      assert fs[..i][1..] == fs[1..][..i - 1];
    }
  }

  /** The bytes with every size slot still at its reserved 0. */
  function Unpatched(f: Field): Bytes
    decreases f
  {
    match f
    case FParcelable(fields) => Int32(1) + (Int32(0) + UnpatchedAll(fields))
    case _ => EncodeField(f)
  }

  function UnpatchedAll(fs: seq<Field>): Bytes
    decreases fs
  {
    if fs == [] then [] else Unpatched(fs[0]) + UnpatchedAll(fs[1..])
  }

  lemma {:induction false} UnpatchedSnoc(fs: seq<Field>, f: Field)
    ensures UnpatchedAll(fs + [f]) == UnpatchedAll(fs) + Unpatched(f)
  {
    hide Unpatched;
    if fs == [] {
      assert [f][1..] == [] && [] + [f] == [f];
    } else {
      UnpatchedSnoc(fs[1..], f);
      assert (fs + [f])[1..] == fs[1..] + [f];
    }
  }

  // ----- the arithmetic of the size

  /** On int32 positions the seek back succeeds and the assertion `end >= start` holds
      exactly while the parcel is below 2^31 bytes; the size is then exact and fits. */
  lemma SizeArithmetic(start: nat, end: nat)
    requires start <= end < TWO_32
    ensures (Wrap32(start) >= 0 && Wrap32(end) >= Wrap32(start)) <==> end < TWO_31
    ensures end < TWO_31 ==> Wrap32(start) == start && Wrap32(end) == end
  {
  }

  // ----- the write with back-patching

  /** The cursor has moved by the size of the encoding, or by more where a size could not be
      patched in any more, but at most by twice as much. */
  predicate Advanced(from: nat, to: nat, n: nat) {
    from + n <= to <= from + 2 * n
  }

  /** `ok` is false where the assertion would abort the program. The ghost `raw` collects what
      the forward writes put down, before any patch. */
  method WriteField(parcel: Parcel, f: Field) returns (ok: bool, ghost raw: Bytes)
    requires parcel.Valid()
    modifies parcel
    ensures parcel.Valid() && |parcel.data| >= old(|parcel.data|)
    ensures old(parcel.pos) + |EncodeField(f)| < TWO_31 ==>
              ok && parcel.Wrote(EncodeField(f)) && raw == Unpatched(f)
    ensures ok && old(parcel.pos) + 2 * |EncodeField(f)| < TWO_32 ==>
              Advanced(old(parcel.pos), parcel.pos, |EncodeField(f)|)
    ensures TWO_31 <= old(parcel.pos) && old(parcel.pos) + 2 * |EncodeField(f)| < TWO_32 ==> ok
    decreases f, 1
  {
    hide Overwrite, Int32, Blob, Wrap32, EncodeFields, UnpatchedAll;
    ok := true;
    ghost var data, pos := parcel.data, parcel.pos;
    match f {
      case FInt(n) =>
        parcel.WriteInt32(n);
        OverwriteFrame(data, pos, Int32(n));
        raw := parcel.data[pos..parcel.pos];
      case FString(s) =>
        WrapCount(|s|);
        var status := parcel.WriteString(s, Wrap32(|s|));
        assert s[..|s|] == s;
        if |s| < TWO_31 {
          OverwriteFrame(data, pos, Blob(s));
        }
        raw := parcel.data[pos..parcel.pos];
      case FNull =>
        parcel.WriteInt32(0);
        OverwriteFrame(data, pos, Int32(0));
        raw := parcel.data[pos..parcel.pos];
      case FParcelable(fields) =>
        parcel.WriteInt32(1);
        OverwriteFrame(data, pos, Int32(1));
        ghost var flag := parcel.data[pos..parcel.pos];
        ok, raw := WriteSized(parcel, fields);
        raw := flag + raw;
        ghost var sized := Int32(4 + |EncodeFields(fields)|) + EncodeFields(fields);
        OverwriteTwice(data, pos, Int32(1), sized);
    }
  }

  /** With the parcel below 2^32 bytes the finished bytes are left exactly when their end is
      below 2^31. From a start below 2^31 the assertion catches every other case; from a start
      above it passes, the seek back fails unchecked, and the size lands behind the fields. */
  method WriteSized(parcel: Parcel, fields: seq<Field>) returns (ok: bool, ghost raw: Bytes)
    requires parcel.Valid()
    modifies parcel
    ensures parcel.Valid() && |parcel.data| >= old(|parcel.data|)
    ensures old(parcel.pos) + 4 + |EncodeFields(fields)| < TWO_31 ==>
              ok && parcel.Wrote(Int32(4 + |EncodeFields(fields)|) + EncodeFields(fields)) &&
              raw == Int32(0) + UnpatchedAll(fields)
    ensures old(parcel.pos) < TWO_31 && old(parcel.pos) + 2 * (4 + |EncodeFields(fields)|) < TWO_32 ==>
              (ok <==> old(parcel.pos) + 4 + |EncodeFields(fields)| < TWO_31)
    ensures TWO_31 <= old(parcel.pos) && old(parcel.pos) + 2 * (4 + |EncodeFields(fields)|) < TWO_32 ==>
              ok && parcel.pos > old(parcel.pos) + 4 + |EncodeFields(fields)|
    ensures old(parcel.pos) + 2 * (4 + |EncodeFields(fields)|) < TWO_32 ==>
              (ok && parcel.Wrote(Int32(4 + |EncodeFields(fields)|) + EncodeFields(fields)) <==>
               old(parcel.pos) + 4 + |EncodeFields(fields)| < TWO_31)
    ensures ok && old(parcel.pos) + 2 * (4 + |EncodeFields(fields)|) < TWO_32 ==>
              Advanced(old(parcel.pos), parcel.pos, 4 + |EncodeFields(fields)|)
    decreases fields, 1
  {
    hide Overwrite, Int32, EncodeFields, Wrap32, UnpatchedAll;
    ghost var data, pos, body := parcel.data, parcel.pos, EncodeFields(fields);
    ghost var fits := pos + 4 + |body| < TWO_31;
    ghost var below := pos + 2 * (4 + |body|) < TWO_32;
    var start := parcel.GetDataPosition();
    parcel.WriteInt32(0);
    OverwriteFrame(data, pos, Int32(0));
    ghost var slot := parcel.data[pos..parcel.pos];
    ok, raw := WriteFields(parcel, fields);
    raw := slot + raw;
    if !ok {
      return;
    }
    OverwriteTwice(data, pos, Int32(0), body);
    var end := parcel.GetDataPosition();
    ghost var reached := parcel.pos;
    WrapCount(pos);
    WrapCount(reached);
    if below {
      SizeArithmetic(pos, reached);
      SizeArithmetic(reached, reached);
    }
    if fits {
      assert reached == pos + 4 + |body| && |Int32(0) + body| == 4 + |body|;
    }
    var status := parcel.SetDataPosition(start);
    if end < start {
      return false, raw;
    }
    parcel.WriteInt32((end as int) - (start as int));
    status := parcel.SetDataPosition(end);
    OverwritePatched(data, pos, Int32(0), body, Int32(4 + |body|));
  }

  method WriteFields(parcel: Parcel, fields: seq<Field>) returns (ok: bool, ghost raw: Bytes)
    requires parcel.Valid()
    modifies parcel
    ensures parcel.Valid() && |parcel.data| >= old(|parcel.data|)
    ensures old(parcel.pos) + |EncodeFields(fields)| < TWO_31 ==>
              ok && parcel.Wrote(EncodeFields(fields)) && raw == UnpatchedAll(fields)
    ensures ok && old(parcel.pos) + 2 * |EncodeFields(fields)| < TWO_32 ==>
              Advanced(old(parcel.pos), parcel.pos, |EncodeFields(fields)|)
    ensures TWO_31 <= old(parcel.pos) && old(parcel.pos) + 2 * |EncodeFields(fields)| < TWO_32 ==> ok
    decreases fields, 0
  {
    hide Overwrite, EncodeField, EncodeFields, Unpatched, UnpatchedAll;
    ghost var data, pos := parcel.data, parcel.pos;
    ghost var fits := pos + |EncodeFields(fields)| < TWO_31;
    ghost var below := pos + 2 * |EncodeFields(fields)| < TWO_32;
    ok, raw := true, [];
    NoFields(data, pos, fields);
    var i := 0;
    while i < |fields| && ok
      invariant 0 <= i <= |fields| && parcel.Valid() && |parcel.data| >= |data|
      invariant fits ==> ok && parcel.Wrote(EncodeFields(fields[..i])) && raw == UnpatchedAll(fields[..i])
      invariant ok && below ==> Advanced(pos, parcel.pos, |EncodeFields(fields[..i])|)
      invariant TWO_31 <= pos && below ==> ok
    {
      NextField(data, pos, fields, i);
      ghost var more;
      ok, more := WriteField(parcel, fields[i]);
      raw := raw + more;
      i := i + 1;
    }
  }

  lemma NoFields(data: Bytes, pos: nat, fields: seq<Field>)
    requires pos <= |data|
    ensures EncodeFields(fields[..0]) == [] && UnpatchedAll(fields[..0]) == [] && Overwrite(data, pos, []) == data
    ensures fields[..|fields|] == fields
  {
  }

  lemma NextField(data: Bytes, pos: nat, fields: seq<Field>, i: nat)
    requires pos <= |data| && i < |fields|
    ensures |EncodeFields(fields[..i + 1])| == |EncodeFields(fields[..i])| + |EncodeField(fields[i])|
    ensures |EncodeFields(fields[..i + 1])| <= |EncodeFields(fields)|
    ensures UnpatchedAll(fields[..i + 1]) == UnpatchedAll(fields[..i]) + Unpatched(fields[i])
    ensures var before := EncodeFields(fields[..i]);
            Overwrite(Overwrite(data, pos, before), pos + |before|, EncodeField(fields[i])) ==
            Overwrite(data, pos, EncodeFields(fields[..i + 1]))
  {
    hide Overwrite, EncodeField, EncodeFields, Unpatched, UnpatchedAll;
    assert fields[..i + 1] == fields[..i] + [fields[i]];
    EncodeFieldsSnoc(fields[..i], fields[i]);
    UnpatchedSnoc(fields[..i], fields[i]);
    FieldsPrefix(fields, i + 1);
    OverwriteTwice(data, pos, EncodeFields(fields[..i]), EncodeField(fields[i]));
  }

  /** The whole exchange for one device: write, ask for the size, marshal into a buffer. The
      buffer is the flag 1, the size, the id, the ido and the path, and a reader of the
      declared fields finds them in this order. */
  method MarshalDevice(id: int32, ido: int32, path: Text) returns (buffer: array<byte>)
    requires 20 + |Blob(path)| < TWO_31
    ensures buffer[..] == EncodeField(Device(id, ido, path))
    ensures buffer[..] == [1, 0, 0, 0] + Int32(12 + |Blob(path)|) + Int32(id) + Int32(ido) + Blob(path)
    ensures ReadField(KParcelable([KInt, KInt, KString]), buffer[..]) ==
            Some((FParcelable([FInt(id), FInt(ido), FString(path)]), []))
  {
    hide EncodeField, Wrap32, Int32, Blob, ReadField;
    DeviceLayout(id, ido, path, []);
    var parcel := new Parcel();
    var ok, raw := WriteField(parcel, Device(id, ido, path));
    ghost var bytes := EncodeField(Device(id, ido, path));
    OverwriteFrame([], 0, bytes);
    assert [] + bytes == bytes && bytes + [] == bytes;
    SizeArithmetic(|bytes|, |bytes|);
    var size := parcel.GetDataSize();
    buffer := new byte[size](_ => 0);
    var status := parcel.Marshal(buffer, 0, size);
    assert buffer[..] == buffer[..size] && parcel.data[0..size] == parcel.data;
  }

  function Device(id: int32, ido: int32, path: Text): Field {
    FParcelable([FInt(id), FInt(ido), FString(path)])
  }

  function OtherExample(id: int32, example: Text): Field {
    FParcelable([FInt(id), FString(example)])
  }

  /** `other` is an `OtherExample` or `FNull`. */
  function DeepExample(other: Field, id: int32, example: Text): Field {
    FParcelable([other, FInt(id), FString(example)])
  }

  // ----- every size slot, at every depth

  /** A size slot at offset `start` whose content ends at offset `end`. */
  datatype Extent = Extent(start: nat, end: nat)

  function Extents(f: Field, base: nat): seq<Extent>
    decreases f
  {
    match f
    case FParcelable(fields) =>
      [Extent(base + 4, base + |EncodeField(f)|)] + ExtentsAll(fields, base + 8)
    case _ => []
  }

  function ExtentsAll(fs: seq<Field>, base: nat): seq<Extent>
    decreases fs
  {
    if fs == [] then [] else Extents(fs[0], base) + ExtentsAll(fs[1..], base + |EncodeField(fs[0])|)
  }

  /** `bytes` carries the distance from slot to content end in the slot. */
  predicate SlotHolds(bytes: Bytes, e: Extent) {
    e.start + 4 <= e.end <= |bytes| && bytes[e.start..e.start + 4] == Int32(e.end - e.start)
  }

  /** Wherever a parcelable lands in a parcel, each of its size slots, at every nesting
      depth, holds exactly the distance from that slot to the end of its own content. */
  lemma {:induction false} SlotsHold(pre: Bytes, f: Field, post: Bytes)
    ensures forall e | e in Extents(f, |pre|) ::
              |pre| <= e.start && e.end <= |pre + EncodeField(f)| && SlotHolds(pre + EncodeField(f) + post, e)
    decreases f
  {
    hide Int32, Blob, EncodeFields;
    if f.FParcelable? {
      var body := EncodeFields(f.fields);
      var all := pre + EncodeField(f) + post;
      SlotsHoldAll(pre + Int32(1) + Int32(4 + |body|), f.fields, post);
      assert all == pre + Int32(1) + Int32(4 + |body|) + body + post;
      assert all[|pre| + 4..|pre| + 8] == Int32(4 + |body|);
    }
  }

  lemma {:induction false} SlotsHoldAll(pre: Bytes, fs: seq<Field>, post: Bytes)
    ensures forall e | e in ExtentsAll(fs, |pre|) ::
              |pre| <= e.start && e.end <= |pre + EncodeFields(fs)| && SlotHolds(pre + EncodeFields(fs) + post, e)
    decreases fs
  {
    hide EncodeField, Extents, SlotHolds;
    if fs == [] {
    } else {
      var first, tail := EncodeField(fs[0]), EncodeFields(fs[1..]);
      SlotsHold(pre, fs[0], tail + post);
      SlotsHoldAll(pre + first, fs[1..], post);
      assert pre + EncodeFields(fs) + post == pre + first + (tail + post);
      assert pre + EncodeFields(fs) + post == pre + first + tail + post;
    }
  }

  // ----- what the patches change

  predicate InSlot(extents: seq<Extent>, i: int) {
    exists e | e in extents :: e.start <= i < e.start + 4
  }

  lemma InSlotOfPart(a: seq<Extent>, b: seq<Extent>, i: int)
    ensures InSlot(a + b, i) <==> InSlot(a, i) || InSlot(b, i)
  {
    assert forall e | e in a + b :: e in a || e in b;
    assert forall e | e in a || e in b :: e in a + b;
  }

  /** All patches together keep the size and change no byte outside the size slots. */
  lemma {:induction false} PatchesStayInSlots(f: Field, base: nat)
    ensures |Unpatched(f)| == |EncodeField(f)|
    ensures forall i | 0 <= i < |EncodeField(f)| && !InSlot(Extents(f, base), base + i) ::
              Unpatched(f)[i] == EncodeField(f)[i]
    decreases f
  {
    hide Int32, Blob, EncodeFields, UnpatchedAll;
    if f.FParcelable? {
      PatchesStayInSlotsAll(f.fields, base + 8);
      forall i | 0 <= i < |EncodeField(f)| && !InSlot(Extents(f, base), base + i)
        ensures Unpatched(f)[i] == EncodeField(f)[i]
      {
        var own := Extents(f, base)[0];
        assert own in Extents(f, base);
        InSlotOfPart([own], ExtentsAll(f.fields, base + 8), base + i);
      }
    }
  }

  lemma {:induction false} PatchesStayInSlotsAll(fs: seq<Field>, base: nat)
    ensures |UnpatchedAll(fs)| == |EncodeFields(fs)|
    ensures forall i | 0 <= i < |EncodeFields(fs)| && !InSlot(ExtentsAll(fs, base), base + i) ::
              UnpatchedAll(fs)[i] == EncodeFields(fs)[i]
    decreases fs
  {
    hide EncodeField, Unpatched, Extents;
    if fs == [] {
    } else {
      var n := |EncodeField(fs[0])|;
      PatchesStayInSlots(fs[0], base);
      PatchesStayInSlotsAll(fs[1..], base + n);
      forall i | 0 <= i < |EncodeFields(fs)| && !InSlot(ExtentsAll(fs, base), base + i)
        ensures UnpatchedAll(fs)[i] == EncodeFields(fs)[i]
      {
        InSlotOfPart(Extents(fs[0], base), ExtentsAll(fs[1..], base + n), base + i);
        if i >= n {
          assert !InSlot(ExtentsAll(fs[1..], base + n), (base + n) + (i - n));
          assert UnpatchedAll(fs)[i] == UnpatchedAll(fs[1..])[i - n];
        }
      }
    }
  }

  /** Before any patch every size slot, at every depth, still holds the reserved 0. */
  lemma {:induction false} SlotsReserved(pre: Bytes, f: Field, post: Bytes)
    ensures forall e | e in Extents(f, |pre|) :: Reserved(pre + Unpatched(f) + post, e)
    decreases f
  {
    hide Int32, Blob, EncodeFields, UnpatchedAll, Reserved;
    if f.FParcelable? {
      var body := UnpatchedAll(f.fields);
      var head := pre + Int32(1) + Int32(0);
      SlotsReservedAll(head, f.fields, post);
      assert pre + Unpatched(f) + post == head + body + post;
      Int32Layout(0);
      ReservedAt(pre + Int32(1), body + post, |EncodeField(f)| + |pre|);
      assert pre + Int32(1) + [0, 0, 0, 0] + (body + post) == pre + Unpatched(f) + post;
    }
  }

  predicate Reserved(bytes: Bytes, e: Extent) {
    e.start + 4 <= |bytes| && bytes[e.start..e.start + 4] == [0, 0, 0, 0]
  }

  lemma ReservedAt(before: Bytes, after: Bytes, end: nat)
    ensures Reserved(before + [0, 0, 0, 0] + after, Extent(|before|, end))
  {
  }

  lemma {:induction false} SlotsReservedAll(pre: Bytes, fs: seq<Field>, post: Bytes)
    ensures forall e | e in ExtentsAll(fs, |pre|) :: Reserved(pre + UnpatchedAll(fs) + post, e)
    decreases fs
  {
    hide EncodeField, Extents, Reserved, Unpatched;
    if fs == [] {
    } else {
      var first, tail := Unpatched(fs[0]), UnpatchedAll(fs[1..]);
      PatchesStayInSlots(fs[0], 0);
      SlotsReserved(pre, fs[0], tail + post);
      SlotsReservedAll(pre + first, fs[1..], post);
      assert pre + UnpatchedAll(fs) + post == pre + first + (tail + post);
      assert pre + UnpatchedAll(fs) + post == pre + first + tail + post;
    }
  }

  // ----- the receiving side

  /** A declared field list, as in the AIDL parcelables. */
  datatype Kind = KInt | KString | KParcelable(fields: seq<Kind>)

  const DEVICE := KParcelable([KInt, KInt, KString])
  const OTHER_EXAMPLE := KParcelable([KInt, KString])
  const DEEP_EXAMPLE := KParcelable([OTHER_EXAMPLE, KInt, KString])

  function ReadField(k: Kind, bs: Bytes): Option<(Field, Bytes)>
    decreases k
  {
    match k
    case KInt =>
      (match ReadInt32(bs)
       case None => None
       case Some((n, rest)) => Some((FInt(n), rest)))
    case KString =>
      (match ReadBlob(bs)
       case None => None
       case Some((s, rest)) => Some((FString(s), rest)))
    case KParcelable(kinds) =>
      match ReadInt32(bs)
      case None => None
      case Some((flag, rest)) =>
        if flag == 0 then Some((FNull, rest))
        else
          match ReadInt32(rest)
          case None => None
          case Some((size, rest')) =>
            if size < 4 || size - 4 > |rest'| then None
            else
              match ReadFields(kinds, rest'[..size - 4])
              case None => None
              case Some((fields, _)) => Some((FParcelable(fields), rest'[size - 4..]))
  }

  function ReadFields(ks: seq<Kind>, bs: Bytes): Option<(seq<Field>, Bytes)>
    decreases ks
  {
    if ks == [] then Some(([], bs))
    else
      match ReadField(ks[0], bs)
      case None => None
      case Some((f, rest)) =>
        match ReadFields(ks[1..], rest)
        case None => None
        case Some((fs, rest')) => Some(([f] + fs, rest'))
  }

  /** `f` starts with the declared fields; it may carry more, at any depth. */
  predicate Conforms(k: Kind, f: Field)
    decreases k
  {
    match k
    case KInt => f.FInt?
    case KString => f.FString?
    case KParcelable(kinds) => f.FNull? || (f.FParcelable? && ConformsAll(kinds, f.fields))
  }

  predicate ConformsAll(ks: seq<Kind>, fs: seq<Field>)
    decreases ks
  {
    ks == [] || (fs != [] && Conforms(ks[0], fs[0]) && ConformsAll(ks[1..], fs[1..]))
  }

  /** The declared part of a field. */
  function Declared(k: Kind, f: Field): Field
    requires Conforms(k, f)
    decreases k
  {
    match k
    case KParcelable(kinds) => if f.FNull? then f else FParcelable(DeclaredAll(kinds, f.fields))
    case _ => f
  }

  function DeclaredAll(ks: seq<Kind>, fs: seq<Field>): seq<Field>
    requires ConformsAll(ks, fs)
    decreases ks
  {
    if ks == [] then [] else [Declared(ks[0], fs[0])] + DeclaredAll(ks[1..], fs[1..])
  }

  /** The point of the size: a reader gets its declared fields and lands behind the whole
      parcelable, even when the writer put further fields it does not know, at any depth. */
  lemma {:induction false} SizedRoundTrip(k: Kind, f: Field, rest: Bytes)
    requires Conforms(k, f) && |EncodeField(f)| < TWO_31
    ensures ReadField(k, EncodeField(f) + rest) == Some((Declared(k, f), rest))
    decreases k
  {
    hide Int32, ReadInt32, Blob, ReadBlob, EncodeFields, ReadFields;
    match f
    case FInt(n) => ReadInt32Of(n, rest);
    case FString(s) => ReadBlobOf(s, rest);
    case FNull => ReadInt32Of(0, rest);
    case FParcelable(fields) =>
      var body := EncodeFields(fields);
      var size := 4 + |body|;
      assert EncodeField(f) + rest == Int32(1) + (Int32(size) + (body + rest));
      ReadInt32Of(1, Int32(size) + (body + rest));
      ReadInt32Of(size, body + rest);
      assert (body + rest)[..size - 4] == body && (body + rest)[size - 4..] == rest;
      var _ := SizedRoundTripAll(k.fields, fields, []);
      assert body + [] == body;
  }

  lemma {:induction false} SizedRoundTripAll(ks: seq<Kind>, fs: seq<Field>, rest: Bytes) returns (left: Bytes)
    requires ConformsAll(ks, fs) && |EncodeFields(fs)| < TWO_31
    ensures ReadFields(ks, EncodeFields(fs) + rest) == Some((DeclaredAll(ks, fs), left))
    decreases ks
  {
    hide EncodeField, ReadField, Declared, Conforms;
    if ks == [] {
      left := EncodeFields(fs) + rest;
    } else {
      var tail := EncodeFields(fs[1..]) + rest;
      assert EncodeFields(fs) + rest == EncodeField(fs[0]) + tail;
      SizedRoundTrip(ks[0], fs[0], tail);
      left := SizedRoundTripAll(ks[1..], fs[1..], rest);
    }
  }

  /** Exactly the declared fields, at every depth. */
  predicate Instance(k: Kind, f: Field)
    decreases k
  {
    match k
    case KInt => f.FInt?
    case KString => f.FString?
    case KParcelable(kinds) => f.FNull? || (f.FParcelable? && InstanceAll(kinds, f.fields))
  }

  predicate InstanceAll(ks: seq<Kind>, fs: seq<Field>)
    decreases ks
  {
    |ks| == |fs| && (ks == [] || (Instance(ks[0], fs[0]) && InstanceAll(ks[1..], fs[1..])))
  }

  lemma {:induction false} InstanceDeclared(k: Kind, f: Field)
    requires Instance(k, f)
    ensures Conforms(k, f) && Declared(k, f) == f
    decreases k
  {
    if k.KParcelable? && f.FParcelable? {
      InstancesDeclared(k.fields, f.fields);
    }
  }

  lemma {:induction false} InstancesDeclared(ks: seq<Kind>, fs: seq<Field>)
    requires InstanceAll(ks, fs)
    ensures ConformsAll(ks, fs) && DeclaredAll(ks, fs) == fs
    decreases ks
  {
    if ks == [] {
    } else {
      InstanceDeclared(ks[0], fs[0]);
      InstancesDeclared(ks[1..], fs[1..]);
      assert fs == [fs[0]] + fs[1..];
    }
  }

  lemma InstanceRoundTrip(k: Kind, f: Field, rest: Bytes)
    requires Instance(k, f) && |EncodeField(f)| < TWO_31
    ensures ReadField(k, EncodeField(f) + rest) == Some((f, rest))
  {
    InstanceDeclared(k, f);
    SizedRoundTrip(k, f, rest);
  }

  lemma ExamplesAreInstances(other: Field, id: int32, example: Text, ido: int32)
    requires other == FNull || exists i: int32, s: Text :: other == OtherExample(i, s)
    ensures Instance(DEVICE, Device(id, ido, example))
    ensures Instance(DEEP_EXAMPLE, DeepExample(other, id, example))
  {
    forall i: int32, s: Text ensures InstanceAll([KInt, KString], [FInt(i), FString(s)]) {
      assert [KInt, KString][1..] == [KString] && [FInt(i), FString(s)][1..] == [FString(s)];
      assert InstanceAll([KString], [FString(s)]);
    }
    assert DEVICE.fields[1..] == [KInt, KString];
    assert Device(id, ido, example).fields[1..] == [FInt(ido), FString(example)];
    assert Instance(OTHER_EXAMPLE, other);
    assert DEEP_EXAMPLE.fields[1..] == [KInt, KString];
    assert DeepExample(other, id, example).fields[1..] == [FInt(id), FString(example)];
  }

  // ----- the examples in bytes, field by field, and as they are read

  lemma FlagAndSize(fields: seq<Field>)
    ensures EncodeField(FParcelable(fields)) ==
            [1, 0, 0, 0] + Int32(4 + |EncodeFields(fields)|) + EncodeFields(fields)
  {
    hide Int32, EncodeFields;
    Int32Layout(1);
  }

  lemma ThreeFields(a: Field, b: Field, c: Field)
    ensures EncodeFields([a, b, c]) == EncodeField(a) + EncodeField(b) + EncodeField(c)
  {
    hide EncodeField;
    TwoFields(b, c);
    assert [a, b, c][1..] == [b, c];
  }

  lemma TwoFields(b: Field, c: Field)
    ensures EncodeFields([b, c]) == EncodeField(b) + EncodeField(c)
  {
    hide EncodeField;
    assert [b, c][1..] == [c] && [c][1..] == [];
    assert EncodeFields([c]) == EncodeField(c) + EncodeFields([]);
  }

  lemma DeviceLayout(id: int32, ido: int32, path: Text, rest: Bytes)
    ensures EncodeField(Device(id, ido, path)) ==
            [1, 0, 0, 0] + Int32(12 + |Blob(path)|) + Int32(id) + Int32(ido) + Blob(path)
    ensures 20 + |Blob(path)| < TWO_31 ==>
              ReadField(KParcelable([KInt, KInt, KString]), EncodeField(Device(id, ido, path)) + rest) ==
              Some((FParcelable([FInt(id), FInt(ido), FString(path)]), rest))
  {
    hide Int32, Blob, EncodeFields, ReadField, Instance;
    FlagAndSize([FInt(id), FInt(ido), FString(path)]);
    ThreeFields(FInt(id), FInt(ido), FString(path));
    ExamplesAreInstances(FNull, id, path, ido);
    if 20 + |Blob(path)| < TWO_31 {
      InstanceRoundTrip(DEVICE, Device(id, ido, path), rest);
    }
  }

  /** The deep example without its nullable part: a flag 0 in its place. */
  lemma DeepExampleNullLayout(id: int32, example: Text, rest: Bytes)
    ensures EncodeField(DeepExample(FNull, id, example)) ==
            [1, 0, 0, 0] + Int32(12 + |Blob(example)|) + [0, 0, 0, 0] + Int32(id) + Blob(example)
    ensures 20 + |Blob(example)| < TWO_31 ==>
              ReadField(KParcelable([KParcelable([KInt, KString]), KInt, KString]),
                        EncodeField(DeepExample(FNull, id, example)) + rest) ==
              Some((FParcelable([FNull, FInt(id), FString(example)]), rest))
  {
    hide Int32, Blob, EncodeFields, ReadField, Instance;
    Int32Layout(0);
    FlagAndSize([FNull, FInt(id), FString(example)]);
    ThreeFields(FNull, FInt(id), FString(example));
    ExamplesAreInstances(FNull, id, example, id);
    if 20 + |Blob(example)| < TWO_31 {
      InstanceRoundTrip(DEEP_EXAMPLE, DeepExample(FNull, id, example), rest);
    }
  }

  /** The deep example with its nullable part: a whole parcelable, with a flag and a size of
      its own, before the other fields. */
  lemma DeepExampleLayout(otherId: int32, text: Text, id: int32, example: Text, rest: Bytes)
    ensures EncodeField(DeepExample(OtherExample(otherId, text), id, example)) ==
            [1, 0, 0, 0] + Int32(20 + |Blob(text)| + |Blob(example)|) +
            ([1, 0, 0, 0] + Int32(8 + |Blob(text)|) + Int32(otherId) + Blob(text)) + Int32(id) + Blob(example)
    ensures 28 + |Blob(text)| + |Blob(example)| < TWO_31 ==>
              ReadField(KParcelable([KParcelable([KInt, KString]), KInt, KString]),
                        EncodeField(DeepExample(OtherExample(otherId, text), id, example)) + rest) ==
              Some((FParcelable([FParcelable([FInt(otherId), FString(text)]), FInt(id), FString(example)]), rest))
  {
    hide Int32, Blob, EncodeFields, ReadField, Instance;
    var other := OtherExample(otherId, text);
    FlagAndSize([FInt(otherId), FString(text)]);
    TwoFields(FInt(otherId), FString(text));
    FlagAndSize([other, FInt(id), FString(example)]);
    ThreeFields(other, FInt(id), FString(example));
    ExamplesAreInstances(other, id, example, id);
    if 28 + |Blob(text)| + |Blob(example)| < TWO_31 {
      InstanceRoundTrip(DEEP_EXAMPLE, DeepExample(other, id, example), rest);
    }
  }
}
