/** Which dictionaries cannot be told apart once converted, said of their values alone. */
module Collisions {
  import opened Bytes
  import opened Variants
  import opened Bundles
  import opened Vardict

  /** The integer the loop reads: an int16 through an unsigned pointer. */
  function ReadInt(v: Variant): int {
    if v.I16? then Num(v) % TWO_16 else Num(v)
  }

  predicate IsInt(v: Variant) {
    v.Byte? || v.I16? || v.U16? || v.I32? || v.U32? || v.I64? || v.U64?
  }

  predicate Congruent(a: seq<Variant>, b: seq<Variant>, modulus: int)
    requires modulus > 0
  {
    |a| == |b| && forall i | 0 <= i < |a| :: Num(a[i]) % modulus == Num(b[i]) % modulus
  }

  /** Two supported values that a bundle cannot tell apart: integers read alike modulo 2^32,
      integer vectors congruent element by element, dictionaries alike at every key, and
      anything else only if equal. Signedness and, for scalars, width are forgotten. */
  ghost predicate Alike(v: Variant, w: Variant)
    decreases v
  {
    match v
    case Arr(elem, a) =>
      w.Arr? &&
      (match elem
       case TInt32 | TUint32 => (w.elem.TInt32? || w.elem.TUint32?) && Congruent(a, w.children, TWO_32)
       case TInt64 | TUint64 => (w.elem.TInt64? || w.elem.TUint64?) && Congruent(a, w.children, TWO_64)
       case TEntry => w.elem.TEntry? && AlikeDict(a, w.children)
       case _ => v == w)
    case _ => if IsInt(v) then IsInt(w) && ReadInt(v) % TWO_32 == ReadInt(w) % TWO_32 else v == w
  }

  /** The dictionary has a supported entry for the key. */
  ghost predicate HasWinner(entries: seq<Variant>, key: Text) {
    exists i :: WinnerFor(entries, i, key)
  }

  /** The same keys have a supported entry, and the last ones are alike. */
  ghost predicate AlikeDict(a: seq<Variant>, b: seq<Variant>)
    decreases a
  {
    (forall k :: HasWinner(a, k) <==> HasWinner(b, k)) &&
    forall i, j | 0 <= i < |a| && 0 <= j < |b| && Winner(a, i) && WinnerFor(b, j, a[i].key) ::
      Alike(a[i].value, b[j].value)
  }

  // ----- numbers

  lemma IntConverted(v: Variant)
    requires IsInt(v)
    ensures Convert(v) == Some(PInt(Wrap32(ReadInt(v))))
  {
  }

  lemma IntsAlike(v: Variant, w: Variant)
    requires IsInt(v) && IsInt(w)
    ensures Convert(v) == Convert(w) <==> Alike(v, w)
  {
    hide Convert, ReadInt, Wrap32, AlikeDict, Congruent;
    assert Alike(v, w) <==> ReadInt(v) % TWO_32 == ReadInt(w) % TWO_32;
    IntConverted(v);
    IntConverted(w);
    WrapCongruent(ReadInt(v), ReadInt(w));
  }

  lemma IntVectorsAlike(a: seq<Variant>, b: seq<Variant>)
    ensures Ints(Nums(a)) == Ints(Nums(b)) <==> Congruent(a, b, TWO_32)
  {
    hide Wrap32, Num;
    if |a| == |b| {
      forall i | 0 <= i < |a|
        ensures Ints(Nums(a))[i] == Ints(Nums(b))[i] <==> Num(a[i]) % TWO_32 == Num(b[i]) % TWO_32
      {
        WrapCongruent(Num(a[i]), Num(b[i]));
      }
    } else {
      assert |Ints(Nums(a))| != |Ints(Nums(b))|;
    }
  }

  lemma LongVectorsAlike(a: seq<Variant>, b: seq<Variant>)
    ensures Longs(Nums(a)) == Longs(Nums(b)) <==> Congruent(a, b, TWO_64)
  {
    hide Wrap64, Num;
    if |a| == |b| {
      forall i | 0 <= i < |a|
        ensures Longs(Nums(a))[i] == Longs(Nums(b))[i] <==> Num(a[i]) % TWO_64 == Num(b[i]) % TWO_64
      {
        WrapCongruent(Num(a[i]), Num(b[i]));
      }
    } else {
      assert |Longs(Nums(a))| != |Longs(Nums(b))|;
    }
  }

  lemma PlainVectorsAlike(a: seq<Variant>, b: seq<Variant>)
    ensures AllOfType(a, TBool) && AllOfType(b, TBool) && Bools(Nums(a)) == Bools(Nums(b)) ==> a == b
    ensures AllOfType(a, TDouble) && AllOfType(b, TDouble) && Unsigned64(Nums(a)) == Unsigned64(Nums(b)) ==> a == b
    ensures AllOfType(a, TString) && AllOfType(b, TString) && Texts(a) == Texts(b) ==> a == b
  {
    if AllOfType(a, TBool) && AllOfType(b, TBool) && Bools(Nums(a)) == Bools(Nums(b)) {
      assert |a| == |Bools(Nums(a))| == |b|;
      forall i | 0 <= i < |a| ensures a[i] == b[i] {
        assert Bools(Nums(a))[i] == Bools(Nums(b))[i];
        BasicValueDetermined(a[i], b[i]);
      }
    }
    if AllOfType(a, TDouble) && AllOfType(b, TDouble) && Unsigned64(Nums(a)) == Unsigned64(Nums(b)) {
      assert |a| == |Unsigned64(Nums(a))| == |b|;
      forall i | 0 <= i < |a| ensures a[i] == b[i] {
        assert Unsigned64(Nums(a))[i] == Unsigned64(Nums(b))[i];
        BasicValueDetermined(a[i], b[i]);
      }
    }
    if AllOfType(a, TString) && AllOfType(b, TString) && Texts(a) == Texts(b) {
      assert |a| == |Texts(a)| == |b|;
      forall i | 0 <= i < |a| ensures a[i] == b[i] {
        assert Texts(a)[i] == Texts(b)[i];
        BasicValueDetermined(a[i], b[i]);
      }
    }
  }

  // ----- alike if and only if converted alike

  lemma {:induction false} AlikeIffSameConversion(v: Variant, w: Variant)
    requires WellTyped(v) && WellTyped(w) && SupportedType(TypeOf(v)) && SupportedType(TypeOf(w))
    ensures Convert(v) == Convert(w) <==> Alike(v, w)
    decreases v
  {
    hide Convert, Alike, WellTyped, SupportedType, TypeOf;
    if v.Arr? && w.Arr? {
      ArraysAlike(v, w);
    } else if IsInt(v) && IsInt(w) {
      IntsAlike(v, w);
    } else {
      OthersAlike(v, w);
    }
  }

  /** What `Convert` makes of a value that is neither an array nor an integer. */
  lemma PlainConverted(v: Variant)
    requires SupportedType(TypeOf(v)) && !v.Arr? && !IsInt(v)
    ensures v.Bool? || v.Double? || v.Str?
    ensures Convert(v) == Some(if v.Bool? then PBool(v.b) else if v.Double? then PDouble(v.bits) else PString(v.s))
  {
  }

  lemma ArrayConverted(v: Variant)
    requires v.Arr? && Convert(v).Some?
    ensures var x := Convert(v).value; !x.PBool? && !x.PInt? && !x.PDouble? && !x.PString?
  {
    hide BundleOf, Ints, Longs, Bools, Unsigned64, Texts, Nums;
  }

  lemma OthersAlike(v: Variant, w: Variant)
    requires SupportedType(TypeOf(v)) && SupportedType(TypeOf(w))
    requires !(v.Arr? && w.Arr?) && !(IsInt(v) && IsInt(w))
    ensures Convert(v) == Convert(w) <==> Alike(v, w)
  {
    hide Convert, SupportedType, TypeOf, ReadInt, AlikeDict, Congruent;
    forall x | x == v || x == w
      ensures Convert(x).Some?
      ensures IsInt(x) ==> Convert(x).value.PInt?
      ensures x.Arr? ==> var y := Convert(x).value; !y.PBool? && !y.PInt? && !y.PDouble? && !y.PString?
    {
      SupportIsByType(x);
      if IsInt(x) { IntConverted(x); } else if x.Arr? { ArrayConverted(x); } else { PlainConverted(x); }
    }
    if !v.Arr? && !IsInt(v) { PlainConverted(v); }
    if !w.Arr? && !IsInt(w) { PlainConverted(w); }
  }

  lemma {:induction false} ArraysAlike(v: Variant, w: Variant)
    requires WellTyped(v) && WellTyped(w) && SupportedType(TypeOf(v)) && SupportedType(TypeOf(w))
    requires v.Arr? && w.Arr?
    ensures Convert(v) == Convert(w) <==> Alike(v, w)
    decreases v, 0
  {
    hide AlikeDict, Congruent, BundleOf, Ints, Longs, Bools, Unsigned64, Texts, Nums, AllOfType;
    var a, b := v.children, w.children;
    match v.elem
    case TInt32 | TUint32 => IntVectorsAlike(a, b);
    case TInt64 | TUint64 => LongVectorsAlike(a, b);
    case TBool | TDouble | TString => PlainVectorsAlike(a, b);
    case TEntry => if w.elem.TEntry? { DictsAlike(a, b); }
  }

  /** Two dictionaries give the same bundle exactly when they are alike: at every key the
      last supported values are, recursively. */
  lemma {:induction false} DictsAlike(a: seq<Variant>, b: seq<Variant>)
    requires AllOfType(a, TEntry) && AllOfType(b, TEntry)
    ensures BundleOf(a) == BundleOf(b) <==> AlikeDict(a, b)
    decreases a
  {
    hide Convert, BundleOf, SupportedType, Alike, Effective;
    SameBundleIffSameEffect(a, b);
    forall i, j | 0 <= i < |a| && 0 <= j < |b| && Winner(a, i) && WinnerFor(b, j, a[i].key)
      ensures Effective(a, a[i].key) == Convert(a[i].value) && Effective(b, a[i].key) == Convert(b[j].value)
      ensures Convert(a[i].value) == Convert(b[j].value) <==> Alike(a[i].value, b[j].value)
    {
      EffectiveAt(a, a[i].key, i);
      EffectiveAt(b, a[i].key, j);
      assert WellTyped(a[i]) && WellTyped(b[j]);
      AlikeIffSameConversion(a[i].value, b[j].value);
    }
    forall k
      ensures Effective(a, k).Some? <==> HasWinner(a, k)
      ensures Effective(b, k).Some? <==> HasWinner(b, k)
    {
      EffectiveIffWinner(a, k);
      EffectiveIffWinner(b, k);
    }
    if AlikeDict(a, b) {
      forall k ensures Effective(a, k) == Effective(b, k) {
        assert HasWinner(a, k) <==> HasWinner(b, k);
        if i :| WinnerFor(a, i, k) {
          var j :| WinnerFor(b, j, k);
          assert Winner(a, i) && a[i].key == k;
        }
      }
    }
    if forall k :: Effective(a, k) == Effective(b, k) {
      forall k ensures HasWinner(a, k) <==> HasWinner(b, k) {
        assert Effective(a, k) == Effective(b, k);
      }
    }
  }

  lemma EffectiveIffWinner(entries: seq<Variant>, k: Text)
    ensures Effective(entries, k).Some? <==> HasWinner(entries, k)
  {
    hide Convert, SupportedType;
    if i :| WinnerFor(entries, i, k) {
      EffectiveAt(entries, k, i);
      SupportIsByType(entries[i].value);
    }
  }
}
