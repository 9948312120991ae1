/** What `poc_vardict_to_bundle` computes: the conversion of one value, the fold over the
    entries, and what both mean for whoever reads the bundle. */
module Vardict {
  import opened Bytes
  import opened Variants
  import opened Bundles

  // ----- the fold of the loop

  function Nums(vs: seq<Variant>): (r: seq<int>)
    ensures |r| == |vs|
  {
    seq(|vs|, i requires 0 <= i < |vs| => Num(vs[i]))
  }

  function Texts(vs: seq<Variant>): (r: seq<Text>)
    ensures |r| == |vs|
  {
    seq(|vs|, i requires 0 <= i < |vs| => TextOf(vs[i]))
  }

  /** The bundle value put for a dictionary value; `None` where the loop only warns. */
  function Convert(v: Variant): Option<BundleValue>
    decreases v
  {
    match v
    case Bool(b) => Some(PBool(b))
    case Byte(n) => Some(PInt(n))
    case I16(n) => Some(PInt(n % TWO_16))
    case U16(n) => Some(PInt(n))
    case I32(n) => Some(PInt(n))
    case U32(n) => Some(PInt(Wrap32(n)))
    case I64(n) => Some(PInt(Wrap32(n)))
    case U64(n) => Some(PInt(Wrap32(n)))
    case Double(bits) => Some(PDouble(bits))
    case Str(s) => Some(PString(s))
    case Arr(elem, children) =>
      (match elem
       case TBool => Some(PBoolVec(Bools(Nums(children))))
       case TInt32 => Some(PIntVec(Ints(Nums(children))))
       case TUint32 => Some(PIntVec(Ints(Nums(children))))
       case TInt64 => Some(PLongVec(Longs(Nums(children))))
       case TUint64 => Some(PLongVec(Longs(Nums(children))))
       case TDouble => Some(PDoubleVec(Unsigned64(Nums(children))))
       case TString => Some(PStringVec(Texts(children)))
       case TEntry => Some(PBundle(BundleOf(children)))
       case _ => None)
    case _ => None
  }

  function Absorb(slots: seq<Slot>, key: Text, converted: Option<BundleValue>): seq<Slot> {
    match converted
    case None => slots
    case Some(x) => Put(slots, key, x)
  }

  function BundleOf(entries: seq<Variant>): seq<Slot>
    decreases entries
  {
    if entries == [] then []
    else
      var last := entries[|entries| - 1];
      var before := BundleOf(entries[..|entries| - 1]);
      if last.Entry? then Absorb(before, last.key, Convert(last.value)) else before
  }

  lemma {:induction false} BundleSorted(entries: seq<Variant>)
    ensures Sorted(BundleOf(entries))
  {
    if entries == [] {
    } else {
      var init, last := entries[..|entries| - 1], entries[|entries| - 1];
      BundleSorted(init);
      if last.Entry? && Convert(last.value).Some? {
        PutSorted(BundleOf(init), last.key, Convert(last.value).value);
      }
    }
  }

  // ----- which entries count

  /** The dictionary value types the loop converts. */
  predicate SupportedType(t: Ty) {
    match t
    case TArray(e) => e.TBool? || e.TInt32? || e.TUint32? || e.TInt64? || e.TUint64? ||
                      e.TDouble? || e.TString? || e.TEntry?
    case _ => IsNumeric(t) || t == TString
  }

  lemma SupportIsByType(v: Variant)
    ensures Convert(v).Some? <==> SupportedType(TypeOf(v))
  {
  }

  predicate Supported(e: Variant) {
    e.Entry? && SupportedType(TypeOf(e.value))
  }

  predicate SupportedFor(e: Variant, key: Text) {
    Supported(e) && e.key == key
  }

  /** Entry `i` is the last supported one for `key`. */
  predicate WinnerFor(entries: seq<Variant>, i: int, key: Text) {
    0 <= i < |entries| && SupportedFor(entries[i], key) &&
    forall j | i < j < |entries| :: !SupportedFor(entries[j], key)
  }

  predicate Winner(entries: seq<Variant>, i: int) {
    0 <= i < |entries| && entries[i].Entry? && WinnerFor(entries, i, entries[i].key)
  }

  /** What the entry list says about `key`: the conversion of its last supported entry. */
  ghost function Effective(entries: seq<Variant>, key: Text): Option<BundleValue> {
    if exists i :: WinnerFor(entries, i, key) then
      var i :| WinnerFor(entries, i, key);
      Convert(entries[i].value)
    else None
  }

  lemma WinnerUnique(entries: seq<Variant>, key: Text, i: int, j: int)
    requires WinnerFor(entries, i, key) && WinnerFor(entries, j, key)
    ensures i == j
  {
  }

  lemma EffectiveAt(entries: seq<Variant>, key: Text, i: int)
    requires WinnerFor(entries, i, key)
    ensures Effective(entries, key) == Convert(entries[i].value)
  {
    forall j | WinnerFor(entries, j, key) ensures j == i {
      WinnerUnique(entries, key, i, j);
    }
  }

  lemma {:induction false} SomeWinner(entries: seq<Variant>, key: Text, i: int)
    requires 0 <= i < |entries| && SupportedFor(entries[i], key)
    ensures exists w :: WinnerFor(entries, w, key)
    decreases |entries| - i
  {
    if !WinnerFor(entries, i, key) {
      var j :| i < j < |entries| && SupportedFor(entries[j], key);
      SomeWinner(entries, key, j);
    }
  }

  lemma EffectiveSnoc(init: seq<Variant>, last: Variant, key: Text)
    ensures Effective(init + [last], key) ==
            if SupportedFor(last, key) then Convert(last.value) else Effective(init, key)
  {
    var all := init + [last];
    if SupportedFor(last, key) {
      assert WinnerFor(all, |init|, key);
      EffectiveAt(all, key, |init|);
    } else if exists i :: WinnerFor(init, i, key) {
      var i :| WinnerFor(init, i, key);
      assert WinnerFor(all, i, key);
      EffectiveAt(init, key, i);
      EffectiveAt(all, key, i);
    } else if exists i :: WinnerFor(all, i, key) {
      var i :| WinnerFor(all, i, key);
      assert i < |init|;
      SomeWinner(init, key, i);
    }
  }

  /** The loop's bundle, key by key: exactly the keys with a supported entry, each with
      the conversion of its last supported entry. */
  lemma {:induction false} BundleLoopMeaning(entries: seq<Variant>, key: Text)
    ensures Lookup(BundleOf(entries), key) == Effective(entries, key)
    ensures Lookup(BundleOf(entries), key).Some? <==>
            exists i :: 0 <= i < |entries| && SupportedFor(entries[i], key)
  {
    if entries == [] {
    } else {
      var init, last := entries[..|entries| - 1], entries[|entries| - 1];
      BundleLoopMeaning(init, key);
      EffectiveSnoc(init, last, key);
      assert entries == init + [last];
      if last.Entry? {
        SupportIsByType(last.value);
        if Supported(last) {
          LookupPut(BundleOf(init), last.key, Convert(last.value).value, key);
        }
      }
    }
    if i :| 0 <= i < |entries| && SupportedFor(entries[i], key) {
      SomeWinner(entries, key, i);
      var w :| WinnerFor(entries, w, key);
      EffectiveAt(entries, key, w);
      SupportIsByType(entries[w].value);
    }
  }

  /** Two dictionaries give the same bundle exactly when they agree on every key's last
      supported entry; order, duplicates and unsupported entries are otherwise invisible. */
  lemma SameBundleIffSameEffect(a: seq<Variant>, b: seq<Variant>)
    ensures BundleOf(a) == BundleOf(b) <==> forall k :: Effective(a, k) == Effective(b, k)
  {
    forall k
      ensures Lookup(BundleOf(a), k) == Effective(a, k) && Lookup(BundleOf(b), k) == Effective(b, k)
    {
      BundleLoopMeaning(a, k);
      BundleLoopMeaning(b, k);
    }
    if forall k :: Effective(a, k) == Effective(b, k) {
      BundleSorted(a);
      BundleSorted(b);
      LookupsDetermineBundle(BundleOf(a), BundleOf(b));
    }
  }

  function SupportedOnly(entries: seq<Variant>): seq<Variant> {
    if entries == [] then []
    else
      var last := entries[|entries| - 1];
      SupportedOnly(entries[..|entries| - 1]) + (if Supported(last) then [last] else [])
  }

  /** Unsupported entries neither add nor erase anything. */
  lemma {:induction false} UnsupportedIgnored(entries: seq<Variant>)
    ensures BundleOf(SupportedOnly(entries)) == BundleOf(entries)
  {
    hide Convert, Put, SupportedType;
    if entries == [] {
    } else {
      var init, last := entries[..|entries| - 1], entries[|entries| - 1];
      UnsupportedIgnored(init);
      if last.Entry? {
        SupportIsByType(last.value);
      }
      if Supported(last) {
        assert SupportedOnly(entries)[..|SupportedOnly(init)|] == SupportedOnly(init);
      } else {
        assert SupportedOnly(entries) == SupportedOnly(init);
      }
    }
  }
}
