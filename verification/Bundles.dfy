/** `APersistableBundle`: a string-keyed map, kept as its canonical listing (slots in
    strictly increasing key order), so that equal maps are equal listings. */
module Bundles {
  import opened Bytes
  import opened Variants

  datatype BundleValue =
    | PBool(b: bool)
    | PInt(i: int32)
    | PDouble(bits: uint64)
    | PString(s: Text)
    | PBoolVec(bools: seq<bool>)
    | PIntVec(ints: seq<int32>)
    | PLongVec(longs: seq<int64>)
    | PDoubleVec(doubles: seq<uint64>)
    | PStringVec(strings: seq<Text>)
    | PBundle(slots: seq<Slot>)

  datatype Slot = Slot(key: Text, value: BundleValue)

  // ----- key order

  predicate Less(a: Text, b: Text) {
    b != [] && (a == [] || a[0] < b[0] || (a[0] == b[0] && Less(a[1..], b[1..])))
  }

  lemma {:induction false} LessTransitive(a: Text, b: Text, c: Text)
    requires Less(a, b) && Less(b, c)
    ensures Less(a, c)
  {
    if a != [] && a[0] == b[0] == c[0] {
      LessTransitive(a[1..], b[1..], c[1..]);
    }
  }

  lemma {:induction false} LessTotal(a: Text, b: Text)
    ensures Less(a, b) || a == b || Less(b, a)
    ensures !(Less(a, b) && a == b) && !(Less(a, b) && Less(b, a))
  {
    if a != [] && b != [] && a[0] == b[0] {
      LessTotal(a[1..], b[1..]);
      assert a == [a[0]] + a[1..] && b == [b[0]] + b[1..];
    }
  }

  /** At the first byte in which two keys differ the smaller one comes first, and a key comes
      before its own continuations. */
  lemma {:induction false} LessAtFirstDifference(common: Text, x: byte, y: byte, a: Text, b: Text)
    ensures Less(common, common + [y] + b) && !Less(common + [y] + b, common) && !Less(common, common)
    ensures x != y ==> (Less(common + [x] + a, common + [y] + b) <==> x < y)
  {
    if common == [] {
      assert ([x] + a)[0] == x && ([y] + b)[0] == y && common + [x] + a == [x] + a && common + [y] + b == [y] + b;
    } else {
      var rest := common[1..];
      LessAtFirstDifference(rest, x, y, a, b);
      assert (common + [x] + a)[1..] == rest + [x] + a && (common + [y] + b)[1..] == rest + [y] + b;
    }
  }

  predicate Sorted(slots: seq<Slot>) {
    |slots| <= 1 || (Less(slots[0].key, slots[1].key) && Sorted(slots[1..]))
  }

  // ----- lookup and put

  function Lookup(slots: seq<Slot>, key: Text): Option<BundleValue> {
    if slots == [] then None
    else if slots[0].key == key then Some(slots[0].value)
    else Lookup(slots[1..], key)
  }

  function Put(slots: seq<Slot>, key: Text, value: BundleValue): (r: seq<Slot>)
    ensures r != [] && (r[0].key == key || (slots != [] && r[0].key == slots[0].key))
  {
    if slots == [] then [Slot(key, value)]
    else if slots[0].key == key then [Slot(key, value)] + slots[1..]
    else if Less(key, slots[0].key) then [Slot(key, value)] + slots
    else [slots[0]] + Put(slots[1..], key, value)
  }

  lemma {:induction false} PutSorted(slots: seq<Slot>, key: Text, value: BundleValue)
    requires Sorted(slots)
    ensures Sorted(Put(slots, key, value))
  {
    var r := Put(slots, key, value);
    if slots == [] {
    } else if slots[0].key == key || Less(key, slots[0].key) {
      assert r[1..] == if slots[0].key == key then slots[1..] else slots;
    } else {
      PutSorted(slots[1..], key, value);
      LessTotal(key, slots[0].key);
      assert r[1..] == Put(slots[1..], key, value);
    }
  }

  /** `put` replaces the value of its own key and no other. */
  lemma {:induction false} LookupPut(slots: seq<Slot>, key: Text, value: BundleValue, k: Text)
    ensures Lookup(Put(slots, key, value), k) == if k == key then Some(value) else Lookup(slots, k)
  {
    if slots == [] {
    } else {
      LookupPut(slots[1..], key, value, k);
      var r := Put(slots, key, value);
      if slots[0].key == key {
        assert r[1..] == slots[1..];
      } else if Less(key, slots[0].key) {
        assert r[1..] == slots;
      } else {
        assert r[1..] == Put(slots[1..], key, value);
      }
    }
  }

  // ----- a sorted listing is determined by its lookups

  lemma {:induction false} BelowHeadIsAbsent(slots: seq<Slot>, key: Text)
    requires Sorted(slots) && slots != [] && Less(key, slots[0].key)
    ensures Lookup(slots, key) == None
  {
    LessTotal(key, slots[0].key);
    if |slots| > 1 {
      LessTransitive(key, slots[0].key, slots[1].key);
      BelowHeadIsAbsent(slots[1..], key);
    }
  }

  lemma HeadIsAbsentFromTail(slots: seq<Slot>)
    requires Sorted(slots) && slots != []
    ensures Lookup(slots[1..], slots[0].key) == None
  {
    if |slots| > 1 {
      BelowHeadIsAbsent(slots[1..], slots[0].key);
    }
  }

  lemma {:induction false} LookupsDetermineBundle(a: seq<Slot>, b: seq<Slot>)
    requires Sorted(a) && Sorted(b)
    requires forall k :: Lookup(a, k) == Lookup(b, k)
    ensures a == b
  {
    if a == [] || b == [] {
      if a != [] { assert Lookup(a, a[0].key).Some?; }
      if b != [] { assert Lookup(b, b[0].key).Some?; }
    } else {
      var ka, kb := a[0].key, b[0].key;
      assert Lookup(a, ka) == Lookup(b, ka) && Lookup(a, kb) == Lookup(b, kb);
      LessTotal(ka, kb);
      if Less(ka, kb) { BelowHeadIsAbsent(b, ka); }
      if Less(kb, ka) { BelowHeadIsAbsent(a, kb); }
      HeadIsAbsentFromTail(a);
      HeadIsAbsentFromTail(b);
      forall k ensures Lookup(a[1..], k) == Lookup(b[1..], k) {
        assert Lookup(a, k) == Lookup(b, k);
      }
      LookupsDetermineBundle(a[1..], b[1..]);
      assert a == [a[0]] + a[1..] && b == [b[0]] + b[1..];
    }
  }
}
