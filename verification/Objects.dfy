/** The stateful helpers of the conversion: the variant iterator and the bundle under
    construction. */
module Objects {
  import opened Bytes
  import opened Variants
  import opened Bundles
  import opened BundleFormat
  import opened Parcels

  class GVariantIter {
    const children: seq<Variant>
    var next: nat

    ghost predicate Valid()
      reads this
    {
      next <= |children|
    }

    constructor (container: Variant)
      requires container.Arr?
      ensures Valid() && children == container.children && next == 0
    {
      children := container.children;
      next := 0;
    }

    function NChildren(): nat {
      |children|
    }

    /** `None` stands for the null that ends the iteration. */
    method NextValue() returns (r: Option<Variant>)
      requires Valid()
      modifies this
      ensures Valid()
      ensures old(next) < |children| ==> r == Some(children[old(next)]) && next == old(next) + 1
      ensures old(next) == |children| ==> r == None && next == old(next)
    {
      if next == |children| {
        return None;
      }
      r := Some(children[next]);
      next := next + 1;
    }
  }

  /** Each `Put...` has the effect of the map's put on the value it is given; the integer
      ones receive C integers, which the parameter type narrows. */
  class PersistableBundle {
    var slots: seq<Slot>

    ghost predicate Valid()
      reads this
    {
      Sorted(slots)
    }

    constructor ()
      ensures Valid() && slots == []
    {
      slots := [];
    }

    method PutValue(key: Text, value: BundleValue)
      requires Valid()
      modifies this
      ensures Valid() && slots == Put(old(slots), key, value)
    {
      PutSorted(slots, key, value);
      slots := Put(slots, key, value);
    }

    method PutInt(key: Text, value: int)
      requires Valid()
      modifies this
      ensures Valid() && slots == Put(old(slots), key, PInt(Wrap32(value)))
    {
      PutValue(key, PInt(Wrap32(value)));
    }

    method PutIntVector(key: Text, memory: seq<int>)
      requires Valid()
      modifies this
      ensures Valid() && slots == Put(old(slots), key, PIntVec(Ints(memory)))
    {
      PutValue(key, PIntVec(Ints(memory)));
    }

    method PutLongVector(key: Text, memory: seq<int>)
      requires Valid()
      modifies this
      ensures Valid() && slots == Put(old(slots), key, PLongVec(Longs(memory)))
    {
      PutValue(key, PLongVec(Longs(memory)));
    }

    /** Deep-copies the child. */
    method PutPersistableBundle(key: Text, child: PersistableBundle)
      requires Valid()
      modifies this
      ensures Valid() && slots == Put(old(slots), key, PBundle(old(child.slots)))
    {
      PutValue(key, PBundle(child.slots));
    }

    method WriteToParcel(parcel: Parcel) returns (status: Status)
      requires parcel.Valid()
      modifies parcel
      ensures status == STATUS_OK && parcel.Wrote(EncodeBundle(slots))
    {
      parcel.WriteRaw(EncodeBundle(slots));
      status := STATUS_OK;
    }
  }
}
