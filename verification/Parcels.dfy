/** `AParcel`: a byte buffer with a cursor. A write overwrites what lies under the cursor
    and extends the buffer past its end. */
module Parcels {
  import opened Bytes

  datatype Status = STATUS_OK | STATUS_BAD_VALUE

  function Overwrite(data: Bytes, pos: nat, bs: Bytes): (r: Bytes)
    requires pos <= |data|
    ensures |r| == if pos + |bs| < |data| then |data| else pos + |bs|
  {
    data[..pos] + bs + (if pos + |bs| < |data| then data[pos + |bs|..] else [])
  }

  /** Two writes in a row are one write of both. */
  lemma OverwriteTwice(data: Bytes, pos: nat, a: Bytes, b: Bytes)
    requires pos <= |data|
    ensures Overwrite(Overwrite(data, pos, a), pos + |a|, b) == Overwrite(data, pos, a + b)
  {
    var once := Overwrite(data, pos, a);
    assert once[..pos + |a|] == data[..pos] + a;
    if pos + |a| + |b| < |data| {
      assert once[pos + |a| + |b|..] == data[pos + |a| + |b|..];
    }
  }

  /** Going back over the head of a write replaces the head only. */
  lemma OverwritePatched(data: Bytes, pos: nat, slot: Bytes, body: Bytes, patch: Bytes)
    requires pos <= |data| && |slot| == |patch|
    ensures Overwrite(Overwrite(data, pos, slot + body), pos, patch) == Overwrite(data, pos, patch + body)
  {
    var once := Overwrite(data, pos, slot + body);
    assert once[..pos] == data[..pos];
    assert once[pos + |slot|..] == body + (if pos + |slot + body| < |data| then data[pos + |slot + body|..] else []);
  }

  /** Nothing before the cursor is touched, the bytes appear at the cursor, and at the end
      of the buffer a write is an append. */
  lemma OverwriteFrame(data: Bytes, pos: nat, bs: Bytes)
    requires pos <= |data|
    ensures Overwrite(data, pos, bs)[..pos] == data[..pos]
    ensures Overwrite(data, pos, bs)[pos..pos + |bs|] == bs
    ensures forall i | pos + |bs| <= i < |data| :: Overwrite(data, pos, bs)[i] == data[i]
    ensures pos == |data| ==> Overwrite(data, pos, bs) == data + bs
  {
  }

  class Parcel {
    var data: Bytes
    var pos: nat

    ghost predicate Valid()
      reads this
    {
      pos <= |data|
    }

    /** Since the old state exactly `bs` was written at the cursor. */
    twostate predicate Wrote(bs: Bytes)
      reads this
    {
      old(Valid()) && Valid() && data == Overwrite(old(data), old(pos), bs) && pos == old(pos) + |bs|
    }

    constructor ()
      ensures Valid() && data == [] && pos == 0
    {
      data, pos := [], 0;
    }

    method WriteRaw(bs: Bytes)
      requires Valid()
      modifies this
      ensures Wrote(bs)
    {
      data, pos := Overwrite(data, pos, bs), pos + |bs|;
    }

    method WriteBool(b: bool)
      requires Valid()
      modifies this
      ensures Wrote(BoolWord(b))
    {
      WriteRaw(BoolWord(b));
    }

    /** The parameter is an int8_t, sign-extended to a word. */
    method WriteByte(n: int)
      requires Valid()
      modifies this
      ensures Wrote(Int32(Wrap8(n)))
    {
      WriteRaw(Int32(Wrap8(n)));
    }

    /** `writeInt32` and `writeUint32`: the low 32 bits. */
    method WriteInt32(n: int)
      requires Valid()
      modifies this
      ensures Wrote(Int32(n))
    {
      WriteRaw(Int32(n));
    }

    /** `writeInt64`, `writeUint64` and `writeDouble`: 64 bits. */
    method WriteInt64(n: int)
      requires Valid()
      modifies this
      ensures Wrote(Int64(n))
    {
      WriteRaw(Int64(n));
    }

    /** The length is an int32_t; a negative one is refused and nothing is written. */
    method WriteString(s: Bytes, length: int32) returns (status: Status)
      requires Valid() && length <= |s|
      modifies this
      ensures Valid() && (length < 0 ==> status == STATUS_BAD_VALUE && unchanged(this))
      ensures length >= 0 ==> status == STATUS_OK && Wrote(Blob(s[..length]))
    {
      if length < 0 {
        return STATUS_BAD_VALUE;
      }
      WriteRaw(Blob(s[..length]));
      status := STATUS_OK;
    }

    method WriteByteArray(bs: Bytes, length: int32) returns (status: Status)
      requires Valid() && length <= |bs|
      modifies this
      ensures Valid() && (length < 0 ==> status == STATUS_BAD_VALUE && unchanged(this))
      ensures length >= 0 ==> status == STATUS_OK && Wrote(Blob(bs[..length]))
    {
      if length < 0 {
        return STATUS_BAD_VALUE;
      }
      WriteRaw(Blob(bs[..length]));
      status := STATUS_OK;
    }

    /** `writeInt32Array` and `writeUint32Array`. */
    method WriteInt32Array(ns: seq<int>, length: int32) returns (status: Status)
      requires Valid() && length <= |ns|
      modifies this
      ensures Valid() && (length < 0 ==> status == STATUS_BAD_VALUE && unchanged(this))
      ensures length >= 0 ==> status == STATUS_OK && Wrote(Int32(length) + Words4(ns[..length]))
    {
      if length < 0 {
        return STATUS_BAD_VALUE;
      }
      WriteRaw(Int32(length) + Words4(ns[..length]));
      status := STATUS_OK;
    }

    /** `writeInt64Array`, `writeUint64Array` and `writeDoubleArray`. */
    method WriteInt64Array(ns: seq<int>, length: int32) returns (status: Status)
      requires Valid() && length <= |ns|
      modifies this
      ensures Valid() && (length < 0 ==> status == STATUS_BAD_VALUE && unchanged(this))
      ensures length >= 0 ==> status == STATUS_OK && Wrote(Int32(length) + Words8(ns[..length]))
    {
      if length < 0 {
        return STATUS_BAD_VALUE;
      }
      WriteRaw(Int32(length) + Words8(ns[..length]));
      status := STATUS_OK;
    }

    /** The position is handed out as an int32_t. */
    method GetDataPosition() returns (r: int32)
      ensures r == Wrap32(pos)
    {
      r := Wrap32(pos);
    }

    /** Seeks to a position inside the data; a negative one is refused. */
    method SetDataPosition(p: int32) returns (status: Status)
      requires p <= |data|
      modifies `pos
      ensures status == if p < 0 then STATUS_BAD_VALUE else STATUS_OK
      ensures pos == if p < 0 then old(pos) else p
    {
      if p < 0 {
        status := STATUS_BAD_VALUE;
      } else {
        pos, status := p, STATUS_OK;
      }
    }

    method GetDataSize() returns (r: int32)
      ensures r == Wrap32(|data|)
    {
      r := Wrap32(|data|);
    }

    /** Copies `length` bytes from `start` into the caller's buffer. */
    method Marshal(buffer: array<byte>, start: nat, length: int32) returns (status: Status)
      requires length <= buffer.Length
      modifies buffer
      ensures status == if 0 <= length && start + length <= |data| then STATUS_OK else STATUS_BAD_VALUE
      ensures status == STATUS_OK ==>
              buffer[..length] == data[start..start + length] && buffer[length..] == old(buffer[length..])
      ensures status != STATUS_OK ==> buffer[..] == old(buffer[..])
    {
      if length < 0 || start + length > |data| {
        return STATUS_BAD_VALUE;
      }
      var i := 0;
      while i < length
        invariant 0 <= i <= length
        invariant buffer[..i] == data[start..start + i]
        invariant buffer[i..] == old(buffer[i..])
      {
        buffer[i] := data[start + i];
        i := i + 1;
      }
      status := STATUS_OK;
    }
  }
}
