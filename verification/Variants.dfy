/** GVariant values and their types, as far as the marshaller can tell them apart. */
module Variants {
  import opened Bytes

  type Text = Bytes

  datatype Ty =
    | TBool | TByte
    | TInt16 | TUint16 | TInt32 | TUint32 | TInt64 | TUint64
    | TDouble
    | TString
    | TObjectPath | TSignature | THandle
    | TVariant
    | TMaybe(elem: Ty)
    | TTuple(items: seq<Ty>)
    | TEntry                    // the dictionary entry {sv}
    | TArray(elem: Ty)

  /** A double is its 64-bit pattern. `Entry(k, v)` is an `{sv}` entry whose value is
      already unboxed, so an `a{sv}` is `Arr(TEntry, entries)`. */
  datatype Variant =
    | Bool(b: bool)
    | Byte(y: byte)
    | I16(i16: int16)
    | U16(u16: uint16)
    | I32(i32: int32)
    | U32(u32: uint32)
    | I64(i64: int64)
    | U64(u64: uint64)
    | Double(bits: uint64)
    | Str(s: Text)
    | ObjectPath(path: Text)
    | Signature(sig: Text)
    | Handle(h: int32)
    | Boxed(inner: Variant)
    | Maybe(maybeElem: Ty, just: seq<Variant>)
    | Tuple(items: seq<Variant>)
    | Entry(key: Text, value: Variant)
    | Arr(elem: Ty, children: seq<Variant>)

  function TypeOf(v: Variant): Ty
    decreases v
  {
    match v
    case Bool(_) => TBool
    case Byte(_) => TByte
    case I16(_) => TInt16
    case U16(_) => TUint16
    case I32(_) => TInt32
    case U32(_) => TUint32
    case I64(_) => TInt64
    case U64(_) => TUint64
    case Double(_) => TDouble
    case Str(_) => TString
    case ObjectPath(_) => TObjectPath
    case Signature(_) => TSignature
    case Handle(_) => THandle
    case Boxed(_) => TVariant
    case Maybe(e, _) => TMaybe(e)
    case Tuple(items) => TTuple(TypesOf(items))
    case Entry(_, _) => TEntry
    case Arr(e, _) => TArray(e)
  }

  function TypesOf(vs: seq<Variant>): seq<Ty>
    decreases vs
  {
    if vs == [] then [] else [TypeOf(vs[0])] + TypesOf(vs[1..])
  }

  /** What GLib guarantees of every value: children have the declared element type and
      strings hold no NUL. */
  predicate WellTyped(v: Variant)
    decreases v
  {
    match v
    case Str(s) => 0 !in s
    case Boxed(inner) => WellTyped(inner)
    case Maybe(e, just) => |just| <= 1 && AllOfType(just, e)
    case Tuple(items) => forall i | 0 <= i < |items| :: WellTyped(items[i])
    case Entry(key, value) => 0 !in key && WellTyped(value)
    case Arr(e, children) => AllOfType(children, e)
    case _ => true
  }

  predicate AllOfType(vs: seq<Variant>, t: Ty)
    decreases vs
  {
    forall i | 0 <= i < |vs| :: WellTyped(vs[i]) && TypeOf(vs[i]) == t
  }

  /** The integer a numeric value holds (a double's bit pattern, 0 or 1 for a boolean):
      one element of the memory that `g_variant_get_fixed_array` exposes. */
  function Num(v: Variant): int {
    match v
    case Bool(b) => if b then 1 else 0
    case Byte(n) => n
    case I16(n) => n
    case U16(n) => n
    case I32(n) => n
    case U32(n) => n
    case I64(n) => n
    case U64(n) => n
    case Double(bits) => bits
    case _ => 0
  }

  function TextOf(v: Variant): Text {
    if v.Str? then v.s else []
  }

  predicate IsNumeric(t: Ty) {
    t.TBool? || t.TByte? || t.TInt16? || t.TUint16? || t.TInt32? || t.TUint32? ||
    t.TInt64? || t.TUint64? || t.TDouble?
  }

  /** A value of a known basic type is determined by its number or its text. */
  lemma BasicValueDetermined(v: Variant, w: Variant)
    requires TypeOf(v) == TypeOf(w)
    requires (IsNumeric(TypeOf(v)) && Num(v) == Num(w)) || (TypeOf(v) == TString && TextOf(v) == TextOf(w))
    ensures v == w
  {
  }
}
