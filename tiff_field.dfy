/**
 * A TIFF image file directory entry (TIFF 6.0): tag, field type, value count
 * and the array holding the values. The field is immutable after
 * construction, so it is a datatype. The Java payload is an array object
 * whose class depends on the field type; `equals` compares it with
 * `Object.equals`, that is by identity, so the model gives each array an
 * identity number next to its contents.
 */
module TiffField {
  import opened Wrappers
  import opened JavaInt

  const TIFF_BYTE: int32 := 1
  const TIFF_ASCII: int32 := 2
  const TIFF_SHORT: int32 := 3
  const TIFF_LONG: int32 := 4
  const TIFF_RATIONAL: int32 := 5
  const TIFF_SBYTE: int32 := 6
  const TIFF_UNDEFINED: int32 := 7
  const TIFF_SSHORT: int32 := 8
  const TIFF_SLONG: int32 := 9
  const TIFF_SRATIONAL: int32 := 10
  const TIFF_FLOAT: int32 := 11
  const TIFF_DOUBLE: int32 := 12

  /** The Java arrays a field can hold; the ones no integer accessor reads are kept opaque. */
  datatype JavaArray =
    | ByteArray(bytes: seq<int8>)       // byte[]  (BYTE, SBYTE, UNDEFINED)
    | CharArray(chars: seq<uint16>)     // char[]  (SHORT)
    | ShortArray(shorts: seq<int16>)    // short[] (SSHORT)
    | IntArray(ints: seq<int32>)        // int[]   (SLONG)
    | LongArray(longs: seq<int64>)      // long[]  (LONG)
    | OtherArray(length: nat)           // String[], long[][], int[][], float[], double[]

  /** The `data` reference: null, or an array object with its identity. */
  datatype FieldData = NullData | ArrayRef(id: nat, arr: JavaArray)

  datatype TiffError =
    | ClassCast               // ClassCastException
    | NullPointer             // NullPointerException
    | IndexOutOfBounds        // ArrayIndexOutOfBoundsException

  datatype TIFFField = TIFFField(tag: int32, fieldType: int32, count: int32, data: FieldData)
  {
    function GetTag(): int32 { tag }
    function GetType(): int32 { fieldType }
    function GetCount(): int32 { count }
    function GetData(): FieldData { data }

    /** `getAsInt(index)`: the value as an `int`, unsigned for BYTE, UNDEFINED and SHORT. */
    function GetAsInt(index: int32): (r: Result<int32, TiffError>)
      ensures IntClass(fieldType).None? <==> fieldType !in {TIFF_BYTE, TIFF_UNDEFINED, TIFF_SBYTE, TIFF_SHORT, TIFF_SSHORT, TIFF_SLONG}
      ensures IntClass(fieldType).None? ==> r == Fail(ClassCast)
      ensures IntClass(fieldType).Some? ==> (r.Ok? <==> Holds(data, IntClass(fieldType).value, index))
      ensures IntClass(fieldType).Some? ==> (r == Fail(NullPointer) <==> data.NullData?)
      ensures IntClass(fieldType).Some? ==>
                (r == Fail(ClassCast) <==> data.ArrayRef? && !IsClass(data.arr, IntClass(fieldType).value))
      ensures IntClass(fieldType).Some? ==>
                (r == Fail(IndexOutOfBounds) <==>
                   data.ArrayRef? && IsClass(data.arr, IntClass(fieldType).value) && !(0 <= index < Length(data.arr)))
      ensures r.Ok? && (fieldType == TIFF_BYTE || fieldType == TIFF_UNDEFINED) ==>
                Holds(data, BYTES, index) && 0 <= r.value <= 255 && r.value == Unsigned8(data.arr.bytes[index])
      ensures r.Ok? && fieldType == TIFF_SBYTE ==>
                Holds(data, BYTES, index) && -128 <= r.value <= 127 && r.value == data.arr.bytes[index]
      ensures r.Ok? && fieldType == TIFF_SHORT ==>
                Holds(data, CHARS, index) && 0 <= r.value <= 65535 && r.value == data.arr.chars[index]
      ensures r.Ok? && fieldType == TIFF_SSHORT ==> Holds(data, SHORTS, index) && r.value == data.arr.shorts[index]
      ensures r.Ok? && fieldType == TIFF_SLONG ==> Holds(data, INTS, index) && r.value == data.arr.ints[index]
    {
      if fieldType == TIFF_BYTE || fieldType == TIFF_UNDEFINED then
        ReadBytes(index, false)
      else if fieldType == TIFF_SBYTE then
        ReadBytes(index, true)
      else if fieldType == TIFF_SHORT then
        match data
        case NullData => Fail(NullPointer)
        case ArrayRef(_, CharArray(a)) => if 0 <= index < |a| then Ok(a[index] as int32) else Fail(IndexOutOfBounds)
        case ArrayRef(_, _) => Fail(ClassCast)
      else if fieldType == TIFF_SSHORT then
        match data
        case NullData => Fail(NullPointer)
        case ArrayRef(_, ShortArray(a)) => if 0 <= index < |a| then Ok(a[index] as int32) else Fail(IndexOutOfBounds)
        case ArrayRef(_, _) => Fail(ClassCast)
      else if fieldType == TIFF_SLONG then
        match data
        case NullData => Fail(NullPointer)
        case ArrayRef(_, IntArray(a)) => if 0 <= index < |a| then Ok(a[index] as int32) else Fail(IndexOutOfBounds)
        case ArrayRef(_, _) => Fail(ClassCast)
      else
        Fail(ClassCast)
    }

    /** `((byte[]) data)[index]`, masked with `0xff` unless `signed`. */
    function ReadBytes(index: int32, signed: bool): Result<int32, TiffError>
    {
      match data
      case NullData => Fail(NullPointer)
      case ArrayRef(_, ByteArray(a)) =>
        if 0 <= index < |a| then Ok(if signed then a[index] else Unsigned8(a[index]) as int32)
        else Fail(IndexOutOfBounds)
      case ArrayRef(_, _) => Fail(ClassCast)
    }

    /** `getAsLong(index)`: as `getAsInt`, and LONG besides. */
    function GetAsLong(index: int32): (r: Result<int64, TiffError>)
      ensures fieldType != TIFF_LONG ==> r == (match GetAsInt(index) case Ok(v) => Ok(v as int64) case Fail(e) => Fail(e))
      ensures fieldType == TIFF_LONG ==> (r.Ok? <==> Holds(data, LONGS, index))
      ensures fieldType == TIFF_LONG && r.Ok? ==> r.value == data.arr.longs[index]
    {
      if fieldType == TIFF_LONG then
        match data
        case NullData => Fail(NullPointer)
        case ArrayRef(_, LongArray(a)) => if 0 <= index < |a| then Ok(a[index] as int64) else Fail(IndexOutOfBounds)
        case ArrayRef(_, _) => Fail(ClassCast)
      else
        match GetAsInt(index)
        case Ok(v) => Ok(v as int64)
        case Fail(e) => Fail(e)
    }

    /** `compareTo(o)`: -1, 0 or 1 by tag alone; a null argument raises. */
    function CompareTo(o: Option<TIFFField>): (r: Result<int, TiffError>)
      ensures o.None? <==> r == Fail(NullPointer)
      ensures o.Some? ==> r.Ok? && r.value in {-1, 0, 1}
      ensures o.Some? ==> (r.value < 0 <==> tag < o.value.tag) && (r.value == 0 <==> tag == o.value.tag)
    {
      match o
      case None => Fail(NullPointer)
      case Some(other) =>
        if tag < other.tag then Ok(-1) else if tag > other.tag then Ok(1) else Ok(0)
    }

    /** `equals(obj)`: same count, same data reference (identity), same tag and same type. */
    predicate Equals(obj: Option<TIFFField>)
    {
      match obj
      case None => false
      case Some(other) =>
        count == other.count && SameReference(data, other.data) && tag == other.tag && fieldType == other.fieldType
    }
  }

  /** The element classes of the integer-bearing arrays. */
  datatype ElementClass = BYTES | CHARS | SHORTS | INTS | LONGS

  /** The array class `getAsInt` casts `data` to for a field type, if it reads that type at all. */
  function IntClass(fieldType: int32): Option<ElementClass>
  {
    if fieldType == TIFF_BYTE || fieldType == TIFF_UNDEFINED || fieldType == TIFF_SBYTE then Some(BYTES)
    else if fieldType == TIFF_SHORT then Some(CHARS)
    else if fieldType == TIFF_SSHORT then Some(SHORTS)
    else if fieldType == TIFF_SLONG then Some(INTS)
    else None
  }

  /** The array is of class `c`, so the cast to it succeeds. */
  predicate IsClass(a: JavaArray, c: ElementClass)
  {
    match c
    case BYTES => a.ByteArray?
    case CHARS => a.CharArray?
    case SHORTS => a.ShortArray?
    case INTS => a.IntArray?
    case LONGS => a.LongArray?
  }

  /** `data` is a non-null array of class `c` and `index` is within it. */
  predicate Holds(data: FieldData, c: ElementClass, index: int)
  {
    data.ArrayRef? && 0 <= index < Length(data.arr) && IsClass(data.arr, c)
  }

  function Length(a: JavaArray): nat
  {
    match a
    case ByteArray(s) => |s|
    case CharArray(s) => |s|
    case ShortArray(s) => |s|
    case IntArray(s) => |s|
    case LongArray(s) => |s|
    case OtherArray(n) => n
  }

  /** `Object.equals` on array references: both null, or the same array object. */
  predicate SameReference(a: FieldData, b: FieldData)
  {
    match a
    case NullData => b.NullData?
    case ArrayRef(id, _) => b.ArrayRef? && b.id == id
  }

  /** One array object has one content: references with equal identity hold the same array. */
  ghost predicate HeapConsistent(refs: set<FieldData>)
  {
    forall a, b :: a in refs && b in refs && a.ArrayRef? && b.ArrayRef? && a.id == b.id ==> a.arr == b.arr
  }

  /** The constructor stores tag, type, count and data unchanged, and the getters return them. */
  lemma ConstructorStores(tag: int32, fieldType: int32, count: int32, data: FieldData)
    ensures var f := TIFFField(tag, fieldType, count, data);
            f.GetTag() == tag && f.GetType() == fieldType && f.GetCount() == count && f.GetData() == data
  {
  }

  /** LONG is read by `getAsLong` only; `getAsInt` rejects it. */
  lemma {:induction false} LongOnlyAsLong(f: TIFFField, index: int32)
    ensures f.fieldType == TIFF_LONG ==> f.GetAsInt(index) == Fail(ClassCast)
    ensures f.fieldType == TIFF_LONG && Holds(f.data, LONGS, index) ==> f.GetAsLong(index).Ok?
  {
  }

  /** A well-typed read succeeds exactly when the index is within the array. */
  lemma {:induction false} GetAsIntInBounds(f: TIFFField, index: int32)
    requires f.fieldType in {TIFF_BYTE, TIFF_UNDEFINED, TIFF_SBYTE}
    requires f.data.ArrayRef? && f.data.arr.ByteArray?
    ensures f.GetAsInt(index).Ok? <==> 0 <= index < |f.data.arr.bytes|
    ensures f.GetAsInt(index).Ok? && f.fieldType != TIFF_SBYTE ==> Signed8(f.GetAsInt(index).value as uint8) == f.data.arr.bytes[index]
  {
  }

  /** The ordering is antisymmetric and transitive, so it sorts fields by tag. */
  lemma CompareToIsOrder(f: TIFFField, g: TIFFField, h: TIFFField)
    ensures f.CompareTo(Some(g)).value == -g.CompareTo(Some(f)).value
    ensures f.CompareTo(Some(g)).value < 0 && g.CompareTo(Some(h)).value < 0 ==> f.CompareTo(Some(h)).value < 0
    ensures f.CompareTo(Some(f)).value == 0
  {
  }

  /** Equal fields compare as 0; the converse fails (the ordering is inconsistent with equals). */
  lemma EqualsImpliesCompareZero(f: TIFFField, g: TIFFField)
    requires f.Equals(Some(g))
    ensures f.CompareTo(Some(g)) == Ok(0)
  {
  }

  lemma CompareZeroDoesNotImplyEquals()
    ensures var f := TIFFField(273, TIFF_LONG, 1, NullData);
            var g := TIFFField(273, TIFF_SHORT, 1, NullData);
            f.CompareTo(Some(g)) == Ok(0) && !f.Equals(Some(g))
  {
  }

  /** `equals` is an equivalence relation, and false for null. */
  lemma EqualsIsEquivalence(f: TIFFField, g: TIFFField, h: TIFFField)
    ensures f.Equals(Some(f))
    ensures f.Equals(Some(g)) ==> g.Equals(Some(f))
    ensures f.Equals(Some(g)) && g.Equals(Some(h)) ==> f.Equals(Some(h))
    ensures !f.Equals(None)
  {
  }

  /** Two fields that are equal read the same values. */
  lemma {:induction false} EqualFieldsReadAlike(f: TIFFField, g: TIFFField, index: int32)
    requires HeapConsistent({f.data, g.data})
    requires f.Equals(Some(g))
    ensures f.GetAsInt(index) == g.GetAsInt(index) && f.GetAsLong(index) == g.GetAsLong(index)
  {
    assert f.data == g.data;
  }
}
