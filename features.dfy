/** The feature helpers of resnet_train/process_data.py and the two list
    types of the record format that they fill. */
module Features {
  import opened Py

  /** A feature of a serialized example: a list of 64-bit integers or a
      list of byte strings. */
  datatype Feature = Int64s(ints: seq<int>) | ByteStrings(strs: seq<Bytes>)

  const Int64Min: int := -0x8000_0000_0000_0000
  const Int64Max: int := 0x7FFF_FFFF_FFFF_FFFF

  predicate InInt64(i: int)
  {
    Int64Min <= i <= Int64Max
  }

  /** The first half of `_int64_feature`: a value that is not a list is
      wrapped into a one-element list, a list is used as it is. */
  function AsValueList(value: Value): (r: seq<Value>)
    ensures value.List? ==> r == value.items
    ensures !value.List? ==> r == [value]
  {
    if value.List? then value.items else [value]
  }

  /** The int64 list type accepts only integers (`TypeError` otherwise) that
      fit in 64 signed bits (`ValueError` otherwise); it checks the elements
      in order. */
  function Int64List(values: seq<Value>): (r: Result<seq<int>>)
    ensures r.Ok? <==> forall k :: 0 <= k < |values| ==> values[k].Int? && InInt64(values[k].i)
    ensures r.Ok? ==> |r.value| == |values| && forall k :: 0 <= k < |values| ==> values[k] == Int(r.value[k])
    ensures r.Raise? ==> r.error == TypeError || r.error == ValueError
  {
    if values == [] then Ok([])
    else if !values[0].Int? then Raise(TypeError)
    else if !InInt64(values[0].i) then Raise(ValueError)
    else match Int64List(values[1..])
      case Raise(e) => Raise(e)
      case Ok(rest) => Ok([values[0].i] + rest)
  }

  /** `_int64_feature(value)`: a list is handed to the int64 list type as it
      is; any other value is handed over as the one-element list `[value]`, so
      it is accepted exactly when it is an integer that fits in 64 bits. */
  function Int64Feature(value: Value): (r: Result<Feature>)
    ensures r.Ok? ==> r.value.Int64s?
    ensures value.List? ==> (r.Ok? <==> Int64List(value.items).Ok?)
    ensures value.List? && r.Ok? ==> r.value == Int64s(Int64List(value.items).value)
    ensures !value.List? ==> (r.Ok? <==> value.Int? && InInt64(value.i))
    ensures !value.List? && r.Ok? ==> r.value == Int64s([value.i])
    ensures !value.List? && !value.Int? ==> r == Raise(TypeError)
    ensures value.Int? && !InInt64(value.i) ==> r == Raise(ValueError)
  {
    match Int64List(AsValueList(value))
    case Raise(e) => Raise(e)
    case Ok(ints) => Ok(Int64s(ints))
  }

  /** `_bytes_feature(value)`: a one-element byte-string feature. */
  function BytesFeature(value: Bytes): (r: Feature)
    ensures r.ByteStrings? && r.strs == [value]
  {
    ByteStrings([value])
  }

  /** `tf.compat.as_bytes`: text is encoded with `utf8` (UTF-8 in the
      library); any other value is refused with `TypeError`. */
  function AsBytes(value: Value, utf8: string -> Bytes): (r: Result<Bytes>)
    ensures r.Ok? <==> value.Str?
    ensures r.Ok? ==> r.value == utf8(value.s)
    ensures r.Raise? ==> r.error == TypeError
  {
    match value
    case Str(s) => Ok(utf8(s))
    case _ => Raise(TypeError)
  }
}
