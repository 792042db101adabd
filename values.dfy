/** The shared `Value` record of resp/value.go and its `Marshal`. The source
    spells the fields `typ/key/str/bulk/num/arr` there and `Typ/Str/Bulk/Num/Arr`
    in resp/resp.go and command/handler.go; they are one record here. */
module Values {
  import opened Wire
  import Objects

  /** `typ` is an `objects.ValueType` tag; `key`, `str` and `bulk` are Go
      strings, i.e. byte sequences; `num` is a 64-bit `int`. */
  datatype Value = Value(typ: string, key: Bytes, str: Bytes, bulk: Bytes, num: int, arr: seq<Value>)

  /** `Marshal` is still a stub: an array and every other tag alike produce
      no bytes, and the receiver is only read. */
  function Marshal(v: Value): (r: Bytes)
    ensures |r| == 0
  {
    if v.typ == Objects.Array then [] else []
  }
}
