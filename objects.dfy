/** The value-type tags of pkg/objects/objects.go. The source has no behaviour
    there; the tags are the strings every `Value` carries in its `typ` field. */
module Objects {
  const SimpleString: string := "simple_string"
  const ErrorMessage: string := "error_message"
  const Integer: string := "integer"
  const BulkString: string := "bulk_string"
  const Array: string := "array"
  /** Untyped in the source (a plain string constant, not a ValueType). */
  const Null: string := "null"
}
