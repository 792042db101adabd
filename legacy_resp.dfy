/** The earlier RESP reader of resp.go (package main). It knows only arrays
    and bulk strings, and its `readArray` reads the count and returns that
    many zero-valued elements without reading any element bytes. */
module LegacyResp {
  import opened Wire
  import Values
  import Current = Resp
  import Frames

  /** resp.go's own `Value` record: no `key` field. */
  datatype Value = Value(typ: string, str: Bytes, bulk: Bytes, num: int, arr: seq<Value>)

  /** Go's zero `Value{}`. */
  const ZeroValue: Value := Value("", [], [], 0, [])

  const ArrayTag: string := "array"
  const BulkTag: string := "bulk"

  function Zeroes(n: nat): (vs: seq<Value>)
    ensures |vs| == n && forall i :: 0 <= i < n ==> vs[i] == ZeroValue
  {
    seq(n, _ => ZeroValue)
  }

  /** The two shapes this reader produces. */
  predicate Readable(v: Value) {
    v.str == [] && v.num == 0 &&
    ( (v.typ == ArrayTag && v.bulk == [] && |v.arr| <= MaxInt64
        && forall i :: 0 <= i < |v.arr| ==> v.arr[i] == ZeroValue)
    || (v.typ == BulkTag && v.arr == [] && |v.bulk| <= MaxInt64))
  }

  /** `Read`: `*` and `$` only. */
  function ParseFrame(d: Bytes, p: nat): (r: Step<Value>)
    requires p <= |d|
    ensures p <= r.next <= |d|
    ensures r.Done? ==> r.next >= p + 3 && Readable(r.value)
  {
    if p == |d| then Failed(EndOfStream, p)
    else if d[p] == Star then ArrayAt(d, p + 1)
    else if d[p] == Dollar then BulkFrameAt(d, p + 1)
    else Failed(UnknownType(d[p]), p + 1)
  }

  /** `readArray`: the count line only; `make([]Value, len)` panics on a
      negative count. */
  function ArrayAt(d: Bytes, p: nat): (r: Step<Value>)
    requires p <= |d|
    ensures p <= r.next <= |d|
    ensures r.Done? ==> r.next >= p + 2 && Readable(r.value) && r.value.typ == ArrayTag
  {
    match IntegerAt(d, p)
    case Failed(e, q) => Failed(e, q)
    case Done(count, q) =>
      if count < 0 then Failed(NegativeLength, q)
      else Done(Value(ArrayTag, [], [], 0, Zeroes(count)), q)
  }

  /** `readBulk`: the same length line and body as in resp/resp.go. */
  function BulkFrameAt(d: Bytes, p: nat): (r: Step<Value>)
    requires p <= |d|
    ensures p <= r.next <= |d|
    ensures r.Done? ==> r.next >= p + 2 && Readable(r.value) && r.value.typ == BulkTag
  {
    match BulkAt(d, p)
    case Failed(e, q) => Failed(e, q)
    case Done(body, q) => Done(Value(BulkTag, [], body, 0, []), q)
  }

  // ------------------------------------------------------------ properties

  /** Only `*` and `$` are accepted: `:`, `+`, `-` and every other first byte
      is an unknown type. */
  lemma ReadDispatch(d: Bytes, p: nat)
    requires p <= |d|
    ensures p == |d| ==> ParseFrame(d, p) == Failed(EndOfStream, p)
    ensures p < |d| && d[p] != Star && d[p] != Dollar ==>
              ParseFrame(d, p) == Failed(UnknownType(d[p]), p + 1)
    ensures p < |d| && d[p] == Colon ==> ParseFrame(d, p) == Failed(UnknownType(Colon), p + 1)
    ensures ParseFrame(d, p).Done? ==>
              p < |d| && (d[p] == Star <==> ParseFrame(d, p).value.typ == ArrayTag)
  {
  }

  /** An array frame consumes only its count line and holds `count` zero
      values; a negative count is where `make` panics. */
  lemma ArraySkipsElements(d: Bytes, p: nat)
    requires p < |d| && d[p] == Star && IntegerAt(d, p + 1).Done?
    ensures var c, q := IntegerAt(d, p + 1).value, IntegerAt(d, p + 1).next;
            (c < 0 ==> ParseFrame(d, p) == Failed(NegativeLength, q))
            && (c >= 0 ==> ParseFrame(d, p).Done? && ParseFrame(d, p).next == q
                           && |ParseFrame(d, p).value.arr| == c
                           && forall i :: 0 <= i < c ==> ParseFrame(d, p).value.arr[i] == ZeroValue)
  {
    assert ParseFrame(d, p) == ArrayAt(d, p + 1);
  }

  /** A header that is not a number fails an array or bulk frame, with the
      header line consumed and no value. */
  lemma NonNumericHeader(d: Bytes, p: nat)
    requires p < |d| && (d[p] == Star || d[p] == Dollar)
    requires LineAt(d, p + 1).Done? && ParseInt64(LineAt(d, p + 1).value).None?
    ensures ParseFrame(d, p) == Failed(InvalidInteger, LineAt(d, p + 1).next)
  {
  }

  /** On a bulk frame this reader and the one of resp/resp.go agree: the same
      outcome, the same error, the same body and the same stream position. */
  lemma AgreesOnBulk(d: Bytes, p: nat)
    requires p < |d| && d[p] == Dollar
    ensures var legacy, cur := ParseFrame(d, p), Current.ParseFrame(d, p);
            legacy.Done? == cur.Done? && legacy.next == cur.next
            && (legacy.Failed? ==> legacy.error == cur.error)
            && (legacy.Done? ==> legacy.value.bulk == cur.value.bulk && legacy.value.typ == cur.value.typ)
  {
    assert ParseFrame(d, p) == BulkFrameAt(d, p + 1);
    assert Current.ParseFrame(d, p) == Current.BulkFrameAt(d, p + 1);
  }

  /** A client request (an array of frames) is read as its count of zero
      values, and its elements are left in the stream, where the next `Read`
      starts on the first of them. */
  lemma RequestElementsLeftInStream(w: Values.Value, d: Bytes, p: nat)
    requires Current.Readable(w) && w.typ == Current.ArrayValue([]).typ
    requires At(d, p, Frames.Encode(w))
    ensures var r := ParseFrame(d, p);
            r.Done? && r.value.arr == Zeroes(|w.arr|) && At(d, r.next, Frames.EncodeAll(w.arr))
  {
    var header, body := [Star] + Decimal(|w.arr|) + Frames.CRLF, Frames.EncodeAll(w.arr);
    var q := p + |header|;
    assert At(d, p, header) && At(d, q, body) by {
      assert Frames.Encode(w) == header + body;
      AtSplit(d, p, header, body);
    }
    assert d[p] == Star && IntegerAt(d, p + 1) == Done(|w.arr|, q) by {
      Frames.HeaderAt(d, p, Star, |w.arr|);
    }
    assert ParseFrame(d, p) == ArrayAt(d, p + 1);
    assert ArrayAt(d, p + 1) == Done(Value(ArrayTag, [], [], 0, Zeroes(|w.arr|)), q);
  }

  /** The reader of resp.go. */
  class Resp {
    const reader: Reader

    ghost predicate Valid()
      reads this, reader
    {
      reader.Valid()
    }

    /** `NewResp`. */
    constructor (input: Bytes)
      ensures Valid() && fresh(reader) && reader.data == input && reader.pos == 0
    {
      reader := new Reader(input);
    }

    /** `readLine`: the same loop as in resp/resp.go. */
    method ReadLine() returns (line: Bytes, n: nat, err: Option<Error>)
      requires Valid()
      modifies reader
      ensures Valid()
      ensures var s := LineAt(reader.data, old(reader.pos));
              reader.pos == s.next
              && (s.Done? ==> err == None && line == s.value && n == |line| + 2)
              && (s.Failed? ==> err == Some(s.error) && line == [] && n == 0)
    {
      ghost var start := reader.pos;
      var buf: Bytes := [];
      n := 0;
      while true
        invariant reader.Valid() && start <= reader.pos
        invariant buf == reader.data[start..reader.pos] && n == |buf|
        invariant forall j :: start <= j < reader.pos - 1 ==> reader.data[j] != CR
        decreases |reader.data| - reader.pos
      {
        var b, e := reader.ReadByte();
        if e.Some? {
          return [], 0, e;
        }
        n := n + 1;
        buf := buf + [b];
        if |buf| >= 2 && buf[|buf| - 2] == CR {
          break;
        }
      }
      LineEndAt(reader.data, start, reader.pos - 2);
      line, err := buf[..|buf| - 2], None;
    }

    /** `readInteger`. */
    method ReadInteger() returns (x: int, n: nat, err: Option<Error>)
      requires Valid()
      modifies reader
      ensures Valid()
      ensures var s := IntegerAt(reader.data, old(reader.pos));
              reader.pos == s.next
              && (s.Done? ==> err == None && x == s.value && n == reader.pos - old(reader.pos))
              && (s.Failed? ==> err == Some(s.error) && x == 0 && n == 0)
    {
      var line, m, e := ReadLine();
      if e.Some? {
        return 0, 0, e;
      }
      var i := ParseInt64(line);
      if i.None? {
        return 0, 0, Some(InvalidInteger);
      }
      return i.value, m, None;
    }

    /** `Read`. */
    method Read() returns (r: Result<Value>)
      requires Valid()
      modifies reader
      ensures Valid()
      ensures var s := ParseFrame(reader.data, old(reader.pos));
              reader.pos == s.next && r == s.ToResult()
    {
      ghost var d, p := reader.data, reader.pos;
      ghost var s := ParseFrame(d, p);
      var typ, err := reader.ReadByte();
      if err.Some? {
        return Err(err.value);
      }
      assert p < |d| && reader.pos == p + 1 && typ == d[p];
      if typ == Star {
        assert s == ArrayAt(d, p + 1);
        r := ReadArray();
        assert reader.pos == s.next && r == s.ToResult();
      } else if typ == Dollar {
        assert s == BulkFrameAt(d, p + 1);
        r := ReadBulk();
        assert reader.pos == s.next && r == s.ToResult();
      } else {
        assert s == Failed(UnknownType(typ), p + 1);
        r := Err(UnknownType(typ));
      }
    }

    /** `readArray`. */
    method ReadArray() returns (r: Result<Value>)
      requires Valid()
      modifies reader
      ensures Valid()
      ensures var s := ArrayAt(reader.data, old(reader.pos));
              reader.pos == s.next && r == s.ToResult()
    {
      var count, _, err := ReadInteger();
      if err.Some? {
        return Err(err.value);
      }
      if count < 0 {
        return Err(NegativeLength);
      }
      var arr := Zeroes(count);
      var i := 0;
      while i < count
        invariant 0 <= i <= count
      {
        // the source's loop body is empty: no element is read
        i := i + 1;
      }
      r := Ok(Value(ArrayTag, [], [], 0, arr));
    }

    /** `readBulk`. */
    method ReadBulk() returns (r: Result<Value>)
      requires Valid()
      modifies reader
      ensures Valid()
      ensures var s := BulkFrameAt(reader.data, old(reader.pos));
              reader.pos == s.next && r == s.ToResult()
    {
      ghost var d, start := reader.data, reader.pos;
      var len, _, err := ReadInteger();
      if err.Some? {
        return Err(err.value);
      }
      if len < 0 {
        return Err(NegativeLength);
      }
      var bulk := new byte[len](_ => 0);
      ghost var zeros, q := bulk[..], reader.pos;
      var k := reader.Read(bulk);
      var body := bulk[..];
      assert body == Body(reader.data, q, len) by {
        assert zeros == Zeros(len);
        ReadIntoZeros(reader.data, q, len);
      }
      // the trailing CRLF; its error is ignored
      var _, _, _ := ReadLine();
      assert BulkAt(d, start) == Done(body, reader.pos) by {
        assert IntegerAt(d, start) == Done(len, q) && reader.pos == BodyEnd(d, q, len);
      }
      r := Ok(Value(BulkTag, [], body, 0, []));
    }
  }
}
