/** The RESP wire form of a value, written out as the reference that the
    reader of resp/resp.go is proved against. The source's own `Marshal` is a
    stub (resp/value.go), so the round trip the protocol promises cannot hold
    of it; the last lemmas below record that. */
module Frames {
  import opened Wire
  import opened Values
  import opened Resp
  import Objects

  const CRLF: Bytes := [CR, LF]

  /** `*<n>\r\n` and the elements; `:<n>\r\n`; `+<text>\r\n`; `-<text>\r\n`;
      every other tag as a bulk string `$<len>\r\n<bytes>\r\n`. */
  function Encode(v: Value): (b: Bytes)
    ensures 0 < |b|
    decreases v
  {
    if v.typ == Objects.Array then [Star] + Decimal(|v.arr|) + CRLF + EncodeAll(v.arr)
    else if v.typ == Objects.Integer then [Colon] + Decimal(v.num) + CRLF
    else if v.typ == Objects.SimpleString then [Plus] + v.str + CRLF
    else if v.typ == Objects.ErrorMessage then [Minus] + v.str + CRLF
    else [Dollar] + Decimal(|v.bulk|) + CRLF + v.bulk + CRLF
  }

  /** The elements of an array, back to back with no separator. */
  function EncodeAll(vs: seq<Value>): Bytes
    decreases vs
  {
    if vs == [] then [] else Encode(vs[0]) + EncodeAll(vs[1..])
  }

  /** A header `<t><n>\r\n` is read as its type byte and the count `n`. */
  lemma HeaderAt(d: Bytes, p: nat, t: byte, n: int)
    requires MinInt64 <= n <= MaxInt64 && At(d, p, [t] + Decimal(n) + CRLF)
    ensures p < |d| && d[p] == t
    ensures IntegerAt(d, p + 1) == Done(n, p + |[t] + Decimal(n) + CRLF|)
  {
    var dec := Decimal(n);
    AtSplit(d, p, [t] + dec, CRLF);
    AtSplit(d, p, [t], dec);
    assert d[p + 1 + |dec|] == CRLF[0];
    assert |[t] + dec + CRLF| == |dec| + 3;
    IntegerAtDecimal(d, p + 1, n);
    assert IntegerAt(d, p + 1) == Done(n, p + 1 + |dec| + 2);
    assert d[p] == ([t] + dec + CRLF)[0];
  }

  lemma ArrayCase(d: Bytes, p: nat, elems: seq<Value>, q: nat, r: nat)
    requires p < |d| && d[p] == Star && q <= |d|
    requires IntegerAt(d, p + 1) == Done(|elems|, q) && ElemsAt(d, q, |elems|) == Done(elems, r)
    ensures ParseFrame(d, p) == Done(ArrayValue(elems), r)
  {
    assert ParseFrame(d, p) == ArrayAt(d, p + 1);
  }

  lemma BulkBodyEncoded(d: Bytes, p: nat, body: Bytes)
    requires |body| <= MaxInt64
    requires At(d, p, [Dollar] + Decimal(|body|) + CRLF + body + CRLF)
    ensures p < |d| && d[p] == Dollar
    ensures BulkAt(d, p + 1) == Done(body, p + |[Dollar] + Decimal(|body|) + CRLF + body + CRLF|)
  {
    var header := [Dollar] + Decimal(|body|) + CRLF;
    var q := p + |header|;
    assert At(d, p, header) && At(d, q, body) && At(d, q + |body|, CRLF) by {
      AtSplit(d, p, header + body, CRLF);
      AtSplit(d, p, header, body);
    }
    assert d[p] == Dollar && IntegerAt(d, p + 1) == Done(|body|, q) by {
      HeaderAt(d, p, Dollar, |body|);
    }
    assert Body(d, q, |body|) == body && BodyEnd(d, q, |body|) == q + |body| + 2 by {
      assert d[q + |body|] == CRLF[0];
      BodyInStream(d, q, body);
    }
  }

  lemma BulkCase(d: Bytes, p: nat, body: Bytes, r: nat)
    requires p < |d| && d[p] == Dollar && BulkAt(d, p + 1) == Done(body, r)
    ensures ParseFrame(d, p) == Done(BulkValue(body), r)
  {
    assert ParseFrame(d, p) == BulkFrameAt(d, p + 1);
  }

  lemma IntegerCase(d: Bytes, p: nat, n: int)
    requires MinInt64 <= n <= MaxInt64 && At(d, p, [Colon] + Decimal(n) + CRLF)
    ensures ParseFrame(d, p) == Done(IntegerValue(n), p + |[Colon] + Decimal(n) + CRLF|)
  {
    HeaderAt(d, p, Colon, n);
    assert ParseFrame(d, p) == IntegerFrameAt(d, p + 1);
  }

  /** Round trip: every value the reader can produce is read back from its
      wire form, whatever follows it in the stream, with exactly that form
      consumed. Bulk bodies are arbitrary bytes, embedded CR LF included. */
  lemma {:induction false} ReadEncoded(v: Value, d: Bytes, p: nat)
    requires Readable(v) && At(d, p, Encode(v))
    ensures ParseFrame(d, p) == Done(v, p + |Encode(v)|)
    decreases v, 1
  {
    if v.typ == Objects.Array {
      ReadEncodedArray(v, d, p);
    } else if v.typ == Objects.Integer {
      IntegerCase(d, p, v.num);
      assert IntegerValue(v.num) == v;
    } else {
      assert v.typ == BulkTag;
      BulkBodyEncoded(d, p, v.bulk);
      BulkCase(d, p, v.bulk, p + |Encode(v)|);
      assert BulkValue(v.bulk) == v;
    }
  }

  lemma {:induction false} ReadEncodedArray(v: Value, d: Bytes, p: nat)
    requires v.typ == Objects.Array && Readable(v) && At(d, p, Encode(v))
    ensures ParseFrame(d, p) == Done(v, p + |Encode(v)|)
    decreases v, 0
  {
    var header, body := [Star] + Decimal(|v.arr|) + CRLF, EncodeAll(v.arr);
    var q := p + |header|;
    assert At(d, p, header) && At(d, q, body) && |Encode(v)| == |header| + |body| by {
      assert Encode(v) == header + body;
      AtSplit(d, p, header, body);
    }
    assert d[p] == Star && IntegerAt(d, p + 1) == Done(|v.arr|, q) by {
      HeaderAt(d, p, Star, |v.arr|);
    }
    assert ElemsAt(d, q, |v.arr|) == Done(v.arr, q + |body|) by {
      ReadEncodedAll(v.arr, d, q);
    }
    ArrayCase(d, p, v.arr, q, q + |body|);
    assert ArrayValue(v.arr) == v;
  }

  /** The elements of an array are read back in order. */
  lemma {:induction false} ReadEncodedAll(vs: seq<Value>, d: Bytes, q: nat)
    requires (forall i :: 0 <= i < |vs| ==> Readable(vs[i])) && At(d, q, EncodeAll(vs))
    ensures ElemsAt(d, q, |vs|) == Done(vs, q + |EncodeAll(vs)|)
    decreases vs
  {
    if vs != [] {
      var head, tail := Encode(vs[0]), EncodeAll(vs[1..]);
      var q1 := q + |head|;
      assert At(d, q, head) && At(d, q1, tail) && |EncodeAll(vs)| == |head| + |tail| by {
        assert EncodeAll(vs) == head + tail;
        AtSplit(d, q, head, tail);
      }
      assert ParseFrame(d, q) == Done(vs[0], q1) by {
        ReadEncoded(vs[0], d, q);
      }
      assert ElemsAt(d, q1, |vs| - 1) == Done(vs[1..], q1 + |tail|) by {
        ReadEncodedAll(vs[1..], d, q1);
      }
      ElemsFirst(d, q, vs, q1, q1 + |tail|);
    }
  }

  lemma ElemsFirst(d: Bytes, q: nat, vs: seq<Value>, q1: nat, r: nat)
    requires q <= |d| && 0 < |vs| && ParseFrame(d, q) == Done(vs[0], q1)
    requires q1 <= |d| && ElemsAt(d, q1, |vs| - 1) == Done(vs[1..], r)
    ensures ElemsAt(d, q, |vs|) == Done(vs, r)
  {
    ElemsCons(d, q, |vs|, vs[0], q1);
    assert [vs[0]] + vs[1..] == vs;
  }

  /** Reading a whole encoded stream yields the value and nothing is left. */
  lemma ReadWholeFrame(v: Value)
    requires Readable(v)
    ensures ParseFrame(Encode(v), 0) == Done(v, |Encode(v)|)
  {
    assert Encode(v)[0..|Encode(v)|] == Encode(v);
    ReadEncoded(v, Encode(v), 0);
  }

  /** A value tagged `objects.BULK_STRING` does not come back as itself: the
      reader tags every bulk frame "bulk". */
  lemma BulkStringTagLost(v: Value)
    requires v.typ == Objects.BulkString && |v.bulk| <= MaxInt64
    ensures ParseFrame(Encode(v), 0) == Done(BulkValue(v.bulk), |Encode(v)|)
    ensures ParseFrame(Encode(v), 0).value != v
  {
    assert Encode(v) == Encode(BulkValue(v.bulk));
    ReadWholeFrame(BulkValue(v.bulk));
  }

  /** Simple strings and errors, which the protocol defines, are refused by
      their type byte. */
  lemma SimpleFramesRefused(v: Value)
    requires v.typ == Objects.SimpleString || v.typ == Objects.ErrorMessage
    ensures ParseFrame(Encode(v), 0) == Failed(UnknownType(if v.typ == Objects.SimpleString then Plus else Minus), 1)
  {
  }

  /** The stub `Marshal` never gives back the frame a value was read from:
      every frame read is at least one byte long and `Marshal` writes none. */
  lemma MarshalDoesNotRestoreFrame(d: Bytes, p: nat)
    requires p <= |d| && ParseFrame(d, p).Done?
    ensures Marshal(ParseFrame(d, p).value) != d[p..ParseFrame(d, p).next]
  {
  }

  /** What the stub `Marshal` writes cannot be read back: the stream is empty,
      so `Read` reports `io.EOF`; and it differs from the wire form. */
  lemma ReadMarshalled(v: Value)
    ensures ParseFrame(Marshal(v), 0) == Failed(EndOfStream, 0)
    ensures Marshal(v) != Encode(v)
  {
  }
}
