/** The RESP request reader of resp/resp.go: arrays (`*`), bulk strings (`$`)
    and integers (`:`), arrays read recursively. The functions below give the
    meaning of each read step on the whole byte stream `d` from position `p`;
    the class `Resp` is the byte-at-a-time cursor of the source, proved to
    follow them. */
module Resp {
  import opened Wire
  import opened Values
  import Objects

  /** The tag `readBulk` writes: not `objects.BULK_STRING` ("bulk_string"). */
  const BulkTag: string := "bulk"

  function ArrayValue(elems: seq<Value>): Value {
    Value(Objects.Array, [], [], [], 0, elems)
  }

  function BulkValue(body: Bytes): Value {
    Value(BulkTag, [], [], body, 0, [])
  }

  function IntegerValue(n: int): Value {
    Value(Objects.Integer, [], [], [], n, [])
  }

  /** The values `Read` can return: an array of such values, a bulk string, or
      a 64-bit integer, each with only its own payload field set (and no more
      elements or bytes than a 64-bit count can declare). */
  predicate Readable(v: Value)
    decreases v
  {
    v.key == [] && v.str == [] &&
    ( (v.typ == Objects.Array && v.bulk == [] && v.num == 0 && |v.arr| <= MaxInt64
        && forall i :: 0 <= i < |v.arr| ==> Readable(v.arr[i]))
    || (v.typ == BulkTag && v.num == 0 && v.arr == [] && |v.bulk| <= MaxInt64)
    || (v.typ == Objects.Integer && v.bulk == [] && v.arr == [] && MinInt64 <= v.num <= MaxInt64))
  }

  /** `Read`: one frame, chosen by its first byte. */
  function ParseFrame(d: Bytes, p: nat): (r: Step<Value>)
    requires p <= |d|
    ensures p <= r.next <= |d|
    ensures r.Done? ==> r.next > p
    decreases |d| - p, 0
  {
    if p == |d| then Failed(EndOfStream, p)
    else if d[p] == Star then ArrayAt(d, p + 1)
    else if d[p] == Dollar then BulkFrameAt(d, p + 1)
    else if d[p] == Colon then IntegerFrameAt(d, p + 1)
    else Failed(UnknownType(d[p]), p + 1)
  }

  /** `readBulk`: a length line and a body; tagged "bulk". */
  function BulkFrameAt(d: Bytes, p: nat): (r: Step<Value>)
    requires p <= |d|
    ensures p <= r.next <= |d|
    ensures r.Done? ==> r.next >= p + 2 && r.value.typ == BulkTag && Readable(r.value)
  {
    match BulkAt(d, p)
    case Failed(e, q) => Failed(e, q)
    case Done(body, q) => Done(BulkValue(body), q)
  }

  /** `readInteger`: one integer line, tagged `objects.INTEGER`. */
  function IntegerFrameAt(d: Bytes, p: nat): (r: Step<Value>)
    requires p <= |d|
    ensures p <= r.next <= |d|
    ensures r.Done? ==> r.next >= p + 2 && r.value.typ == Objects.Integer && Readable(r.value)
  {
    match IntegerAt(d, p)
    case Failed(e, q) => Failed(e, q)
    case Done(n, q) => Done(IntegerValue(n), q)
  }

  /** `readArray`: a count line, then that many frames (none for a negative
      count). */
  function ArrayAt(d: Bytes, p: nat): (r: Step<Value>)
    requires p <= |d|
    ensures p <= r.next <= |d|
    ensures r.Done? ==> r.next >= p + 2 && r.value.typ == Objects.Array
    decreases |d| - p, 2
  {
    match IntegerAt(d, p)
    case Failed(e, q) => Failed(e, q)
    case Done(count, q) =>
      match ElemsAt(d, q, if count < 0 then 0 else count)
      case Failed(e, q') => Failed(e, q')
      case Done(elems, q') => Done(ArrayValue(elems), q')
  }

  /** `k` consecutive frames from `q`; the first failure ends the whole run. */
  function ElemsAt(d: Bytes, q: nat, k: nat): (r: Step<seq<Value>>)
    requires q <= |d|
    ensures q <= r.next <= |d|
    ensures r.Done? ==> |r.value| == k
    decreases |d| - q, 1
  {
    if k == 0 then Done([], q)
    else
      match ParseFrame(d, q)
      case Failed(e, q1) => Failed(e, q1)
      case Done(v, q1) =>
        match ElemsAt(d, q1, k - 1)
        case Failed(e, q2) => Failed(e, q2)
        case Done(vs, q2) => Done([v] + vs, q2)
  }

  /** `elems` in front of the values of a successful step. */
  function Prefixed(elems: seq<Value>, s: Step<seq<Value>>): Step<seq<Value>> {
    match s
    case Done(vs, n) => Done(elems + vs, n)
    case Failed(e, n) => Failed(e, n)
  }

  /** One unfolding of ElemsAt: the first frame, then the remaining ones. */
  lemma ElemsStep(d: Bytes, q: nat, k: nat)
    requires q <= |d| && 0 < k
    ensures var f := ParseFrame(d, q);
            ElemsAt(d, q, k) == if f.Done? then Prefixed([f.value], ElemsAt(d, f.next, k - 1))
                                else Failed(f.error, f.next)
  {
  }

  lemma ElemsCons(d: Bytes, q: nat, k: nat, v: Value, q1: nat)
    requires q <= |d| && 0 < k && ParseFrame(d, q) == Done(v, q1)
    ensures ElemsAt(d, q, k) == Prefixed([v], ElemsAt(d, q1, k - 1))
  {
    ElemsStep(d, q, k);
  }

  lemma PrefixedTwice(a: seq<Value>, b: seq<Value>, s: Step<seq<Value>>)
    ensures Prefixed(a, Prefixed(b, s)) == Prefixed(a + b, s)
  {
    if s.Done? {
      assert a + (b + s.value) == (a + b) + s.value;
    }
  }

  /** One more element read: it moves from the run still to read to the
      elements already read. */
  lemma ElemsAdvance(d: Bytes, first: nat, k: nat, arr: seq<Value>, before: nat, v: Value, after: nat, i: nat)
    requires first <= |d| && before <= |d| && i < k
    requires ElemsAt(d, first, k) == Prefixed(arr, ElemsAt(d, before, k - i))
    requires ParseFrame(d, before) == Done(v, after)
    ensures ElemsAt(d, first, k) == Prefixed(arr + [v], ElemsAt(d, after, k - (i + 1)))
  {
    ElemsCons(d, before, k - i, v, after);
    PrefixedTwice(arr, [v], ElemsAt(d, after, k - (i + 1)));
  }

  // ------------------------------------------------------------ properties

  /** `Read` chooses by the first byte: `*` array, `$` bulk, `:` integer; every
      other byte, `+` and `-` included, is an unknown type, and an exhausted
      stream is `io.EOF`. */
  lemma ReadDispatch(d: Bytes, p: nat)
    requires p <= |d|
    ensures p == |d| ==> ParseFrame(d, p) == Failed(EndOfStream, p)
    ensures p < |d| && d[p] != Star && d[p] != Dollar && d[p] != Colon ==>
              ParseFrame(d, p) == Failed(UnknownType(d[p]), p + 1)
    ensures p < |d| && (d[p] == Plus || d[p] == Minus) ==> ParseFrame(d, p).Failed?
    ensures ParseFrame(d, p).Done? ==>
              p < |d|
              && (d[p] == Star <==> ParseFrame(d, p).value.typ == Objects.Array)
              && (d[p] == Dollar <==> ParseFrame(d, p).value.typ == BulkTag)
              && (d[p] == Colon <==> ParseFrame(d, p).value.typ == Objects.Integer)
  {
  }

  /** Every value `Read` returns is one of the three shapes it builds. */
  lemma {:induction false} ReadIsReadable(d: Bytes, p: nat)
    requires p <= |d| && ParseFrame(d, p).Done?
    ensures Readable(ParseFrame(d, p).value)
    decreases |d| - p, 0
  {
    if d[p] == Star {
      assert ParseFrame(d, p) == ArrayAt(d, p + 1);
      var q := IntegerAt(d, p + 1).next;
      var count := IntegerAt(d, p + 1).value;
      ElemsReadable(d, q, if count < 0 then 0 else count);
    }
  }

  lemma {:induction false} ElemsReadable(d: Bytes, q: nat, k: nat)
    requires q <= |d| && ElemsAt(d, q, k).Done?
    ensures forall i :: 0 <= i < k ==> Readable(ElemsAt(d, q, k).value[i])
    decreases |d| - q, 1
  {
    if k > 0 {
      var f := ParseFrame(d, q);
      ElemsStep(d, q, k);
      ReadIsReadable(d, q);
      ElemsReadable(d, f.next, k - 1);
      var vs := ElemsAt(d, q, k).value;
      assert vs == [f.value] + ElemsAt(d, f.next, k - 1).value;
    }
  }

  /** Positions `ps` from which the frames `vs` are read one after another. */
  predicate Chain(d: Bytes, ps: seq<nat>, vs: seq<Value>) {
    && |ps| == |vs| + 1
    && (forall i :: 0 <= i < |ps| ==> ps[i] <= |d|)
    && (forall i {:trigger ParseFrame(d, ps[i])} :: 0 <= i < |vs| ==> ParseFrame(d, ps[i]) == Done(vs[i], ps[i + 1]))
  }

  /** A successful run of `k` elements is `k` frames read back to back. */
  lemma {:induction false} ElemsChain(d: Bytes, q: nat, k: nat) returns (ps: seq<nat>)
    requires q <= |d| && ElemsAt(d, q, k).Done?
    ensures Chain(d, ps, ElemsAt(d, q, k).value)
    ensures ps[0] == q && ps[k] == ElemsAt(d, q, k).next
    decreases k
  {
    if k == 0 {
      ps := [q];
    } else {
      var f := ParseFrame(d, q);
      ElemsStep(d, q, k);
      var tail := ElemsAt(d, f.next, k - 1);
      assert f.Done? && tail.Done? && ElemsAt(d, q, k) == Done([f.value] + tail.value, tail.next);
      var rest := ElemsChain(d, f.next, k - 1);
      ChainCons(d, q, f.value, rest, tail.value);
      ps := [q] + rest;
      assert ps[k] == rest[k - 1];
    }
  }

  /** A frame in front of a chain that starts where the frame ends. */
  lemma ChainCons(d: Bytes, q: nat, v: Value, rest: seq<nat>, vs: seq<Value>)
    requires q <= |d| && Chain(d, rest, vs) && ParseFrame(d, q) == Done(v, rest[0])
    ensures Chain(d, [q] + rest, [v] + vs)
  {
    var ps, ws := [q] + rest, [v] + vs;
    forall i | 0 <= i < |ws|
      ensures ParseFrame(d, ps[i]) == Done(ws[i], ps[i + 1])
    {
      if i > 0 {
        assert ps[i] == rest[i - 1] && ps[i + 1] == rest[i] && ws[i] == vs[i - 1];
      }
    }
  }

  /** A chain without its first frame is still a chain. */
  lemma ChainTail(d: Bytes, ps: seq<nat>, vs: seq<Value>)
    requires Chain(d, ps, vs) && 0 < |vs|
    ensures Chain(d, ps[1..], vs[1..]) && ParseFrame(d, ps[0]) == Done(vs[0], ps[1])
  {
    forall i | 0 <= i < |vs| - 1
      ensures ParseFrame(d, ps[1..][i]) == Done(vs[1..][i], ps[1..][i + 1])
    {
      assert ps[1..][i] == ps[i + 1] && ps[1..][i + 1] == ps[i + 2] && vs[1..][i] == vs[i + 1];
    }
  }

  /** Conversely, frames read back to back are a successful run. */
  lemma {:induction false} ChainElems(d: Bytes, ps: seq<nat>, vs: seq<Value>)
    requires Chain(d, ps, vs)
    ensures ElemsAt(d, ps[0], |vs|) == Done(vs, ps[|vs|])
    decreases |vs|
  {
    if |vs| == 0 {
      assert ElemsAt(d, ps[0], 0) == Done([], ps[0]);
    } else {
      ChainTail(d, ps, vs);
      var ps', vs' := ps[1..], vs[1..];
      assert ps'[0] == ps[1] && |vs'| == |vs| - 1 && ps'[|vs'|] == ps[|vs|];
      ChainElems(d, ps', vs');
      assert ElemsAt(d, ps[1], |vs| - 1) == Done(vs', ps[|vs|]);
      ElemsCons(d, ps[0], |vs|, vs[0], ps[1]);
      assert [vs[0]] + vs' == vs;
    }
  }

  /** One element that fails fails the whole run, with that element's error
      and stream position. */
  lemma {:induction false} ChainFailure(d: Bytes, ps: seq<nat>, vs: seq<Value>, k: nat)
    requires Chain(d, ps, vs) && |vs| < k && ParseFrame(d, ps[|vs|]).Failed?
    ensures ElemsAt(d, ps[0], k) == Failed(ParseFrame(d, ps[|vs|]).error, ParseFrame(d, ps[|vs|]).next)
    decreases |vs|
  {
    var f := ParseFrame(d, ps[|vs|]);
    if |vs| == 0 {
      ElemsStep(d, ps[0], k);
    } else {
      ChainTail(d, ps, vs);
      var ps', vs' := ps[1..], vs[1..];
      assert ps'[0] == ps[1] && |vs'| == |vs| - 1 && ps'[|vs'|] == ps[|vs|];
      ChainFailure(d, ps', vs', k - 1);
      assert ElemsAt(d, ps[1], k - 1) == Failed(f.error, f.next);
      ElemsCons(d, ps[0], k, vs[0], ps[1]);
    }
  }

  /** A successful array frame with count `c` holds exactly `max(c, 0)`
      elements, the frames that follow the count line, in stream order. */
  lemma ArrayFrame(d: Bytes, p: nat) returns (ps: seq<nat>)
    requires p < |d| && d[p] == Star && ParseFrame(d, p).Done?
    ensures IntegerAt(d, p + 1).Done?
    ensures var c, elems := IntegerAt(d, p + 1).value, ParseFrame(d, p).value.arr;
            |elems| == (if c < 0 then 0 else c)
            && Chain(d, ps, elems) && ps[0] == IntegerAt(d, p + 1).next
            && ps[|elems|] == ParseFrame(d, p).next
  {
    var c, q := IntegerAt(d, p + 1).value, IntegerAt(d, p + 1).next;
    ps := ElemsChain(d, q, if c < 0 then 0 else c);
  }

  /** A negative count reads as an empty array and consumes only its line. */
  lemma NegativeCount(d: Bytes, p: nat)
    requires p < |d| && d[p] == Star && IntegerAt(d, p + 1).Done? && IntegerAt(d, p + 1).value < 0
    ensures ParseFrame(d, p) == Done(ArrayValue([]), IntegerAt(d, p + 1).next)
  {
    assert ParseFrame(d, p) == ArrayAt(d, p + 1);
    assert ElemsAt(d, IntegerAt(d, p + 1).next, 0) == Done([], IntegerAt(d, p + 1).next);
  }

  /** A bulk frame with length `len >= 0` always succeeds, tagged "bulk",
      with the body and end of `Body` and `BodyEnd`; a negative length is
      where `make` panics. */
  lemma BulkFrame(d: Bytes, p: nat)
    requires p < |d| && d[p] == Dollar && IntegerAt(d, p + 1).Done?
    ensures var len, q := IntegerAt(d, p + 1).value, IntegerAt(d, p + 1).next;
            var r := ParseFrame(d, p);
            (len < 0 ==> r == Failed(NegativeLength, q))
            && (len >= 0 ==>
                  r.Done? && r.value.typ == BulkTag && r.value.typ != Objects.BulkString
                  && r.value.bulk == Body(d, q, len) && r.next == BodyEnd(d, q, len))
  {
    assert ParseFrame(d, p) == BulkFrameAt(d, p + 1);
  }

  /** An integer frame reads `objects.INTEGER` with the value of its line,
      and fails exactly when that line is not a base-10 int64. */
  lemma IntegerFrame(d: Bytes, p: nat)
    requires p < |d| && d[p] == Colon
    ensures var line, r := LineAt(d, p + 1), ParseFrame(d, p);
            (r.Done? <==> line.Done? && ParseInt64(line.value).Some?)
            && (r.Done? ==> r.value == IntegerValue(ParseInt64(line.value).value) && r.next == line.next)
            && (line.Done? && ParseInt64(line.value).None? ==> r == Failed(InvalidInteger, line.next))
  {
  }

  /** The reader of resp/resp.go: a `bufio.Reader` that each step advances. */
  class Resp {
    const reader: Reader

    ghost predicate Valid()
      reads this, reader
    {
      reader.Valid()
    }

    /** `NewResp`. */
    constructor (input: Bytes)
      ensures Valid() && fresh(reader) && reader.data == input && reader.pos == 0
    {
      reader := new Reader(input);
    }

    /** `readLine`: appends byte after byte until the byte before the last one
        is a CR. */
    method ReadLine() returns (line: Bytes, n: nat, err: Option<Error>)
      requires Valid()
      modifies reader
      ensures Valid()
      ensures var s := LineAt(reader.data, old(reader.pos));
              reader.pos == s.next
              && (s.Done? ==> err == None && line == s.value && n == |line| + 2)
              && (s.Failed? ==> err == Some(s.error) && line == [] && n == 0)
    {
      ghost var start := reader.pos;
      var buf: Bytes := [];
      n := 0;
      while true
        invariant reader.Valid() && start <= reader.pos
        invariant buf == reader.data[start..reader.pos] && n == |buf|
        invariant forall j :: start <= j < reader.pos - 1 ==> reader.data[j] != CR
        decreases |reader.data| - reader.pos
      {
        var b, e := reader.ReadByte();
        if e.Some? {
          return [], 0, e;
        }
        n := n + 1;
        buf := buf + [b];
        if |buf| >= 2 && buf[|buf| - 2] == CR {
          break;
        }
      }
      LineEndAt(reader.data, start, reader.pos - 2);
      line, err := buf[..|buf| - 2], None;
    }

    /** `readIntegerFromInput`. */
    method ReadIntegerFromInput() returns (val: int, n: nat, err: Option<Error>)
      requires Valid()
      modifies reader
      ensures Valid()
      ensures var s := IntegerAt(reader.data, old(reader.pos));
              reader.pos == s.next
              && (s.Done? ==> err == None && val == s.value && n == reader.pos - old(reader.pos))
              && (s.Failed? ==> err == Some(s.error) && val == 0 && n == 0)
    {
      var line, m, e := ReadLine();
      if e.Some? {
        return 0, 0, e;
      }
      var i := ParseInt64(line);
      if i.None? {
        return 0, 0, Some(InvalidInteger);
      }
      return i.value, m, None;
    }

    /** `Read`. */
    method Read() returns (r: Result<Value>)
      requires Valid()
      modifies reader
      ensures Valid()
      ensures var s := ParseFrame(reader.data, old(reader.pos));
              reader.pos == s.next && r == s.ToResult()
      decreases |reader.data| - reader.pos, 1
    {
      ghost var d, p := reader.data, reader.pos;
      ghost var s := ParseFrame(d, p);
      var typ, err := reader.ReadByte();
      if err.Some? {
        return Err(err.value);
      }
      assert p < |d| && reader.pos == p + 1 && typ == d[p];
      if typ == Star {
        assert s == ArrayAt(d, p + 1);
        r := ReadArray();
        assert reader.pos == s.next && r == s.ToResult();
      } else if typ == Dollar {
        assert s == BulkFrameAt(d, p + 1);
        r := ReadBulk();
        assert reader.pos == s.next && r == s.ToResult();
      } else if typ == Colon {
        assert s == IntegerFrameAt(d, p + 1);
        r := ReadInteger();
        assert reader.pos == s.next && r == s.ToResult();
      } else {
        assert s == Failed(UnknownType(typ), p + 1);
        r := Err(UnknownType(typ));
      }
    }

    /** `readArray`. */
    method ReadArray() returns (r: Result<Value>)
      requires Valid()
      modifies reader
      ensures Valid()
      ensures var s := ArrayAt(reader.data, old(reader.pos));
              reader.pos == s.next && r == s.ToResult()
      decreases |reader.data| - reader.pos, 2
    {
      ghost var start := reader.pos;
      var count, _, err := ReadIntegerFromInput();
      if err.Some? {
        return Err(err.value);
      }
      ghost var d, k: nat := reader.data, if count < 0 then 0 else count;
      ghost var first := reader.pos;
      var arr: seq<Value> := [];
      var i := 0;
      assert Prefixed(arr, ElemsAt(d, first, k)) == ElemsAt(d, first, k) by {
        assert forall vs: seq<Value> :: arr + vs == vs;
      }
      while i < count
        invariant Valid() && reader.data == d && start + 2 <= first <= reader.pos
        invariant 0 <= i <= k
        invariant ElemsAt(d, first, k) == Prefixed(arr, ElemsAt(d, reader.pos, k - i))
        decreases count - i
      {
        ghost var before := reader.pos;
        var e := Read();
        if e.Err? {
          ElemsStep(d, before, k - i);
          return Err(e.error);
        }
        ElemsAdvance(d, first, k, arr, before, e.value, reader.pos, i);
        assert ElemsAt(d, first, k) == Prefixed(arr + [e.value], ElemsAt(d, reader.pos, k - (i + 1)));
        arr := arr + [e.value];
        i := i + 1;
      }
      assert arr + [] == arr;
      r := Ok(ArrayValue(arr));
    }

    /** `readBulk`. A negative length is where the source's `make` panics. */
    method ReadBulk() returns (r: Result<Value>)
      requires Valid()
      modifies reader
      ensures Valid()
      ensures var s := BulkFrameAt(reader.data, old(reader.pos));
              reader.pos == s.next && r == s.ToResult()
    {
      ghost var d, start := reader.data, reader.pos;
      var len, _, err := ReadIntegerFromInput();
      if err.Some? {
        return Err(err.value);
      }
      if len < 0 {
        return Err(NegativeLength);
      }
      var bulk := new byte[len](_ => 0);
      ghost var zeros, q := bulk[..], reader.pos;
      var k := reader.Read(bulk);
      var body := bulk[..];
      assert body == Body(reader.data, q, len) by {
        assert zeros == Zeros(len);
        ReadIntoZeros(reader.data, q, len);
      }
      // the trailing CRLF; its error is ignored
      var _, _, _ := ReadLine();
      assert BulkAt(d, start) == Done(body, reader.pos) by {
        assert IntegerAt(d, start) == Done(len, q) && reader.pos == BodyEnd(d, q, len);
      }
      r := Ok(BulkValue(body));
    }

    /** `readInteger`. */
    method ReadInteger() returns (r: Result<Value>)
      requires Valid()
      modifies reader
      ensures Valid()
      ensures var s := IntegerFrameAt(reader.data, old(reader.pos));
              reader.pos == s.next && r == s.ToResult()
    {
      var val, _, err := ReadIntegerFromInput();
      if err.Some? {
        return Err(err.value);
      }
      r := Ok(IntegerValue(val));
    }
  }
}
