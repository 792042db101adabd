/** Byte-level framing shared by both RESP readers: the stream, the line reader
    (`readLine`), base-10 integer lines (`readIntegerFromInput` / `readInteger`
    with `strconv.ParseInt(line, 10, 64)`) and the bulk body read (`make`, then
    `bufio.Reader.Read`, then one trailing line). The two Go readers carry
    identical copies of this code; it is specified once here. */
module Wire {

  newtype byte = b: int | 0 <= b < 256

  type Bytes = seq<byte>

  const CR: byte := 13
  const LF: byte := 10
  const Plus: byte := 43    // '+'
  const Minus: byte := 45   // '-'
  const Colon: byte := 58   // ':'
  const Dollar: byte := 36  // '$'
  const Star: byte := 42    // '*'
  const Zero: byte := 48    // '0'
  const Nine: byte := 57    // '9'

  const MinInt64: int := -0x8000_0000_0000_0000
  const MaxInt64: int := 0x7fff_ffff_ffff_ffff

  datatype Option<+T> = None | Some(value: T)

  /** The errors a reader can report. `EndOfStream` is `io.EOF` from the
      underlying reader; `InvalidInteger` is the `*strconv.NumError` of a
      length, count or integer line (syntax and range errors alike);
      `UnknownType` is the "unknown type" error of `Read`; `NegativeLength`
      stands for the run-time panic of `make` with a negative length. */
  datatype Error = EndOfStream | InvalidInteger | UnknownType(typ: byte) | NegativeLength

  /** What a Go `(*Value, error)` pair carries: exactly one of the two. */
  datatype Result<+T> = Ok(value: T) | Err(error: Error)

  /** The outcome of one read step on a stream together with the stream
      position it leaves behind; a failing step still consumes bytes. */
  datatype Step<+T> = Done(value: T, next: nat) | Failed(error: Error, next: nat)
  {
    function ToResult(): Result<T> {
      match this
      case Done(v, _) => Ok(v)
      case Failed(e, _) => Err(e)
    }
  }

  function Min(a: int, b: int): int { if a <= b then a else b }

  function Zeros(n: nat): (z: Bytes)
    ensures |z| == n && forall i :: 0 <= i < n ==> z[i] == 0
  {
    seq(n, _ => 0)
  }

  /** The stream `d` holds `s` from position `p` on. */
  predicate At(d: Bytes, p: nat, s: Bytes) {
    p + |s| <= |d| && forall i :: 0 <= i < |s| ==> d[p + i] == s[i]
  }

  lemma AtSplit(d: Bytes, p: nat, a: Bytes, b: Bytes)
    requires At(d, p, a + b)
    ensures At(d, p, a) && At(d, p + |a|, b)
  {
    forall i | 0 <= i < |a| ensures d[p + i] == a[i] {
      assert (a + b)[i] == a[i];
    }
    forall i | 0 <= i < |b| ensures d[p + |a| + i] == b[i] {
      assert (a + b)[|a| + i] == b[i];
    }
  }

  predicate NoCR(s: Bytes) {
    forall i :: 0 <= i < |s| ==> s[i] != CR
  }

  // ---------------------------------------------------------------- readLine

  /** The index of the first carriage return at or after `from` that has one
      more byte after it: the place where `readLine`'s loop stops. */
  function LineEnd(d: Bytes, from: nat): (r: Option<nat>)
    ensures r.Some? ==> from <= r.value && r.value + 1 < |d| && d[r.value] == CR
    decreases |d| - from
  {
    if from + 1 >= |d| then None
    else if d[from] == CR then Some(from)
    else LineEnd(d, from + 1)
  }

  /** `LineEnd` finds the first such carriage return: none comes before it,
      and when there is none at all, no byte but the last is a CR. */
  lemma {:induction false} LineEndFirst(d: Bytes, from: nat)
    ensures var r := LineEnd(d, from);
            forall j :: from <= j && j + 1 < |d| && (r.None? || j < r.value) ==> d[j] != CR
    decreases |d| - from
  {
    if from + 1 < |d| && d[from] != CR {
      LineEndFirst(d, from + 1);
    }
  }

  /** A CR with a byte after it and no CR before it is where the line ends. */
  lemma LineEndAt(d: Bytes, from: nat, i: nat)
    requires from <= i && i + 1 < |d| && d[i] == CR
    requires forall j :: from <= j < i ==> d[j] != CR
    ensures LineEnd(d, from) == Some(i)
  {
    LineEndFirst(d, from);
  }

  /** `readLine` from position `p`: the bytes before the first CR, consuming
      that CR and whichever byte follows it (a `\n` is not checked); when the
      stream ends first, every remaining byte is consumed and the error is
      `io.EOF`. */
  function LineAt(d: Bytes, p: nat): (r: Step<Bytes>)
    requires p <= |d|
    ensures p <= r.next <= |d|
    ensures r.Done? ==> r.next == p + |r.value| + 2 && d[p + |r.value|] == CR
    ensures r.Failed? ==> r.error == EndOfStream && r.next == |d|
  {
    match LineEnd(d, p)
    case Some(i) => Done(seq(i - p, j requires 0 <= j < i - p => d[p + j]), i + 2)
    case None => Failed(EndOfStream, |d|)
  }

  /** A line read holds exactly the stream bytes before its CR, none of them a
      CR; a line that hits the end of the stream saw no CR but maybe in the
      last byte. */
  lemma LineAtContents(d: Bytes, p: nat)
    requires p <= |d|
    ensures var r := LineAt(d, p);
            (r.Done? ==> NoCR(r.value) && At(d, p, r.value))
            && (r.Failed? ==> forall j :: p <= j < |d| - 1 ==> d[j] != CR)
  {
    LineEndFirst(d, p);
  }

  /** Converse of LineAt's contract: a CR-free prefix followed by CR and one
      more byte is read back as exactly that line. */
  lemma LineAtPrefix(d: Bytes, p: nat, line: Bytes)
    requires p + |line| + 2 <= |d| && At(d, p, line) && NoCR(line) && d[p + |line|] == CR
    ensures LineAt(d, p) == Done(line, p + |line| + 2)
  {
    var i := p + |line|;
    forall j | p <= j < i ensures d[j] != CR {
      assert d[j] == line[j - p];
    }
    LineEndAt(d, p, i);
    assert LineAt(d, p).value == line;
  }

  // ----------------------------------------------------------- integer lines

  predicate IsDigit(b: byte) { Zero <= b <= Nine }

  /** The value of a run of decimal digits, most significant first; `None`
      when some byte is not a digit. */
  function DigitsValue(s: Bytes): Option<nat>
  {
    if s == [] then Some(0)
    else if !IsDigit(s[|s| - 1]) then None
    else
      match DigitsValue(s[..|s| - 1])
      case None => None
      case Some(v) => Some(10 * v + (s[|s| - 1] - Zero) as nat)
  }

  /** `strconv.ParseInt(line, 10, 64)`: an optional `+` or `-`, then one or
      more decimal digits, with a value that fits in 64 bits. */
  function ParseInt64(line: Bytes): (r: Option<int>)
    ensures r.Some? ==> MinInt64 <= r.value <= MaxInt64
  {
    if |line| == 0 then None
    else
      var digits := if line[0] == Plus || line[0] == Minus then line[1..] else line;
      if |digits| == 0 then None
      else
        match DigitsValue(digits)
        case None => None
        case Some(m) =>
          var v: int := if line[0] == Minus then 0 - m else m;
          if MinInt64 <= v <= MaxInt64 then Some(v) else None
  }

  /** A run of bytes has a value exactly when every byte is a digit. */
  lemma {:induction false} DigitsValueDefined(s: Bytes)
    ensures DigitsValue(s).Some? <==> forall i :: 0 <= i < |s| ==> IsDigit(s[i])
    decreases |s|
  {
    if s != [] {
      var init := s[..|s| - 1];
      DigitsValueDefined(init);
      assert forall i :: 0 <= i < |init| ==> init[i] == s[i];
    }
  }

  /** `strconv.ParseInt` accepts exactly an optional sign followed by one or
      more digits whose signed value fits in 64 bits, and gives that value. */
  lemma ParseInt64Accepts(line: Bytes)
    ensures var start := if 0 < |line| && (line[0] == Plus || line[0] == Minus) then 1 else 0;
            var m := DigitsValue(line[start..]);
            var v := if m.None? then 0 else if start == 1 && line[0] == Minus then 0 - m.value else m.value;
            ParseInt64(line).Some? <==>
              start < |line| && (forall i :: start <= i < |line| ==> IsDigit(line[i]))
              && MinInt64 <= v <= MaxInt64
    ensures var start := if 0 < |line| && (line[0] == Plus || line[0] == Minus) then 1 else 0;
            ParseInt64(line).Some? ==>
              ParseInt64(line).value == if start == 1 && line[0] == Minus then 0 - DigitsValue(line[start..]).value
                                        else DigitsValue(line[start..]).value
  {
    var start := if 0 < |line| && (line[0] == Plus || line[0] == Minus) then 1 else 0;
    var digits := line[start..];
    DigitsValueDefined(digits);
    assert forall i :: start <= i < |line| ==> line[i] == digits[i - start];
  }

  /** `readIntegerFromInput` (resp/resp.go) and `readInteger` (resp.go): one
      line, parsed as a base-10 int64. A line that is not a number is still
      consumed. */
  function IntegerAt(d: Bytes, p: nat): (r: Step<int>)
    requires p <= |d|
    ensures p <= r.next <= |d|
    ensures r.Done? ==> r.next >= p + 2 && MinInt64 <= r.value <= MaxInt64
    ensures r.Failed? ==> r.error == EndOfStream || r.error == InvalidInteger
  {
    match LineAt(d, p)
    case Failed(e, q) => Failed(e, q)
    case Done(line, q) =>
      match ParseInt64(line)
      case None => Failed(InvalidInteger, q)
      case Some(n) => Done(n, q)
  }

  /** Decimal digits of a natural number, most significant first. */
  function NatDigits(n: nat): (s: Bytes)
    ensures 0 < |s| && forall i :: 0 <= i < |s| ==> IsDigit(s[i])
    decreases n
  {
    if n < 10 then [Zero + n as byte] else NatDigits(n / 10) + [Zero + (n % 10) as byte]
  }

  /** The canonical base-10 text of an integer, as `strconv.Itoa` writes it. */
  function Decimal(n: int): (s: Bytes)
    ensures 0 < |s| && NoCR(s)
  {
    if n < 0 then [Minus] + NatDigits(-n) else NatDigits(n)
  }

  lemma {:induction false} NatDigitsValue(n: nat)
    ensures DigitsValue(NatDigits(n)) == Some(n)
    decreases n
  {
    var s := NatDigits(n);
    if n >= 10 {
      NatDigitsValue(n / 10);
      assert s[..|s| - 1] == NatDigits(n / 10);
    }
  }

  /** Every 64-bit integer written in decimal parses back to itself. */
  lemma ParseDecimal(n: int)
    requires MinInt64 <= n <= MaxInt64
    ensures ParseInt64(Decimal(n)) == Some(n)
  {
    if n < 0 {
      NatDigitsValue(-n);
      assert Decimal(n)[1..] == NatDigits(-n);
    } else {
      NatDigitsValue(n);
    }
  }

  /** An integer line written in decimal is read back with its value and
      exactly its length consumed. */
  lemma IntegerAtDecimal(d: Bytes, p: nat, n: int)
    requires MinInt64 <= n <= MaxInt64
    requires p + |Decimal(n)| + 2 <= |d| && At(d, p, Decimal(n)) && d[p + |Decimal(n)|] == CR
    ensures IntegerAt(d, p) == Done(n, p + |Decimal(n)| + 2)
  {
    LineAtPrefix(d, p, Decimal(n));
    ParseDecimal(n);
  }

  // -------------------------------------------------------------- bulk body

  /** The body of a bulk frame of declared length `len` whose bytes start at
      `q`: `make([]byte, len)` zero-fills a buffer and `reader.Read` copies
      into it as many stream bytes as remain, up to `len`. */
  function Body(d: Bytes, q: nat, len: nat): (body: Bytes)
    requires q <= |d|
    ensures |body| == len
  {
    var k := Min(len, |d| - q);
    seq(len, i requires 0 <= i < len => if i < k then d[q + i] else 0)
  }

  /** Where a bulk frame ends: after the body, one more line is read and its
      error ignored, so a missing CR LF swallows the rest of the stream. */
  function BodyEnd(d: Bytes, q: nat, len: nat): (next: nat)
    requires q <= |d|
    ensures q + Min(len, |d| - q) <= next <= |d|
  {
    LineAt(d, q + Min(len, |d| - q)).next
  }

  /** A bulk frame once its `$` is read: the length line, then, unless the
      length is negative (where `make` panics), the body and the trailing
      line. The step never fails after a valid, non-negative length. */
  function BulkAt(d: Bytes, p: nat): (r: Step<Bytes>)
    requires p <= |d|
    ensures p <= r.next <= |d|
    ensures r.Done? ==> r.next >= p + 2
    ensures r.Failed? ==> r.error in {EndOfStream, InvalidInteger, NegativeLength}
  {
    match IntegerAt(d, p)
    case Failed(e, q) => Failed(e, q)
    case Done(len, q) =>
      if len < 0 then Failed(NegativeLength, q)
      else Done(Body(d, q, len), BodyEnd(d, q, len))
  }

  /** The body holds the stream's bytes where the stream has them (CR and LF
      included) and zeros past its end. */
  lemma BulkBody(d: Bytes, q: nat, len: nat)
    requires q <= |d|
    ensures forall i :: 0 <= i < len ==> Body(d, q, len)[i] == if q + i < |d| then d[q + i] else 0
  {
  }

  /** What `reader.Read` leaves in a zero-filled buffer of `len` bytes is the
      body. */
  lemma ReadIntoZeros(d: Bytes, q: nat, len: nat)
    requires q <= |d|
    ensures var k := Min(len, |d| - q);
            d[q..q + k] + Zeros(len)[k..] == Body(d, q, len)
  {
    var k := Min(len, |d| - q);
    var filled := d[q..q + k] + Zeros(len)[k..];
    forall i | 0 <= i < len
      ensures filled[i] == Body(d, q, len)[i]
    {
      if i < k {
        assert filled[i] == d[q + i];
      } else {
        assert filled[i] == Zeros(len)[i];
      }
    }
  }

  /** A body that is all in the stream and followed by a line end is read
      as exactly those bytes, and the frame ends right after the CR and the
      byte that follows it. */
  lemma BodyInStream(d: Bytes, q: nat, body: Bytes)
    requires At(d, q, body) && q + |body| + 2 <= |d| && d[q + |body|] == CR
    ensures Body(d, q, |body|) == body
    ensures BodyEnd(d, q, |body|) == q + |body| + 2
  {
    LineAtPrefix(d, q + |body|, []);
  }

  // ------------------------------------------------------------ bufio.Reader

  /** A `bufio.Reader` over an `io.Reader`: the whole byte stream `data` the
      underlying reader will deliver, and how many bytes `pos` have been handed
      out. Buffer refills are not visible at this level. */
  class Reader {
    const data: Bytes
    var pos: nat

    ghost predicate Valid()
      reads this
    {
      pos <= |data|
    }

    /** `bufio.NewReader`. */
    constructor (input: Bytes)
      ensures Valid() && data == input && pos == 0
    {
      data := input;
      pos := 0;
    }

    /** `ReadByte`: the next byte, or `io.EOF` without moving at the end. */
    method ReadByte() returns (b: byte, err: Option<Error>)
      requires Valid()
      modifies this
      ensures Valid()
      ensures old(pos) < |data| ==> err == None && b == data[old(pos)] && pos == old(pos) + 1
      ensures old(pos) == |data| ==> err == Some(EndOfStream) && pos == old(pos)
    {
      if pos == |data| {
        return 0, Some(EndOfStream);
      }
      b, err := data[pos], None;
      pos := pos + 1;
    }

    /** `Read(buf)`: copies as many bytes as remain, up to the length of
        `buf`, and leaves the rest of `buf` as it was. */
    method Read(buf: array<byte>) returns (k: nat)
      requires Valid()
      modifies this, buf
      ensures Valid()
      ensures k == Min(buf.Length, |data| - old(pos)) && pos == old(pos) + k
      ensures buf[..] == data[old(pos)..pos] + old(buf[..])[k..]
    {
      k := Min(buf.Length, |data| - pos);
      var i := 0;
      while i < k
        invariant 0 <= i <= k && pos == old(pos) && pos + k <= |data|
        invariant buf[..i] == data[pos..pos + i]
        invariant buf[i..] == old(buf[..])[i..]
      {
        buf[i] := data[pos + i];
        i := i + 1;
      }
      pos := pos + k;
    }
  }
}
