/** The command table of command/handler.go: one handler, `ping`. */
module Command {
  import opened Wire
  import opened Values
  import Objects
  import Resp
  import Frames

  /** "PONG" */
  const Pong: Bytes := [80, 79, 78, 71]
  /** "ping" */
  const PingName: Bytes := [112, 105, 110, 103]
  /** "PING" */
  const PingUpper: Bytes := [80, 73, 78, 71]

  /** `ping`: a simple string, "PONG" without arguments, otherwise the bulk
      payload of the first argument. */
  function Ping(args: seq<Value>): (r: Value)
    ensures r.typ == Objects.SimpleString
    ensures r.str == if |args| == 0 then Pong else args[0].bulk
    ensures r.key == [] && r.bulk == [] && r.num == 0 && r.arr == []
  {
    if |args| == 0 then Value(Objects.SimpleString, [], Pong, [], 0, [])
    else Value(Objects.SimpleString, [], args[0].bulk, [], 0, [])
  }

  type Handler = seq<Value> -> Value

  /** `Handlers`: command name to handler; the names are Go strings. */
  const Handlers: map<Bytes, Handler> := map[PingName := Ping]

  /** Only the first argument matters. */
  lemma PingIgnoresLaterArgs(args: seq<Value>, extra: seq<Value>)
    requires 0 < |args|
    ensures Ping(args + extra) == Ping(args[..1])
  {
  }

  /** The reply is always a simple string: never an error, never a bulk
      string under either of the tags bulk strings carry. */
  lemma PingNeverFails(args: seq<Value>)
    ensures Ping(args).typ != Objects.ErrorMessage
    ensures Ping(args).typ != Objects.BulkString && Ping(args).typ != Resp.BulkTag
  {
  }

  /** The table has one entry, lower-case "ping"; "PING" is not in it. */
  lemma HandlersHoldOnlyPing()
    ensures Handlers.Keys == {PingName}
    ensures PingUpper !in Handlers
    ensures forall args :: Handlers[PingName](args) == Ping(args)
  {
  }

  /** A `PING <arg>` request read off the wire names the table's handler,
      which answers with exactly the argument's bytes. */
  lemma PingEchoesRequest(arg: Bytes)
    requires |arg| <= MaxInt64
    ensures var request := Resp.ArrayValue([Resp.BulkValue(PingName), Resp.BulkValue(arg)]);
            var r := Resp.ParseFrame(Frames.Encode(request), 0);
            r.Done? && |r.value.arr| == 2 && r.value.arr[0].bulk in Handlers
            && Handlers[r.value.arr[0].bulk](r.value.arr[1..]).str == arg
  {
    var request := Resp.ArrayValue([Resp.BulkValue(PingName), Resp.BulkValue(arg)]);
    assert Resp.Readable(request.arr[0]) && Resp.Readable(request.arr[1]);
    Frames.ReadWholeFrame(request);
  }
}
