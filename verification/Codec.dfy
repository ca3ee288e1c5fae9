/** The newline-delimited JSON codec of the display protocol (crates/ipc/src/codec.rs). */
module Codec {
  import opened Results
  import opened Bytes

  const MAX_LINE := 64 * 1024
  const MAX_PAYLOAD := MAX_LINE - 1

  datatype Error =
    | LineTooLong
    | MalformedJson
    | NonCanonicalNewline
    | UnterminatedLine
    | MultipleFrames
    | Serialization
    | Poisoned

  /** The JSON reader and writer of one message type. */
  datatype Schema<!T> = Schema(parse: seq<Byte> -> Option<T>, show: T -> seq<Byte>)

  /** Compact JSON: non-empty, on one line, and it parses back. */
  ghost predicate Lawful<T(!new)>(schema: Schema<T>) {
    forall m :: var text := schema.show(m);
      text != [] && LF !in text && CR !in text && schema.parse(text) == Some(m)
  }

  // ----- encoding -----

  /** The capped buffer the serializer writes into, piece by piece. */
  class CappedBuffer {
    var bytes: seq<Byte>
    var exceeded: bool

    constructor ()
      ensures bytes == [] && !exceeded
    {
      bytes, exceeded := [], false;
    }

    /** A piece that would pass the limit is refused whole and the buffer remembers it. */
    method Write(piece: seq<Byte>) returns (ok: bool)
      modifies this
      ensures ok <==> |old(bytes)| + |piece| <= MAX_PAYLOAD
      ensures ok ==> bytes == old(bytes) + piece && exceeded == old(exceeded)
      ensures !ok ==> bytes == old(bytes) && exceeded
    {
      if |bytes| + |piece| > MAX_PAYLOAD {
        exceeded := true;
        return false;
      }
      bytes := bytes + piece;
      ok := true;
    }
  }

  /** Encodes a record whose text the serializer hands over in `pieces`, failing of its own
      accord after the first `stopsAfter` pieces if that is given. The result does not depend
      on how the text is split. */
  method EncodeJsonLine(pieces: seq<seq<Byte>>, stopsAfter: Option<nat>) returns (r: Result<seq<Byte>, Error>)
    requires stopsAfter.Some? ==> stopsAfter.value <= |pieces|
    ensures var text := Flatten(if stopsAfter.Some? then pieces[..stopsAfter.value] else pieces);
            r == if |text| > MAX_PAYLOAD then Err(LineTooLong)
                 else if stopsAfter.Some? then Err(Serialization)
                 else Ok(text + [LF])
  {
    var writer := new CappedBuffer();
    var written := if stopsAfter.Some? then pieces[..stopsAfter.value] else pieces;
    for i := 0 to |written|
      invariant !writer.exceeded && writer.bytes == Flatten(written[..i])
      invariant |writer.bytes| <= MAX_PAYLOAD
    {
      FlattenSplit(written, i);
      FlattenSplit(written, i + 1);
      assert written[..i + 1] == written[..i] + [written[i]];
      FlattenConcat(written[..i], [written[i]]);
      assert Flatten([written[i]]) == written[i] by { assert [written[i]][1..] == []; }
      var ok := writer.Write(written[i]);
      if !ok {
        return Err(LineTooLong);
      }
    }
    assert written[..|written|] == written;
    if stopsAfter.Some? {
      return Err(Serialization);
    }
    r := Ok(writer.bytes + [LF]);
  }

  function Encode<T>(schema: Schema<T>, m: T): Result<seq<Byte>, Error> {
    if |schema.show(m)| > MAX_PAYLOAD then Err(LineTooLong) else Ok(schema.show(m) + [LF])
  }

  // ----- decoding one record -----

  function DecodeJsonLine<T>(schema: Schema<T>, frame: seq<Byte>): Result<T, Error> {
    if |frame| > MAX_LINE then Err(LineTooLong)
    else if frame == [] || frame[|frame| - 1] != LF then Err(UnterminatedLine)
    else
      var payload := frame[..|frame| - 1];
      if payload != [] && payload[|payload| - 1] == CR then Err(NonCanonicalNewline)
      else if LF in payload then Err(MultipleFrames)
      else if payload == [] then Err(MalformedJson)
      else
        match schema.parse(payload)
        case Some(m) => Ok(m)
        case None => Err(MalformedJson)
  }

  /** Decoding inverts encoding. */
  lemma DecodeOfEncode<T(!new)>(schema: Schema<T>, m: T)
    requires Lawful(schema) && Encode(schema, m).Ok?
    ensures DecodeJsonLine(schema, Encode(schema, m).value) == Ok(m)
  {
    var text := schema.show(m);
    assert (text + [LF])[..|text|] == text;
    assert text[|text| - 1] in text;
  }

  // ----- the incremental decoder -----

  /** What one connection has left over between chunks. */
  datatype State = State(buffer: seq<Byte>, poisoned: bool)

  const REJECTED := State([], true)

  datatype Fed<+T> = Fed(state: State, result: Result<seq<T>, Error>)

  /** The loop over the remaining bytes of a chunk; `messages` came out of it so far. */
  function FeedBytes<T>(schema: Schema<T>, buffer: seq<Byte>, chunk: seq<Byte>, messages: seq<T>): Fed<T>
    decreases |chunk|
  {
    if chunk == [] then Fed(State(buffer, false), Ok(messages))
    else
      var next := buffer + [chunk[0]];
      if |next| > MAX_LINE then Fed(REJECTED, Err(LineTooLong))
      else if chunk[0] == LF then
        match DecodeJsonLine(schema, next)
        case Ok(m) => FeedBytes(schema, [], chunk[1..], messages + [m])
        case Err(e) => Fed(REJECTED, Err(e))
      else if |next| == MAX_LINE then Fed(REJECTED, Err(LineTooLong))
      else FeedBytes(schema, next, chunk[1..], messages)
  }

  function Feed<T>(schema: Schema<T>, s: State, chunk: seq<Byte>): Fed<T> {
    if s.poisoned then Fed(s, Err(Poisoned)) else FeedBytes(schema, s.buffer, chunk, [])
  }

  function Finish(s: State): (State, Option<Error>) {
    if s.poisoned then (s, Some(Poisoned))
    else if s.buffer == [] then (s, None)
    else (REJECTED, Some(UnterminatedLine))
  }

  class JsonLineDecoder<T(!new)> {
    const schema: Schema<T>
    var buffer: seq<Byte>
    var poisoned: bool

    constructor (schema: Schema<T>)
      ensures this.schema == schema && Snapshot() == State([], false)
    {
      this.schema := schema;
      buffer, poisoned := [], false;
    }

    function Snapshot(): State
      reads this
    {
      State(buffer, poisoned)
    }

    method Reject(error: Error) returns (r: Error)
      modifies this
      ensures r == error && Snapshot() == REJECTED
    {
      buffer, poisoned := [], true;
      r := error;
    }

    method FeedChunk(chunk: seq<Byte>) returns (r: Result<seq<T>, Error>)
      modifies this
      ensures Fed(Snapshot(), r) == Feed(schema, old(Snapshot()), chunk)
    {
      if poisoned {
        return Err(Poisoned);
      }
      var messages := [];
      ghost var goal := FeedBytes(schema, buffer, chunk, []);
      for i := 0 to |chunk|
        invariant !poisoned && FeedBytes(schema, buffer, chunk[i..], messages) == goal
      {
        var byte := chunk[i];
        assert chunk[i..][0] == byte && chunk[i..][1..] == chunk[i + 1..];
        buffer := buffer + [byte];
        if |buffer| > MAX_LINE {
          var e := Reject(LineTooLong);
          return Err(e);
        }
        if byte == LF {
          var frame := buffer;
          buffer := [];
          var decoded := DecodeJsonLine(schema, frame);
          if decoded.Err? {
            var e := Reject(decoded.error);
            return Err(e);
          }
          messages := messages + [decoded.value];
        } else if |buffer| == MAX_LINE {
          var e := Reject(LineTooLong);
          return Err(e);
        }
      }
      r := Ok(messages);
    }

    method FinishStream() returns (r: Option<Error>)
      modifies this
      ensures (Snapshot(), r) == Finish(old(Snapshot()))
    {
      if poisoned {
        return Some(Poisoned);
      }
      if buffer == [] {
        return None;
      }
      var e := Reject(UnterminatedLine);
      r := Some(e);
    }
  }

  // ----- one connection -----

  datatype Session<+T> = Session(state: State, delivered: seq<T>)

  /** Feeding chunks one after another; a chunk that fails delivers nothing. */
  function Receive<T>(schema: Schema<T>, chunks: seq<seq<Byte>>): Session<T> {
    if chunks == [] then Session(State([], false), [])
    else
      var before := Receive(schema, chunks[..|chunks| - 1]);
      var fed := Feed(schema, before.state, chunks[|chunks| - 1]);
      Session(fed.state, if fed.result.Ok? then before.delivered + fed.result.value else before.delivered)
  }

  /** The reference: cut the whole input at its line feeds and decode line by line. */
  datatype Decoded<+T> = Clean(messages: seq<T>, tail: seq<Byte>) | Broken(messages: seq<T>)

  function DecodeLines<T>(schema: Schema<T>, bytes: seq<Byte>): Decoded<T>
    decreases |bytes|
  {
    var end := LineEnd(bytes);
    if end == |bytes| then
      if |bytes| >= MAX_LINE then Broken([]) else Clean([], bytes)
    else
      match DecodeJsonLine(schema, bytes[..end + 1])
      case Err(_) => Broken([])
      case Ok(m) => Before(m, DecodeLines(schema, bytes[end + 1..]))
  }

  function Before<T>(m: T, rest: Decoded<T>): Decoded<T> {
    match rest
    case Clean(messages, tail) => Clean([m] + messages, tail)
    case Broken(messages) => Broken([m] + messages)
  }
}
