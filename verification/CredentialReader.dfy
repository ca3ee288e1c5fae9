/** Reading the frame from a stream that hands over as little as it likes, is interrupted at
    will, and may time out or fail. */
module CredentialReader {
  import opened Results
  import opened Bytes
  import opened Credential
  import Decimal

  /** What one read does, decided by the other side. */
  datatype ReadEvent = Short(atMost: nat) | Interrupted | TimedOut | Broken

  datatype ReadResult = Got(bytes: seq<Byte>) | Retry | Timeout | Failure

  /** The bytes the peer sent before closing, and how the coming reads behave; reads beyond
      the script deliver all they can. */
  class Stream {
    var data: seq<Byte>
    var script: seq<ReadEvent>

    constructor (data: seq<Byte>, script: seq<ReadEvent>)
      ensures this.data == data && this.script == script
    {
      this.data, this.script := data, script;
    }

    /** At least one byte is delivered unless the stream has ended. */
    method Read(want: nat) returns (r: ReadResult)
      requires want > 0
      modifies this
      ensures script == if old(script) == [] then [] else old(script)[1..]
      ensures r.Timeout? <==> old(script) != [] && old(script)[0] == TimedOut
      ensures r.Failure? <==> old(script) != [] && old(script)[0] == Broken
      ensures r.Retry? ==> old(script) != []
      ensures r.Got? ==> r.bytes <= old(data) && data == old(data)[|r.bytes|..] && |r.bytes| <= want
      ensures r.Got? && old(data) != [] ==> r.bytes != []
      ensures !r.Got? ==> data == old(data)
    {
      var event := if script == [] then Short(want) else script[0];
      if script != [] {
        script := script[1..];
      }
      match event
      case Interrupted => r := Retry;
      case TimedOut => r := Timeout;
      case Broken => r := Failure;
      case Short(atMost) =>
        var n := if atMost == 0 then 1 else if atMost > want then want else atMost;
        n := if n > |data| then |data| else n;
        r := Got(data[..n]);
        data := data[n..];
    }
  }

  /** The script only loses events from its front. */
  predicate Remains(after: seq<ReadEvent>, before: seq<ReadEvent>) {
    |after| <= |before| && after == before[|before| - |after|..]
  }

  /** The events of the reads made between two scripts. */
  function Consumed(after: seq<ReadEvent>, before: seq<ReadEvent>): seq<ReadEvent>
    requires Remains(after, before)
  {
    before[..|before| - |after|]
  }

  /** None of these reads went wrong. */
  predicate Calm(events: seq<ReadEvent>) {
    TimedOut !in events && Broken !in events
  }

  /** The reads went well but for the last, which reported the error. */
  predicate Excused(e: Error, events: seq<ReadEvent>) {
    && events != [] && Calm(events[..|events| - 1])
    && ((e == DeadlineElapsed && events[|events| - 1] == TimedOut)
        || (e == ReadFailed && events[|events| - 1] == Broken))
  }

  /** The reads since `before` went well. */
  predicate CalmSince(after: seq<ReadEvent>, before: seq<ReadEvent>) {
    Remains(after, before) && Calm(Consumed(after, before))
  }

  /** The last read since `before` reported the error, and it was the first to go wrong. */
  predicate ExcusedSince(e: Error, after: seq<ReadEvent>, before: seq<ReadEvent>) {
    Remains(after, before) && Excused(e, Consumed(after, before))
  }

  lemma ConsumedSplit(after: seq<ReadEvent>, middle: seq<ReadEvent>, before: seq<ReadEvent>)
    requires Remains(after, middle) && Remains(middle, before)
    ensures Remains(after, before) && Consumed(after, before) == Consumed(middle, before) + Consumed(after, middle)
  {
  }

  lemma CalmInTurn(first: seq<ReadEvent>, second: seq<ReadEvent>)
    requires Calm(first)
    ensures Calm(second) ==> Calm(first + second)
    ensures forall e :: Excused(e, second) ==> Excused(e, first + second)
  {
    if second != [] {
      var both := first + second;
      assert both[..|both| - 1] == first + second[..|second| - 1];
    }
  }

  /** Calm reads in front of others change nothing about those. */
  lemma ConsumedInTurn(e: Option<Error>, after: seq<ReadEvent>, middle: seq<ReadEvent>, before: seq<ReadEvent>)
    requires CalmSince(middle, before)
    ensures CalmSince(after, middle) ==> CalmSince(after, before)
    ensures e.Some? && ExcusedSince(e.value, after, middle) ==> ExcusedSince(e.value, after, before)
  {
    if Remains(after, middle) {
      ConsumedSplit(after, middle, before);
      CalmInTurn(Consumed(middle, before), Consumed(after, middle));
    }
  }

  function ErrorOf(r: ReadResult): Option<Error> {
    if r.Timeout? then Some(DeadlineElapsed) else if r.Failure? then Some(ReadFailed) else None
  }

  lemma OneRead(r: ReadResult, after: seq<ReadEvent>, middle: seq<ReadEvent>)
    requires after == if middle == [] then [] else middle[1..]
    requires r.Timeout? <==> middle != [] && middle[0] == TimedOut
    requires r.Failure? <==> middle != [] && middle[0] == Broken
    ensures ErrorOf(r).None? ==> CalmSince(after, middle)
    ensures ErrorOf(r).Some? ==> ExcusedSince(ErrorOf(r).value, after, middle)
  {
  }

  /** One more read after calm ones. */
  lemma OneMoreRead(r: ReadResult, after: seq<ReadEvent>, middle: seq<ReadEvent>, before: seq<ReadEvent>)
    requires CalmSince(middle, before) && after == if middle == [] then [] else middle[1..]
    requires r.Timeout? <==> middle != [] && middle[0] == TimedOut
    requires r.Failure? <==> middle != [] && middle[0] == Broken
    ensures ErrorOf(r).None? ==> CalmSince(after, before)
    ensures ErrorOf(r).Some? ==> ExcusedSince(ErrorOf(r).value, after, before)
  {
    OneRead(r, after, middle);
    ConsumedInTurn(ErrorOf(r), after, middle, before);
  }

  /** Moves the bytes that were read behind those already there; what is there and what is left
      stay the same together. */
  method Store(buffer: array<Byte>, filled: nat, bytes: seq<Byte>, ghost left: seq<Byte>)
    requires filled + |bytes| <= buffer.Length && bytes <= left
    modifies buffer
    ensures buffer[..filled + |bytes|] + left[|bytes|..] == old(buffer[..filled]) + left
  {
    ghost var before := buffer[..filled];
    forall i | 0 <= i < |bytes| {
      buffer[filled + i] := bytes[i];
    }
    assert buffer[..filled + |bytes|] == before + bytes;
    DataInTurn(before, bytes, left, left[|bytes|..]);
  }

  lemma DataInTurn(before: seq<Byte>, bytes: seq<Byte>, left: seq<Byte>, after: seq<Byte>)
    requires bytes <= left && after == left[|bytes|..]
    ensures before + bytes + after == before + left
  {
    assert left == bytes + after;
  }

  /** Fills the buffer, however many reads that takes. */
  method ReadExact(stream: Stream, buffer: array<Byte>) returns (e: Option<Error>)
    modifies stream, buffer
    ensures e.None? ==> CalmSince(stream.script, old(stream.script))
    ensures e.None? ==> |old(stream.data)| >= buffer.Length && buffer[..] + stream.data == old(stream.data)
    ensures e.Some? ==> (ExcusedSince(e.value, stream.script, old(stream.script))
      || (e.value == Truncated && |old(stream.data)| < buffer.Length && CalmSince(stream.script, old(stream.script))))
  {
    var filled := 0;
    while filled < buffer.Length
      invariant 0 <= filled <= buffer.Length
      invariant buffer[..filled] + stream.data == old(stream.data)
      invariant CalmSince(stream.script, old(stream.script))
      decreases buffer.Length - filled, |stream.script|
    {
      ghost var left, script := stream.data, stream.script;
      var r := stream.Read(buffer.Length - filled);
      OneMoreRead(r, stream.script, script, old(stream.script));
      match r
      case Retry =>
      case Timeout => return Some(DeadlineElapsed);
      case Failure => return Some(ReadFailed);
      case Got(bytes) =>
        if bytes == [] {
          assert left == [];
          return Some(Truncated);
        }
        Store(buffer, filled, bytes, left);
        filled := filled + |bytes|;
    }
    assert buffer[..filled] == buffer[..];
    e := None;
  }

  method ReadByte(stream: Stream) returns (e: Option<Error>, b: Byte)
    modifies stream
    ensures e.None? ==> CalmSince(stream.script, old(stream.script)) && old(stream.data) == [b] + stream.data
    ensures e.Some? ==> (ExcusedSince(e.value, stream.script, old(stream.script))
      || (e.value == Truncated && old(stream.data) == [] && CalmSince(stream.script, old(stream.script))))
  {
    var buffer := new Byte[1];
    e := ReadExact(stream, buffer);
    b := buffer[0];
    assert buffer[..] == [b];
  }

  method ReadLengthPrefix(stream: Stream) returns (r: Result<nat, Error>)
    modifies stream
    ensures r.Ok? ==> CalmSince(stream.script, old(stream.script))
    ensures r.Ok? ==> ReadLength(old(stream.data)) == Ok((r.value, stream.data))
    ensures r.Err? ==> (ExcusedSince(r.error, stream.script, old(stream.script))
      || (ReadLength(old(stream.data)) == Err(r.error) && CalmSince(stream.script, old(stream.script))))
  {
    var digits := new Byte[MAX_LENGTH_DIGITS];
    var count := 0;
    ghost var goal := ReadPrefix(stream.data, []);
    assert digits[..0] == [];
    while true
      invariant 0 <= count <= MAX_LENGTH_DIGITS && AllDigitBytes(digits[..count])
      invariant ReadPrefix(stream.data, digits[..count]) == goal
      invariant CalmSince(stream.script, old(stream.script))
      decreases |stream.data|
    {
      ghost var left, before, script := stream.data, digits[..count], stream.script;
      var e, b := ReadByte(stream);
      ConsumedInTurn(e, stream.script, script, old(stream.script));
      if e.Some? {
        return Err(e.value);
      }
      assert left[0] == b && left[1..] == stream.data;
      if b == COLON {
        if count == 0 {
          return Err(InvalidLengthPrefix);
        }
        break;
      }
      if !IsDigitByte(b) || count >= MAX_LENGTH_DIGITS {
        return Err(InvalidLengthPrefix);
      }
      digits[count] := b;
      count := count + 1;
      assert digits[..count] == before + [b];
    }
    assert goal == Ok(Prefix(digits[..count], stream.data));
    if count > 1 && digits[0] == 48 {
      return Err(InvalidLengthPrefix);
    }
    var length: nat := 0;
    ghost var all := ReadDigits(digits[..count]);
    for i := 0 to count
      invariant length == Decimal.Value(all[..i])
    {
      assert all[..i + 1][..i] == all[..i] && all[i] == DigitOfByte(digits[i]);
      length := length * 10 + DigitOfByte(digits[i]);
    }
    assert all[..count] == all;
    r := Ok(length);
  }

  method ReadTerminator(stream: Stream) returns (e: Option<Error>)
    modifies stream
    ensures e.None? ==> CalmSince(stream.script, old(stream.script)) && old(stream.data) == [COMMA] + stream.data
    ensures e.Some? ==> (ExcusedSince(e.value, stream.script, old(stream.script))
      || (e.value == MissingTerminator && !([COMMA] <= old(stream.data))
          && CalmSince(stream.script, old(stream.script))))
  {
    while true
      invariant stream.data == old(stream.data) && CalmSince(stream.script, old(stream.script))
      decreases |stream.script|
    {
      ghost var script := stream.script;
      var r := stream.Read(1);
      OneMoreRead(r, stream.script, script, old(stream.script));
      match r
      case Retry =>
      case Timeout => return Some(DeadlineElapsed);
      case Failure => return Some(ReadFailed);
      case Got(bytes) =>
        return if bytes == [COMMA] then None else Some(MissingTerminator);
    }
  }

  method RequireEndOfStream(stream: Stream) returns (e: Option<Error>)
    modifies stream
    ensures e.None? ==> CalmSince(stream.script, old(stream.script)) && old(stream.data) == []
    ensures e.Some? ==> (ExcusedSince(e.value, stream.script, old(stream.script))
      || (e.value == TrailingData && old(stream.data) != [] && CalmSince(stream.script, old(stream.script))))
  {
    while true
      invariant stream.data == old(stream.data) && CalmSince(stream.script, old(stream.script))
      decreases |stream.script|
    {
      ghost var script := stream.script;
      var r := stream.Read(1);
      OneMoreRead(r, stream.script, script, old(stream.script));
      match r
      case Retry =>
      case Timeout => return Some(DeadlineElapsed);
      case Failure => return Some(ReadFailed);
      case Got(bytes) => return if bytes == [] then None else Some(TrailingData);
    }
  }

  /** As long as all reads go well, the outcome is that of the bytes sent, however they are split
      and interrupted; the first read that goes wrong is the last, and its error the outcome. */
  method ReadOneFrame(stream: Stream) returns (r: Result<seq<Byte>, Error>)
    modifies stream
    ensures CalmSince(stream.script, old(stream.script))
         || (r.Err? && ExcusedSince(r.error, stream.script, old(stream.script)))
    ensures CalmSince(stream.script, old(stream.script)) ==> r == ReadFrame(old(stream.data))
    ensures r.Ok? ==> IsCredential(r.value) && old(stream.data) == Netstring(r.value)
  {
    ghost var data, start := stream.data, stream.script;
    if ReadFrame(data).Ok? {
      ReadFrameIsExact(data, ReadFrame(data).value);
    }
    var prefix := ReadLengthPrefix(stream);
    if prefix.Err? {
      return Err(prefix.error);
    }
    var length := prefix.value;
    if length == 0 {
      return Err(Empty);
    }
    if length > MAX_CREDENTIAL {
      return Err(TooLarge);
    }
    ghost var rest, script := stream.data, stream.script;
    var buffer := new Byte[length];
    var e := ReadExact(stream, buffer);
    ConsumedInTurn(e, stream.script, script, start);
    if e.Some? {
      return Err(e.value);
    }
    var payload := buffer[..];
    assert rest[..length] == payload && rest[length..] == stream.data;
    script := stream.script;
    e := ReadTerminator(stream);
    ConsumedInTurn(e, stream.script, script, start);
    if e.Some? {
      return Err(e.value);
    }
    script := stream.script;
    e := RequireEndOfStream(stream);
    ConsumedInTurn(e, stream.script, script, start);
    if e.Some? {
      return Err(e.value);
    }
    r := if IsUtf8(payload) then Ok(payload) else Err(InvalidUtf8);
  }
}
