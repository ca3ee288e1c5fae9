/** However the bytes of a connection are cut into chunks, the incremental decoder ends like
    the line-by-line decoding of the whole input. */
module CodecProperties {
  import opened Results
  import opened Bytes
  import opened Codec

  function Join<T>(done: seq<T>, rest: Decoded<T>): Decoded<T> {
    match rest
    case Clean(messages, tail) => Clean(done + messages, tail)
    case Broken(messages) => Broken(done + messages)
  }

  ghost predicate FedLike<T(!new)>(fed: Fed<T>, done: seq<T>, d: Decoded<T>) {
    match d
    case Clean(messages, tail) => fed == Fed(State(tail, false), Ok(done + messages))
    case Broken(_) => fed.state == REJECTED && fed.result.Err?
  }

  lemma LongLineBreaks<T(!new)>(schema: Schema<T>, bytes: seq<Byte>)
    requires LineEnd(bytes) >= MAX_LINE
    ensures DecodeLines(schema, bytes) == Broken([])
  {
  }

  lemma FirstLine(text: seq<Byte>, more: seq<Byte>)
    requires LF !in text
    ensures LineEnd(text + [LF] + more) == |text|
    ensures (text + [LF] + more)[..|text| + 1] == text + [LF] && (text + [LF] + more)[|text| + 1..] == more
  {
    LineEndOfConcat(text, [LF] + more);
    assert text + [LF] + more == text + ([LF] + more);
  }

  /** A complete line in front is decoded first. */
  lemma DecodeFirstLine<T(!new)>(schema: Schema<T>, text: seq<Byte>, more: seq<Byte>)
    requires LF !in text
    ensures DecodeJsonLine(schema, text + [LF]).Err? ==> DecodeLines(schema, text + [LF] + more) == Broken([])
    ensures DecodeJsonLine(schema, text + [LF]).Ok?
       ==> DecodeLines(schema, text + [LF] + more)
             == Before(DecodeJsonLine(schema, text + [LF]).value, DecodeLines(schema, more))
  {
    FirstLine(text, more);
  }

  lemma {:induction false} FeedDecodesLines<T(
    !new)>(schema: Schema<T>, buffer: seq<Byte>, chunk: seq<Byte>, done: seq<T>)
    requires LF !in buffer && |buffer| < MAX_LINE
    ensures FedLike(FeedBytes(schema, buffer, chunk, done), done, DecodeLines(schema, buffer + chunk))
    decreases |chunk|
  {
    var bytes := buffer + chunk;
    LineEndOfConcat(buffer, chunk);
    if chunk == [] {
      assert bytes == buffer && done + [] == done;
    } else {
      var next, rest := buffer + [chunk[0]], chunk[1..];
      assert bytes == next + rest;
      if chunk[0] == LF {
        DecodeFirstLine(schema, buffer, rest);
        assert [] + rest == rest;
        var frame := DecodeJsonLine(schema, next);
        if frame.Ok? {
          FeedDecodesLines(schema, [], rest, done + [frame.value]);
          MoveMessage(done, frame.value, DecodeLines(schema, rest));
        }
      } else if |next| == MAX_LINE {
        LineEndOfConcat(next, rest);
        LongLineBreaks(schema, bytes);
      } else {
        FeedDecodesLines(schema, next, rest, done);
      }
    }
  }

  lemma MoveMessage<T(!new)>(done: seq<T>, m: T, rest: Decoded<T>)
    ensures Join(done, Before(m, rest)) == Join(done + [m], rest)
  {
    match rest
    case Clean(messages, _) => assert done + ([m] + messages) == done + [m] + messages;
    case Broken(messages) => assert done + ([m] + messages) == done + [m] + messages;
  }

  /** Decoding `a + b` continues where `a` ends, and stays broken once `a` is. */
  lemma {:induction false} DecodeConcat<T(!new)>(schema: Schema<T>, a: seq<Byte>, b: seq<Byte>)
    ensures DecodeLines(schema, a).Clean? ==>
              DecodeLines(schema, a + b)
                == Join(DecodeLines(schema, a).messages, DecodeLines(schema, DecodeLines(schema, a).tail + b))
    ensures DecodeLines(schema, a).Broken? ==> DecodeLines(schema, a + b) == DecodeLines(schema, a)
    decreases |a|
  {
    var end := LineEnd(a);
    LineEndOfConcat(a, b);
    if end == |a| {
      if |a| < MAX_LINE {
        JoinNothing(DecodeLines(schema, a + b));
      } else {
        assert a[..|a|] == a;
        LongLineBreaks(schema, a + b);
      }
    } else {
      assert a[end] in a;
      var line, rest := a[..end + 1], a[end + 1..];
      assert (a + b)[..end + 1] == line && (a + b)[end + 1..] == rest + b;
      var frame := DecodeJsonLine(schema, line);
      if frame.Ok? {
        DecodeConcat(schema, rest, b);
        var d := DecodeLines(schema, rest);
        if d.Clean? {
          JoinBefore(frame.value, d.messages, DecodeLines(schema, d.tail + b));
        }
      }
    }
  }

  lemma JoinNothing<T(!new)>(rest: Decoded<T>)
    ensures Join([], rest) == rest
  {
    match rest
    case Clean(messages, _) => assert [] + messages == messages;
    case Broken(messages) => assert [] + messages == messages;
  }

  lemma JoinBefore<T(!new)>(m: T, done: seq<T>, rest: Decoded<T>)
    ensures Before(m, Join(done, rest)) == Join([m] + done, rest)
  {
    match rest
    case Clean(messages, _) => assert [m] + (done + messages) == [m] + done + messages;
    case Broken(messages) => assert [m] + (done + messages) == [m] + done + messages;
  }

  lemma {:induction false} CleanTail<T(!new)>(schema: Schema<T>, bytes: seq<Byte>)
    requires DecodeLines(schema, bytes).Clean?
    ensures LF !in DecodeLines(schema, bytes).tail && |DecodeLines(schema, bytes).tail| < MAX_LINE
    decreases |bytes|
  {
    var end := LineEnd(bytes);
    if end == |bytes| {
      assert bytes[..end] == bytes;
    } else {
      CleanTail(schema, bytes[end + 1..]);
    }
  }

  // ----- sessions -----

  /** What a session ends with: all lines and the unfinished tail while the input is clean;
      once it breaks, the messages of the chunks before the one that broke it. */
  ghost predicate EndsLike<T(!new)>(session: Session<T>, schema: Schema<T>, chunks: seq<seq<Byte>>) {
    match DecodeLines(schema, Flatten(chunks))
    case Clean(messages, tail) => session == Session(State(tail, false), messages)
    case Broken(messages) =>
      && session.state == REJECTED
      && session.delivered <= messages
      && exists k :: 0 <= k < |chunks|
           && DecodeLines(schema, Flatten(chunks[..k])).Clean?
           && DecodeLines(schema, Flatten(chunks[..k + 1])).Broken?
           && session.delivered == DecodeLines(schema, Flatten(chunks[..k])).messages
  }

  lemma ReceiveAfterClean<T(!new)>(schema: Schema<T>, chunks: seq<seq<Byte>>, front: seq<seq<Byte>>, last: seq<Byte>)
    requires chunks != [] && front == chunks[..|chunks| - 1] && last == chunks[|chunks| - 1]
    requires DecodeLines(schema, Flatten(front)).Clean? && EndsLike(Receive(schema, front), schema, front)
    ensures EndsLike(Receive(schema, chunks), schema, chunks)
  {
    var d := DecodeLines(schema, Flatten(front));
    FlattenLast(chunks);
    DecodeConcat(schema, Flatten(front), last);
    CleanTail(schema, Flatten(front));
    FeedDecodesLines(schema, d.tail, last, []);
    JoinNothing(DecodeLines(schema, d.tail + last));
    assert chunks[..|front| + 1] == chunks && chunks[..|front|] == front;
  }

  lemma ReceiveAfterBroken<T(!new)>(schema: Schema<T>, chunks: seq<seq<Byte>>, front: seq<seq<Byte>>, last: seq<Byte>)
    requires chunks != [] && front == chunks[..|chunks| - 1] && last == chunks[|chunks| - 1]
    requires DecodeLines(schema, Flatten(front)).Broken? && EndsLike(Receive(schema, front), schema, front)
    ensures EndsLike(Receive(schema, chunks), schema, chunks)
  {
    FlattenLast(chunks);
    DecodeConcat(schema, Flatten(front), last);
    var k :| 0 <= k < |front|
      && DecodeLines(schema, Flatten(front[..k])).Clean?
      && DecodeLines(schema, Flatten(front[..k + 1])).Broken?
      && Receive(schema, front).delivered == DecodeLines(schema, Flatten(front[..k])).messages;
    assert chunks[..k] == front[..k] && chunks[..k + 1] == front[..k + 1];
  }

  lemma {:induction false} ReceiveDecodesLines<T(!new)>(schema: Schema<T>, chunks: seq<seq<Byte>>)
    ensures EndsLike(Receive(schema, chunks), schema, chunks)
    decreases |chunks|
  {
    if chunks == [] {
      assert LineEnd([]) == 0;
    } else {
      var front, last := chunks[..|chunks| - 1], chunks[|chunks| - 1];
      ReceiveDecodesLines(schema, front);
      if DecodeLines(schema, Flatten(front)).Clean? {
        ReceiveAfterClean(schema, chunks, front, last);
      } else {
        ReceiveAfterBroken(schema, chunks, front, last);
      }
    }
  }

  /** Two ways of cutting the same bytes end in the same state, and deliver the same messages
      as long as nothing is wrong with them. */
  lemma ChunksDoNotMatter<T(!new)>(schema: Schema<T>, a: seq<seq<Byte>>, b: seq<seq<Byte>>)
    requires Flatten(a) == Flatten(b)
    ensures Receive(schema, a).state == Receive(schema, b).state
    ensures !Receive(schema, a).state.poisoned ==> Receive(schema, a).delivered == Receive(schema, b).delivered
    ensures Receive(schema, a).delivered <= Receive(schema, b).delivered
         || Receive(schema, b).delivered <= Receive(schema, a).delivered
  {
    ReceiveDecodesLines(schema, a);
    ReceiveDecodesLines(schema, b);
  }

  // ----- what a breaking chunk loses -----

  /** The chunk `k` is the one that breaks the stream. */
  ghost predicate BreaksAt<T(!new)>(schema: Schema<T>, chunks: seq<seq<Byte>>, k: nat) {
    && k < |chunks|
    && DecodeLines(schema, Flatten(chunks[..k])).Clean?
    && DecodeLines(schema, Flatten(chunks[..k + 1])).Broken?
  }

  lemma BrokenStays<T(!new)>(schema: Schema<T>, chunks: seq<seq<Byte>>, i: nat, j: nat)
    requires i <= j <= |chunks| && DecodeLines(schema, Flatten(chunks[..i])).Broken?
    ensures DecodeLines(schema, Flatten(chunks[..j])) == DecodeLines(schema, Flatten(chunks[..i]))
  {
    var front := chunks[..j];
    FlattenSplit(front, i);
    assert front[..i] == chunks[..i];
    DecodeConcat(schema, Flatten(chunks[..i]), Flatten(front[i..]));
  }

  lemma BreaksOnce<T(!new)>(schema: Schema<T>, chunks: seq<seq<Byte>>, i: nat, j: nat)
    requires BreaksAt(schema, chunks, i) && BreaksAt(schema, chunks, j)
    ensures i == j
  {
    if i < j {
      BrokenStays(schema, chunks, i + 1, j);
    } else if j < i {
      BrokenStays(schema, chunks, j + 1, i);
    }
  }

  lemma DeliveredBeforeBreak<T(!new)>(schema: Schema<T>, chunks: seq<seq<Byte>>, k: nat)
    requires BreaksAt(schema, chunks, k)
    ensures Receive(schema, chunks).delivered == DecodeLines(schema, Flatten(chunks[..k])).messages
  {
    BrokenStays(schema, chunks, k + 1, |chunks|);
    assert chunks[..|chunks|] == chunks;
    ReceiveDecodesLines(schema, chunks);
    var n: nat :| n < |chunks|
      && DecodeLines(schema, Flatten(chunks[..n])).Clean?
      && DecodeLines(schema, Flatten(chunks[..n + 1])).Broken?
      && Receive(schema, chunks).delivered == DecodeLines(schema, Flatten(chunks[..n])).messages;
    BreaksOnce(schema, chunks, k, n);
  }

  /** The messages lost are exactly those the breaking chunk completes before it breaks. */
  lemma BreakingChunkIsLost<T(!new)>(schema: Schema<T>, chunks: seq<seq<Byte>>, k: nat)
    requires BreaksAt(schema, chunks, k)
    ensures DecodeLines(schema, Flatten(chunks)).messages
         == Receive(schema, chunks).delivered
            + DecodeLines(schema, DecodeLines(schema, Flatten(chunks[..k])).tail + chunks[k]).messages
  {
    DeliveredBeforeBreak(schema, chunks, k);
    BrokenStays(schema, chunks, k + 1, |chunks|);
    assert chunks[..|chunks|] == chunks;
    var front := chunks[..k + 1];
    FlattenLast(front);
    assert front[..k] == chunks[..k] && front[k] == chunks[k];
    DecodeConcat(schema, Flatten(chunks[..k]), chunks[k]);
  }

  /** All messages of the line-by-line decoding are delivered exactly when the chunk that breaks
      the stream, if there is one, completes no message. */
  lemma NothingLostExactly<T(!new)>(schema: Schema<T>, chunks: seq<seq<Byte>>, k: nat)
    requires BreaksAt(schema, chunks, k)
    ensures Receive(schema, chunks).delivered == DecodeLines(schema, Flatten(chunks)).messages
       <==> DecodeLines(schema, DecodeLines(schema, Flatten(chunks[..k])).tail + chunks[k]).messages == []
  {
    BreakingChunkIsLost(schema, chunks, k);
  }

  /** A complete line that does not decode. */
  ghost predicate IsBadLine<T(!new)>(schema: Schema<T>, line: seq<Byte>) {
    line != [] && LineEnd(line) == |line| - 1 && DecodeJsonLine(schema, line).Err?
  }

  lemma BadLineBreaks<T(!new)>(schema: Schema<T>, line: seq<Byte>)
    requires IsBadLine(schema, line)
    ensures DecodeLines(schema, line) == Broken([])
  {
    assert line[..|line|] == line;
  }

  /** A message and a bad line in one chunk: the message is never delivered. */
  lemma MessageLostBeforeBadLine<T(!new)>(schema: Schema<T>, m: T, line: seq<Byte>)
    requires Lawful(schema) && Encode(schema, m).Ok? && IsBadLine(schema, line)
    ensures Receive(schema, [Encode(schema, m).value + line]).delivered == []
    ensures DecodeLines(schema, Encode(schema, m).value + line) == Broken([m])
  {
    FirstMessage(schema, m, line);
    BadLineBreaks(schema, line);
    OneBreakingChunk(schema, Encode(schema, m).value + line);
  }

  lemma OneBreakingChunk<T(!new)>(schema: Schema<T>, bytes: seq<Byte>)
    requires DecodeLines(schema, bytes).Broken?
    ensures Receive(schema, [bytes]).delivered == []
  {
    var chunks := [bytes];
    FlattenLast(chunks);
    assert chunks[..0] == [] && chunks[..1] == chunks;
    assert Flatten<Byte>([]) + bytes == bytes;
    assert LineEnd([]) == 0;
    DeliveredBeforeBreak(schema, chunks, 0);
  }

  /** An empty line is a bad one, so any message can be lost. */
  lemma EmptyLineIsBad<T(!new)>(schema: Schema<T>)
    ensures IsBadLine(schema, [LF])
  {
    assert [LF][..0] == [];
  }

  lemma AnyMessageCanBeLost<T(!new)>(schema: Schema<T>, m: T)
    requires Lawful(schema) && Encode(schema, m).Ok?
    ensures Receive(schema, [Encode(schema, m).value + [LF]]).delivered == []
    ensures DecodeLines(schema, Encode(schema, m).value + [LF]) == Broken([m])
  {
    EmptyLineIsBad(schema);
    MessageLostBeforeBadLine(schema, m, [LF]);
  }

  /** The buffer always has room for the byte that completes or breaks the line. */
  lemma BufferStaysBelowLimit<T(!new)>(schema: Schema<T>, chunks: seq<seq<Byte>>)
    ensures |Receive(schema, chunks).state.buffer| < MAX_LINE && LF !in Receive(schema, chunks).state.buffer
  {
    ReceiveDecodesLines(schema, chunks);
    if DecodeLines(schema, Flatten(chunks)).Clean? {
      CleanTail(schema, Flatten(chunks));
    }
  }

  // ----- round trip -----

  ghost predicate AllEncodable<T(!new)>(schema: Schema<T>, messages: seq<T>) {
    forall m :: m in messages ==> Encode(schema, m).Ok?
  }

  ghost function EncodeAll<T(!new)>(schema: Schema<T>, messages: seq<T>): seq<Byte>
    requires AllEncodable(schema, messages)
  {
    if messages == [] then []
    else
      assert messages[0] in messages && forall m :: m in messages[1..] ==> m in messages;
      Encode(schema, messages[0]).value + EncodeAll(schema, messages[1..])
  }

  lemma FirstMessage<T(!new)>(schema: Schema<T>, m: T, more: seq<Byte>)
    requires Lawful(schema) && Encode(schema, m).Ok?
    ensures DecodeLines(schema, Encode(schema, m).value + more) == Before(m, DecodeLines(schema, more))
  {
    DecodeFirstLine(schema, schema.show(m), more);
    DecodeOfEncode(schema, m);
  }

  lemma {:induction false} LinesOfEncoded<T(!new)>(schema: Schema<T>, messages: seq<T>)
    requires Lawful(schema) && AllEncodable(schema, messages)
    ensures DecodeLines(schema, EncodeAll(schema, messages)) == Clean(messages, [])
  {
    if messages == [] {
      assert LineEnd([]) == 0;
    } else {
      var m, rest := messages[0], messages[1..];
      assert m in messages && forall x :: x in rest ==> x in messages;
      FirstMessage(schema, m, EncodeAll(schema, rest));
      LinesOfEncoded(schema, rest);
      assert [m] + rest == messages;
    }
  }

  /** Messages that fit the limit arrive, however their encoding is cut, and end cleanly. */
  lemma MessagesArrive<T(!new)>(schema: Schema<T>, messages: seq<T>, chunks: seq<seq<Byte>>)
    requires Lawful(schema) && AllEncodable(schema, messages)
    requires Flatten(chunks) == EncodeAll(schema, messages)
    ensures Receive(schema, chunks).delivered == messages
    ensures Finish(Receive(schema, chunks).state) == (State([], false), None)
  {
    ReceiveDecodesLines(schema, chunks);
    LinesOfEncoded(schema, messages);
  }

  // ----- single lines -----

  /** A line is a message exactly when it is at most 64 KiB long, ends in its only line feed, has no
      carriage return before that, and is not empty; and what is before the line feed is parsed. */
  lemma LinesDecodeExactly<T(!new)>(schema: Schema<T>, line: seq<Byte>, m: T)
    ensures DecodeJsonLine(schema, line) == Ok(m)
       <==> exists text :: line == text + [10] && |line| <= 65536 && text != [] && 10 !in text
              && text[|text| - 1] != 13 && schema.parse(text) == Some(m)
  {
    if line != [] {
      var text := line[..|line| - 1];
      assert line == text + [line[|line| - 1]];
    }
    if text :| line == text + [10] && |line| <= 65536 && text != [] && 10 !in text
               && text[|text| - 1] != 13 && schema.parse(text) == Some(m) {
      assert line[..|line| - 1] == text;
    }
  }

  /** Which error is told for a line that is no message. */
  lemma BadLinesAreTold<T(!new)>(schema: Schema<T>, text: seq<Byte>)
    requires 10 !in text
    ensures
      var r := DecodeJsonLine(schema, text + [10]);
      if |text| > 65535 then r == Err(LineTooLong)
      else if text != [] && text[|text| - 1] == 13 then r == Err(NonCanonicalNewline)
      else if text == [] || schema.parse(text).None? then r == Err(MalformedJson)
      else r.Ok?
  {
    assert (text + [10])[..|text|] == text;
  }

  /** A carriage return before a line feed breaks the stream, wherever the chunks are cut. */
  lemma CarriageReturnBreaks<T(!new)>(schema: Schema<T>, text: seq<Byte>, more: seq<Byte>, chunks: seq<seq<Byte>>)
    requires 10 !in text && Flatten(chunks) == text + [13] + [10] + more
    ensures Receive(schema, chunks).state.poisoned && Receive(schema, chunks).delivered == []
  {
    var line := text + [13];
    BadLinesAreTold(schema, line);
    DecodeFirstLine(schema, line, more);
    ReceiveDecodesLines(schema, chunks);
    assert line + [LF] + more == text + [13] + [10] + more;
  }

  /** Finishing tells a partial line from an earlier failure. */
  lemma FinishTells<T(!new)>(schema: Schema<T>, chunks: seq<seq<Byte>>)
    ensures
      var d := DecodeLines(schema, Flatten(chunks));
      Finish(Receive(schema, chunks).state).1
        == if d.Broken? then Some(Poisoned) else if d.tail != [] then Some(UnterminatedLine) else None
  {
    ReceiveDecodesLines(schema, chunks);
  }

  /** A stream ends cleanly exactly when every byte belongs to a complete, valid line. */
  lemma FinishesCleanly<T(!new)>(schema: Schema<T>, chunks: seq<seq<Byte>>)
    ensures Finish(Receive(schema, chunks).state).1.None?
       <==> DecodeLines(schema, Flatten(chunks)).Clean? && DecodeLines(schema, Flatten(chunks)).tail == []
  {
    ReceiveDecodesLines(schema, chunks);
  }
}
