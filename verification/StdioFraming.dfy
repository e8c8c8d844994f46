// `StdioClient` of scripts/accept_container_workloads.py: newline-delimited
// JSON-RPC frames read from a pipe in chunks of any size, as in the stdio section
// of "Transports" of the MCP specification 2025-03-26.
module StdioFraming {
  import opened Options

  type Bytes = seq<bv8>

  const NEWLINE: bv8 := 10

  // ---- The reference: splitting a whole stream at newlines ----

  function LineEnd(stream: Bytes): (end: nat)
    ensures end <= |stream| && NEWLINE !in stream[..end]
    ensures end < |stream| ==> stream[end] == NEWLINE
    ensures end < |stream| <==> NEWLINE in stream
  {
    if stream == [] || stream[0] == NEWLINE then 0 else 1 + LineEnd(stream[1..])
  }

  // The complete lines of a stream, without their newlines.
  function Lines(stream: Bytes): seq<Bytes> {
    var end := LineEnd(stream);
    if end == |stream| then [] else [stream[..end]] + Lines(stream[end + 1..])
  }

  ghost function Joined(lines: seq<Bytes>): Bytes {
    if lines == [] then [] else lines[0] + [NEWLINE] + Joined(lines[1..])
  }

  ghost predicate AreLines(lines: seq<Bytes>) {
    forall k :: 0 <= k < |lines| ==> NEWLINE !in lines[k]
  }

  lemma LineEndOf(line: Bytes, rest: Bytes)
    requires NEWLINE !in line
    ensures LineEnd(line + [NEWLINE] + rest) == |line|
  {
    var stream := line + [NEWLINE] + rest;
    var end := LineEnd(stream);
    assert stream[|line|] == NEWLINE;
    assert forall i :: 0 <= i < |line| ==> stream[i] == line[i] && line[i] != NEWLINE;
    assert forall i :: 0 <= i < end ==> stream[..end][i] == stream[i];
  }

  lemma Regroup<T>(a: seq<T>, b: seq<T>, c: seq<T>)
    ensures a + b + c == a + (b + c)
  {
  }

  lemma JoinedFront(lines: seq<Bytes>, rest: Bytes)
    requires lines != []
    ensures Joined(lines) + rest == lines[0] + [NEWLINE] + (Joined(lines[1..]) + rest)
  {
    Regroup(lines[0] + [NEWLINE], Joined(lines[1..]), rest);
  }

  lemma FirstAndRest<T>(items: seq<T>, more: seq<T>)
    requires items != []
    ensures [items[0]] + (items[1..] + more) == items + more
  {
  }

  // Splitting undoes joining, and leaves the rest to be split.
  lemma {:induction false} LinesOfJoined(lines: seq<Bytes>, rest: Bytes)
    requires AreLines(lines)
    ensures Lines(Joined(lines) + rest) == lines + Lines(rest)
  {
    if lines == [] {
      assert Joined(lines) + rest == rest;
    } else {
      var tail := Joined(lines[1..]) + rest;
      LinesOfJoined(lines[1..], rest);
      LinesStep(lines[0], tail);
      JoinedFront(lines, rest);
      FirstAndRest(lines, Lines(rest));
    }
  }

  lemma LinesStep(line: Bytes, tail: Bytes)
    requires NEWLINE !in line
    ensures Lines(line + [NEWLINE] + tail) == [line] + Lines(tail)
  {
    var stream := line + [NEWLINE] + tail;
    LineEndOf(line, tail);
    assert stream[..|line|] == line && stream[|line| + 1..] == tail;
  }

  // The bytes accounted for by the consumed lines, the buffer and the pipe.
  ghost predicate Accounts(stream: Bytes, consumed: seq<Bytes>, buffer: Bytes, unread: Bytes) {
    stream == Joined(consumed) + buffer + unread && AreLines(consumed)
  }

  lemma ReadMore(stream: Bytes, consumed: seq<Bytes>, buffer: Bytes, chunk: Bytes, unread: Bytes)
    requires Accounts(stream, consumed, buffer, chunk + unread)
    ensures Accounts(stream, consumed, buffer + chunk, unread)
  {
    Regroup(Joined(consumed) + buffer, chunk, unread);
    Regroup(Joined(consumed), buffer, chunk);
  }

  // Cutting the first line off the buffer.
  lemma TakeLine(stream: Bytes, consumed: seq<Bytes>, buffer: Bytes, unread: Bytes)
    requires Accounts(stream, consumed, buffer, unread) && NEWLINE in buffer
    ensures Accounts(stream, consumed + [buffer[..LineEnd(buffer)]], buffer[LineEnd(buffer) + 1..], unread)
  {
    var end := LineEnd(buffer);
    var line, remainder := buffer[..end], buffer[end + 1..];
    JoinedMore(consumed, line);
    assert buffer == line + [NEWLINE] + remainder;
    Regroup(Joined(consumed), line + [NEWLINE], remainder);
    Regroup(Joined(consumed), line, [NEWLINE]);
  }

  // Whatever the chunks were, the consumed lines are the first lines of the stream.
  lemma ConsumedAreLines(stream: Bytes, consumed: seq<Bytes>, buffer: Bytes, unread: Bytes)
    requires Accounts(stream, consumed, buffer, unread)
    ensures consumed <= Lines(stream)
  {
    LinesOfJoined(consumed, buffer + unread);
    Regroup(Joined(consumed), buffer, unread);
  }

  lemma {:induction false} JoinedMore(lines: seq<Bytes>, line: Bytes)
    ensures Joined(lines + [line]) == Joined(lines) + line + [NEWLINE]
  {
    if lines != [] {
      assert (lines + [line])[1..] == lines[1..] + [line];
      JoinedMore(lines[1..], line);
    }
  }

  // The first line of a stream lies in the part already buffered, or ends after it.
  lemma LineEndAcross(buffer: Bytes, unread: Bytes)
    ensures NEWLINE in buffer ==> LineEnd(buffer + unread) == LineEnd(buffer)
    ensures NEWLINE !in buffer ==> LineEnd(buffer + unread) >= |buffer|
  {
    var whole := buffer + unread;
    var end := LineEnd(whole);
    assert NEWLINE in buffer ==> whole[LineEnd(buffer)] == NEWLINE;
    assert forall i :: 0 <= i < end ==> whole[..end][i] == whole[i];
    assert forall i :: 0 <= i < LineEnd(buffer) ==> buffer[..LineEnd(buffer)][i] == whole[i];
  }

  // The line that comes next after the consumed ones.
  lemma NextLine(stream: Bytes, consumed: seq<Bytes>, buffer: Bytes, unread: Bytes)
    requires Accounts(stream, consumed, buffer, unread)
    ensures NEWLINE in buffer + unread <==> |consumed| < |Lines(stream)|
    ensures |consumed| < |Lines(stream)| ==> LineEnd(buffer + unread) == |Lines(stream)[|consumed|]|
  {
    LinesOfJoined(consumed, buffer + unread);
    Regroup(Joined(consumed), buffer, unread);
  }

  // ---- The pipe ----

  // The server's standard input and output. A write may fail, and `select` may
  // give up at any time; a read delivers as much as it likes of what is asked for,
  // and nothing only when nothing is asked for or nothing is left. An undisturbed
  // pipe takes every write and meets every deadline; one with a pace delivers just
  // that many bytes at a time, or what is asked for or left if that is less.
  datatype ReadResult = Deadline | Chunk(bytes: Bytes)

  function Least(a: nat, b: nat): nat { if a < b then a else b }

  class Pipe {
    const undisturbed: bool
    const pace: nat
    var unread: Bytes
    ghost var nonEmptyReads: nat
    // How much the latest read delivered.
    ghost var lastRead: nat

    constructor (unread: Bytes, undisturbed: bool, pace: nat)
      ensures this.unread == unread && this.undisturbed == undisturbed && this.pace == pace && nonEmptyReads == 0
    {
      this.unread, this.undisturbed, this.pace, nonEmptyReads, lastRead := unread, undisturbed, pace, 0, 0;
    }

    method Write() returns (done: bool)
      ensures undisturbed ==> done
    {
      done := *;
      done := done || undisturbed;
    }

    method Read(limit: nat) returns (result: ReadResult)
      modifies this
      ensures result.Deadline? ==> !undisturbed && unread == old(unread) && nonEmptyReads == old(nonEmptyReads)
      ensures result.Chunk? ==> |result.bytes| <= limit && old(unread) == result.bytes + unread
      ensures result.Chunk? && result.bytes == [] ==> limit == 0 || unread == []
      ensures result.Chunk? && pace > 0 ==> |result.bytes| == Least(pace, Least(limit, |old(unread)|))
      ensures result.Chunk? ==> nonEmptyReads == old(nonEmptyReads) + if result.bytes == [] then 0 else 1
      ensures result.Chunk? ==> lastRead == |result.bytes|
    {
      var expired: bool := *;
      if expired && !undisturbed {
        return Deadline;
      }
      var most := Least(limit, |unread|);
      var count: nat := *;
      count := if pace > 0 then Least(pace, most) else if 0 < count <= most then count else most;
      result := Chunk(unread[..count]);
      unread := unread[count..];
      nonEmptyReads := nonEmptyReads + if count == 0 then 0 else 1;
      lastRead := count;
    }
  }

  // The last length at which a buffer that grows by `step` is within the limit.
  function LastStop(start: nat, step: nat, limit: nat): (stop: nat)
    requires 0 < step && start <= limit
  {
    start + (limit - start) / step * step
  }

  lemma StepsBound(d: int, step: nat)
    ensures d >= 0 ==> d * step >= 0
    ensures d >= 1 ==> d * step >= step
    ensures d <= -1 ==> d * step + step <= 0
  {
  }

  lemma Stops(start: nat, step: nat, limit: nat, j: nat)
    requires 0 < step && start + j * step <= limit
    ensures start + j * step <= LastStop(start, step, limit) <= limit
    ensures limit < start + j * step + step ==> start + j * step == LastStop(start, step, limit)
  {
    var room := limit - start;
    var d := room / step - j;
    assert room == room / step * step + room % step;
    assert d * step == room / step * step - j * step;
    StepsBound(d, step);
  }

  // ---- The client ----

  // What `json.loads` and `.get("id")` make of one line.
  datatype Decoded = Malformed | Response(id: int)

  datatype Outcome =
    | Reply(line: Bytes)
    | NotSent
    | TimedOut
    | ChannelClosed
    | FrameLimitExceeded
    | NotJson(line: Bytes)
    | UnexpectedId(line: Bytes)
  {
    predicate TookLine() { Reply? || NotJson? || UnexpectedId? }
  }

  // The k-th line the server writes answers the k-th request.
  ghost predicate IsLockStep(decode: Bytes -> Decoded, stream: Bytes) {
    forall k :: 0 <= k < |Lines(stream)| ==> decode(Lines(stream)[k]) == Response(k + 1)
  }

  const CHUNK := 65536
  const FRAME_LIMIT := 1024 * 1024

  // The buffer is over the limit without holding a line: every later read asks
  // for zero bytes.
  ghost predicate IsStuck(buffer: Bytes, frameLimit: nat) {
    |buffer| == frameLimit + 1 && NEWLINE !in buffer
  }

  // What an outcome tells about the bytes that were buffered and to come.
  ghost predicate Tells(outcome: Outcome, buffer: Bytes, unread: Bytes, frameLimit: nat) {
    var whole := buffer + unread;
    && (outcome.TookLine() ==> NEWLINE in whole && outcome.line == whole[..LineEnd(whole)])
    && (outcome.ChannelClosed? ==> IsStuck(buffer, frameLimit) || (NEWLINE !in whole && |whole| <= frameLimit))
    && (outcome.FrameLimitExceeded? ==>
          NEWLINE !in buffer && |buffer| <= frameLimit < |whole| && LineEnd(whole) + CHUNK > frameLimit)
  }

  // Which outcome an undisturbed pipe must have. A line that ends one read before
  // the limit is delivered; one that does not fit is refused; in between the sizes
  // of the chunks decide, and with a pace they do so exactly.
  ghost predicate Demands(outcome: Outcome, buffer: Bytes, unread: Bytes, frameLimit: nat, pace: nat) {
    var whole := buffer + unread;
    && !outcome.TimedOut? && !outcome.NotSent?
    && (IsStuck(buffer, frameLimit) || (NEWLINE !in whole && |whole| <= frameLimit) ==> outcome.ChannelClosed?)
    && (NEWLINE in buffer || (NEWLINE in whole && LineEnd(whole) + CHUNK <= frameLimit) ==> outcome.TookLine())
    && (NEWLINE in whole && |whole| <= frameLimit ==> outcome.TookLine())
    && (NEWLINE !in buffer && |buffer| <= frameLimit < |whole| && LineEnd(whole) >= frameLimit ==>
          outcome.FrameLimitExceeded?)
    && (pace > 0 && NEWLINE !in buffer && |buffer| <= frameLimit < |whole| ==>
          (outcome.FrameLimitExceeded? <==> LineEnd(whole) >= LastStop(|buffer|, Least(pace, CHUNK), frameLimit)))
  }

  // What the decoded line means for the request that waits for it.
  function Checked(line: Bytes, decoded: Decoded, sequence: nat): (outcome: Outcome)
    ensures outcome.TookLine() && outcome.line == line
    ensures outcome.Reply? <==> decoded == Response(sequence)
    ensures outcome.NotJson? <==> decoded == Malformed
  {
    match decoded
    case Malformed => NotJson(line)
    case Response(id) => if id == sequence then Reply(line) else UnexpectedId(line)
  }

  class StdioClient {
    const pipe: Pipe
    const frameLimit: nat
    const decode: Bytes -> Decoded
    var sequence: nat
    var buffer: Bytes
    // The ids written to the server so far.
    var sent: seq<nat>
    // Everything the server will ever write, and the lines consumed so far.
    ghost const stream: Bytes
    ghost var consumed: seq<Bytes>

    constructor (pipe: Pipe, decode: Bytes -> Decoded)
      ensures Valid() && this.pipe == pipe && this.decode == decode && frameLimit == FRAME_LIMIT
      ensures stream == pipe.unread && sequence == 0 && consumed == [] && buffer == [] && sent == []
    {
      this.pipe, this.decode, frameLimit := pipe, decode, FRAME_LIMIT;
      sequence, buffer, sent := 0, [], [];
      stream, consumed := pipe.unread, [];
    }

    // No byte is lost, repeated or reordered.
    ghost predicate Valid()
      reads this, pipe
    {
      Accounts(stream, consumed, buffer, pipe.unread) && |buffer| <= frameLimit + 1 && |consumed| <= sequence
    }

    method Request() returns (outcome: Outcome)
      requires Valid()
      modifies this, pipe
      ensures Valid() && sequence == old(sequence) + 1
      ensures sent == if outcome.NotSent? then old(sent) else old(sent) + [sequence]
      ensures consumed == if outcome.TookLine() then old(consumed) + [outcome.line] else old(consumed)
      ensures consumed <= Lines(stream)
      ensures outcome.Reply? ==> decode(outcome.line) == Response(sequence)
      ensures outcome.NotJson? ==> decode(outcome.line) == Malformed
      ensures outcome.UnexpectedId? ==> decode(outcome.line).Response? && decode(outcome.line).id != sequence
      // With a server in lock step, a line answers this request exactly when every
      // earlier request has taken a line.
      ensures IsLockStep(decode, stream) && outcome.TookLine() ==>
        (outcome.Reply? <==> |old(consumed)| == old(sequence))
      ensures Tells(outcome, old(buffer), old(pipe.unread), frameLimit)
      ensures pipe.undisturbed ==> Demands(outcome, old(buffer), old(pipe.unread), frameLimit, pipe.pace)
      // The size limit.
      ensures outcome.TookLine() ==>
        && (|outcome.line| + 1 > frameLimit <==> |old(buffer)| == frameLimit + 1 && LineEnd(old(buffer)) == frameLimit)
        && |buffer| <= frameLimit
      ensures outcome.FrameLimitExceeded? ==> |buffer| == frameLimit + 1 && old(buffer) < buffer
      // Reading stops as soon as a newline is buffered: the last read brought it.
      ensures outcome.TimedOut? || outcome.ChannelClosed? ==> NEWLINE !in buffer
      ensures outcome.TookLine() && pipe.unread != old(pipe.unread) ==> |buffer| < pipe.lastRead
      ensures outcome.FrameLimitExceeded? ==> NoLineBefore(buffer, pipe.lastRead)
      ensures outcome.ChannelClosed? ==> pipe.unread == [] || IsStuck(old(buffer), frameLimit)
      ensures IsStuck(old(buffer), frameLimit) ==> buffer == old(buffer) && pipe.unread == old(pipe.unread)
      // The number of reads.
      ensures pipe.nonEmptyReads - old(pipe.nonEmptyReads) <= frameLimit + 1 - |old(buffer)|
      ensures NEWLINE in old(buffer) && !outcome.NotSent? ==> outcome.TookLine() && pipe.unread == old(pipe.unread)
    {
      sequence := sequence + 1;
      var written := pipe.Write();
      if !written {
        outcome := NotSent;
      } else {
        sent := sent + [sequence];
        outcome := Receive();
      }
      ConsumedAreLines(stream, consumed, buffer, pipe.unread);
      assert outcome.TookLine() ==> Lines(stream)[|old(consumed)|] == consumed[|old(consumed)|] == outcome.line;
    }

    // The part of `request` that follows the write.
    method Receive() returns (outcome: Outcome)
      requires Valid() && |consumed| < sequence
      modifies this`buffer, this`consumed, pipe
      ensures Valid() && !outcome.NotSent?
      ensures consumed == if outcome.TookLine() then old(consumed) + [outcome.line] else old(consumed)
      ensures outcome.Reply? ==> decode(outcome.line) == Response(sequence)
      ensures outcome.NotJson? ==> decode(outcome.line) == Malformed
      ensures outcome.UnexpectedId? ==> decode(outcome.line).Response? && decode(outcome.line).id != sequence
      ensures Tells(outcome, old(buffer), old(pipe.unread), frameLimit)
      ensures pipe.undisturbed ==> Demands(outcome, old(buffer), old(pipe.unread), frameLimit, pipe.pace)
      ensures outcome.TookLine() ==>
        && (|outcome.line| + 1 > frameLimit <==> |old(buffer)| == frameLimit + 1 && LineEnd(old(buffer)) == frameLimit)
        && |buffer| <= frameLimit
      ensures outcome.FrameLimitExceeded? ==> |buffer| == frameLimit + 1 && old(buffer) < buffer
      // Reading stops as soon as a newline is buffered: the last read brought it.
      ensures outcome.TimedOut? || outcome.ChannelClosed? ==> NEWLINE !in buffer
      ensures outcome.TookLine() && pipe.unread != old(pipe.unread) ==> |buffer| < pipe.lastRead
      ensures outcome.FrameLimitExceeded? ==> NoLineBefore(buffer, pipe.lastRead)
      ensures outcome.ChannelClosed? ==> pipe.unread == [] || IsStuck(old(buffer), frameLimit)
      ensures IsStuck(old(buffer), frameLimit) ==> buffer == old(buffer) && pipe.unread == old(pipe.unread)
      ensures pipe.nonEmptyReads - old(pipe.nonEmptyReads) <= frameLimit + 1 - |old(buffer)|
      ensures NEWLINE in old(buffer) ==> outcome.TookLine() && pipe.unread == old(pipe.unread)
    {
      ghost var before, unread := buffer, pipe.unread;
      var failed := Fill();
      if failed.Some? {
        return failed.value;
      }
      var end := LineEnd(buffer);
      var line := buffer[..end];
      TakeLine(stream, consumed, buffer, pipe.unread);
      LimitedLine(before, buffer, frameLimit);
      if pipe.unread != unread { CutInLastRead(buffer, pipe.lastRead); }
      buffer := buffer[end + 1..];
      consumed := consumed + [line];
      return Checked(line, decode(line), sequence);
    }

    // One read of as much as fits a chunk and leaves the buffer one byte over the limit.
    method ReadChunk() returns (chunk: ReadResult)
      requires Valid() && NEWLINE !in buffer
      modifies this`buffer, pipe
      ensures Valid()
      ensures chunk.Deadline? ==> !pipe.undisturbed && buffer == old(buffer) && pipe.unread == old(pipe.unread)
      ensures chunk.Deadline? ==> pipe.nonEmptyReads == old(pipe.nonEmptyReads)
      ensures chunk.Chunk? ==> buffer == old(buffer) + chunk.bytes && old(pipe.unread) == chunk.bytes + pipe.unread
      ensures chunk.Chunk? ==> buffer + pipe.unread == old(buffer) + old(pipe.unread)
      ensures chunk.Chunk? ==> |chunk.bytes| <= CHUNK && NoLineBefore(buffer, pipe.lastRead)
      ensures chunk.Chunk? && chunk.bytes == [] ==> |buffer| == frameLimit + 1 || pipe.unread == []
      ensures chunk.Chunk? && pipe.pace > 0 ==>
        |chunk.bytes| == Least(pipe.pace, Least(Least(CHUNK, frameLimit + 1 - |old(buffer)|), |old(pipe.unread)|))
      ensures chunk.Chunk? ==>
        pipe.nonEmptyReads == old(pipe.nonEmptyReads) + if chunk.bytes == [] then 0 else 1
    {
      ghost var held := buffer;
      chunk := pipe.Read(Least(CHUNK, frameLimit + 1 - |buffer|));
      if chunk.Chunk? {
        ReadMore(stream, consumed, held, chunk.bytes, pipe.unread);
        Regroup(held, chunk.bytes, pipe.unread);
        buffer := buffer + chunk.bytes;
        assert buffer[..|buffer| - pipe.lastRead] == held;
      }
    }

    // The loop of `request`, until a newline is in the buffer or a read fails.
    method Fill() returns (failed: Option<Outcome>)
      requires Valid()
      modifies this`buffer, pipe
      ensures Valid() && (NEWLINE in old(buffer) ==> failed.None? && buffer == old(buffer))
      ensures buffer == old(buffer) ==> pipe.unread == old(pipe.unread)
      ensures |buffer| <= frameLimit || buffer == old(buffer) || failed == Some(FrameLimitExceeded)
      ensures pipe.nonEmptyReads - old(pipe.nonEmptyReads) <= frameLimit + 1 - |old(buffer)|
      ensures failed.None? ==> NEWLINE in buffer
      ensures failed.None? ==>
        TakesLine(old(buffer), old(pipe.unread), buffer[..LineEnd(buffer)], frameLimit, pipe.undisturbed, pipe.pace)
      ensures failed.Some? ==> failed.value in {TimedOut, ChannelClosed, FrameLimitExceeded}
      ensures failed.Some? ==> Tells(failed.value, old(buffer), old(pipe.unread), frameLimit)
      ensures failed.Some? && pipe.undisturbed ==>
        Demands(failed.value, old(buffer), old(pipe.unread), frameLimit, pipe.pace)
      ensures failed in {Some(TimedOut), Some(ChannelClosed)} ==> NEWLINE !in buffer
      ensures failed in {None, Some(FrameLimitExceeded)} && pipe.unread != old(pipe.unread) ==>
        NoLineBefore(buffer, pipe.lastRead)
      ensures failed == Some(FrameLimitExceeded) ==> |buffer| == frameLimit + 1 && old(buffer) < buffer
      ensures failed == Some(ChannelClosed) ==> pipe.unread == [] || IsStuck(old(buffer), frameLimit)
      ensures IsStuck(old(buffer), frameLimit) ==> buffer == old(buffer)
    {
      ghost var before, unread := buffer, pipe.unread;
      ghost var steps: nat := 0;
      while NEWLINE !in buffer
        invariant Valid() && before <= buffer && (NEWLINE in before ==> buffer == before)
        invariant |buffer| <= frameLimit || buffer == before
        invariant pipe.nonEmptyReads - old(pipe.nonEmptyReads) <= |buffer| - |before|
        invariant buffer == before ==> pipe.unread == unread
        invariant buffer != before ==> NoLineBefore(buffer, pipe.lastRead)
        invariant buffer + pipe.unread == before + unread
        invariant IsOnPace(pipe.pace, before, buffer, pipe.unread, steps)
        decreases frameLimit + 1 - |buffer|
      {
        ghost var held, coming := buffer, pipe.unread;
        var chunk := ReadChunk();
        if chunk.Deadline? {
          return Some(TimedOut);
        }
        if chunk.bytes == [] {
          assert buffer == held;
          Closed(before, unread, held, coming, frameLimit, pipe.pace);
          return Some(ChannelClosed);
        }
        if |buffer| > frameLimit {
          Refused(before, unread, held, coming, frameLimit, pipe.pace, steps);
          return Some(FrameLimitExceeded);
        }
        NextRead(pipe.pace, before, held, chunk.bytes, coming, steps);
        steps := steps + 1;
      }
      Taken(before, unread, buffer, pipe.unread, frameLimit, pipe.pace, steps);
      return None;
    }
  }

  // No newline was buffered before the last read.
  ghost predicate NoLineBefore(buffer: Bytes, lastRead: nat) {
    lastRead <= |buffer| && NEWLINE !in buffer[..|buffer| - lastRead]
  }

  lemma CutInLastRead(buffer: Bytes, lastRead: nat)
    requires NEWLINE in buffer && NoLineBefore(buffer, lastRead)
    ensures |buffer[LineEnd(buffer) + 1..]| < lastRead
  {
    var front := buffer[..|buffer| - lastRead];
    assert forall i :: 0 <= i < |front| ==> front[i] == buffer[i];
    assert LineEnd(buffer) >= |front|;
  }

  // Every outcome that takes this line is the right one.
  ghost predicate TakesLine(
    before: Bytes, unread: Bytes, line: Bytes, frameLimit: nat, undisturbed: bool, pace: nat)
  {
    forall outcome: Outcome :: outcome.TookLine() && outcome.line == line ==>
      && Tells(outcome, before, unread, frameLimit)
      && (undisturbed ==> Demands(outcome, before, unread, frameLimit, pace))
  }

  // After some reads at a pace the buffer has grown by as many whole steps.
  ghost predicate IsOnPace(pace: nat, before: Bytes, buffer: Bytes, unread: Bytes, steps: nat) {
    pace > 0 ==> unread == [] || |buffer| == |before| + steps * Least(pace, CHUNK)
  }

  lemma NextRead(pace: nat, before: Bytes, held: Bytes, chunk: Bytes, coming: Bytes, steps: nat)
    requires IsOnPace(pace, before, held, coming, steps) && chunk <= coming && chunk != []
    requires pace > 0 ==> |chunk| == Least(Least(pace, CHUNK), |coming|)
    ensures IsOnPace(pace, before, held + chunk, coming[|chunk|..], steps + 1)
  {
    assert pace > 0 ==> (steps + 1) * Least(pace, CHUNK) == steps * Least(pace, CHUNK) + Least(pace, CHUNK);
  }

  // The three ways to end, from what is buffered then.
  lemma Closed(before: Bytes, unread: Bytes, held: Bytes, coming: Bytes, frameLimit: nat, pace: nat)
    requires held + coming == before + unread && NEWLINE !in held && before <= held && |held| <= frameLimit + 1
    requires |held| <= frameLimit || held == before
    requires |held| == frameLimit + 1 || coming == []
    ensures Tells(ChannelClosed, before, unread, frameLimit)
    ensures Demands(ChannelClosed, before, unread, frameLimit, pace)
  {
    LineEndAcross(held, coming);
  }

  lemma Refused(before: Bytes, unread: Bytes, held: Bytes, coming: Bytes, frameLimit: nat, pace: nat, steps: nat)
    requires held + coming == before + unread && NEWLINE !in held && before <= held && |held| <= frameLimit
    requires IsOnPace(pace, before, held, coming, steps)
    requires |coming| > frameLimit - |held| && frameLimit - |held| < CHUNK
    requires pace > 0 ==> frameLimit - |held| < Least(pace, CHUNK)
    ensures Tells(FrameLimitExceeded, before, unread, frameLimit)
    ensures Demands(FrameLimitExceeded, before, unread, frameLimit, pace)
  {
    LineEndAcross(held, coming);
    assert |before + unread| == |held + coming|;
    if pace > 0 { Stops(|before|, Least(pace, CHUNK), frameLimit, steps); }
  }

  lemma Taken(before: Bytes, unread: Bytes, buffer: Bytes, coming: Bytes, frameLimit: nat, pace: nat, steps: nat)
    requires buffer + coming == before + unread && NEWLINE in buffer && before <= buffer
    requires |buffer| <= frameLimit || buffer == before
    requires IsOnPace(pace, before, buffer, coming, steps)
    ensures TakesLine(before, unread, buffer[..LineEnd(buffer)], frameLimit, true, pace)
  {
    LineEndAcross(buffer, coming);
    var whole := before + unread;
    assert whole[LineEnd(buffer)] == NEWLINE && whole[..LineEnd(buffer)] == buffer[..LineEnd(buffer)];
    assert |whole| == |buffer| + |coming|;
    if pace > 0 && |buffer| <= frameLimit && coming != [] {
      StoppedBefore(|before|, |buffer|, Least(pace, CHUNK), frameLimit, steps);
    }
  }

  lemma StoppedBefore(start: nat, length: nat, step: nat, limit: nat, steps: nat)
    requires 0 < step && length == start + steps * step <= limit
    ensures start <= limit && length <= LastStop(start, step, limit)
  {
    Stops(start, step, limit, steps);
  }

  // The first line of a buffer that is within the limit, or was there before.
  lemma LimitedLine(before: Bytes, buffer: Bytes, frameLimit: nat)
    requires NEWLINE in buffer && |buffer| <= frameLimit + 1
    requires |buffer| <= frameLimit || buffer == before
    requires NEWLINE in before ==> buffer == before
    ensures LineEnd(buffer) + 1 > frameLimit <==> |before| == frameLimit + 1 && LineEnd(before) == frameLimit
  {
  }

  // Line k answers request k, and fits the size limit with its newline.
  ghost predicate AreReplies(decode: Bytes -> Decoded, frameLimit: nat, lines: seq<Bytes>) {
    forall k :: 0 <= k < |lines| ==> decode(lines[k]) == Response(k + 1) && |lines[k]| + 1 <= frameLimit
  }

  lemma OneMoreReply(decode: Bytes -> Decoded, frameLimit: nat, lines: seq<Bytes>, line: Bytes)
    requires AreReplies(decode, frameLimit, lines)
    requires decode(line) == Response(|lines| + 1) && |line| + 1 <= frameLimit
    ensures AreReplies(decode, frameLimit, lines + [line])
  {
  }

  // A stream of at least `count` lines, of which the first ones all end one read
  // before the limit.
  ghost predicate HasShortLines(stream: Bytes, count: nat, frameLimit: nat) {
    count <= |Lines(stream)| && forall k :: 0 <= k < count ==> |Lines(stream)[k]| + CHUNK <= frameLimit
  }

  lemma ShortLineNext(
    stream: Bytes, consumed: seq<Bytes>, buffer: Bytes, unread: Bytes, count: nat, frameLimit: nat)
    requires Accounts(stream, consumed, buffer, unread)
    requires HasShortLines(stream, count, frameLimit) && |consumed| < count
    ensures NEWLINE in buffer + unread && LineEnd(buffer + unread) + CHUNK <= frameLimit
  {
    NextLine(stream, consumed, buffer, unread);
  }

  // The client when every request so far has been answered.
  ghost predicate IsAnswered(client: StdioClient, replies: seq<Bytes>)
    reads client, client.pipe
  {
    && client.Valid() && client.consumed == replies && client.sequence == |replies|
    && |client.buffer| <= client.frameLimit && AreReplies(client.decode, client.frameLimit, replies)
  }

  method NextReply(client: StdioClient, ghost replies: seq<Bytes>, ghost count: nat) returns (outcome: Outcome)
    requires IsAnswered(client, replies)
    modifies client, client.pipe
    ensures client.consumed <= Lines(client.stream) && replies <= client.consumed
    ensures outcome.Reply? ==> IsAnswered(client, replies + [outcome.line])
    ensures outcome.ChannelClosed? ==> client.pipe.unread == []
    ensures IsLockStep(client.decode, client.stream) ==> !outcome.NotJson? && !outcome.UnexpectedId?
    ensures client.pipe.undisturbed && IsLockStep(client.decode, client.stream) ==>
      (HasShortLines(client.stream, count, client.frameLimit) && |replies| < count ==> outcome.Reply?)
  {
    if HasShortLines(client.stream, count, client.frameLimit) && |replies| < count {
      ShortLineNext(client.stream, client.consumed, client.buffer, client.pipe.unread, count, client.frameLimit);
    }
    outcome := client.Request();
    if outcome.Reply? {
      OneMoreReply(client.decode, client.frameLimit, replies, outcome.line);
    }
  }

  // Requests one after the other, as the workloads issue them: the first failure
  // ends the run. Reply k is then line k of the stream, no reply is over the size
  // limit, and a closed channel is really exhausted. With an undisturbed pipe, a
  // server in lock step and short lines, every request is answered.
  method Converse(client: StdioClient, count: nat) returns (replies: seq<Bytes>, last: Outcome)
    requires client.Valid() && client.sequence == 0 && client.consumed == [] && client.buffer == []
    modifies client, client.pipe
    ensures replies <= Lines(client.stream) && |replies| <= count
    ensures AreReplies(client.decode, client.frameLimit, replies)
    ensures |replies| == count || !last.Reply?
    ensures last.ChannelClosed? ==> client.pipe.unread == []
    ensures IsLockStep(client.decode, client.stream) ==> !last.NotJson? && !last.UnexpectedId?
    ensures client.pipe.undisturbed && IsLockStep(client.decode, client.stream) ==>
      (HasShortLines(client.stream, count, client.frameLimit) ==> |replies| == count)
  {
    replies, last := [], NotSent;
    while |replies| < count
      invariant IsAnswered(client, replies) && |replies| <= count
      invariant replies <= Lines(client.stream)
      invariant !last.ChannelClosed? && !last.NotJson? && !last.UnexpectedId?
    {
      last := NextReply(client, replies, count);
      if !last.Reply? {
        return;
      }
      replies := replies + [last.line];
    }
  }

  // ---- What the size limit does at its edge ----

  function Filler(n: nat): (bytes: Bytes)
    ensures |bytes| == n && NEWLINE !in bytes
  {
    seq(n, _ => 0)
  }

  // A client that has made its first request over an undisturbed pipe.
  method FirstRequest(stream: Bytes, pace: nat, decode: Bytes -> Decoded)
    returns (client: StdioClient, outcome: Outcome)
    ensures client.Valid() && client.stream == stream && client.frameLimit == FRAME_LIMIT
    ensures fresh(client) && fresh(client.pipe) && client.pipe.undisturbed
    ensures Demands(outcome, [], stream, FRAME_LIMIT, pace)
    ensures outcome.FrameLimitExceeded? ==> |client.buffer| == FRAME_LIMIT + 1
    ensures outcome.FrameLimitExceeded? ==> client.buffer + client.pipe.unread == stream
  {
    var pipe := new Pipe(stream, true, pace);
    client := new StdioClient(pipe, decode);
    outcome := client.Request();
    assert Joined([]) + client.buffer == client.buffer;
  }

  // A first line is refused, although another line may follow in the same read.
  lemma RefusedFirstLine(line: Bytes, rest: Bytes, pace: nat, outcome: Outcome)
    requires NEWLINE !in line && |line| + |rest| >= FRAME_LIMIT
    requires Demands(outcome, [], line + [NEWLINE] + rest, FRAME_LIMIT, pace)
    requires |line| >= FRAME_LIMIT || (0 < pace < CHUNK && |line| >= LastStop(0, pace, FRAME_LIMIT))
    ensures outcome.FrameLimitExceeded?
  {
    LineEndOf(line, rest);
    var stream := line + [NEWLINE] + rest;
    assert [] + stream == stream;
  }

  // A line within the limit is refused when a read takes in too much after it.
  method RefuseShortLine(decode: Bytes -> Decoded) returns (client: StdioClient, outcome: Outcome)
    ensures outcome.FrameLimitExceeded? && NEWLINE in client.stream
    ensures LineEnd(client.stream) + 1 < client.frameLimit
  {
    var line, rest := Filler(1048100), Filler(1000);
    LineEndOf(line, rest);
    client, outcome := FirstRequest(line + [NEWLINE] + rest, 1000, decode);
    RefusedFirstLine(line, rest, 1000, outcome);
  }

  // A line over the limit is returned, by the request after the one it failed.
  method ReturnLongLine(decode: Bytes -> Decoded)
    returns (client: StdioClient, first: Outcome, second: Outcome)
    ensures first.FrameLimitExceeded? && second.TookLine() && |second.line| + 1 > client.frameLimit
  {
    var line := Filler(FRAME_LIMIT);
    LineEndOf(line, []);
    client, first := FirstRequest(line + [NEWLINE] + [], 0, decode);
    RefusedFirstLine(line, [], 0, first);
    assert client.buffer == line + [NEWLINE] + [];
    second := client.Request();
  }

  // An open channel is reported closed, by every request after one that left the
  // buffer over the limit and without a newline.
  method CloseOpenChannel(decode: Bytes -> Decoded, count: nat)
    returns (client: StdioClient, first: Outcome, later: seq<Outcome>)
    ensures first.FrameLimitExceeded? && client.pipe.unread != []
    ensures |later| == count && forall outcome <- later :: outcome.ChannelClosed?
  {
    var stream := Filler(FRAME_LIMIT + 2);
    assert [] + stream == stream;
    client, first := FirstRequest(stream, 0, decode);
    var pipe := client.pipe;
    later := [];
    while |later| < count
      invariant client.Valid() && client.pipe == pipe && pipe.undisturbed
      invariant IsStuck(client.buffer, client.frameLimit) && pipe.unread != [] && |later| <= count
      invariant forall outcome <- later :: outcome.ChannelClosed?
    {
      var outcome := client.Request();
      later := later + [outcome];
    }
  }
}
