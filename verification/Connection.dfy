/** The conversation of one client with the server over the character device. */
module Conversation {
  import opened ByteStrings
  import opened Positions
  import opened CommandLog

  /** The device's log, the server's file position and all that was sent back. */
  datatype Conn = Conn(log: Log, pos: nat, sent: Bytes)

  /** What became of one received chunk: stored, as far as it was accepted, or obeyed as a seek;
      a chunk with a newline is answered. */
  datatype Event =
    | Stored(accepted: Bytes, answered: bool)
    | Sought(cmd: nat, offset: nat, answered: bool)

  /** The answer: everything readable from the current position on. */
  function Answer(cap: nat, c: Conn): Conn {
    var rest := From(Readable(c.log, cap), c.pos);
    Conn(c.log, c.pos + |rest|, c.sent + rest)
  }

  function Obey(cap: nat, c: Conn, e: Event): Conn
    requires cap > 0
  {
    match e
    case Stored(accepted, _) => c.(log := Append(c.log, accepted))
    case Sought(cmd, offset, _) =>
      match Encode(SlotLengths(c.log, cap), cmd, offset)
      case None => c
      case Some(pos) => c.(pos := pos)
  }

  function Serve(cap: nat, c: Conn, e: Event): Conn
    requires cap > 0
  {
    if e.answered then Answer(cap, Obey(cap, c, e)) else Obey(cap, c, e)
  }

  function ServeAll(cap: nat, c: Conn, events: seq<Event>): Conn
    requires cap > 0
  {
    if events == [] then c
    else Serve(cap, ServeAll(cap, c, events[..|events| - 1]), events[|events| - 1])
  }

  /** `e` is what becomes of `chunk` when the kernel treats the write as `fault` says and
      `request` is the seek that the chunk spells, if any. */
  ghost predicate Handles(cap: nat, c: Conn, e: Event, chunk: Bytes, request: Option<(nat, nat)>, fault: Fault)
    requires cap > 0
  {
    && e.answered == HasNewline(chunk)
    && match request
       case Some((cmd, offset)) =>
         e == Sought(cmd, offset, e.answered) && Encode(SlotLengths(c.log, cap), cmd, offset) != None
       case None =>
         Taken(chunk, fault).Some? && e == Stored(chunk[..Taken(chunk, fault).value], e.answered)
  }

  /** The seek or the write that `chunk` leads to fails. */
  ghost predicate Refused(cap: nat, c: Conn, chunk: Bytes, request: Option<(nat, nat)>, fault: Fault)
    requires cap > 0
  {
    match request
    case Some((cmd, offset)) => Encode(SlotLengths(c.log, cap), cmd, offset) == None
    case None => Taken(chunk, fault) == None
  }

  /** What one chunk does. A seek leaves the log alone and puts the file position at the named byte; any other chunk
      is written and leaves the position. Only then is a chunk with a newline answered, with all that follows the
      position. */
  lemma ServedChunk(cap: nat, c: Conn, e: Event, chunk: Bytes, request: Option<(nat, nat)>, fault: Fault)
    requires cap > 0 && Handles(cap, c, e, chunk, request, fault)
    ensures var c' := Serve(cap, c, e);
            var rest := c'.sent[|c.sent|..];
            && c.sent <= c'.sent && rest == (if 10 in chunk then From(Readable(c'.log, cap), c'.pos - |rest|) else [])
            && match request
               case Some((cmd, offset)) =>
                 c'.log == c.log && Encode(SlotLengths(c.log, cap), cmd, offset) == Some(c'.pos - |rest|)
               case None =>
                 && c'.pos - |rest| == c.pos && (chunk == [] || !fault.allocFails)
                 && c'.log == Append(c.log, chunk[..|chunk| - Min(fault.uncopied, |chunk|)])
  {
    hide SlotLengths, Readable, Append, Encode, From;
    var rest := if 10 in chunk then From(Readable(Serve(cap, c, e).log, cap), Obey(cap, c, e).pos) else [];
    assert Serve(cap, c, e).sent == c.sent + rest;
  }

  /** An answered seek ends at the end of what is readable, an unanswered one at the byte sought. */
  lemma SeekEndsAt(cap: nat, c: Conn, e: Event, chunk: Bytes, cmd: nat, offset: nat, fault: Fault)
    requires cap > 0 && Handles(cap, c, e, chunk, Some((cmd, offset)), fault)
    ensures var pos := Encode(SlotLengths(c.log, cap), cmd, offset);
            pos.Some? && Serve(cap, c, e).pos == if 10 in chunk then |Readable(c.log, cap)| else pos.value
  {
    ServedChunk(cap, c, e, chunk, Some((cmd, offset)), fault);
    SlotTotal(c.log, cap);
    EncodeBelowTotal(SlotLengths(c.log, cap), cmd, offset);
    hide SlotLengths, Readable, Encode;
  }

  /** A chunk is refused exactly when it names a slot not in use or a byte its command does not have, or when
      there is no memory to write it. */
  lemma RefusedIff(cap: nat, c: Conn, chunk: Bytes, request: Option<(nat, nat)>, fault: Fault)
    requires cap > 0 && WellFormed(c.log)
    ensures Refused(cap, c, chunk, request, fault) <==>
            match request
            case Some((cmd, offset)) => cmd >= |Recent(c.log, cap)| || offset >= SlotLengths(c.log, cap)[cmd]
            case None => chunk != [] && fault.allocFails
    ensures Refused(cap, c, chunk, request, fault) <==> forall e :: !Handles(cap, c, e, chunk, request, fault)
  {
    match request {
      case Some((cmd, offset)) =>
        SlotSeekRejects(c.log, cap, cmd, offset);
        assert !Refused(cap, c, chunk, request, fault) ==>
                 Handles(cap, c, Sought(cmd, offset, HasNewline(chunk)), chunk, request, fault);
      case None =>
        var n := Taken(chunk, fault).GetOr(0);
        assert !Refused(cap, c, chunk, request, fault) ==>
                 Handles(cap, c, Stored(chunk[..n], HasNewline(chunk)), chunk, request, fault);
    }
  }

  /** Commands are only ever added. */
  lemma {:induction false} ServeExtends(cap: nat, c: Conn, events: seq<Event>)
    requires cap > 0
    ensures c.log.commands <= ServeAll(cap, c, events).log.commands
    decreases |events|
  {
    if events != [] {
      ServeExtends(cap, c, events[..|events| - 1]);
    }
  }

  // ---------------------------------------------------------------- when the echo is complete

  /** Without seeks from a file position of zero: the position counts the bytes sent, and they are the
      readable bytes in order until something is evicted, from when on some byte stays unsent. */
  ghost predicate Progress(cap: nat, c: Conn, lost: nat) {
    var all, evicted := Flatten(c.log.commands), Evicted(c.log, cap);
    && WellFormed(c.log)
    && c.pos == |c.sent|
    && lost <= evicted <= |all|
    && lost + c.pos <= |all|
    && (evicted == lost ==> c.sent == all[lost..lost + c.pos])
    && (evicted > lost ==> lost + c.pos < |all|)
  }

  lemma StoreProgress(cap: nat, c: Conn, accepted: Bytes, lost: nat)
    requires cap > 0 && Progress(cap, c, lost)
    ensures Progress(cap, c.(log := Append(c.log, accepted)), lost)
  {
    WriteGrows(c.log, accepted, cap);
    hide Append, Flatten, Evicted, WellFormed;
  }

  lemma AnswerProgress(cap: nat, c: Conn, lost: nat)
    requires Progress(cap, c, lost)
    ensures Progress(cap, Answer(cap, c), lost)
    ensures Evicted(c.log, cap) == lost ==> Answer(cap, c).sent == Flatten(c.log.commands)[lost..]
  {
    EvictedThenReadable(c.log, cap);
    hide Flatten, Evicted, Readable, WellFormed;
    var all, evicted := Flatten(c.log.commands), Evicted(c.log, cap);
    if evicted == lost {
      assert all[lost..][c.pos..] == all[lost + c.pos..];
      assert all[lost..lost + c.pos] + all[lost + c.pos..] == all[lost..];
    }
  }

  lemma {:induction false} ServeProgress(cap: nat, c0: Conn, events: seq<Event>, lost: nat)
    requires cap > 0 && Progress(cap, c0, lost)
    requires forall k :: 0 <= k < |events| ==> events[k].Stored?
    ensures Progress(cap, ServeAll(cap, c0, events), lost)
    decreases |events|
  {
    if events != [] {
      var c, e := ServeAll(cap, c0, events[..|events| - 1]), events[|events| - 1];
      ServeProgress(cap, c0, events[..|events| - 1], lost);
      hide Progress;
      StoreProgress(cap, c, e.accepted, lost);
      AnswerProgress(cap, Obey(cap, c, e), lost);
    }
  }

  lemma {:induction false} ServeAllConcat(cap: nat, c: Conn, a: seq<Event>, b: seq<Event>)
    requires cap > 0
    ensures ServeAll(cap, c, a + b) == ServeAll(cap, ServeAll(cap, c, a), b)
    decreases |b|
  {
    if b == [] {
      assert a + b == a;
    } else {
      var n := |b| - 1;
      assert (a + b)[..|a + b| - 1] == a + b[..n] && (a + b)[|a + b| - 1] == b[n];
      hide Serve;
      ServeAllConcat(cap, c, a, b[..n]);
    }
  }

  lemma {:induction false} Unanswered(cap: nat, log: Log, events: seq<Event>)
    requires cap > 0 && WellFormed(log)
    requires forall k :: 0 <= k < |events| ==> events[k].Stored? && !events[k].answered
    ensures var c := ServeAll(cap, Conn(log, 0, []), events);
            c.pos == 0 && c.sent == [] && WellFormed(c.log)
    decreases |events|
  {
    if events != [] {
      var n := |events| - 1;
      Unanswered(cap, log, events[..n]);
      AppendKeeps(ServeAll(cap, Conn(log, 0, []), events[..n]).log, events[n].accepted);
    }
  }

  /** What `sent` is in a device that holds `log`, when the first answer was given with `first`. */
  ghost predicate Echoed(cap: nat, first: Log, log: Log, sent: Bytes) {
    var undisturbed := |log.commands| <= cap || log.commands == first.commands;
    && (sent == From(Flatten(log.commands), Evicted(first, cap)) <==> undisturbed)
    && (undisturbed ==> sent == Readable(log, cap))
  }

  /** From a state in which nothing readable was left unsent, or nothing at all had been sent. */
  lemma EchoSince(cap: nat, c0: Conn, events: seq<Event>)
    requires cap > 0 && Progress(cap, c0, Evicted(c0.log, cap))
    requires forall k :: 0 <= k < |events| ==> events[k].Stored?
    requires if events == [] then c0.sent == Readable(c0.log, cap) else events[|events| - 1].answered
    ensures Echoed(cap, c0.log, ServeAll(cap, c0, events).log, ServeAll(cap, c0, events).sent)
  {
    var lost, n := Evicted(c0.log, cap), |events| - 1;
    var c := ServeAll(cap, c0, events);
    ServeExtends(cap, c0, events);
    ServeProgress(cap, c0, events, lost);
    SameEvictedIff(c0.log, c.log, cap);
    EvictedThenReadable(c.log, cap);
    if events != [] {
      var before := ServeAll(cap, c0, events[..n]);
      ServeProgress(cap, c0, events[..n], lost);
      StoreProgress(cap, before, events[n].accepted, lost);
      AnswerProgress(cap, Obey(cap, before, events[n]), lost);
    }
    hide ServeAll, Evicted, Readable, Flatten, WellFormed;
  }

  /** Counting from the start of the conversation: after an answer the client has been sent everything that was
      readable at the start and every command since, iff the device evicted nothing since. */
  lemma EchoSinceStart(cap: nat, log: Log, events: seq<Event>)
    requires cap > 0 && WellFormed(log)
    requires forall k :: 0 <= k < |events| ==> events[k].Stored?
    requires events != [] && events[|events| - 1].answered
    ensures var c := ServeAll(cap, Conn(log, 0, []), events); Echoed(cap, log, c.log, c.sent)
  {
    EvictedThenReadable(log, cap);
    EchoSince(cap, Conn(log, 0, []), events);
  }

  /** The events are all writes, number `f` is the first that is answered, and the last one is answered. */
  ghost predicate FirstAndLastAnswered(events: seq<Event>, f: nat) {
    && f < |events|
    && (forall k :: 0 <= k < |events| ==> events[k].Stored?)
    && (forall k :: 0 <= k < f ==> !events[k].answered)
    && events[f].answered && events[|events| - 1].answered
  }

  /** End to end, with no seek: the first answer (event `f`) sends everything then readable, whatever was evicted
      before. After any later answer, all that was sent is the stream from where the first answer began, and is
      everything readable, if (and the first only if) the device has evicted nothing since the first answer: it holds
      at most `cap` commands or has got no new one. */
  lemma EchoCompleteIff(cap: nat, log: Log, events: seq<Event>, f: nat)
    requires cap > 0 && WellFormed(log)
    requires FirstAndLastAnswered(events, f)
    ensures var first, c := ServeAll(cap, Conn(log, 0, []), events[..f + 1]), ServeAll(cap, Conn(log, 0, []), events);
            first.sent == Readable(first.log, cap) && Echoed(cap, first.log, c.log, c.sent)
  {
    AfterFirst(events, f);
    assert f < |events|;
    hide *;
    FirstAnswer(cap, log, events, f);
    ServeAllConcat(cap, Conn(log, 0, []), events[..f + 1], events[f + 1..]);
    EchoSince(cap, ServeAll(cap, Conn(log, 0, []), events[..f + 1]), events[f + 1..]);
  }

  /** At capacity 1 the latest command is all that can be read. */
  lemma AnswerLatest(commands: seq<Bytes>, pos: nat, sent: Bytes, line: Bytes)
    requires HasNewline(line)
    ensures Readable(Log(commands + [line], []), 1) == line
    ensures Serve(1, Conn(Log(commands, []), pos, sent), Stored(line, true))
            == Conn(Log(commands + [line], []), pos + |From(line, pos)|, sent + From(line, pos))
  {
    FlattenSnoc([], line);
    assert [] + [line] == [line] && [] + line == line;
    assert Recent(Log(commands + [line], []), 1) == [line];
  }

  /** The incomplete echo at capacity 1: two lines, each answered, of which the second evicts the first. Its
      first byte is never sent. */
  lemma EchoDiffers()
    ensures var events := [Stored([NEWLINE], true), Stored([65, NEWLINE], true)];
            var c := ServeAll(1, Conn(EMPTY_LOG, 0, []), events);
            && FirstAndLastAnswered(events, 0)
            && c.log == Log([[NEWLINE], [65, NEWLINE]], []) && Readable(c.log, 1) == [65, NEWLINE]
            && c.sent == [NEWLINE, NEWLINE]
  {
    var a: Bytes, b: Bytes := [NEWLINE], [65, NEWLINE];
    assert a[0] == NEWLINE && b[1] == NEWLINE;
    assert From(a, 0) == a && From(b, 1) == a;
    assert FirstAndLastAnswered([Stored(a, true), Stored(b, true)], 0);
    assert HasNewline(a) && HasNewline(b) && EMPTY_LOG == Log([], []);
    hide *;
    assert [] + [a] == [a] && [a] + [b] == [a, b] && [] + a == a && a + a == [NEWLINE, NEWLINE];
    AnswerLatest([], 0, [], a);
    AnswerLatest([a], 1, a, b);
    TwoEvents(1, Conn(EMPTY_LOG, 0, []), Stored(a, true), Stored(b, true));
  }

  lemma TwoEvents(cap: nat, c: Conn, d: Event, e: Event)
    requires cap > 0
    ensures ServeAll(cap, c, [d, e]) == Serve(cap, Serve(cap, c, d), e)
  {
    hide Serve;
    assert [d, e][..1] == [d] && [d][..0] == [];
    assert ServeAll(cap, c, [d]) == Serve(cap, ServeAll(cap, c, []), d);
  }

  lemma AfterFirst(events: seq<Event>, f: nat)
    requires FirstAndLastAnswered(events, f)
    ensures var after := events[f + 1..];
            && events[..f + 1] + after == events
            && (forall k :: 0 <= k < |after| ==> after[k].Stored?)
            && (after != [] ==> after[|after| - 1].answered)
  {
  }

  lemma FirstAnswer(cap: nat, log: Log, events: seq<Event>, f: nat)
    requires cap > 0 && WellFormed(log) && FirstAndLastAnswered(events, f)
    ensures var first := ServeAll(cap, Conn(log, 0, []), events[..f + 1]);
            first.sent == Readable(first.log, cap) && Progress(cap, first, Evicted(first.log, cap))
  {
    var before := ServeAll(cap, Conn(log, 0, []), events[..f]);
    Unanswered(cap, log, events[..f]);
    assert events[..f + 1][..f] == events[..f];
    AppendKeeps(before.log, events[f].accepted);
    var stored := Append(before.log, events[f].accepted);
    hide ServeAll, Append;
    EvictedThenReadable(stored, cap);
    AnswerProgress(cap, Conn(stored, 0, []), Evicted(stored, cap));
    assert From(Readable(stored, cap), 0) == Readable(stored, cap);
  }

  lemma AnswerAfterSeek(cap: nat, c: Conn, cmd: nat, offset: nat, pos: nat)
    requires cap > 0 && Encode(SlotLengths(c.log, cap), cmd, offset) == Some(pos)
    ensures Serve(cap, c, Sought(cmd, offset, true)).sent == c.sent + From(Flatten(Recent(c.log, cap)), pos)
    ensures pos < |Flatten(Recent(c.log, cap))|
  {
    SlotTotal(c.log, cap);
    EncodeBelowTotal(SlotLengths(c.log, cap), cmd, offset);
    hide SlotLengths, Flatten, Encode, Recent, From;
  }

  /** An answered seek sends the bytes from the position it was granted on: the rest of the command that position
      lies in and then all later ones. That command and byte are the named ones iff naming them by age gives
      the same position. */
  lemma SeekThenAnswer(cap: nat, c: Conn, cmd: nat, offset: nat, pos: nat)
    requires cap > 0 && Encode(SlotLengths(c.log, cap), cmd, offset) == Some(pos)
    ensures var commands := Recent(c.log, cap);
            && Locate(Lengths(commands), pos).Some?
            && var (i, start) := Locate(Lengths(commands), pos).value;
            && Serve(cap, c, Sought(cmd, offset, true)).sent
               == c.sent + (commands[i][start..] + Flatten(commands[i + 1..]))
            && ((i, start) == (cmd, offset) <==> Encode(Lengths(commands), cmd, offset) == Some(pos))
  {
    hide *;
    AnswerAfterSeek(cap, c, cmd, offset, pos);
    SuffixAt(Recent(c.log, cap), pos);
    LocateInvertsEncode(Lengths(Recent(c.log, cap)), cmd, offset, pos);
  }
}

/** `handle_connection` of `aesdsocket.c`, built for the character device. */
module Connection {
  import opened ByteStrings
  import opened Positions
  import opened CommandLog
  import opened CircularBuffer
  import opened Driver
  import opened Conversation

  const BUFFER_SIZE: nat := 1024
  const SEEK_REQUEST: Bytes := [65, 69, 83, 68, 67, 72, 65, 82, 95, 73, 79, 67, 83, 69, 69, 75, 84, 79, 58]  // "AESDCHAR_IOCSEEKTO:"

  /** A received chunk as it lies in the cleared buffer. */
  function Padded(chunk: Bytes): Bytes {
    if |chunk| <= BUFFER_SIZE then chunk + seq(BUFFER_SIZE - |chunk|, _ => 0) else chunk
  }

  /** The seek a chunk asks for, with `parse` standing for the scanning of the two numbers. */
  function Request(chunk: Bytes, parse: Bytes -> Option<(nat, nat)>): Option<(nat, nat)> {
    if SEEK_REQUEST <= Padded(chunk) then parse(Padded(chunk)) else None
  }

  /** A chunk asks for a seek exactly when it begins with the command's name and two numbers can be scanned from the
      buffer; the zeros behind it do not matter for the name. */
  lemma RequestIff(chunk: Bytes, parse: Bytes -> Option<(nat, nat)>, cmd: nat, offset: nat)
    requires |chunk| <= BUFFER_SIZE
    ensures Request(chunk, parse) == Some((cmd, offset)) <==>
            && [65, 69, 83, 68, 67, 72, 65, 82, 95, 73, 79, 67, 83, 69, 69, 75, 84, 79, 58] <= chunk
            && parse(chunk + seq(1024 - |chunk|, _ => 0)) == Some((cmd, offset))
  {
    if |chunk| < |SEEK_REQUEST| {
      assert Padded(chunk)[|chunk|] == 0 != SEEK_REQUEST[|chunk|];
    }
  }

  /** `memset` of the whole buffer. */
  method Clear(buffer: array<byte>)
    modifies buffer
    ensures forall k :: 0 <= k < buffer.Length ==> buffer[k] == 0
  {
    forall k | 0 <= k < buffer.Length {
      buffer[k] := 0;
    }
  }

  /** Incoming bytes land at the front of the buffer. */
  method Fill(buffer: array<byte>, data: Bytes)
    requires |data| <= buffer.Length
    modifies buffer
    ensures buffer[..] == data + old(buffer[|data|..])
  {
    forall k | 0 <= k < |data| {
      buffer[k] := data[k];
    }
  }

  /** What follows the file position. */
  ghost function Pending(dev: Device, file: OpenFile): Bytes
    reads dev, dev.ring, file
  {
    From(Readable(dev.log, dev.ring.entry.Length), file.fPos)
  }

  /** `read(datafd, buffer, buffer_size)`: some of what is pending moves into the buffer, and none only at the end. */
  method ReadInto(dev: Device, file: OpenFile, buffer: array<byte>) returns (bytesRead: nat)
    requires dev.Valid() && buffer.Length == BUFFER_SIZE
    modifies file, buffer
    ensures dev.Valid()
    ensures bytesRead <= buffer.Length && file.fPos == old(file.fPos) + bytesRead
    ensures old(Pending(dev, file)) == buffer[..bytesRead] + Pending(dev, file)
    ensures bytesRead == 0 ==> Pending(dev, file) == []
  {
    ReadAdvances(dev.Commands(), file.fPos, BUFFER_SIZE);
    assert Flatten(dev.Commands()) == Readable(dev.log, dev.ring.entry.Length);
    hide ReadAt, Flatten, Recent, Represented, Represents, From, Readable, WellFormed;
    var data := dev.Read(file, BUFFER_SIZE);
    Fill(buffer, data);
    bytesRead := |data|;
    assert buffer[..bytesRead] == data;
  }

  /** The reading and sending loop: it ends, and has sent all that was pending. */
  method SendRest(dev: Device, file: OpenFile, buffer: array<byte>, sent0: Bytes) returns (sent: Bytes)
    requires dev.Valid() && buffer.Length == BUFFER_SIZE
    modifies file, buffer
    ensures dev.Valid()
    ensures sent == sent0 + old(Pending(dev, file)) && file.fPos == old(file.fPos) + |old(Pending(dev, file))|
  {
    hide *;
    ghost var all := Pending(dev, file);
    sent := sent0;
    var bytesRead: nat := ReadInto(dev, file, buffer);
    while bytesRead > 0
      invariant dev.Valid() && bytesRead <= buffer.Length
      invariant sent0 + all == sent + buffer[..bytesRead] + Pending(dev, file)
      invariant file.fPos + |sent0| == old(file.fPos) + |sent| + bytesRead
      invariant bytesRead == 0 ==> Pending(dev, file) == []
      decreases |Pending(dev, file)| + bytesRead
    {
      sent := sent + buffer[..bytesRead];
      bytesRead := ReadInto(dev, file, buffer);
    }
    assert sent + buffer[..bytesRead] + Pending(dev, file) == sent;
  }

  lemma PaddingAddsNoNewline(chunk: Bytes)
    requires |chunk| <= BUFFER_SIZE
    ensures HasNewline(Padded(chunk)) <==> HasNewline(chunk)
  {
  }

  /** The chunk in the buffer is obeyed as a seek or written; failing that the server gives up. */
  method StoreOrSeek(dev: Device, file: OpenFile, buffer: array<byte>, chunk: Bytes,
                     parse: Bytes -> Option<(nat, nat)>, fault: Fault, ghost sent: Bytes)
    returns (alive: bool, ghost event: Event)
    requires dev.Valid() && |chunk| <= BUFFER_SIZE == buffer.Length && buffer[..] == Padded(chunk)
    modifies dev, dev.ring, dev.ring.entry, file
    ensures dev.Valid()
    ensures !alive ==> dev.log == old(dev.log) && file.fPos == old(file.fPos)
    ensures var cap, c := dev.ring.entry.Length, Conn(old(dev.log), old(file.fPos), sent);
            if alive then
              && Handles(cap, c, event, chunk, Request(chunk, parse), fault)
              && Obey(cap, c, event) == Conn(dev.log, file.fPos, sent)
            else Refused(cap, c, chunk, Request(chunk, parse), fault)
    ensures if [65, 69, 83, 68, 67, 72, 65, 82, 95, 73, 79, 67, 83, 69, 69, 75, 84, 79, 58] <= buffer[..] && parse(buffer[..]).Some?
            then
              var (cmd, offset) := parse(buffer[..]).value;
              && dev.log == old(dev.log)
              && match Encode(SlotLengths(dev.log, dev.ring.entry.Length), cmd, offset)
                 case None => !alive && file.fPos == old(file.fPos)
                 case Some(pos) => alive && file.fPos == pos
            else
              && file.fPos == old(file.fPos) && (alive <==> chunk == [] || !fault.allocFails)
              && dev.log == WriteOne(old(dev.log), chunk, fault)
  {
    hide Represented, Represents, SlotLengths, Append, Recent, WellFormed, Encode;
    var request := if SEEK_REQUEST <= buffer[..] then parse(buffer[..]) else None;
    match request
    case Some((cmd, offset)) =>
      event := Sought(cmd, offset, HasNewline(chunk));
      var ret := dev.AdjustFileOffset(file, cmd, offset);
      alive := ret == 0;
    case None =>
      var ret := dev.Write(buffer[..|chunk|], fault);
      assert buffer[..|chunk|] == chunk;
      event := Stored(chunk[..if ret < 0 then 0 else ret], HasNewline(chunk));
      alive := ret >= 0;
  }

  lemma ServedAfter(cap: nat, c: Conn, e: Event, c': Conn)
    requires cap > 0 && Obey(cap, c, e) == c'
    ensures var rest := From(Readable(c'.log, cap), c'.pos);
            Serve(cap, c, e) == if e.answered then Conn(c'.log, c'.pos + |rest|, c'.sent + rest) else c'
  {
  }

  /** One turn of the receiving loop, on a cleared buffer. */
  method HandleChunk(dev: Device, file: OpenFile, buffer: array<byte>, chunk: Bytes,
                     parse: Bytes -> Option<(nat, nat)>, fault: Fault, sent0: Bytes)
    returns (sent: Bytes, alive: bool, ghost event: Event)
    requires dev.Valid() && |chunk| <= BUFFER_SIZE == buffer.Length && forall k :: 0 <= k < buffer.Length ==> buffer[k] == 0
    modifies dev, dev.ring, dev.ring.entry, file, buffer
    ensures dev.Valid()
    ensures !alive ==> dev.log == old(dev.log) && sent == sent0
    ensures alive ==> forall k :: 0 <= k < buffer.Length ==> buffer[k] == 0
    ensures var cap, c := dev.ring.entry.Length, Conn(old(dev.log), old(file.fPos), sent0);
            if alive then
              && Handles(cap, c, event, chunk, Request(chunk, parse), fault)
              && Serve(cap, c, event) == Conn(dev.log, file.fPos, sent)
            else Refused(cap, c, chunk, Request(chunk, parse), fault)
  {
    sent := sent0;
    Fill(buffer, chunk);
    assert buffer[..] == Padded(chunk);
    PaddingAddsNoNewline(chunk);
    hide Padded, HasNewline, Represented, Represents, Append, Recent, WellFormed, Obey, From, Readable, Request, SlotLengths,
         Encode, WriteOne, Refused, Serve;
    alive, event := StoreOrSeek(dev, file, buffer, chunk, parse, fault, sent);
    if !alive {
      return;
    }
    ServedAfter(dev.ring.entry.Length, Conn(old(dev.log), old(file.fPos), sent0), event, Conn(dev.log, file.fPos, sent));
    if HasNewline(buffer[..]) {
      sent := SendRest(dev, file, buffer, sent);
    }
    Clear(buffer);
  }

  /** The events are what becomes of the first chunks, one after the other. */
  ghost predicate Follows(cap: nat, c: Conn, events: seq<Event>, chunks: seq<Bytes>,
                          parse: Bytes -> Option<(nat, nat)>, faults: seq<Fault>)
    requires cap > 0 && |faults| == |chunks|
  {
    && |events| <= |chunks|
    && forall k :: 0 <= k < |events| ==>
         Handles(cap, ServeAll(cap, c, events[..k]), events[k], chunks[k], Request(chunks[k], parse), faults[k])
  }

  lemma FollowsEach(cap: nat, c: Conn, events: seq<Event>, chunks: seq<Bytes>,
                    parse: Bytes -> Option<(nat, nat)>, faults: seq<Fault>)
    requires cap > 0 && |faults| == |chunks| && Follows(cap, c, events, chunks, parse, faults)
    ensures |events| <= |chunks| && forall k :: 0 <= k < |events| ==>
              Handles(cap, ServeAll(cap, c, events[..k]), events[k], chunks[k], Request(chunks[k], parse), faults[k])
  {
  }

  lemma FollowsMore(cap: nat, c: Conn, events: seq<Event>, event: Event, chunks: seq<Bytes>,
                    parse: Bytes -> Option<(nat, nat)>, faults: seq<Fault>)
    requires cap > 0 && |faults| == |chunks| && |events| < |chunks| && Follows(cap, c, events, chunks, parse, faults)
    requires var k := |events|; Handles(cap, ServeAll(cap, c, events), event, chunks[k], Request(chunks[k], parse), faults[k])
    ensures Follows(cap, c, events + [event], chunks, parse, faults)
    ensures ServeAll(cap, c, events + [event]) == Serve(cap, ServeAll(cap, c, events), event)
  {
    var events' := events + [event];
    assert events'[..|events|] == events;
    assert forall k :: 0 <= k <= |events| ==> events'[..k] == events[..k];
  }

  /** No chunk spells a seek. */
  ghost predicate SeekFree(chunks: seq<Bytes>, parse: Bytes -> Option<(nat, nat)>) {
    forall k :: 0 <= k < |chunks| ==> Request(chunks[k], parse) == None
  }

  /** The first chunk with a newline is number `f`. */
  ghost predicate FirstAnswered(chunks: seq<Bytes>, f: nat) {
    f < |chunks| && HasNewline(chunks[f]) && forall k :: 0 <= k < f ==> !HasNewline(chunks[k])
  }

  lemma NoSeeks(chunks: seq<Bytes>, parse: Bytes -> Option<(nat, nat)>)
    requires forall k :: 0 <= k < |chunks| ==> Request(chunks[k], parse) == None
    ensures SeekFree(chunks, parse)
  {
  }

  lemma HandledWrite(cap: nat, c: Conn, e: Event, chunk: Bytes, fault: Fault)
    requires cap > 0 && Handles(cap, c, e, chunk, None, fault)
    ensures Serve(cap, c, e).log == WriteOne(c.log, chunk, fault) && e.Stored? && e.answered == HasNewline(chunk)
  {
  }

  /** The events are the writes of the chunks, one after the other. */
  ghost predicate AllStored(cap: nat, c: Conn, events: seq<Event>, chunks: seq<Bytes>, faults: seq<Fault>)
    requires cap > 0
  {
    && |faults| == |chunks| == |events|
    && forall k :: 0 <= k < |events| ==>
         Handles(cap, ServeAll(cap, c, events[..k]), events[k], chunks[k], None, faults[k])
  }

  lemma SeekFreeEvents(cap: nat, c: Conn, events: seq<Event>, chunks: seq<Bytes>,
                       parse: Bytes -> Option<(nat, nat)>, faults: seq<Fault>)
    requires cap > 0 && |faults| == |chunks| == |events|
    requires Follows(cap, c, events, chunks, parse, faults) && SeekFree(chunks, parse)
    ensures AllStored(cap, c, events, chunks, faults)
    ensures forall k :: 0 <= k < |events| ==> events[k].Stored? && events[k].answered == HasNewline(chunks[k])
  {
    hide Request, ServeAll;
  }

  lemma StoredPrefix(cap: nat, c: Conn, events: seq<Event>, chunks: seq<Bytes>, faults: seq<Fault>, n: nat)
    requires cap > 0 && AllStored(cap, c, events, chunks, faults) && n <= |events|
    ensures AllStored(cap, c, events[..n], chunks[..n], faults[..n])
  {
    hide Handles, ServeAll;
    assert forall k :: 0 <= k < n ==> events[..n][..k] == events[..k];
  }

  lemma LastStored(cap: nat, c: Conn, events: seq<Event>, chunks: seq<Bytes>, faults: seq<Fault>)
    requires cap > 0 && AllStored(cap, c, events, chunks, faults) && events != []
    ensures var n := |events| - 1;
            && |chunks| == |faults| == |events|
            && AllStored(cap, c, events[..n], chunks[..n], faults[..n])
            && ServeAll(cap, c, events).log == WriteOne(ServeAll(cap, c, events[..n]).log, chunks[n], faults[n])
  {
    var n := |events| - 1;
    StoredPrefix(cap, c, events, chunks, faults, n);
    HandledWrite(cap, ServeAll(cap, c, events[..n]), events[n], chunks[n], faults[n]);
    hide Serve, WriteOne, Handles;
  }

  /** Without seeks the conversation stores the chunks one after the other. */
  lemma {:induction false} SeekFreeLog(cap: nat, c: Conn, events: seq<Event>, chunks: seq<Bytes>, faults: seq<Fault>)
    requires cap > 0 && |faults| == |chunks| == |events| && AllStored(cap, c, events, chunks, faults)
    ensures ServeAll(cap, c, events).log == WriteAll(c.log, chunks, faults)
    decreases |events|
  {
    if events != [] {
      hide *;
      var n := |events| - 1;
      LastStored(cap, c, events, chunks, faults);
      SeekFreeLog(cap, c, events[..n], chunks[..n], faults[..n]);
      WriteAllSnoc(c.log, chunks[..n], faults[..n], chunks[n], faults[n]);
      SplitLast(chunks);
      SplitLast(faults);
    }
  }

  lemma SeekFreePrefixLog(cap: nat, c: Conn, events: seq<Event>, chunks: seq<Bytes>, faults: seq<Fault>, n: nat)
    requires cap > 0 && |faults| == |chunks| == |events| && AllStored(cap, c, events, chunks, faults) && n <= |events|
    ensures ServeAll(cap, c, events[..n]).log == WriteAll(c.log, chunks[..n], faults[..n])
  {
    hide *;
    StoredPrefix(cap, c, events, chunks, faults, n);
    SeekFreeLog(cap, c, events[..n], chunks[..n], faults[..n]);
  }

  lemma SeekFreeAnswers(cap: nat, c: Conn, events: seq<Event>, chunks: seq<Bytes>,
                        parse: Bytes -> Option<(nat, nat)>, faults: seq<Fault>, f: nat)
    requires cap > 0 && |events| == |faults| == |chunks|
    requires Follows(cap, c, events, chunks, parse, faults) && SeekFree(chunks, parse)
    requires FirstAnswered(chunks, f) && HasNewline(chunks[|chunks| - 1])
    ensures AllStored(cap, c, events, chunks, faults) && FirstAndLastAnswered(events, f)
  {
    SeekFreeEvents(cap, c, events, chunks, parse, faults);
    hide Follows, SeekFree, AllStored, HasNewline;
  }

  /** The echo of a whole seek-free connection, in terms of what came in. */
  lemma SeekFreeEcho(cap: nat, log: Log, events: seq<Event>, chunks: seq<Bytes>,
                     parse: Bytes -> Option<(nat, nat)>, faults: seq<Fault>, f: nat)
    requires cap > 0 && WellFormed(log) && |events| == |faults| == |chunks|
    requires Follows(cap, Conn(log, 0, []), events, chunks, parse, faults) && SeekFree(chunks, parse)
    requires FirstAnswered(chunks, f) && HasNewline(chunks[|chunks| - 1])
    ensures var c := ServeAll(cap, Conn(log, 0, []), events);
            Echoed(cap, WriteAll(log, chunks[..f + 1], faults[..f + 1]), c.log, c.sent)
  {
    var c0 := Conn(log, 0, []);
    assert f < |chunks|;
    SeekFreeAnswers(cap, c0, events, chunks, parse, faults, f);
    hide *;
    SeekFreePrefixLog(cap, c0, events, chunks, faults, f + 1);
    EchoCompleteIff(cap, log, events, f);
  }

  /** `handle_connection`: whatever the client sends, in whatever pieces, what it gets back and what the
      device holds afterwards are those of the conversation, chunk by chunk. */
  method HandleConnection(dev: Device, chunks: seq<Bytes>, parse: Bytes -> Option<(nat, nat)>, faults: seq<Fault>)
    returns (sent: Bytes, alive: bool, ghost events: seq<Event>)
    requires dev.Valid() && |faults| == |chunks| && forall k :: 0 <= k < |chunks| ==> |chunks[k]| <= BUFFER_SIZE
    modifies dev, dev.ring, dev.ring.entry
    ensures dev.Valid()
    ensures |events| <= |chunks| && forall k :: 0 <= k < |events| ==>
              Handles(dev.ring.entry.Length, ServeAll(dev.ring.entry.Length, Conn(old(dev.log), 0, []), events[..k]),
                      events[k], chunks[k], Request(chunks[k], parse), faults[k])
    ensures var c := ServeAll(dev.ring.entry.Length, Conn(old(dev.log), 0, []), events);
            && c.log == dev.log && c.sent == sent
            && if alive then |events| == |chunks|
               else |events| < |chunks|
                    && Refused(dev.ring.entry.Length, c, chunks[|events|], Request(chunks[|events|], parse), faults[|events|])
    ensures alive && (forall k :: 0 <= k < |chunks| ==> Request(chunks[k], parse) == None) ==>
              dev.log == WriteAll(old(dev.log), chunks, faults)
    ensures alive && (forall k :: 0 <= k < |chunks| ==> Request(chunks[k], parse) == None) && chunks != [] && HasNewline(chunks[|chunks| - 1]) ==>
              forall f: nat :: FirstAnswered(chunks, f) ==>
                Echoed(dev.ring.entry.Length, WriteAll(old(dev.log), chunks[..f + 1], faults[..f + 1]), dev.log, sent)
  {
    var file := new OpenFile();
    var buffer: array<byte> := new byte[BUFFER_SIZE](_ => 0);
    sent, alive, events := [], true, [];
    assert WellFormed(dev.log);
    hide Represented, Represents, WellFormed, Handles, Serve, Refused, Request, Follows, SeekFree, FirstAnswered, Echoed, WriteAll;
    ghost var cap, c0 := dev.ring.entry.Length, Conn(dev.log, 0, []);
    for i := 0 to |chunks|
      invariant fresh(file) && fresh(buffer) && dev.Valid() && cap == dev.ring.entry.Length
      invariant alive && |events| == i && forall k :: 0 <= k < buffer.Length ==> buffer[k] == 0
      invariant Follows(cap, c0, events, chunks, parse, faults)
      invariant ServeAll(cap, c0, events) == Conn(dev.log, file.fPos, sent)
    {
      ghost var event;
      sent, alive, event := HandleChunk(dev, file, buffer, chunks[i], parse, faults[i], sent);
      if !alive {
        FollowsEach(cap, c0, events, chunks, parse, faults);
        return;
      }
      FollowsMore(cap, c0, events, event, chunks, parse, faults);
      events := events + [event];
    }
    FollowsEach(cap, c0, events, chunks, parse, faults);
    if forall k :: 0 <= k < |chunks| ==> Request(chunks[k], parse) == None {
      NoSeeks(chunks, parse);
      SeekFreeEvents(cap, c0, events, chunks, parse, faults);
      SeekFreeLog(cap, c0, events, chunks, faults);
      if chunks != [] && HasNewline(chunks[|chunks| - 1]) {
        forall f: nat | FirstAnswered(chunks, f) {
          SeekFreeEcho(cap, c0.log, events, chunks, parse, faults, f);
        }
      }
    }
  }
}
