/** What the character device means, without its memory: a growing log of commands, the bytes
    cached until a newline arrives, and readers moving over the newest commands. */
module CommandLog {
  import opened ByteStrings
  import opened Positions
  import opened RingIndex

  datatype Log = Log(commands: seq<Bytes>, cache: Bytes)

  const EMPTY_LOG: Log := Log([], [])

  ghost predicate WellFormed(log: Log) {
    && (forall i :: 0 <= i < |log.commands| ==> HasNewline(log.commands[i]))
    && !HasNewline(log.cache)
  }

  /** Everything ever accepted. */
  function Stream(log: Log): Bytes {
    Flatten(log.commands) + log.cache
  }

  /** One write that accepted `data`. */
  function Append(log: Log, data: Bytes): Log {
    var whole := log.cache + data;
    if HasNewline(whole) then Log(log.commands + [whole], []) else Log(log.commands, whole)
  }

  function AppendAll(log: Log, chunks: seq<Bytes>): Log
    decreases |chunks|
  {
    if chunks == [] then log else AppendAll(Append(log, chunks[0]), chunks[1..])
  }

  /** What the kernel does to one write: refuse it memory, or fail to copy the last bytes. */
  datatype Fault = Fault(allocFails: bool, uncopied: nat)

  /** How many bytes of `buf` a write takes; None when it fails for want of memory. */
  function Taken(buf: Bytes, fault: Fault): (n: Option<nat>)
    ensures n.Some? ==> n.value <= |buf|
  {
    if buf == [] then Some(0)
    else if fault.allocFails then None
    else Some(|buf| - Min(fault.uncopied, |buf|))
  }

  // ---------------------------------------------------------------- conservation

  /** One write loses, invents and reorders nothing, and only its own bytes can complete a command. */
  lemma AppendKeeps(log: Log, data: Bytes)
    requires WellFormed(log)
    ensures WellFormed(Append(log, data))
    ensures Stream(Append(log, data)) == Stream(log) + data
    ensures log.commands <= Append(log, data).commands
    ensures Append(log, data).commands == log.commands <==> !HasNewline(data)
    ensures data == [] ==> Append(log, data) == log
  {
    var whole := log.cache + data;
    FlattenSnoc(log.commands, whole);
    assert |log.commands + [whole]| != |log.commands|;
    assert Flatten(log.commands) + whole + [] == Stream(log) + data;
    assert data == [] ==> whole == log.cache;
  }

  /** Whole-run conservation, whatever the chunking. */
  lemma {:induction false} RunConserves(log: Log, chunks: seq<Bytes>)
    requires WellFormed(log)
    ensures WellFormed(AppendAll(log, chunks))
    ensures Stream(AppendAll(log, chunks)) == Stream(log) + Flatten(chunks)
    ensures log.commands <= AppendAll(log, chunks).commands
    decreases |chunks|
  {
    hide WellFormed, Append, Stream;
    if chunks == [] {
      assert Stream(log) + [] == Stream(log);
    } else {
      AppendKeeps(log, chunks[0]);
      RunConserves(Append(log, chunks[0]), chunks[1..]);
      assert Stream(log) + chunks[0] + Flatten(chunks[1..]) == Stream(log) + Flatten(chunks);
    }
  }

  /** What each write took. */
  function Accepted(bufs: seq<Bytes>, faults: seq<Fault>): seq<Bytes>
    requires |bufs| == |faults|
  {
    seq(|bufs|, i requires 0 <= i < |bufs| => bufs[i][..Taken(bufs[i], faults[i]).GetOr(0)])
  }

  function WriteOne(log: Log, buf: Bytes, fault: Fault): Log {
    match Taken(buf, fault)
    case None => log
    case Some(n) => Append(log, buf[..n])
  }

  function WriteAll(log: Log, bufs: seq<Bytes>, faults: seq<Fault>): Log
    requires |bufs| == |faults|
    decreases |bufs|
  {
    if bufs == [] then log else WriteAll(WriteOne(log, bufs[0], faults[0]), bufs[1..], faults[1..])
  }

  lemma {:induction false} WriteAllSnoc(log: Log, bufs: seq<Bytes>, faults: seq<Fault>, buf: Bytes, fault: Fault)
    requires |bufs| == |faults|
    ensures WriteAll(log, bufs + [buf], faults + [fault]) == WriteOne(WriteAll(log, bufs, faults), buf, fault)
    decreases |bufs|
  {
    if bufs != [] {
      assert (bufs + [buf])[1..] == bufs[1..] + [buf] && (faults + [fault])[1..] == faults[1..] + [fault];
      WriteAllSnoc(WriteOne(log, bufs[0], faults[0]), bufs[1..], faults[1..], buf, fault);
    }
  }

  /** Over every run of writes, with empty, partly copied and failed ones among them: the log is that of the
      bytes taken, all commands and the cache together are exactly those bytes in order after what was there
      before, and no command is ever changed or dropped from the history. */
  lemma {:induction false} WritesConserve(log: Log, bufs: seq<Bytes>, faults: seq<Fault>)
    requires |bufs| == |faults| && WellFormed(log)
    ensures var log' := WriteAll(log, bufs, faults);
            && WellFormed(log') && log' == AppendAll(log, Accepted(bufs, faults))
            && Stream(log') == Stream(log) + Flatten(Accepted(bufs, faults))
            && log.commands <= log'.commands
    ensures forall k :: 0 <= k < |bufs| ==>
              Accepted(bufs, faults)[k] == if faults[k].allocFails then [] else bufs[k][..|bufs[k]| - Min(faults[k].uncopied, |bufs[k]|)]
    decreases |bufs|
  {
    var accepted := Accepted(bufs, faults);
    RunConserves(log, accepted);
    if bufs != [] {
      AppendKeeps(log, accepted[0]);
      assert WriteOne(log, bufs[0], faults[0]) == Append(log, accepted[0]);
      WritesConserve(Append(log, accepted[0]), bufs[1..], faults[1..]);
      assert accepted[1..] == Accepted(bufs[1..], faults[1..]);
    }
  }

  // ---------------------------------------------------------------- commands and lines

  ghost predicate IsLine(command: Bytes) {
    command != [] && command[|command| - 1] == NEWLINE && !HasNewline(command[..|command| - 1])
  }

  ghost predicate AllLines(commands: seq<Bytes>) {
    forall i :: 0 <= i < |commands| ==> IsLine(commands[i])
  }

  /** No byte of the chunk follows a newline of the chunk. */
  ghost predicate NewlineOnlyLast(chunk: Bytes) {
    forall i :: 0 <= i < |chunk| - 1 ==> chunk[i] != NEWLINE
  }

  /** `log` is `stream` cut after each newline. */
  ghost predicate IsLineSplit(log: Log, stream: Bytes) {
    Stream(log) == stream && AllLines(log.commands) && !HasNewline(log.cache)
  }

  lemma AppendLine(log: Log, data: Bytes)
    requires WellFormed(log)
    ensures AllLines(Append(log, data).commands) <==> AllLines(log.commands) && NewlineOnlyLast(data)
  {
    var whole := log.cache + data;
    var commands' := Append(log, data).commands;
    if HasNewline(data) {
      assert HasNewline(whole) && commands' == log.commands + [whole];
      assert whole[..|whole| - 1] == log.cache + data[..|data| - 1];
      if NewlineOnlyLast(data) {
        assert IsLine(whole);
      }
      assert forall i :: 0 <= i < |log.commands| ==> commands'[i] == log.commands[i];
      assert commands'[|log.commands|] == whole;
      if IsLine(whole) {
        assert forall i :: 0 <= i < |data| - 1 ==> data[i] == data[..|data| - 1][i];
      }
    } else {
      assert NewlineOnlyLast(data);
    }
  }

  lemma {:induction false} RunLines(log: Log, chunks: seq<Bytes>)
    requires WellFormed(log)
    ensures AllLines(AppendAll(log, chunks).commands)
       <==> AllLines(log.commands) && forall k :: 0 <= k < |chunks| ==> NewlineOnlyLast(chunks[k])
    decreases |chunks|
  {
    if chunks != [] {
      AppendKeeps(log, chunks[0]);
      AppendLine(log, chunks[0]);
      RunLines(Append(log, chunks[0]), chunks[1..]);
      assert forall k :: 1 <= k < |chunks| ==> chunks[k] == chunks[1..][k - 1];
    }
  }

  /** The device's commands are the lines of what it accepted exactly when no accepted chunk
      goes on after a newline; otherwise some command carries bytes of the next line. */
  lemma CommandsAreLinesIff(chunks: seq<Bytes>)
    ensures IsLineSplit(AppendAll(EMPTY_LOG, chunks), Flatten(chunks))
       <==> forall k :: 0 <= k < |chunks| ==> NewlineOnlyLast(chunks[k])
  {
    hide AppendAll, NewlineOnlyLast, IsLine;
    RunConserves(EMPTY_LOG, chunks);
    RunLines(EMPTY_LOG, chunks);
    assert AllLines(EMPTY_LOG.commands) && Stream(EMPTY_LOG) == [];
    hide Stream, Flatten;
    assert [] + Flatten(chunks) == Flatten(chunks);
  }

  /** One chunk that goes on after its newline: the command takes the next line's first byte. */
  lemma LinesDiffer()
    ensures AppendAll(EMPTY_LOG, [[NEWLINE, 65]]).commands == [[NEWLINE, 65]]
    ensures !IsLineSplit(AppendAll(EMPTY_LOG, [[NEWLINE, 65]]), [NEWLINE, 65])
  {
    var chunk: Bytes := [NEWLINE, 65];
    assert chunk[0] == NEWLINE && chunk[1] != NEWLINE;
    CompleteChunks([], [chunk]);
    hide AppendAll;
    assert [] + [chunk] == [chunk];
  }

  /** A string has only one line split. */
  lemma {:induction false} LineSplitUnique(a: Log, b: Log, stream: Bytes)
    requires IsLineSplit(a, stream) && IsLineSplit(b, stream)
    ensures a == b
    decreases |a.commands|
  {
    if a.commands == [] || b.commands == [] {
      NoNewlineNoLine(a, stream);
      NoNewlineNoLine(b, stream);
    } else {
      var x, y := a.commands[0], b.commands[0];
      assert stream == x + (Flatten(a.commands[1..]) + a.cache);
      assert stream == y + (Flatten(b.commands[1..]) + b.cache);
      FirstLineLength(x, y, stream);
      var rest := stream[|x|..];
      LineSplitUnique(Log(a.commands[1..], a.cache), Log(b.commands[1..], b.cache), rest);
      assert a.commands == [x] + a.commands[1..] && b.commands == [y] + b.commands[1..];
    }
  }

  lemma NoNewlineNoLine(log: Log, stream: Bytes)
    requires IsLineSplit(log, stream)
    ensures log.commands == [] <==> !HasNewline(stream)
    ensures log.commands == [] ==> log.cache == stream
  {
  }

  lemma FirstLineLength(x: Bytes, y: Bytes, stream: Bytes)
    requires IsLine(x) && IsLine(y) && x <= stream && y <= stream
    ensures x == y
  {
  }

  /** Line-disciplined writers reach the same state however the same bytes are chunked. */
  lemma ChunkingDoesNotMatter(chunks: seq<Bytes>, chunks': seq<Bytes>)
    requires forall k :: 0 <= k < |chunks| ==> NewlineOnlyLast(chunks[k])
    requires forall k :: 0 <= k < |chunks'| ==> NewlineOnlyLast(chunks'[k])
    requires Flatten(chunks) == Flatten(chunks')
    ensures AppendAll(EMPTY_LOG, chunks) == AppendAll(EMPTY_LOG, chunks')
  {
    CommandsAreLinesIff(chunks);
    CommandsAreLinesIff(chunks');
    LineSplitUnique(AppendAll(EMPTY_LOG, chunks), AppendAll(EMPTY_LOG, chunks'), Flatten(chunks));
  }

  // ---------------------------------------------------------------- reading

  /** The commands still held: the last `cap`. */
  function Recent(log: Log, cap: nat): seq<Bytes> {
    log.commands[Lo(|log.commands|, cap)..]
  }

  function Readable(log: Log, cap: nat): Bytes {
    Flatten(Recent(log, cap))
  }

  /** Number of bytes dropped from the front so far. */
  function Evicted(log: Log, cap: nat): nat {
    |Flatten(log.commands[..Lo(|log.commands|, cap)])|
  }

  function Lengths(commands: seq<Bytes>): seq<nat> {
    seq(|commands|, i requires 0 <= i < |commands| => |commands[i]|)
  }

  function Min(a: nat, b: nat): (m: nat)
    ensures m <= a && m <= b && (m == a || m == b)
  {
    if a < b then a else b
  }

  /** One read call: at most `count` bytes, and none from beyond the command that `pos` lies in. */
  function ReadAt(commands: seq<Bytes>, pos: nat, count: nat): Bytes {
    match Locate(Lengths(commands), pos)
    case None => []
    case Some((i, offset)) => commands[i][offset..Min(offset + count, |commands[i]|)]
  }

  /** Consecutive read calls with no write in between. */
  function ReadMany(commands: seq<Bytes>, pos: nat, counts: seq<nat>): Bytes
    decreases |counts|
  {
    if counts == [] then []
    else var data := ReadAt(commands, pos, counts[0]);
         data + ReadMany(commands, pos + |data|, counts[1..])
  }

  lemma {:induction false} LengthOfFlatten(commands: seq<Bytes>)
    ensures |Flatten(commands)| == Sum(Lengths(commands))
  {
    if commands != [] {
      assert Lengths(commands)[1..] == Lengths(commands[1..]);
      LengthOfFlatten(commands[1..]);
    }
  }

  /** A command inside the concatenation. */
  lemma CommandInFlatten(commands: seq<Bytes>, i: nat)
    requires i < |commands|
    ensures var start := Sum(Lengths(commands)[..i]);
            start + |commands[i]| <= |Flatten(commands)| && Flatten(commands)[start..start + |commands[i]|] == commands[i]
  {
    assert commands == commands[..i] + ([commands[i]] + commands[i + 1..]);
    FlattenConcat(commands[..i], [commands[i]] + commands[i + 1..]);
    LengthOfFlatten(commands[..i]);
    assert Lengths(commands)[..i] == Lengths(commands[..i]);
  }

  lemma SliceOfSlice(s: Bytes, a: nat, b: nat, c: nat, d: nat)
    requires a <= b <= |s| && c <= d <= b - a
    ensures s[a..b][c..d] == s[a + c..a + d]
  {
    assert forall k :: 0 <= k < d - c ==> s[a..b][c..d][k] == s[a + c..a + d][k];
  }

  /** Where a located byte range lies in the concatenation. */
  lemma RangeInFlatten(commands: seq<Bytes>, i: nat, offset: nat, end: nat)
    requires i < |commands| && offset <= end <= |commands[i]|
    ensures var start := Sum(Lengths(commands)[..i]);
            start + end <= |Flatten(commands)| && Flatten(commands)[start + offset..start + end] == commands[i][offset..end]
  {
    CommandInFlatten(commands, i);
    var start := Sum(Lengths(commands)[..i]);
    SliceOfSlice(Flatten(commands), start, start + |commands[i]|, offset, end);
  }

  /** A successful lookup, read in the concatenation. */
  lemma LocatedRange(commands: seq<Bytes>, pos: nat, count: nat, i: nat, offset: nat)
    requires Locate(Lengths(commands), pos) == Some((i, offset))
    ensures var data := ReadAt(commands, pos, count);
            && pos + |data| <= |Flatten(commands)| && data == Flatten(commands)[pos..pos + |data|]
            && |data| <= count && (data == [] <==> count == 0)
  {
    LocateInvertsEncode(Lengths(commands), i, offset, pos);
    ReadLocated(commands, pos, count, i, offset);
    hide *;
    RangeInFlatten(commands, i, offset, Min(offset + count, |commands[i]|));
  }

  lemma ReadLocated(commands: seq<Bytes>, pos: nat, count: nat, i: nat, offset: nat)
    requires Locate(Lengths(commands), pos) == Some((i, offset)) && i < |commands| && offset < |commands[i]|
    ensures ReadAt(commands, pos, count) == commands[i][offset..Min(offset + count, |commands[i]|)]
  {
    hide Locate;
  }

  /** A read returns a stretch of the readable string starting at `pos`, and nothing
      only at or past its end or when nothing is asked for. */
  lemma ReadAtIsSlice(commands: seq<Bytes>, pos: nat, count: nat)
    ensures var all, data := Flatten(commands), ReadAt(commands, pos, count);
            && |data| <= count
            && (data == [] <==> pos >= |all| || count == 0)
            && (pos < |all| ==> pos + |data| <= |all| && data == all[pos..pos + |data|])
  {
    LengthOfFlatten(commands);
    LocateDefined(Lengths(commands), pos);
    match Locate(Lengths(commands), pos)
    case None =>
    case Some((i, offset)) => LocatedRange(commands, pos, count, i, offset);
  }

  /** A read takes all it is asked for, up to the end of the command that `pos` lies in. */
  lemma ReadFillsCommand(commands: seq<Bytes>, pos: nat, count: nat, i: nat)
    requires i < |commands| && |Flatten(commands[..i])| <= pos < |Flatten(commands[..i + 1])|
    ensures |ReadAt(commands, pos, count)| == Min(count, |Flatten(commands[..i + 1])| - pos)
  {
    var start := |Flatten(commands[..i])|;
    assert commands[..i + 1] == commands[..i] + [commands[i]];
    FlattenSnoc(commands[..i], commands[i]);
    LengthOfFlatten(commands[..i]);
    assert Lengths(commands)[..i] == Lengths(commands[..i]);
    LocateInvertsEncode(Lengths(commands), i, pos - start, pos);
    ReadLocated(commands, pos, count, i, pos - start);
  }

  /** The part of `s` from `pos` on, empty past the end. */
  function From(s: Bytes, pos: nat): Bytes {
    if pos <= |s| then s[pos..] else []
  }

  /** A read takes a prefix of what follows `pos`, leaves the rest to follow the new
      position, and takes nothing only when nothing follows or nothing is asked for. */
  lemma ReadAdvances(commands: seq<Bytes>, pos: nat, count: nat)
    ensures var data, rest := ReadAt(commands, pos, count), From(Flatten(commands), pos);
            && |data| <= count
            && (data == [] <==> rest == [] || count == 0)
            && rest == data + From(Flatten(commands), pos + |data|)
  {
    ReadAtIsSlice(commands, pos, count);
    hide ReadAt, Flatten;
    var all, data := Flatten(commands), ReadAt(commands, pos, count);
    if pos < |all| {
      assert all[pos..] == all[pos..pos + |data|] + all[pos + |data|..];
    }
  }

  /** Reads with any positive counts deliver a prefix of what follows `pos`; once there are as many
      calls as bytes they have delivered all of it, and every later call delivers nothing. */
  lemma {:induction false} DrainDelivers(commands: seq<Bytes>, pos: nat, counts: seq<nat>)
    requires forall k :: 0 <= k < |counts| ==> counts[k] > 0
    ensures var all, got := Flatten(commands), ReadMany(commands, pos, counts);
            && From(all, pos) == got + From(all, pos + |got|)
            && (|counts| >= |From(all, pos)| ==> From(all, pos + |got|) == [])
    decreases |counts|
  {
    hide ReadAt, From, Flatten;
    if counts != [] {
      var data := ReadAt(commands, pos, counts[0]);
      ReadAdvances(commands, pos, counts[0]);
      DrainDelivers(commands, pos + |data|, counts[1..]);
      var more := ReadMany(commands, pos + |data|, counts[1..]);
      DrainStep(Flatten(commands), pos, data, more, |counts[1..]|);
    }
  }

  lemma DrainStep(all: Bytes, pos: nat, data: Bytes, more: Bytes, calls: nat)
    requires data == [] <==> From(all, pos) == []
    requires From(all, pos) == data + From(all, pos + |data|)
    requires From(all, pos + |data|) == more + From(all, pos + |data| + |more|)
    requires calls >= |From(all, pos + |data|)| ==> From(all, pos + |data| + |more|) == []
    ensures From(all, pos) == data + more + From(all, pos + |data + more|)
    ensures calls + 1 >= |From(all, pos)| ==> From(all, pos + |data + more|) == []
  {
  }

  /** What `llseek` and the seek command promise the next read. */
  lemma EncodedReadsBack(commands: seq<Bytes>, piece: nat, offset: nat, pos: nat, count: nat)
    requires Encode(Lengths(commands), piece, offset) == Some(pos)
    ensures ReadAt(commands, pos, count) == commands[piece][offset..Min(offset + count, |commands[piece]|)]
  {
    LocateInvertsEncode(Lengths(commands), piece, offset, pos);
  }

  /** Everything that follows an encoded position. */
  lemma EncodedSuffix(commands: seq<Bytes>, piece: nat, offset: nat, pos: nat)
    requires Encode(Lengths(commands), piece, offset) == Some(pos)
    ensures From(Flatten(commands), pos) == commands[piece][offset..] + Flatten(commands[piece + 1..])
  {
    var before, after := commands[..piece], commands[piece + 1..];
    assert commands == before + ([commands[piece]] + after);
    FlattenConcat(before, [commands[piece]] + after);
    FlattenConcat([commands[piece]], after);
    FlattenSnoc([], commands[piece]);
    assert [] + [commands[piece]] == [commands[piece]];
    LengthOfFlatten(before);
    assert Lengths(commands)[..piece] == Lengths(before);
  }

  /** What follows any position: the rest of the command it lies in and all later ones. */
  lemma SuffixAt(commands: seq<Bytes>, pos: nat)
    requires pos < |Flatten(commands)|
    ensures Locate(Lengths(commands), pos).Some?
    ensures var (i, start) := Locate(Lengths(commands), pos).value;
            From(Flatten(commands), pos) == commands[i][start..] + Flatten(commands[i + 1..])
  {
    LengthOfFlatten(commands);
    LocateDefined(Lengths(commands), pos);
    var (i, start) := Locate(Lengths(commands), pos).value;
    LocateInvertsEncode(Lengths(commands), i, start, pos);
    EncodedSuffix(commands, i, start, pos);
  }

  // ---------------------------------------------------------------- slots

  /** The sizes found in the `cap` slots, in slot order: the commands stand there by their
      number modulo `cap`. */
  function SlotLengths(log: Log, cap: nat): seq<nat>
    requires cap > 0
  {
    var n, recent := |log.commands|, Recent(log, cap);
    seq(cap, j requires 0 <= j < cap => if j < |recent| then |recent[Age(j, Oldest(n, cap), cap)]| else 0)
  }

  /** Naming a byte by slot is naming it by age, for all slots and offsets and rejections included, exactly
      when the slot sizes are the command sizes oldest first; until the first eviction they are. */
  lemma SlotSeekIsCommandSeekIff(log: Log, cap: nat)
    requires cap > 0
    ensures (forall cmd: nat, offset: nat ::
               Encode(SlotLengths(log, cap), cmd, offset) == Encode(Lengths(Recent(log, cap)), cmd, offset))
       <==> (forall j :: 0 <= j < |Recent(log, cap)| ==> SlotLengths(log, cap)[j] == |Recent(log, cap)[j]|)
    ensures Oldest(|log.commands|, cap) == 0 ==> SlotLengths(log, cap)[..|Recent(log, cap)|] == Lengths(Recent(log, cap))
  {
    var slots, recent := SlotLengths(log, cap), Recent(log, cap);
    EncodeDetermines(slots, Lengths(recent));
  }

  /** Chunks with newlines, written to an empty cache, are the commands. */
  lemma {:induction false} CompleteChunks(commands: seq<Bytes>, chunks: seq<Bytes>)
    requires forall k :: 0 <= k < |chunks| ==> HasNewline(chunks[k])
    ensures AppendAll(Log(commands, []), chunks) == Log(commands + chunks, [])
    decreases |chunks|
  {
    if chunks == [] {
      assert commands + chunks == commands;
    } else {
      assert [] + chunks[0] == chunks[0];
      CompleteChunks(commands + [chunks[0]], chunks[1..]);
      assert commands + [chunks[0]] + chunks[1..] == commands + chunks;
    }
  }

  /** The disagreement, at the device's own capacity: after eleven writes to a new device, ten of one byte and then
      one of two, byte 1 of "command 0" is granted although the oldest command has no byte 1. */
  lemma SlotSeekDiffers()
    ensures var chunks := seq(11, i => if i < 10 then [NEWLINE] else [65, NEWLINE]);
            var log := AppendAll(EMPTY_LOG, chunks);
            && Encode(SlotLengths(log, MAX_WRITE_OPERATIONS), 0, 1) == Some(1)
            && Encode(Lengths(Recent(log, MAX_WRITE_OPERATIONS)), 0, 1) == None
  {
    var chunks: seq<Bytes> := seq(11, i => if i < 10 then [NEWLINE] else [65, NEWLINE]);
    assert [65, NEWLINE][1] == NEWLINE;
    CompleteChunks([], chunks);
    hide AppendAll;
    assert [] + chunks == chunks;
  }

  /** While `out_offs` is 0, as it is until the first eviction, the read after a granted seek starts at the named
      byte of the named command. */
  lemma UnrotatedSeek(log: Log, cap: nat, cmd: nat, offset: nat, pos: nat, count: nat)
    requires cap > 0 && Oldest(|log.commands|, cap) == 0
    requires Encode(SlotLengths(log, cap), cmd, offset) == Some(pos)
    ensures var commands := Recent(log, cap);
            && cmd < |commands| && offset < |commands[cmd]|
            && ReadAt(commands, pos, count) == commands[cmd][offset..Min(offset + count, |commands[cmd]|)]
  {
    var commands := Recent(log, cap);
    assert SlotLengths(log, cap)[..cmd] == Lengths(commands)[..cmd];
    EncodedReadsBack(commands, cmd, offset, pos, count);
  }

  lemma {:induction false} SumZeros(n: nat)
    ensures Sum(seq(n, _ => 0)) == 0
  {
    if n > 0 {
      assert seq(n, _ => 0)[1..] == seq(n - 1, _ => 0);
      SumZeros(n - 1);
    }
  }

  /** The slots hold what is readable, so a granted seek stays below its end. */
  lemma SlotTotal(log: Log, cap: nat)
    requires cap > 0
    ensures Sum(SlotLengths(log, cap)) == |Readable(log, cap)|
  {
    var sizes, first := Lengths(Recent(log, cap)), Oldest(|log.commands|, cap);
    LengthOfFlatten(Recent(log, cap));
    if |log.commands| < cap {
      assert SlotLengths(log, cap) == sizes + seq(cap - |sizes|, _ => 0);
      SumConcat(sizes, seq(cap - |sizes|, _ => 0));
      SumZeros(cap - |sizes|);
    } else {
      var front, tail := sizes[..cap - first], sizes[cap - first..];
      assert SlotLengths(log, cap) == tail + front && sizes == front + tail;
      SumConcat(tail, front);
      SumConcat(front, tail);
    }
  }

  /** What a seek by slot rejects: slots not in use and offsets past the slot's command. */
  lemma SlotSeekRejects(log: Log, cap: nat, cmd: nat, offset: nat)
    requires cap > 0 && WellFormed(log)
    ensures Encode(SlotLengths(log, cap), cmd, offset) == None
       <==> cmd >= |Recent(log, cap)| || offset >= SlotLengths(log, cap)[cmd]
    ensures cmd < |Recent(log, cap)| ==> SlotLengths(log, cap)[cmd] > 0
  {
  }

  // ---------------------------------------------------------------- eviction

  /** Between two states of one log the evicted bytes are the same exactly when the evicted commands are. */
  lemma SameEvictedIff(log: Log, log': Log, cap: nat)
    requires log.commands <= log'.commands && WellFormed(log')
    ensures Evicted(log, cap) == Evicted(log', cap) <==> |log'.commands| <= cap || log'.commands == log.commands
  {
    var n, n' := |log.commands|, |log'.commands|;
    var lo, lo' := Lo(n, cap), Lo(n', cap);
    var gone, more := log'.commands[..lo], log'.commands[lo..lo'];
    assert log.commands[..lo] == gone && log'.commands[..lo'] == gone + more;
    FlattenConcat(gone, more);
    if lo < lo' {
      assert more == [more[0]] + more[1..];
      assert HasNewline(log'.commands[lo]) && more[0] == log'.commands[lo];
      assert |Flatten(more)| > 0;
    } else {
      assert more == [];
    }
    if n == n' {
      assert log'.commands == log.commands;
    }
  }

  /** All commands are the evicted ones followed by the readable ones. */
  lemma EvictedThenReadable(log: Log, cap: nat)
    ensures |Flatten(log.commands)| == Evicted(log, cap) + |Readable(log, cap)|
    ensures Flatten(log.commands)[Evicted(log, cap)..] == Readable(log, cap)
  {
    var lo := Lo(|log.commands|, cap);
    assert log.commands == log.commands[..lo] + log.commands[lo..];
    FlattenConcat(log.commands[..lo], log.commands[lo..]);
  }

  /** How a write moves the readable string: it grows at the end, and if a command is evicted
      every remaining byte moves down by exactly that command's length. */
  lemma WriteMovesReadable(log: Log, data: Bytes, cap: nat)
    requires WellFormed(log) && cap > 0
    ensures var log' := Append(log, data);
            var grown := if HasNewline(data) then log.cache + data else [];
            var dropped := if HasNewline(data) && |log.commands| >= cap then |Recent(log, cap)[0]| else 0;
            && (HasNewline(data) && |log.commands| >= cap ==> dropped > 0)
            && dropped <= |Readable(log, cap)|
            && Readable(log', cap) == Readable(log, cap)[dropped..] + grown
            && Evicted(log', cap) == Evicted(log, cap) + dropped
            && Flatten(log'.commands) == Flatten(log.commands) + grown
  {
    AppendKeeps(log, data);
    var n, whole := |log.commands|, log.cache + data;
    if !HasNewline(data) {
      assert Flatten(log.commands) + [] == Flatten(log.commands);
    } else if n < cap {
      FlattenSnoc(log.commands, whole);
      hide Flatten, HasNewline;
      assert log.commands[0..] == log.commands && (log.commands + [whole])[0..] == log.commands + [whole];
      assert log.commands[..0] == [] && (log.commands + [whole])[..0] == [];
    } else {
      FlattenSnoc(log.commands, whole);
      EvictMoves(log.commands, whole, n - cap);
      assert HasNewline(log.commands[n - cap]);
      hide Flatten, HasNewline;
    }
  }

  /** Nothing is evicted without something new to read. */
  lemma WriteGrows(log: Log, data: Bytes, cap: nat)
    requires cap > 0 && WellFormed(log)
    ensures var log', all := Append(log, data), Flatten(log.commands);
            && WellFormed(log') && all <= Flatten(log'.commands)
            && Evicted(log, cap) <= Evicted(log', cap) <= |Flatten(log'.commands)|
            && (Evicted(log', cap) == Evicted(log, cap) || |all| < |Flatten(log'.commands)|)
  {
    AppendKeeps(log, data);
    WriteMovesReadable(log, data, cap);
    EvictedThenReadable(Append(log, data), cap);
    assert HasNewline(data) ==> log.cache + data != [];
    hide Append, Flatten, Evicted, Readable, Recent, HasNewline, WellFormed;
  }

  lemma EvictMoves(commands: seq<Bytes>, whole: Bytes, lo: nat)
    requires lo < |commands|
    ensures var oldest, commands' := commands[lo], commands + [whole];
            && |oldest| <= |Flatten(commands[lo..])|
            && Flatten(commands'[lo + 1..]) == Flatten(commands[lo..])[|oldest|..] + whole
            && |Flatten(commands'[..lo + 1])| == |Flatten(commands[..lo])| + |oldest|
  {
    var oldest, rest := commands[lo], commands[lo + 1..];
    assert (commands + [whole])[lo + 1..] == rest + [whole];
    FlattenSnoc(rest, whole);
    assert (commands + [whole])[..lo + 1] == commands[..lo] + [oldest];
    FlattenSnoc(commands[..lo], oldest);
    assert Flatten(commands[lo..]) == oldest + Flatten(rest);
  }
}
