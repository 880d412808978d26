/** One reader among any writers, over whole runs. */
module ReaderRuns {
  import opened ByteStrings
  import opened Positions
  import opened CommandLog
  import opened Driver

  /** The file operations: writes by anyone, and what the reader does. */
  datatype Op =
    | Write(buf: Bytes, fault: Fault)
    | Read(count: nat)
    | Llseek(off: int, whence: int)
    | SeekTo(cmd: nat, offset: nat)

  /** What a reader is given between two seeks: `got`, and `origin`, where in the stream of all commands each
      of those bytes stands. It began at `start` of that stream when `lost` bytes had been evicted; by its end
      `gone` had. */
  datatype Stretch = Stretch(start: nat, lost: nat, gone: nat, got: Bytes, origin: seq<nat>)

  datatype Session = Session(log: Log, pos: nat, now: Stretch, past: seq<Stretch>)

  /** Where in the stream of all commands a file position points. */
  function Place(cap: nat, log: Log, pos: nat): nat {
    Evicted(log, cap) + pos
  }

  function Begin(cap: nat, log: Log, pos: nat, past: seq<Stretch>): Session {
    var lost := Evicted(log, cap);
    Session(log, pos, Stretch(Place(cap, log, pos), lost, lost, [], []), past)
  }

  /** Where a request for a new position leads, when it is granted. */
  function Target(cap: nat, log: Log, pos: nat, op: Op): Option<nat>
    requires cap > 0
  {
    match op
    case Llseek(off, whence) => FixedSizeLlseek(pos, off, whence, |Readable(log, cap)|)
    case SeekTo(cmd, offset) => Encode(SlotLengths(log, cap), cmd, offset)
    case _ => None
  }

  function Step(cap: nat, s: Session, op: Op): Session
    requires cap > 0
  {
    match op
    case Write(buf, fault) =>
      var log := WriteOne(s.log, buf, fault);
      s.(log := log, now := s.now.(gone := Evicted(log, cap)))
    case Read(count) =>
      var data := ReadAt(Recent(s.log, cap), s.pos, count);
      var origin := s.now.origin + Count(Place(cap, s.log, s.pos), |data|);
      s.(pos := s.pos + |data|, now := s.now.(got := s.now.got + data, origin := origin))
    case _ =>
      match Target(cap, s.log, s.pos, op)
      case None => s
      case Some(pos) => Begin(cap, s.log, pos, s.past + [s.now])
  }

  function Run(cap: nat, s: Session, ops: seq<Op>): Session
    requires cap > 0
  {
    if ops == [] then s else Step(cap, Run(cap, s, ops[..|ops| - 1]), ops[|ops| - 1])
  }

  /** All the reader was ever given. */
  function Delivered(s: Session): Bytes {
    Flatten(Gots(s.past)) + s.now.got
  }

  function Gots(past: seq<Stretch>): seq<Bytes> {
    seq(|past|, k requires 0 <= k < |past| => past[k].got)
  }

  function Count(base: nat, n: nat): seq<nat> {
    seq(n, k requires 0 <= k => base + k)
  }

  /** `t.got` is an in-order selection from `all`, standing at `t.origin`, in which no byte is further ahead of
      those before it than bytes were evicted meanwhile. */
  ghost predicate Selected(all: Bytes, t: Stretch) {
    && t.lost <= t.gone
    && |t.origin| == |t.got|
    && (forall i, j :: 0 <= i < j < |t.origin| ==> t.origin[i] < t.origin[j])
    && (forall i :: 0 <= i < |t.origin| ==> t.start + i <= t.origin[i] <= t.start + i + (t.gone - t.lost))
    && (forall i :: 0 <= i < |t.origin| ==> t.origin[i] < |all| && t.got[i] == all[t.origin[i]])
  }

  /** The stretch ends before `place`, having left out as many bytes as were evicted. */
  ghost predicate Reaches(t: Stretch, place: nat) {
    place == t.start + |t.got| + (t.gone - t.lost)
  }

  /** The stretch was read while between `first` and `last` bytes had been evicted. */
  ghost predicate Within(t: Stretch, first: nat, last: nat) {
    first <= t.lost && t.gone <= last
  }

  ghost predicate AllSelected(all: Bytes, past: seq<Stretch>, first: nat, last: nat) {
    forall k :: 0 <= k < |past| ==> Selected(all, past[k]) && Within(past[k], first, last)
  }

  /** What holds of a session that began when `first` bytes had been evicted. */
  ghost predicate Faithful(cap: nat, s: Session, first: nat) {
    var all, gone := Flatten(s.log.commands), Evicted(s.log, cap);
    && WellFormed(s.log)
    && s.now.gone == gone && Selected(all, s.now) && Within(s.now, first, gone)
    && Reaches(s.now, Place(cap, s.log, s.pos))
    && AllSelected(all, s.past, first, gone)
  }

  lemma BeginsFaithful(cap: nat, log: Log, pos: nat)
    requires WellFormed(log)
    ensures Faithful(cap, Begin(cap, log, pos, []), Evicted(log, cap))
  {
    hide Evicted, Flatten;
  }

  // ---------------------------------------------------------------- each operation

  lemma SelectMore(all: Bytes, t: Stretch, place: nat, data: Bytes)
    requires Selected(all, t) && Reaches(t, place)
    requires data != [] ==> place + |data| <= |all| && data == all[place..place + |data|]
    ensures var t' := t.(got := t.got + data, origin := t.origin + Count(place, |data|));
            Selected(all, t') && Reaches(t', place + |data|)
  {
  }

  lemma SelectGrown(all: Bytes, all': Bytes, t: Stretch, gone: nat)
    requires Selected(all, t) && all <= all' && t.gone <= gone
    ensures Selected(all', t.(gone := gone))
  {
  }

  lemma AllSelectedGrown(all: Bytes, all': Bytes, past: seq<Stretch>, first: nat, last: nat, last': nat)
    requires AllSelected(all, past, first, last) && all <= all' && last <= last'
    ensures AllSelected(all', past, first, last')
  {
    forall k | 0 <= k < |past| ensures Selected(all', past[k]) && Within(past[k], first, last') {
      SelectGrown(all, all', past[k], past[k].gone);
      assert past[k].(gone := past[k].gone) == past[k];
    }
  }

  lemma WriteOneGrows(log: Log, buf: Bytes, fault: Fault, cap: nat)
    requires cap > 0 && WellFormed(log)
    ensures var log' := WriteOne(log, buf, fault);
            WellFormed(log') && Flatten(log.commands) <= Flatten(log'.commands) && Evicted(log, cap) <= Evicted(log', cap)
  {
    if Taken(buf, fault).Some? {
      WriteGrows(log, buf[..Taken(buf, fault).value], cap);
    }
    hide WellFormed, Flatten, Evicted, Append;
  }

  lemma WriteStaysFaithful(cap: nat, s: Session, buf: Bytes, fault: Fault, first: nat)
    requires cap > 0 && Faithful(cap, s, first)
    ensures Faithful(cap, Step(cap, s, Write(buf, fault)), first)
  {
    WriteOneGrows(s.log, buf, fault, cap);
    hide WriteOne, Flatten, Evicted, WellFormed, Selected, AllSelected;
    var log' := WriteOne(s.log, buf, fault);
    var all, all' := Flatten(s.log.commands), Flatten(log'.commands);
    var gone, gone' := Evicted(s.log, cap), Evicted(log', cap);
    SelectGrown(all, all', s.now, gone');
    AllSelectedGrown(all, all', s.past, first, gone, gone');
  }

  /** A read seen from the stream of all commands. */
  lemma ReadInLog(log: Log, cap: nat, pos: nat, count: nat)
    ensures var all, data, place := Flatten(log.commands), ReadAt(Recent(log, cap), pos, count), Place(cap, log, pos);
            data != [] ==> place + |data| <= |all| && data == all[place..place + |data|]
  {
    ReadAtIsSlice(Recent(log, cap), pos, count);
    EvictedThenReadable(log, cap);
    hide Flatten, Evicted, Recent, ReadAt;
    var all, data := Flatten(log.commands), ReadAt(Recent(log, cap), pos, count);
    if data != [] {
      SliceOfSlice(all, Evicted(log, cap), |all|, pos, pos + |data|);
    }
  }

  lemma ReadStaysFaithful(cap: nat, s: Session, count: nat, first: nat)
    requires cap > 0 && Faithful(cap, s, first)
    ensures Faithful(cap, Step(cap, s, Read(count)), first)
  {
    ReadInLog(s.log, cap, s.pos, count);
    hide Flatten, Evicted, Recent, WellFormed, ReadAt, Selected, AllSelected;
    SelectMore(Flatten(s.log.commands), s.now, Place(cap, s.log, s.pos), ReadAt(Recent(s.log, cap), s.pos, count));
  }

  /** A read gives the reader what follows its position, at most as much as asked for, and nothing only at the end
      or when nothing is asked for; it goes on from there and changes nothing else. */
  lemma ReadDelivers(cap: nat, s: Session, count: nat)
    requires cap > 0
    ensures var s', rest := Step(cap, s, Read(count)), From(Readable(s.log, cap), s.pos);
            && s.now.got <= s'.now.got
            && var data := s'.now.got[|s.now.got|..];
            && data <= rest && |data| <= count && (data == [] <==> rest == [] || count == 0)
            && s'.pos == s.pos + |data| && s'.log == s.log && s'.past == s.past && s'.now.start == s.now.start
  {
    ReadAdvances(Recent(s.log, cap), s.pos, count);
    hide ReadAt, Recent, Flatten, From;
    var data := ReadAt(Recent(s.log, cap), s.pos, count);
    assert Step(cap, s, Read(count)).now.got[|s.now.got|..] == data;
  }

  lemma SeekStaysFaithful(cap: nat, s: Session, op: Op, first: nat)
    requires cap > 0 && (op.Llseek? || op.SeekTo?) && Faithful(cap, s, first)
    ensures Faithful(cap, Step(cap, s, op), first)
  {
    hide Flatten, Evicted, WellFormed, Target;
  }

  /** A granted seek puts the reader at the target and begins a new stretch there, beside the old ones; a refused one
      changes nothing. A `SeekTo` is granted exactly for the bytes in the slots, to a place inside. */
  lemma SeekGoes(cap: nat, s: Session, op: Op)
    requires cap > 0 && (op.Llseek? || op.SeekTo?)
    ensures var s', target := Step(cap, s, op), Target(cap, s.log, s.pos, op);
            s'.log == s.log && if target == None then s' == s
                               else && s'.pos == target.value && s'.past == s.past + [s.now] && s'.now.got == []
                                    && s'.now.start == Evicted(s.log, cap) + s'.pos
    ensures op.SeekTo? ==> var slots, target := SlotLengths(s.log, cap), Target(cap, s.log, s.pos, op);
              && (target.Some? <==> op.cmd < cap && op.offset < slots[op.cmd])
              && (target.Some? ==> target.value < |Readable(s.log, cap)|)
  {
    if op.SeekTo? {
      SlotTotal(s.log, cap);
      EncodeBelowTotal(SlotLengths(s.log, cap), op.cmd, op.offset);
    }
    hide Evicted, Readable, Sum, FixedSizeLlseek;
  }

  // ---------------------------------------------------------------- whole runs

  lemma StepStaysFaithful(cap: nat, s: Session, op: Op, first: nat)
    requires cap > 0 && Faithful(cap, s, first)
    ensures Faithful(cap, Step(cap, s, op), first)
  {
    hide Faithful, Step;
    match op
    case Write(buf, fault) => WriteStaysFaithful(cap, s, buf, fault, first);
    case Read(count) => ReadStaysFaithful(cap, s, count, first);
    case _ => SeekStaysFaithful(cap, s, op, first);
  }

  /** Over every run, whatever is evicted meanwhile and wherever the reader seeks: between two seeks each byte
      delivered is a byte of the stream of all commands, in stream order and never twice, from the place
      sought on, and none is further ahead of the bytes delivered before it than bytes were evicted meanwhile. */
  lemma {:induction false} RunStaysFaithful(cap: nat, s: Session, ops: seq<Op>, first: nat)
    requires cap > 0 && Faithful(cap, s, first)
    ensures Faithful(cap, Run(cap, s, ops), first)
    decreases |ops|
  {
    hide Faithful, Step;
    if ops != [] {
      RunStaysFaithful(cap, s, ops[..|ops| - 1], first);
      StepStaysFaithful(cap, Run(cap, s, ops[..|ops| - 1]), ops[|ops| - 1], first);
    }
  }

  /** The bytes of one unbroken part of `all`, from `t.start` on. */
  ghost predicate Unbroken(all: Bytes, t: Stretch) {
    t.got != [] ==> t.start + |t.got| <= |all| && t.got == all[t.start..t.start + |t.got|]
  }

  lemma NoGap(all: Bytes, t: Stretch)
    requires Selected(all, t) && t.gone == t.lost
    ensures Unbroken(all, t)
  {
    assert forall i :: 0 <= i < |t.got| ==> t.origin[i] == t.start + i;
    if t.got != [] {
      assert t.origin[|t.got| - 1] == t.start + |t.got| - 1;
    }
  }

  /** A run that evicts nothing delivers, between any two seeks, one unbroken stretch of the command stream. */
  lemma NoEvictionNoGap(cap: nat, log: Log, pos: nat, ops: seq<Op>)
    requires cap > 0 && WellFormed(log)
    requires Evicted(Run(cap, Begin(cap, log, pos, []), ops).log, cap) == Evicted(log, cap)
    ensures var s := Run(cap, Begin(cap, log, pos, []), ops);
            var all := Flatten(s.log.commands);
            && Unbroken(all, s.now) && Place(cap, s.log, s.pos) == s.now.start + |s.now.got|
            && forall k :: 0 <= k < |s.past| ==> Unbroken(all, s.past[k])
  {
    BeginsFaithful(cap, log, pos);
    RunStaysFaithful(cap, Begin(cap, log, pos, []), ops, Evicted(log, cap));
    hide Run, Flatten, Evicted, WellFormed, Selected, Unbroken;
    var s := Run(cap, Begin(cap, log, pos, []), ops);
    var all := Flatten(s.log.commands);
    NoGap(all, s.now);
    forall k | 0 <= k < |s.past| ensures Unbroken(all, s.past[k]) {
      SelectedInOrder(all, s.past[k]);
      NoGap(all, s.past[k]);
    }
  }

  // ---------------------------------------------------------------- on the device

  lemma StepDelivers(cap: nat, s: Session, op: Op)
    requires cap > 0
    ensures Delivered(Step(cap, s, op))
            == Delivered(s) + if op.Read? then ReadAt(Recent(s.log, cap), s.pos, op.count) else []
  {
    hide Evicted, ReadAt, Recent, WriteOne, Target, Count;
    if (op.Llseek? || op.SeekTo?) && Target(cap, s.log, s.pos, op).Some? {
      assert Gots(s.past + [s.now]) == Gots(s.past) + [s.now.got];
      FlattenSnoc(Gots(s.past), s.now.got);
    }
    hide Flatten, Gots;
    assert Delivered(s) + [] == Delivered(s);
  }

  lemma RunStep(cap: nat, s: Session, ops: seq<Op>, i: nat)
    requires cap > 0 && i < |ops|
    ensures Run(cap, s, ops[..i + 1]) == Step(cap, Run(cap, s, ops[..i]), ops[i])
  {
    assert ops[..i + 1][..i] == ops[..i];
  }

  /** One operation, by the method of the device that the kernel calls for it. */
  method PerformOne(dev: Device, file: OpenFile, op: Op, ghost s: Session) returns (data: Bytes)
    requires dev.Valid() && dev.log == s.log && file.fPos == s.pos
    modifies dev, dev.ring, dev.ring.entry, file
    ensures dev.Valid()
    ensures var s' := Step(dev.ring.entry.Length, s, op); dev.log == s'.log && file.fPos == s'.pos
    ensures data == if op.Read? then ReadAt(Recent(s.log, dev.ring.entry.Length), s.pos, op.count) else []
  {
    hide Represented, WriteOne, Append, Encode, SlotLengths, FixedSizeLlseek, ReadAt, WellFormed, Readable, Recent, Evicted;
    data := [];
    match op
    case Write(buf, fault) => var _ := dev.Write(buf, fault);
    case Read(count) => data := dev.Read(file, count);
    case Llseek(off, whence) => var _ := dev.Llseek(file, off, whence);
    case SeekTo(cmd, offset) => var _ := dev.AdjustFileOffset(file, cmd, offset);
  }

  /** The session that a run of file operations on the device amounts to: its log, its position and all that was read. */
  method Perform(dev: Device, file: OpenFile, ops: seq<Op>) returns (got: Bytes)
    requires dev.Valid()
    modifies dev, dev.ring, dev.ring.entry, file
    ensures dev.Valid()
    ensures var s := Run(dev.ring.entry.Length, Begin(dev.ring.entry.Length, old(dev.log), old(file.fPos), []), ops);
            && dev.log == s.log && file.fPos == s.pos && got == Delivered(s)
            && Faithful(dev.ring.entry.Length, s, Evicted(old(dev.log), dev.ring.entry.Length))
  {
    BeginsFaithful(dev.ring.entry.Length, dev.log, file.fPos);
    got := [];
    ghost var s0 := Begin(dev.ring.entry.Length, dev.log, file.fPos, []);
    ghost var s := s0;
    assert dev.log == s.log && file.fPos == s.pos && got == Delivered(s);
    assert ops[..0] == [] && Run(dev.ring.entry.Length, s0, []) == s0;
    hide *;
    for i := 0 to |ops|
      invariant dev.Valid() && s == Run(dev.ring.entry.Length, s0, ops[..i])
      invariant dev.log == s.log && file.fPos == s.pos && got == Delivered(s)
    {
      RunStep(dev.ring.entry.Length, s0, ops, i);
      StepDelivers(dev.ring.entry.Length, s, ops[i]);
      var data := PerformOne(dev, file, ops[i], s);
      got := got + data;
      s := Step(dev.ring.entry.Length, s, ops[i]);
    }
    assert ops[..|ops|] == ops;
    RunStaysFaithful(dev.ring.entry.Length, s0, ops, Evicted(old(dev.log), dev.ring.entry.Length));
  }

  lemma SelectedInOrder(all: Bytes, t: Stretch)
    requires Selected(all, t)
    ensures t.lost <= t.gone
  {
  }
}
