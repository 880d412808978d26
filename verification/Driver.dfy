/** The character device of `main.c`: its ring, its cached entry and the kernel buffers it owns. */
module Driver {
  import opened ByteStrings
  import opened Positions
  import opened RingIndex
  import opened CircularBuffer
  import opened CommandLog

  const ENOMEM: int := 12
  const EINVAL: int := 22
  const SEEK_SET: int := 0
  const SEEK_CUR: int := 1
  const SEEK_END: int := 2

  /** Allocated buffers by address; the mapped string is the whole allocation. */
  type Heap = map<Ptr, Bytes>

  // ---------------------------------------------------------------- buffer ownership

  /** `entry` describes `bytes`: its allocation starts with exactly them. */
  ghost predicate Holds(heap: Heap, entry: Entry, bytes: Bytes) {
    entry.buffptr in heap && entry.size == |bytes| && bytes <= heap[entry.buffptr]
  }

  ghost function Owners(live: seq<Entry>, cached: Entry): set<Ptr> {
    (set i | 0 <= i < |live| :: live[i].buffptr) + if cached.buffptr == NULL then {} else {cached.buffptr}
  }

  /** The allocations are exactly the buffers of the live entries and of the cached one,
      no two owners share a buffer, and the buffers hold the commands and the cached bytes. */
  ghost predicate Owns(heap: Heap, live: seq<Entry>, cached: Entry, commands: seq<Bytes>, cache: Bytes) {
    && NULL !in heap
    && |live| == |commands|
    && (forall i :: 0 <= i < |live| ==> Holds(heap, live[i], commands[i]))
    && (forall i, j :: 0 <= i < j < |live| ==> live[i].buffptr != live[j].buffptr)
    && (forall i :: 0 <= i < |live| ==> live[i].buffptr != cached.buffptr)
    && (if cached.buffptr == NULL then cached.size == 0 && cache == [] else Holds(heap, cached, cache))
    && heap.Keys == Owners(live, cached)
  }

  /** One buffer per readable command and one for the cache, if it has one. */
  lemma {:induction false} BufferCount(heap: Heap, live: seq<Entry>, cached: Entry, commands: seq<Bytes>, cache: Bytes)
    requires Owns(heap, live, cached, commands, cache)
    ensures |heap| == |live| + if cached.buffptr == NULL then 0 else 1
  {
    if live == [] {
      assert heap.Keys == if cached.buffptr == NULL then {} else {cached.buffptr};
    } else {
      EvictOwns(heap, live, cached, commands, cache);
      BufferCount(heap - {live[0].buffptr}, live[1..], cached, commands[1..], cache);
      assert (heap - {live[0].buffptr}).Keys == heap.Keys - {live[0].buffptr};
    }
  }

  /** Releasing the oldest command's buffer. */
  lemma EvictOwns(heap: Heap, live: seq<Entry>, cached: Entry, commands: seq<Bytes>, cache: Bytes)
    requires live != [] && Owns(heap, live, cached, commands, cache)
    ensures live[0].buffptr in heap && live[0].buffptr != NULL
    ensures Owns(heap - {live[0].buffptr}, live[1..], cached, commands[1..], cache)
  {
    var heap' := heap - {live[0].buffptr};
    assert forall p :: p in Owners(live, cached) && p != live[0].buffptr ==> p in Owners(live[1..], cached) by {
      forall i | 1 <= i < |live| ensures live[i].buffptr in Owners(live[1..], cached) {
        assert live[1..][i - 1] == live[i];
      }
    }
    assert heap'.Keys == Owners(live[1..], cached);
  }

  /** The staged buffer becomes the newest command's. */
  lemma CommitOwns(heap: Heap, live: seq<Entry>, staged: Entry, commands: seq<Bytes>, whole: Bytes)
    requires staged.buffptr != NULL && Owns(heap, live, staged, commands, whole)
    ensures Owns(heap, live + [staged], EMPTY, commands + [whole], [])
  {
    var live' := live + [staged];
    assert live'[|live|] == staged;
    forall p | p in Owners(live, staged) ensures p in Owners(live', EMPTY) {
      if p != staged.buffptr {
        var i :| 0 <= i < |live| && p == live[i].buffptr;
        assert live'[i] == live[i];
      }
    }
    assert Owners(live', EMPTY) == Owners(live, staged);
  }

  /** A buffer taken from the allocator, fresh or grown from the cached one, replaces the cached one. */
  lemma StageOwns(heap: Heap, live: seq<Entry>, cached: Entry, commands: seq<Bytes>, cache: Bytes,
                  p: Ptr, contents: Bytes, whole: Bytes)
    requires Owns(heap, live, cached, commands, cache)
    requires p != NULL && (p !in heap || p == cached.buffptr) && whole <= contents
    ensures Owns((heap - {cached.buffptr})[p := contents], live, Entry(p, |whole|), commands, whole)
  {
    var heap' := (heap - {cached.buffptr})[p := contents];
    forall i | 0 <= i < |live| ensures Holds(heap', live[i], commands[i]) && live[i].buffptr != p {
      assert Holds(heap, live[i], commands[i]);
    }
    assert heap'.Keys == Owners(live, Entry(p, |whole|));
  }

  /** The device's memory holds `log` when the ring was given `added` in order: the window of commands
      and the cache own all buffers, and the releases so far were those of the evicted commands, in order. */
  ghost predicate Represented(added: seq<Entry>, cap: nat, heap: Heap, cached: Entry, log: Log, freed: seq<Ptr>) {
    && |added| == |log.commands|
    && Owns(heap, LiveOf(added, cap), cached, Recent(log, cap), log.cache)
    && freed == Ptrs(added[..Lo(|added|, cap)])
  }

  /** A commit while the ring has room. */
  lemma CommitRepresented(added: seq<Entry>, cap: nat, heap: Heap, staged: Entry, log: Log, freed: seq<Ptr>)
    requires |added| < cap && staged.buffptr != NULL
    requires Represented(added, cap, heap, staged, log, freed)
    ensures Represented(added + [staged], cap, heap, EMPTY, Log(log.commands + [log.cache], []), freed)
  {
    CommitOwns(heap, added[0..], staged, log.commands[0..], log.cache);
    hide Owns;
    assert added[0..] + [staged] == (added + [staged])[0..];
    assert log.commands[0..] + [log.cache] == (log.commands + [log.cache])[0..];
  }

  /** A commit into a full ring, with the release of the oldest command's buffer. */
  lemma EvictRepresented(added: seq<Entry>, cap: nat, heap: Heap, staged: Entry, log: Log, freed: seq<Ptr>)
    requires |added| >= cap > 0 && staged.buffptr != NULL
    requires Represented(added, cap, heap, staged, log, freed)
    ensures var p := LiveOf(added, cap)[0].buffptr;
            && p in heap && p != NULL
            && Represented(added + [staged], cap, heap - {p}, EMPTY, Log(log.commands + [log.cache], []), freed + [p])
  {
    var lo := |added| - cap;
    CommitOwns(heap, added[lo..], staged, log.commands[lo..], log.cache);
    EvictOwns(heap, added[lo..] + [staged], EMPTY, log.commands[lo..] + [log.cache], []);
    hide Owns;
    SlideWindow(added, staged, lo);
    SlideWindow(log.commands, log.cache, lo);
    PtrsSnoc(added[..lo], added[lo]);
  }

  lemma CacheHeld(added: seq<Entry>, cap: nat, heap: Heap, cached: Entry, log: Log, freed: seq<Ptr>)
    requires Represented(added, cap, heap, cached, log, freed)
    ensures NULL !in heap && cached.size == |log.cache|
    ensures cached.buffptr == NULL ==> log.cache == []
    ensures cached.buffptr != NULL ==> cached.buffptr in heap && log.cache <= heap[cached.buffptr]
  {
  }

  /** What readers need of the memory: live entries describe the readable commands. */
  lemma RepresentedEntries(added: seq<Entry>, cap: nat, heap: Heap, cached: Entry, log: Log, freed: seq<Ptr>)
    requires Represented(added, cap, heap, cached, log, freed)
    ensures var live, commands := LiveOf(added, cap), Recent(log, cap);
            && |live| == |commands| && Sizes(live) == Lengths(commands) == SeenSizes(live)
            && forall i :: 0 <= i < |live| ==> Holds(heap, live[i], commands[i])
  {
  }

  /** Where a read finds its bytes in memory. */
  lemma BytesOfEntry(heap: Heap, live: seq<Entry>, commands: seq<Bytes>, pos: nat, count: nat)
    requires |live| == |commands| && forall i :: 0 <= i < |live| ==> Holds(heap, live[i], commands[i])
    requires Locate(Lengths(commands), pos).Some?
    ensures var (i, offset) := Locate(Lengths(commands), pos).value;
            var end := Min(offset + count, live[i].size);
            && live[i].buffptr in heap && offset < live[i].size && end <= |heap[live[i].buffptr]|
            && heap[live[i].buffptr][offset..end] == ReadAt(commands, pos, count)
  {
  }

  /** What a position search over the live entries leads to. */
  lemma FoundBytes(added: seq<Entry>, cap: nat, heap: Heap, cached: Entry, log: Log, freed: seq<Ptr>, pos: nat, count: nat)
    requires Represented(added, cap, heap, cached, log, freed)
    ensures match Locate(SeenSizes(LiveOf(added, cap)), pos)
            case None => ReadAt(Recent(log, cap), pos, count) == []
            case Some((i, offset)) =>
              var e := LiveOf(added, cap)[i];
              && offset < e.size && e.buffptr in heap
              && var end := offset + if count > e.size - offset then e.size - offset else count;
                 end <= |heap[e.buffptr]| && heap[e.buffptr][offset..end] == ReadAt(Recent(log, cap), pos, count)
  {
    RepresentedEntries(added, cap, heap, cached, log, freed);
    hide Represented, LiveOf, Recent;
    var live, commands := LiveOf(added, cap), Recent(log, cap);
    if Locate(Lengths(commands), pos).Some? {
      BytesOfEntry(heap, live, commands, pos, count);
    }
  }

  /** A committed command is never empty. */
  lemma NonemptySlot(live: seq<Entry>, commands: seq<Bytes>)
    requires Sizes(live) == Lengths(commands)
    requires forall i :: 0 <= i < |commands| ==> HasNewline(commands[i])
    ensures forall i :: 0 <= i < |live| ==> live[i].size > 0
  {
    forall i | 0 <= i < |live| ensures live[i].size > 0 {
      assert live[i].size == Sizes(live)[i] == Lengths(commands)[i];
      assert HasNewline(commands[i]);
    }
  }

  /** The sizes in the slots: positive exactly in the first slots, as many as there are readable
      commands, and adding up to what is readable. */
  lemma SlotSizes(slots: seq<Entry>, inOffs: nat, outOffs: nat, full: bool, added: seq<Entry>,
                  heap: Heap, cached: Entry, log: Log, freed: seq<Ptr>)
    requires |slots| > 0 && Represents(slots, inOffs, outOffs, full, added)
    requires Represented(added, |slots|, heap, cached, log, freed) && WellFormed(log)
    ensures |Recent(log, |slots|)| <= |slots|
    ensures forall j :: 0 <= j < |slots| ==> (slots[j].size == 0 <==> j >= |Recent(log, |slots|)|)
    ensures forall j :: 0 <= j < |slots| ==> slots[j].size == SlotLengths(log, |slots|)[j]
    ensures |SlotLengths(log, |slots|)| == |slots| && Sum(SlotLengths(log, |slots|)) == |Readable(log, |slots|)|
  {
    var live, commands := LiveOf(added, |slots|), Recent(log, |slots|);
    RepresentedEntries(added, |slots|, heap, cached, log, freed);
    NonemptySlot(live, commands);
    SlotTotal(log, |slots|);
    forall j | 0 <= j < |slots|
      ensures slots[j].size == 0 <==> j >= |live|
      ensures slots[j].size == SlotLengths(log, |slots|)[j]
    {
      SlotsInUse(slots, inOffs, outOffs, full, added, j);
    }
  }

  /** The position of a byte named by slot, when there is such a byte. */
  lemma SlotPosition(slots: seq<Entry>, inOffs: nat, outOffs: nat, full: bool, added: seq<Entry>,
                     heap: Heap, cached: Entry, log: Log, freed: seq<Ptr>, slot: nat, offset: nat)
    requires |slots| > 0 && Represents(slots, inOffs, outOffs, full, added)
    requires Represented(added, |slots|, heap, cached, log, freed) && WellFormed(log)
    ensures if slot < |slots| && offset < slots[slot].size
            then var pos := Sum(Sizes(slots[..slot])) + offset;
                 Encode(SlotLengths(log, |slots|), slot, offset) == Some(pos) && pos < |Readable(log, |slots|)|
            else Encode(SlotLengths(log, |slots|), slot, offset) == None
  {
    SlotSizes(slots, inOffs, outOffs, full, added, heap, cached, log, freed);
    var sizes := SlotLengths(log, |slots|);
    EncodeBelowTotal(sizes, slot, offset);
    hide SlotLengths, Represents, Represented, Readable, WellFormed, Recent, Sum, Encode;
    assert Sizes(slots) == sizes;
    EncodeSizes(slots, slot, offset);
  }

  lemma EncodeSizes(slots: seq<Entry>, slot: nat, offset: nat)
    ensures Encode(Sizes(slots), slot, offset)
         == if slot < |slots| && offset < slots[slot].size then Some(Sum(Sizes(slots[..slot])) + offset) else None
  {
    if slot < |slots| {
      assert Sizes(slots)[..slot] == Sizes(slots[..slot]);
    }
  }

  lemma ShorterPrefix(a: Bytes, b: Bytes, long: nat, short: nat)
    requires short <= long <= |a| && long <= |b| && a[..long] == b[..long]
    ensures a[..short] == b[..short]
  {
  }

  /** A buffer holding the cached bytes and more takes the place of the cached one. */
  lemma StageRepresented(added: seq<Entry>, cap: nat, heap: Heap, cached: Entry, log: Log, freed: seq<Ptr>,
                         p: Ptr, contents: Bytes, whole: Bytes)
    requires Represented(added, cap, heap, cached, log, freed)
    requires p != NULL && (p !in heap || p == cached.buffptr) && whole <= contents
    ensures Represented(added, cap, (heap - {cached.buffptr})[p := contents], Entry(p, |whole|), Log(log.commands, whole), freed)
  {
    StageOwns(heap, LiveOf(added, cap), cached, Recent(log, cap), log.cache, p, contents, whole);
  }

  lemma SlideWindow<T>(s: seq<T>, x: T, lo: nat)
    requires lo < |s|
    ensures (s[lo..] + [x])[1..] == (s + [x])[lo + 1..]
    ensures (s + [x])[..lo + 1] == s[..lo] + [s[lo]]
  {
  }

  lemma PtrsConcat(a: seq<Entry>, b: seq<Entry>)
    ensures Ptrs(a + b) == Ptrs(a) + Ptrs(b)
  {
  }

  lemma PtrsSnoc(entries: seq<Entry>, entry: Entry)
    ensures Ptrs(entries + [entry]) == Ptrs(entries) + [entry.buffptr]
  {
  }

  lemma FreshPtr(used: set<Ptr>) returns (bound: Ptr)
    ensures bound != NULL && forall p :: p in used ==> p < bound
  {
    bound := 1;
    var rest := used;
    while rest != {}
      invariant bound != NULL && forall p :: p in used && p !in rest ==> p < bound
    {
      var p :| p in rest;
      bound, rest := if p < bound then bound else p + 1, rest - {p};
    }
  }

  // ---------------------------------------------------------------- releasing every slot

  /** The buffers of the slots that have one, in slot order. */
  ghost function Allocated(slots: seq<Entry>): seq<Ptr> {
    if slots == [] then []
    else Allocated(slots[..|slots| - 1]) + if slots[|slots| - 1].buffptr == NULL then [] else [slots[|slots| - 1].buffptr]
  }

  lemma {:induction false} AllocatedOf(used: seq<Entry>, unused: seq<Entry>)
    requires forall i :: 0 <= i < |used| ==> used[i].buffptr != NULL
    requires forall i :: 0 <= i < |unused| ==> unused[i].buffptr == NULL
    ensures Allocated(used + unused) == Ptrs(used)
    decreases |used| + |unused|
  {
    var all := used + unused;
    if unused != [] {
      assert all[..|all| - 1] == used + unused[..|unused| - 1];
      AllocatedOf(used, unused[..|unused| - 1]);
    } else if used != [] {
      assert all[..|all| - 1] == used[..|used| - 1] + [];
      AllocatedOf(used[..|used| - 1], []);
      PtrsSnoc(used[..|used| - 1], used[|used| - 1]);
      assert used[..|used| - 1] + [used[|used| - 1]] == used;
    }
  }

  /** What is allocated beside the cached buffer, and what was released before. */
  lemma LiveThenCached(added: seq<Entry>, cap: nat, heap: Heap, cached: Entry, log: Log, freed: seq<Ptr>)
    requires Represented(added, cap, heap, cached, log, freed)
    ensures var live := LiveOf(added, cap);
            && multiset(freed) + multiset(Ptrs(live)) == multiset(Ptrs(added))
            && NULL !in heap
            && (forall p :: p in heap && p !in Ptrs(live) <==> p == cached.buffptr != NULL)
  {
    var lo, live := Lo(|added|, cap), LiveOf(added, cap);
    assert Ptrs(added) == Ptrs(added[..lo]) + Ptrs(live);
    forall p | p in Ptrs(live) ensures p in heap && p != cached.buffptr {
      var i :| 0 <= i < |live| && Ptrs(live)[i] == p;
      assert Holds(heap, live[i], Recent(log, cap)[i]);
    }
    assert forall i :: 0 <= i < |live| ==> live[i].buffptr == Ptrs(live)[i];
  }

  /** Walking the slots in physical order meets each live buffer once. */
  lemma SlotBuffers(slots: seq<Entry>, live: seq<Entry>, outOffs: nat, full: bool)
    requires if full then |live| == |slots| > outOffs && slots == live[|slots| - outOffs..] + live[..|slots| - outOffs]
             else |live| <= |slots| && slots == live + seq(|slots| - |live|, _ => EMPTY)
    requires forall i :: 0 <= i < |live| ==> live[i].buffptr != NULL
    ensures multiset(Allocated(slots)) == multiset(Ptrs(live))
    ensures forall p :: p != NULL ==> (p in Ptrs(slots) <==> p in Ptrs(live))
  {
    hide *;
    if full {
      RotatedBuffers(live, |slots| - outOffs);
    } else {
      PaddedBuffers(live, |slots| - |live|);
    }
  }

  lemma PaddedBuffers(live: seq<Entry>, k: nat)
    requires forall i :: 0 <= i < |live| ==> live[i].buffptr != NULL
    ensures Allocated(live + seq(k, _ => EMPTY)) == Ptrs(live)
    ensures forall p :: p != NULL ==> (p in Ptrs(live + seq(k, _ => EMPTY)) <==> p in Ptrs(live))
  {
    AllocatedOf(live, seq(k, _ => EMPTY));
    PtrsConcat(live, seq(k, _ => EMPTY));
  }

  lemma RotatedBuffers(live: seq<Entry>, k: nat)
    requires k <= |live| && forall i :: 0 <= i < |live| ==> live[i].buffptr != NULL
    ensures multiset(Allocated(live[k..] + live[..k])) == multiset(Ptrs(live))
    ensures forall p :: p in Ptrs(live[k..] + live[..k]) <==> p in Ptrs(live)
  {
    var tail, front := live[k..], live[..k];
    AllocatedOf(tail + front, []);
    assert tail + front + [] == tail + front;
    PtrsConcat(tail, front);
    PtrsConcat(front, tail);
    assert front + tail == live;
  }

  /** No two slots share a buffer, and every buffer in a slot is allocated. */
  ghost predicate OwnBuffers(slots: seq<Entry>, heap: Heap) {
    && NULL !in heap
    && (forall j :: 0 <= j < |slots| && slots[j].buffptr != NULL ==> slots[j].buffptr in heap)
    && (forall j, k :: 0 <= j < k < |slots| && slots[j].buffptr != NULL ==> slots[j].buffptr != slots[k].buffptr)
  }

  lemma SlotsOwnBuffers(slots: seq<Entry>, inOffs: nat, outOffs: nat, full: bool, added: seq<Entry>,
                        heap: Heap, cached: Entry, log: Log, freed: seq<Ptr>)
    requires |slots| > 0 && Represents(slots, inOffs, outOffs, full, added)
    requires Represented(added, |slots|, heap, cached, log, freed)
    ensures OwnBuffers(slots, heap)
  {
    RepresentedEntries(added, |slots|, heap, cached, log, freed);
    hide Represents;
    forall j | 0 <= j < |slots| && slots[j].buffptr != NULL ensures slots[j].buffptr in heap {
      SlotsInUse(slots, inOffs, outOffs, full, added, j);
    }
    forall j, k | 0 <= j < k < |slots| && slots[j].buffptr != NULL ensures slots[j].buffptr != slots[k].buffptr {
      SlotsInUse(slots, inOffs, outOffs, full, added, j);
      SlotsInUse(slots, inOffs, outOffs, full, added, k);
    }
  }

  /** The buffers of `done` have been released, in order and no others. */
  ghost predicate ReleasedUpTo(done: seq<Entry>, before: Heap, heap: Heap, released: seq<Ptr>, freed: seq<Ptr>) {
    && freed == released + Allocated(done)
    && forall p :: p in heap <==> p in before && p !in Ptrs(done)
  }

  lemma ReleaseStep(slots: seq<Entry>, k: nat, before: Heap, heap: Heap, released: seq<Ptr>, freed: seq<Ptr>)
    requires k < |slots| && OwnBuffers(slots, before) && ReleasedUpTo(slots[..k], before, heap, released, freed)
    ensures var p := slots[k].buffptr;
            if p == NULL then ReleasedUpTo(slots[..k + 1], before, heap, released, freed)
            else p in heap && ReleasedUpTo(slots[..k + 1], before, heap - {p}, released, freed + [p])
  {
    assert slots[..k + 1] == slots[..k] + [slots[k]];
    assert slots[..k + 1][..k] == slots[..k];
    PtrsSnoc(slots[..k], slots[k]);
  }

  /** Once every slot has been visited, each command ever added has been released exactly once
      and only the cached buffer is left. */
  lemma AllReleased(slots: seq<Entry>, inOffs: nat, outOffs: nat, full: bool, added: seq<Entry>,
                    before: Heap, cached: Entry, log: Log, released: seq<Ptr>, heap: Heap, freed: seq<Ptr>)
    requires |slots| > 0 && Represents(slots, inOffs, outOffs, full, added)
    requires Represented(added, |slots|, before, cached, log, released)
    requires ReleasedUpTo(slots, before, heap, released, freed)
    ensures multiset(freed) == multiset(Ptrs(added))
    ensures heap.Keys == if cached.buffptr == NULL then {} else {cached.buffptr}
  {
    RepresentedEntries(added, |slots|, before, cached, log, released);
    PhysicalOrder(slots, inOffs, outOffs, full, added);
    SlotBuffers(slots, LiveOf(added, |slots|), outOffs, full);
    LiveThenCached(added, |slots|, before, cached, log, released);
    assert freed == released + Allocated(slots);
    assert forall p :: p in heap <==> p in before && p !in Ptrs(slots);
    hide *;
  }

  // ---------------------------------------------------------------- seeking

  /** The kernel's `fixed_size_llseek`: the resulting position must lie in [0, size],
      except that asking for the current position is always granted. */
  function FixedSizeLlseek(pos: nat, off: int, whence: int, size: nat): Option<nat> {
    if whence == SEEK_CUR && off == 0 then Some(pos)
    else
      var target := if whence == SEEK_CUR then pos + off else if whence == SEEK_END then size + off else off;
      if whence in {SEEK_SET, SEEK_CUR, SEEK_END} && 0 <= target <= size then Some(target) else None
  }

  // ---------------------------------------------------------------- the device

  class OpenFile {
    var fPos: nat
    constructor ()
      ensures fPos == 0
    {
      fPos := 0;
    }
  }

  class Device {
    const ring: Ring
    var heap: Heap
    var cached: Entry
    ghost var log: Log
    ghost var freed: seq<Ptr>  // the argument of every kfree, in order

    ghost predicate Valid()
      reads this, ring, ring.entry
    {
      && ring.Valid()
      && WellFormed(log)
      && Represented(ring.added, ring.entry.Length, heap, cached, log, freed)
    }

    /** The readable commands, oldest first. */
    ghost function Commands(): seq<Bytes>
      reads this
    {
      Recent(log, ring.entry.Length)
    }

    /** `aesd_init_module`, the part that concerns the device structure. */
    constructor (cap: nat)
      requires 1 <= cap <= 255
      ensures Valid() && fresh(ring) && fresh(ring.entry) && ring.entry.Length == cap
      ensures log == EMPTY_LOG && heap == map[] && freed == []
    {
      ring := new Ring(cap);
      heap, cached, log, freed := map[], EMPTY, EMPTY_LOG, [];
    }

    // -------------------------------------------------------------- kernel services

    /** Fails or returns a new buffer with arbitrary contents. */
    method Kmalloc(size: nat, fails: bool) returns (p: Ptr)
      requires NULL !in heap
      modifies this`heap
      ensures p == NULL <==> fails
      ensures p == NULL ==> heap == old(heap)
      ensures p != NULL ==> p !in old(heap) && p in heap && |heap[p]| == size && heap == old(heap)[p := heap[p]]
    {
      if fails {
        p := NULL;
      } else {
        ghost var bound := FreshPtr(heap.Keys);
        assert bound != NULL && bound !in heap;
        p :| p != NULL && p !in heap;
        heap := heap[p := seq(size, _ => 0)];
      }
    }

    /** Fails and leaves everything alone, or moves or resizes the buffer keeping what fits. */
    method Krealloc(oldPtr: Ptr, size: nat, fails: bool) returns (p: Ptr)
      requires NULL !in heap && oldPtr in heap
      modifies this`heap
      ensures p == NULL <==> fails
      ensures p == NULL ==> heap == old(heap)
      ensures p != NULL ==>
                && (p == oldPtr || p !in old(heap)) && p in heap && |heap[p]| == size
                && heap == (old(heap) - {oldPtr})[p := heap[p]]
                && var kept := Min(size, |old(heap)[oldPtr]|); heap[p][..kept] == old(heap)[oldPtr][..kept]
    {
      if fails {
        p := NULL;
      } else {
        var kept := Min(size, |heap[oldPtr]|);
        var contents := heap[oldPtr][..kept] + seq(size - kept, _ => 0);
        ghost var bound := FreshPtr(heap.Keys);
        assert bound != NULL && bound !in heap;
        p :| p != NULL && (p == oldPtr || p !in heap);
        heap := (heap - {oldPtr})[p := contents];
      }
    }

    method Kfree(p: Ptr)
      requires p in heap
      modifies this`heap, this`freed
      ensures heap == old(heap) - {p} && freed == old(freed) + [p]
    {
      heap := heap - {p};
      freed := freed + [p];
    }

    /** Copies all of `buf` but the last `uncopied` bytes, where the user memory faults. */
    method CopyFromUser(dst: Ptr, offset: nat, buf: Bytes, uncopied: nat) returns (notCopied: nat)
      requires dst in heap && offset + |buf| <= |heap[dst]|
      modifies this`heap
      ensures notCopied == Min(uncopied, |buf|)
      ensures heap.Keys == old(heap).Keys && heap == old(heap)[dst := heap[dst]]
      ensures |heap[dst]| == |old(heap)[dst]|
      ensures heap[dst][..offset + |buf| - notCopied] == old(heap)[dst][..offset] + buf[..|buf| - notCopied]
    {
      notCopied := if uncopied < |buf| then uncopied else |buf|;
      var copied := buf[..|buf| - notCopied];
      heap := heap[dst := heap[dst][..offset] + copied + heap[dst][offset + |copied|..]];
    }

    // -------------------------------------------------------------- file operations

    /** The allocation and copy of `aesd_write`: the cached bytes and the accepted ones side by side. */
    method Stage(buf: Bytes, fault: Fault) returns (tempBuf: Ptr, tempBufSize: nat, notCopied: nat)
      requires buf != [] && Represented(ring.added, ring.entry.Length, heap, cached, log, freed)
      modifies this`heap
      ensures tempBuf == NULL <==> fault.allocFails
      ensures notCopied == if fault.allocFails then 0 else Min(fault.uncopied, |buf|)
      ensures tempBuf == NULL ==> heap == old(heap)
      ensures tempBuf != NULL ==>
                && var whole := log.cache + buf[..|buf| - notCopied];
                && tempBufSize == |whole| && tempBuf in heap && tempBufSize <= |heap[tempBuf]| && whole == heap[tempBuf][..tempBufSize]
                && Represented(ring.added, ring.entry.Length, heap, Entry(tempBuf, tempBufSize), Log(log.commands, whole), freed)
    {
      CacheHeld(ring.added, ring.entry.Length, heap, cached, log, freed);
      hide *;
      notCopied := 0;
      tempBufSize := |buf|;
      var tempBufWriteOffset := 0;
      if cached.buffptr != NULL {
        tempBufWriteOffset := cached.size;
        tempBufSize := tempBufSize + tempBufWriteOffset;
        tempBuf := Krealloc(cached.buffptr, tempBufSize, fault.allocFails);
        if tempBuf != NULL {
          ShorterPrefix(heap[tempBuf], old(heap)[cached.buffptr], Min(tempBufSize, |old(heap)[cached.buffptr]|), tempBufWriteOffset);
        }
      } else {
        tempBuf := Kmalloc(tempBufSize, fault.allocFails);
      }
      if tempBuf == NULL {
        return;
      }
      assert heap[tempBuf][..tempBufWriteOffset] == log.cache;
      notCopied := CopyFromUser(tempBuf, tempBufWriteOffset, buf, fault.uncopied);
      tempBufSize := tempBufSize - notCopied;
      ghost var whole := log.cache + buf[..|buf| - notCopied];
      assert heap[tempBuf][..tempBufSize] == whole;
      assert heap == (old(heap) - {cached.buffptr})[tempBuf := heap[tempBuf]];
      StageRepresented(ring.added, ring.entry.Length, old(heap), cached, log, freed, tempBuf, heap[tempBuf], whole);
    }

    /** The newline branch of `aesd_write`: the staged buffer enters the ring, and the buffer
        of the command it pushes out, if any, is released. */
    method Commit(newEntry: Entry, ghost whole: Bytes)
      requires ring.Valid() && newEntry.buffptr != NULL
      requires Represented(ring.added, ring.entry.Length, heap, newEntry, Log(log.commands, whole), freed)
      modifies this, ring, ring.entry
      ensures ring.Valid() && log == Log(old(log.commands) + [whole], [])
      ensures Represented(ring.added, ring.entry.Length, heap, cached, log, freed)
    {
      ghost var cap := ring.entry.Length;
      if |ring.added| < cap {
        CommitRepresented(ring.added, cap, heap, newEntry, Log(log.commands, whole), freed);
      } else {
        EvictRepresented(ring.added, cap, heap, newEntry, Log(log.commands, whole), freed);
      }
      hide Represented;
      var replacedBuffer := ring.AddEntry(newEntry);
      if replacedBuffer != NULL {
        Kfree(replacedBuffer);
      }
      cached := EMPTY;
      log := Log(log.commands + [whole], []);
    }

    /** `aesd_write`: the bytes taken are appended, or nothing changes. */
    method Write(buf: Bytes, fault: Fault) returns (retval: int)
      requires Valid()
      modifies this, ring, ring.entry
      ensures Valid()
      ensures log == WriteOne(old(log), buf, fault)
      ensures buf != [] && fault.allocFails ==> retval == -12 && log == old(log)
      ensures buf == [] || !fault.allocFails ==>
                && retval == |buf| - Min(fault.uncopied, |buf|) && log == Append(old(log), buf[..retval])
                && log == if 10 in buf[..retval] then Log(old(log.commands) + [old(log.cache) + buf[..retval]], [])
                          else Log(old(log.commands), old(log.cache) + buf[..retval])
      ensures retval < 0 || buf == [] ==> heap == old(heap) && cached == old(cached) && freed == old(freed)
      ensures retval < 0 || buf == [] ==> unchanged(ring) && unchanged(ring.entry)
    {
      hide Represented, Represents;
      AppendKeeps(log, []);
      if |buf| == 0 {
        return 0;
      }
      var tempBuf, tempBufSize, notCopied := Stage(buf, fault);
      if tempBuf == NULL {
        return -ENOMEM;
      }
      retval := |buf| - notCopied;
      ghost var whole := log.cache + buf[..retval];
      AppendKeeps(log, buf[..retval]);
      if HasNewline(heap[tempBuf][..tempBufSize]) {
        var newEntry := Entry(tempBuf, tempBufSize);
        Commit(newEntry, whole);
      } else {
        cached := Entry(tempBuf, tempBufSize);
        log := Log(log.commands, whole);
      }
    }

    /** `aesd_read`. */
    method Read(file: OpenFile, count: nat) returns (data: Bytes)
      requires Valid()
      modifies file
      ensures data == ReadAt(Commands(), old(file.fPos), count)
      ensures file.fPos == old(file.fPos) + |data|
    {
      FoundBytes(ring.added, ring.entry.Length, heap, cached, log, freed, file.fPos, count);
      hide Represented, Represents, Locate, LiveOf, Recent, ReadAt, SlotAt, SeenSizes, WellFormed;
      var found := ring.Find(file.fPos);
      if found == None {
        return [];
      }
      var (slot, entryOffset) := found.value;
      var entry := ring.entry[slot];
      var availableBytes := entry.size - entryOffset;
      var bytesToRead := if count > availableBytes then availableBytes else count;
      data := heap[entry.buffptr][entryOffset..entryOffset + bytesToRead];
      file.fPos := file.fPos + bytesToRead;
    }

    /** `aesd_llseek`. */
    method Llseek(file: OpenFile, off: int, whence: int) returns (retval: int)
      requires Valid()
      modifies file
      ensures match FixedSizeLlseek(old(file.fPos), off, whence, |Readable(log, ring.entry.Length)|)
              case None => retval == -EINVAL && file.fPos == old(file.fPos)
              case Some(pos) => retval == file.fPos == pos
      ensures var n := |Readable(log, ring.entry.Length)|;
              var target := if whence == 0 then off else if whence == 1 then old(file.fPos) + off else n + off;
              if (whence == 1 && off == 0) || (0 <= whence <= 2 && 0 <= target <= n) then retval == file.fPos == target
              else retval == -22 && file.fPos == old(file.fPos)
    {
      RepresentedEntries(ring.added, ring.entry.Length, heap, cached, log, freed);
      LengthOfFlatten(Commands());
      hide Represented, Represents;
      var totalEntriesSize := ring.EntriesTotalSize();
      match FixedSizeLlseek(file.fPos, off, whence, totalEntriesSize)
      case None => retval := -EINVAL;
      case Some(pos) =>
        file.fPos := pos;
        retval := pos;
    }

    /** `aesd_adjust_file_offset`: the command is named by its slot. */
    method AdjustFileOffset(file: OpenFile, writeCmd: nat, writeCmdOffset: nat) returns (retval: int)
      requires Valid()
      modifies file
      ensures match Encode(SlotLengths(log, ring.entry.Length), writeCmd, writeCmdOffset)
              case None => retval == -EINVAL && file.fPos == old(file.fPos)
              case Some(pos) => retval == 0 && file.fPos == pos < |Readable(log, ring.entry.Length)|
      ensures if writeCmd < ring.entry.Length && writeCmdOffset < ring.entry[writeCmd].size
              then retval == 0 && file.fPos == Sum(Sizes(ring.entry[..writeCmd])) + writeCmdOffset
              else retval == -22 && file.fPos == old(file.fPos)
    {
      SlotPosition(ring.entry[..], ring.inOffs, ring.outOffs, ring.full, ring.added, heap, cached, log, freed, writeCmd, writeCmdOffset);
      hide Represented, Represents, WellFormed, SlotLengths, Readable, Encode;
      if writeCmd >= ring.entry.Length || ring.entry[writeCmd].size == 0 || writeCmdOffset >= ring.entry[writeCmd].size {
        return -EINVAL;
      }
      ghost var sizes := Sizes(ring.entry[..writeCmd]);
      var bufferStartOffset := 0;
      for i := 0 to writeCmd
        invariant bufferStartOffset == Sum(sizes[..i])
      {
        SumStep(sizes, i);
        bufferStartOffset := bufferStartOffset + ring.entry[i].size;
      }
      assert sizes[..writeCmd] == sizes;
      file.fPos := bufferStartOffset + writeCmdOffset;
      retval := 0;
    }

    /** `aesd_cleanup_module`, the part that concerns the device's memory: every command ever committed
        has now been released exactly once, and the cached entry's buffer has not been released. */
    method Cleanup()
      requires Valid()
      modifies this, ring.entry
      ensures multiset(freed) == multiset(Ptrs(ring.added))
      ensures heap.Keys == if cached.buffptr == NULL then {} else {cached.buffptr}
      ensures cached == old(cached)
      ensures forall j :: 0 <= j < ring.entry.Length ==> ring.entry[j] == old(ring.entry[j]).(buffptr := NULL)
    {
      ghost var slots := ring.entry[..];
      SlotsOwnBuffers(slots, ring.inOffs, ring.outOffs, ring.full, ring.added, heap, cached, log, freed);
      hide *;
      ReleaseSlots();
      AllReleased(slots, old(ring.inOffs), old(ring.outOffs), old(ring.full), ring.added, old(heap), cached, log, old(freed), heap, freed);
    }

    /** The walk over the slots. */
    method ReleaseSlots()
      requires OwnBuffers(ring.entry[..], heap)
      modifies this`heap, this`freed, ring.entry
      ensures ReleasedUpTo(old(ring.entry[..]), old(heap), heap, old(freed), freed)
      ensures forall j :: 0 <= j < ring.entry.Length ==> ring.entry[j] == old(ring.entry[j]).(buffptr := NULL)
    {
      ghost var slots, before, released := ring.entry[..], heap, freed;
      assert ReleasedUpTo([], before, heap, released, freed);
      hide *;
      assert slots[..0] == [];
      var index := 0;
      while index < ring.entry.Length
        invariant index <= ring.entry.Length
        invariant forall j :: 0 <= j < ring.entry.Length ==>
                    ring.entry[j] == if j < index then slots[j].(buffptr := NULL) else slots[j]
        invariant ReleasedUpTo(slots[..index], before, heap, released, freed)
      {
        ReleaseStep(slots, index, before, heap, released, freed);
        ReleaseSlot(index);
        index := index + 1;
      }
      assert slots[..index] == slots;
    }

    /** One turn of that walk. */
    method ReleaseSlot(index: nat)
      requires index < ring.entry.Length
      requires ring.entry[index].buffptr != NULL ==> ring.entry[index].buffptr in heap
      modifies this`heap, this`freed, ring.entry
      ensures var p := old(ring.entry[index]).buffptr;
              if p == NULL then heap == old(heap) && freed == old(freed)
              else heap == old(heap) - {p} && freed == old(freed) + [p]
      ensures forall j :: 0 <= j < ring.entry.Length ==>
                ring.entry[j] == if j == index then old(ring.entry[j]).(buffptr := NULL) else old(ring.entry[j])
    {
      if ring.entry[index].buffptr != NULL {
        Kfree(ring.entry[index].buffptr);
        ring.entry[index] := ring.entry[index].(buffptr := NULL);
      }
    }
  }

  // ---------------------------------------------------------------- reachable states

  /** In every reachable state there is one buffer per readable command and at most one more. */
  lemma BuffersBounded(dev: Device)
    requires dev.Valid()
    ensures |dev.heap| == |dev.Commands()| + if dev.cached.buffptr == NULL then 0 else 1
    ensures |dev.heap| <= dev.ring.entry.Length + 1
  {
    BufferCount(dev.heap, dev.ring.Live(), dev.cached, dev.Commands(), dev.log.cache);
  }

  /** A successful seek leaves the position within the readable bytes, unless it merely asked for a position
      that eviction had left beyond them; the next read returns nothing only at the end or when asked for nothing. */
  lemma LlseekThenRead(commands: seq<Bytes>, pos: nat, off: int, whence: int, pos': nat, count: nat)
    requires FixedSizeLlseek(pos, off, whence, |Flatten(commands)|) == Some(pos')
    ensures pos' <= |Flatten(commands)| || (whence == SEEK_CUR && off == 0 && pos' == pos)
    ensures ReadAt(commands, pos', count) == [] <==> pos' >= |Flatten(commands)| || count == 0
  {
    ReadAtIsSlice(commands, pos', count);
  }
}
