/** The ring of `aesd-circular-buffer.c`, for any number of slots its 8-bit indices can address. */
module CircularBuffer {
  import opened ByteStrings
  import opened Positions
  import opened RingIndex

  type uint8 = x: int | 0 <= x < 256
  type Ptr = nat

  const NULL: Ptr := 0

  datatype Entry = Entry(buffptr: Ptr, size: nat)

  const EMPTY: Entry := Entry(NULL, 0)

  function Sizes(entries: seq<Entry>): seq<nat> {
    seq(|entries|, i requires 0 <= i < |entries| => entries[i].size)
  }

  /** What a position search counts: an entry without a buffer is passed over. */
  function SeenSizes(entries: seq<Entry>): seq<nat> {
    seq(|entries|, i requires 0 <= i < |entries| => if entries[i].buffptr == NULL then 0 else entries[i].size)
  }

  function Ptrs(entries: seq<Entry>): seq<Ptr> {
    seq(|entries|, i requires 0 <= i < |entries| => entries[i].buffptr)
  }

  /** The entries still held after `added` were added in order: the last `cap`, oldest first. */
  function LiveOf(added: seq<Entry>, cap: nat): seq<Entry> {
    added[Lo(|added|, cap)..]
  }

  /** The state of the ring as a function of the number of entries ever added to it:
      the k-th entry added, while live, sits in slot k mod cap. */
  ghost predicate Represents(slots: seq<Entry>, inOffs: nat, outOffs: nat, full: bool, added: seq<Entry>)
    requires |slots| > 0
  {
    var n, cap := |added|, |slots|;
    && inOffs == n % cap
    && outOffs == Oldest(n, cap)
    && (full <==> n >= cap)
    && (forall k :: Lo(n, cap) <= k < n ==> slots[k % cap] == added[k])
    && (forall j :: n <= j < cap ==> slots[j] == EMPTY)
  }

  /** Scanning from `outOffs` meets the live entries oldest first and then only unused slots. */
  lemma LogicalOrder(slots: seq<Entry>, inOffs: nat, outOffs: nat, full: bool, added: seq<Entry>, i: nat)
    requires i < |slots| && Represents(slots, inOffs, outOffs, full, added)
    ensures var live := LiveOf(added, |slots|);
            slots[SlotAt(outOffs, i, |slots|)] == if i < |live| then live[i] else EMPTY
  {
    var n, cap := |added|, |slots|;
    var lo := Lo(n, cap);
    if n < cap {
      Wrap(i, cap);
    } else {
      ModUnique(n, n / cap, n % cap, cap);
      ModUnique(lo, n / cap - 1, n % cap, cap) by {
        assert (n / cap - 1) * cap == (n / cap) * cap - cap;
      }
      ModShift(lo, i, cap);
      assert slots[(lo + i) % cap] == added[lo + i];
    }
  }

  /** The slots in physical order are the live entries rotated by `outOffs`, or followed by unused slots. */
  lemma PhysicalOrder(slots: seq<Entry>, inOffs: nat, outOffs: nat, full: bool, added: seq<Entry>)
    requires |slots| > 0 && Represents(slots, inOffs, outOffs, full, added)
    ensures var live, cap := LiveOf(added, |slots|), |slots|;
            if full then |live| == cap && outOffs < cap && slots == live[cap - outOffs..] + live[..cap - outOffs]
            else |live| < cap && outOffs == 0 && slots == live + seq(cap - |live|, _ => EMPTY)
  {
    var live, cap := LiveOf(added, |slots|), |slots|;
    var expected := if full then live[cap - outOffs..] + live[..cap - outOffs] else live + seq(cap - |live|, _ => EMPTY);
    assert outOffs < cap && (full <==> |live| == cap);
    hide Represents, LiveOf;
    forall j | 0 <= j < cap ensures slots[j] == expected[j] {
      var i := Age(j, outOffs, cap);
      Wrap(outOffs + i, cap);
      LogicalOrder(slots, inOffs, outOffs, full, added, i);
    }
    assert slots == expected;
  }

  /** Bytes passed over by the first `k` steps of a position search. */
  ghost function Passed(seen: seq<nat>, k: nat): nat {
    Sum(if k <= |seen| then seen[..k] else seen)
  }

  lemma PassedAll(seen: seq<nat>, k: nat)
    requires |seen| <= k
    ensures Passed(seen, 0) == 0 && Passed(seen, k) == Sum(seen)
  {
    assert seen[..|seen|] == seen;
  }

  /** One step of the search: either the slot holds the next live entry, or it adds nothing. */
  lemma ScanStep(slots: seq<Entry>, inOffs: nat, outOffs: nat, full: bool, added: seq<Entry>, k: nat)
    requires k < |slots| && Represents(slots, inOffs, outOffs, full, added)
    ensures var live := LiveOf(added, |slots|);
            var e, seen := slots[SlotAt(outOffs, k, |slots|)], SeenSizes(live);
            && Passed(seen, k + 1) == Passed(seen, k) + (if e.buffptr == NULL then 0 else e.size)
            && (e.buffptr != NULL ==> k < |live| && e == live[k])
  {
    LogicalOrder(slots, inOffs, outOffs, full, added, k);
    var seen := SeenSizes(LiveOf(added, |slots|));
    if k < |seen| {
      SumStep(seen, k);
    } else {
      assert seen[..|seen|] == seen;
    }
  }

  /** The step that passes `pos` has found it. */
  lemma ScanFinds(slots: seq<Entry>, inOffs: nat, outOffs: nat, full: bool, added: seq<Entry>, k: nat, pos: nat)
    requires k < |slots| && Represents(slots, inOffs, outOffs, full, added)
    requires var seen := SeenSizes(LiveOf(added, |slots|)); Passed(seen, k) <= pos < Passed(seen, k + 1)
    ensures var live := LiveOf(added, |slots|);
            && k < |live| && slots[SlotAt(outOffs, k, |slots|)] == live[k]
            && Locate(SeenSizes(live), pos) == Some((k, pos - Passed(SeenSizes(live), k)))
  {
    ScanStep(slots, inOffs, outOffs, full, added, k);
    var seen := SeenSizes(LiveOf(added, |slots|));
    LocateInvertsEncode(seen, k, pos - Passed(seen, k), pos);
    hide Represents, Locate, LiveOf, SlotAt;
  }

  /** The slots in use are the first ones, as many as there are live entries. */
  lemma SlotsInUse(slots: seq<Entry>, inOffs: nat, outOffs: nat, full: bool, added: seq<Entry>, j: nat)
    requires j < |slots| && Represents(slots, inOffs, outOffs, full, added)
    ensures var live := LiveOf(added, |slots|);
            if j < |live| then var i := Age(j, outOffs, |slots|); i < |live| && slots[j] == live[i] else slots[j] == EMPTY
  {
    PhysicalOrder(slots, inOffs, outOffs, full, added);
  }

  lemma {:induction false} SumOfEmpty(entries: seq<Entry>)
    requires forall i :: 0 <= i < |entries| ==> entries[i] == EMPTY
    ensures Sum(Sizes(entries)) == 0
  {
    if entries != [] {
      assert Sizes(entries)[1..] == Sizes(entries[1..]);
      SumOfEmpty(entries[1..]);
    }
  }

  /** Adding sizes up in slot order or oldest first gives the same total, at every rotation and fill level. */
  lemma TotalIsRotationInvariant(slots: seq<Entry>, inOffs: nat, outOffs: nat, full: bool, added: seq<Entry>)
    requires |slots| > 0 && Represents(slots, inOffs, outOffs, full, added)
    ensures Sum(Sizes(slots)) == Sum(Sizes(LiveOf(added, |slots|)))
  {
    PhysicalOrder(slots, inOffs, outOffs, full, added);
    var live, cap := LiveOf(added, |slots|), |slots|;
    if full {
      var tail, front := live[cap - outOffs..], live[..cap - outOffs];
      assert Sizes(slots) == Sizes(tail) + Sizes(front);
      assert Sizes(live) == Sizes(front) + Sizes(tail);
      SumConcat(Sizes(tail), Sizes(front));
      SumConcat(Sizes(front), Sizes(tail));
    } else {
      var unused := seq(cap - |live|, _ => EMPTY);
      assert Sizes(slots) == Sizes(live) + Sizes(unused);
      SumConcat(Sizes(live), Sizes(unused));
      SumOfEmpty(unused);
    }
  }

  /** The next slot to fill holds the oldest entry of a full ring and is unused otherwise. */
  lemma NextSlot(slots: seq<Entry>, inOffs: nat, outOffs: nat, full: bool, added: seq<Entry>)
    requires |slots| > 0 && Represents(slots, inOffs, outOffs, full, added)
    ensures inOffs < |slots|
    ensures full ==> LiveOf(added, |slots|) != [] && slots[inOffs] == LiveOf(added, |slots|)[0]
    ensures !full ==> slots[inOffs] == EMPTY
  {
    if full {
      LogicalOrder(slots, inOffs, outOffs, full, added, 0);
      Wrap(outOffs + 0, |slots|);
    } else {
      Wrap(|added|, |slots|);
    }
  }

  /** Filling the next slot overwrites no entry that stays live. */
  lemma AddKeepsLive(slots: seq<Entry>, added: seq<Entry>, entry: Entry)
    requires |slots| > 0
    requires forall k :: Lo(|added|, |slots|) <= k < |added| ==> slots[k % |slots|] == added[k]
    ensures var n, cap := |added|, |slots|;
            forall k :: Lo(n + 1, cap) <= k < n + 1 ==> slots[n % cap := entry][k % cap] == (added + [entry])[k]
  {
    var n, cap := |added|, |slots|;
    forall k | Lo(n + 1, cap) <= k < n ensures slots[n % cap := entry][k % cap] == added[k] {
      SlotsDistinct(k, n, cap);
    }
  }

  /** How the three ring fields move, against their closed forms. */
  lemma IndicesStep(n: nat, cap: nat, inOffs: nat, outOffs: nat)
    requires cap > 0 && inOffs == n % cap && outOffs == Oldest(n, cap)
    ensures var out' := if n >= cap then (outOffs + 1) % cap else outOffs;
            var in' := (inOffs + 1) % cap;
            && in' == (n + 1) % cap
            && out' == Oldest(n + 1, cap)
            && (n >= cap || in' == out' <==> n + 1 >= cap)
  {
    ModShift(n, 1, cap);
    if n < cap {
      Wrap(n, cap);
      Wrap(n + 1, cap);
    }
  }

  /** One more entry: the state the code computes is the closed form for one entry more. */
  lemma AddRepresents(slots: seq<Entry>, inOffs: nat, outOffs: nat, full: bool, added: seq<Entry>, entry: Entry)
    requires |slots| > 0 && Represents(slots, inOffs, outOffs, full, added) && inOffs < |slots|
    ensures var out' := if full then (outOffs + 1) % |slots| else outOffs;
            var in' := (inOffs + 1) % |slots|;
            Represents(slots[inOffs := entry], in', out', full || in' == out', added + [entry])
  {
    AddKeepsLive(slots, added, entry);
    IndicesStep(|added|, |slots|, inOffs, outOffs);
    if |added| < |slots| {
      Wrap(|added|, |slots|);
    }
  }

  class Ring {
    const entry: array<Entry>
    var inOffs: uint8
    var outOffs: uint8
    var full: bool
    ghost var added: seq<Entry>  // every entry since initialisation

    ghost predicate Valid()
      reads this, entry
    {
      && 1 <= entry.Length <= 255
      && Represents(entry[..], inOffs, outOffs, full, added)
    }

    ghost function Live(): seq<Entry>
      reads this
    {
      LiveOf(added, entry.Length)
    }

    /** `aesd_circular_buffer_init` on freshly declared storage. */
    constructor (cap: nat)
      requires 1 <= cap <= 255
      ensures Valid() && fresh(entry) && entry.Length == cap && added == []
    {
      entry := new Entry[cap](_ => EMPTY);
      inOffs, outOffs, full, added := 0, 0, false, [];
    }

    /** `aesd_circular_buffer_find_entry_offset_for_fpos`: the slot and the byte in it. */
    method Find(charOffset: nat) returns (found: Option<(nat, nat)>)
      requires Valid()
      ensures found.Some? <==> charOffset < Sum(SeenSizes(Live()))
      ensures match Locate(SeenSizes(Live()), charOffset)
              case None => found == None
              case Some((i, byteOffset)) =>
                found == Some((SlotAt(outOffs, i, entry.Length), byteOffset))
                && entry[found.value.0] == Live()[i]
      ensures found.Some? ==> var (slot, byteOffset) := found.value;
                slot < entry.Length && entry[slot].buffptr != NULL && byteOffset < entry[slot].size
    {
      ghost var seen, slots := SeenSizes(Live()), entry[..];
      LocateDefined(seen, charOffset);
      PassedAll(seen, entry.Length);
      Wrap(outOffs, entry.Length);
      var cumulativeLength, entryIndex, entriesChecked := 0, outOffs as nat, 0;
      hide Represents, Locate, LiveOf, SeenSizes, Passed;
      while entriesChecked < entry.Length
        invariant entriesChecked <= entry.Length
        invariant entryIndex == SlotAt(outOffs, entriesChecked, entry.Length)
        invariant cumulativeLength == Passed(seen, entriesChecked) <= charOffset
      {
        ScanStep(slots, inOffs, outOffs, full, added, entriesChecked);
        if entry[entryIndex].buffptr != NULL {
          cumulativeLength := cumulativeLength + entry[entryIndex].size;
          if cumulativeLength > charOffset {
            var byteOffset := charOffset - (cumulativeLength - entry[entryIndex].size);
            ScanFinds(slots, inOffs, outOffs, full, added, entriesChecked, charOffset);
            return Some((entryIndex, byteOffset));
          }
        }
        ModShift(outOffs + entriesChecked, 1, entry.Length);
        entryIndex := (entryIndex + 1) % entry.Length;
        entriesChecked := entriesChecked + 1;
      }
      return None;
    }

    /** `aesd_circular_buffer_add_entry`. */
    method AddEntry(addEntry: Entry) returns (replaced: Ptr)
      requires Valid()
      modifies this, entry
      ensures Valid()
      ensures added == old(added) + [addEntry]
      ensures replaced == if |old(added)| < entry.Length then NULL else old(Live())[0].buffptr
      ensures Live() == (if |old(added)| < entry.Length then old(Live()) else old(Live())[1..]) + [addEntry]
      ensures old(inOffs) < entry.Length && entry[..] == old(entry[..])[old(inOffs) := addEntry]
      ensures replaced == if old(full) then old(entry[inOffs]).buffptr else NULL
      ensures inOffs == (old(inOffs) + 1) % entry.Length && (full <==> old(full) || inOffs == old(outOffs))
      ensures outOffs == if old(full) then inOffs else old(outOffs)
    {
      NextSlot(entry[..], inOffs, outOffs, full, added);
      AddRepresents(entry[..], inOffs, outOffs, full, added, addEntry);
      ghost var slots' := entry[..][inOffs := addEntry];
      replaced := NULL;
      if full {
        outOffs := (outOffs + 1) % entry.Length;
        replaced := entry[inOffs].buffptr;
      }
      entry[inOffs] := addEntry;
      inOffs := (inOffs + 1) % entry.Length;
      if inOffs == outOffs {
        full := true;
      }
      added := added + [addEntry];
      assert entry[..] == slots';
    }

    /** `aesd_circular_buffer_entries_total_size`: a walk in slot order with an 8-bit index. */
    method EntriesTotalSize() returns (totalSize: nat)
      requires Valid()
      ensures totalSize == Sum(Sizes(Live()))
    {
      totalSize := 0;
      var index: uint8 := 0;
      ghost var sizes := Sizes(entry[..]);
      while index < entry.Length
        invariant index <= entry.Length
        invariant totalSize == Sum(sizes[..index])
      {
        SumStep(sizes, index);
        totalSize := totalSize + entry[index].size;
        index := index + 1;
      }
      assert sizes[..index] == sizes;
      TotalIsRotationInvariant(entry[..], inOffs, outOffs, full, added);
    }
  }
}
