/** Positions in a byte string that is stored as consecutive pieces of given sizes:
    a flat position on one side, a (piece, byte within the piece) pair on the other. */
module Positions {
  import opened ByteStrings

  function Sum(sizes: seq<nat>): nat {
    if sizes == [] then 0 else sizes[0] + Sum(sizes[1..])
  }

  /** Flat position to (piece, byte). */
  function Locate(sizes: seq<nat>, pos: nat): (found: Option<(nat, nat)>)
    ensures found.Some? ==> found.value.0 < |sizes| && found.value.1 < sizes[found.value.0]
  {
    if sizes == [] then None
    else if pos < sizes[0] then Some((0, pos))
    else match Locate(sizes[1..], pos - sizes[0])
         case None => None
         case Some((piece, offset)) => Some((piece + 1, offset))
  }

  /** (piece, byte) to flat position; None when there is no such byte. */
  function Encode(sizes: seq<nat>, piece: nat, offset: nat): Option<nat> {
    if piece < |sizes| && offset < sizes[piece] then Some(Sum(sizes[..piece]) + offset) else None
  }

  lemma {:induction false} SumConcat(a: seq<nat>, b: seq<nat>)
    ensures Sum(a + b) == Sum(a) + Sum(b)
  {
    if a == [] {
      assert a + b == b;
    } else {
      assert (a + b)[1..] == a[1..] + b;
      SumConcat(a[1..], b);
    }
  }

  /** One more piece adds exactly its size. */
  lemma SumStep(sizes: seq<nat>, k: nat)
    requires k < |sizes|
    ensures Sum(sizes[..k + 1]) == Sum(sizes[..k]) + sizes[k]
  {
    assert sizes[..k + 1] == sizes[..k] + [sizes[k]];
    SumConcat(sizes[..k], [sizes[k]]);
  }

  /** Looking a position up and encoding it are each other's inverses. */
  lemma {:induction false} LocateInvertsEncode(sizes: seq<nat>, piece: nat, offset: nat, pos: nat)
    ensures Encode(sizes, piece, offset) == Some(pos) <==> Locate(sizes, pos) == Some((piece, offset))
  {
    if sizes == [] {
    } else if piece == 0 {
      assert sizes[..0] == [];
    } else {
      var rest := sizes[1..];
      if piece < |sizes| {
        assert sizes[..piece][1..] == rest[..piece - 1];
        assert Sum(sizes[..piece]) == sizes[0] + Sum(rest[..piece - 1]);
      }
      if pos >= sizes[0] {
        LocateInvertsEncode(rest, piece - 1, offset, pos - sizes[0]);
      }
    }
  }

  /** A position exists exactly when it lies below the total. */
  lemma {:induction false} LocateDefined(sizes: seq<nat>, pos: nat)
    ensures Locate(sizes, pos).Some? <==> pos < Sum(sizes)
  {
    if sizes != [] && pos >= sizes[0] {
      LocateDefined(sizes[1..], pos - sizes[0]);
    }
  }

  /** `Encode` never leaves the string. */
  lemma EncodeBelowTotal(sizes: seq<nat>, piece: nat, offset: nat)
    ensures Encode(sizes, piece, offset).Some? ==> Encode(sizes, piece, offset).value < Sum(sizes)
  {
    if Encode(sizes, piece, offset).Some? {
      LocateInvertsEncode(sizes, piece, offset, Encode(sizes, piece, offset).value);
      LocateDefined(sizes, Encode(sizes, piece, offset).value);
    }
  }

  /** Two size lists encode alike on every (piece, byte) exactly when they are equal up to trailing zeros. */
  lemma EncodeDetermines(a: seq<nat>, b: seq<nat>)
    requires |b| <= |a|
    ensures (forall piece: nat, offset: nat :: Encode(a, piece, offset) == Encode(b, piece, offset))
       <==> (forall i :: 0 <= i < |a| ==> a[i] == if i < |b| then b[i] else 0)
  {
    if forall piece: nat, offset: nat :: Encode(a, piece, offset) == Encode(b, piece, offset) {
      forall i | 0 <= i < |a| ensures a[i] == if i < |b| then b[i] else 0 {
        var bi := if i < |b| then b[i] else 0;
        var least := if a[i] < bi then a[i] else bi;
        assert Encode(a, i, least) == Encode(b, i, least);
      }
    }
    if forall i :: 0 <= i < |a| ==> a[i] == if i < |b| then b[i] else 0 {
      forall piece: nat, offset: nat ensures Encode(a, piece, offset) == Encode(b, piece, offset) {
        if piece < |b| {
          assert a[piece] == b[piece];
          assert a[..piece] == b[..piece];
        } else if piece < |a| {
          assert a[piece] == 0;
        }
      }
    }
  }
}

/** Arithmetic of indices that step round a ring of `cap` slots. */
module RingIndex {
  const MAX_WRITE_OPERATIONS: nat := 10  // the device's capacity

  /** The first of the last `cap` among `n`. */
  function Lo(n: nat, cap: nat): nat {
    if n <= cap then 0 else n - cap
  }

  /** The slot `steps` after slot `start`. */
  function SlotAt(start: nat, steps: nat, cap: nat): nat
    requires cap > 0
  {
    (start + steps) % cap
  }

  /** The slot of the oldest of `n` entries. */
  function Oldest(n: nat, cap: nat): (slot: nat)
    requires cap > 0
    ensures slot < cap
  {
    if n < cap then 0 else n % cap
  }

  /** How many slots a scan from `outOffs` meets before slot `j`. */
  function Age(j: nat, outOffs: nat, cap: nat): nat
    requires j < cap && outOffs <= cap
  {
    if j >= outOffs then j - outOffs else j - outOffs + cap
  }

  lemma ModUnique(x: nat, q: int, r: nat, cap: nat)
    requires r < cap && x == q * cap + r
    ensures x % cap == r
  {
    var d := q - x / cap;
    assert d * cap == x % cap - r by {
      assert d * cap == q * cap - (x / cap) * cap;
    }
    assert d >= 1 ==> d * cap >= cap;
    assert d <= -1 ==> d * cap + cap <= 0;
  }

  /** Stepping an already reduced index is stepping the unreduced one. */
  lemma ModShift(n: nat, i: nat, cap: nat)
    requires cap > 0
    ensures (n % cap + i) % cap == (n + i) % cap
  {
    var x := n % cap + i;
    assert n == (n / cap) * cap + n % cap;
    assert x == (x / cap) * cap + x % cap;
    var q := n / cap + x / cap;
    assert q * cap == (n / cap) * cap + (x / cap) * cap;
    ModUnique(n + i, q, x % cap, cap);
  }

  lemma Wrap(x: nat, cap: nat)
    requires 0 < cap && x < 2 * cap
    ensures x % cap == if x < cap then x else x - cap
  {
  }

  /** Fewer than `cap` steps never come back to the same slot. */
  lemma SlotsDistinct(k: nat, m: nat, cap: nat)
    requires cap > 0 && k < m < k + cap
    ensures k % cap != m % cap
  {
    ModShift(k, m - k, cap);
    Wrap(k % cap + (m - k), cap);
  }
}
