/** Longest matches: the simple argmax over the 64 distances, and the pruned search that refines it. */
module Codec11Match {
  import opened Bytes
  import opened Codec11Format

  function Min(a: nat, b: nat): nat {
    if a < b then a else b
  }

  predicate Same(band: seq<Byte>, i: nat, d: nat)
    requires d <= i < |band|
  {
    band[i] == band[i - d]
  }

  /** Do the `n` bytes at `pos` repeat those `d` before them? The two stretches may overlap. */
  ghost predicate Repeats(band: seq<Byte>, pos: nat, d: nat, n: nat)
    requires d <= pos && pos + n <= |band|
  {
    forall i :: pos <= i < pos + n ==> Same(band, i, d)
  }

  /** The number of bytes, at most `max`, that repeat at distance `d`. */
  function MatchLen(band: seq<Byte>, pos: nat, d: nat, max: nat): (n: nat)
    requires d <= pos && pos + max <= |band|
    ensures n <= max && Repeats(band, pos, d, n)
    ensures n < max ==> !Same(band, pos + n, d)
  {
    MatchLenFrom(band, pos, d, max, 0)
  }

  function MatchLenFrom(band: seq<Byte>, pos: nat, d: nat, max: nat, k: nat): (n: nat)
    requires d <= pos && pos + max <= |band| && k <= max
    ensures k <= n <= max && forall i :: pos + k <= i < pos + n ==> Same(band, i, d)
    ensures n < max ==> !Same(band, pos + n, d)
    decreases max - k
  {
    if k < max && Same(band, pos + k, d) then MatchLenFrom(band, pos, d, max, k + 1) else k
  }

  /** MatchLen is the greatest length that repeats. */
  lemma MatchLenIsGreatest(band: seq<Byte>, pos: nat, d: nat, max: nat, n: nat)
    requires d <= pos && pos + max <= |band| && n <= max
    ensures Repeats(band, pos, d, n) <==> n <= MatchLen(band, pos, d, max)
  {
    var m := MatchLen(band, pos, d, max);
    assert m < max ==> !Same(band, pos + m, d);
  }

  method MatchLenLoop(band: seq<Byte>, pos: nat, d: nat, max: nat) returns (n: nat)
    requires d <= pos && pos + max <= |band|
    ensures n == MatchLen(band, pos, d, max)
  {
    n := 0;
    while n < max && band[pos + n] == band[pos + n - d]
      invariant n <= max && MatchLenFrom(band, pos, d, max, n) == MatchLen(band, pos, d, max)
    {
      n := n + 1;
    }
  }

  /** How far a match at `pos` may run. */
  function Room(band: seq<Byte>, pos: nat): nat
    requires pos <= |band|
  {
    Min(|band| - pos, MAX_MATCH)
  }

  predicate Usable(d: nat, pos: nat) {
    1 <= d <= pos
  }

  /** The length that table entry `i` offers at `pos`; 0 if the entry cannot be used there. */
  function Offer(band: seq<Byte>, pos: nat, table: Table, i: nat): (n: nat)
    requires pos <= |band| && i < TABLE_ENTRIES
    ensures n <= Room(band, pos)
  {
    if Usable(table[i], pos) then MatchLen(band, pos, table[i], Room(band, pos)) else 0
  }

  datatype Choice = Choice(length: nat, slot: nat)

  /** The best of the first `k` offers that reach 3 bytes; the earliest slot wins ties; length 0 if none does. */
  function BestOf(band: seq<Byte>, pos: nat, table: Table, k: nat): (c: Choice)
    requires pos <= |band| && k <= TABLE_ENTRIES
    ensures c.length <= Room(band, pos)
    ensures c.length == 0 || (3 <= c.length && c.slot < k && c.length == Offer(band, pos, table, c.slot))
  {
    if k == 0 then Choice(0, 0)
    else
      var c, n := BestOf(band, pos, table, k - 1), Offer(band, pos, table, k - 1);
      if n >= 3 && n > c.length then Choice(n, k - 1) else c
  }

  function Best(band: seq<Byte>, pos: nat, table: Table): (c: Choice)
    requires pos <= |band|
    ensures c.length == 0 || (3 <= c.length <= Room(band, pos) && c.slot < TABLE_ENTRIES)
  {
    BestOf(band, pos, table, TABLE_ENTRIES)
  }

  /** BestOf is the argmax: no offer beats it, earlier slots fall short of it, 0 means nothing reaches 3. */
  lemma {:induction false} BestIsArgmax(band: seq<Byte>, pos: nat, table: Table, k: nat, i: nat)
    requires pos <= |band| && i < k <= TABLE_ENTRIES
    ensures var c, n := BestOf(band, pos, table, k), Offer(band, pos, table, i);
            && n <= (if c.length == 0 then 2 else c.length)
            && (c.length > 0 && i < c.slot ==> n < c.length)
  {
    hide Offer, BestOf;
    BestOfOneMore(band, pos, table, k - 1);
    if i < k - 1 {
      BestIsArgmax(band, pos, table, k - 1, i);
    }
  }

  /** The `n` bytes at `pos`, no more than a token can hold, repeat those at distance `d`, which is in reach. */
  ghost predicate Matches(band: seq<Byte>, pos: nat, d: nat, n: nat) {
    1 <= d <= pos && n <= 514 && pos + n <= |band| && Repeats(band, pos, d, n)
  }

  lemma MatchesUpToMatchLen(band: seq<Byte>, pos: nat, d: nat, n: nat)
    requires 1 <= d <= pos <= |band|
    ensures Matches(band, pos, d, n) <==> n <= MatchLen(band, pos, d, Room(band, pos))
  {
    hide MatchLen, Repeats;
    if n <= Room(band, pos) {
      MatchLenIsGreatest(band, pos, d, Room(band, pos), n);
    }
  }

  /** Table entry `slot` offers a match of `n` bytes at `pos`: it is in reach, and the bytes repeat at its distance. */
  ghost predicate Offers(band: seq<Byte>, pos: nat, table: Table, slot: nat, n: nat) {
    slot < 64 && Matches(band, pos, table[slot], n)
  }

  /** Is there a match at `pos`, which takes three bytes? */
  ghost predicate MatchesAt(band: seq<Byte>, pos: nat, table: Table) {
    exists slot: nat :: Offers(band, pos, table, slot, 3)
  }

  /** The longest match on offer, from the first entry that offers it; length 0 without a match. */
  ghost predicate IsLongest(band: seq<Byte>, pos: nat, table: Table, c: Choice) {
    if c.length == 0 then c.slot == 0 && !MatchesAt(band, pos, table)
    else
      && c.length >= 3 && Offers(band, pos, table, c.slot, c.length)
      && forall slot: nat, n: nat :: Offers(band, pos, table, slot, n) ==>
                             n <= c.length && (slot < c.slot ==> n < c.length)
  }

  lemma OffersUpToOffer(band: seq<Byte>, pos: nat, table: Table, slot: nat, n: nat)
    requires pos <= |band|
    ensures Offers(band, pos, table, slot, n) <==>
              slot < TABLE_ENTRIES && Usable(table[slot], pos) && n <= Offer(band, pos, table, slot)
  {
    hide MatchLen, Repeats;
    if slot < TABLE_ENTRIES && Usable(table[slot], pos) {
      MatchesUpToMatchLen(band, pos, table[slot], n);
    }
  }

  lemma NoBestSlot(band: seq<Byte>, pos: nat, table: Table, k: nat)
    requires pos <= |band| && k <= TABLE_ENTRIES && BestOf(band, pos, table, k).length == 0
    ensures BestOf(band, pos, table, k).slot == 0
  {
  }

  /** The encoder's choice is the longest match of the first entry that offers it, and nothing else is. */
  lemma BestMeaning(band: seq<Byte>, pos: nat, table: Table, c: Choice)
    requires pos <= |band|
    ensures c == Best(band, pos, table) <==> IsLongest(band, pos, table, c)
  {
    hide Offers, Offer, BestOf;
    BestIsLongest(band, pos, table);
    var b := Best(band, pos, table);
    if IsLongest(band, pos, table, c) {
      if b.length > 0 {
        OffersThree(band, pos, table, b);
      }
      if c.length > 0 {
        OffersThree(band, pos, table, c);
      }
    }
  }

  lemma OffersThree(band: seq<Byte>, pos: nat, table: Table, c: Choice)
    requires c.length >= 3 && Offers(band, pos, table, c.slot, c.length)
    ensures MatchesAt(band, pos, table)
  {
    assert Offers(band, pos, table, c.slot, 3);
  }

  lemma BestIsLongest(band: seq<Byte>, pos: nat, table: Table)
    requires pos <= |band|
    ensures IsLongest(band, pos, table, Best(band, pos, table))
  {
    hide Offers, Offer, BestOf;
    var b := Best(band, pos, table);
    forall slot: nat, n: nat | Offers(band, pos, table, slot, n)
      ensures n <= (if b.length == 0 then 2 else b.length)
      ensures b.length > 0 && slot < b.slot ==> n < b.length
    {
      OffersUpToOffer(band, pos, table, slot, n);
      BestIsArgmax(band, pos, table, TABLE_ENTRIES, slot);
    }
    if b.length == 0 {
      NoBestSlot(band, pos, table, TABLE_ENTRIES);
    } else {
      BestIsOffered(band, pos, table);
    }
  }

  lemma BestIsOffered(band: seq<Byte>, pos: nat, table: Table)
    requires pos <= |band| && Best(band, pos, table).length > 0
    ensures var b := Best(band, pos, table); Offers(band, pos, table, b.slot, b.length)
  {
    hide Offers;
    var b := Best(band, pos, table);
    OffersUpToOffer(band, pos, table, b.slot, b.length);
  }

  lemma BestOfOneMore(band: seq<Byte>, pos: nat, table: Table, k: nat)
    requires pos <= |band| && k < TABLE_ENTRIES
    ensures var c, n := BestOf(band, pos, table, k), Offer(band, pos, table, k);
            BestOf(band, pos, table, k + 1) == if n >= 3 && n > c.length then Choice(n, k) else c
  {
    hide Offer;
  }

  lemma BestStep(band: seq<Byte>, pos: nat, table: Table, k: nat)
    requires pos <= |band| && k < TABLE_ENTRIES
    ensures var c, d := BestOf(band, pos, table, k), table[k];
            BestOf(band, pos, table, k + 1)
            == if d == 0 || d > pos then c
               else var n := MatchLen(band, pos, d, Room(band, pos));
               if n >= 3 && n > c.length then Choice(n, k) else c
  {
  }

  /** Offers after the first one that fills the room do not change the choice. */
  lemma {:induction false} RoomIsFull(band: seq<Byte>, pos: nat, table: Table, k: nat)
    requires pos <= |band| && k <= TABLE_ENTRIES
    requires BestOf(band, pos, table, k).length == Room(band, pos)
    ensures BestOf(band, pos, table, TABLE_ENTRIES) == BestOf(band, pos, table, k)
    decreases TABLE_ENTRIES - k
  {
    if k < TABLE_ENTRIES {
      RoomIsFull(band, pos, table, k + 1);
    }
  }

  /**
   * The pruned search: it rejects a candidate on one byte where the best match so far ended and
   * stops when a match fills the room, yet returns the argmax. `slot0` is returned when there is
   * no match, as the C function then leaves *index alone.
   */
  method LongestMatch(band: seq<Byte>, pos: nat, table: Table, slot0: nat) returns (length: nat, slot: nat)
    requires pos <= |band|
    ensures length == Best(band, pos, table).length
    ensures slot == if length > 0 then Best(band, pos, table).slot else slot0
  {
    NothingOffered(band, pos, table);
    hide *;
    var max, best := |band| - pos, 0;
    slot := slot0;
    if max > MAX_MATCH {
      max := MAX_MATCH;
    }
    RoomIs(band, pos);
    if max < 3 {
      return 0, slot;
    }
    for i := 0 to TABLE_ENTRIES
      invariant best == BestOf(band, pos, table, i).length < max
      invariant best > 0 ==> best >= 3
      invariant slot == if best > 0 then BestOf(band, pos, table, i).slot else slot0
    {
      var n := TrySlot(band, pos, table, i, max, best);
      if n > best {
        best, slot := n, i;
        if best == max {
          RoomIsFull(band, pos, table, i + 1);
          break;
        }
      }
    }
    return if best >= 3 then best else 0, slot;
  }

  /** One slot of the table: nothing if its distance is of no use, what was found otherwise. */
  method TrySlot(band: seq<Byte>, pos: nat, table: Table, i: nat, max: nat, best: nat) returns (n: nat)
    requires pos <= |band| && i < TABLE_ENTRIES && max == Room(band, pos) && 3 <= max
    requires best == BestOf(band, pos, table, i).length < max && (best > 0 ==> best >= 3)
    ensures var c := BestOf(band, pos, table, i);
            BestOf(band, pos, table, i + 1) == if n > best then Choice(n, i) else c
    ensures n > best ==> 3 <= n <= max
  {
    RoomIs(band, pos);
    hide *;
    var d := table[i];
    if d == 0 || d > pos {
      NotOffered(band, pos, table, i);
      return 0;
    }
    n := TryDistance(band, pos, d, max, best);
    Offered(band, pos, table, i, n);
  }

  lemma RoomIs(band: seq<Byte>, pos: nat)
    requires pos <= |band|
    ensures Room(band, pos) == if |band| - pos > MAX_MATCH then MAX_MATCH else |band| - pos
  {
  }

  lemma NothingOffered(band: seq<Byte>, pos: nat, table: Table)
    requires pos <= |band|
    ensures BestOf(band, pos, table, 0) == Choice(0, 0)
    ensures Best(band, pos, table) == BestOf(band, pos, table, TABLE_ENTRIES)
  {
  }

  lemma NotOffered(band: seq<Byte>, pos: nat, table: Table, i: nat)
    requires pos <= |band| && i < TABLE_ENTRIES && (table[i] == 0 || table[i] > pos)
    ensures BestOf(band, pos, table, i + 1) == BestOf(band, pos, table, i)
  {
    hide BestOf, MatchLen;
    BestStep(band, pos, table, i);
  }

  /** A candidate that was tried becomes the best exactly when what was found is longer. */
  lemma Offered(band: seq<Byte>, pos: nat, table: Table, i: nat, n: nat)
    requires pos <= |band| && i < TABLE_ENTRIES && 1 <= table[i] <= pos
    requires var m, best := MatchLen(band, pos, table[i], Room(band, pos)), BestOf(band, pos, table, i).length;
             if m >= 3 && m > best then n == m else n <= best
    ensures var c := BestOf(band, pos, table, i);
            BestOf(band, pos, table, i + 1) == if n > c.length then Choice(n, i) else c
    ensures n > BestOf(band, pos, table, i).length ==> 3 <= n <= Room(band, pos)
  {
    hide BestOf, MatchLen;
    BestStep(band, pos, table, i);
  }

  /** One candidate: skipped on the byte test, measured otherwise. */
  method TryDistance(band: seq<Byte>, pos: nat, d: nat, max: nat, best: nat) returns (n: nat)
    requires 1 <= d <= pos && pos + max <= |band| && 3 <= max && best < max && best !in {1, 2}
    ensures var m := MatchLen(band, pos, d, max);
            if m >= 3 && m > best then n == m else n <= best
  {
    var s := pos - d;
    if (if best > 0 then band[s + best] != band[pos + best]
        else band[s] != band[pos] || band[s + 1] != band[pos + 1] || band[s + 2] != band[pos + 2]) {
      RejectionIsSound(band, pos, d, max, best);
      return 0;
    }
    n := MatchLenLoop(band, pos, d, max);
    if best == 0 {
      MatchLenIsGreatest(band, pos, d, max, 3);
    }
  }

  /** A candidate that fails the byte test cannot win. */
  lemma RejectionIsSound(band: seq<Byte>, pos: nat, d: nat, max: nat, best: nat)
    requires 1 <= d <= pos && pos + max <= |band| && 3 <= max && best < max
    requires if best > 0 then !Same(band, pos + best, d)
             else !(Same(band, pos, d) && Same(band, pos + 1, d) && Same(band, pos + 2, d))
    ensures MatchLen(band, pos, d, max) <= if best > 0 then best else 2
  {
    if best > 0 {
      MatchLenIsGreatest(band, pos, d, max, best + 1);
    } else {
      MatchLenIsGreatest(band, pos, d, max, 3);
    }
  }
}
