/** The choice of the table as the program makes it, with hash slots and a credit array. */
module Codec11Table {
  import opened Arith
  import opened Bytes
  import opened Codec11Format
  import opened Codec11Match
  import opened Codec11TableSpec

  /** What slot `k` of a hash row holds: a position plus one, or 0 if there are fewer positions. */
  function SlotValue(r: seq<nat>, k: nat): nat {
    if k < |r| then r[k] + 1 else 0
  }

  ghost predicate SlotsHold(slots: array2<U32>, band: seq<Byte>, n: nat)
    reads slots
  {
    && slots.Length0 == HASH_SIZE && slots.Length1 == SLOTS
    && forall h, k :: 0 <= h < HASH_SIZE && 0 <= k < SLOTS ==> slots[h, k] == SlotValue(Recent(band, n, h), k)
  }

  /** One more position shifts its row by one slot and leaves the other rows alone. */
  lemma SlotShift(band: seq<Byte>, pos: nat, g: nat, k: nat)
    requires Hashable(band, pos) && k < SLOTS
    ensures SlotValue(Recent(band, pos + 1, g), k)
            == if g != Hash3(band, pos) then SlotValue(Recent(band, pos, g), k)
               else if k == 0 then pos + 1 else SlotValue(Recent(band, pos, g), k - 1)
  {
    hide Hash3, Recent;
    RecentStep(band, pos, g);
  }

  method SlotInsert(slots: array2<U32>, band: seq<Byte>, pos: nat)
    requires Hashable(band, pos) && |band| < RANGE32 && SlotsHold(slots, band, pos)
    modifies slots
    ensures SlotsHold(slots, band, pos + 1)
  {
    hide Recent, SlotValue, Hash3;
    var h := Hash3(band, pos);
    for k := SLOTS - 1 downto 0
      invariant forall g, j :: 0 <= g < HASH_SIZE && 0 <= j < SLOTS && (g != h || j <= k) ==>
                  slots[g, j] == old(slots[g, j])
      invariant forall j :: k < j < SLOTS ==> slots[h, j] == old(slots[h, j - 1])
    {
      slots[h, k + 1] := slots[h, k];
    }
    slots[h, 0] := (pos + 1) % RANGE32;
    forall g, k | 0 <= g < HASH_SIZE && 0 <= k < SLOTS
      ensures slots[g, k] == SlotValue(Recent(band, pos + 1, g), k)
    {
      SlotShift(band, pos, g, k);
      assert old(slots[g, k]) == SlotValue(Recent(band, pos, g), k);
      assert k > 0 ==> old(slots[g, k - 1]) == SlotValue(Recent(band, pos, g), k - 1);
    }
  }

  method PickLoop(band: seq<Byte>, pos: nat, slots: array2<U32>) returns (c: Pick)
    requires Hashable(band, pos) && SlotsHold(slots, band, pos)
    ensures c == PickAt(band, pos)
  {
    hide Consider, Recent;
    var h := Hash3(band, pos);
    ghost var r := Recent(band, pos, h);
    c := Pick(0, 0);
    var k := 0;
    while k < SLOTS && slots[h, k] != 0
      invariant k <= |r| && c == PickRecent(band, pos, r, k)
    {
      assert slots[h, k] == SlotValue(r, k) && r[k] in r;
      var d := pos - (slots[h, k] - 1);
      k := k + 1;
      if d <= MAX_DIST {
        c := ConsiderDistance(band, pos, c, d);
      }
    }
    assert k == |r| by {
      assert k < SLOTS ==> slots[h, k] == SlotValue(r, k);
    }
    ghost var c0 := c;
    k := 0;
    while k < |COLUMNS| && COLUMNS[k] <= pos
      invariant k <= |COLUMNS| && c == PickColumns(band, pos, k, c0)
    {
      c := ConsiderDistance(band, pos, c, COLUMNS[k]);
      k := k + 1;
    }
    ColumnsOutOfReach(band, pos, k, c0);
  }

  method ConsiderDistance(band: seq<Byte>, pos: nat, c: Pick, d: nat) returns (r: Pick)
    requires d <= pos <= |band|
    ensures r == Consider(band, pos, c, d)
  {
    var n := MatchLenLoop(band, pos, d, Room(band, pos));
    r := if n >= 3 && n > c.length then Pick(n, d) else c;
  }

  /** The columns are in ascending order, so the loop may stop at the first one out of reach. */
  lemma {:induction false} ColumnsOutOfReach(band: seq<Byte>, pos: nat, k: nat, c: Pick)
    requires pos <= |band| && k <= |COLUMNS| && (k < |COLUMNS| ==> COLUMNS[k] > pos)
    ensures PickColumns(band, pos, |COLUMNS|, c) == PickColumns(band, pos, k, c)
    decreases |COLUMNS| - k
  {
    hide Consider;
    if k < |COLUMNS| {
      assert k + 1 < |COLUMNS| ==> COLUMNS[k] < COLUMNS[k + 1];
      ColumnsOutOfReach(band, pos, k + 1, c);
    }
  }

  lemma {:induction false} NothingToInsert(band: seq<Byte>, n: nat, m: nat, h: nat)
    requires n <= m && !Hashable(band, n)
    ensures Recent(band, m, h) == Recent(band, n, h)
    decreases m
  {
    if n < m {
      NothingToInsert(band, n, m - 1, h);
    }
  }

  method ChooseTable(band: seq<Byte>, table: array<U16>)
    requires |band| < RANGE32 && table.Length == TABLE_ENTRIES
    modifies table
    ensures table[..] == TableFor(band)
  {
    hide TopFrom, FillFrom, Credits;
    TableIsWellFormed(band);
    var credit := CreditLoop(band);
    var count := SelectLoop(credit, table);
    FillLoop(table, count);
  }

  /** The cheap parse; 32-bit credits cannot wrap, since no distance is credited more than the bytes parsed. */
  method CreditLoop(band: seq<Byte>) returns (credit: array<U32>)
    requires |band| < RANGE32
    ensures fresh(credit) && credit[..] == Credits(band)
  {
    hide CreditFrom, PickAt, Recent;
    credit := new U32[MAX_DIST + 1](i => 0);
    var slots := new U32[HASH_SIZE, SLOTS]((i, j) => 0);
    RecentOfNothing(band);
    assert credit[..] == NoCredit();
    var pos := 0;
    while Hashable(band, pos)
      invariant SlotsHold(slots, band, pos)
      invariant credit.Length == MAX_DIST + 1 && forall d :: 0 <= d < credit.Length ==> credit[d] <= pos
      invariant CreditFrom(band, pos, credit[..]) == Credits(band)
      decreases |band| - pos
    {
      var c := PickLoop(band, pos, slots);
      PickIsSound(band, pos);
      CreditStep(band, pos, credit[..]);
      SlotInsert(slots, band, pos);
      if c.length == 0 {
        pos := pos + 1;
        continue;
      }
      ghost var before := credit[..];
      credit[c.distance] := (credit[c.distance] + c.length) % RANGE32;
      assert credit[..] == before[c.distance := before[c.distance] + c.length];
      InsertCovered(band, slots, pos + 1, pos + c.length);
      pos := pos + c.length;
    }
    CreditEnd(band, pos, credit[..]);
  }

  /** The positions that a match covers enter the slots too, as far as they have three bytes. */
  method InsertCovered(band: seq<Byte>, slots: array2<U32>, from: nat, to: nat)
    requires from <= to && |band| < RANGE32 && SlotsHold(slots, band, from)
    modifies slots
    ensures SlotsHold(slots, band, to)
  {
    hide Recent;
    var q := from;
    while q < to && Hashable(band, q)
      invariant from <= q <= to && SlotsHold(slots, band, q)
    {
      SlotInsert(slots, band, q);
      q := q + 1;
    }
    if q < to {
      forall h | 0 <= h < HASH_SIZE
        ensures Recent(band, to, h) == Recent(band, q, h)
      {
        NothingToInsert(band, q, to, h);
      }
    }
  }

  lemma RecentOfNothing(band: seq<Byte>)
    ensures forall h :: Recent(band, 0, h) == []
  {
  }

  lemma CreditStep(band: seq<Byte>, pos: nat, credit: Credit)
    requires Hashable(band, pos) && Sound(band, pos, PickAt(band, pos))
    ensures var c := PickAt(band, pos);
            CreditFrom(band, pos, credit)
            == if c.length == 0 then CreditFrom(band, pos + 1, credit)
               else CreditFrom(band, pos + c.length, credit[c.distance := credit[c.distance] + c.length])
  {
  }

  lemma CreditEnd(band: seq<Byte>, pos: nat, credit: Credit)
    requires !Hashable(band, pos)
    ensures CreditFrom(band, pos, credit) == credit
  {
  }

  /** The 64 best-credited distances, most credit first. */
  method SelectLoop(credit: array<U32>, table: array<U16>) returns (count: nat)
    requires credit.Length == MAX_DIST + 1 && table.Length == TABLE_ENTRIES
    modifies credit, table
    ensures count <= TABLE_ENTRIES && table[..count] == TopFrom(old(credit[..]), [])
  {
    hide TopFrom, BestDistance;
    count := 0;
    assert table[..0] == [];
    while count < TABLE_ENTRIES
      invariant count <= TABLE_ENTRIES
      invariant TopFrom(credit[..], table[..count]) == TopFrom(old(credit[..]), [])
    {
      var bestD := BestDistanceLoop(credit);
      TopStep(credit[..], table[..count]);
      if bestD == 0 {
        break;
      }
      ghost var before, chosen := credit[..], table[..count];
      table[count] := bestD;
      count := count + 1;
      credit[bestD] := 0;
      assert credit[..] == before[bestD := 0] && table[..count] == chosen + [bestD];
    }
    TopStep(credit[..], table[..count]);
  }

  method BestDistanceLoop(credit: array<U32>) returns (bestD: nat)
    requires credit.Length == MAX_DIST + 1
    ensures bestD == BestDistance(credit[..], MAX_DIST)
  {
    var bestC := 0;
    bestD := 0;
    for d := 1 to MAX_DIST + 1
      invariant bestD == BestDistance(credit[..], d - 1)
      invariant bestC == if bestD == 0 then 0 else credit[bestD]
    {
      if credit[d] > bestC {
        bestC, bestD := credit[d], d;
      }
    }
  }

  lemma TopStep(credit: Credit, chosen: seq<U16>)
    requires |chosen| <= TABLE_ENTRIES
    ensures var d := BestDistance(credit, MAX_DIST);
            TopFrom(credit, chosen)
            == if |chosen| == TABLE_ENTRIES || d == 0 then chosen else TopFrom(credit[d := 0], chosen + [d])
  {
  }

  /** The rest from the default table, without duplicates. */
  method FillLoop(table: array<U16>, count0: nat)
    requires table.Length == TABLE_ENTRIES && count0 <= TABLE_ENTRIES
    requires |FillFrom(table[..count0], 0)| == TABLE_ENTRIES
    modifies table
    ensures table[..] == FillFrom(old(table[..count0]), 0)
  {
    hide FillFrom;
    var count: nat, i := count0, 0;
    ghost var goal := FillFrom(table[..count0], 0);
    while i < TABLE_ENTRIES && count < TABLE_ENTRIES
      invariant i <= |DEFAULT_TABLE| && count <= TABLE_ENTRIES
      invariant FillFrom(table[..count], i) == goal
    {
      var present := false;
      for k := 0 to count
        invariant !present && DEFAULT_TABLE[i] !in table[..k]
      {
        if table[k] == DEFAULT_TABLE[i] {
          present := true;
          break;
        }
      }
      FillStep(table[..count], i);
      if !present {
        ghost var chosen := table[..count];
        table[count] := DEFAULT_TABLE[i];
        count := count + 1;
        assert table[..count] == chosen + [DEFAULT_TABLE[i]];
      }
      i := i + 1;
    }
    FillStep(table[..count], i);
    assert table[..] == table[..count];
  }

  lemma FillStep(chosen: seq<U16>, i: nat)
    requires |chosen| <= TABLE_ENTRIES && i <= |DEFAULT_TABLE|
    ensures FillFrom(chosen, i)
            == if i == |DEFAULT_TABLE| || |chosen| == TABLE_ENTRIES then chosen
               else if DEFAULT_TABLE[i] in chosen then FillFrom(chosen, i + 1)
               else FillFrom(chosen + [DEFAULT_TABLE[i]], i + 1)
  {
  }
}
