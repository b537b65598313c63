/**
 * What the choice of the 64 distances is: a cheap parse credits distances with the bytes they
 * cover, the best-credited ones become the table, and a fixed table fills the gaps.
 */
module Codec11TableSpec {
  import opened Arith
  import opened Bytes
  import opened Counting
  import opened Codec11Format
  import opened Codec11Match

  const HASH_SIZE := 2048
  const SLOTS := 4
  const MAX_DIST := 4096

  const COLUMNS: seq<nat> :=
    [128, 256, 384, 512, 640, 768, 896, 1024, 1152, 1280, 1408, 1536, 1664, 1792, 1920, 2048]

  const ROW0: seq<U16> := [1, 2, 3, 4, 5, 6, 7, 8, 9, 10, 11, 12, 13, 14, 15, 16]
  const ROW1: seq<U16> := [17, 18, 19, 20, 21, 22, 23, 24, 32, 40, 48, 56, 64, 126, 130, 136]
  const ROW2: seq<U16> := [127, 128, 129, 255, 256, 257, 383, 384, 385, 511, 512, 513, 639, 640, 641, 767]
  const ROW3: seq<U16> := [768, 769, 895, 896, 897, 1023, 1024, 1025, 1152, 1280, 1408, 1536, 1664, 1792, 1920, 2048]
  const DEFAULT_TABLE: seq<U16> := ROW0 + ROW1 + ROW2 + ROW3

  // ---- candidates

  /** Does the band have three bytes at `p` to hash? */
  predicate Hashable(band: seq<Byte>, p: nat) {
    p + 3 <= |band|
  }

  function Hash3(band: seq<Byte>, p: nat): (h: nat)
    requires Hashable(band, p)
    ensures h < HASH_SIZE
  {
    var a: int, b: int, c: int := band[p], band[p + 1], band[p + 2];
    (a * 0x1_0000 + b * 0x100 + c) * 2654435761 % RANGE32 / 0x20_0000
  }

  /** The most recent positions before `n` whose next three bytes hash to `h`, latest first, at most 4. */
  function Recent(band: seq<Byte>, n: nat, h: nat): (r: seq<nat>)
    ensures |r| <= SLOTS
    ensures forall q <- r :: q < n && Hashable(band, q) && Hash3(band, q) == h
  {
    hide Hash3;
    if n == 0 then []
    else
      var r := Recent(band, n - 1, h);
      if Hashable(band, n - 1) && Hash3(band, n - 1) == h then Latest(n - 1, r) else r
  }

  /** One more position in front; the fifth falls off. */
  function Latest(first: nat, r: seq<nat>): (s: seq<nat>)
    requires |r| <= SLOTS
    ensures |s| == Min(|r| + 1, SLOTS) && forall q <- s :: q == first || q in r
  {
    if |r| < SLOTS then [first] + r else [first] + r[..SLOTS - 1]
  }

  lemma RecentStep(band: seq<Byte>, n: nat, h: nat)
    ensures var r, s := Recent(band, n, h), Recent(band, n + 1, h);
            if !Hashable(band, n) || Hash3(band, n) != h then s == r
            else && |s| == Min(|r| + 1, SLOTS) && s[0] == n
                 && forall k :: 1 <= k < |s| ==> s[k] == r[k - 1]
  {
    hide Hash3;
  }

  /** A match found by the cheap parse; length 0 stands for none. */
  datatype Pick = Pick(length: nat, distance: nat)

  /** The longer of a pick and the match at one more distance, the earlier one on ties. */
  function Consider(band: seq<Byte>, pos: nat, c: Pick, d: nat): (r: Pick)
    requires d <= pos <= |band|
  {
    var n := MatchLen(band, pos, d, Room(band, pos));
    if n >= 3 && n > c.length then Pick(n, d) else c
  }

  /** The best of the first `k` recent positions that are near enough. */
  function PickRecent(band: seq<Byte>, pos: nat, r: seq<nat>, k: nat): (c: Pick)
    requires pos <= |band| && k <= |r| && forall q <- r :: q < pos
  {
    if k == 0 then Pick(0, 0)
    else
      var c := PickRecent(band, pos, r, k - 1);
      assert r[k - 1] in r;
      if pos - r[k - 1] > MAX_DIST then c else Consider(band, pos, c, pos - r[k - 1])
  }

  /** ... and of the first `k` byte-columns to the left. */
  function PickColumns(band: seq<Byte>, pos: nat, k: nat, c: Pick): (r: Pick)
    requires pos <= |band| && k <= |COLUMNS|
  {
    if k == 0 then c
    else
      var c' := PickColumns(band, pos, k - 1, c);
      if COLUMNS[k - 1] > pos then c' else Consider(band, pos, c', COLUMNS[k - 1])
  }

  function PickAt(band: seq<Byte>, pos: nat): (c: Pick)
    requires Hashable(band, pos)
  {
    var r := Recent(band, pos, Hash3(band, pos));
    PickColumns(band, pos, |COLUMNS|, PickRecent(band, pos, r, |r|))
  }

  // ---- credits

  /** Credit per distance, from 0 (unused) to MAX_DIST. */
  type Credit = c: seq<nat> | |c| == MAX_DIST + 1 witness seq(MAX_DIST + 1, i => 0)

  ghost predicate Sound(band: seq<Byte>, pos: nat, c: Pick)
    requires pos <= |band|
  {
    c.length == 0 ||
    (3 <= c.length <= Room(band, pos) && 1 <= c.distance <= MAX_DIST && c.distance <= pos
     && Repeats(band, pos, c.distance, c.length))
  }

  lemma {:induction false} PickRecentIsSound(band: seq<Byte>, pos: nat, r: seq<nat>, k: nat)
    requires pos <= |band| && k <= |r| && forall q <- r :: q < pos
    ensures Sound(band, pos, PickRecent(band, pos, r, k))
  {
    hide MatchLen;
    if k > 0 {
      assert r[k - 1] in r;
      PickRecentIsSound(band, pos, r, k - 1);
    }
  }

  lemma {:induction false} PickColumnsIsSound(band: seq<Byte>, pos: nat, k: nat, c: Pick)
    requires pos <= |band| && k <= |COLUMNS| && Sound(band, pos, c)
    ensures Sound(band, pos, PickColumns(band, pos, k, c))
  {
    hide MatchLen;
    if k > 0 {
      PickColumnsIsSound(band, pos, k - 1, c);
    }
  }

  /** Whatever the cheap parse picks really repeats, at a distance that a table entry may name. */
  lemma PickIsSound(band: seq<Byte>, pos: nat)
    requires Hashable(band, pos)
    ensures Sound(band, pos, PickAt(band, pos))
  {
    var r := Recent(band, pos, Hash3(band, pos));
    PickRecentIsSound(band, pos, r, |r|);
    PickColumnsIsSound(band, pos, |COLUMNS|, PickRecent(band, pos, r, |r|));
  }

  /** The credits after a parse from `pos` on. */
  function CreditFrom(band: seq<Byte>, pos: nat, credit: Credit): Credit
    decreases |band| - pos
  {
    if !Hashable(band, pos) then credit
    else
      var c := PickAt(band, pos);
      if c.length == 0 then CreditFrom(band, pos + 1, credit)
      else
        PickIsSound(band, pos);
        CreditFrom(band, pos + c.length, credit[c.distance := credit[c.distance] + c.length])
  }

  function NoCredit(): Credit {
    seq(MAX_DIST + 1, i => 0)
  }

  function Credits(band: seq<Byte>): Credit {
    CreditFrom(band, 0, NoCredit())
  }

  // ---- selection

  /** The first distance from 1 to `k` with the most credit; 0 if there is no credit. */
  function BestDistance(credit: Credit, k: nat): (d: nat)
    requires k <= MAX_DIST
    ensures d <= k
    ensures d == 0 ==> forall e :: 1 <= e <= k ==> credit[e] == 0
    ensures d > 0 ==>
              && credit[d] > 0
              && forall e :: 1 <= e <= k ==> credit[e] <= credit[d] && (e < d ==> credit[e] < credit[d])
  {
    if k == 0 then 0
    else
      var d := BestDistance(credit, k - 1);
      if credit[k] > (if d == 0 then 0 else credit[d]) then k else d
  }

  /** The distances that are chosen one after another, each taken out once it is chosen. */
  function TopFrom(credit: Credit, chosen: seq<U16>): (r: seq<U16>)
    requires |chosen| <= TABLE_ENTRIES
    ensures chosen <= r && |r| <= TABLE_ENTRIES
    decreases TABLE_ENTRIES - |chosen|
  {
    var d := BestDistance(credit, MAX_DIST);
    if |chosen| == TABLE_ENTRIES || d == 0 then chosen else TopFrom(credit[d := 0], chosen + [d])
  }

  /** `chosen` filled up with the entries of the default table from `i` on that it lacks. */
  function FillFrom(chosen: seq<U16>, i: nat): (r: seq<U16>)
    requires |chosen| <= TABLE_ENTRIES && i <= |DEFAULT_TABLE|
    ensures chosen <= r && |r| <= TABLE_ENTRIES
    decreases |DEFAULT_TABLE| - i
  {
    if i == |DEFAULT_TABLE| || |chosen| == TABLE_ENTRIES then chosen
    else if DEFAULT_TABLE[i] in chosen then FillFrom(chosen, i + 1)
    else FillFrom(chosen + [DEFAULT_TABLE[i]], i + 1)
  }

  function TableFor(band: seq<Byte>): seq<U16> {
    FillFrom(TopFrom(Credits(band), []), 0)
  }

  // ---- what the parse credits

  /** The slots a hash row must hold: no position with the same hash is passed over for an older one. */
  lemma {:induction false} RecentIsMostRecent(band: seq<Byte>, n: nat, h: nat, q: nat)
    requires q < n && Hashable(band, q) && Hash3(band, q) == h
    ensures var r := Recent(band, n, h);
            q in r || (|r| == SLOTS && forall p <- r :: q < p)
  {
    hide Hash3;
    if q < n - 1 {
      RecentIsMostRecent(band, n - 1, h, q);
      var r := Recent(band, n - 1, h);
      if Hashable(band, n - 1) && Hash3(band, n - 1) == h {
        var s := Recent(band, n, h);
        if |r| < SLOTS {
          assert s == [n - 1] + r;
        } else {
          assert s == [n - 1] + r[..SLOTS - 1];
          RecentDescends(band, n - 1, h);
          assert forall i :: 0 <= i < SLOTS - 1 ==> r[i] > r[SLOTS - 1];
          assert r[SLOTS - 1] in r;
        }
      }
    }
  }

  lemma {:induction false} RecentDescends(band: seq<Byte>, n: nat, h: nat)
    ensures var r := Recent(band, n, h);
            forall i, j :: 0 <= i < j < |r| ==> r[i] > r[j]
  {
    hide Hash3;
    if n > 0 {
      RecentDescends(band, n - 1, h);
      var r := Recent(band, n - 1, h);
      forall i | 0 <= i < |r|
        ensures r[i] < n - 1
      {
        assert r[i] in r;
      }
      RecentStep(band, n - 1, h);
    }
  }

  lemma {:induction false} PickRecentIsBest(band: seq<Byte>, pos: nat, r: seq<nat>, k: nat, i: nat)
    requires pos <= |band| && i < k <= |r| && (forall q <- r :: q < pos) && pos - r[i] <= MAX_DIST
    ensures r[i] in r && MatchLen(band, pos, pos - r[i], Room(band, pos)) <= Reach(PickRecent(band, pos, r, k))
  {
    hide MatchLen;
    assert r[i] in r && r[k - 1] in r;
    if i < k - 1 {
      PickRecentIsBest(band, pos, r, k - 1, i);
    }
  }

  /** What a pick rules out: no candidate has a longer match, or 3 bytes if there is no pick. */
  function Reach(c: Pick): nat {
    if c.length >= 3 then c.length else 2
  }

  lemma {:induction false} PickColumnsIsBest(band: seq<Byte>, pos: nat, k: nat, c: Pick, i: nat)
    requires pos <= |band| && k <= |COLUMNS|
    ensures Reach(c) <= Reach(PickColumns(band, pos, k, c))
    ensures i < k && COLUMNS[i] <= pos
            ==> MatchLen(band, pos, COLUMNS[i], Room(band, pos)) <= Reach(PickColumns(band, pos, k, c))
  {
    hide MatchLen;
    if k > 0 {
      PickColumnsIsBest(band, pos, k - 1, c, i);
    }
  }

  /** The pick is the longest match among the recent positions of the same hash and the byte-columns. */
  lemma PickIsBest(band: seq<Byte>, pos: nat, d: nat)
    requires Hashable(band, pos) && 1 <= d <= pos
    requires (d <= MAX_DIST && pos - d in Recent(band, pos, Hash3(band, pos))) || d in COLUMNS
    ensures MatchLen(band, pos, d, Room(band, pos)) <= Reach(PickAt(band, pos))
  {
    hide MatchLen, Recent, PickRecent, PickColumns;
    var r := Recent(band, pos, Hash3(band, pos));
    var c := PickRecent(band, pos, r, |r|);
    if d in COLUMNS {
      var i :| 0 <= i < |COLUMNS| && COLUMNS[i] == d;
      PickColumnsIsBest(band, pos, |COLUMNS|, c, i);
    } else {
      var i :| 0 <= i < |r| && r[i] == pos - d;
      PickRecentIsBest(band, pos, r, |r|, i);
      PickColumnsIsBest(band, pos, |COLUMNS|, c, 0);
    }
  }

  function Total(credit: seq<nat>): nat {
    if credit == [] then 0 else Total(credit[..|credit| - 1]) + credit[|credit| - 1]
  }

  lemma {:induction false} TotalUpdate(credit: seq<nat>, d: nat, v: nat)
    requires d < |credit|
    ensures Total(credit[d := v]) + credit[d] == Total(credit) + v
  {
    var n := |credit| - 1;
    assert credit[d := v][..n] == if d < n then credit[..n][d := v] else credit[..n];
    if d < n {
      TotalUpdate(credit[..n], d, v);
    }
  }

  /** The parse skips what it credits, so the credits never add up to more than the band. */
  lemma {:induction false} CreditIsBounded(band: seq<Byte>, pos: nat, credit: Credit)
    requires pos <= |band|
    ensures Total(CreditFrom(band, pos, credit)) <= Total(credit) + |band| - pos
    decreases |band| - pos
  {
    hide PickAt, Total;
    if Hashable(band, pos) {
      var c := PickAt(band, pos);
      PickIsSound(band, pos);
      if c.length == 0 {
        CreditIsBounded(band, pos + 1, credit);
      } else {
        TotalUpdate(credit, c.distance, credit[c.distance] + c.length);
        CreditIsBounded(band, pos + c.length, credit[c.distance := credit[c.distance] + c.length]);
      }
    }
  }

  lemma {:induction false} TotalOfZeros(n: nat)
    ensures Total(seq(n, i => 0)) == 0
  {
    if n > 0 {
      assert seq(n, i => 0)[..n - 1] == seq(n - 1, i => 0);
      TotalOfZeros(n - 1);
    }
  }

  lemma CreditsAreBounded(band: seq<Byte>)
    ensures Total(Credits(band)) <= |band|
  {
    hide Total, CreditFrom;
    TotalOfZeros(MAX_DIST + 1);
    assert NoCredit() == seq(MAX_DIST + 1, i => 0);
    CreditIsBounded(band, 0, NoCredit());
  }

  /** Every credited distance has a place where at least three bytes repeat at that distance. */
  lemma {:induction false} CreditHasWitness(band: seq<Byte>, pos: nat, credit: Credit, d: nat) returns (p: nat)
    requires d <= MAX_DIST && CreditFrom(band, pos, credit)[d] > credit[d]
    ensures pos <= p && Hashable(band, p) && 1 <= d <= p && Repeats(band, p, d, 3)
    decreases |band| - pos
  {
    hide PickAt;
    PickIsSound(band, pos);
    var c := PickAt(band, pos);
    if c.length == 0 {
      p := CreditHasWitness(band, pos + 1, credit, d);
    } else if c.distance == d {
      p := pos;
    } else {
      p := CreditHasWitness(band, pos + c.length, credit[c.distance := credit[c.distance] + c.length], d);
    }
  }

  // ---- what is selected

  predicate Ahead(credit: Credit, a: nat, b: nat)
    requires a <= MAX_DIST && b <= MAX_DIST
  {
    credit[a] > credit[b] || (credit[a] == credit[b] && a < b)
  }

  ghost predicate Creditable(credit: Credit, d: nat) {
    1 <= d <= MAX_DIST && credit[d] > 0
  }

  /** `sel` lists distances with credit, best first, and none that is ahead of them is left out. */
  ghost predicate IsRanked(credit: Credit, sel: seq<U16>) {
    && (forall i :: 0 <= i < |sel| ==> Creditable(credit, sel[i]))
    && (forall i, j :: 0 <= i < j < |sel| ==> Ahead(credit, sel[i], sel[j]))
    && (forall i, d :: 0 <= i < |sel| && Creditable(credit, d) && d !in sel ==> Ahead(credit, sel[i], d))
  }

  /** The top 64: ranked, and shorter than 64 only if every distance with credit is in it. */
  ghost predicate IsTop(credit: Credit, sel: seq<U16>) {
    && IsRanked(credit, sel) && |sel| <= TABLE_ENTRIES
    && (|sel| < TABLE_ENTRIES ==> forall d :: Creditable(credit, d) ==> d in sel)
  }

  ghost predicate Remaining(credit: Credit, sel: seq<U16>, left: Credit) {
    forall d :: 0 <= d <= MAX_DIST ==> left[d] == if d in sel then 0 else credit[d]
  }

  lemma {:induction false} TopFromIsTop(credit: Credit, chosen: seq<U16>, left: Credit)
    requires IsRanked(credit, chosen) && |chosen| <= TABLE_ENTRIES && Remaining(credit, chosen, left)
    ensures IsTop(credit, TopFrom(left, chosen))
    decreases TABLE_ENTRIES - |chosen|
  {
    var d := BestDistance(left, MAX_DIST);
    if |chosen| < TABLE_ENTRIES && d > 0 {
      assert d !in chosen;
      forall e: nat | Creditable(credit, e) && e !in chosen && e != d
        ensures Ahead(credit, d, e)
      {
        assert left[e] == credit[e] && left[e] <= left[d];
      }
      TopFromIsTop(credit, chosen + [d], left[d := 0]);
    } else if |chosen| < TABLE_ENTRIES {
      assert forall e: nat :: Creditable(credit, e) ==> left[e] == 0;
    }
  }

  /** There is only one top 64. */
  lemma {:induction false} TopIsUnique(credit: Credit, s: seq<U16>, t: seq<U16>, k: nat)
    requires IsTop(credit, s) && IsTop(credit, t) && k <= |s| && k <= |t|
    ensures s[..k] == t[..k]
  {
    if k > 0 {
      TopIsUnique(credit, s, t, k - 1);
      var a, b := s[k - 1], t[k - 1];
      if a != b {
        NextOfTop(credit, s, t, k - 1);
        NextOfTop(credit, t, s, k - 1);
      }
      assert s[..k] == s[..k - 1] + [a] && t[..k] == t[..k - 1] + [b];
    }
  }

  lemma NextOfTop(credit: Credit, s: seq<U16>, t: seq<U16>, k: nat)
    requires IsTop(credit, s) && IsTop(credit, t) && k < |s| && k < |t| && s[..k] == t[..k]
    ensures s[k] == t[k] || Ahead(credit, s[k], t[k])
  {
    forall i | 0 <= i < k
      ensures s[i] != t[k]
    {
      assert s[i] == s[..k][i] == t[..k][i];
      assert Ahead(credit, t[i], t[k]);
    }
  }

  lemma TopLength(credit: Credit, s: seq<U16>, t: seq<U16>)
    requires IsTop(credit, s) && IsTop(credit, t)
    ensures |s| <= |t|
  {
    if |t| < |s| {
      TopIsUnique(credit, s, t, |t|);
      forall i | 0 <= i < |t|
        ensures t[i] != s[|t|]
      {
        assert t[i] == t[..|t|][i] == s[..|t|][i];
        assert Ahead(credit, s[i], s[|t|]);
      }
    }
  }

  lemma TopFromIsTheTop(credit: Credit, s: seq<U16>)
    ensures s == TopFrom(credit, []) <==> IsTop(credit, s)
  {
    hide TopFrom;
    TopFromIsTop(credit, [], credit);
    var t := TopFrom(credit, []);
    if IsTop(credit, s) {
      TopLength(credit, s, t);
      TopLength(credit, t, s);
      TopIsUnique(credit, s, t, |s|);
      assert s == s[..|s|] && t == t[..|t|];
    }
  }

  // ---- what fills the table

  ghost predicate Ascending(s: seq<U16>) {
    forall i :: 0 <= i < |s| - 1 ==> s[i] < s[i + 1]
  }

  lemma {:induction false} AscendingPair(s: seq<U16>, i: nat, j: nat)
    requires Ascending(s) && i < j < |s|
    ensures s[i] < s[j]
  {
    if i < j - 1 {
      AscendingPair(s, i, j - 1);
    }
  }

  lemma AscendingIsDistinct(s: seq<U16>)
    requires Ascending(s)
    ensures Distinct(s)
  {
    forall i, j | 0 <= i < j < |s|
      ensures s[i] != s[j]
    {
      AscendingPair(s, i, j);
    }
  }

  lemma DefaultRows()
    ensures Ascending(ROW0) && Ascending(ROW1) && Ascending(ROW2) && Ascending(ROW3)
    ensures forall i :: 0 <= i < 16 ==> 1 <= ROW0[i] <= 16 && (17 <= ROW1[i] <= 126 || ROW1[i] == 130 || ROW1[i] == 136)
    ensures forall i :: 0 <= i < 16 ==> (127 <= ROW2[i] <= 129 || 255 <= ROW2[i] <= 767) && 768 <= ROW3[i] <= 2048
  {
  }

  lemma DistinctRows(r0: seq<U16>, r1: seq<U16>, r2: seq<U16>, r3: seq<U16>)
    requires Distinct(r0) && Distinct(r1) && Distinct(r2) && Distinct(r3) && |r0| == |r1| == |r2| == |r3| == 16
    requires forall i :: 0 <= i < 16 ==> 1 <= r0[i] <= 16 && (17 <= r1[i] <= 126 || r1[i] == 130 || r1[i] == 136)
    requires forall i :: 0 <= i < 16 ==> (127 <= r2[i] <= 129 || 255 <= r2[i] <= 767) && 768 <= r3[i] <= 2048
    ensures Distinct(r0 + r1 + r2 + r3) && forall x <- r0 + r1 + r2 + r3 :: 1 <= x <= MAX_DIST
  {
    assert Distinct(r0 + r1);
    assert Distinct(r0 + r1 + r2);
  }

  lemma DefaultTableIsDistinct()
    ensures Distinct(DEFAULT_TABLE) && forall x <- DEFAULT_TABLE :: 1 <= x <= MAX_DIST
  {
    DefaultRows();
    AscendingIsDistinct(ROW0);
    AscendingIsDistinct(ROW1);
    AscendingIsDistinct(ROW2);
    AscendingIsDistinct(ROW3);
    DistinctRows(ROW0, ROW1, ROW2, ROW3);
  }

  ghost predicate WellFormed(table: seq<U16>) {
    Distinct(table) && forall d <- table :: 1 <= d <= MAX_DIST
  }

  /** Filling keeps a well-formed table well formed and never runs short of default entries. */
  lemma {:induction false} FillIsWellFormed(def: seq<U16>, chosen: seq<U16>, i: nat)
    requires def == DEFAULT_TABLE && WellFormed(def) && WellFormed(chosen)
    requires |chosen| <= TABLE_ENTRIES && i <= |def| == TABLE_ENTRIES
    requires forall j :: 0 <= j < i ==> def[j] in chosen
    ensures var r := FillFrom(chosen, i);
            |r| == TABLE_ENTRIES && WellFormed(r)
    decreases |def| - i
  {
    hide DEFAULT_TABLE;
    if i == |def| {
      Pigeonhole(def, chosen);
    } else if |chosen| < TABLE_ENTRIES {
      assert def[i] in def;
      if def[i] in chosen {
        FillIsWellFormed(def, chosen, i + 1);
      } else {
        FillIsWellFormed(def, chosen + [def[i]], i + 1);
      }
    }
  }

  /** For every band the chosen table has exactly 64 entries, none zero, none above 4096, none twice. */
  lemma TableIsWellFormed(band: seq<Byte>)
    ensures |TableFor(band)| == TABLE_ENTRIES && WellFormed(TableFor(band))
  {
    hide TopFrom, FillFrom, Credits;
    DefaultTableIsDistinct();
    var top := TopFrom(Credits(band), []);
    TopFromIsTheTop(Credits(band), top);
    FillIsWellFormed(DEFAULT_TABLE, top, 0);
  }
}
