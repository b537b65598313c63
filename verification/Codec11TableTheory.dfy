/** What the chosen table is, said without the parse that finds it: first longest matches, credit sums, gaps filled. */
module Codec11TableTheory {
  import opened Arith
  import opened Bytes
  import opened Counting
  import opened Codec11Format
  import opened Codec11Match
  import opened Codec11TableSpec

  // ---- the pick at one position

  /** The hash is the 11 bits below bit 32 of the product, for three bytes read high byte first. */
  lemma HashMeaning(band: seq<Byte>, p: nat, h: nat)
    requires p + 3 <= |band|
    ensures Hash3(band, p) == h <==>
              h < 2048 && exists k: nat, low: nat :: low < 2097152 && HashProduct(band, p) == HashWord(k, h, low)
  {
    var x := HashProduct(band, p);
    var w := x % 4294967296;
    assert x == HashWord(x / 4294967296, w / 2097152, w % 2097152);
    forall k: nat, low: nat | h < 2048 && low < 2097152 && x == HashWord(k, h, low)
      ensures Hash3(band, p) == h
    {
      DivModUnique(x, 4294967296, k, h * 2097152 + low);
      DivModUnique(h * 2097152 + low, 2097152, h, low);
    }
  }

  function HashProduct(band: seq<Byte>, p: nat): nat
    requires p + 3 <= |band|
  {
    (band[p] as int * 65536 + band[p + 1] as int * 256 + band[p + 2]) * 2654435761
  }

  function HashWord(k: nat, h: nat, low: nat): nat {
    k * 4294967296 + (h * 2097152 + low)
  }

  /** The distances back to the first `k` positions of `r`, in that order, without those above 4096. */
  function Distances(pos: nat, r: seq<nat>, k: nat): (ds: seq<nat>)
    requires k <= |r| && forall q <- r :: q < pos
    ensures forall d <- ds :: 1 <= d <= pos
  {
    if k == 0 then []
    else
      assert r[k - 1] in r;
      var ds := Distances(pos, r, k - 1);
      if pos - r[k - 1] > 4096 then ds else ds + [pos - r[k - 1]]
  }

  /** The multiples of 128 from 128 to 128 * `k` that are at most `pos`. */
  function Columns(pos: nat, k: nat): (ds: seq<nat>)
    ensures |ds| == (if k * 128 <= pos then k else pos / 128)
    ensures forall i :: 0 <= i < |ds| ==> ds[i] == 128 * (i + 1) <= pos
  {
    seq(if k * 128 <= pos then k else pos / 128, i => 128 * (i + 1))
  }

  /** Everything that is tried at `pos`, in order: the recent positions of the same hash, then the 16 columns. */
  function Candidates(band: seq<Byte>, pos: nat): seq<nat>
    requires pos + 3 <= |band|
  {
    var r := Recent(band, pos, Hash3(band, pos));
    Distances(pos, r, |r|) + Columns(pos, 16)
  }

  /** No distance in the list repeats three bytes. */
  ghost predicate Quiet(band: seq<Byte>, pos: nat, ds: seq<nat>) {
    forall i :: 0 <= i < |ds| ==> !Matches(band, pos, ds[i], 3)
  }

  /** `c` is the longest match in the list, and every distance listed before it matches strictly shorter. */
  ghost predicate IsFirstLongest(band: seq<Byte>, pos: nat, ds: seq<nat>, c: Pick, i: nat) {
    && 3 <= c.length && i < |ds| && c.distance == ds[i] && Matches(band, pos, ds[i], c.length)
    && forall j: nat, n: nat :: j < |ds| && Matches(band, pos, ds[j], n) ==> n <= c.length && (j < i ==> n < c.length)
  }

  ghost predicate IsPick(band: seq<Byte>, pos: nat, ds: seq<nat>, c: Pick) {
    if c.length == 0 then c.distance == 0 && Quiet(band, pos, ds)
    else exists i: nat :: IsFirstLongest(band, pos, ds, c, i)
  }

  /** One more distance in the list: the pick moves to it only if it matches longer. */
  lemma ConsiderPicks(band: seq<Byte>, pos: nat, ds: seq<nat>, c: Pick, d: nat)
    requires 1 <= d <= pos <= |band| && IsPick(band, pos, ds, c)
    ensures IsPick(band, pos, ds + [d], Consider(band, pos, c, d))
  {
    hide Matches, MatchLen;
    var n, all := MatchLen(band, pos, d, Room(band, pos)), ds + [d];
    forall m: nat
      ensures Matches(band, pos, d, m) <==> m <= n
    {
      MatchesUpToMatchLen(band, pos, d, m);
    }
    assert forall j :: 0 <= j < |ds| ==> all[j] == ds[j];
    assert all[|ds|] == d;
    if n >= 3 && n > c.length {
      if c.length == 0 {
        QuietIsShort(band, pos, ds);
      }
      assert IsFirstLongest(band, pos, all, Pick(n, d), |ds|);
    } else if c.length > 0 {
      var i: nat :| IsFirstLongest(band, pos, ds, c, i);
      assert IsFirstLongest(band, pos, all, c, i);
    }
  }

  lemma QuietIsShort(band: seq<Byte>, pos: nat, ds: seq<nat>)
    requires Quiet(band, pos, ds)
    ensures forall j: nat, n: nat :: j < |ds| && Matches(band, pos, ds[j], n) ==> n < 3
  {
    forall j: nat, n: nat | j < |ds| && Matches(band, pos, ds[j], n)
      ensures n < 3
    {
      if n >= 3 {
        ShorterMatches(band, pos, ds[j], n);
      }
    }
  }

  lemma ShorterMatches(band: seq<Byte>, pos: nat, d: nat, n: nat)
    requires Matches(band, pos, d, n) && n >= 3
    ensures Matches(band, pos, d, 3)
  {
  }

  lemma {:induction false} RecentPicks(band: seq<Byte>, pos: nat, r: seq<nat>, k: nat)
    requires pos <= |band| && k <= |r| && forall q <- r :: q < pos
    ensures IsPick(band, pos, Distances(pos, r, k), PickRecent(band, pos, r, k))
  {
    hide Consider, IsFirstLongest;
    if k > 0 {
      assert r[k - 1] in r;
      RecentPicks(band, pos, r, k - 1);
      if pos - r[k - 1] <= MAX_DIST {
        ConsiderPicks(band, pos, Distances(pos, r, k - 1), PickRecent(band, pos, r, k - 1), pos - r[k - 1]);
      }
    }
  }

  lemma ColumnsStep(pos: nat, k: nat)
    requires k < |COLUMNS|
    ensures Columns(pos, k + 1) == Columns(pos, k) + if COLUMNS[k] > pos then [] else [COLUMNS[k]]
  {
    assert COLUMNS[k] == 128 * (k + 1);
  }

  lemma {:induction false} ColumnsPick(band: seq<Byte>, pos: nat, ds: seq<nat>, c: Pick, k: nat)
    requires pos <= |band| && k <= |COLUMNS| && IsPick(band, pos, ds, c)
    ensures IsPick(band, pos, ds + Columns(pos, k), PickColumns(band, pos, k, c))
  {
    hide Consider, IsFirstLongest, Columns, Quiet;
    if k == 0 {
      NoColumns(pos, ds);
    } else {
      ColumnsPick(band, pos, ds, c, k - 1);
      ColumnsStep(pos, k - 1);
      var before := ds + Columns(pos, k - 1);
      if COLUMNS[k - 1] > pos {
        assert ds + (Columns(pos, k - 1) + []) == before;
      } else {
        ConsiderPicks(band, pos, before, PickColumns(band, pos, k - 1, c), COLUMNS[k - 1]);
        Assoc(ds, Columns(pos, k - 1), [COLUMNS[k - 1]]);
      }
    }
  }

  lemma NoColumns(pos: nat, ds: seq<nat>)
    ensures ds + Columns(pos, 0) == ds
  {
  }

  lemma PickIsUnique(band: seq<Byte>, pos: nat, ds: seq<nat>, c: Pick, e: Pick)
    requires IsPick(band, pos, ds, c) && IsPick(band, pos, ds, e)
    ensures c == e
  {
    hide Matches;
    if c.length == 0 || e.length == 0 {
      QuietOrLongest(band, pos, ds, c);
      QuietOrLongest(band, pos, ds, e);
    } else {
      var i: nat :| IsFirstLongest(band, pos, ds, c, i);
      var j: nat :| IsFirstLongest(band, pos, ds, e, j);
      assert Matches(band, pos, ds[i], c.length) && Matches(band, pos, ds[j], e.length);
    }
  }

  lemma QuietOrLongest(band: seq<Byte>, pos: nat, ds: seq<nat>, c: Pick)
    requires IsPick(band, pos, ds, c)
    ensures c.length == 0 <==> Quiet(band, pos, ds)
  {
    if c.length > 0 {
      var i: nat :| IsFirstLongest(band, pos, ds, c, i);
      assert Matches(band, pos, ds[i], 3);
    }
  }

  /** The cheap parse picks the first of the longest matches among all candidates, and nothing else. */
  lemma PickMeaning(band: seq<Byte>, pos: nat, c: Pick)
    requires Hashable(band, pos)
    ensures c == PickAt(band, pos) <==> IsPick(band, pos, Candidates(band, pos), c)
  {
    hide IsPick, Columns, Distances, PickRecent, PickColumns, Recent, Hash3;
    var r := Recent(band, pos, Hash3(band, pos));
    RecentPicks(band, pos, r, |r|);
    ColumnsPick(band, pos, Distances(pos, r, |r|), PickRecent(band, pos, r, |r|), 16);
    if IsPick(band, pos, Candidates(band, pos), c) {
      PickIsUnique(band, pos, Candidates(band, pos), c, PickAt(band, pos));
    }
  }

  // ---- the credits

  /** A match that the parse takes, and where. */
  datatype Step = Step(pos: nat, pick: Pick)

  ghost predicate QuietBetween(band: seq<Byte>, from: nat, to: nat) {
    forall p: nat :: from <= p < to && p + 3 <= |band| ==> Quiet(band, p, Candidates(band, p))
  }

  /** The picks one after another: nothing matches before a step, and the next search starts behind its match. */
  ghost predicate IsParse(band: seq<Byte>, from: nat, steps: seq<Step>)
    decreases |steps|
  {
    if steps == [] then QuietBetween(band, from, |band|)
    else
      var s := steps[0];
      && from <= s.pos && s.pos + 3 <= |band| && QuietBetween(band, from, s.pos)
      && s.pick.length > 0 && IsPick(band, s.pos, Candidates(band, s.pos), s.pick)
      && IsParse(band, s.pos + s.pick.length, steps[1..])
  }

  /** The number of bytes that the steps cover at distance `d`. */
  function CreditOf(steps: seq<Step>, d: nat): nat {
    if steps == [] then 0
    else (if steps[0].pick.distance == d then steps[0].pick.length else 0) + CreditOf(steps[1..], d)
  }

  ghost predicate AddsUp(credit: Credit, steps: seq<Step>) {
    forall d :: 0 <= d <= 4096 ==> credit[d] == CreditOf(steps, d)
  }

  lemma {:induction false} ParseExists(band: seq<Byte>, pos: nat, credit: Credit) returns (steps: seq<Step>)
    requires pos <= |band|
    ensures IsParse(band, pos, steps)
    ensures forall d :: 0 <= d <= 4096 ==> CreditFrom(band, pos, credit)[d] == credit[d] + CreditOf(steps, d)
    decreases |band| - pos
  {
    hide IsPick, PickAt, Candidates;
    steps := [];
    if Hashable(band, pos) {
      var c := PickAt(band, pos);
      PickMeaning(band, pos, c);
      PickIsSound(band, pos);
      QuietOrLongest(band, pos, Candidates(band, pos), c);
      if c.length == 0 {
        steps := ParseExists(band, pos + 1, credit);
        ParseLater(band, pos, steps);
      } else {
        var rest := ParseExists(band, pos + c.length, credit[c.distance := credit[c.distance] + c.length]);
        steps := [Step(pos, c)] + rest;
        assert steps[1..] == rest;
      }
    }
  }

  lemma ParseLater(band: seq<Byte>, pos: nat, steps: seq<Step>)
    requires pos + 3 <= |band| && Quiet(band, pos, Candidates(band, pos)) && IsParse(band, pos + 1, steps)
    ensures IsParse(band, pos, steps)
  {
    hide Quiet, Candidates, IsPick;
  }

  lemma {:induction false} ParseIsUnique(band: seq<Byte>, from: nat, s: seq<Step>, t: seq<Step>)
    requires IsParse(band, from, s) && IsParse(band, from, t)
    ensures s == t
    decreases |s|
  {
    hide IsPick, Candidates, Quiet;
    if s != [] {
      QuietOrLongest(band, s[0].pos, Candidates(band, s[0].pos), s[0].pick);
    }
    if t != [] {
      QuietOrLongest(band, t[0].pos, Candidates(band, t[0].pos), t[0].pick);
    }
    if s != [] && t != [] {
      assert s[0].pos == t[0].pos;
      PickIsUnique(band, s[0].pos, Candidates(band, s[0].pos), s[0].pick, t[0].pick);
      ParseIsUnique(band, s[0].pos + s[0].pick.length, s[1..], t[1..]);
      assert s == [s[0]] + s[1..] && t == [t[0]] + t[1..];
    }
  }

  /** Each distance is credited with the bytes that the picks of the one parse cover at it. */
  lemma CreditMeaning(band: seq<Byte>, credit: Credit)
    ensures credit == Credits(band) <==> exists steps :: IsParse(band, 0, steps) && AddsUp(credit, steps)
  {
    hide IsParse, CreditOf, CreditFrom;
    var parse := ParseExists(band, 0, NoCredit());
    assert AddsUp(Credits(band), parse);
    forall steps | IsParse(band, 0, steps) && AddsUp(credit, steps)
      ensures credit == Credits(band)
    {
      ParseIsUnique(band, 0, steps, parse);
    }
  }

  // ---- the gaps

  /** The entries of `def` that `sel` lacks, in order. */
  function Missing(def: seq<U16>, sel: seq<U16>): (r: seq<U16>)
    ensures forall x <- r :: x in def && x !in sel
  {
    if def == [] then []
    else
      var n := |def| - 1;
      assert forall x <- def[..n] :: x in def;
      var r := Missing(def[..n], sel);
      if def[n] in sel then r else r + [def[n]]
  }

  lemma {:induction false} MissingPrefix(def: seq<U16>, sel: seq<U16>, i: nat)
    requires i <= |def|
    ensures Missing(def[..i], sel) <= Missing(def, sel)
    decreases |def|
  {
    if i < |def| {
      var n := |def| - 1;
      assert def[..n][..i] == def[..i];
      MissingPrefix(def[..n], sel, i);
      assert Missing(def[..n], sel) <= Missing(def, sel);
    } else {
      assert def[..i] == def;
    }
  }

  lemma MissingStep(def: seq<U16>, sel: seq<U16>, i: nat)
    requires i < |def| && Distinct(def)
    ensures var r := Missing(def[..i], sel);
            Missing(def[..i + 1], sel) == if def[i] in sel then r else r + [def[i]]
    ensures def[i] in sel + Missing(def[..i], sel) <==> def[i] in sel
  {
    assert def[..i + 1][..i] == def[..i];
    assert def[i] !in def[..i];
  }

  lemma {:induction false} FillAdds(def: seq<U16>, sel: seq<U16>, i: nat)
    requires def == DEFAULT_TABLE && Distinct(def) && i <= |def| == TABLE_ENTRIES
    requires |sel| + |Missing(def[..i], sel)| <= TABLE_ENTRIES
    ensures var r, all := FillFrom(sel + Missing(def[..i], sel), i), sel + Missing(def, sel);
            r <= all && (|r| < TABLE_ENTRIES ==> r == all)
    decreases |def| - i
  {
    hide DEFAULT_TABLE, Missing;
    var chosen := sel + Missing(def[..i], sel);
    if i == |def| {
      assert def[..i] == def;
    } else if |chosen| == TABLE_ENTRIES {
      MissingPrefix(def, sel, i);
      PrefixBehind(sel, Missing(def[..i], sel), Missing(def, sel));
    } else {
      MissingStep(def, sel, i);
      FillAdds(def, sel, i + 1);
      if def[i] !in sel {
        Assoc(sel, Missing(def[..i], sel), [def[i]]);
      }
    }
  }

  lemma PrefixBehind(sel: seq<U16>, a: seq<U16>, b: seq<U16>)
    requires a <= b
    ensures sel + a <= sel + b
  {
  }

  /** The gaps are filled with the first default distances that were not selected. */
  lemma FillMeaning(sel: seq<U16>)
    requires WellFormed(sel) && |sel| <= 64
    ensures 64 - |sel| <= |Missing(DEFAULT_TABLE, sel)|
    ensures FillFrom(sel, 0) == sel + Missing(DEFAULT_TABLE, sel)[..64 - |sel|]
  {
    var def := DEFAULT_TABLE;
    assert |def| == 64;
    hide DEFAULT_TABLE, Missing, FillFrom;
    DefaultTableIsDistinct();
    FillIsWellFormed(def, sel, 0);
    NothingMissing(def, sel);
    FillAdds(def, sel, 0);
    var r, all := FillFrom(sel, 0), sel + Missing(def, sel);
    assert r == all[..64];
  }

  lemma NothingMissing(def: seq<U16>, sel: seq<U16>)
    ensures sel + Missing(def[..0], sel) == sel
  {
  }

  // ---- the whole choice

  /**
   * The table of a band: the parse that takes the first longest match wherever there is one, the sums of
   * the bytes it covers at each distance, the 64 distances with the largest sums, the smaller distance
   * first among equals, and then the default distances that are not among them.
   */
  ghost predicate IsTable(band: seq<Byte>, table: seq<U16>, steps: seq<Step>, credit: Credit, sel: seq<U16>) {
    && IsParse(band, 0, steps) && AddsUp(credit, steps) && IsTop(credit, sel)
    && |table| == 64 && sel <= table && table[|sel|..] <= Missing(DEFAULT_TABLE, sel)
  }

  lemma TableMeaning(band: seq<Byte>, table: seq<U16>)
    ensures table == TableFor(band) <==>
              exists steps: seq<Step>, credit: Credit, sel: seq<U16> :: IsTable(band, table, steps, credit, sel)
  {
    hide IsParse, AddsUp, IsTop, TopFrom, FillFrom, Credits, DEFAULT_TABLE, Missing;
    var credit0 := Credits(band);
    var sel0 := TopFrom(credit0, []);
    CreditMeaning(band, credit0);
    TopFromIsTheTop(credit0, sel0);
    TopIsWellFormed(credit0, sel0);
    FillMeaning(sel0);
    if table == TableFor(band) {
      var steps :| IsParse(band, 0, steps) && AddsUp(credit0, steps);
      assert IsTable(band, table, steps, credit0, sel0);
    }
    forall steps: seq<Step>, credit: Credit, sel: seq<U16> | IsTable(band, table, steps, credit, sel)
      ensures table == TableFor(band)
    {
      CreditMeaning(band, credit);
      TopFromIsTheTop(credit0, sel);
      assert table == sel + table[|sel|..];
    }
  }

  lemma TopIsWellFormed(credit: Credit, sel: seq<U16>)
    requires IsTop(credit, sel)
    ensures WellFormed(sel)
  {
  }
}
