/** The halftoner: screens built at initialisation, lines turned into dots one at a time. */
module Halftoner {
  import opened Arith
  import opened Bytes
  import opened Bits
  import opened Counting
  import opened Screens
  import opened DotCounts
  import opened ErrorDiffusion

  datatype Method = Threshold | Bayer4 | Bayer8 | Clustered | BlueNoise | FloydSteinberg

  datatype Params = Params(kind: Method, threshold: Byte, clusterCell: Byte)

  const MASK_SIZE := 64

  type I16 = v: int | -0x8000 <= v < 0x8000

  /** The cast to int16_t. */
  function ToI16(v: int): I16 {
    (v + 0x8000) % 0x1_0000 - 0x8000
  }

  // ---- painting a row

  /** `dots` are the first pixels of a packed row and the rest of its last byte is white. */
  ghost predicate Painted(bits: seq<Byte>, dots: seq<bool>)
    requires (|dots| + 7) / 8 <= |bits|
  {
    forall x: nat :: x < 8 * ((|dots| + 7) / 8) ==> (Pixel(bits, x) <==> x < |dots| && dots[x])
  }

  /** The black pixels among the first `n` of a packed row. */
  function BlackIn(bits: seq<Byte>, n: nat): nat
    requires n <= 8 * |bits|
  {
    if n == 0 then 0 else BlackIn(bits, n - 1) + if Pixel(bits, n - 1) then 1 else 0
  }

  /** A painted row has as many black pixels as there are dots. */
  lemma {:induction false} PaintedCount(bits: seq<Byte>, dots: seq<bool>, n: nat)
    requires (|dots| + 7) / 8 <= |bits| && Painted(bits, dots) && n <= |dots|
    ensures BlackIn(bits, n) == Count(dots[..n])
  {
    hide Pixel;
    if n > 0 {
      PaintedCount(bits, dots, n - 1);
      assert dots[..n][..n - 1] == dots[..n - 1];
    }
  }

  /** The dots of `ink` against thresholds that repeat along the row. */
  function ScreenDots(ink: seq<Byte>, row: seq<Byte>): (r: seq<bool>)
    requires row != []
    ensures |r| == |ink|
  {
    seq(|ink|, x requires 0 <= x < |ink| => ink[x] > row[x % |row|])
  }

  method ClearRow(bits: array<Byte>, width: nat)
    requires (width + 7) / 8 <= bits.Length
    modifies bits
    ensures forall x: nat :: x < 8 * ((width + 7) / 8) ==> !Pixel(bits[..], x)
    ensures forall j :: (width + 7) / 8 <= j < bits.Length ==> bits[j] == old(bits[j])
  {
    forall j | 0 <= j < (width + 7) / 8 {
      bits[j] := 0;
    }
    forall x: nat | x < 8 * ((width + 7) / 8)
      ensures !Pixel(bits[..], x)
    {
      NoBits(7 - x % 8);
    }
  }

  method ScreenLine(ink: seq<Byte>, row: seq<Byte>, bits: array<Byte>)
    requires row != [] && (|ink| + 7) / 8 <= bits.Length
    modifies bits
    ensures Painted(bits[..], ScreenDots(ink, row))
    ensures forall j :: (|ink| + 7) / 8 <= j < bits.Length ==> bits[j] == old(bits[j])
  {
    hide Pixel;
    ClearRow(bits, |ink|);
    for x := 0 to |ink|
      invariant forall z: nat :: z < 8 * ((|ink| + 7) / 8) ==>
                  (Pixel(bits[..], z) <==> z < x && ScreenDots(ink, row)[z])
      invariant forall j :: (|ink| + 7) / 8 <= j < bits.Length ==> bits[j] == old(bits[j])
    {
      if ink[x] > row[x % |row|] {
        SetBlack(bits, x);
      }
    }
  }

  // ---- error diffusion

  /** Where the scan's cell `j` lies in an error row; cells -1 and `width` are the padding at its ends. */
  function CellIndex(width: nat, y: nat, j: int): int {
    if y % 2 == 0 then j + 1 else width - j
  }

  /** What the first `i` pixels of a line have scattered into the cell below pixel `j`. */
  ghost function Scattered(ink: seq<int>, above: seq<int>, i: nat, j: int): int
    requires i <= |ink| == |above|
  {
    (if 1 <= j <= i then Beyond(Error(ink, above, j - 1)) else 0)
    + (if 0 <= j < i then Under(Error(ink, above, j)) else 0)
    + (if -1 <= j <= i - 2 then Behind(Error(ink, above, j + 1)) else 0)
  }

  lemma ScatteredIsBounded(ink: seq<int>, above: seq<int>, i: nat, j: int)
    requires i <= |ink| == |above| && IsInk(ink) && Within(above, CELL_BOUND)
    ensures -CELL_BOUND <= Scattered(ink, above, i, j) <= CELL_BOUND
  {
    hide Error, Beyond, Under, Behind;
    if 1 <= j <= i {
      ErrorIsBounded(ink, above, j - 1);
      SharesAreBounded(Error(ink, above, j - 1));
    }
    if 0 <= j < i {
      ErrorIsBounded(ink, above, j);
      SharesAreBounded(Error(ink, above, j));
    }
    if -1 <= j <= i - 2 {
      ErrorIsBounded(ink, above, j + 1);
      SharesAreBounded(Error(ink, above, j + 1));
    }
  }

  /** When the line is done, scattering has put into every cell what the recurrence gathers. */
  lemma ScatterGathers(ink: seq<int>, above: seq<int>, j: nat)
    requires j < |ink| == |above|
    ensures Scattered(ink, above, |ink|, j) == Below(ink, above, j)
  {
    hide Error;
  }

  /** From pixel `i` on, the current row holds what was above, and for pixel `i` what came along the line. */
  ghost predicate CurHolds(cur: seq<I16>, ink: seq<int>, above: seq<int>, y: nat, i: nat)
    requires i < |ink| == |above|
  {
    && |cur| == |ink| + 2
    && cur[CellIndex(|ink|, y, i)] == Value(ink, above, i) - ink[i]
    && (forall j: nat :: i < j < |ink| ==> cur[CellIndex(|ink|, y, j)] == above[j])
    && -CELL_BOUND <= cur[CellIndex(|ink|, y, |ink|)] <= CELL_BOUND
  }

  /** The next row holds what the first `i` pixels have scattered. */
  ghost predicate NextHolds(next: seq<I16>, ink: seq<int>, above: seq<int>, y: nat, i: nat)
    requires i <= |ink| == |above|
  {
    && |next| == |ink| + 2
    && forall j: int :: -1 <= j <= |ink| ==> next[CellIndex(|ink|, y, j)] == Scattered(ink, above, i, j)
  }

  /** The first `i` pixels of the scan are painted, the others white. */
  ghost predicate ScanPainted(bits: seq<Byte>, ink: seq<int>, above: seq<int>, y: nat, i: nat)
    requires i <= |ink| == |above|
  {
    && (|ink| + 7) / 8 <= |bits|
    && forall z: nat :: z < 8 * ((|ink| + 7) / 8) ==> DotPainted(bits, ink, above, y, i, z)
  }

  /** Pixel `z` is black exactly when the scan has passed it and decided so. */
  ghost predicate DotPainted(bits: seq<Byte>, ink: seq<int>, above: seq<int>, y: nat, i: nat, z: nat)
    requires i <= |ink| == |above| && z < 8 * |bits|
  {
    Pixel(bits, z) <==> z < |ink| && ScanIndex(|ink|, y, z) < i && Black(ink, above, ScanIndex(|ink|, y, z))
  }

  lemma NothingScattered(ink: seq<int>, above: seq<int>)
    requires |ink| == |above|
    ensures forall j: int :: Scattered(ink, above, 0, j) == 0
  {
  }

  /** Pixel `i` adds its shares to three cells. */
  lemma ScatterStep(ink: seq<int>, above: seq<int>, i: nat, j: int)
    requires i < |ink| == |above|
    ensures var e := Error(ink, above, i);
            Scattered(ink, above, i + 1, j) - Scattered(ink, above, i, j)
            == if j == i - 1 then Behind(e) else if j == i then Under(e) else if j == i + 1 then Beyond(e) else 0
  {
    hide Error, Behind, Under, Beyond;
  }

  lemma ScanValue(cur: seq<I16>, ink: seq<int>, above: seq<int>, y: nat, i: nat)
    requires i < |ink| == |above| && CurHolds(cur, ink, above, y, i)
    ensures var v := ink[i] + cur[CellIndex(|ink|, y, i)] as int;
            && (v >= 128 <==> Black(ink, above, i))
            && Error(ink, above, i) == v - if v >= 128 then 255 else 0
  {
  }

  lemma PaintStep(before: seq<Byte>, after: seq<Byte>, ink: seq<int>, above: seq<int>, y: nat, i: nat)
    requires i < |ink| == |above| && ScanPainted(before, ink, above, y, i) && |after| == |before|
    requires var x := ScanIndex(|ink|, y, i);
             forall z: nat :: z < 8 * |before| ==>
               (Pixel(after, z) <==> (z == x && Black(ink, above, i)) || Pixel(before, z))
    ensures ScanPainted(after, ink, above, y, i + 1)
  {
    hide Black, Pixel, ScanIndex, DotPainted;
    var next := i + 1;
    forall z: nat | z < 8 * ((|ink| + 7) / 8)
      ensures DotPainted(after, ink, above, y, next, z)
    {
      DotStep(before, after, ink, above, y, i, z);
    }
  }

  lemma DotStep(before: seq<Byte>, after: seq<Byte>, ink: seq<int>, above: seq<int>, y: nat, i: nat, z: nat)
    requires i < |ink| == |above| && |after| == |before| && z < 8 * |before|
    requires DotPainted(before, ink, above, y, i, z)
    requires Pixel(after, z) <==> (z == ScanIndex(|ink|, y, i) && Black(ink, above, i)) || Pixel(before, z)
    ensures DotPainted(after, ink, above, y, i + 1, z)
  {
    hide Black, Pixel;
  }

  lemma CurStep(before: seq<I16>, after: seq<I16>, ink: seq<int>, above: seq<int>, y: nat, i: nat)
    requires i < |ink| == |above| && IsInk(ink) && Within(above, CELL_BOUND) && CurHolds(before, ink, above, y, i)
    requires var k := CellIndex(|ink|, y, i + 1);
             after == before[k := ToI16(before[k] as int + Ahead(Error(ink, above, i)))]
    ensures i + 1 < |ink| ==> CurHolds(after, ink, above, y, i + 1)
  {
    hide Error, Ahead, Black;
    ErrorIsBounded(ink, above, i);
    SharesAreBounded(Error(ink, above, i));
    if i + 1 < |ink| {
      assert Value(ink, above, i + 1) == ink[i + 1] + above[i + 1] + Ahead(Error(ink, above, i));
    }
  }

  lemma NextStep(before: seq<I16>, after: seq<I16>, ink: seq<int>, above: seq<int>, y: nat, i: nat)
    requires i < |ink| == |above| && IsInk(ink) && Within(above, CELL_BOUND) && NextHolds(before, ink, above, y, i)
    requires after == Scatter(before, |ink|, y, i, Error(ink, above, i))
    ensures NextHolds(after, ink, above, y, i + 1)
  {
    hide Error, Behind, Under, Beyond, Scattered;
    ErrorIsBounded(ink, above, i);
    SharesAreBounded(Error(ink, above, i));
    forall j: int | -1 <= j <= |ink|
      ensures after[CellIndex(|ink|, y, j)] == Scattered(ink, above, i + 1, j)
    {
      ScatterStep(ink, above, i, j);
      ScatteredIsBounded(ink, above, i, j);
    }
  }

  // ---- the two error rows, in one buffer

  /** The error row that begins at cell `at`. */
  function Row(state: array<I16>, at: nat, width: nat): (row: seq<I16>)
    requires at + width + 2 <= state.Length
    reads state
    ensures |row| == width + 2
  {
    state[at..at + (width + 2)]
  }

  /** The rows at `cur` and `next` are the first two of the buffer, in either order. */
  predicate AreRows(cur: nat, next: nat, width: nat, length: nat) {
    2 * (width + 2) <= length && ((cur == 0 && next == width + 2) || (cur == width + 2 && next == 0))
  }

  lemma RowsAreApart(cur: nat, next: nat, width: nat, length: nat)
    requires AreRows(cur, next, width, length)
    ensures AreRows(next, cur, width, length)
    ensures cur + width + 2 <= length && next + width + 2 <= length && 2 * (width + 2) <= length
  {
  }

  /** Adds a share to cell `k` of the row at `at`, with the cast to 16 bits. */
  method AddShare(state: array<I16>, at: nat, other: nat, width: nat, k: nat, share: int)
    requires AreRows(at, other, width, state.Length) && k < width + 2
    modifies state
    ensures var r := old(Row(state, at, width)); Row(state, at, width) == r[k := ToI16(r[k] as int + share)]
    ensures Row(state, other, width) == old(Row(state, other, width))
    ensures state[2 * (width + 2)..] == old(state[2 * (width + 2)..])
  {
    hide ToI16;
    state[at + k] := ToI16(state[at + k] as int + share);
  }

  /** Compares pixel `i` of the scan with the middle, paints it and tells its error. */
  method DecidePixel(ink: seq<Byte>, ghost above: seq<int>, y: nat, i: nat, ghost cur: seq<I16>, cell: I16,
                     bits: array<Byte>) returns (err: int)
    requires i < |ink| == |above| && (|ink| + 7) / 8 <= bits.Length
    requires CurHolds(cur, Scan<int>(ink, y), above, y, i) && cell == cur[CellIndex(|ink|, y, i)]
    requires ScanPainted(bits[..], Scan<int>(ink, y), above, y, i)
    modifies bits
    ensures err == Error(Scan<int>(ink, y), above, i)
    ensures ScanPainted(bits[..], Scan<int>(ink, y), above, y, i + 1)
    ensures forall j :: (|ink| + 7) / 8 <= j < bits.Length ==> bits[j] == old(bits[j])
  {
    ghost var inkS, before := Scan<int>(ink, y), bits[..];
    ScanValue(cur, inkS, above, y, i);
    hide Error, Black, Pixel, CurHolds, ScanPainted;
    var x := if y % 2 != 0 then |ink| - 1 - i else i;
    var v := ink[x] as int + cell;
    var out := if v >= 128 then 255 else 0;
    err := v - out;
    if out != 0 {
      SetBlack(bits, x);
    }
    PaintStep(before, bits[..], inkS, above, y, i);
  }

  /** Scatters the error of pixel `i`: 7/16 ahead, 3/16 behind below, 5/16 below, 1/16 ahead below. */
  method ScatterPixel(width: nat, y: nat, i: nat, err: int, state: array<I16>, cur: nat, next: nat)
    requires i < width && AreRows(cur, next, width, state.Length)
    modifies state
    ensures var c, k := old(Row(state, cur, width)), CellIndex(width, y, i + 1);
            Row(state, cur, width) == c[k := ToI16(c[k] as int + Ahead(err))]
    ensures Row(state, next, width) == Scatter(old(Row(state, next, width)), width, y, i, err)
    ensures state[2 * (width + 2)..] == old(state[2 * (width + 2)..])
  {
    hide ToI16, Ahead, Behind, Under, Beyond, Row, Scatter;
    var x := if y % 2 != 0 then width - 1 - i else i;
    var dir := if y % 2 != 0 then -1 else 1;
    RowsAreApart(cur, next, width, state.Length);
    ScatterIs(Row(state, next, width), width, y, i, err, x + 1, dir);
    assert x + 1 + dir == CellIndex(width, y, i + 1);
    hide CellIndex, AreRows;
    AddShare(state, cur, next, width, x + 1 + dir, Ahead(err));
    ScatterBelow(width, x + 1, dir, err, state, cur, next);
  }

  lemma ScatterIs(row: seq<I16>, width: nat, y: nat, i: nat, err: int, k: nat, dir: int)
    requires i < width && |row| == width + 2
    requires k == (if y % 2 != 0 then width - i else i + 1) && dir == if y % 2 != 0 then -1 else 1
    ensures Scatter(row, width, y, i, err)
            == row[k - dir := ToI16(row[k - dir] as int + Behind(err))][k := ToI16(row[k] as int + Under(err))]
                  [k + dir := ToI16(row[k + dir] as int + Beyond(err))]
  {
    hide ToI16, Behind, Under, Beyond;
  }

  method ScatterBelow(width: nat, k: nat, dir: int, err: int, state: array<I16>, cur: nat, next: nat)
    requires 1 <= k <= width && (dir == 1 || dir == -1) && AreRows(cur, next, width, state.Length)
    modifies state
    ensures Row(state, cur, width) == old(Row(state, cur, width))
    ensures var r := old(Row(state, next, width));
            Row(state, next, width)
            == r[k - dir := ToI16(r[k - dir] as int + Behind(err))][k := ToI16(r[k] as int + Under(err))]
                [k + dir := ToI16(r[k + dir] as int + Beyond(err))]
    ensures state[2 * (width + 2)..] == old(state[2 * (width + 2)..])
  {
    RowsAreApart(cur, next, width, state.Length);
    hide ToI16, Behind, Under, Beyond, AreRows, Row;
    AddShare(state, next, cur, width, k - dir, Behind(err));
    AddShare(state, next, cur, width, k, Under(err));
    AddShare(state, next, cur, width, k + dir, Beyond(err));
  }

  /** The row below after three shares of an error. */
  function Scatter(row: seq<I16>, width: nat, y: nat, i: nat, err: int): (r: seq<I16>)
    requires i < width && |row| == width + 2
    ensures |r| == |row|
  {
    var k, l, m := CellIndex(width, y, i - 1), CellIndex(width, y, i), CellIndex(width, y, i + 1);
    row[k := ToI16(row[k] as int + Behind(err))][l := ToI16(row[l] as int + Under(err))]
       [m := ToI16(row[m] as int + Beyond(err))]
  }

  /** Pixel `i` of the scan: decided, painted, and its error scattered. */
  method DiffusePixel(ink: seq<Byte>, ghost above: seq<int>, y: nat, i: nat,
                      state: array<I16>, cur: nat, next: nat, bits: array<Byte>)
    requires i < |ink| == |above| && AreRows(cur, next, |ink|, state.Length) && Within(above, CELL_BOUND)
    requires (|ink| + 7) / 8 <= bits.Length
    requires CurHolds(Row(state, cur, |ink|), Scan<int>(ink, y), above, y, i)
    requires NextHolds(Row(state, next, |ink|), Scan<int>(ink, y), above, y, i)
    requires ScanPainted(bits[..], Scan<int>(ink, y), above, y, i)
    modifies state, bits
    ensures i + 1 < |ink| ==> CurHolds(Row(state, cur, |ink|), Scan<int>(ink, y), above, y, i + 1)
    ensures NextHolds(Row(state, next, |ink|), Scan<int>(ink, y), above, y, i + 1)
    ensures ScanPainted(bits[..], Scan<int>(ink, y), above, y, i + 1)
    ensures forall j :: (|ink| + 7) / 8 <= j < bits.Length ==> bits[j] == old(bits[j])
    ensures state[2 * (|ink| + 2)..] == old(state[2 * (|ink| + 2)..])
  {
    hide Error, Black, Pixel, Ahead, Behind, Under, Beyond, ToI16, CurHolds, NextHolds, ScanPainted, Scatter;
    var w := |ink|;
    ghost var inkS, cur0, next0 := Scan<int>(ink, y), Row(state, cur, w), Row(state, next, w);
    var x := if y % 2 != 0 then w - 1 - i else i;
    var err := DecidePixel(ink, above, y, i, cur0, state[cur + x + 1], bits);
    ScatterPixel(w, y, i, err, state, cur, next);
    CurStep(cur0, Row(state, cur, w), inkS, above, y, i);
    NextStep(next0, Row(state, next, w), inkS, above, y, i);
  }

  /** memset of `n` cells. */
  method ClearCells(state: array<I16>, at: nat, n: nat)
    requires at + n <= state.Length
    modifies state
    ensures forall k :: 0 <= k < state.Length ==> state[k] == if at <= k < at + n then 0 else old(state[k])
  {
    forall k | at <= k < at + n {
      state[k] := 0;
    }
  }

  method ClearNextRow(state: array<I16>, cur: nat, next: nat, width: nat)
    requires AreRows(cur, next, width, state.Length)
    modifies state
    ensures Row(state, cur, width) == old(Row(state, cur, width))
    ensures forall k :: 0 <= k < width + 2 ==> Row(state, next, width)[k] == 0
    ensures state[2 * (width + 2)..] == old(state[2 * (width + 2)..])
  {
    ClearCells(state, next, width + 2);
  }

  lemma StartOfRows(cur: seq<I16>, next: seq<I16>, ink: seq<Byte>, cells: seq<int>, y: nat)
    requires |ink| == |cells| && |cur| == |next| == |ink| + 2
    requires cur[1..|ink| + 1] == cells && Within(cur, CELL_BOUND)
    requires (forall k :: 0 <= k < |next| ==> next[k] == 0)
    ensures ink != [] ==> CurHolds(cur, Scan<int>(ink, y), Scan(cells, y), y, 0)
    ensures NextHolds(next, Scan<int>(ink, y), Scan(cells, y), y, 0)
  {
    hide Error, Scattered;
    NothingScattered(Scan<int>(ink, y), Scan(cells, y));
    forall k | 0 <= k < |cells|
      ensures cells[k] == cur[k + 1]
    {
      assert cells[k] == cur[1..|ink| + 1][k];
    }
  }

  lemma StartOfDots(bits: seq<Byte>, ink: seq<int>, above: seq<int>, y: nat)
    requires |ink| == |above| && (|ink| + 7) / 8 <= |bits|
    requires forall x: nat :: x < 8 * ((|ink| + 7) / 8) ==> !Pixel(bits, x)
    ensures ScanPainted(bits, ink, above, y, 0)
  {
    hide Black, Pixel, ScanIndex;
    assert forall z: nat :: z < 8 * ((|ink| + 7) / 8) ==> DotPainted(bits, ink, above, y, 0, z);
  }

  lemma LineIsDone(next: seq<I16>, bits: seq<Byte>, ink: seq<Byte>, cells: seq<int>, y: nat)
    requires |ink| == |cells| && Within(cells, CELL_BOUND)
    requires NextHolds(next, Scan<int>(ink, y), Scan(cells, y), y, |ink|)
    requires ScanPainted(bits, Scan<int>(ink, y), Scan(cells, y), y, |ink|)
    ensures Within(next, CELL_BOUND)
    ensures next[1..|ink| + 1] == NextCells(cells, Line(ink, y))
    ensures Painted(bits, Dots(cells, Line(ink, y)))
  {
    hide Error, Black, Pixel, Scattered;
    var w, inkS, above := |ink|, Scan<int>(ink, y), Scan(cells, y);
    forall k | 0 <= k < w + 2
      ensures -CELL_BOUND <= next[k] <= CELL_BOUND
    {
      var j := if y % 2 == 0 then k - 1 else w - k;
      ScatteredIsBounded(inkS, above, w, j);
      assert k == CellIndex(w, y, j);
    }
    forall x | 0 <= x < w
      ensures next[x + 1] == NextCells(cells, Line(ink, y))[x]
    {
      var j := ScanIndex(w, y, x);
      ScatterGathers(inkS, above, j);
      assert x + 1 == CellIndex(w, y, j);
    }
    forall x: nat | x < 8 * ((w + 7) / 8)
      ensures Pixel(bits, x) <==> x < w && Dots(cells, Line(ink, y))[x]
    {
      assert DotPainted(bits, inkS, above, y, w, x);
    }
  }

  class Halftoner {
    var params: Params
    var width: nat
    const matrix: array<Byte>
    var cell: nat
    /** The caller's scratch buffer, and where in it the current and the next error row begin. */
    var state: array?<I16>
    var errCur: nat
    var errNext: nat
    const mask: seq<Byte>
    ghost var ranks: seq<int>
    /** The lines diffused since the errors were last forgotten, and the rows exchanged since Init. */
    ghost var lines: seq<Line>
    ghost var swaps: nat

    predicate Ordered() reads this {
      params.kind in {Bayer4, Bayer8, Clustered}
    }

    ghost predicate Valid()
      reads this, matrix, state
    {
      && matrix.Length == MAX_CELL * MAX_CELL && |mask| == MASK_SIZE * MASK_SIZE
      && (Ordered() ==> IsScreen(matrix[..], cell, ranks))
      && (params.kind == FloydSteinberg ==> Diffusing())
      && (params.kind != FloydSteinberg ==> state == null)
    }

    /** The carried errors are those that the lines so far leave behind. */
    ghost predicate Diffusing()
      reads this, state
    {
      && HasRows() && (errCur == 0 <==> swaps % 2 == 0)
      && (forall l <- lines :: |l.ink| == width)
      && Within(Row(state, errCur, width), CELL_BOUND) && Cells() == CellsAfter(width, lines)
    }

    predicate HasRows()
      reads this
    {
      state != null && AreRows(errCur, errNext, width, state.Length)
    }

    /** The carried errors, without the padding. */
    function Cells(): (r: seq<int>)
      requires HasRows()
      reads this, state
      ensures |r| == width
    {
      Row(state, errCur, width)[1..width + 1]
    }

    constructor (blueNoise: seq<Byte>)
      requires |blueNoise| == MASK_SIZE * MASK_SIZE
      ensures Valid() && fresh(matrix) && mask == blueNoise
    {
      params := Params(Threshold, 127, 8);
      width, cell, ranks := 0, 0, [];
      state, errCur, errNext := null, 0, 0;
      matrix := new Byte[MAX_CELL * MAX_CELL](i => 0);
      mask := blueNoise;
      lines, swaps := [], 0;
    }

    /**
     * Prepares for a page. Only error diffusion needs the buffer, of 2 * (width + 2) 16-bit cells
     * at least, and fails without; the ordered methods build their screen.
     */
    method Init(p: Params, width: nat, state: array?<I16>) returns (ok: bool)
      requires Valid()
      modifies this, matrix, state
      ensures ok <==> p.kind == FloydSteinberg ==> state != null && state.Length >= 2 * (width + 2)
      ensures ok ==> Valid() && params == p && this.width == width && HasScreen()
      ensures ok && p.kind == FloydSteinberg ==> this.state == state && lines == [] && swaps == 0
      ensures state != null && !(ok && p.kind == FloydSteinberg) ==> state[..] == old(state[..])
    {
      hide IsScreen, IsBayerScreen, IsClusteredScreen, Diffusing;
      Begin(p, width);
      if p.kind == FloydSteinberg {
        ok := Prepare(state);
      } else {
        ok := true;
        BuildScreen();
      }
    }

    /** The screen of the method: 4 by 4, 8 by 8, or clustered with a cell of 4 to 16 and 8 by default. */
    ghost predicate HasScreen()
      reads this, matrix
    {
      match params.kind
      case Bayer4 => cell == 4 && IsBayerScreen(matrix[..], 4, 2)
      case Bayer8 => cell == 8 && IsBayerScreen(matrix[..], 8, 3)
      case Clustered =>
        && cell == (if 4 <= params.clusterCell <= MAX_CELL then params.clusterCell else 8)
        && exists order :: IsClusteredScreen(matrix[..], cell, order)
      case _ => true
    }

    method BuildScreen()
      requires matrix.Length == MAX_CELL * MAX_CELL
      modifies matrix, this`cell, this`ranks
      ensures HasScreen() && (Ordered() ==> IsScreen(matrix[..], cell, ranks))
    {
      hide IsScreen, IsBayerScreen, IsClusteredScreen, Pow2;
      SmallPowers();
      match params.kind {
      case Bayer4 => BayerScreen(4, 2);
      case Bayer8 => BayerScreen(8, 3);
      case Clustered => DotScreen();
      case _ =>
      }
    }

    method DotScreen()
      requires matrix.Length == MAX_CELL * MAX_CELL
      modifies matrix, this`cell, this`ranks
      ensures cell == if 4 <= params.clusterCell <= MAX_CELL then params.clusterCell else 8
      ensures IsScreen(matrix[..], cell, ranks) && exists order :: IsClusteredScreen(matrix[..], cell, order)
    {
      hide IsScreen, IsClusteredScreen;
      var c := if 4 <= params.clusterCell <= MAX_CELL then params.clusterCell else 8;
      MulMonotone(c, MAX_CELL, c);
      MulMonotone(c, MAX_CELL, MAX_CELL);
      ghost var order := ClusteredScreen(c);
    }

    /** A zeroed halftoner that knows its parameters. */
    method Begin(p: Params, width: nat)
      modifies this, matrix
      ensures params == p && this.width == width && cell == 0 && state == null
    {
      forall i | 0 <= i < matrix.Length {
        matrix[i] := 0;
      }
      state, errCur, errNext, cell := null, 0, 0, 0;
      this.params := p;
      this.width := width;
    }

    /** One buffer, two rows: the second begins where the first ends. */
    method Prepare(state: array?<I16>) returns (ok: bool)
      modifies this`state, this`errCur, this`errNext, this`lines, this`swaps, state
      ensures ok <==> state != null && state.Length >= 2 * (width + 2)
      ensures ok ==> this.state == state && lines == [] && swaps == 0 && Diffusing()
      ensures !ok && state != null ==> state[..] == old(state[..])
    {
      if state == null || state.Length < 2 * (width + 2) {
        return false;
      }
      this.state, errCur, errNext := state, 0, width + 2;
      swaps := 0;
      Reset();
      return true;
    }

    /** The memset of Reset covers two rows from the current one on; are they all in the buffer? */
    predicate ResetStaysInside()
      reads this
    {
      state != null ==> errCur + 2 * (width + 2) <= state.Length
    }

    /** Forgets the errors carried so far. */
    method Reset()
      requires HasRows() || state == null
      requires ResetStaysInside()
      modifies this`lines, state
      ensures lines == []
      ensures state != null ==>
                && (forall k :: 0 <= k < state.Length ==>
                      state[k] == if errCur <= k < errCur + 2 * (width + 2) then 0 else old(state[k]))
                && ((errCur == 0 <==> swaps % 2 == 0) ==> Diffusing())
    {
      lines := [];
      if state != null {
        ClearCells(state, errCur, 2 * (width + 2));
        assert forall k :: 0 <= k < width + 2 ==> Row(state, errCur, width)[k] == 0;
        assert forall k :: 0 <= k < width ==> Cells()[k] == CellsAfter(width, [])[k];
      }
    }

    /** The dots that a line comes out as. */
    ghost function LineDots(ink: seq<Byte>, y: nat): (r: seq<bool>)
      requires Valid() && |ink| == width
      reads this, matrix, state
      ensures |r| == width
    {
      match params.kind
      case Threshold => ScreenDots(ink, [params.threshold])
      case BlueNoise => ScreenDots(ink, mask[y % MASK_SIZE * MASK_SIZE..y % MASK_SIZE * MASK_SIZE + MASK_SIZE])
      case FloydSteinberg => Dots(Cells(), Line(ink, y))
      case _ => ScreenDots(ink, ScreenRow(y))
    }

    function ScreenRow(y: nat): (row: seq<Byte>)
      requires 0 < cell && cell * cell <= matrix.Length
      reads this, matrix
      ensures |row| == cell && forall x: nat :: x < cell ==> row[x] == matrix[CellUnder(cell, x, y)]
    {
      assert forall x: nat :: x < cell ==> CellUnder(cell, x, y) == At(cell, 0, y % cell) + x by {
        forall x: nat | x < cell
          ensures x % cell == x
        {
          AtIsUnique(cell, x, 0);
        }
      }
      AtIsUnique(cell, 0, y % cell);
      AtIsUnique(cell, cell - 1, y % cell);
      matrix[At(cell, 0, y % cell)..At(cell, 0, y % cell) + cell]
    }

    /** One line of ink to one packed row; `y` selects the screen row and the scan direction. */
    method HalftoneLine(ink: seq<Byte>, y: nat, bits: array<Byte>)
      requires Valid() && |ink| == width && (width + 7) / 8 <= bits.Length
      requires bits != matrix
      modifies this, bits, state
      ensures Valid() && params == old(params) && width == old(width) && cell == old(cell) && state == old(state)
      ensures params.kind != FloydSteinberg ==> unchanged(this)
      ensures Painted(bits[..], old(LineDots(ink, y)))
      ensures forall j :: (width + 7) / 8 <= j < bits.Length ==> bits[j] == old(bits[j])
      ensures params.kind == FloydSteinberg ==>
                && lines == old(lines) + [Line(ink, y)] && swaps == old(swaps) + 1
                && state[2 * (width + 2)..] == old(state[2 * (width + 2)..])
    {
      hide Painted, Dots, NextCells, IsScreen, Diffusing, CellsAfter;
      match params.kind {
      case Threshold => ScreenLine(ink, [params.threshold], bits);
      case BlueNoise =>
        ScreenLine(ink, mask[y % MASK_SIZE * MASK_SIZE..y % MASK_SIZE * MASK_SIZE + MASK_SIZE], bits);
      case FloydSteinberg => DiffuseLine(ink, y, bits);
      case _ =>
        ScreenIsPositive(matrix[..], cell, ranks);
        ScreenLine(ink, ScreenRow(y), bits);
      }
    }

    /**
     * Floyd-Steinberg: the error of each pixel is scattered over four cells of two rows as soon as
     * it is known, and the rows change places. No 16-bit store loses a value.
     */
    method DiffuseLine(ink: seq<Byte>, y: nat, bits: array<Byte>)
      requires Diffusing() && |ink| == width && (width + 7) / 8 <= bits.Length
      modifies this`errCur, this`errNext, this`lines, this`swaps, state, bits
      ensures Diffusing() && errCur == old(errNext) && errNext == old(errCur)
      ensures lines == old(lines) + [Line(ink, y)] && swaps == old(swaps) + 1
      ensures Painted(bits[..], Dots(old(Cells()), Line(ink, y)))
      ensures forall j :: (width + 7) / 8 <= j < bits.Length ==> bits[j] == old(bits[j])
      ensures state[2 * (width + 2)..] == old(state[2 * (width + 2)..])
    {
      hide Painted, NextCells, CellsAfter, Dots;
      ghost var cells := Cells();
      DiffuseRow(ink, y, bits, cells);
      OneMoreLine(width, lines, Line(ink, y));
      lines, swaps := lines + [Line(ink, y)], swaps + 1;
      errCur, errNext := errNext, errCur;
    }

    /** The loop over the line, before the rows change places. */
    method DiffuseRow(ink: seq<Byte>, y: nat, bits: array<Byte>, ghost cells: seq<int>)
      requires HasRows() && |ink| == width && (width + 7) / 8 <= bits.Length
      requires Within(Row(state, errCur, width), CELL_BOUND) && Cells() == cells
      modifies state, bits
      ensures Within(Row(state, errNext, width), CELL_BOUND)
      ensures Row(state, errNext, width)[1..width + 1] == NextCells(cells, Line(ink, y))
      ensures Painted(bits[..], Dots(cells, Line(ink, y)))
      ensures forall j :: (width + 7) / 8 <= j < bits.Length ==> bits[j] == old(bits[j])
      ensures state[2 * (width + 2)..] == old(state[2 * (width + 2)..])
    {
      hide Error, Black, Scattered, Pixel, Painted, CurHolds, NextHolds, ScanPainted;
      var st, cur, next, w := state, errCur, errNext, width;
      ghost var inkS, above := Scan<int>(ink, y), Scan(cells, y);
      ClearNextRow(st, cur, next, w);
      ClearRow(bits, w);
      StartOfRows(Row(st, cur, w), Row(st, next, w), ink, cells, y);
      StartOfDots(bits[..], inkS, above, y);
      for i := 0 to w
        invariant i < w ==> CurHolds(Row(st, cur, w), inkS, above, y, i)
        invariant NextHolds(Row(st, next, w), inkS, above, y, i)
        invariant ScanPainted(bits[..], inkS, above, y, i)
        invariant forall j :: (w + 7) / 8 <= j < bits.Length ==> bits[j] == old(bits[j])
        invariant st[2 * (w + 2)..] == old(st[2 * (w + 2)..])
      {
        DiffusePixel(ink, above, y, i, st, cur, next, bits);
      }
      LineIsDone(Row(st, next, w), bits[..], ink, cells, y);
    }

    method BayerScreen(n: nat, ghost k: nat)
      requires n == Pow2(k) && 0 < n <= MAX_CELL && n * n <= matrix.Length == MAX_CELL * MAX_CELL
      modifies matrix, this`cell, this`ranks
      ensures cell == n && IsScreen(matrix[..], n, ranks) && IsBayerScreen(matrix[..], n, k)
    {
      cell := n;
      Bayer(n, k, matrix);
      ghost var m := matrix[..];
      ranks := Ranks(m, n);
      BayerMatrixIsPermutation(m, n, k);
      ScaleMatrix(matrix, n * n, n * n);
      BayerScaled(m, matrix[..], n, k);
    }

    method ClusteredScreen(c: nat) returns (ghost order: seq<nat>)
      requires 0 < c <= MAX_CELL && c * c <= matrix.Length == MAX_CELL * MAX_CELL
      modifies matrix, this`cell, this`ranks
      ensures cell == c && IsScreen(matrix[..], c, ranks) && IsClusteredScreen(matrix[..], c, order)
    {
      cell := c;
      order := Screens.Clustered(c, matrix);
      ghost var m := matrix[..];
      ranks := Ranks(m, c);
      OrderedRanksArePermutation(m, c, order);
      ScaleMatrix(matrix, c * c, c * c);
      ClusteredScaled(m, matrix[..], c, order);
    }
  }

  lemma OneMoreLine(width: nat, lines: seq<Line>, line: Line)
    requires (forall l <- lines :: |l.ink| == width) && |line.ink| == width
    ensures forall l <- lines + [line] :: |l.ink| == width
    ensures CellsAfter(width, lines + [line]) == NextCells(CellsAfter(width, lines), line)
    ensures DotsOf(width, lines + [line]) == DotsOf(width, lines) + Count(Dots(CellsAfter(width, lines), line))
    ensures InkOf(lines + [line]) == InkOf(lines) + ErrorDiffusion.Sum(line.ink)
  {
    hide NextCells, Dots, Count;
    assert (lines + [line])[..|lines|] == lines;
  }

  /**
   * Where the memset of Reset lies: inside the buffer exactly when the rows have been exchanged an
   * even number of times since Init, or the caller gave room for a third row.
   */
  lemma ResetStaysInsideWhen(h: Halftoner)
    requires h.Valid() && h.params.kind == FloydSteinberg
    ensures h.ResetStaysInside() <==> h.swaps % 2 == 0 || h.state.Length >= 3 * (h.width + 2)
    ensures h.state.Length == 2 * (h.width + 2) ==> (h.ResetStaysInside() <==> h.swaps % 2 == 0)
  {
  }

  /** The buffer that Init asks for, one line, and Reset would write a row past its end. */
  method ResetAfterOneLine(h: Halftoner, p: Params, state: array<I16>, ink: seq<Byte>, y: nat, bits: array<Byte>)
    requires h.Valid() && p.kind == FloydSteinberg && state.Length == 2 * (|ink| + 2)
    requires (|ink| + 7) / 8 <= bits.Length && bits != h.matrix
    modifies h, h.matrix, state, bits
    ensures h.Valid() && h.params == p && h.width == |ink| && h.state == state && h.lines == [Line(ink, y)]
    ensures !h.ResetStaysInside() && h.errCur + 2 * (|ink| + 2) == state.Length + (|ink| + 2)
  {
    hide *;
    var ok := h.Init(p, |ink|, state);
    h.HalftoneLine(ink, y, bits);
    assert h.lines == [Line(ink, y)];
    SecondRow(h);
  }

  lemma SecondRow(h: Halftoner)
    requires h.Valid() && h.params.kind == FloydSteinberg && h.swaps == 1 && h.state.Length == 2 * (h.width + 2)
    ensures !h.ResetStaysInside() && h.errCur == h.width + 2
  {
    hide CellsAfter, Within;
  }

  /**
   * What every run of lines since a reset keeps, said of the object: the extremes of the next line
   * print as they must, and the ink of the lines so far is conserved.
   */
  lemma DiffusionKeeps(h: Halftoner, ink: seq<Byte>, y: nat, x: nat)
    requires h.Valid() && h.params.kind == FloydSteinberg && |ink| == h.width && x < h.width
    ensures var dots := h.LineDots(ink, y);
            (ink[x] >= 252 ==> dots[x]) && (ink[x] <= 3 ==> !dots[x])
    ensures var lost := InkOf(h.lines) - 255 * DotsOf(h.width, h.lines);
            var slack := 3 * (h.width * |h.lines|) + 85 * |h.lines| + 69 * h.width;
            -slack <= lost <= slack
  {
    hide *;
    DiffusedDots(h, ink, y);
    ExtremesAreExact(h.width, h.lines, Line(ink, y), x);
    InkIsConserved(h.width, h.lines);
  }

  lemma DiffusedDots(h: Halftoner, ink: seq<Byte>, y: nat)
    requires h.Valid() && h.params.kind == FloydSteinberg && |ink| == h.width
    ensures forall l <- h.lines :: |l.ink| == h.width
    ensures h.LineDots(ink, y) == Dots(CellsAfter(h.width, h.lines), Line(ink, y))
  {
    hide Dots, CellsAfter, Within;
  }

  /** The dots counted for a line are the black pixels of the row it was printed to. */
  lemma PrintedDots(h: Halftoner, ink: seq<Byte>, y: nat, bits: seq<Byte>)
    requires h.Valid() && h.params.kind == FloydSteinberg && |ink| == h.width
    requires (h.width + 7) / 8 <= |bits| && Painted(bits, h.LineDots(ink, y))
    ensures forall l <- h.lines + [Line(ink, y)] :: |l.ink| == h.width
    ensures DotsOf(h.width, h.lines + [Line(ink, y)]) == DotsOf(h.width, h.lines) + BlackIn(bits, h.width)
  {
    hide *;
    DiffusedDots(h, ink, y);
    OneMoreLine(h.width, h.lines, Line(ink, y));
    var dots := h.LineDots(ink, y);
    PaintedCount(bits, dots, h.width);
    assert dots[..h.width] == dots;
  }

  lemma SmallPowers()
    ensures Pow2(2) == 4 && Pow2(3) == 8
  {
  }

  lemma ScreenIsPositive(screen: seq<Byte>, c: nat, ranks: seq<int>)
    requires IsScreen(screen, c, ranks)
    ensures 0 < c && c * c <= |screen|
  {
  }

  ghost predicate IsScaled(before: seq<Byte>, after: seq<Byte>, n: nat) {
    && 0 < n <= |before| == |after|
    && forall i :: 0 <= i < n ==> after[i] == DotCounts.Threshold(before[i], n)
  }

  lemma BayerScaled(before: seq<Byte>, after: seq<Byte>, n: nat, k: nat)
    requires n == Pow2(k) && n * n <= |before| && Fits(n, n, |before|) && HoldsBayer(before, n, k, n)
    requires IsScaled(before, after, n * n)
    ensures IsScreen(after, n, Ranks(before, n)) && IsBayerScreen(after, n, k)
  {
    hide BayerRank, DotCounts.Threshold, At;
    AtFits(n, n * n);
    BayerMatrixIsPermutation(before, n, k);
  }

  lemma ClusteredScaled(before: seq<Byte>, after: seq<Byte>, c: nat, order: seq<nat>)
    requires c > 0 && |order| == c * c <= |before| && IsGreedyOrder(c, order) && IsRankedBy(before, order)
    requires IsScaled(before, after, c * c)
    ensures IsScreen(after, c, Ranks(before, c)) && IsClusteredScreen(after, c, order)
  {
    hide DotCounts.Threshold, Precedes;
    OrderedRanksArePermutation(before, c, order);
    assert forall r :: 0 <= r < |order| ==> order[r] in order;
  }

  /** The thresholds of a Bayer matrix of size n = 2^k. */
  ghost predicate IsBayerScreen(screen: seq<Byte>, n: nat, k: nat)
    requires n > 0
  {
    && Fits(n, n, |screen|)
    && forall x, y :: 0 <= x < n && 0 <= y < n ==> screen[At(n, x, y)] == DotCounts.Threshold(BayerRank(k, x, y), n * n)
  }

  /** The thresholds of the clustered screen whose cells are ranked in this order. */
  ghost predicate IsClusteredScreen(screen: seq<Byte>, c: nat, order: seq<nat>)
    requires c > 0
  {
    && IsGreedyOrder(c, order) && |order| == c * c <= |screen|
    && forall r :: 0 <= r < |order| ==> order[r] < |screen| && screen[order[r]] == DotCounts.Threshold(r, c * c)
  }
}
