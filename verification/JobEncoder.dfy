/** The streaming encoder: rows go in one at a time, bytes of a job come out. */
module JobEncoder {
  import opened Arith
  import opened Bytes
  import opened Codec11Format
  import opened Codec11Encode
  import opened Codec11EncodeTheory
  import opened Codec11TableSpec
  import opened Codec11Table
  import opened Band
  import opened Records
  import opened Raster
  import opened Job
  import W = Walk

  const TEXT_BUFFER := 256

  function WorkspaceBytes(width: nat): nat {
    var band := BytesPerRow(width) * LINES;
    band + band + EncodeBound(band)
  }

  // ---- what has been sent, as records

  /** The records of the finished pages, and those of the page in progress up to band `n`. */
  function SentItems(job: Job, done: seq<PageRows>, page: Option<PageRows>, n: nat): (items: seq<W.Item>)
    requires ValidJob(job) && ValidPages(done) && n <= 0x100
    requires page.Some? ==> IsRaster(page.value.width, page.value.rows)
    ensures AllRecords(items)
  {
    PagesItemsAreRecords(job, done);
    hide PagesItems, BandItems, HeaderFor, ValidPage, IsRaster, PlainText;
    if page.None? then PagesItems(job, done)
    else
      BandItemsAreRecords(page.value.width, page.value.rows, n);
      PagesItems(job, done) + ([W.Page(HeaderFor(job))] + BandItems(page.value.width, page.value.rows, n))
  }

  /** The number of bands among records. */
  function BandsIn(items: seq<W.Item>): nat {
    if items == [] then 0
    else BandsIn(items[..|items| - 1]) + if items[|items| - 1].Band? then 1 else 0
  }

  /** The number of bands, sent or white, that pages are cut into. */
  function BandsOf(pages: seq<PageRows>): nat {
    if pages == [] then 0 else BandsOf(pages[..|pages| - 1]) + BandCount(|pages[|pages| - 1].rows|)
  }

  lemma OneMoreRecord(items: seq<W.Item>, item: W.Item)
    requires AllRecords(items) && W.IsRecord(item)
    ensures AllRecords(items + [item]) && WrittenAll(items + [item]) == WrittenAll(items) + W.Written(item)
    ensures BandsIn(items + [item]) == BandsIn(items) + if item.Band? then 1 else 0
  {
    hide W.Written, W.IsRecord;
    assert (items + [item])[..|items|] == items;
  }

  /** The bytes and the count of bands that belong to records sent after `head`. */
  predicate Accounts(head: seq<Byte>, items: seq<W.Item>, out: seq<Byte>, written: nat) {
    AllRecords(items) && out == head + WrittenAll(items) && written == BandsIn(items)
  }

  lemma AccountsGrow(head: seq<Byte>, items: seq<W.Item>, out: seq<Byte>, written: nat, item: W.Item)
    requires Accounts(head, items, out, written) && W.IsRecord(item)
    ensures Accounts(head, items + [item], out + W.Written(item), written + if item.Band? then 1 else 0)
  {
    hide WrittenAll, W.Written, W.IsRecord, BandsIn, AllRecords;
    OneMoreRecord(items, item);
    Assoc(head, WrittenAll(items), W.Written(item));
  }

  // ---- one line

  /** A byte of a line as it is stored: the last one masked. */
  function StoredPart(width: nat, bits: seq<Byte>, c: nat): Byte
    requires |bits| == RowBytesUsed(width) && c < |bits|
  {
    if c == |bits| - 1 then MaskByte(bits[c], width % 8) else bits[c]
  }

  /** The workspace after a line: the line's bytes, masked, and everything else as before. */
  ghost predicate LineStored(before: seq<Byte>, after: seq<Byte>, width: nat, line: nat, bits: seq<Byte>)
    requires |before| == |after| == LINES * BytesPerRow(width) && |bits| == RowBytesUsed(width)
  {
    forall l, c :: 0 <= l < LINES && 0 <= c < BytesPerRow(width) ==>
      ByteOf(after, BytesPerRow(width), l, c)
      == if l == line && c < |bits| then StoredPart(width, bits, c) else ByteOf(before, BytesPerRow(width), l, c)
  }

  lemma RowByteOfMore(width: nat, rows: seq<seq<Byte>>, bits: seq<Byte>, y: nat, c: nat)
    requires IsRaster(width, rows) && |bits| == RowBytesUsed(width)
    ensures IsRaster(width, rows + [bits])
    ensures RowByte(width, rows + [bits], y, c) ==
            if y == |rows| then (if c < |bits| then StoredPart(width, bits, c) else 0) else RowByte(width, rows, y, c)
    ensures RowByte(width, rows, |rows|, c) == 0
  {
    hide MaskByte;
  }

  /** A line stored where the next row belongs: the workspace holds one row more. */
  lemma StoredLineIsNextRow(width: nat, rows: seq<seq<Byte>>, bits: seq<Byte>, after: seq<Byte>)
    requires IsRaster(width, rows) && |bits| == RowBytesUsed(width) && |after| == LINES * BytesPerRow(width)
    requires LineStored(BandRows(width, rows, |rows| / LINES), after, width, |rows| % LINES, bits)
    ensures IsRaster(width, rows + [bits]) && after == BandRows(width, rows + [bits], |rows| / LINES)
  {
    RowByteOfMore(width, rows, bits, 0, 0);
    hide ByteOf, RowByte, StoredPart, BandRows, BytesPerRow, RowBytesUsed;
    var bpr, k := BytesPerRow(width), |rows| / LINES;
    forall l, c | 0 <= l < LINES && 0 <= c < bpr
      ensures ByteOf(after, bpr, l, c) == ByteOf(BandRows(width, rows + [bits], k), bpr, l, c)
    {
      BandRowsAt(width, rows, k, l, c);
      BandRowsAt(width, rows + [bits], k, l, c);
      RowByteOfMore(width, rows, bits, k * LINES + l, c);
    }
    LinesDetermine(after, BandRows(width, rows + [bits], k), bpr);
  }

  /** Bytes replaced from the start of line `line` on touch that line only. */
  lemma StoredFromStart(before: seq<Byte>, after: seq<Byte>, bpr: nat, line: nat, n: nat, l: nat, c: nat)
    requires |before| == |after| == LINES * bpr && line < LINES && n <= bpr && l < LINES && c < bpr
    requires forall j :: 0 <= j < |after| && !(line * bpr <= j < line * bpr + n) ==> after[j] == before[j]
    ensures line * bpr + n <= |after|
    ensures ByteOf(after, bpr, l, c)
            == if l == line && c < n then after[line * bpr + c] else ByteOf(before, bpr, l, c)
  {
    MulMonotone(line + 1, LINES, bpr);
    RowIndexFits(bpr, l, c);
    if l < line {
      MulMonotone(l + 1, line, bpr);
    } else if l > line {
      MulMonotone(line + 1, l, bpr);
    }
  }

  lemma LineFits(line: nat, bpr: nat, used: nat)
    requires line < LINES && used <= bpr
    ensures line * bpr + used <= LINES * bpr
  {
    MulMonotone(line + 1, LINES, bpr);
  }

  lemma LineIsStored(before: seq<Byte>, after: seq<Byte>, width: nat, line: nat, bits: seq<Byte>)
    requires |before| == |after| == LINES * BytesPerRow(width) && |bits| == RowBytesUsed(width) && line < LINES
    requires var row := line * BytesPerRow(width);
             && (forall j :: 0 <= j < |after| && !(row <= j < row + |bits|) ==> after[j] == before[j])
             && (forall c :: 0 <= c < |bits| && row + c < |after| ==> after[row + c] == StoredPart(width, bits, c))
    ensures LineStored(before, after, width, line, bits)
  {
    RowFits(width);
    hide ByteOf, StoredPart, BytesPerRow, RowBytesUsed;
    forall l, c | 0 <= l < LINES && 0 <= c < BytesPerRow(width)
      ensures ByteOf(after, BytesPerRow(width), l, c)
              == if l == line && c < |bits| then StoredPart(width, bits, c)
                 else ByteOf(before, BytesPerRow(width), l, c)
    {
      StoredFromStart(before, after, BytesPerRow(width), line, |bits|, l, c);
    }
  }

  /** A band once cut stays as it is, whatever rows follow. */
  lemma {:induction false} CutBandsAreFixed(width: nat, rows: seq<seq<Byte>>, row: seq<Byte>, n: nat)
    requires IsRaster(width, rows) && IsRaster(width, rows + [row]) && n <= 0x100 && n * LINES <= |rows|
    ensures BandItems(width, rows + [row], n) == BandItems(width, rows, n)
  {
    hide BandRows, BandRecord, Blank;
    if n > 0 {
      CutBandsAreFixed(width, rows, row, n - 1);
      WrittenBandIsFixed(width, rows, row, n - 1);
    }
  }

  lemma BlankIsWhite(width: nat, rows: seq<seq<Byte>>, k: nat, s: seq<Byte>)
    requires IsRaster(width, rows) && |rows| <= k * LINES && Blank(s) && |s| == LINES * BytesPerRow(width)
    ensures s == BandRows(width, rows, k)
  {
    hide BandRows;
    UnwrittenBandIsBlank(width, rows, k);
    var t := BandRows(width, rows, k);
    assert forall i :: 0 <= i < |s| ==> s[i] in s && t[i] in t;
  }

  // ---- how the records sent grow

  lemma SentAfterHeader(job: Job, done: seq<PageRows>, width: nat, n: nat)
    requires ValidJob(job) && ValidPages(done) && IsRaster(width, []) && n <= 0x100
    ensures SentItems(job, done, Some(PageRows(width, [])), 0)
            == SentItems(job, done, None, n) + [W.Page(HeaderFor(job))]
  {
    hide PagesItems, HeaderFor;
    var page: seq<W.Item> := [W.Page(HeaderFor(job))];
    assert page + BandItems(width, [], 0) == page;
  }

  lemma SentAfterRow(job: Job, done: seq<PageRows>, width: nat, rows: seq<seq<Byte>>, row: seq<Byte>, n: nat)
    requires ValidJob(job) && ValidPages(done) && n <= 0x100 && n * LINES <= |rows|
    requires IsRaster(width, rows) && IsRaster(width, rows + [row])
    ensures SentItems(job, done, Some(PageRows(width, rows + [row])), n)
            == SentItems(job, done, Some(PageRows(width, rows)), n)
  {
    hide PagesItems, HeaderFor, BandItems;
    CutBandsAreFixed(width, rows, row, n);
  }

  lemma SentAfterBand(job: Job, done: seq<PageRows>, width: nat, rows: seq<seq<Byte>>, n: nat)
    requires ValidJob(job) && ValidPages(done) && n < 0x100 && IsRaster(width, rows)
    ensures var s := BandRows(width, rows, n);
            SentItems(job, done, Some(PageRows(width, rows)), n + 1)
            == SentItems(job, done, Some(PageRows(width, rows)), n) + if Blank(s) then [] else [BandRecord(n, width, s)]
  {
    hide PagesItems, HeaderFor, BandRows, BandRecord, Blank;
    var s := BandRows(width, rows, n);
    var more: seq<W.Item> := if Blank(s) then [] else [BandRecord(n, width, s)];
    var page: seq<W.Item> := [W.Page(HeaderFor(job))];
    var bands := BandItems(width, rows, n);
    assert BandItems(width, rows, n + 1) == bands + more;
    Assoc(page, bands, more);
    Assoc(PagesItems(job, done), page + bands, more);
  }

  lemma SentAfterPage(job: Job, done: seq<PageRows>, page: PageRows, n: nat)
    requires ValidJob(job) && ValidPages(done) && n <= 0x100
    requires ValidPage(page) && BandCount(|page.rows|) == n
    ensures ValidPages(done + [page])
    ensures SentItems(job, done + [page], None, n)
            == SentItems(job, done, Some(page), n) + [W.EndPage(job.copies)]
    ensures BandsOf(done + [page]) == BandsOf(done) + n
  {
    hide HeaderFor, BandItems;
    var head := [W.Page(HeaderFor(job))] + BandItems(page.width, page.rows, n);
    assert (done + [page])[..|done|] == done;
    Assoc(PagesItems(job, done), head, [W.EndPage(job.copies)]);
  }

  // ---- what each call does to the record of what was given

  lemma NoLines()
    ensures JoinLines([]) == []
  {
  }

  lemma CommentsFit(job: Job)
    requires ValidJob(job)
    ensures job.serviceDate.Some? ==> |Terminated(ServiceDateLine(job.serviceDate.value))| < TEXT_BUFFER
    ensures job.producer.Some? ==> |Terminated(ProducerLine(job.producer.value))| < TEXT_BUFFER
    ensures |Terminated(ModelLine())| < TEXT_BUFFER
  {
  }

  lemma SettingsFit(job: Job)
    requires ValidJob(job)
    ensures |Terminated(SkipBlankLine(job.skipBlankPages))| < TEXT_BUFFER
    ensures |Terminated([])| < TEXT_BUFFER && |Terminated(ResolutionLine(job.dpi))| < TEXT_BUFFER
    ensures |Terminated(BitsPerPixelLine())| < TEXT_BUFFER
    ensures |Terminated(PaperTypeLine(job.paperType.value))| < TEXT_BUFFER
  {
  }

  lemma SidesFit(job: Job)
    ensures |Terminated(DuplexLine(job.duplex))| < TEXT_BUFFER && |Terminated(BindingLine(job.duplex))| < TEXT_BUFFER
    ensures |Terminated(EnterLine())| < TEXT_BUFFER
  {
  }

  /** What has been sent and counted, and what it was sent for. */
  datatype Progress = Progress(
    job: Job, done: seq<PageRows>, page: Option<PageRows>, bands: nat, out: seq<Byte>,
    pages: nat, written: nat, blank: nat)

  /** The bytes sent are those of the records of the pages, up to band `bands` of the last; the counters count them. */
  ghost predicate Sent(p: Progress) {
    && ValidJob(p.job) && ValidPages(p.done) && p.bands <= 0x100
    && (p.page.Some? ==> IsRaster(p.page.value.width, p.page.value.rows))
    && Accounts(JobHead(p.job), SentItems(p.job, p.done, p.page, p.bands), p.out, p.written) && p.pages == |p.done|
    && p.written + p.blank == BandsOf(p.done) + if p.page.Some? then p.bands else 0
  }

  lemma JobStarts(job: Job)
    requires ValidJob(job)
    ensures Sent(Progress(job, [], None, 0, JobHead(job), 0, 0, 0))
  {
    assert SentItems(job, [], None, 0) == [];
    assert JobHead(job) + [] == JobHead(job);
  }

  lemma NoRows(width: nat)
    requires 0 < width <= MAX_WIDTH
    ensures IsRaster(width, [])
  {
  }

  lemma PageStarts(p: Progress, width: nat)
    requires Sent(p) && p.page.None? && 0 < width <= MAX_WIDTH
    ensures Sent(p.(page := Some(PageRows(width, [])), bands := 0, out := p.out + WritePageHeader(HeaderFor(p.job))))
  {
    hide SentItems, Accounts, BandsOf, JobHead, HeaderFor, WritePageHeader;
    hide AllRecords, IsRaster, ValidPages, PlainText;
    NoRows(width);
    SentAfterHeader(p.job, p.done, width, p.bands);
    AccountsGrow(JobHead(p.job), SentItems(p.job, p.done, None, p.bands), p.out, p.written, W.Page(HeaderFor(p.job)));
  }

  function WithRow(page: PageRows, bits: seq<Byte>): PageRows {
    page.(rows := page.rows + [bits])
  }

  /** One more row of the band being filled changes nothing that was sent. */
  lemma RowKeepsSent(p: Progress, bits: seq<Byte>)
    requires Sent(p) && p.page.Some? && p.bands * LINES <= |p.page.value.rows|
    requires |bits| == RowBytesUsed(p.page.value.width)
    ensures Sent(p.(page := Some(WithRow(p.page.value, bits))))
  {
    hide SentItems, Accounts, BandsOf, JobHead, RowBytesUsed, AllRecords, ValidPages, PlainText;
    var page := p.page.value;
    RowByteOfMore(page.width, page.rows, bits, 0, 0);
    SentAfterRow(p.job, p.done, page.width, page.rows, bits, p.bands);
  }

  lemma RecordInParts(number: Byte, width: nat, rows: seq<Byte>)
    requires 0 < width <= MAX_WIDTH && |rows| == LINES * BytesPerRow(width)
    ensures |RowsToBand(rows, BytesPerRow(width))| <= LINES * (MAX_WIDTH / 8)
    ensures var p := BandPayload(RowsToBand(rows, BytesPerRow(width)));
            && BandWidth(width) <= MAX_WIDTH
            && W.Written(BandRecord(number, width, rows))
               == WriteBandHeader(BandHeader(number, BandWidth(width), LINES, COMPRESSION_0X11, |p|)) + p
  {
    hide BandPayload, WriteBandHeader;
    RowFits(width);
  }

  /** What a band adds to the bytes: its record, or nothing if it is white. */
  function BandBytes(number: Byte, width: nat, rows: seq<Byte>): seq<Byte>
    requires 0 < width <= MAX_WIDTH && |rows| == LINES * BytesPerRow(width)
  {
    if Blank(rows) then [] else W.Written(BandRecord(number, width, rows))
  }

  lemma BandBytesAre(number: Byte, width: nat, rows: seq<Byte>)
    requires 0 < width <= MAX_WIDTH && |rows| == LINES * BytesPerRow(width)
    ensures BandBytes(number, width, rows) == if Blank(rows) then [] else W.Written(BandRecord(number, width, rows))
  {
  }

  lemma BandIsSent(p: Progress, rows: seq<Byte>)
    requires Sent(p) && p.page.Some? && p.bands < 0x100
    requires rows == BandRows(p.page.value.width, p.page.value.rows, p.bands)
    ensures 0 < p.page.value.width <= MAX_WIDTH
    ensures Sent(p.(bands := p.bands + 1, out := p.out + BandBytes(p.bands, p.page.value.width, rows),
                    written := p.written + (if Blank(rows) then 0 else 1),
                    blank := p.blank + (if Blank(rows) then 1 else 0)))
  {
    hide SentItems, Accounts, BandsOf, JobHead, BandRows, Blank, BytesPerRow, BandRecord, W.Written;
    hide AllRecords, IsRaster, ValidPages, PlainText;
    var page := p.page.value;
    RasterWidth(page.width, page.rows);
    SentAfterBand(p.job, p.done, page.width, page.rows, p.bands);
    var sent := SentItems(p.job, p.done, p.page, p.bands);
    if Blank(rows) {
      assert sent + [] == sent && p.out + [] == p.out;
    } else {
      AccountsGrow(JobHead(p.job), sent, p.out, p.written, BandRecord(p.bands, page.width, rows));
    }
  }

  lemma RasterIsPage(page: PageRows)
    requires IsRaster(page.width, page.rows) && BandCount(|page.rows|) <= 0x100
    ensures ValidPage(page)
  {
  }

  lemma PageEnds(p: Progress)
    requires Sent(p) && p.page.Some? && BandCount(|p.page.value.rows|) == p.bands
    ensures Sent(p.(done := p.done + [p.page.value], page := None, out := p.out + WriteEndPage(p.job.copies),
                    pages := p.pages + 1))
  {
    hide SentItems, Accounts, BandsOf, JobHead, WriteEndPage, ValidPage, BandCount;
    hide AllRecords, IsRaster, ValidPages, PlainText;
    RasterIsPage(p.page.value);
    SentAfterPage(p.job, p.done, p.page.value, p.bands);
    AccountsGrow(JobHead(p.job), SentItems(p.job, p.done, p.page, p.bands), p.out, p.written, W.EndPage(p.job.copies));
  }

  lemma JobEnds(p: Progress)
    requires Sent(p) && p.page.None?
    ensures ValidJob(p.job) && ValidPages(p.done)
    ensures p.out + [REC_END_JOB] + W.Uel() == JobBytes(p.job, p.done)
  {
    hide PagesItems, JobHead, W.Uel, AllRecords, ValidPages, PlainText, WrittenAll;
    PagesItemsAreRecords(p.job, p.done);
    AccountsGrow(JobHead(p.job), PagesItems(p.job, p.done), p.out, p.written, W.EndJob);
  }

  lemma SentFacts(p: Progress)
    requires Sent(p)
    ensures p.bands <= 0x100 && p.written + p.blank == BandsOf(p.done) + if p.page.Some? then p.bands else 0
  {
  }

  // ---- the rows of a page that can be sent

  const MAX_ROWS := 0x100 * LINES

  /** The rows that the 256 bands of a page have room for. */
  function Kept(rows: seq<seq<Byte>>): (kept: seq<seq<Byte>>)
    ensures kept == rows <==> |rows| <= MAX_ROWS
  {
    if |rows| <= MAX_ROWS then rows else rows[..MAX_ROWS]
  }

  /** The bands cut from so many rows. */
  function BandsCut(lines: nat): nat {
    if lines / LINES <= 0x100 then lines / LINES else 0x100
  }

  /** A 32-bit counter counts on modulo 2^32, and modulo 128 as if it did not wrap. */
  lemma Wrapped(n: nat)
    ensures (n % RANGE32 + 1) % RANGE32 == (n + 1) % RANGE32 && n % RANGE32 % LINES == n % LINES
  {
    var q, r := n / RANGE32, n % RANGE32;
    assert n == q * RANGE32 + r;
    if r + 1 < RANGE32 {
      DivModUnique(n + 1, RANGE32, q, r + 1);
    } else {
      DivModUnique(n + 1, RANGE32, q + 1, 0);
    }
    DivModUnique(n, LINES, q * (RANGE32 / LINES) + r / LINES, r % LINES);
  }

  lemma FirstOfBand(n: nat)
    ensures n < MAX_ROWS + LINES ==> BandsCut(n) == n / LINES
    ensures BandsCut(n) <= 0x100 && (n < MAX_ROWS ==> BandsCut(n) * LINES <= n)
  {
  }

  lemma KeptGrows(rows: seq<seq<Byte>>, bits: seq<Byte>)
    ensures Kept(rows + [bits]) == if |rows| < MAX_ROWS then Kept(rows) + [bits] else Kept(rows)
  {
  }

  // ---- the encoder itself

  /** memcpy of a row into the workspace, and the mask over its last byte. */
  method StoreRow(rows: array<Byte>, row: nat, width: nat, bits: seq<Byte>)
    requires 0 < |bits| == RowBytesUsed(width) && row + |bits| <= rows.Length
    modifies rows
    ensures forall j :: 0 <= j < rows.Length && !(row <= j < row + |bits|) ==> rows[j] == old(rows[j])
    ensures forall c :: 0 <= c < |bits| ==> rows[row + c] == StoredPart(width, bits, c)
  {
    hide MaskByte, RowBytesUsed;
    forall j | 0 <= j < |bits| {
      rows[row + j] := bits[j];
    }
    var last := row + |bits| - 1;
    if width % 8 != 0 {
      rows[last] := MaskByte(rows[last], width % 8);
    } else {
      assert MaskByte(rows[last], 0) == rows[last] by {
        NothingMasked(rows[last]);
      }
    }
  }

  lemma NothingMasked(b: Byte)
    ensures MaskByte(b, 0) == b
  {
  }

  method IsBlank(rows: array<Byte>) returns (blank: bool)
    ensures blank == Blank(rows[..])
  {
    blank := true;
    var i := 0;
    while i < rows.Length && blank
      invariant i <= rows.Length && (blank ==> forall j :: 0 <= j < i ==> rows[j] == 0)
      invariant !blank ==> exists j :: 0 <= j < rows.Length && rows[j] != 0
    {
      blank := rows[i] == 0;
      i := i + 1;
    }
    if !blank {
      var j :| 0 <= j < rows.Length && rows[j] != 0;
      assert rows[..][j] in rows[..];
    }
  }

  method Clear(rows: array<Byte>)
    modifies rows
    ensures Blank(rows[..])
  {
    forall i | 0 <= i < rows.Length {
      rows[i] := 0;
    }
  }

  /** Transposes, chooses the table and encodes; the payload always fits its buffer. */
  method EncodeBand(rows: array<Byte>, bpr: nat, band: array<Byte>, payload: array<Byte>) returns (n: nat)
    requires rows.Length == band.Length == LINES * bpr && bpr <= MAX_WIDTH / 8
    requires payload.Length == EncodeBound(LINES * bpr) && rows != band && rows != payload && band != payload
    modifies band, payload
    ensures n <= payload.Length && payload[..n] == BandPayload(RowsToBand(rows[..], bpr))
  {
    hide RowsToBand, TableFor, Payload, EncodeBound;
    var table := new U16[TABLE_ENTRIES];
    TransposeToBand(rows, bpr, band);
    var bytes := band[..];
    ChooseTable(bytes, table);
    TableIsWellFormed(bytes);
    PayloadFits(bytes, TableFor(bytes));
    var status;
    status, n := Encode(Some(bytes), Some(table[..]), payload);
  }

  class Encoder {
    var job: Job
    /** Everything the sink has been given since the job began. */
    var out: seq<Byte>
    var width: nat
    var bandWidth: nat
    var bytesPerRow: nat
    var rowBytesUsed: nat
    var lines: U32
    var bandNumber: nat
    var rows: array<Byte>
    var band: array<Byte>
    var payload: array<Byte>
    var inJob: bool
    var inPage: bool
    var pages: nat
    var bandsWritten: nat
    var bandsBlank: nat
    var bytesOut: nat
    /** The pages that went out, and the rows the caller has given for the page in progress. */
    ghost var done: seq<PageRows>
    ghost var drawn: seq<seq<Byte>>

    /** The geometry of the page in progress. */
    ghost predicate Sized()
      reads this`width, this`bandWidth, this`bytesPerRow, this`rowBytesUsed, this`rows, this`band, this`payload
    {
      && 0 < width <= MAX_WIDTH && bandWidth == BandWidth(width)
      && bytesPerRow == BytesPerRow(width) && rowBytesUsed == RowBytesUsed(width)
      && rows.Length == band.Length == LINES * bytesPerRow && payload.Length == EncodeBound(LINES * bytesPerRow)
      && rows != band && rows != payload && band != payload
    }

    ghost predicate Shaped()
      reads this
    {
      (inPage ==> inJob && Sized()) && (inJob ==> ValidJob(job)) && bytesOut == |out|
    }

    ghost function State(): Progress
      reads this
    {
      Progress(job, done, if inPage then Some(PageRows(width, Kept(drawn))) else None, bandNumber, out,
               pages, bandsWritten, bandsBlank)
    }

    /** The workspace holds the rows of the band being filled, and white; the band has not been refused. */
    ghost predicate Fresh()
      requires IsRaster(width, drawn)
      reads this, rows
    {
      rows[..] == BandRows(width, drawn, bandNumber)
    }

    /** How the page in progress stands. */
    ghost predicate PageTracks()
      reads this, rows
    {
      && IsRaster(width, drawn) && lines == |drawn| % RANGE32 && bandNumber == BandsCut(|drawn|)
      && (|drawn| < MAX_ROWS + LINES ==> Fresh())
    }

    /**
     * What holds between calls, whether they succeeded or not: bytes and counters are those of the
     * pages that went out and of the rows given since, as far as 256 bands reach.
     */
    ghost predicate Valid()
      reads this, rows
    {
      Shaped() && (inJob ==> Sent(State())) && (inPage ==> PageTracks())
    }

    constructor ()
      ensures Valid() && !inJob && !inPage && fresh(rows) && fresh(band) && fresh(payload)
    {
      job := Job(0, 0, 0, 0, 0, None, 0, false, 0, None, None);
      out, width, bandWidth, bytesPerRow, rowBytesUsed, lines, bandNumber := [], 0, 0, 0, 0, 0, 0;
      rows, band, payload := new Byte[0], new Byte[0], new Byte[0];
      inJob, inPage, pages, bandsWritten, bandsBlank, bytesOut := false, false, 0, 0, 0, 0;
      done, drawn := [], [];
    }

    method Emit(data: seq<Byte>)
      modifies this`out, this`bytesOut
      ensures out == old(out) + data && bytesOut == old(bytesOut) + |data|
    {
      out := out + data;
      bytesOut := bytesOut + |data|;
    }

    /** A formatted line. Every line of a valid job fits the text buffer, so formatting never fails. */
    method EmitLine(line: seq<Byte>, ghost sent: seq<seq<Byte>>)
      requires |Terminated(line)| < TEXT_BUFFER && out == W.Uel() + JoinLines(sent) && bytesOut == |out|
      modifies this`out, this`bytesOut
      ensures out == W.Uel() + JoinLines(sent + [line]) && bytesOut == |out|
    {
      assert (sent + [line])[..|sent|] == sent;
      Emit(Terminated(line));
    }

    /** Starts a job, whatever state an earlier one was left in; the sink is a new one. */
    method BeginJob(job: Option<Job>) returns (status: Status)
      requires Valid()
      modifies this
      ensures Valid()
      ensures status == if job.Some? && ValidJob(job.value) then Ok else EInval
      ensures status == EInval ==> unchanged(this)
      ensures status == Ok ==> inJob && !inPage && this.job == job.value && done == [] && out == JobHead(job.value)
    {
      hide Sent, PageTracks, JobHead, Sized;
      if job.None? || !ValidJob(job.value) {
        return EInval;
      }
      StartJob(job.value);
      return Ok;
    }

    method StartJob(job: Job)
      requires ValidJob(job)
      modifies this
      ensures Valid() && inJob && !inPage && this.job == job && done == [] && out == JobHead(job)
    {
      assert job.paperType.Some?;
      hide Sent, PageTracks, JobHead, Sized, ValidJob;
      Reset(job);
      EmitEnvelope();
      JobStarts(job);
    }

    method Reset(job: Job)
      modifies this
      ensures State() == Progress(job, [], None, 0, [], 0, 0, 0) && inJob && !inPage && bytesOut == 0
    {
      ClearCounters();
      ClearGeometry();
      this.job := job;
      inJob, inPage := true, false;
      done, drawn := [], [];
    }

    method ClearCounters()
      modifies this`out, this`bytesOut, this`pages, this`bandsWritten, this`bandsBlank
      ensures out == [] && bytesOut == pages == bandsWritten == bandsBlank == 0
    {
      out, bytesOut, pages, bandsWritten, bandsBlank := [], 0, 0, 0, 0;
    }

    method ClearGeometry()
      modifies this`width, this`bandWidth, this`bytesPerRow, this`rowBytesUsed, this`lines, this`bandNumber
      ensures width == bandWidth == bytesPerRow == rowBytesUsed == lines == bandNumber == 0
    {
      width, bandWidth, bytesPerRow, rowBytesUsed, lines, bandNumber := 0, 0, 0, 0, 0, 0;
    }

    method EmitEnvelope()
      requires ValidJob(job) && out == [] && bytesOut == 0
      modifies this`out, this`bytesOut
      ensures out == JobHead(job) && bytesOut == |out|
    {
      assert job.paperType.Some?;
      hide JoinLines, StartLines, ToProducer, ToPaperType, JobLines, W.Uel, ValidJob;
      NoLines();
      Emit(W.Uel());
      EmitStart();
      EmitSettings();
      EmitSides();
    }

    method EmitStart()
      requires ValidJob(job) && out == W.Uel() + JoinLines([]) && bytesOut == |out|
      modifies this`out, this`bytesOut
      ensures out == W.Uel() + JoinLines(ToProducer(job)) && bytesOut == |out|
    {
      CommentsFit(job);
      hide JoinLines, Terminated, W.Uel, ModelLine, ServiceDateLine, ProducerLine, ValidJob;
      EmitFirst();
      hide StartLines;
      if job.producer.Some? {
        EmitLine(ProducerLine(job.producer.value), StartLines(job));
      } else {
        assert ToProducer(job) == StartLines(job);
      }
    }

    method EmitFirst()
      requires ValidJob(job) && out == W.Uel() + JoinLines([]) && bytesOut == |out|
      modifies this`out, this`bytesOut
      ensures out == W.Uel() + JoinLines(StartLines(job)) && bytesOut == |out|
    {
      CommentsFit(job);
      hide JoinLines, Terminated, W.Uel, ModelLine, ServiceDateLine, ValidJob;
      ghost var sent: seq<seq<Byte>> := [];
      if job.serviceDate.Some? {
        EmitLine(ServiceDateLine(job.serviceDate.value), []);
        sent := [] + [ServiceDateLine(job.serviceDate.value)];
      }
      EmitLine(ModelLine(), sent);
      assert sent + [ModelLine()] == StartLines(job);
    }

    method EmitSettings()
      requires ValidJob(job) && out == W.Uel() + JoinLines(ToProducer(job)) && bytesOut == |out|
      modifies this`out, this`bytesOut
      ensures out == W.Uel() + JoinLines(ToPaperType(job)) && bytesOut == |out|
    {
      SettingsFit(job);
      hide JoinLines, Terminated, W.Uel, ToProducer, ValidJob, PaperTypeLine, SettingLines;
      EmitSkipBlank();
      EmitResolution();
      EmitLine(PaperTypeLine(job.paperType.value), ToProducer(job) + SettingLines(job));
    }

    method EmitSkipBlank()
      requires ValidJob(job) && out == W.Uel() + JoinLines(ToProducer(job)) && bytesOut == |out|
      modifies this`out, this`bytesOut
      ensures out == W.Uel() + JoinLines(ToProducer(job) + [SkipBlankLine(job.skipBlankPages), []]) && bytesOut == |out|
    {
      SettingsFit(job);
      hide JoinLines, Terminated, W.Uel, ToProducer, ValidJob, SkipBlankLine;
      ghost var sent, line := ToProducer(job), SkipBlankLine(job.skipBlankPages);
      EmitLine(SkipBlankLine(job.skipBlankPages), sent);
      EmitLine([], sent + [line]);
      assert sent + [line] + [[]] == sent + [line, []];
    }

    method EmitResolution()
      requires ValidJob(job) && bytesOut == |out|
      requires out == W.Uel() + JoinLines(ToProducer(job) + [SkipBlankLine(job.skipBlankPages), []])
      modifies this`out, this`bytesOut
      ensures out == W.Uel() + JoinLines(ToProducer(job) + SettingLines(job)) && bytesOut == |out|
    {
      SettingsFit(job);
      hide JoinLines, Terminated, W.Uel, ToProducer, ValidJob, SkipBlankLine, ResolutionLine, BitsPerPixelLine;
      ghost var start := [SkipBlankLine(job.skipBlankPages), []];
      ghost var sent := ToProducer(job) + start;
      EmitLine(ResolutionLine(job.dpi), sent);
      Assoc(ToProducer(job), start, [ResolutionLine(job.dpi)]);
      if job.dpi == 600 {
        EmitLine(BitsPerPixelLine(), sent + [ResolutionLine(job.dpi)]);
        Assoc(ToProducer(job), start + [ResolutionLine(job.dpi)], [BitsPerPixelLine()]);
        assert SettingLines(job) == start + [ResolutionLine(job.dpi)] + [BitsPerPixelLine()];
      } else {
        assert SettingLines(job) == start + [ResolutionLine(job.dpi)];
      }
    }

    method EmitSides()
      requires ValidJob(job) && out == W.Uel() + JoinLines(ToPaperType(job)) && bytesOut == |out|
      modifies this`out, this`bytesOut
      ensures out == JobHead(job) && bytesOut == |out|
    {
      SidesFit(job);
      hide JoinLines, Terminated, W.Uel, ToPaperType, DuplexLine, BindingLine, EnterLine;
      ghost var sent := ToPaperType(job);
      EmitLine(DuplexLine(job.duplex), sent);
      sent := sent + [DuplexLine(job.duplex)];
      if job.duplex != DUPLEX_OFF {
        EmitLine(BindingLine(job.duplex), sent);
        sent := sent + [BindingLine(job.duplex)];
      }
      assert sent == ToPaperType(job) + SidesLines(job);
      EmitLine(EnterLine(), sent);
    }

    /** Starts a page in a workspace of the given size; None stands for a null workspace. */
    method BeginPage(width: nat, workspace: Option<nat>) returns (status: Status)
      requires Valid()
      modifies this
      ensures Valid()
      ensures status ==
              if !old(inJob) || old(inPage) then EState
              else if width == 0 || width > MAX_WIDTH then ERange
              else if workspace.None? || workspace.value < WorkspaceBytes(width) then EInval
              else Ok
      ensures status != Ok ==> unchanged(this)
      ensures status == Ok ==>
                && inPage && this.width == width && drawn == [] && job == old(job) && done == old(done)
                && fresh(rows) && fresh(band) && fresh(payload)
    {
      hide Sent, PageTracks, ValidJob, Sized, WorkspaceBytes;
      if !inJob || inPage {
        return EState;
      }
      if width == 0 || width > MAX_WIDTH {
        return ERange;
      }
      if workspace.None? || workspace.value < WorkspaceBytes(width) {
        return EInval;
      }
      OpenPage(width);
      return Ok;
    }

    /** Lays out the workspace; only the rows are cleared. */
    method LayOut(width: nat)
      requires 0 < width <= MAX_WIDTH
      modifies this`width, this`bandWidth, this`bytesPerRow, this`rowBytesUsed, this`rows, this`band, this`payload
      ensures Sized() && this.width == width && fresh(rows) && fresh(band) && fresh(payload)
      ensures rows.Length == LINES * BytesPerRow(width) && Blank(rows[..])
    {
      hide EncodeBound, BytesPerRow, BandWidth, RowBytesUsed;
      this.width := width;
      bandWidth := BandWidth(width);
      bytesPerRow := BytesPerRow(width);
      rowBytesUsed := RowBytesUsed(width);
      var bandBytes := LINES * bytesPerRow;
      rows := new Byte[bandBytes](_ => 0);
      band := new Byte[bandBytes];
      payload := new Byte[EncodeBound(bandBytes)];
    }

    method OpenPage(width: nat)
      requires Valid() && inJob && !inPage && 0 < width <= MAX_WIDTH
      modifies this
      ensures Valid() && inJob && inPage && job == old(job) && done == old(done)
      ensures this.width == width && drawn == []
      ensures fresh(rows) && fresh(band) && fresh(payload)
    {
      hide Sent, PageTracks, ValidJob, BytesPerRow, Blank, Sized;
      ghost var p := State();
      LayOut(width);
      assert State() == p;
      StartRows();
    }

    method StartRows()
      requires Shaped() && inJob && !inPage && Sized() && Blank(rows[..]) && Sent(State())
      requires 0 < width <= MAX_WIDTH && rows.Length == LINES * BytesPerRow(width)
      modifies this`lines, this`bandNumber, this`inPage, this`drawn, this`out, this`bytesOut
      ensures Valid() && inPage && drawn == []
    {
      hide Sent, ValidJob, WritePageHeader, HeaderFor, BytesPerRow, Blank, Sized, IsRaster, BandRows;
      PageStarts(State(), width);
      NoRows(width);
      BlankIsWhite(width, [], 0, rows[..]);
      Emit(WritePageHeader(HeaderFor(job)));
      lines, bandNumber, inPage, drawn := 0, 0, true, [];
    }

    /** Encodes and sends the band in the workspace, or counts it if it is white. */
    method FlushBand() returns (status: Status)
      requires Shaped() && inPage
      modifies this`out, this`bytesOut, this`bandNumber, this`bandsWritten, this`bandsBlank, rows, band, payload
      ensures Shaped()
      ensures status == if old(bandNumber) > 255 then ERange else Ok
      ensures status == ERange ==> unchanged(this) && unchanged(rows) && unchanged(band) && unchanged(payload)
      ensures status == Ok ==>
                var s := old(rows[..]);
                && 0 < width <= MAX_WIDTH && |s| == LINES * BytesPerRow(width) && Blank(rows[..])
                && bandNumber == old(bandNumber) + 1 && out == old(out) + BandBytes(old(bandNumber), width, s)
                && bandsWritten == old(bandsWritten) + (if Blank(s) then 0 else 1)
                && bandsBlank == old(bandsBlank) + (if Blank(s) then 1 else 0)
    {
      hide Blank, ValidJob, BandBytes, Sized, BytesPerRow;
      if bandNumber > 255 {
        return ERange;
      }
      SendBand(rows[..]);
      bandNumber := bandNumber + 1;
      return Ok;
    }

    method SendBand(ghost s: seq<Byte>)
      requires Shaped() && inPage && bandNumber <= 255 && s == rows[..]
      modifies this`out, this`bytesOut, this`bandsWritten, this`bandsBlank, rows, band, payload
      ensures Shaped() && 0 < width <= MAX_WIDTH && rows.Length == LINES * BytesPerRow(width) == |s|
      ensures Blank(rows[..]) && out == old(out) + BandBytes(bandNumber, width, s)
      ensures bandsWritten == old(bandsWritten) + if Blank(s) then 0 else 1
      ensures bandsBlank == old(bandsBlank) + if Blank(s) then 1 else 0
    {
      hide Blank, ValidJob, BandBytes, BandRecord, W.Written, BytesPerRow, EncodeBound;
      BandBytesAre(bandNumber, width, s);
      var blank := IsBlank(rows);
      if blank {
        bandsBlank := bandsBlank + 1;
      } else {
        SendInk(s);
      }
    }

    method SendInk(ghost s: seq<Byte>)
      requires Shaped() && inPage && bandNumber <= 255 && s == rows[..] && |s| == LINES * BytesPerRow(width)
      modifies this`out, this`bytesOut, this`bandsWritten, rows, band, payload
      ensures Shaped() && Blank(rows[..]) && bandsWritten == old(bandsWritten) + 1
      ensures out == old(out) + W.Written(BandRecord(bandNumber, width, s))
    {
      hide Blank, ValidJob, BandRecord, W.Written, BytesPerRow, EncodeBound;
      EmitBand();
      Clear(rows);
      bandsWritten := bandsWritten + 1;
    }

    method EmitBand()
      requires Shaped() && inPage && bandNumber <= 255
      modifies this`out, this`bytesOut, band, payload
      ensures Shaped()
      ensures |rows[..]| == LINES * BytesPerRow(width)
      ensures out == old(out) + W.Written(BandRecord(bandNumber, width, rows[..]))
    {
      hide Sized, BytesPerRow, BandWidth, ValidJob, WriteBandHeader, BandPayload, BandRecord, W.Written, RowsToBand;
      var n := EncodeRows();
      RecordInParts(bandNumber, width, rows[..]);
      Emit(WriteBandHeader(BandHeader(bandNumber, bandWidth, LINES, COMPRESSION_0X11, n)));
      Emit(payload[..n]);
      Assoc(old(out), WriteBandHeader(BandHeader(bandNumber, bandWidth, LINES, COMPRESSION_0X11, n)), payload[..n]);
    }

    method EncodeRows() returns (n: nat)
      requires Sized()
      modifies band, payload
      ensures 0 < width <= MAX_WIDTH && bandWidth == BandWidth(width) && |rows[..]| == LINES * BytesPerRow(width)
      ensures n <= payload.Length && payload[..n] == BandPayload(RowsToBand(rows[..], BytesPerRow(width)))
    {
      hide EncodeBound, BytesPerRow, BandWidth, RowBytesUsed, BandPayload, RowsToBand;
      RowFits(width);
      n := EncodeBand(rows, bytesPerRow, band, payload);
    }

    /** Takes one packed row. A null row is refused; so is one that completes a band after the 256th. */
    method WriteLine(bits: Option<seq<Byte>>) returns (status: Status)
      requires Valid() && (inPage && bits.Some? ==> |bits.value| == rowBytesUsed)
      modifies this, rows, band, payload
      ensures Valid()
      ensures status ==
              if !old(inPage) then EState
              else if bits.None? then EInval
              else if |drawn| % LINES == 0 && |drawn| > MAX_ROWS then ERange
              else Ok
      ensures !old(inPage) || bits.None? ==>
                unchanged(this) && unchanged(rows) && unchanged(band) && unchanged(payload)
      ensures old(inPage) && bits.Some? ==>
                && inPage && drawn == old(drawn) + [bits.value]
                && job == old(job) && width == old(width) && done == old(done) && rowBytesUsed == old(rowBytesUsed)
                && rows == old(rows) && band == old(band) && payload == old(payload)
                && (status == ERange ==> out == old(out) && bandNumber == old(bandNumber))
                && (|drawn| % LINES != 0 ==> out == old(out) && bandNumber == old(bandNumber))
    {
      hide Sent, PageTracks, ValidJob, Sized, IsRaster;
      if !inPage {
        return EState;
      }
      if bits.None? {
        return EInval;
      }
      AcceptLine(bits.value);
      if lines as int % LINES == 0 {
        status := CutBand();
      } else {
        BandNotFull();
        status := Ok;
      }
    }

    /** The page after a row has been stored and before the band is cut, if the row completes it. */
    ghost predicate RowTaken()
      requires drawn != []
      reads this, rows
    {
      && Shaped() && inPage && Sent(State()) && IsRaster(width, drawn) && lines == |drawn| % RANGE32
      && bandNumber == BandsCut(|drawn| - 1) && (|drawn| <= MAX_ROWS + LINES ==> Fresh())
    }

    method AcceptLine(bits: seq<Byte>)
      requires Valid() && inPage && |bits| == rowBytesUsed
      modifies this`lines, this`drawn, rows
      ensures drawn == old(drawn) + [bits] && RowTaken()
    {
      hide Sent, Sized, ValidJob, LineStored, BytesPerRow, RowBytesUsed, IsRaster, BandRows, BandsCut, Kept;
      ghost var p, before := State(), rows[..];
      Wrapped(|drawn|);
      FirstOfBand(|drawn|);
      StoreLine(bits);
      RowByteOfMore(width, drawn, bits, 0, 0);
      if |drawn| < MAX_ROWS + LINES {
        StoredLineIsNextRow(width, drawn, bits, rows[..]);
      }
      KeptGrows(drawn, bits);
      if |drawn| < MAX_ROWS {
        RowKeepsSent(p, bits);
      }
      lines := (lines as int + 1) % RANGE32;
      drawn := drawn + [bits];
    }

    lemma BandNotFull()
      requires drawn != [] && RowTaken() && lines as int % LINES != 0
      ensures Valid() && |drawn| % LINES != 0
    {
      hide Sent, Sized, ValidJob, IsRaster, BandRows;
    }

    /** The end of a band: sent, counted as white, or refused. */
    method CutBand() returns (status: Status)
      requires drawn != [] && RowTaken() && lines as int % LINES == 0
      modifies this`out, this`bytesOut, this`bandNumber, this`bandsWritten, this`bandsBlank, rows, band, payload
      ensures Valid() && |drawn| % LINES == 0
      ensures status == if |drawn| > MAX_ROWS then ERange else Ok
      ensures status == ERange ==> out == old(out) && bandNumber == old(bandNumber)
    {
      hide Sent, Sized, ValidJob, IsRaster, BandRows, Blank, BandBytes, BytesPerRow;
      ghost var p, s := State(), rows[..];
      status := FlushBand();
      if status == Ok {
        BandIsSent(p, s);
        BlankIsWhite(width, drawn, bandNumber, rows[..]);
      }
    }

    method StoreLine(bits: seq<Byte>)
      requires inPage && Sized() && |bits| == rowBytesUsed
      modifies rows
      ensures |bits| == RowBytesUsed(width) && rows.Length == LINES * BytesPerRow(width)
      ensures LineStored(old(rows[..]), rows[..], width, lines as int % LINES, bits)
    {
      hide LineStored, BytesPerRow, BandWidth, RowBytesUsed, EncodeBound;
      ghost var before := rows[..];
      var line := lines as int % LINES;
      RowFits(width);
      LineFits(line, bytesPerRow, rowBytesUsed);
      StoreRow(rows, line * bytesPerRow, width, bits);
      LineIsStored(before, rows[..], width, line, bits);
    }

    /**
     * Sends what is left of the last band, padded with white, and ends the page. A row that was
     * refused does not stop the page from ending: it goes out without what came after 256 bands.
     */
    method EndPage() returns (status: Status)
      requires Valid()
      modifies this, rows, band, payload
      ensures Valid()
      ensures status ==
              if !old(inPage) then EState
              else if old(|drawn|) % LINES != 0 && old(|drawn|) > MAX_ROWS then ERange
              else Ok
      ensures status != Ok ==> unchanged(this) && unchanged(rows) && unchanged(band) && unchanged(payload)
      ensures status == Ok ==>
                && inJob && !inPage && job == old(job)
                && done == old(done) + [PageRows(old(width), Kept(old(drawn)))]
                && bandsWritten + bandsBlank == old(BandsOf(done)) + BandCount(|Kept(old(drawn))|)
    {
      hide Sent, PageTracks, ValidJob, Sized, IsRaster, BandsOf, Kept;
      if !inPage {
        return EState;
      }
      LinesOfPage();
      if lines as int % LINES != 0 {
        status := CutRest();
        if status != Ok {
          return status;
        }
      }
      ClosePage();
      return Ok;
    }

    /** The 32-bit line counter may have wrapped, which 128 does not notice. */
    lemma LinesOfPage()
      requires Valid() && inPage
      ensures lines as int % LINES == |drawn| % LINES && 0 < width <= MAX_WIDTH && bandNumber == BandsCut(|drawn|)
      ensures lines as int % LINES == 0 ==> BandCount(|Kept(drawn)|) == bandNumber
    {
      hide Sent, ValidJob, BandRows, Sized, IsRaster;
      RasterWidth(width, drawn);
      Wrapped(|drawn|);
    }

    lemma RestOfPage()
      requires Valid() && inPage && lines as int % LINES != 0
      ensures Shaped() && Sent(State()) && (bandNumber > 255 <==> |drawn| > MAX_ROWS)
      ensures bandNumber <= 255 ==>
                && IsRaster(width, drawn) && Fresh() && Kept(drawn) == drawn && BandCount(|drawn|) == bandNumber + 1
    {
      hide Sent, Sized, ValidJob, IsRaster, BandRows;
    }

    /** The partial band at the end of a page. */
    method CutRest() returns (status: Status)
      requires Valid() && inPage && lines as int % LINES != 0
      modifies this`out, this`bytesOut, this`bandNumber, this`bandsWritten, this`bandsBlank, rows, band, payload
      ensures status == if |drawn| > MAX_ROWS then ERange else Ok
      ensures status != Ok ==> unchanged(this) && unchanged(rows) && unchanged(band) && unchanged(payload)
      ensures status == Ok ==> Shaped() && Sent(State()) && BandCount(|Kept(drawn)|) == bandNumber
    {
      hide Sent, Sized, ValidJob, IsRaster, BandRows, Blank, BandBytes, BytesPerRow;
      hide PageTracks, BandCount, BandsCut, Kept;
      RestOfPage();
      ghost var p, s := State(), rows[..];
      status := FlushBand();
      if status == Ok {
        BandIsSent(p, s);
      }
    }

    method ClosePage()
      requires Shaped() && inPage && Sent(State()) && BandCount(|Kept(drawn)|) == bandNumber
      modifies this`inPage, this`pages, this`done, this`out, this`bytesOut
      ensures Valid() && inJob && !inPage && done == old(done) + [old(PageRows(width, Kept(drawn)))]
      ensures bandsWritten + bandsBlank == old(BandsOf(done)) + bandNumber
    {
      hide Sent, ValidJob, Sized, WriteEndPage, BandCount, BandsOf, Kept, PageTracks, IsRaster, BandRows;
      SentFacts(State());
      PageEnds(State());
      inPage := false;
      pages := pages + 1;
      done := done + [PageRows(width, Kept(drawn))];
      Emit(WriteEndPage(job.copies));
    }

    method EndJob() returns (status: Status)
      requires Valid()
      modifies this
      ensures Valid()
      ensures status == if !old(inJob) || old(inPage) then EState else Ok
      ensures status != Ok ==> unchanged(this)
      ensures status == Ok ==>
                && !inJob && !inPage && job == old(job) && done == old(done)
                && ValidJob(job) && ValidPages(done) && out == JobBytes(job, done)
    {
      hide Sent, PageTracks, ValidJob, Sized, JobBytes, ValidPages;
      if !inJob || inPage {
        return EState;
      }
      JobEnds(State());
      inJob := false;
      Emit([REC_END_JOB]);
      Emit(W.Uel());
      return Ok;
    }
  }

  /**
   * A whole page, whatever its height and whatever the encoder answers on the way. It can be ended
   * exactly when it is of at most 256 bands, or taller and of full bands only; what goes out is then
   * the rows that 256 bands hold, and that is all of them exactly when there are no more.
   */
  method OfferPage(e: Encoder, rows: seq<seq<Byte>>) returns (ended: Status)
    requires e.Valid() && e.inPage && e.drawn == [] && forall row <- rows :: |row| == e.rowBytesUsed
    modifies e, e.rows, e.band, e.payload
    ensures e.Valid() && e.job == old(e.job)
    ensures ended == if |rows| <= MAX_ROWS || |rows| % LINES == 0 then Ok else ERange
    ensures ended == Ok ==> !e.inPage && e.done == old(e.done) + [PageRows(old(e.width), Kept(rows))]
    ensures Kept(rows) == rows <==> |rows| <= MAX_ROWS
  {
    hide *;
    for i := 0 to |rows|
      invariant e.Valid() && e.inPage && e.drawn == rows[..i] && e.job == old(e.job) && e.done == old(e.done)
      invariant e.width == old(e.width) && e.rowBytesUsed == old(e.rowBytesUsed)
      invariant e.rows == old(e.rows) && e.band == old(e.band) && e.payload == old(e.payload)
    {
      assert rows[i] in rows && rows[..i + 1] == rows[..i] + [rows[i]];
      var status := e.WriteLine(Some(rows[i]));
    }
    assert rows[..|rows|] == rows;
    ended := e.EndPage();
  }

  /** The workspace that a page asks for is exactly what its three buffers take. */
  lemma WorkspaceIsExact(e: Encoder)
    requires e.Valid() && e.inPage
    ensures e.rows.Length + e.band.Length + e.payload.Length == WorkspaceBytes(e.width)
  {
    hide Sent, BytesPerRow, EncodeBound;
  }
}
