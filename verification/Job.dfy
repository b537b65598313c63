/** What a job is on the wire: the PJL lines, the records of every page, and the trailer. */
module Job {
  import opened Arith
  import opened Bytes
  import opened Codec11Format
  import opened Codec11Encode
  import opened Codec11EncodeTheory
  import opened Codec11TableSpec
  import opened Band
  import opened Records
  import opened Raster
  import W = Walk

  const FEEDER_AUTO: Byte := 1
  const FEEDER_MANUAL: Byte := 2
  const DUPLEX_OFF := 0
  const DUPLEX_LONG_EDGE := 1
  const DUPLEX_SHORT_EDGE := 2

  /** The parameters of a job; None stands for a null pointer. */
  datatype Job = Job(
    paperCode: Byte, paperWidthPt: int, paperHeightPt: int, dpi: nat, feeder: Byte, paperType: Option<seq<Byte>>,
    duplex: nat, skipBlankPages: bool, copies: U16, serviceDate: Option<seq<Byte>>, producer: Option<seq<Byte>>)

  predicate PlainText(s: seq<Byte>, max: nat) {
    0 < |s| <= max && forall c <- s :: 0x20 <= c <= 0x7E
  }

  predicate ValidJob(job: Job) {
    && (job.dpi == 600 || job.dpi == 1200) && (job.feeder == FEEDER_AUTO || job.feeder == FEEDER_MANUAL)
    && job.paperType.Some? && PlainText(job.paperType.value, 32) && job.copies != 0
    && job.paperWidthPt > 0 && job.paperHeightPt > 0 && job.duplex <= DUPLEX_SHORT_EDGE
    && (job.serviceDate.Some? ==> PlainText(job.serviceDate.value, 8))
    && (job.producer.Some? ==> PlainText(job.producer.value, 128))
  }

  // ---- PJL

  function ServiceDateLine(date: seq<Byte>): seq<Byte> {
    Ascii("@PJL DEFAULT SERVICEDATE=") + date
  }

  function ModelLine(): seq<Byte> {
    Ascii("@PJL COMMENT Model Name") + Ascii(" : Samsung M2020 Series")
  }

  function ProducerLine(producer: seq<Byte>): seq<Byte> {
    Ascii("@PJL COMMENT Producer : ") + producer
  }

  function SkipBlankLine(on: bool): seq<Byte> {
    Ascii("@PJL SET XIGNOREFF=") + Ascii(if on then "ON" else "OFF")
  }

  function ResolutionLine(dpi: nat): seq<Byte> {
    Ascii("@PJL SET RESOLUTION = ") + Ascii(if dpi == 600 then "600" else "1200")
  }

  function BitsPerPixelLine(): seq<Byte> {
    Ascii("@PJL SET BITSPERPIXEL = 1")
  }

  function PaperTypeLine(paperType: seq<Byte>): seq<Byte> {
    Ascii("@PJL SET PAPERTYPE = ") + paperType
  }

  function DuplexLine(duplex: nat): seq<Byte> {
    Ascii("@PJL SET DUPLEX = ") + Ascii(if duplex == DUPLEX_OFF then "OFF" else "MANUAL")
  }

  function BindingLine(duplex: nat): seq<Byte> {
    Ascii("@PJL SET BINDING = ") + Ascii(if duplex == DUPLEX_LONG_EDGE then "LONGEDGE" else "SHORTEDGE")
  }

  function EnterLine(): seq<Byte> {
    Ascii("@PJL ") + W.EnterLanguage() + Ascii("=QPDL")
  }

  function StartLines(job: Job): (lines: seq<seq<Byte>>)
    ensures lines != []
  {
    (if job.serviceDate.Some? then [ServiceDateLine(job.serviceDate.value)] else []) + [ModelLine()]
  }

  function SettingLines(job: Job): seq<seq<Byte>> {
    [SkipBlankLine(job.skipBlankPages), [], ResolutionLine(job.dpi)]
    + if job.dpi == 600 then [BitsPerPixelLine()] else []
  }

  function SidesLines(job: Job): seq<seq<Byte>> {
    [DuplexLine(job.duplex)] + if job.duplex != DUPLEX_OFF then [BindingLine(job.duplex)] else []
  }

  /** The lines up to the producer's, which is the first that holds free text. */
  function ToProducer(job: Job): (lines: seq<seq<Byte>>)
    ensures lines != []
  {
    StartLines(job) + if job.producer.Some? then [ProducerLine(job.producer.value)] else []
  }

  /** The lines up to the paper type's, which is the second. */
  function ToPaperType(job: Job): (lines: seq<seq<Byte>>)
    requires job.paperType.Some?
    ensures lines != []
  {
    ToProducer(job) + SettingLines(job) + [PaperTypeLine(job.paperType.value)]
  }

  function JobLines(job: Job): (lines: seq<seq<Byte>>)
    requires job.paperType.Some?
    ensures lines != []
  {
    ToPaperType(job) + SidesLines(job) + [EnterLine()]
  }

  function Terminated(line: seq<Byte>): seq<Byte> {
    line + [W.CR, W.LF]
  }

  function JoinLines(lines: seq<seq<Byte>>): seq<Byte> {
    if lines == [] then [] else JoinLines(lines[..|lines| - 1]) + Terminated(lines[|lines| - 1])
  }

  /** The PJL envelope; the UEL runs straight into the first line. */
  function JobHead(job: Job): seq<Byte>
    requires job.paperType.Some?
  {
    W.Uel() + JoinLines(JobLines(job))
  }

  // ---- records

  /** Points to 1/300 inch, or 1/150 at 1200 dpi, rounded half up and clamped to 16 bits. */
  function PaperDots(points: int, dpi: nat): U16 {
    var perInch := if dpi == 1200 then 150 else 300;
    var n := points * perInch + 36;
    var dots := if n < 0 then -(-n / 72) else n / 72;
    if dots < 0 then 0 else if dots > 65535 then 65535 else dots
  }

  function HeaderFor(job: Job): PageHeader
    requires ValidJob(job)
  {
    var res := job.dpi / 100;
    PageHeader(res, job.copies, job.paperCode, PaperDots(job.paperWidthPt, job.dpi),
               PaperDots(job.paperHeightPt, job.dpi), job.feeder, 0, 0, 0, 0, 3, 1, res)
  }

  /** A band compressed with the table chosen for it. */
  function BandPayload(band: seq<Byte>): (p: seq<Byte>)
    requires |band| <= LINES * (MAX_WIDTH / 8)
    ensures |TableFor(band)| == TABLE_ENTRIES
    ensures |p| <= EncodeBound(|band|) < RANGE32
  {
    TableIsWellFormed(band);
    PayloadFits(band, TableFor(band));
    Payload(band, TableFor(band))
  }

  lemma PayloadFits(band: seq<Byte>, table: Table)
    requires |band| <= LINES * (MAX_WIDTH / 8)
    ensures |Payload(band, table)| <= EncodeBound(|band|) < RANGE32
  {
    hide Payload;
    BoundIsSound(band, table);
  }

  /** The record of a band of padded rows. */
  function BandRecord(number: Byte, width: nat, rows: seq<Byte>): (item: W.Item)
    requires 0 < width <= MAX_WIDTH && |rows| == LINES * BytesPerRow(width)
    ensures W.IsRecord(item) && item.Band? && item.band.number == number
  {
    RowFits(width);
    var payload := BandPayload(RowsToBand(rows, BytesPerRow(width)));
    W.Band(BandHeader(number, BandWidth(width), LINES, COMPRESSION_0X11, |payload|), payload)
  }

  /** The bands `0 .. n` of a page; a white band is counted but not sent. */
  function BandItems(width: nat, rows: seq<seq<Byte>>, n: nat): (items: seq<W.Item>)
    requires IsRaster(width, rows) && n <= 0x100
  {
    if n == 0 then []
    else
      var s := BandRows(width, rows, n - 1);
      BandItems(width, rows, n - 1) + if Blank(s) then [] else [BandRecord(n - 1, width, s)]
  }

  lemma OneBandMore(width: nat, rows: seq<seq<Byte>>, n: nat)
    requires IsRaster(width, rows) && n < 0x100
    ensures var s := BandRows(width, rows, n);
            BandItems(width, rows, n + 1)
            == BandItems(width, rows, n) + if Blank(s) then [] else [BandRecord(n, width, s)]
  {
    hide BandRecord, BandRows, Blank;
  }

  /** The bands that a page of so many lines is cut into. */
  function BandCount(lines: nat): nat {
    (lines + LINES - 1) / LINES
  }

  /** A page as the caller gave it. */
  datatype PageRows = PageRows(width: nat, rows: seq<seq<Byte>>)

  ghost predicate ValidPage(page: PageRows) {
    IsRaster(page.width, page.rows) && BandCount(|page.rows|) <= 0x100
  }

  function PageItems(job: Job, page: PageRows): seq<W.Item>
    requires ValidJob(job) && ValidPage(page)
  {
    [W.Page(HeaderFor(job))] + BandItems(page.width, page.rows, BandCount(|page.rows|)) + [W.EndPage(job.copies)]
  }

  ghost predicate ValidPages(pages: seq<PageRows>) {
    forall page <- pages :: ValidPage(page)
  }

  function PagesItems(job: Job, pages: seq<PageRows>): seq<W.Item>
    requires ValidJob(job) && ValidPages(pages)
  {
    if pages == [] then []
    else PagesItems(job, pages[..|pages| - 1]) + PageItems(job, pages[|pages| - 1])
  }

  predicate AllRecords(items: seq<W.Item>) {
    forall item <- items :: W.IsRecord(item)
  }

  function WrittenAll(items: seq<W.Item>): seq<Byte>
    requires AllRecords(items)
  {
    if items == [] then [] else WrittenAll(items[..|items| - 1]) + W.Written(items[|items| - 1])
  }

  lemma {:induction false} WrittenAppend(a: seq<W.Item>, b: seq<W.Item>)
    requires AllRecords(a) && AllRecords(b)
    ensures AllRecords(a + b) && WrittenAll(a + b) == WrittenAll(a) + WrittenAll(b)
  {
    hide W.IsRecord, W.Written;
    if b == [] {
      assert a + b == a;
    } else {
      assert (a + b)[..|a + b| - 1] == a + b[..|b| - 1];
      WrittenAppend(a, b[..|b| - 1]);
    }
  }

  lemma {:induction false} BandItemsAreRecords(width: nat, rows: seq<seq<Byte>>, n: nat)
    requires IsRaster(width, rows) && n <= 0x100
    ensures AllRecords(BandItems(width, rows, n)) && forall item <- BandItems(width, rows, n) :: item.Band?
  {
    hide BandRecord, BandRows, Blank;
    if n > 0 {
      BandItemsAreRecords(width, rows, n - 1);
    }
  }

  lemma PageItemsAreRecords(job: Job, page: PageRows)
    requires ValidJob(job) && ValidPage(page)
    ensures AllRecords(PageItems(job, page)) && forall item <- PageItems(job, page) :: !item.EndJob?
  {
    hide HeaderFor, BandItems;
    BandItemsAreRecords(page.width, page.rows, BandCount(|page.rows|));
  }

  lemma {:induction false} PagesItemsAreRecords(job: Job, pages: seq<PageRows>)
    requires ValidJob(job) && ValidPages(pages)
    ensures AllRecords(PagesItems(job, pages)) && forall item <- PagesItems(job, pages) :: !item.EndJob?
  {
    hide PageItems;
    if pages != [] {
      PagesItemsAreRecords(job, pages[..|pages| - 1]);
      PageItemsAreRecords(job, pages[|pages| - 1]);
    }
  }

  function JobItems(job: Job, pages: seq<PageRows>): (items: seq<W.Item>)
    requires ValidJob(job) && ValidPages(pages)
    ensures AllRecords(items)
  {
    PagesItemsAreRecords(job, pages);
    PagesItems(job, pages) + [W.EndJob]
  }

  /** The bytes of a complete job. */
  function JobBytes(job: Job, pages: seq<PageRows>): seq<Byte>
    requires ValidJob(job) && ValidPages(pages)
  {
    JobHead(job) + WrittenAll(JobItems(job, pages)) + W.Uel()
  }
}
