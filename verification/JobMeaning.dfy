/** What a job says about itself on the wire: its settings line by line, its pages header by header. */
module JobMeaning {
  import opened Arith
  import opened Bytes
  import opened Codec11Format
  import opened Codec11Encode
  import opened Codec11PayloadTheory
  import opened Codec11TableSpec
  import opened Codec11TableTheory
  import opened Band
  import opened Records
  import opened Raster
  import opened Walk
  import opened WalkTheory
  import opened Job
  import opened JobText
  import opened JobRoundTrip

  // ---- page headers

  /** Points in the printer's unit, 300 to the inch or 150 at 1200 dpi, rounded half up, with 65535 as the top. */
  predicate IsPaperSize(dots: int, points: int, dpi: nat) {
    var n := points * if dpi == 1200 then 150 else 300;
    && 0 <= dots <= 65535 && 72 * dots <= n + 36
    && (dots < 65535 ==> n + 36 < 72 * (dots + 1))
  }

  /** The header of every page of the job: each field holds the job's own setting, the others are fixed. */
  predicate IsHeaderOf(job: Job, h: PageHeader) {
    && h.yRes100 as int * 100 == job.dpi && h.xRes100 as int * 100 == job.dpi
    && h.copies == job.copies && h.paperCode == job.paperCode && h.feeder == job.feeder
    && IsPaperSize(h.paperWidth, job.paperWidthPt, job.dpi) && IsPaperSize(h.paperHeight, job.paperHeightPt, job.dpi)
    && h.reservedA == 0 && h.duplex == 0 && h.tumble == 0 && h.reservedD == 0 && h.qpdlVersion == 3 && h.reservedF == 1
  }

  lemma PaperDotsMeaning(points: int, dpi: nat, dots: U16)
    requires points > 0
    ensures dots == PaperDots(points, dpi) <==> IsPaperSize(dots, points, dpi)
  {
  }

  lemma HeaderMeaning(job: Job, h: PageHeader)
    requires ValidJob(job)
    ensures h == HeaderFor(job) <==> IsHeaderOf(job, h)
  {
    hide PaperDots, IsPaperSize;
    PaperDotsMeaning(job.paperWidthPt, job.dpi, h.paperWidth);
    PaperDotsMeaning(job.paperHeightPt, job.dpi, h.paperHeight);
  }

  /** A band of a page `width` pixels wide: the next multiple of 256, 128 lines, compression 0x11. */
  predicate IsBandOf(width: nat, item: Item) {
    && item.Band? && width <= item.band.width < width + 256 && item.band.width as int % 256 == 0
    && item.band.height == 128 && item.band.compression == 0x11 && item.band.length == |item.payload|
  }

  /** A sheet of the job: a page header, bands, and an end of page with the number of copies. */
  ghost predicate IsSheetOf(job: Job, width: nat, sheet: seq<Item>) {
    && |sheet| >= 2 && sheet[0].Page? && IsHeaderOf(job, sheet[0].header)
    && sheet[0].header.copies > 0 && sheet[0].header.feeder in {1, 2} && sheet[0].header.yRes100 in {6, 12}
    && sheet[|sheet| - 1] == EndPage(job.copies)
    && forall k :: 1 <= k < |sheet| - 1 ==> IsBandOf(width, sheet[k])
  }

  /** A band's payload: the table that the band calls for, and the one payload that goes with it. */
  ghost predicate IsCompressed(band: seq<Byte>, p: seq<Byte>, table: Table) {
    HasTable(band, table) && exists r: nat, ts: seq<Token> :: IsPayload(band, table, p, r, ts)
  }

  ghost predicate HasTable(band: seq<Byte>, table: Table) {
    exists steps: seq<Step>, credit: Credit, sel: seq<U16> :: IsTable(band, table, steps, credit, sel)
  }

  lemma TableExact(band: seq<Byte>, table: Table)
    ensures HasTable(band, table) <==> table == TableFor(band)
  {
    hide TableFor, IsTable;
    TableMeaning(band, table);
  }

  lemma CompressedExact(band: seq<Byte>, p: seq<Byte>, table: Table)
    ensures IsCompressed(band, p, table) <==> table == TableFor(band) && p == Payload(band, table)
  {
    hide TableFor, Payload, IsPayload, HasTable;
    TableExact(band, table);
    PayloadMeaning(band, table, p);
  }

  /** What is sent for a band is its compressed form with its own table, whatever the band. */
  lemma BandPayloadMeaning(band: seq<Byte>, p: seq<Byte>)
    requires |band| <= 128 * 8160
    ensures p == BandPayload(band) <==> exists table: Table :: IsCompressed(band, p, table)
  {
    hide TableFor, Payload, IsCompressed;
    TableIsWellFormed(band);
    CompressedExact(band, p, TableFor(band));
    forall table: Table | IsCompressed(band, p, table)
      ensures p == BandPayload(band)
    {
      CompressedExact(band, p, table);
    }
  }

  lemma BandRecordIsBandOf(number: Byte, width: nat, rows: seq<Byte>)
    requires 0 < width <= MAX_WIDTH && |rows| == LINES * BytesPerRow(width)
    ensures IsBandOf(width, BandRecord(number, width, rows))
  {
    hide BandPayload;
  }

  lemma {:induction false} BandItemsAreBandsOf(width: nat, rows: seq<seq<Byte>>, n: nat)
    requires IsRaster(width, rows) && n <= 0x100
    ensures forall item <- BandItems(width, rows, n) :: IsBandOf(width, item)
  {
    hide BandRecord, BandRows, Blank, IsBandOf, IsRaster;
    if n > 0 {
      BandItemsAreBandsOf(width, rows, n - 1);
      OneBandMore(width, rows, n - 1);
      RasterWidth(width, rows);
      BandRecordIsBandOf(n - 1, width, BandRows(width, rows, n - 1));
    }
  }

  lemma PageIsSheetOf(job: Job, page: PageRows)
    requires ValidJob(job) && ValidPage(page)
    ensures IsSheetOf(job, page.width, PageItems(job, page))
  {
    hide BandItems, IsBandOf, IsHeaderOf, IsRaster, PaperDots, PlainText;
    var bands := BandItems(page.width, page.rows, BandCount(|page.rows|));
    HeaderMeaning(job, HeaderFor(job));
    BandItemsAreBandsOf(page.width, page.rows, BandCount(|page.rows|));
    var sheet := PageItems(job, page);
    forall k | 1 <= k < |sheet| - 1
      ensures IsBandOf(page.width, sheet[k])
    {
      assert sheet[k] == bands[k - 1] && bands[k - 1] in bands;
    }
  }

  /** Every sheet the walker delivers carries the settings of the job, each in its own field. */
  lemma SheetsCarryTheJob(job: Job, pages: seq<PageRows>, i: nat)
    requires ValidJob(job) && ValidPages(pages) && !ProducerEnters(job) && !PaperTypeEnters(job) && i < |pages|
    ensures var sheets := Sheets(Items(Walked(JobBytes(job, pages)).events));
            |sheets| == |pages| && IsSheetOf(job, pages[i].width, sheets[i])
  {
    hide ProducerEnters, PaperTypeEnters, Sheets, Uel, JobHead, JobItems, Walked, PageItems, IsSheetOf;
    JobIsWalked(job, pages);
    SheetsOfEvents(Glued(JobLines(job)), job, pages, |JobHead(job)|,
                   Event(|JobBytes(job, pages)| - |Uel()|, PjlLine(Uel())));
    assert pages[i] in pages;
    PageIsSheetOf(job, pages[i]);
  }

  // ---- settings

  /** Three characters that tell the lines of the envelope apart. */
  function Mark(line: seq<Byte>): nat {
    if |line| < 14 then 0 else line[9] as int * 0x1_0000 + line[11] as int * 0x100 + line[13]
  }

  lemma MarkOf(text: string, v: seq<Byte>)
    requires |text| >= 14
    requires 0x20 <= text[9] as int < 0x7F && 0x20 <= text[11] as int < 0x7F && 0x20 <= text[13] as int < 0x7F
    ensures Mark(Ascii(text) + v) == text[9] as int * 0x1_0000 + text[11] as int * 0x100 + text[13] as int
  {
  }

  lemma CommentMarks(v: seq<Byte>)
    ensures Mark(Ascii("@PJL DEFAULT SERVICEDATE=") + v) == 0x55_5453 && Mark(ModelLine()) == 0x45_544D
    ensures Mark(Ascii("@PJL COMMENT Producer : ") + v) == 0x45_5450
  {
    hide Mark, Ascii;
    MarkOf("@PJL DEFAULT SERVICEDATE=", v);
    MarkOf("@PJL COMMENT Model Name", Ascii(" : Samsung M2020 Series"));
    MarkOf("@PJL COMMENT Producer : ", v);
  }

  lemma SettingMarks(v: seq<Byte>)
    ensures Mark(Ascii("@PJL SET XIGNOREFF=") + v) == 0x58_474F
    ensures Mark(Ascii("@PJL SET RESOLUTION = ") + v) == 0x52_534C
    ensures Mark(Ascii("@PJL SET BITSPERPIXEL = ") + v) == 0x42_5450
    ensures Mark(Ascii("@PJL SET PAPERTYPE = ") + v) == 0x50_5052
  {
    hide Mark, Ascii;
    MarkOf("@PJL SET XIGNOREFF=", v);
    MarkOf("@PJL SET RESOLUTION = ", v);
    MarkOf("@PJL SET BITSPERPIXEL = ", v);
    MarkOf("@PJL SET PAPERTYPE = ", v);
  }

  lemma SidesMarks(v: seq<Byte>)
    ensures Mark(Ascii("@PJL SET DUPLEX = ") + v) == 0x44_5045
    ensures Mark(Ascii("@PJL SET BINDING = ") + v) == 0x42_4E49
    ensures Mark(EnterLine()) == 0x52_4C4E && Mark([]) == 0
  {
    MarkOf("@PJL SET DUPLEX = ", v);
    MarkOf("@PJL SET BINDING = ", v);
    assert EnterLine()[9] == 0x52 && EnterLine()[11] == 0x4C && EnterLine()[13] == 0x4E;
  }

  /** The lines that a job can have, each under the condition under which it has it. */
  predicate IsJobLine(job: Job, line: seq<Byte>) {
    || (job.serviceDate.Some? && line == Ascii("@PJL DEFAULT SERVICEDATE=") + job.serviceDate.value)
    || line == ModelLine()
    || (job.producer.Some? && line == Ascii("@PJL COMMENT Producer : ") + job.producer.value)
    || line == Ascii("@PJL SET XIGNOREFF=") + Ascii(if job.skipBlankPages then "ON" else "OFF")
    || line == [] || line == Ascii("@PJL SET RESOLUTION = ") + Ascii(if job.dpi == 600 then "600" else "1200")
    || (job.dpi == 600 && line == Ascii("@PJL SET BITSPERPIXEL = ") + Ascii("1"))
    || (job.paperType.Some? && line == Ascii("@PJL SET PAPERTYPE = ") + job.paperType.value)
    || line == Ascii("@PJL SET DUPLEX = ") + Ascii(if job.duplex == 0 then "OFF" else "MANUAL")
    || (job.duplex != 0
        && line == Ascii("@PJL SET BINDING = ") + Ascii(if job.duplex == 1 then "LONGEDGE" else "SHORTEDGE"))
    || line == EnterLine()
  }

  lemma BitsPerPixel()
    ensures BitsPerPixelLine() == Ascii("@PJL SET BITSPERPIXEL = ") + Ascii("1")
  {
  }

  lemma JobLinesAre(job: Job, line: seq<Byte>)
    requires ValidJob(job)
    ensures line in JobLines(job) <==> IsJobLine(job, line)
  {
    BitsPerPixel();
    hide Ascii, ModelLine, EnterLine, BitsPerPixelLine, PlainText;
    var start, producer := StartLines(job), if job.producer.Some? then [ProducerLine(job.producer.value)] else [];
    var settings, sides := SettingLines(job), SidesLines(job);
    assert JobLines(job) == start + producer + settings + [PaperTypeLine(job.paperType.value)] + sides + [EnterLine()];
  }

  /** The line is reported; the UEL in front of the first line of the file is not part of it. */
  ghost predicate Reports(es: seq<Event>, line: seq<Byte>) {
    exists i :: 0 <= i < |es| && (es[i].item == PjlLine(line) || (i == 0 && es[0].item == PjlLine(Uel() + line)))
  }

  /** Every setting of the job is reported as it is, under its own name and only once. */
  ghost predicate SaysSettings(job: Job, es: seq<Event>, v: seq<Byte>) {
    && (Reports(es, Ascii("@PJL DEFAULT SERVICEDATE=") + v) <==> job.serviceDate == Some(v))
    && (Reports(es, Ascii("@PJL COMMENT Producer : ") + v) <==> job.producer == Some(v))
    && (Reports(es, Ascii("@PJL SET XIGNOREFF=") + v) <==> v == Ascii(if job.skipBlankPages then "ON" else "OFF"))
    && (Reports(es, Ascii("@PJL SET RESOLUTION = ") + v) <==> v == Ascii(if job.dpi == 600 then "600" else "1200"))
    && (Reports(es, Ascii("@PJL SET BITSPERPIXEL = ") + v) <==> job.dpi == 600 && v == Ascii("1"))
    && (Reports(es, Ascii("@PJL SET PAPERTYPE = ") + v) <==> job.paperType == Some(v))
    && (Reports(es, Ascii("@PJL SET DUPLEX = ") + v) <==> v == Ascii(if job.duplex == 0 then "OFF" else "MANUAL"))
    && (Reports(es, Ascii("@PJL SET BINDING = ") + v) <==>
          job.duplex != 0 && v == Ascii(if job.duplex == 1 then "LONGEDGE" else "SHORTEDGE"))
  }

  lemma SameTail(key: seq<Byte>, v: seq<Byte>, w: seq<Byte>)
    requires key + v == key + w
    ensures v == w
  {
    assert v == (key + v)[|key|..] == (key + w)[|key|..] == w;
  }

  /** The line that a mark stands for. */
  predicate ByMark(job: Job, line: seq<Byte>) {
    match Mark(line)
    case 0x55_5453 => job.serviceDate.Some? && line == Ascii("@PJL DEFAULT SERVICEDATE=") + job.serviceDate.value
    case 0x45_5450 => job.producer.Some? && line == Ascii("@PJL COMMENT Producer : ") + job.producer.value
    case 0x58_474F => line == Ascii("@PJL SET XIGNOREFF=") + Ascii(if job.skipBlankPages then "ON" else "OFF")
    case 0x52_534C => line == Ascii("@PJL SET RESOLUTION = ") + Ascii(if job.dpi == 600 then "600" else "1200")
    case 0x42_5450 => job.dpi == 600 && line == Ascii("@PJL SET BITSPERPIXEL = ") + Ascii("1")
    case 0x50_5052 => job.paperType.Some? && line == Ascii("@PJL SET PAPERTYPE = ") + job.paperType.value
    case 0x44_5045 => line == Ascii("@PJL SET DUPLEX = ") + Ascii(if job.duplex == 0 then "OFF" else "MANUAL")
    case 0x42_4E49 => job.duplex != 0 && line == Ascii("@PJL SET BINDING = ")
                                                 + Ascii(if job.duplex == 1 then "LONGEDGE" else "SHORTEDGE")
    case _ => true
  }

  /** The mark tells which of the lines it is. */
  lemma MarksDiffer(job: Job, line: seq<Byte>)
    requires IsJobLine(job, line)
    ensures ByMark(job, line)
  {
    hide Mark, Ascii, ModelLine, EnterLine;
    CommentMarks(if job.serviceDate.Some? then job.serviceDate.value else []);
    CommentMarks(if job.producer.Some? then job.producer.value else []);
    SettingMarks(Ascii(if job.skipBlankPages then "ON" else "OFF"));
    SettingMarks(Ascii(if job.dpi == 600 then "600" else "1200"));
    SettingMarks(Ascii("1"));
    SettingMarks(if job.paperType.Some? then job.paperType.value else []);
    SidesMarks(Ascii(if job.duplex == 0 then "OFF" else "MANUAL"));
    SidesMarks(Ascii(if job.duplex == 1 then "LONGEDGE" else "SHORTEDGE"));
  }

  /** A name that only one possible line has, with the text `w` behind it if the job has it. */
  lemma OneLineOf(job: Job, key: seq<Byte>, has: bool, w: seq<Byte>, v: seq<Byte>)
    requires ValidJob(job) && (has ==> IsJobLine(job, key + w))
    requires IsJobLine(job, key + v) ==> has && key + v == key + w
    ensures key + v in JobLines(job) <==> has && v == w
  {
    hide *;
    JobLinesAre(job, key + v);
    if IsJobLine(job, key + v) {
      SameTail(key, v, w);
    }
  }

  lemma FreeTextLines(job: Job, v: seq<Byte>)
    requires ValidJob(job)
    ensures Ascii("@PJL DEFAULT SERVICEDATE=") + v in JobLines(job) <==> job.serviceDate == Some(v)
    ensures Ascii("@PJL COMMENT Producer : ") + v in JobLines(job) <==> job.producer == Some(v)
    ensures Ascii("@PJL SET PAPERTYPE = ") + v in JobLines(job) <==> job.paperType == Some(v)
  {
    hide Mark, Ascii, ModelLine, EnterLine, JobLines, ValidJob;
    CommentMarks(v);
    SettingMarks(v);
    LinesByMark(job, v);
    OneLineOf(job, Ascii("@PJL DEFAULT SERVICEDATE="), job.serviceDate.Some?, Held(job.serviceDate), v);
    OneLineOf(job, Ascii("@PJL COMMENT Producer : "), job.producer.Some?, Held(job.producer), v);
    OneLineOf(job, Ascii("@PJL SET PAPERTYPE = "), job.paperType.Some?, Held(job.paperType), v);
  }

  function Held(o: Option<seq<Byte>>): seq<Byte> {
    if o.Some? then o.value else []
  }

  lemma LinesByMark(job: Job, v: seq<Byte>)
    ensures forall key: seq<Byte> :: IsJobLine(job, key + v) ==> ByMark(job, key + v)
  {
    hide IsJobLine, ByMark;
    forall key: seq<Byte> | IsJobLine(job, key + v)
      ensures ByMark(job, key + v)
    {
      MarksDiffer(job, key + v);
    }
  }

  lemma FixedTextLines(job: Job, v: seq<Byte>)
    requires ValidJob(job)
    ensures Ascii("@PJL SET XIGNOREFF=") + v in JobLines(job) <==>
              v == Ascii(if job.skipBlankPages then "ON" else "OFF")
    ensures Ascii("@PJL SET RESOLUTION = ") + v in JobLines(job) <==>
              v == Ascii(if job.dpi == 600 then "600" else "1200")
    ensures Ascii("@PJL SET BITSPERPIXEL = ") + v in JobLines(job) <==> job.dpi == 600 && v == Ascii("1")
    ensures Ascii("@PJL SET DUPLEX = ") + v in JobLines(job) <==>
              v == Ascii(if job.duplex == 0 then "OFF" else "MANUAL")
    ensures Ascii("@PJL SET BINDING = ") + v in JobLines(job) <==>
              job.duplex != 0 && v == Ascii(if job.duplex == 1 then "LONGEDGE" else "SHORTEDGE")
  {
    hide Mark, Ascii, ModelLine, EnterLine, JobLines, ValidJob;
    SettingMarks(v);
    SidesMarks(v);
    LinesByMark(job, v);
    OneLineOf(job, Ascii("@PJL SET XIGNOREFF="), true, Ascii(if job.skipBlankPages then "ON" else "OFF"), v);
    OneLineOf(job, Ascii("@PJL SET RESOLUTION = "), true, Ascii(if job.dpi == 600 then "600" else "1200"), v);
    OneLineOf(job, Ascii("@PJL SET BITSPERPIXEL = "), job.dpi == 600, Ascii("1"), v);
    OneLineOf(job, Ascii("@PJL SET DUPLEX = "), true, Ascii(if job.duplex == 0 then "OFF" else "MANUAL"), v);
    OneLineOf(job, Ascii("@PJL SET BINDING = "), job.duplex != 0,
              Ascii(if job.duplex == 1 then "LONGEDGE" else "SHORTEDGE"), v);
  }

  lemma {:induction false} LineEventAt(lines: seq<seq<Byte>>, i: nat)
    requires i < |lines|
    ensures LineEvents(lines)[i].item == PjlLine(lines[i])
  {
    if i < |lines| - 1 {
      LineEventAt(lines[..|lines| - 1], i);
    }
  }

  lemma {:induction false} RecordEventAt(items: seq<Item>, pos: nat, i: nat)
    requires AllRecords(items) && i < |items|
    ensures !EventsAt(items, pos)[i].item.PjlLine?
    decreases i
  {
    hide Written;
    assert items[0] in items;
    if i > 0 {
      RecordEventAt(items[1..], pos + |Written(items[0])|, i - 1);
    }
  }

  /** Of the lines that a job sends, and of no others, it is reported that they are there. */
  lemma ReportsLines(lines: seq<seq<Byte>>, items: seq<Item>, pos: nat, last: Event, line: seq<Byte>)
    requires lines != [] && AllRecords(items) && last.item == PjlLine(Uel()) && line != [] && line[0] != 0x1B
    ensures Reports(LineEvents(Glued(lines)) + EventsAt(items, pos) + [last], line) <==> line in lines
  {
    hide LineEvents, EventsAt, AllRecords;
    var es, n, glued := LineEvents(Glued(lines)) + EventsAt(items, pos) + [last], |lines|, Glued(lines);
    forall i | 0 <= i < |es|
      ensures es[i].item == if i < n then PjlLine(glued[i]) else if i == n + |items| then PjlLine(Uel()) else es[i].item
      ensures n <= i < n + |items| ==> !es[i].item.PjlLine?
    {
      if i < n {
        LineEventAt(glued, i);
      } else if i < n + |items| {
        RecordEventAt(items, pos, i - n);
      }
    }
    assert Uel()[0] == 0x1B && (Uel() + lines[0])[0] == 0x1B;
    if line in lines {
      var i :| 0 <= i < n && lines[i] == line;
      assert es[i].item == PjlLine(glued[i]);
    }
    if es[0].item == PjlLine(Uel() + line) {
      SameTail(Uel(), line, lines[0]);
    }
  }

  lemma KeyStarts(text: string, v: seq<Byte>)
    requires text != "" && text[0] == '@'
    ensures Ascii(text) + v != [] && (Ascii(text) + v)[0] != 0x1B
  {
  }

  lemma SettingIsLine(job: Job, pages: seq<PageRows>, text: string, v: seq<Byte>)
    requires ValidJob(job) && ValidPages(pages) && text != "" && text[0] == '@'
    ensures job.paperType.Some?
    ensures Reports(JobEvents(job, pages), Ascii(text) + v) <==> Ascii(text) + v in JobLines(job)
  {
    hide *;
    HasPaperType(job);
    JobEventsInParts(job, pages);
    KeyStarts(text, v);
    ReportsLines(JobLines(job), JobItems(job, pages), |JobHead(job)|,
                 Event(|JobBytes(job, pages)| - |Uel()|, PjlLine(Uel())), Ascii(text) + v);
  }

  /** The settings of a walked job can be read off what the walker reports, each under its own name. */
  lemma SettingsArrive(job: Job, pages: seq<PageRows>, v: seq<Byte>)
    requires ValidJob(job) && ValidPages(pages) && !ProducerEnters(job) && !PaperTypeEnters(job)
    ensures SaysSettings(job, Walked(JobBytes(job, pages)).events, v)
  {
    hide ProducerEnters, PaperTypeEnters, JobEvents, JobBytes, JobLines, Walked, Reports, Ascii, ValidJob, ValidPages;
    JobIsWalked(job, pages);
    FreeTextLines(job, v);
    FixedTextLines(job, v);
    SettingIsLine(job, pages, "@PJL DEFAULT SERVICEDATE=", v);
    SettingIsLine(job, pages, "@PJL COMMENT Producer : ", v);
    SettingIsLine(job, pages, "@PJL SET XIGNOREFF=", v);
    SettingIsLine(job, pages, "@PJL SET RESOLUTION = ", v);
    SettingIsLine(job, pages, "@PJL SET BITSPERPIXEL = ", v);
    SettingIsLine(job, pages, "@PJL SET PAPERTYPE = ", v);
    SettingIsLine(job, pages, "@PJL SET DUPLEX = ", v);
    SettingIsLine(job, pages, "@PJL SET BINDING = ", v);
  }

  // ---- the order of the lines, and the two ends of the job

  /** The place of a line among the settings; the empty line follows the one about blank pages. */
  function Place(line: seq<Byte>): nat {
    match Mark(line)
    case 0x55_5453 => 0
    case 0x45_544D => 1
    case 0x45_5450 => 2
    case 0x58_474F => 3
    case 0 => 4
    case 0x52_534C => 5
    case 0x42_5450 => 6
    case 0x50_5052 => 7
    case 0x44_5045 => 8
    case 0x42_4E49 => 9
    case _ => 10
  }

  /** The lines are in the order of their places, none twice, and all of places below `end`. */
  ghost predicate InPlace(lines: seq<seq<Byte>>, end: nat) {
    && (forall i, j :: 0 <= i < j < |lines| ==> Place(lines[i]) < Place(lines[j]))
    && forall i :: 0 <= i < |lines| ==> Place(lines[i]) < end
  }

  lemma OneMoreLine(lines: seq<seq<Byte>>, place: nat, has: bool, line: seq<Byte>) returns (next: seq<seq<Byte>>)
    requires InPlace(lines, place) && (has ==> Place(line) == place)
    ensures next == lines + (if has then [line] else []) && InPlace(next, place + 1)
  {
    hide Place;
    next := if has then lines + [line] else lines;
  }

  lemma Places(job: Job)
    requires ValidJob(job)
    ensures job.serviceDate.Some? ==> Place(ServiceDateLine(job.serviceDate.value)) == 0
    ensures Place(ModelLine()) == 1
    ensures job.producer.Some? ==> Place(ProducerLine(job.producer.value)) == 2
    ensures Place(SkipBlankLine(job.skipBlankPages)) == 3 && Place([]) == 4 && Place(ResolutionLine(job.dpi)) == 5
    ensures Place(BitsPerPixelLine()) == 6 && Place(PaperTypeLine(job.paperType.value)) == 7
    ensures Place(DuplexLine(job.duplex)) == 8 && Place(BindingLine(job.duplex)) == 9 && Place(EnterLine()) == 10
  {
    BitsPerPixel();
    hide Mark, Ascii, ModelLine, EnterLine, BitsPerPixelLine, PlainText;
    CommentMarks(if job.serviceDate.Some? then job.serviceDate.value else []);
    CommentMarks(if job.producer.Some? then job.producer.value else []);
    SettingMarks(Ascii(if job.skipBlankPages then "ON" else "OFF"));
    SettingMarks(Ascii(if job.dpi == 600 then "600" else "1200"));
    SettingMarks(Ascii("1"));
    SettingMarks(job.paperType.value);
    SidesMarks(Ascii(if job.duplex == DUPLEX_OFF then "OFF" else "MANUAL"));
    SidesMarks(Ascii(if job.duplex == DUPLEX_LONG_EDGE then "LONGEDGE" else "SHORTEDGE"));
  }

  lemma StartIsInPlace(job: Job)
    requires ValidJob(job)
    ensures InPlace(StartLines(job), 2)
  {
    Places(job);
    hide Place, ServiceDateLine, ModelLine, ValidJob;
    if job.serviceDate.Some? {
      assert StartLines(job) == [ServiceDateLine(job.serviceDate.value), ModelLine()];
    } else {
      assert StartLines(job) == [ModelLine()];
    }
  }

  lemma ProducerIsInPlace(job: Job)
    requires ValidJob(job)
    ensures InPlace(ToProducer(job), 3)
  {
    StartIsInPlace(job);
    Places(job);
    hide Place, InPlace, StartLines, ProducerLine, ValidJob;
    var lines := OneMoreLine(StartLines(job), 2, job.producer.Some?, ProducerLine(Held(job.producer)));
  }

  lemma SettingsAreInPlace(job: Job)
    requires ValidJob(job)
    ensures InPlace(ToProducer(job) + SettingLines(job), 7)
  {
    ProducerIsInPlace(job);
    Places(job);
    hide Place, InPlace, SkipBlankLine, ResolutionLine, BitsPerPixelLine, ValidJob, ToProducer;
    var lines := OneMoreLine(ToProducer(job), 3, true, SkipBlankLine(job.skipBlankPages));
    lines := OneMoreLine(lines, 4, true, []);
    lines := OneMoreLine(lines, 5, true, ResolutionLine(job.dpi));
    lines := OneMoreLine(lines, 6, job.dpi == 600, BitsPerPixelLine());
    assert lines == ToProducer(job) + SettingLines(job);
  }

  /** The lines come in one order: date, model, producer, blank pages, resolution, paper, sides, language. */
  lemma LinesAreInPlace(job: Job)
    requires ValidJob(job)
    ensures InPlace(JobLines(job), 11)
  {
    SettingsAreInPlace(job);
    Places(job);
    assert job.paperType.Some?;
    hide Place, InPlace, PaperTypeLine, DuplexLine, BindingLine, EnterLine, ValidJob, ToProducer, SettingLines;
    var lines := OneMoreLine(ToProducer(job) + SettingLines(job), 7, true, PaperTypeLine(job.paperType.value));
    lines := OneMoreLine(lines, 8, true, DuplexLine(job.duplex));
    lines := OneMoreLine(lines, 9, job.duplex != 0, BindingLine(job.duplex));
    assert lines == ToPaperType(job) + SidesLines(job);
    lines := OneMoreLine(lines, 10, true, EnterLine());
  }

  /** A job starts with the UEL and ends with the end-of-job record and the UEL. */
  lemma JobIsFramed(job: Job, pages: seq<PageRows>)
    requires ValidJob(job) && ValidPages(pages)
    ensures var data, uel := JobBytes(job, pages), [0x1B] + Ascii("%-12345X");
            uel <= data && |data| >= 19 && data[|data| - 10..] == [0x09] + uel
  {
    UelBytes();
    hide *;
    HasPaperType(job);
    JobEnds(job, pages);
    FrameEnds(Uel(), JoinLines(JobLines(job)) + WrittenAll(PagesItems(job, pages)), 0x09);
  }

  lemma UelBytes()
    ensures Uel() == [0x1B] + Ascii("%-12345X")
  {
  }

  lemma FrameEnds(uel: seq<Byte>, middle: seq<Byte>, last: Byte)
    ensures var data := uel + middle + ([last] + uel);
            uel <= data && data[|data| - |uel| - 1..] == [last] + uel
  {
    var data := uel + middle + ([last] + uel);
    assert data[..|uel|] == uel;
  }

  lemma JobEnds(job: Job, pages: seq<PageRows>)
    requires ValidJob(job) && ValidPages(pages)
    ensures job.paperType.Some? && AllRecords(PagesItems(job, pages))
    ensures JobBytes(job, pages)
            == Uel() + (JoinLines(JobLines(job)) + WrittenAll(PagesItems(job, pages))) + ([0x09] + Uel())
  {
    HasPaperType(job);
    hide Uel, JobLines, PagesItems, ValidJob, JoinLines, WrittenAll;
    PagesItemsAreRecords(job, pages);
    OneMoreRecord(PagesItems(job, pages));
    var a, b, c := JoinLines(JobLines(job)), WrittenAll(PagesItems(job, pages)), [0x09];
    FourParts(Uel(), a, b, c);
  }

  lemma FourParts<T>(u: seq<T>, a: seq<T>, b: seq<T>, c: seq<T>)
    ensures u + a + (b + c) + u == u + (a + b) + (c + u)
  {
  }

  lemma OneMoreRecord(items: seq<Item>)
    requires AllRecords(items)
    ensures AllRecords(items + [EndJob]) && WrittenAll(items + [EndJob]) == WrittenAll(items) + [0x09]
  {
    hide WritePageHeader, WriteBandHeader, WriteEndPage;
    assert (items + [EndJob])[..|items|] == items;
  }
}
