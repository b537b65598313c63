/** From rows to bytes and back: what the walker reports of a job, and what the printer draws from it. */
module JobRoundTrip {
  import opened Arith
  import opened Bytes
  import opened Bits
  import opened Codec11Format
  import opened Codec11Decode
  import opened Codec11Encode
  import opened Codec11EncodeTheory
  import opened Codec11TableSpec
  import opened Band
  import opened Records
  import opened Raster
  import opened Walk
  import opened WalkTheory
  import opened Job
  import opened JobText

  // ---- the walk over a whole job

  /** The callbacks for records sent one after another. */
  function EventsAt(items: seq<Item>, pos: nat): (es: seq<Event>)
    requires AllRecords(items)
    ensures |es| == |items|
  {
    if items == [] then [] else [Event(pos, items[0])] + EventsAt(items[1..], pos + |Written(items[0])|)
  }

  lemma WrittenFirst(items: seq<Item>)
    requires items != [] && AllRecords(items)
    ensures AllRecords(items[1..]) && WrittenAll(items) == Written(items[0]) + WrittenAll(items[1..])
  {
    hide Written, IsRecord;
    var first: seq<Item> := items[..1];
    assert items == first + items[1..] && first[..0] == [];
    WrittenAppend(first, items[1..]);
    assert WrittenAll(first) == [] + Written(items[0]);
  }

  lemma {:induction false} ItemsChain(data: seq<Byte>, pos: nat, items: seq<Item>)
    requires AllRecords(items) && At(data, pos, WrittenAll(items))
    requires forall i :: 0 <= i < |items| - 1 ==> !items[i].EndJob?
    ensures Chain(data, pos, EventsAt(items, pos), pos + |WrittenAll(items)|)
    ensures Finished(EventsAt(items, pos)) <==> items != [] && items[|items| - 1].EndJob?
    decreases |items|
  {
    hide Written, IsRecord, WrittenAll;
    if items == [] {
      NothingWritten();
    } else {
      var first, rest := items[0], items[1..];
      WrittenFirst(items);
      AtAppend(data, pos, Written(first), WrittenAll(rest));
      ItemsChain(data, pos + |Written(first)|, rest);
      assert EventsAt(items, pos)[1..] == EventsAt(rest, pos + |Written(first)|);
      if |items| > 1 {
        assert EventsAt(items, pos)[|items| - 1] == EventsAt(rest, pos + |Written(first)|)[|rest| - 1];
      }
    }
  }

  lemma NothingWritten()
    ensures WrittenAll([]) == []
  {
  }

  lemma UelIsTrailer(data: seq<Byte>, pos: nat)
    requires At(data, pos, Uel()) && |data| == pos + |Uel()|
    ensures Trailer(data, pos) == Outcome(Ok, None, [Event(pos, PjlLine(Uel()))])
  {
    var line := Uel();
    assert IsTextOnly(line) && StripCr(line) == line;
    hide Uel, Lines, StripCr, IsText, IsTextOnly;
    LineExact(data, pos, line, |data|);
    LineStartsWithText(data, pos);
    LineStep(data, pos, false, |data|, []);
    assert Lines(data, pos, false).After([]) == Lines(data, pos, false);
    LastLine(data, |data|, false);
    var events := [] + [Event(pos, PjlLine(line))];
    assert Lines(data, |data|, false).After(events) == TextRun(|data|, events, false);
  }

  /** Everything the walker reports of a job whose free text leaves the envelope whole. */
  function JobEvents(job: Job, pages: seq<PageRows>): seq<Event>
    requires ValidJob(job) && ValidPages(pages)
  {
    LineEvents(Glued(JobLines(job))) + EventsAt(JobItems(job, pages), |JobHead(job)|)
    + [Event(|JobBytes(job, pages)| - |Uel()|, PjlLine(Uel()))]
  }

  /**
   * The walk of an encoded job. It comes to the end and reports every line and record, unless the
   * producer or the paper type holds the phrase that ends the envelope: then it stops at the PJL
   * line that follows, which is no record.
   */
  lemma JobIsWalked(job: Job, pages: seq<PageRows>)
    requires ValidJob(job) && ValidPages(pages)
    ensures Walked(JobBytes(job, pages)) ==
            if ProducerEnters(job) || PaperTypeEnters(job)
            then Outcome(ERecord, Some(|Uel() + JoinLines(LinesRead(job))|), LineEvents(Glued(LinesRead(job))))
            else Outcome(Ok, None, JobEvents(job, pages))
  {
    hide ProducerEnters, PaperTypeEnters, LinesRead, Uel, Lines, RecordsFrom, JobEvents, JobBytes, JobHead, JobItems;
    if ProducerEnters(job) || PaperTypeEnters(job) {
      var rest := WrittenAll(JobItems(job, pages)) + Uel();
      JobInParts(job, pages);
      HeadIsRead(job, rest);
      StopsInEnvelope(job, rest);
    } else {
      WholeJobIsWalked(job, pages);
    }
  }

  lemma JobInParts(job: Job, pages: seq<PageRows>)
    requires ValidJob(job) && ValidPages(pages)
    ensures JobBytes(job, pages) == JobHead(job) + (WrittenAll(JobItems(job, pages)) + Uel())
  {
    hide JobHead, JobItems, WrittenAll, Uel;
  }

  lemma WholeJobIsWalked(job: Job, pages: seq<PageRows>)
    requires ValidJob(job) && ValidPages(pages) && !ProducerEnters(job) && !PaperTypeEnters(job)
    ensures Walked(JobBytes(job, pages)) == Outcome(Ok, None, JobEvents(job, pages))
  {
    hide *;
    HasPaperType(job);
    var head, items, lines := JobHead(job), JobItems(job, pages), LineEvents(Glued(JobLines(job)));
    var sent := WrittenAll(items);
    var data, end := head + (sent + Uel()), |head| + |sent|;
    JobInParts(job, pages);
    HeadIsRead(job, sent + Uel());
    WholeEnvelope(job);
    OneEndOfJob(job, pages);
    InTheMiddle(head, sent, Uel());
    RecordsAreWalked(data, |head|, items, end);
    var tail := [Event(end, PjlLine(Uel()))];
    WalkedFrom(data, TextRun(|head|, lines, true), Outcome(Ok, None, EventsAt(items, |head|) + tail));
    AfterEvents(lines, EventsAt(items, |head|) + tail);
    Assoc(lines, EventsAt(items, |head|), tail);
    JobEventsInParts(job, pages);
  }

  lemma HasPaperType(job: Job)
    requires ValidJob(job)
    ensures job.paperType.Some?
  {
  }

  lemma WalkedFrom(data: seq<Byte>, run: TextRun, o: Outcome)
    requires run.pos <= |data| && Lines(data, 0, true) == run && run.entered && RecordsFrom(data, run.pos) == o
    ensures Walked(data) == o.After(run.events)
  {
  }

  lemma JobEventsInParts(job: Job, pages: seq<PageRows>)
    requires ValidJob(job) && ValidPages(pages)
    ensures |JobBytes(job, pages)| >= |Uel()|
    ensures JobEvents(job, pages) ==
            LineEvents(Glued(JobLines(job))) + EventsAt(JobItems(job, pages), |JobHead(job)|)
            + [Event(|JobBytes(job, pages)| - |Uel()|, PjlLine(Uel()))]
  {
    hide LineEvents, Glued, JobLines, EventsAt, JobItems, JobHead, Uel;
  }

  lemma WholeEnvelope(job: Job)
    requires ValidJob(job) && !ProducerEnters(job) && !PaperTypeEnters(job)
    ensures LinesRead(job) == JobLines(job) && JobHead(job) == Uel() + JoinLines(JobLines(job))
  {
  }

  lemma StopsInEnvelope(job: Job, rest: seq<Byte>)
    requires ValidJob(job) && (ProducerEnters(job) || PaperTypeEnters(job))
    ensures var data, pos := JobHead(job) + rest, |Uel() + JoinLines(LinesRead(job))|;
            pos <= |data| && RecordsFrom(data, pos) == Outcome(ERecord, Some(pos), [])
  {
    hide ProducerEnters, PaperTypeEnters, LinesRead, JobLines, JoinLines, Uel;
    LinesReadArePrefix(job);
    var data, n := JobHead(job) + rest, |JoinLines(LinesRead(job))|;
    var pos := |Uel()| + n;
    assert data[pos] == JoinLines(JobLines(job))[n] == 0x40;
    assert NextRecord(data, pos) == Refused(ERecord);
  }

  lemma OneEndOfJob(job: Job, pages: seq<PageRows>)
    requires ValidJob(job) && ValidPages(pages)
    ensures var items := JobItems(job, pages);
            items != [] && items[|items| - 1] == EndJob && forall i :: 0 <= i < |items| - 1 ==> !items[i].EndJob?
  {
    PagesItemsAreRecords(job, pages);
    hide PagesItems;
    var items := PagesItems(job, pages);
    assert forall i :: 0 <= i < |items| ==> items[i] in items;
  }

  lemma InTheMiddle<T>(head: seq<T>, middle: seq<T>, tail: seq<T>)
    ensures var data := head + (middle + tail);
            At(data, |head|, middle) && At(data, |head| + |middle|, tail) && |data| == |head| + |middle| + |tail|
  {
    assert head + (middle + tail) == head + middle + tail;
  }

  /** Records that end with the end of the job, then the UEL: all of them are reported. */
  lemma RecordsAreWalked(data: seq<Byte>, pos: nat, items: seq<Item>, end: nat)
    requires AllRecords(items) && At(data, pos, WrittenAll(items)) && end == pos + |WrittenAll(items)|
    requires At(data, end, Uel()) && |data| == end + |Uel()|
    requires items != [] && items[|items| - 1] == EndJob
    requires forall i :: 0 <= i < |items| - 1 ==> !items[i].EndJob?
    ensures RecordsFrom(data, pos) == Outcome(Ok, None, EventsAt(items, pos) + [Event(end, PjlLine(Uel()))])
  {
    hide *;
    ItemsChain(data, pos, items);
    ChainIsWalked(data, pos, EventsAt(items, pos), end);
    UelIsTrailer(data, end);
    assert Continued(data, EventsAt(items, pos), end) == Trailer(data, end) by {
      ContinuedAtEnd(data, EventsAt(items, pos), end);
    }
    AfterEvents(EventsAt(items, pos), [Event(end, PjlLine(Uel()))]);
  }

  lemma ContinuedAtEnd(data: seq<Byte>, es: seq<Event>, end: nat)
    requires end <= |data| && Finished(es)
    ensures Continued(data, es, end) == Trailer(data, end)
  {
  }

  lemma AfterEvents(a: seq<Event>, b: seq<Event>)
    ensures Outcome(Ok, None, b).After(a) == Outcome(Ok, None, a + b)
  {
  }

  // ---- what the printer draws

  /** The records of each page: from a page header on, bands and the end of the page. */
  function Sheets(items: seq<Item>): seq<seq<Item>> {
    if items == [] then []
    else
      var earlier, item := Sheets(items[..|items| - 1]), items[|items| - 1];
      if item.Page? then earlier + [[item]]
      else if (item.Band? || item.EndPage?) && earlier != [] then
        earlier[..|earlier| - 1] + [earlier[|earlier| - 1] + [item]]
      else earlier
  }

  /** The rows of a band as the printer decodes them, into a buffer of the band's size. */
  function DecodedRows(payload: seq<Byte>, bpr: nat): (r: Option<seq<Byte>>)
    ensures r.Some? ==> |r.value| == LINES * bpr
  {
    var d := Decoded(payload, LINES * bpr);
    if d.status == Ok && |d.out| == LINES * bpr then Some(BandToRows(d.out, bpr)) else None
  }

  function BandPart(item: Item, line: nat, c: nat): Byte
    requires item.Band? && line < LINES
  {
    var bpr := item.band.width / 8;
    var rows := DecodedRows(item.payload, bpr);
    if rows.Some? && c < bpr then ByteOf(rows.value, bpr, line, c) else 0
  }

  /** Byte `c` of line `y` of a sheet; lines of bands that were not sent are white. */
  function Drawn(sheet: seq<Item>, y: nat, c: nat): Byte {
    if sheet == [] then 0
    else
      var item := sheet[|sheet| - 1];
      if item.Band? && item.band.number == y / LINES then BandPart(item, y % LINES, c)
      else Drawn(sheet[..|sheet| - 1], y, c)
  }

  predicate DrawnBlack(sheet: seq<Item>, y: nat, x: nat) {
    Bit(Drawn(sheet, y, x / 8), 7 - x % 8)
  }

  /** A band record carries its rows: it decodes, without error, to exactly them. */
  lemma BandRecordDecodes(number: Byte, width: nat, rows: seq<Byte>)
    requires 0 < width <= MAX_WIDTH && |rows| == LINES * BytesPerRow(width)
    ensures var item, bpr := BandRecord(number, width, rows), BytesPerRow(width);
            && item.band == BandHeader(number, 8 * bpr, LINES, COMPRESSION_0X11, |item.payload|)
            && DecodedRows(item.payload, bpr) == Some(rows)
  {
    hide Decoded, Payload, TableFor, RowsToBand, BandToRows;
    RowFits(width);
    var bpr := BytesPerRow(width);
    var band := RowsToBand(rows, bpr);
    TableIsWellFormed(band);
    RoundTrip(band, TableFor(band), |band|);
    BandRoundTrip(rows, bpr);
  }

  lemma BandRecordDraws(number: Byte, width: nat, rows: seq<Byte>, line: nat, c: nat)
    requires 0 < width <= MAX_WIDTH && |rows| == LINES * BytesPerRow(width) && line < LINES
    ensures BandPart(BandRecord(number, width, rows), line, c) ==
            if c < BytesPerRow(width) then ByteOf(rows, BytesPerRow(width), line, c) else 0
  {
    hide DecodedRows, BandRecord, ByteOf, BytesPerRow;
    BandRecordDecodes(number, width, rows);
  }

  lemma DrawnLast(sheet: seq<Item>, item: Item, y: nat, c: nat)
    ensures Drawn(sheet + [item], y, c) ==
            if item.Band? && item.band.number == y / LINES then BandPart(item, y % LINES, c) else Drawn(sheet, y, c)
  {
    hide BandPart;
    assert (sheet + [item])[..|sheet|] == sheet;
  }

  /** After `n` bands the lines of those bands are drawn, and no others. */
  lemma {:induction false} BandsAreDrawn(header: PageHeader, width: nat, rows: seq<seq<Byte>>, n: nat, y: nat, c: nat)
    requires IsRaster(width, rows) && n <= 0x100
    ensures Drawn([Page(header)] + BandItems(width, rows, n), y, c)
            == if y / LINES < n then RowByte(width, rows, y, c) else 0
  {
    hide Drawn, BandRecord, BandRows, BandPart, RowByte;
    var page: seq<Item> := [Page(header)];
    if n == 0 {
      assert page + BandItems(width, rows, 0) == [] + page;
      DrawnLast([], Page(header), y, c);
      NothingDrawn(y, c);
    } else {
      BandsAreDrawn(header, width, rows, n - 1, y, c);
      var s, before := BandRows(width, rows, n - 1), page + BandItems(width, rows, n - 1);
      if y / LINES == n - 1 {
        BandRowIsDrawn(width, rows, n - 1, y, c);
      }
      if Blank(s) {
        assert page + BandItems(width, rows, n) == before;
      } else {
        var record := BandRecord(n - 1, width, s);
        assert page + BandItems(width, rows, n) == before + [record];
        DrawnLast(before, record, y, c);
      }
    }
  }

  lemma NothingDrawn(y: nat, c: nat)
    ensures Drawn([], y, c) == 0
  {
  }

  lemma BandRowIsDrawn(width: nat, rows: seq<seq<Byte>>, k: Byte, y: nat, c: nat)
    requires IsRaster(width, rows) && y / LINES == k
    ensures var s := BandRows(width, rows, k);
            RowByte(width, rows, y, c) == if Blank(s) then 0 else BandPart(BandRecord(k, width, s), y % LINES, c)
  {
    hide BandRecord, BandRows, BandPart, ByteOf, BytesPerRow, Blank;
    var s := BandRows(width, rows, k);
    BandRecordDraws(k, width, s, y % LINES, c);
    if c < BytesPerRow(width) {
      BandRowsAt(width, rows, k, y % LINES, c);
      if Blank(s) {
        BlankByte(s, BytesPerRow(width), y % LINES, c);
      }
    } else {
      RowFits(width);
    }
  }

  /** A page is drawn as it was written: black where a pixel within the width was black, and nowhere else. */
  lemma PageIsDrawn(job: Job, page: PageRows, y: nat, x: nat)
    requires ValidJob(job) && ValidPage(page)
    ensures DrawnBlack(PageItems(job, page), y, x) <==>
              y < |page.rows| && x < page.width && x < 8 * |page.rows[y]| && Pixel(page.rows[y], x)
  {
    NoBits(7 - x % 8);
    hide BandItems, RowByte, HeaderFor, Bit, Pixel, Drawn;
    var n := BandCount(|page.rows|);
    DrawnLast([Page(HeaderFor(job))] + BandItems(page.width, page.rows, n), EndPage(job.copies), y, x / 8);
    BandsAreDrawn(HeaderFor(job), page.width, page.rows, n, y, x / 8);
    RowPixel(page.width, page.rows, y, x);
  }

  // ---- page by page

  lemma SheetStep(items: seq<Item>, item: Item)
    ensures var earlier, all := Sheets(items), Sheets(items + [item]);
            && (item.Page? ==> all == earlier + [[item]])
            && (item.PjlLine? || item.EndJob? ==> all == earlier)
            && ((item.Band? || item.EndPage?) && earlier != [] ==>
                  all == earlier[..|earlier| - 1] + [earlier[|earlier| - 1] + [item]])
  {
    assert (items + [item])[..|items|] == items;
  }

  lemma {:induction false} SheetGrows(items: seq<Item>, header: PageHeader, body: seq<Item>)
    requires forall item <- body :: item.Band? || item.EndPage?
    ensures Sheets(items + [Page(header)] + body) == Sheets(items) + [[Page(header)] + body]
  {
    hide Sheets;
    var page: seq<Item> := [Page(header)];
    if body == [] {
      assert items + page + body == items + page && page + body == page;
      SheetStep(items, Page(header));
    } else {
      var before, last := body[..|body| - 1], body[|body| - 1];
      SheetGrows(items, header, before);
      assert items + page + body == items + page + before + [last] && page + body == page + before + [last];
      SheetStep(items + page + before, last);
      assert last in body;
      var earlier := Sheets(items) + [page + before];
      assert earlier[..|earlier| - 1] == Sheets(items);
    }
  }

  /** Lines and the end of the job belong to no page. */
  lemma {:induction false} NoSheets(items: seq<Item>)
    requires forall item <- items :: item.PjlLine? || item.EndJob?
    ensures Sheets(items) == []
  {
    if items != [] {
      var before, last := items[..|items| - 1], items[|items| - 1];
      assert last in items && forall item <- before :: item in items;
      NoSheets(before);
    }
  }

  function PageSheets(job: Job, pages: seq<PageRows>): seq<seq<Item>>
    requires ValidJob(job) && ValidPages(pages)
  {
    seq(|pages|, i requires 0 <= i < |pages| => PageItems(job, pages[i]))
  }

  lemma {:induction false} SheetsOfPages(lines: seq<Item>, job: Job, pages: seq<PageRows>)
    requires ValidJob(job) && ValidPages(pages) && forall item <- lines :: item.PjlLine?
    ensures Sheets(lines + PagesItems(job, pages)) == PageSheets(job, pages)
  {
    hide Sheets, HeaderFor, BandItems;
    if pages == [] {
      assert lines + PagesItems(job, pages) == lines;
      NoSheets(lines);
    } else {
      var before, page := pages[..|pages| - 1], pages[|pages| - 1];
      assert page in pages;
      SheetsOfPages(lines, job, before);
      var n := BandCount(|page.rows|);
      BandItemsAreRecords(page.width, page.rows, n);
      var header, bands, tail := HeaderFor(job), BandItems(page.width, page.rows, n), [EndPage(job.copies)];
      SheetGrows(lines + PagesItems(job, before), header, bands + tail);
      assert lines + PagesItems(job, pages) == lines + PagesItems(job, before) + [Page(header)] + (bands + tail);
      assert PageItems(job, page) == [Page(header)] + (bands + tail);
      assert PageSheets(job, pages) == PageSheets(job, before) + [PageItems(job, page)];
    }
  }

  function Items(es: seq<Event>): (items: seq<Item>)
    ensures |items| == |es|
  {
    seq(|es|, i requires 0 <= i < |es| => es[i].item)
  }

  lemma ItemsAppend(a: seq<Event>, b: seq<Event>)
    ensures Items(a + b) == Items(a) + Items(b)
  {
  }

  lemma {:induction false} ItemsOfEvents(items: seq<Item>, pos: nat)
    requires AllRecords(items)
    ensures Items(EventsAt(items, pos)) == items
    decreases |items|
  {
    hide Written, IsRecord;
    if items != [] {
      ItemsOfEvents(items[1..], pos + |Written(items[0])|);
      assert Items(EventsAt(items, pos)) == [items[0]] + Items(EventsAt(items[1..], pos + |Written(items[0])|));
    }
  }

  lemma {:induction false} ItemsOfLines(lines: seq<seq<Byte>>)
    ensures forall e <- LineEvents(lines) :: e.item.PjlLine?
  {
    hide JoinLines;
    if lines != [] {
      ItemsOfLines(lines[..|lines| - 1]);
    }
  }

  lemma SheetsOfEvents(lines: seq<seq<Byte>>, job: Job, pages: seq<PageRows>, pos: nat, last: Event)
    requires ValidJob(job) && ValidPages(pages) && last.item.PjlLine?
    ensures Sheets(Items(LineEvents(lines) + EventsAt(JobItems(job, pages), pos) + [last])) == PageSheets(job, pages)
  {
    ItemsOfLines(lines);
    ItemsOfEvents(JobItems(job, pages), pos);
    var a, b := LineEvents(lines), EventsAt(JobItems(job, pages), pos);
    assert Items([last]) == [last.item] && forall item <- Items(a) :: item.PjlLine?;
    hide LineEvents, EventsAt, PagesItems, PageSheets, Items, Sheets;
    ItemsAppend(a, b);
    ItemsAppend(a + b, [last]);
    Assoc(Items(a), PagesItems(job, pages), [EndJob]);
    SheetStep(Items(a) + JobItems(job, pages), last.item);
    SheetStep(Items(a) + PagesItems(job, pages), EndJob);
    SheetsOfPages(Items(a), job, pages);
  }

  /**
   * The law the encoder and the walker exist for. A job walks to its end exactly when neither free
   * text holds the phrase; then the printer gets every page, and each is drawn pixel for pixel as
   * it was written, masked at its width and white below its last row. Otherwise it gets none.
   */
  lemma JobArrives(job: Job, pages: seq<PageRows>)
    requires ValidJob(job) && ValidPages(pages)
    ensures var o := Walked(JobBytes(job, pages));
            var sheets := Sheets(Items(o.events));
            if ProducerEnters(job) || PaperTypeEnters(job) then o.status == ERecord && sheets == []
            else
              && o.status == Ok && o.errorAt == None && |sheets| == |pages|
              && forall i, y: nat, x: nat :: 0 <= i < |pages| ==>
                   var rows := pages[i].rows;
                   DrawnBlack(sheets[i], y, x) <==>
                     y < |rows| && x < pages[i].width && x < 8 * |rows[y]| && Pixel(rows[y], x)
  {
    hide ProducerEnters, PaperTypeEnters, DrawnBlack, Sheets, Uel, JobHead, JobItems, Walked, Pixel;
    JobIsWalked(job, pages);
    if ProducerEnters(job) || PaperTypeEnters(job) {
      ItemsOfLines(Glued(LinesRead(job)));
      NoSheets(Items(LineEvents(Glued(LinesRead(job)))));
    } else {
      SheetsOfEvents(Glued(JobLines(job)), job, pages, |JobHead(job)|,
                     Event(|JobBytes(job, pages)| - |Uel()|, PjlLine(Uel())));
      forall i, y: nat, x: nat | 0 <= i < |pages|
        ensures var rows := pages[i].rows;
                DrawnBlack(PageSheets(job, pages)[i], y, x) <==>
                  y < |rows| && x < pages[i].width && x < 8 * |rows[y]| && Pixel(rows[y], x)
      {
        PageIsDrawn(job, pages[i], y, x);
      }
    }
  }

  /** A4, 600 dpi, auto feeder, paper type OFF, no duplex, one copy, no date and no producer. */
  function DefaultJob(): Job {
    Job(0x02, 595, 842, 600, FEEDER_AUTO, Some(Ascii("OFF")), DUPLEX_OFF, false, 1, None, None)
  }

  /** The phrase is plain text of 14 bytes, so either free text may hold it, and be it. */
  lemma PhraseIsPlainText()
    ensures PlainText(EnterLanguage(), 32) && PlainText(EnterLanguage(), 128)
    ensures Contains(EnterLanguage(), EnterLanguage()) && ValidJob(DefaultJob())
  {
    var e := EnterLanguage();
    assert e[0..|e|] == e;
    assert At(e, 0, e);
  }

  /** Every valid job has two siblings, also valid, of which no page arrives. */
  lemma PhraseStopsJob(job: Job, pages: seq<PageRows>)
    requires ValidJob(job) && ValidPages(pages)
    ensures var a, b := job.(producer := Some(EnterLanguage())), job.(paperType := Some(EnterLanguage()));
            && ValidJob(a) && Walked(JobBytes(a, pages)).status == ERecord
            && ValidJob(b) && Walked(JobBytes(b, pages)).status == ERecord
  {
    PhraseIsPlainText();
    hide EnterLanguage, PlainText, Contains, Walked, JobBytes, Sheets, ValidPages;
    JobArrives(job.(producer := Some(EnterLanguage())), pages);
    JobArrives(job.(paperType := Some(EnterLanguage())), pages);
  }

  ghost predicate NumberedUpwards(items: seq<Item>, n: nat) {
    && (forall item <- items :: item.Band? && item.band.number < n)
    && (forall i, j :: 0 <= i < j < |items| ==> items[i].band.number < items[j].band.number)
  }

  predicate Sent(items: seq<Item>, k: nat) {
    exists item :: item in items && item.Band? && item.band.number == k
  }

  lemma OneMoreBand(items: seq<Item>, n: nat, last: Item, k: nat)
    requires NumberedUpwards(items, n) && last.Band? && last.band.number == n
    ensures NumberedUpwards(items + [last], n + 1)
    ensures Sent(items + [last], k) <==> k == n || Sent(items, k)
  {
    assert last in items + [last];
  }

  lemma NoBandMore(items: seq<Item>, n: nat)
    requires NumberedUpwards(items, n)
    ensures NumberedUpwards(items + [], n + 1) && items + [] == items
    ensures !Sent(items, n)
  {
  }

  lemma NoBands(width: nat, rows: seq<seq<Byte>>, k: nat)
    requires IsRaster(width, rows)
    ensures BandItems(width, rows, 0) == [] && NumberedUpwards([], 0) && !Sent([], k)
  {
    hide BandRows, BandRecord, Blank, IsRaster;
  }

  /** The bands of a page are numbered upwards, each once, and exactly the white ones are missing. */
  lemma {:induction false} BandNumbersIncrease(width: nat, rows: seq<seq<Byte>>, n: nat, k: nat)
    requires IsRaster(width, rows) && n <= 0x100
    ensures NumberedUpwards(BandItems(width, rows, n), n)
    ensures Sent(BandItems(width, rows, n), k) <==> k < n && !Blank(BandRows(width, rows, k))
  {
    hide *;
    if n == 0 {
      NoBands(width, rows, k);
    } else {
      BandNumbersIncrease(width, rows, n - 1, k);
      OneBandMore(width, rows, n - 1);
      RasterWidth(width, rows);
      var before, s := BandItems(width, rows, n - 1), BandRows(width, rows, n - 1);
      if Blank(s) {
        NoBandMore(before, n - 1);
      } else {
        OneMoreBand(before, n - 1, BandRecord(n - 1, width, s), k);
      }
    }
  }
}
