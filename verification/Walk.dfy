/** The walker over a complete job: PJL lines, then records, then the trailer. */
module Walk {
  import opened Arith
  import opened Bytes
  import opened Records

  const MAX_PJL_LINE := 4096
  const LF: Byte := 0x0A
  const CR: Byte := 0x0D

  /** One callback of the visitor, with everything the callback is given. */
  datatype Item =
    | PjlLine(text: seq<Byte>)
    | Page(header: PageHeader)
    | Band(band: BandHeader, payload: seq<Byte>)
    | EndPage(copies: U16)
    | EndJob

  datatype Event = Event(offset: nat, item: Item)

  /** The result code, the error offset if there is one, and the callbacks in order. */
  datatype Outcome = Outcome(status: Status, errorAt: Option<nat>, events: seq<Event>) {
    function After(earlier: seq<Event>): Outcome {
      this.(events := earlier + events)
    }
  }

  function Uel(): (s: seq<Byte>)
    ensures |s| == 9
  {
    [0x1B, 0x25, 0x2D, 0x31, 0x32, 0x33, 0x34, 0x35, 0x58]
  }

  function EnterLanguage(): seq<Byte> {
    Ascii("ENTER LANGUAGE")
  }

  predicate At<T(==)>(data: seq<T>, pos: nat, s: seq<T>) {
    pos + |s| <= |data| && data[pos..pos + |s|] == s
  }

  predicate Contains(s: seq<Byte>, pattern: seq<Byte>) {
    exists i :: 0 <= i <= |s| - |pattern| && At(s, i, pattern)
  }

  predicate IsText(c: Byte) {
    c == CR || c == LF || c == 0x09 || c == 0x1B || 0x20 <= c < 0x7F
  }

  predicate IsEnterLine(text: seq<Byte>) {
    |text| >= 19 && Contains(text, EnterLanguage())
  }

  // ---- text lines

  /** Where the line that starts at `pos` stops, scanning from `nl`; None if a binary byte comes first. */
  function LineStop(data: seq<Byte>, pos: nat, nl: nat): (r: Option<nat>)
    requires pos <= nl <= |data|
    ensures r.Some? ==> nl <= r.value <= |data|
    decreases |data| - nl
  {
    if nl < |data| && data[nl] != LF && nl - pos < MAX_PJL_LINE then
      if IsText(data[nl]) then LineStop(data, pos, nl + 1) else None
    else Some(nl)
  }

  /** A line without the one CR that may end it. */
  function StripCr(line: seq<Byte>): seq<Byte> {
    if line != [] && line[|line| - 1] == CR then line[..|line| - 1] else line
  }

  function LineText(data: seq<Byte>, pos: nat, nl: nat): seq<Byte>
    requires pos <= nl <= |data|
  {
    StripCr(data[pos..nl])
  }

  function PastLine(data: seq<Byte>, nl: nat): (next: nat)
    requires nl <= |data|
    ensures nl <= next <= |data|
  {
    if nl < |data| then nl + 1 else |data|
  }

  datatype TextRun = TextRun(pos: nat, events: seq<Event>, entered: bool) {
    function After(earlier: seq<Event>): TextRun {
      this.(events := earlier + events)
    }
  }

  /** The lines from `pos` on, up to the first that enters the page language if `stop` is set. */
  function Lines(data: seq<Byte>, pos: nat, stop: bool): (r: TextRun)
    requires pos <= |data|
    ensures pos <= r.pos <= |data|
    decreases |data| - pos
  {
    if pos == |data| || !IsText(data[pos]) then TextRun(pos, [], false)
    else
      match LineStop(data, pos, pos)
      case None => TextRun(pos, [], false)
      case Some(nl) =>
        var text, next := LineText(data, pos, nl), PastLine(data, nl);
        NewLineGrows(data, pos);
        var line := Event(pos, PjlLine(text));
        if stop && IsEnterLine(text) then TextRun(next, [line], true)
        else
          Lines(data, next, stop).After([line])
  }

  lemma NewLineGrows(data: seq<Byte>, pos: nat)
    requires pos < |data| && LineStop(data, pos, pos).Some?
    ensures PastLine(data, LineStop(data, pos, pos).value) > pos
  {
  }

  // ---- records

  /** The records that can be written; a band carries exactly the payload its header declares. */
  predicate IsRecord(item: Item) {
    match item
    case PjlLine(_) => false
    case Band(band, payload) => |payload| == band.length
    case _ => true
  }

  function Written(item: Item): (s: seq<Byte>)
    requires IsRecord(item)
    ensures |s| > 0
  {
    match item
    case Page(header) => WritePageHeader(header)
    case Band(band, payload) => WriteBandHeader(band) + payload
    case EndPage(copies) => WriteEndPage(copies)
    case EndJob => [REC_END_JOB]
  }

  function NextRecord(data: seq<Byte>, pos: nat): (r: Parsed<Item>)
    requires pos < |data|
    ensures r.Record? ==> IsRecord(r.record) && pos + |Written(r.record)| <= |data|
  {
    var t := data[pos];
    if t == REC_PAGE then
      match ParsePageHeader(data[pos..])
      case Record(h) => Record(Page(h))
      case Refused(s) => Refused(s)
    else if t == REC_BAND then
      match ParseBandHeader(data[pos..])
      case Record(h) =>
        var start := pos + BAND_HEADER_LEN;
        if |data| - start < h.length then Refused(ETruncated)
        else Record(Band(h, data[start..start + h.length]))
      case Refused(s) => Refused(s)
    else if t == REC_END_PAGE then
      if |data| - pos < END_PAGE_LEN then Refused(ETruncated) else Record(EndPage(Get16(data, pos + 1, false)))
    else if t == REC_END_JOB then Record(EndJob)
    else Refused(ERecord)
  }

  /** After the end of the job: nothing, or a UEL and text to the end. */
  function Trailer(data: seq<Byte>, pos: nat): Outcome
    requires pos <= |data|
  {
    var r := if At(data, pos, Uel()) then Lines(data, pos, false) else TextRun(pos, [], false);
    if r.pos == |data| then Outcome(Ok, None, r.events) else Outcome(ERecord, Some(r.pos), r.events)
  }

  function RecordsFrom(data: seq<Byte>, pos: nat): Outcome
    requires pos <= |data|
    decreases |data| - pos
  {
    if pos == |data| then Outcome(Ok, None, [])
    else
      match NextRecord(data, pos)
      case Refused(status) => Outcome(status, Some(pos), [])
      case Record(item) =>
        var next := pos + |Written(item)|;
        var rest := if item.EndJob? then Trailer(data, next) else RecordsFrom(data, next);
        rest.After([Event(pos, item)])
  }

  function Walked(data: seq<Byte>): Outcome {
    var head := Lines(data, 0, true);
    if head.entered then RecordsFrom(data, head.pos).After(head.events)
    else Outcome(ENoPjl, Some(head.pos), head.events)
  }

  // ---- the walker itself

  method EmitLines(data: seq<Byte>, pos0: nat, stop: bool) returns (pos: nat, events: seq<Event>, entered: bool)
    requires pos0 <= |data|
    ensures TextRun(pos, events, entered) == Lines(data, pos0, stop)
  {
    hide Lines, LineStop, IsEnterLine, IsText, StripCr;
    pos, events, entered := pos0, [], false;
    while pos < |data| && IsText(data[pos])
      invariant pos <= |data| && !entered
      invariant Lines(data, pos0, stop) == Lines(data, pos, stop).After(events)
      decreases |data| - pos
    {
      var nl := ScanLine(data, pos);
      if nl.None? {
        LastLine(data, pos, stop);
        return;
      }
      var end := TextEnd(data, pos, nl.value);
      LineStep(data, pos, stop, nl.value, events);
      var line := data[pos..end];
      events := events + [Event(pos, PjlLine(line))];
      pos := if nl.value < |data| then nl.value + 1 else |data|;
      if stop && IsEnterLine(line) {
        entered := true;
        return;
      }
    }
    LastLine(data, pos, stop);
  }

  lemma LineStep(data: seq<Byte>, pos: nat, stop: bool, nl: nat, before: seq<Event>)
    requires pos < |data| && IsText(data[pos]) && LineStop(data, pos, pos) == Some(nl)
    ensures var text, next := LineText(data, pos, nl), PastLine(data, nl);
            var events := before + [Event(pos, PjlLine(text))];
            && next > pos
            && Lines(data, pos, stop).After(before)
               == if stop && IsEnterLine(text) then TextRun(next, events, true)
                  else Lines(data, next, stop).After(events)
  {
    hide LineStop, IsEnterLine, LineText;
    NewLineGrows(data, pos);
    var text, next := LineText(data, pos, nl), PastLine(data, nl);
    if !(stop && IsEnterLine(text)) {
      Assoc(before, [Event(pos, PjlLine(text))], Lines(data, next, stop).events);
    }
  }

  lemma LastLine(data: seq<Byte>, pos: nat, stop: bool)
    requires pos <= |data| && (pos == |data| || !IsText(data[pos]) || LineStop(data, pos, pos).None?)
    ensures forall before :: Lines(data, pos, stop).After(before) == TextRun(pos, before, false)
  {
    hide LineStop;
    forall before: seq<Event>
      ensures Lines(data, pos, stop).After(before) == TextRun(pos, before, false)
    {
      assert before + [] == before;
    }
  }

  method TextEnd(data: seq<Byte>, pos: nat, nl: nat) returns (end: nat)
    requires pos <= nl <= |data|
    ensures pos <= end <= nl && data[pos..end] == LineText(data, pos, nl)
  {
    end := nl;
    if end > pos && data[end - 1] == CR {
      end := end - 1;
    }
  }

  method ScanLine(data: seq<Byte>, pos: nat) returns (r: Option<nat>)
    requires pos <= |data|
    ensures r == LineStop(data, pos, pos)
  {
    var nl := pos;
    while nl < |data| && data[nl] != LF && nl - pos < MAX_PJL_LINE
      invariant pos <= nl <= |data| && LineStop(data, pos, pos) == LineStop(data, pos, nl)
    {
      if !IsText(data[nl]) {
        return None;
      }
      nl := nl + 1;
    }
    r := Some(nl);
  }

  method Walk(data: seq<Byte>) returns (status: Status, errorAt: Option<nat>, events: seq<Event>)
    ensures Outcome(status, errorAt, events) == Walked(data)
  {
    hide Lines, Uel, RecordsFrom, WritePageHeader, WriteBandHeader, WriteEndPage, ParsePageHeader, ParseBandHeader;
    var pos, entered;
    pos, events, entered := EmitLines(data, 0, true);
    if !entered {
      return ENoPjl, Some(pos), events;
    }
    while pos < |data|
      invariant pos <= |data|
      invariant Walked(data) == RecordsFrom(data, pos).After(events)
      decreases |data| - pos
    {
      var t := data[pos];
      NoRecord(data, pos, events);
      if t == REC_PAGE {
        var h := ParsePageHeader(data[pos..]);
        if h.Refused? {
          return h.status, Some(pos), events;
        }
        OneRecord(data, pos, Page(h.record), events);
        events := events + [Event(pos, Page(h.record))];
        pos := pos + PAGE_HEADER_LEN;
      } else if t == REC_BAND {
        var h := ParseBandHeader(data[pos..]);
        if h.Refused? {
          return h.status, Some(pos), events;
        }
        var start := pos + BAND_HEADER_LEN;
        if |data| - start < h.record.length {
          return ETruncated, Some(pos), events;
        }
        var payload := data[start..start + h.record.length];
        OneRecord(data, pos, Band(h.record, payload), events);
        events := events + [Event(pos, Band(h.record, payload))];
        pos := start + h.record.length;
      } else if t == REC_END_PAGE {
        if |data| - pos < END_PAGE_LEN {
          return ETruncated, Some(pos), events;
        }
        var copies := Get16(data, pos + 1, false);
        OneRecord(data, pos, EndPage(copies), events);
        events := events + [Event(pos, EndPage(copies))];
        pos := pos + END_PAGE_LEN;
      } else if t == REC_END_JOB {
        OneRecord(data, pos, EndJob, events);
        events := events + [Event(pos, EndJob)];
        pos := pos + 1;
        status, errorAt, events := WalkTrailer(data, pos, events);
        return;
      } else {
        return ERecord, Some(pos), events;
      }
    }
    EndOfData(data, events);
    return Ok, None, events;
  }

  method WalkTrailer(data: seq<Byte>, pos0: nat, events0: seq<Event>)
    returns (status: Status, errorAt: Option<nat>, events: seq<Event>)
    requires pos0 <= |data|
    ensures Outcome(status, errorAt, events) == Trailer(data, pos0).After(events0)
  {
    hide Lines, Uel;
    var pos, lines, ignored := pos0, [], false;
    if |data| - pos >= 9 && data[pos..pos + 9] == Uel() {
      pos, lines, ignored := EmitLines(data, pos, false);
    }
    events := events0 + lines;
    if pos != |data| {
      return ERecord, Some(pos), events;
    }
    return Ok, None, events;
  }

  lemma OneRecord(data: seq<Byte>, pos: nat, item: Item, before: seq<Event>)
    requires pos < |data| && NextRecord(data, pos) == Record(item)
    ensures var next, events := pos + |Written(item)|, before + [Event(pos, item)];
            RecordsFrom(data, pos).After(before)
            == (if item.EndJob? then Trailer(data, next) else RecordsFrom(data, next)).After(events)
  {
    hide NextRecord, Written, Trailer;
    var next := pos + |Written(item)|;
    var rest := if item.EndJob? then Trailer(data, next) else RecordsFrom(data, next);
    Assoc(before, [Event(pos, item)], rest.events);
  }

  lemma NoRecord(data: seq<Byte>, pos: nat, before: seq<Event>)
    requires pos < |data|
    ensures var r := NextRecord(data, pos);
            r.Refused? ==> RecordsFrom(data, pos).After(before) == Outcome(r.status, Some(pos), before)
  {
    hide NextRecord;
    assert before + [] == before;
  }

  lemma EndOfData(data: seq<Byte>, before: seq<Event>)
    ensures RecordsFrom(data, |data|).After(before) == Outcome(Ok, None, before)
  {
    assert before + [] == before;
  }
}
