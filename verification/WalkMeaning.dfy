/** What a walk returns on any bytes, said without the scan that finds it. */
module WalkMeaning {
  import opened Arith
  import opened Bytes
  import opened Records
  import opened Walk
  import opened WalkTheory

  /** A line enters the page language if it holds the phrase and at least five bytes more. */
  lemma EnterLineMeaning(text: seq<Byte>)
    ensures IsEnterLine(text) <==> exists a: seq<Byte>, b: seq<Byte> :: IsAround(text, a, b) && |a| + |b| >= 5
  {
    var phrase := EnterLanguage();
    if Contains(text, phrase) {
      var i :| 0 <= i <= |text| - |phrase| && At(text, i, phrase);
      assert text == text[..i] + text[i..i + |phrase|] + text[i + |phrase|..];
      assert IsAround(text, text[..i], text[i + |phrase|..]);
    }
    forall a: seq<Byte>, b: seq<Byte> | IsAround(text, a, b)
      ensures Contains(text, phrase)
    {
      assert text[|a|..|a| + |phrase|] == phrase;
      assert At(text, |a|, phrase);
    }
  }

  predicate IsAround(text: seq<Byte>, a: seq<Byte>, b: seq<Byte>) {
    text == a + Ascii("ENTER LANGUAGE") + b
  }

  // ---- text

  ghost predicate NoLineAt(data: seq<Byte>, pos: nat) {
    forall line, next :: !IsLine(data, pos, line, next)
  }

  ghost predicate LastEnters(es: seq<Event>) {
    es != [] && Enters(es[|es| - 1])
  }

  /** The lines from `pos` to `end`: all that there are, or up to the first that enters if `stop` is set. */
  ghost predicate IsLines(data: seq<Byte>, pos: nat, stop: bool, es: seq<Event>, end: nat) {
    && LineChain(data, pos, es, end)
    && (stop ==> forall i :: 0 <= i < |es| - 1 ==> !Enters(es[i]))
    && ((stop && LastEnters(es)) || NoLineAt(data, end))
  }

  lemma NoLineAtEnd(data: seq<Byte>)
    ensures NoLineAt(data, |data|)
  {
  }

  lemma LinesExist(data: seq<Byte>, pos: nat, stop: bool)
    requires pos <= |data|
    ensures var r := Lines(data, pos, stop); IsLines(data, pos, stop, r.events, r.pos)
  {
    hide IsLine, Lines, Enters, LineChain;
    LinesTile(data, pos, stop);
    NoLineAtEnd(data);
  }

  /** Only one list of lines meets the description, and the scan finds it. */
  lemma {:induction false} LinesMeaning(data: seq<Byte>, pos: nat, stop: bool, es: seq<Event>, end: nat)
    requires pos <= |data| && IsLines(data, pos, stop, es, end)
    ensures Lines(data, pos, stop) == TextRun(end, es, stop && LastEnters(es))
    decreases |es|
  {
    hide IsLine, LineStop, IsText, StripCr, IsEnterLine;
    if es == [] {
      NoLineNoText(data, pos);
    } else {
      var line, next :| && IsLine(data, pos, line, next) && es[0] == Event(pos, PjlLine(StripCr(line)))
                        && LineChain(data, next, es[1..], end);
      LineIsFound(data, pos, line, next);
      assert es == [es[0]] + es[1..];
      if stop && Enters(es[0]) {
        assert |es| == 1;
      } else {
        OtherLines(es, stop);
        LinesMeaning(data, next, stop, es[1..], end);
      }
    }
  }

  lemma OtherLines(es: seq<Event>, stop: bool)
    requires es != [] && (stop ==> !Enters(es[0]) && forall i :: 0 <= i < |es| - 1 ==> !Enters(es[i]))
    ensures stop ==> forall i :: 0 <= i < |es[1..]| - 1 ==> !Enters(es[1..][i])
    ensures stop ==> LastEnters(es[1..]) == LastEnters(es)
  {
    hide Enters;
  }

  lemma NoLineNoText(data: seq<Byte>, pos: nat)
    requires pos <= |data| && NoLineAt(data, pos)
    ensures pos == |data| || LineStop(data, pos, pos).None?
  {
    hide IsLine, LineStop;
    if pos < |data| && LineStop(data, pos, pos).Some? {
      var nl := LineStop(data, pos, pos).value;
      LineExact(data, pos, data[pos..nl], PastLine(data, nl));
    }
  }

  lemma LineIsFound(data: seq<Byte>, pos: nat, line: seq<Byte>, next: nat)
    requires pos <= |data| && IsLine(data, pos, line, next)
    ensures var nl := pos + |line|;
            && pos < |data| && IsText(data[pos]) && nl <= |data| && LineStop(data, pos, pos) == Some(nl)
            && LineText(data, pos, nl) == StripCr(line) && next == PastLine(data, nl) && next > pos
  {
    assert pos < |data|;
    hide IsLine, LineStop, IsText, StripCr;
    LineExact(data, pos, line, next);
    LineStartsWithText(data, pos);
    NewLineGrows(data, pos);
  }

  // ---- records

  ghost predicate NoRecordAt(data: seq<Byte>, pos: nat) {
    forall item :: IsRecord(item) ==> !At(data, pos, Written(item))
  }

  /** The bytes are the beginning of a record, and not all of it. */
  ghost predicate IsCut(rest: seq<Byte>) {
    exists item :: IsRecord(item) && rest < Written(item)
  }

  function Zeros(n: nat): seq<Byte> {
    seq(n, _ => 0)
  }

  lemma CutPage(rest: seq<Byte>)
    requires 0 < |rest| < PAGE_HEADER_LEN && rest[0] == REC_PAGE
    ensures IsCut(rest)
  {
    hide WritePageHeader, Get16;
    var q := rest + Zeros(PAGE_HEADER_LEN - |rest|);
    var h := ParsePageHeader(q).record;
    PageHeaderExact(q, h);
    assert q == Written(Page(h));
    assert rest < Written(Page(h));
  }

  lemma CutBandHeader(rest: seq<Byte>)
    requires 0 < |rest| < BAND_HEADER_LEN && rest[0] == REC_BAND
    ensures IsCut(rest)
  {
    hide WriteBandHeader, Get16, Get32;
    var q := rest + Zeros(BAND_HEADER_LEN - |rest|);
    var h := ParseBandHeader(q).record;
    BandHeaderExact(q, h);
    assert q == WriteBandHeader(h);
    var item := Band(h, Zeros(h.length));
    assert rest < Written(item);
  }

  lemma CutPayload(rest: seq<Byte>, h: BandHeader)
    requires ParseBandHeader(rest) == Record(h) && |rest| < BAND_HEADER_LEN + h.length
    ensures IsCut(rest)
  {
    BandHeaderExact(rest, h);
    hide ParseBandHeader, WriteBandHeader;
    var payload := rest[BAND_HEADER_LEN..] + Zeros(BAND_HEADER_LEN + h.length - |rest|);
    var item := Band(h, payload);
    assert rest == WriteBandHeader(h) + rest[BAND_HEADER_LEN..];
    Assoc(WriteBandHeader(h), rest[BAND_HEADER_LEN..], Zeros(BAND_HEADER_LEN + h.length - |rest|));
    assert rest < Written(item);
  }

  lemma CutEndPage(rest: seq<Byte>)
    requires 0 < |rest| < END_PAGE_LEN && rest[0] == REC_END_PAGE
    ensures IsCut(rest)
  {
    hide Get16, Put16;
    var q := rest + Zeros(END_PAGE_LEN - |rest|);
    PutGet16(q, 1, false);
    assert q == [REC_END_PAGE] + q[1..3];
    assert rest < Written(EndPage(Get16(q, 1, false)));
  }

  lemma CutIsTruncated(data: seq<Byte>, pos: nat, item: Item)
    requires pos < |data| && IsRecord(item) && data[pos..] < Written(item)
    ensures NextRecord(data, pos) == Refused(ETruncated)
  {
    var rest := data[pos..];
    assert rest[0] == Written(item)[0];
    hide Put16, Put32, Get16, Get32;
    match item {
      case Page(_) =>
      case Band(h, payload) =>
        if |rest| >= BAND_HEADER_LEN {
          assert rest[..BAND_HEADER_LEN] == (WriteBandHeader(h) + payload)[..BAND_HEADER_LEN];
          BandHeaderExact(rest, h);
        }
      case EndPage(_) =>
      case EndJob =>
        assert false;
    }
  }

  /** The walker calls a record truncated exactly when the data end inside one; any other failure is a bad record. */
  lemma RefusedExact(data: seq<Byte>, pos: nat)
    requires pos < |data| && NextRecord(data, pos).Refused?
    ensures NextRecord(data, pos).status == if IsCut(data[pos..]) then ETruncated else ERecord
  {
    hide Written, IsRecord, Get16, Get32;
    var rest := data[pos..];
    if NextRecord(data, pos) == Refused(ETruncated) {
      if rest[0] == REC_PAGE {
        CutPage(rest);
      } else if rest[0] == REC_END_PAGE {
        CutEndPage(rest);
      } else if |rest| < BAND_HEADER_LEN {
        CutBandHeader(rest);
      } else {
        CutPayload(rest, ParseBandHeader(rest).record);
      }
    } else if IsCut(rest) {
      var item :| IsRecord(item) && rest < Written(item);
      CutIsTruncated(data, pos, item);
    }
  }

  // ---- the whole walk

  /** The parts of a file: its lines up to `start`, its records up to `end`, the lines behind them up to `stop`. */
  datatype Parts = Parts(head: seq<Event>, start: nat, records: seq<Event>, end: nat, trail: seq<Event>, stop: nat)

  /** After an end of job: a UEL starts lines that run as far as there are any; without it nothing more is read. */
  ghost predicate IsTrail(data: seq<Byte>, pos: nat, es: seq<Event>, stop: nat) {
    if At(data, pos, Uel()) then IsLines(data, pos, false, es, stop) else es == [] && stop == pos
  }

  ghost predicate IsWalk(data: seq<Byte>, o: Outcome, w: Parts) {
    && IsLines(data, 0, true, w.head, w.start)
    && if !LastEnters(w.head) then o == Outcome(ENoPjl, Some(w.start), w.head)
       else Chain(data, w.start, w.records, w.end) && IsRest(data, o, w)
  }

  /** What ends the walk behind the records, and what it returns then. */
  ghost predicate IsRest(data: seq<Byte>, o: Outcome, w: Parts) {
    if Finished(w.records) then
      && IsTrail(data, w.end, w.trail, w.stop) && o.events == w.head + (w.records + w.trail)
      && o.status == (if w.stop == |data| then Ok else ERecord)
      && o.errorAt == (if w.stop == |data| then None else Some(w.stop))
    else
      && o.events == w.head + w.records
      && if w.end == |data| then o.status == Ok && o.errorAt == None
         else
           && w.end < |data| && NoRecordAt(data, w.end) && o.errorAt == Some(w.end)
           && o.status == if IsCut(data[w.end..]) then ETruncated else ERecord
  }

  lemma TrailExists(data: seq<Byte>, pos: nat) returns (es: seq<Event>, stop: nat)
    requires pos <= |data|
    ensures IsTrail(data, pos, es, stop)
  {
    hide IsLines, Lines, Uel;
    LinesExist(data, pos, false);
    es, stop := [], pos;
    if At(data, pos, Uel()) {
      var r := Lines(data, pos, false);
      es, stop := r.events, r.pos;
    }
  }

  lemma TrailMeaning(data: seq<Byte>, pos: nat, es: seq<Event>, stop: nat)
    requires pos <= |data| && IsTrail(data, pos, es, stop)
    ensures Trailer(data, pos) == if stop == |data| then Outcome(Ok, None, es) else Outcome(ERecord, Some(stop), es)
  {
    hide IsLines, Lines, Uel;
    if At(data, pos, Uel()) {
      LinesMeaning(data, pos, false, es, stop);
    }
  }

  lemma NoRecordIsRefused(data: seq<Byte>, pos: nat)
    requires pos < |data|
    ensures NoRecordAt(data, pos) <==> NextRecord(data, pos).Refused?
  {
    hide NextRecord, Written, IsRecord, At;
    if NextRecord(data, pos).Record? {
      RecordExact(data, pos, NextRecord(data, pos).record);
    } else {
      forall item | IsRecord(item)
        ensures !At(data, pos, Written(item))
      {
        RecordExact(data, pos, item);
      }
    }
  }

  lemma WalkExists(data: seq<Byte>) returns (w: Parts)
    ensures IsWalk(data, Walked(data), w)
  {
    hide IsLines, Lines, RecordsFrom, Trailer, Chain, NextRecord, IsTrail, NoRecordAt, IsCut, LastEnters;
    var head := Lines(data, 0, true);
    LinesExist(data, 0, true);
    LinesMeaning(data, 0, true, head.events, head.pos);
    w := Parts(head.events, head.pos, [], head.pos, [], head.pos);
    if head.entered {
      var es, end := RecordsTile(data, head.pos);
      w := w.(records := es, end := end);
      if Finished(es) {
        var trail, stop := TrailExists(data, end);
        TrailMeaning(data, end, trail, stop);
        w := w.(trail := trail, stop := stop);
      } else if end < |data| {
        NoRecordIsRefused(data, end);
        RefusedExact(data, end);
      }
    }
  }

  lemma RestMeaning(data: seq<Byte>, o: Outcome, w: Parts)
    requires w.end <= |data| && IsRest(data, o, w)
    ensures o == Continued(data, w.records, w.end).After(w.records).After(w.head)
  {
    hide IsLines, Lines, Trailer, Chain, NextRecord, IsTrail, NoRecordAt, IsCut, Finished;
    if Finished(w.records) {
      TrailMeaning(data, w.end, w.trail, w.stop);
    } else {
      assert w.records + [] == w.records;
      if w.end < |data| {
        NoRecordIsRefused(data, w.end);
        RefusedExact(data, w.end);
      }
    }
  }

  /** A walk returns what IsWalk describes, on every byte string, and nothing else. */
  lemma WalkedMeaning(data: seq<Byte>, o: Outcome)
    ensures o == Walked(data) <==> exists w :: IsWalk(data, o, w)
  {
    hide IsLines, Lines, RecordsFrom, Chain, Continued, IsRest, LastEnters;
    var w0 := WalkExists(data);
    forall w | IsWalk(data, o, w)
      ensures o == Walked(data)
    {
      LinesMeaning(data, 0, true, w.head, w.start);
      if LastEnters(w.head) {
        ChainIsWalked(data, w.start, w.records, w.end);
        RestMeaning(data, o, w);
      }
    }
  }

  /**
   * A file that is accepted: lines of which only the last enters the page language, then records to the end
   * of the data, or up to an end of job with nothing behind it or lines that start with a UEL.
   */
  ghost predicate IsAccepted(data: seq<Byte>, w: Parts) {
    && LineChain(data, 0, w.head, w.start) && LastEnters(w.head)
    && (forall i :: 0 <= i < |w.head| - 1 ==> !Enters(w.head[i]))
    && Chain(data, w.start, w.records, w.end)
    && (w.end == |data| ||
        (Finished(w.records) && At(data, w.end, Uel()) && LineChain(data, w.end, w.trail, |data|)))
  }

  lemma WalkIsOk(data: seq<Byte>)
    ensures Walked(data).status == Ok <==> exists w :: IsAccepted(data, w)
  {
    hide Lines, RecordsFrom, Trailer, Chain, LineChain, NextRecord, NoRecordAt, IsCut, LastEnters, Uel, Walked;
    var o := Walked(data);
    var w0 := WalkExists(data);
    if o.status == Ok {
      OkIsAccepted(data, o, w0);
    }
    forall w | IsAccepted(data, w)
      ensures o.status == Ok
    {
      AcceptedIsOk(data, w);
    }
  }

  lemma OkIsAccepted(data: seq<Byte>, o: Outcome, w: Parts)
    requires IsWalk(data, o, w) && o.status == Ok
    ensures IsAccepted(data, w)
  {
    hide Chain, LineChain, NoLineAt, NoRecordAt, IsCut, LastEnters, Uel, Enters;
  }

  lemma AcceptedIsOk(data: seq<Byte>, w: Parts)
    requires IsAccepted(data, w)
    ensures Walked(data).status == Ok
  {
    hide Lines, LineChain, NoRecordAt, IsCut, LastEnters, Uel, Enters, NoLineAt;
    NoLineAtEnd(data);
    LinesMeaning(data, 0, true, w.head, w.start);
    ChainIsWalked(data, w.start, w.records, w.end);
    if Finished(w.records) {
      var trail, stop := w.trail, |data|;
      if w.end == |data| {
        assert !At(data, w.end, Uel()) by {
          assert |Uel()| == 9;
        }
        trail, stop := [], w.end;
      }
      TrailMeaning(data, w.end, trail, stop);
    }
  }
}
