/** The walker's callbacks tile the job: what they report, and where the walk stops. */
module WalkTheory {
  import opened Arith
  import opened Bytes
  import opened Records
  import opened Walk

  // ---- records

  /** A record is reported exactly where the bytes that write it stand. */
  lemma RecordExact(data: seq<Byte>, pos: nat, item: Item)
    requires pos < |data|
    ensures NextRecord(data, pos) == Record(item) <==> IsRecord(item) && At(data, pos, Written(item))
  {
    hide ParsePageHeader, ParseBandHeader, WritePageHeader, WriteBandHeader, WriteEndPage;
    match item {
      case PjlLine(_) =>
      case Page(h) => PageExact(data, pos, h);
      case Band(h, payload) => BandExact(data, pos, h, payload);
      case EndPage(copies) => EndPageExact(data, pos, copies);
      case EndJob =>
        assert data[pos..pos + 1] == [data[pos]];
    }
  }

  lemma PageExact(data: seq<Byte>, pos: nat, h: PageHeader)
    requires pos < |data|
    ensures NextRecord(data, pos) == Record(Page(h)) <==> At(data, pos, WritePageHeader(h))
  {
    hide ParsePageHeader, ParseBandHeader, WritePageHeader, At;
    PageHeaderExact(data[pos..], h);
    AtPrefix(data, pos, WritePageHeader(h));
    HeaderBytes(data, pos);
  }

  lemma BandExact(data: seq<Byte>, pos: nat, h: BandHeader, payload: seq<Byte>)
    requires pos < |data|
    ensures NextRecord(data, pos) == Record(Band(h, payload)) <==>
              |payload| == h.length && At(data, pos, WriteBandHeader(h) + payload)
  {
    hide ParsePageHeader, ParseBandHeader, WriteBandHeader;
    BandHeaderExact(data[pos..], h);
    AtPrefix(data, pos, WriteBandHeader(h));
    HeaderBytes(data, pos);
    AtAppend(data, pos, WriteBandHeader(h), payload);
  }

  lemma EndPageExact(data: seq<Byte>, pos: nat, copies: U16)
    requires pos < |data|
    ensures NextRecord(data, pos) == Record(EndPage(copies)) <==> At(data, pos, WriteEndPage(copies))
  {
    hide ParsePageHeader, ParseBandHeader, Put16, Get16;
    var end := pos + END_PAGE_LEN;
    if At(data, pos, WriteEndPage(copies)) {
      assert data[pos..end][0] == data[pos];
      assert data[pos + 1..pos + 3] == data[pos..end][1..3] == Put16(copies, false);
      GetPut16(data, pos + 1, copies, false);
    }
    if NextRecord(data, pos) == Record(EndPage(copies)) {
      PutGet16(data, pos + 1, false);
      assert data[pos..end] == [data[pos]] + data[pos + 1..pos + 3];
    }
  }

  lemma HeaderBytes(data: seq<Byte>, pos: nat)
    requires pos < |data|
    ensures ParsePageHeader(data[pos..]).Record? ==> data[pos] == REC_PAGE
    ensures ParseBandHeader(data[pos..]).Record? ==> data[pos] == REC_BAND
    ensures ParsePageHeader(data[pos..]) == Refused(ERecord) ==> data[pos] != REC_PAGE
    ensures ParseBandHeader(data[pos..]) == Refused(ERecord) ==> data[pos] != REC_BAND
  {
  }

  lemma AtPrefix(data: seq<Byte>, pos: nat, s: seq<Byte>)
    requires pos <= |data|
    ensures s <= data[pos..] <==> At(data, pos, s)
  {
    if s <= data[pos..] {
      assert data[pos..][..|s|] == data[pos..pos + |s|];
    }
    if At(data, pos, s) {
      assert data[pos..][..|s|] == data[pos..pos + |s|];
    }
  }

  lemma AtAppend<T>(data: seq<T>, pos: nat, a: seq<T>, b: seq<T>)
    ensures At(data, pos, a + b) <==> At(data, pos, a) && At(data, pos + |a|, b)
  {
    var mid, end := pos + |a|, pos + |a| + |b|;
    if end <= |data| {
      assert data[pos..end] == data[pos..mid] + data[mid..end];
      if At(data, pos, a + b) {
        assert data[pos..mid] == (a + b)[..|a|] == a;
        assert data[mid..end] == (a + b)[|a|..] == b;
      }
    }
  }

  /** Records one after another from `pos` to `end`; an end of job ends the chain. */
  ghost predicate Chain(data: seq<Byte>, pos: nat, es: seq<Event>, end: nat)
    decreases |es|
  {
    if es == [] then pos == end
    else
      && es[0].offset == pos && IsRecord(es[0].item) && At(data, pos, Written(es[0].item))
      && (es[0].item.EndJob? ==> |es| == 1)
      && Chain(data, pos + |Written(es[0].item)|, es[1..], end)
  }

  predicate Finished(es: seq<Event>) {
    es != [] && es[|es| - 1].item.EndJob?
  }

  /** What the walk has still to do after the records `es`. */
  function Continued(data: seq<Byte>, es: seq<Event>, end: nat): Outcome
    requires end <= |data|
  {
    if Finished(es) then Trailer(data, end) else RecordsFrom(data, end)
  }

  /** Every chain of records that stands in the data is reported, and the walk goes on where it ends. */
  lemma {:induction false} ChainIsWalked(data: seq<Byte>, pos: nat, es: seq<Event>, end: nat)
    requires pos <= |data| && Chain(data, pos, es, end)
    ensures end <= |data| && RecordsFrom(data, pos) == Continued(data, es, end).After(es)
    decreases |es|
  {
    hide RecordsFrom, Trailer, Written, NextRecord, IsRecord;
    if es == [] {
      assert es + RecordsFrom(data, pos).events == RecordsFrom(data, pos).events;
    } else {
      var item, rest := es[0].item, es[1..];
      var next := pos + |Written(item)|;
      RecordExact(data, pos, item);
      OneRecord(data, pos, item, []);
      assert RecordsFrom(data, pos).After([]) == RecordsFrom(data, pos);
      assert es == [es[0]] + rest;
      if !item.EndJob? {
        ChainIsWalked(data, next, rest, end);
        assert Finished(es) == Finished(rest);
        Assoc([es[0]], rest, Continued(data, rest, end).events);
      }
    }
  }

  /**
   * The whole account of the record part. The callbacks are a chain of records, as long as it
   * can be; then comes the trailer, the end of the data, or the first record that does not
   * parse, and the error points there.
   */
  lemma {:induction false} RecordsTile(data: seq<Byte>, pos: nat) returns (es: seq<Event>, end: nat)
    requires pos <= |data|
    ensures end <= |data| && Chain(data, pos, es, end)
    ensures !Finished(es) && end < |data| ==>
              NextRecord(data, end).Refused? && forall item :: IsRecord(item) ==> !At(data, end, Written(item))
    ensures RecordsFrom(data, pos) ==
            if Finished(es) then Trailer(data, end).After(es)
            else if end == |data| then Outcome(Ok, None, es)
            else Outcome(NextRecord(data, end).status, Some(end), es)
    decreases |data| - pos
  {
    hide Trailer, Written, NextRecord, IsRecord, At;
    es, end := [], pos;
    if pos < |data| {
      match NextRecord(data, pos)
      case Refused(status) =>
        forall item | IsRecord(item)
          ensures !At(data, pos, Written(item))
        {
          RecordExact(data, pos, item);
        }
      case Record(item) =>
        RecordExact(data, pos, item);
        OneRecord(data, pos, item, []);
        var next, first := pos + |Written(item)|, [Event(pos, item)];
        assert RecordsFrom(data, pos).After([]) == RecordsFrom(data, pos);
        assert [] + first == first && first[1..] == [];
        es, end := first, next;
        if !item.EndJob? {
          var rest;
          rest, end := RecordsTile(data, next);
          ChainGrows(data, pos, item, rest, end);
          es := first + rest;
        }
    }
  }

  lemma ChainGrows(data: seq<Byte>, pos: nat, item: Item, rest: seq<Event>, end: nat)
    requires IsRecord(item) && At(data, pos, Written(item)) && !item.EndJob?
    requires Chain(data, pos + |Written(item)|, rest, end)
    ensures var es := [Event(pos, item)] + rest;
            Chain(data, pos, es, end) && Finished(es) == Finished(rest)
  {
    hide Written, IsRecord, At;
    assert ([Event(pos, item)] + rest)[1..] == rest;
  }

  // ---- text lines

  predicate IsTextOnly(line: seq<Byte>) {
    forall i :: 0 <= i < |line| ==> IsText(line[i]) && line[i] != LF
  }

  /**
   * A line as the walker cuts it: text up to a line feed, the end of the data or the length
   * limit. At the limit, the byte that follows is dropped whatever it is.
   */
  ghost predicate IsLine(data: seq<Byte>, pos: nat, line: seq<Byte>, next: nat) {
    && At(data, pos, line) && |line| <= MAX_PJL_LINE && IsTextOnly(line)
    && var stop := pos + |line|;
       if stop == |data| then line != [] && next == stop
       else next == stop + 1 && (data[stop] == LF || |line| == MAX_PJL_LINE)
  }

  /** The byte at `k` belongs to the line that starts at `pos`. */
  predicate InLine(data: seq<Byte>, pos: nat, k: nat)
    requires pos <= k < |data|
  {
    IsText(data[k]) && data[k] != LF && k - pos < MAX_PJL_LINE
  }

  predicate AllInLine(data: seq<Byte>, pos: nat, from: nat, nl: nat)
    requires pos <= from <= nl <= |data|
  {
    forall k: nat :: from <= k < nl ==> InLine(data, pos, k)
  }

  lemma FirstInLine(data: seq<Byte>, pos: nat, from: nat, nl: nat)
    requires pos <= from <= nl <= |data|
    ensures AllInLine(data, pos, from, nl) <==>
              from == nl || (InLine(data, pos, from) && AllInLine(data, pos, from + 1, nl))
  {
    hide InLine;
  }

  /** LineStop is the first of: the end of the data, a line feed, the length limit. */
  lemma {:induction false} LineStopMeaning(data: seq<Byte>, pos: nat, from: nat, nl: nat)
    requires pos <= from <= |data|
    ensures LineStop(data, pos, from) == Some(nl) <==>
              && from <= nl <= |data| && AllInLine(data, pos, from, nl)
              && (nl == |data| || data[nl] == LF || nl - pos >= MAX_PJL_LINE)
    decreases |data| - from
  {
    hide IsText, AllInLine;
    if from <= nl <= |data| {
      FirstInLine(data, pos, from, nl);
    }
    if from < |data| && InLine(data, pos, from) {
      LineStopMeaning(data, pos, from + 1, nl);
    }
  }

  /** The scan finds a line exactly where there is one. */
  lemma LineExact(data: seq<Byte>, pos: nat, line: seq<Byte>, next: nat)
    requires pos < |data|
    ensures IsLine(data, pos, line, next) <==>
              var nl := pos + |line|;
              LineStop(data, pos, pos) == Some(nl) && line == data[pos..nl] && next == PastLine(data, nl)
  {
    hide IsText, IsTextOnly, AllInLine, LineStop;
    var nl := pos + |line|;
    LineStopMeaning(data, pos, pos, nl);
    if At(data, pos, line) {
      LineBytes(data, pos, nl);
    }
  }

  lemma LineBytes(data: seq<Byte>, pos: nat, nl: nat)
    requires pos <= nl <= |data|
    ensures IsTextOnly(data[pos..nl]) && nl - pos <= MAX_PJL_LINE <==> AllInLine(data, pos, pos, nl)
  {
    hide IsText;
    var line := data[pos..nl];
    if IsTextOnly(line) && nl - pos <= MAX_PJL_LINE {
      forall k: nat | pos <= k < nl
        ensures InLine(data, pos, k)
      {
        assert data[k] == line[k - pos];
      }
    }
    if AllInLine(data, pos, pos, nl) {
      forall i | 0 <= i < |line|
        ensures IsText(line[i]) && line[i] != LF
      {
        assert InLine(data, pos, pos + i);
      }
      if pos < nl {
        assert InLine(data, pos, nl - 1);
      }
    }
  }

  /** One carriage return is taken off the end of a line that has one there, and nothing else. */
  lemma StripCrMeaning(line: seq<Byte>, text: seq<Byte>)
    ensures text == StripCr(line) <==>
              line == text + [0x0D] || (line == text && (text == [] || text[|text| - 1] != 0x0D))
  {
    if line == text + [0x0D] {
      assert line[..|line| - 1] == text && line[|line| - 1] == 0x0D;
    }
  }

  /** Lines one after another from `pos` to `end`, each reported as its text without a final CR. */
  ghost predicate LineChain(data: seq<Byte>, pos: nat, es: seq<Event>, end: nat)
    decreases |es|
  {
    if es == [] then pos == end
    else
      exists line, next :: && IsLine(data, pos, line, next) && es[0] == Event(pos, PjlLine(StripCr(line)))
                           && LineChain(data, next, es[1..], end)
  }

  ghost predicate Enters(e: Event) {
    e.item.PjlLine? && IsEnterLine(e.item.text)
  }

  /**
   * The whole account of a text part: the callbacks are the lines, up to the first that enters
   * the page language if that is asked for, and otherwise up to where no further line stands.
   */
  lemma {:induction false} LinesTile(data: seq<Byte>, pos: nat, stop: bool)
    requires pos <= |data|
    ensures var r := Lines(data, pos, stop);
            && LineChain(data, pos, r.events, r.pos)
            && (stop ==> forall i :: 0 <= i < |r.events| - 1 ==> !Enters(r.events[i]))
            && (r.entered <==> stop && r.events != [] && Enters(r.events[|r.events| - 1]))
            && (!r.entered && r.pos < |data| ==> forall line, next :: !IsLine(data, r.pos, line, next))
    decreases |data| - pos
  {
    hide IsEnterLine, StripCr, LineStop, IsLine;
    var r := Lines(data, pos, stop);
    if pos < |data| {
      if LineStop(data, pos, pos).Some? {
        LineStartsWithText(data, pos);
        var nl := LineStop(data, pos, pos).value;
        var line, next := data[pos..nl], PastLine(data, nl);
        LineExact(data, pos, line, next);
        NewLineGrows(data, pos);
        if !(stop && IsEnterLine(StripCr(line))) {
          LinesTile(data, next, stop);
          LinesCons(Event(pos, PjlLine(StripCr(line))), Lines(data, next, stop).events, stop);
        }
        assert r.events[1..] == if stop && IsEnterLine(StripCr(line)) then [] else Lines(data, next, stop).events;
      } else {
        forall line, next
          ensures !IsLine(data, pos, line, next)
        {
          LineExact(data, pos, line, next);
        }
      }
    }
  }

  lemma LinesCons(first: Event, rest: seq<Event>, stop: bool)
    requires stop ==> !Enters(first)
    requires stop ==> forall i :: 0 <= i < |rest| - 1 ==> !Enters(rest[i])
    ensures var es := [first] + rest;
            && (stop ==> forall i :: 0 <= i < |es| - 1 ==> !Enters(es[i]))
            && (rest != [] ==> es[|es| - 1] == rest[|rest| - 1])
  {
    forall i | 0 < i < |rest|
      ensures ([first] + rest)[i] == rest[i - 1]
    {
    }
  }

  lemma LineStartsWithText(data: seq<Byte>, pos: nat)
    requires pos < |data| && LineStop(data, pos, pos).Some?
    ensures IsText(data[pos])
  {
  }
}
