/** How the walker reads the PJL envelope of a job: which line it takes for the last one. */
module JobText {
  import opened Arith
  import opened Bytes
  import opened Walk
  import opened WalkTheory
  import opened Job

  // ---- which lines enter the page language

  lemma EnterLanguageBytes()
    ensures var e := EnterLanguage();
            && |e| == 14 && e[0] == 0x45 && e[9] == 0x47 && e[10] == 0x55
            && 0x3A !in e && 0x3D !in e
  {
  }

  lemma ContainsNeeds(s: seq<Byte>)
    requires Contains(s, EnterLanguage())
    ensures |s| >= 14 && 0x47 in s && 0x55 in s
  {
    EnterLanguageBytes();
    hide EnterLanguage;
    var e := EnterLanguage();
    var i :| 0 <= i <= |s| - |e| && At(s, i, e);
    assert s[i + 9] == s[i..i + |e|][9] && s[i + 10] == s[i..i + |e|][10];
  }

  /** The prefixes in front of free text: the phrase cannot begin in them. */
  predicate IsPrefix(prefix: seq<Byte>) {
    && 0x47 !in prefix && |prefix| >= 5
    && var last, before := prefix[|prefix| - 1], prefix[|prefix| - 2];
       last == 0x3D || (last == 0x20 && (before == 0x3A || before == 0x3D))
  }

  lemma StartsPastPrefix(prefix: seq<Byte>, v: seq<Byte>, i: nat)
    requires IsPrefix(prefix) && At(prefix + v, i, EnterLanguage())
    ensures i >= |prefix|
  {
    EnterLanguageBytes();
    hide EnterLanguage;
    var e, s, n := EnterLanguage(), prefix + v, |prefix|;
    assert forall k :: 0 <= k < |e| ==> s[i + k] == e[k];
    assert forall k :: 0 <= k < n ==> s[k] == prefix[k] && s[k] != 0x47;
    assert s[i] == e[0] && s[i + 9] == e[9];
    assert forall k :: i <= k < i + |e| ==> s[k] in e by {
      assert forall k :: i <= k < i + |e| ==> s[k] == e[k - i];
    }
    assert s[n - 1] == prefix[n - 1] && s[n - 2] == prefix[n - 2];
  }

  lemma ContainsAfterPrefix(prefix: seq<Byte>, v: seq<Byte>)
    requires IsPrefix(prefix)
    ensures IsEnterLine(prefix + v) <==> Contains(v, EnterLanguage())
  {
    EnterLanguageBytes();
    hide EnterLanguage;
    var e, s, n := EnterLanguage(), prefix + v, |prefix|;
    if Contains(s, e) {
      var i :| 0 <= i <= |s| - |e| && At(s, i, e);
      StartsPastPrefix(prefix, v, i);
      assert v[i - n..i - n + |e|] == s[i..i + |e|];
      assert At(v, i - n, e);
    }
    if Contains(v, e) {
      var i :| 0 <= i <= |v| - |e| && At(v, i, e);
      assert s[n + i..n + i + |e|] == v[i..i + |e|];
      assert At(s, n + i, e);
    }
  }

  lemma AsciiLacks(text: string, c: char)
    requires c !in text && 0x20 <= c as int < 0x7F && c != '?'
    ensures c as int !in Ascii(text)
  {
    forall i | 0 <= i < |text|
      ensures Ascii(text)[i] != c as int
    {
      assert text[i] in text;
    }
  }

  lemma DateLineDoesNotEnter(date: seq<Byte>)
    requires |date| <= 8
    ensures !IsEnterLine(ServiceDateLine(date)) && !IsEnterLine(Uel() + ServiceDateLine(date))
  {
    var p := Ascii("@PJL DEFAULT SERVICEDATE=");
    AsciiLacks("@PJL DEFAULT SERVICEDATE=", 'G');
    assert IsPrefix(p) && IsPrefix(Uel() + p);
    hide IsPrefix, Uel, IsEnterLine, Contains;
    ContainsAfterPrefix(p, date);
    ContainsAfterPrefix(Uel() + p, date);
    Assoc(Uel(), p, date);
    if Contains(date, EnterLanguage()) {
      ContainsNeeds(date);
    }
  }

  lemma LiteralDoesNotEnter(a: string, b: string, c: char)
    requires (c == 'G' || c == 'U') && c !in a && c !in b
    ensures !IsEnterLine(Ascii(a) + Ascii(b)) && !IsEnterLine(Uel() + (Ascii(a) + Ascii(b)))
  {
    AsciiLacks(a, c);
    AsciiLacks(b, c);
    assert 0x47 !in Uel() && 0x55 !in Uel();
    hide Ascii, Uel, Contains;
    forall s: seq<Byte> | c as int !in s
      ensures !IsEnterLine(s)
    {
      if Contains(s, EnterLanguage()) {
        ContainsNeeds(s);
      }
    }
  }

  lemma CommentsDoNotEnter(on: bool)
    ensures !IsEnterLine(ModelLine()) && !IsEnterLine(Uel() + ModelLine()) && !IsEnterLine(SkipBlankLine(on))
    ensures !IsEnterLine([])
  {
    hide IsEnterLine, Ascii, Uel;
    LiteralDoesNotEnter("@PJL COMMENT Model Name", " : Samsung M2020 Series", 'G');
    LiteralDoesNotEnter("@PJL SET XIGNOREFF=", if on then "ON" else "OFF", 'U');
    LiteralDoesNotEnter("", "", 'G');
    assert Ascii("") == [] && [] + Ascii("") == [];
  }

  lemma SettingsDoNotEnter(dpi: nat, duplex: nat)
    ensures !IsEnterLine(ResolutionLine(dpi)) && !IsEnterLine(BitsPerPixelLine())
    ensures !IsEnterLine(DuplexLine(duplex)) && !IsEnterLine(BindingLine(duplex))
  {
    hide IsEnterLine, Ascii, Uel;
    LiteralDoesNotEnter("@PJL SET RESOLUTION = ", if dpi == 600 then "600" else "1200", 'G');
    LiteralDoesNotEnter("@PJL SET BITSPERPIXEL = 1", "", 'G');
    LiteralDoesNotEnter("@PJL SET DUPLEX = ", if duplex == DUPLEX_OFF then "OFF" else "MANUAL", 'G');
    LiteralDoesNotEnter("@PJL SET BINDING = ", if duplex == DUPLEX_LONG_EDGE then "LONGEDGE" else "SHORTEDGE", 'U');
    assert BitsPerPixelLine() + Ascii("") == BitsPerPixelLine();
  }

  lemma FreeTextEnters(text: seq<Byte>)
    ensures IsEnterLine(ProducerLine(text)) <==> Contains(text, EnterLanguage())
    ensures IsEnterLine(PaperTypeLine(text)) <==> Contains(text, EnterLanguage())
  {
    AsciiLacks("@PJL COMMENT Producer : ", 'G');
    AsciiLacks("@PJL SET PAPERTYPE = ", 'G');
    ContainsAfterPrefix(Ascii("@PJL COMMENT Producer : "), text);
    ContainsAfterPrefix(Ascii("@PJL SET PAPERTYPE = "), text);
  }

  lemma EnterLineEnters()
    ensures IsEnterLine(EnterLine())
  {
    hide Ascii, EnterLanguage;
    var e := EnterLanguage();
    assert |e| == 14 by {
      EnterLanguageBytes();
    }
    assert EnterLine()[5..19] == e;
    assert At(EnterLine(), 5, e);
  }

  // ---- reading the envelope

  /** A line that survives the trip: short, and without a line end inside. */
  predicate IsWireLine(line: seq<Byte>) {
    |line| < MAX_PJL_LINE && forall c <- line :: IsText(c) && c != LF && c != CR
  }

  /** The callbacks for lines sent one after another. */
  function LineEvents(lines: seq<seq<Byte>>): (es: seq<Event>)
    ensures |es| == |lines|
  {
    if lines == [] then []
    else
      var before := lines[..|lines| - 1];
      LineEvents(before) + [Event(|JoinLines(before)|, PjlLine(lines[|lines| - 1]))]
  }

  /** One terminated line is reported as it was sent. */
  lemma OneLine(data: seq<Byte>, pos: nat, line: seq<Byte>, before: seq<Event>)
    requires At(data, pos, Terminated(line)) && IsWireLine(line)
    ensures var events, next := before + [Event(pos, PjlLine(line))], pos + |line| + 2;
            next <= |data| && Lines(data, pos, true).After(before)
            == if IsEnterLine(line) then TextRun(next, events, true) else Lines(data, next, true).After(events)
  {
    assert IsText(CR);
    hide IsEnterLine, Lines, IsText;
    var sent, nl := line + [CR], pos + |line| + 1;
    assert Terminated(line) == sent + [LF];
    AtAppend(data, pos, sent, [LF]);
    assert data[nl] == data[nl..nl + 1][0] == LF;
    LineExact(data, pos, sent, nl + 1);
    LineStartsWithText(data, pos);
    LineStep(data, pos, true, nl, before);
    assert StripCr(sent) == line;
  }

  /** Lines that do not enter are all reported, and reading goes on behind them. */
  lemma {:induction false} LinesOfJoined(data: seq<Byte>, lines: seq<seq<Byte>>)
    requires At(data, 0, JoinLines(lines)) && forall line <- lines :: IsWireLine(line) && !IsEnterLine(line)
    ensures Lines(data, 0, true) == Lines(data, |JoinLines(lines)|, true).After(LineEvents(lines))
  {
    hide IsEnterLine, IsWireLine, Lines, Terminated;
    if lines == [] {
      assert [] + Lines(data, 0, true).events == Lines(data, 0, true).events;
    } else {
      var before, line := lines[..|lines| - 1], lines[|lines| - 1];
      AtAppend(data, 0, JoinLines(before), Terminated(line));
      LinesOfJoined(data, before);
      assert line in lines;
      OneLine(data, |JoinLines(before)|, line, LineEvents(before));
      assert |Terminated(line)| == |line| + 2 by {
        TerminatedSize(line);
      }
    }
  }

  lemma TerminatedSize(line: seq<Byte>)
    ensures |Terminated(line)| == |line| + 2
  {
  }

  /** Up to the first line that enters, if `last` is one. */
  lemma EntersAtLast(data: seq<Byte>, lines: seq<seq<Byte>>, last: seq<Byte>)
    requires At(data, 0, JoinLines(lines + [last])) && IsWireLine(last) && IsEnterLine(last)
    requires forall line <- lines :: IsWireLine(line) && !IsEnterLine(line)
    ensures Lines(data, 0, true) == TextRun(|JoinLines(lines + [last])|, LineEvents(lines + [last]), true)
  {
    hide IsEnterLine, IsWireLine, Lines, Terminated;
    assert (lines + [last])[..|lines|] == lines;
    AtAppend(data, 0, JoinLines(lines), Terminated(last));
    LinesOfJoined(data, lines);
    OneLine(data, |JoinLines(lines)|, last, LineEvents(lines));
    TerminatedSize(last);
  }

  /** The lines as the walker sees them, with the UEL as the head of the first. */
  function Glued(lines: seq<seq<Byte>>): (r: seq<seq<Byte>>)
    requires lines != []
    ensures |r| == |lines|
  {
    [Uel() + lines[0]] + lines[1..]
  }

  lemma {:induction false} JoinGlued(lines: seq<seq<Byte>>)
    requires lines != []
    ensures JoinLines(Glued(lines)) == Uel() + JoinLines(lines)
  {
    hide Uel, Terminated;
    var n := |lines| - 1;
    if n == 0 {
      assert Glued(lines)[..0] == [] && lines[..0] == [];
      assert Terminated(Uel() + lines[0]) == Uel() + Terminated(lines[0]) by {
        TerminatedAppend(Uel(), lines[0]);
      }
      assert [] + Terminated(lines[0]) == Terminated(lines[0]);
      assert [] + Terminated(Uel() + lines[0]) == Terminated(Uel() + lines[0]);
    } else {
      JoinGlued(lines[..n]);
      assert Glued(lines)[..n] == Glued(lines[..n]);
      Assoc(Uel(), JoinLines(lines[..n]), Terminated(lines[n]));
    }
  }

  lemma TerminatedAppend(a: seq<Byte>, b: seq<Byte>)
    ensures Terminated(a + b) == a + Terminated(b)
  {
    Assoc(a, b, [CR, LF]);
  }

  lemma {:induction false} JoinAppend(a: seq<seq<Byte>>, b: seq<seq<Byte>>)
    ensures JoinLines(a + b) == JoinLines(a) + JoinLines(b)
  {
    hide Terminated;
    if b == [] {
      assert a + b == a;
    } else {
      assert (a + b)[..|a + b| - 1] == a + b[..|b| - 1];
      JoinAppend(a, b[..|b| - 1]);
      Assoc(JoinLines(a), JoinLines(b[..|b| - 1]), Terminated(b[|b| - 1]));
    }
  }

  // ---- the envelope of a job

  predicate Printable(line: seq<Byte>) {
    |line| <= 200 && forall c <- line :: 0x20 <= c <= 0x7E
  }

  lemma PrintableIsWireLine(line: seq<Byte>)
    requires Printable(line)
    ensures IsWireLine(line) && IsWireLine(Uel() + line)
  {
    assert forall c <- Uel() :: IsText(c) && c != LF && c != CR;
  }

  /** Lines that are reported and do not stop the reading. */
  predicate Quiet(lines: seq<seq<Byte>>) {
    forall line <- lines :: IsWireLine(line) && !IsEnterLine(line)
  }

  lemma StartIsQuiet(job: Job)
    requires ValidJob(job)
    ensures Quiet(Glued(StartLines(job)))
  {
    CommentsDoNotEnter(false);
    assert Printable(ModelLine());
    PrintableIsWireLine(ModelLine());
    if job.serviceDate.Some? {
      var date := job.serviceDate.value;
      DateLineDoesNotEnter(date);
      assert Printable(ServiceDateLine(date));
      PrintableIsWireLine(ServiceDateLine(date));
    }
  }

  lemma SettingsAreQuiet(job: Job)
    requires ValidJob(job)
    ensures Quiet(SettingLines(job))
  {
    CommentsDoNotEnter(job.skipBlankPages);
    SettingsDoNotEnter(job.dpi, job.duplex);
    var a, b, c := SkipBlankLine(job.skipBlankPages), ResolutionLine(job.dpi), BitsPerPixelLine();
    assert Printable(a) && Printable(b) && Printable(c);
    hide IsEnterLine, IsWireLine, Printable, Ascii;
    PrintableIsWireLine(a);
    PrintableIsWireLine(b);
    PrintableIsWireLine(c);
    assert IsWireLine([]) by {
      EmptyIsWireLine();
    }
  }

  lemma EmptyIsWireLine()
    ensures IsWireLine([])
  {
  }

  lemma SidesAreQuiet(job: Job)
    requires ValidJob(job)
    ensures Quiet(SidesLines(job))
  {
    SettingsDoNotEnter(job.dpi, job.duplex);
    assert Printable(DuplexLine(job.duplex)) && Printable(BindingLine(job.duplex));
    PrintableIsWireLine(DuplexLine(job.duplex));
    PrintableIsWireLine(BindingLine(job.duplex));
  }

  lemma FreeTextIsWireLine(text: seq<Byte>)
    requires PlainText(text, 128)
    ensures IsWireLine(ProducerLine(text)) && IsWireLine(PaperTypeLine(text)) && IsWireLine(EnterLine())
  {
    assert Printable(ProducerLine(text)) && Printable(PaperTypeLine(text)) && Printable(EnterLine());
    PrintableIsWireLine(ProducerLine(text));
    PrintableIsWireLine(PaperTypeLine(text));
    PrintableIsWireLine(EnterLine());
  }

  predicate ProducerEnters(job: Job) {
    job.producer.Some? && Contains(job.producer.value, EnterLanguage())
  }

  predicate PaperTypeEnters(job: Job) {
    job.paperType.Some? && Contains(job.paperType.value, EnterLanguage())
  }

  /** The lines the walker takes for the whole envelope. */
  function LinesRead(job: Job): (lines: seq<seq<Byte>>)
    requires job.paperType.Some?
    ensures lines != []
  {
    if ProducerEnters(job) then ToProducer(job)
    else if PaperTypeEnters(job) then ToPaperType(job)
    else JobLines(job)
  }

  lemma GluedAppend(a: seq<seq<Byte>>, b: seq<seq<Byte>>)
    requires a != []
    ensures Glued(a + b) == Glued(a) + b
  {
    assert (a + b)[1..] == a[1..] + b;
  }

  /** The lines read are lines that do not enter and one last line that does. */
  lemma LinesReadStop(job: Job) returns (init: seq<seq<Byte>>, last: seq<Byte>)
    requires ValidJob(job)
    ensures Glued(LinesRead(job)) == init + [last]
    ensures Quiet(init) && IsWireLine(last) && IsEnterLine(last)
  {
    hide IsEnterLine, IsWireLine, Contains, Ascii, Uel, EnterLine, ProducerLine, PaperTypeLine;
    StartIsQuiet(job);
    SettingsAreQuiet(job);
    SidesAreQuiet(job);
    var start, settings, sides, paper := StartLines(job), SettingLines(job), SidesLines(job), job.paperType.value;
    hide StartLines, SettingLines, SidesLines, Glued;
    FreeTextIsWireLine(paper);
    FreeTextEnters(paper);
    EnterLineEnters();
    if job.producer.Some? {
      FreeTextIsWireLine(job.producer.value);
      FreeTextEnters(job.producer.value);
    }
    var producer := if job.producer.Some? then [ProducerLine(job.producer.value)] else [];
    GluedAppend(start, producer);
    GluedAppend(start + producer, settings);
    GluedAppend(start + producer + settings, [PaperTypeLine(paper)]);
    GluedAppend(ToPaperType(job), sides);
    GluedAppend(ToPaperType(job) + sides, [EnterLine()]);
    if ProducerEnters(job) {
      init, last := Glued(start), ProducerLine(job.producer.value);
    } else if PaperTypeEnters(job) {
      init, last := Glued(start + producer + settings), PaperTypeLine(paper);
    } else {
      init, last := Glued(ToPaperType(job) + sides), EnterLine();
    }
  }

  lemma LinesReadArePrefix(job: Job)
    requires ValidJob(job)
    ensures JoinLines(LinesRead(job)) <= JoinLines(JobLines(job))
    ensures ProducerEnters(job) || PaperTypeEnters(job) ==>
              var n := |JoinLines(LinesRead(job))|;
              n < |JoinLines(JobLines(job))| && JoinLines(JobLines(job))[n] == 0x40
  {
    hide JoinLines, Ascii, EnterLine, ProducerLine, PaperTypeLine, StartLines, Contains;
    var lines, read := JobLines(job), LinesRead(job);
    var rest := lines[|read|..];
    assert lines == read + rest;
    JoinAppend(read, rest);
    if ProducerEnters(job) {
      assert rest[0] == SkipBlankLine(job.skipBlankPages);
      StartsWithAt(rest, "@PJL SET XIGNOREFF=", Ascii(if job.skipBlankPages then "ON" else "OFF"));
    } else if PaperTypeEnters(job) {
      assert rest[0] == DuplexLine(job.duplex);
      StartsWithAt(rest, "@PJL SET DUPLEX = ", Ascii(if job.duplex == DUPLEX_OFF then "OFF" else "MANUAL"));
    }
  }

  lemma StartsWithAt(lines: seq<seq<Byte>>, literal: string, tail: seq<Byte>)
    requires lines != [] && lines[0] == Ascii(literal) + tail && literal != "" && literal[0] == '@'
    ensures JoinLines(lines) != [] && JoinLines(lines)[0] == 0x40
  {
    assert Ascii(literal)[0] == 0x40;
    hide Ascii;
    var first: seq<seq<Byte>> := [lines[0]];
    assert lines == first + lines[1..] && first[..0] == [];
    JoinAppend(first, lines[1..]);
    assert JoinLines(first) == [] + Terminated(lines[0]);
  }

  lemma StartsWith(head: seq<Byte>, short: seq<Byte>, long: seq<Byte>, rest: seq<Byte>)
    requires short <= long
    ensures At(head + long + rest, 0, head + short)
  {
    assert (head + long + rest)[..|head + short|] == head + short;
  }

  /** The walker reads the envelope up to the first line that holds the phrase, which may be free text. */
  lemma HeadIsRead(job: Job, rest: seq<Byte>)
    requires ValidJob(job)
    ensures Lines(JobHead(job) + rest, 0, true)
            == TextRun(|Uel() + JoinLines(LinesRead(job))|, LineEvents(Glued(LinesRead(job))), true)
  {
    var init, last := LinesReadStop(job);
    hide IsEnterLine, IsWireLine, Lines, LinesRead, Uel, JobLines, JoinLines, LineEvents, At;
    hide ProducerEnters, PaperTypeEnters;
    LinesReadArePrefix(job);
    JoinGlued(LinesRead(job));
    StartsWith(Uel(), JoinLines(LinesRead(job)), JoinLines(JobLines(job)), rest);
    EntersAtLast(JobHead(job) + rest, init, last);
  }
}
