/** What the encoder's output is: the greedy parse, within the size bound, and decodable. */
module Codec11EncodeTheory {
  import opened Arith
  import opened Bytes
  import opened Codec11Format
  import opened Codec11Match
  import opened Codec11Encode
  import opened Codec11Decode
  import opened Codec11DecodeTheory

  // ---- round trip

  lemma {:induction false} ExecAppend(a: seq<Token>, b: seq<Token>, table: Table, out: seq<Byte>)
    requires Exec(a, table, out).Some?
    ensures Exec(a + b, table, out) == Exec(b, table, Exec(a, table, out).value)
  {
    if a == [] {
      assert a + b == b;
    } else {
      assert (a + b)[1..] == a[1..] + b;
      ExecAppend(a[1..], b, table, Apply(a[0], table, out));
    }
  }

  lemma {:induction false} LiteralsExec(bytes: seq<Byte>, table: Table, out: seq<Byte>)
    ensures Exec(Literals(bytes), table, out) == Some(out + bytes)
    decreases |bytes|
  {
    if bytes == [] {
      assert out + bytes == out;
    } else {
      var count := Codec11Match.Min(|bytes|, MAX_LITERAL);
      var ts := Literals(bytes);
      assert ts[1..] == Literals(bytes[count..]);
      LiteralsExec(bytes[count..], table, out + bytes[..count]);
      assert out + bytes[..count] + bytes[count..] == out + bytes;
    }
  }

  /** The best match at `pos`, applied to the band before it, gives the band after it. */
  lemma MatchExec(band: seq<Byte>, table: Table, pos: nat)
    requires pos <= |band| && Best(band, pos, table).length > 0
    ensures var c := Best(band, pos, table);
            var t := Match(c.length, c.slot);
            && t.Valid() && pos + c.length <= |band| && InReach(t, table, band[..pos])
            && Apply(t, table, band[..pos]) == band[..pos + c.length]
  {
    var c := Best(band, pos, table);
    var d, max := table[c.slot], Room(band, pos);
    var r := band[..pos + c.length];
    assert MatchLen(band, pos, d, max) == c.length;
    forall k | pos <= k < |r|
      ensures r[k] == r[k - d]
    {
      assert Same(band, k, d);
    }
    assert r[..|band[..pos]|] == band[..pos];
    CopyBackMeaning(band[..pos], d, c.length, r);
  }

  lemma GreedyParts(band: seq<Byte>, table: Table, litStart: nat, pos: nat, c: Choice)
    requires litStart <= pos < |band| && c == Best(band, pos, table) && c.length > 0
    ensures var next := pos + c.length;
            next <= |band| && Greedy(band, table, litStart, pos)
            == Literals(band[litStart..pos]) + [Match(c.length, c.slot)] + Greedy(band, table, next, next)
  {
    hide Literals, BestOf;
  }

  lemma OneMatchExec(band: seq<Byte>, table: Table, pos: nat, c: Choice)
    requires pos <= |band| && c == Best(band, pos, table) && c.length > 0
    ensures pos + c.length <= |band|
    ensures Exec([Match(c.length, c.slot)], table, band[..pos]) == Some(band[..pos + c.length])
  {
    hide Best, Apply;
    MatchExec(band, table, pos);
    var m := [Match(c.length, c.slot)];
    assert m[1..] == [];
  }

  lemma {:induction false} GreedyExec(band: seq<Byte>, table: Table, litStart: nat, pos: nat)
    requires litStart <= pos <= |band|
    ensures Exec(Greedy(band, table, litStart, pos), table, band[..litStart]) == Some(band)
    decreases |band| - pos
  {
    hide Exec, Best, Literals, Greedy;
    if pos == |band| {
      GreedyEnd(band, table, litStart);
      LiteralsExec(band[litStart..pos], table, band[..litStart]);
      assert band[..litStart] + band[litStart..pos] == band;
    } else {
      var c := Best(band, pos, table);
      if c.length == 0 {
        GreedySkip(band, table, litStart, pos);
        GreedyExec(band, table, litStart, pos + 1);
      } else {
        var lits, m, next := Literals(band[litStart..pos]), [Match(c.length, c.slot)], pos + c.length;
        GreedyParts(band, table, litStart, pos, c);
        LiteralsExec(band[litStart..pos], table, band[..litStart]);
        assert band[..litStart] + band[litStart..pos] == band[..pos];
        OneMatchExec(band, table, pos, c);
        ExecAppend(lits, m, table, band[..litStart]);
        ExecAppend(lits + m, Greedy(band, table, next, next), table, band[..litStart]);
        GreedyExec(band, table, next, next);
      }
    }
  }

  /**
   * The round trip: whatever the band and the 64 table entries, the payload decodes without error
   * to the band, in a buffer of exactly its length or larger.
   */
  lemma RoundTrip(band: seq<Byte>, table: Table, cap: nat)
    requires |band| <= cap
    ensures var d := Decoded(Payload(band, table), cap);
            && d.status == Ok && d.out == band
            && d.info.littleEndian && d.info.table == table && d.info.rawLen == RawLen(band, table)
  {
    hide Frame, Greedy, Exec;
    var raw := RawLen(band, table);
    GreedyExec(band, table, raw, raw);
    FrameDecodes(true, table, band[..raw], Tokens(band, table), cap);
  }

  // ---- size

  function Ceil128(n: nat): nat {
    (n + MAX_LITERAL - 1) / MAX_LITERAL
  }

  /** The size callers are told to reserve. */
  function EncodeBound(len: nat): nat {
    HEADER_LEN + len + Ceil128(len) + CHECKSUM_LEN
  }

  lemma {:induction false} LiteralsSize(bytes: seq<Byte>)
    ensures |Serialize(Literals(bytes))| == |bytes| + Ceil128(|bytes|)
    decreases |bytes|
  {
    if bytes != [] {
      var count := Codec11Match.Min(|bytes|, MAX_LITERAL);
      LiteralsSize(bytes[count..]);
      LiteralsStep(bytes);
    }
  }

  /**
   * The amortised bound: every match covers at least three bytes with two, and the byte it saves
   * pays for the rounding of the literal run it ends.
   */
  lemma {:induction false} GreedySize(band: seq<Byte>, table: Table, litStart: nat, pos: nat)
    requires litStart <= pos <= |band|
    ensures |Serialize(Greedy(band, table, litStart, pos))| <= |band| - litStart + Ceil128(|band| - litStart)
    decreases |band| - pos
  {
    hide Best, Serialize, Literals;
    if pos == |band| {
      LiteralsSize(band[litStart..]);
    } else {
      var c := Best(band, pos, table);
      if c.length == 0 {
        GreedySize(band, table, litStart, pos + 1);
      } else {
        GreedyMatch(band, table, litStart, pos, c);
        LiteralsSize(band[litStart..pos]);
        GreedySize(band, table, pos + c.length, pos + c.length);
      }
    }
  }

  predicate NoMatch(band: seq<Byte>, table: Table, from: nat, to: nat)
    requires from <= to <= |band|
  {
    forall p :: from <= p < to ==> Best(band, p, table).length == 0
  }

  lemma {:induction false} GreedyWithoutMatch(band: seq<Byte>, table: Table, litStart: nat, pos: nat, to: nat)
    requires litStart <= pos <= to <= |band| && NoMatch(band, table, pos, to)
    ensures Greedy(band, table, litStart, pos) == Greedy(band, table, litStart, to)
    decreases |band| - pos
  {
    hide Best, Literals;
    if pos < to {
      GreedyWithoutMatch(band, table, litStart, pos + 1, to);
    }
  }

  /** The raw prefix ends at the first match between 64 and 128 bytes, or at the limit. */
  lemma {:induction false} RawFromStops(band: seq<Byte>, table: Table, raw: nat)
    requires raw <= Codec11Match.Min(|band|, MAX_RAW)
    ensures var r := RawFrom(band, table, raw);
            NoMatch(band, table, raw, r)
            && (r < Codec11Match.Min(|band|, MAX_RAW) ==> Best(band, r, table).length > 0)
    decreases MAX_RAW - raw
  {
    if raw < Codec11Match.Min(|band|, MAX_RAW) && Best(band, raw, table).length == 0 {
      RawFromStops(band, table, raw + 1);
    }
  }

  lemma BestFindsMatch(band: seq<Byte>, pos: nat, table: Table)
    requires pos <= |band|
    ensures Best(band, pos, table).length > 0 <==> MatchesAt(band, pos, table)
  {
    hide Best, MatchesAt, Offers;
    var c := Best(band, pos, table);
    BestMeaning(band, pos, table, c);
    if c.length > 0 {
      OffersThree(band, pos, table, c);
    }
  }

  /** The raw prefix must end at the first match from byte 64 on, but not beyond byte 128 or the band. */
  ghost predicate IsRawEnd(band: seq<Byte>, table: Table, r: nat) {
    var lo, hi := if |band| < 64 then |band| else 64, if |band| < 128 then |band| else 128;
    && lo <= r <= hi
    && (forall p: nat :: lo <= p < r ==> !MatchesAt(band, p, table))
    && (r < hi ==> MatchesAt(band, r, table))
  }

  lemma RawEndMeaning(band: seq<Byte>, table: Table, r: nat)
    ensures r == RawLen(band, table) <==> IsRawEnd(band, table, r)
  {
    hide Best, MatchesAt, RawFrom;
    var raw, lo := RawLen(band, table), Codec11Match.Min(|band|, MIN_RAW);
    RawFromStops(band, table, lo);
    forall p: nat | p <= |band|
      ensures Best(band, p, table).length > 0 <==> MatchesAt(band, p, table)
    {
      BestFindsMatch(band, p, table);
    }
  }

  lemma PayloadSize(band: seq<Byte>, table: Table)
    ensures |Payload(band, table)|
            == HEADER_LEN + RawLen(band, table) + |Serialize(Tokens(band, table))| + CHECKSUM_LEN
  {
  }

  /**
   * The bound is sound, and for a band that is not empty it is one byte more than needed: the raw
   * prefix takes at least one byte without a count, or a match follows it.
   */
  lemma BoundIsSound(band: seq<Byte>, table: Table)
    ensures |Payload(band, table)| + (if band == [] then 0 else 1) <= EncodeBound(|band|)
  {
    hide Best, Serialize, Greedy, Literals;
    var raw := RawLen(band, table);
    PayloadSize(band, table);
    RawFromStops(band, table, Codec11Match.Min(|band|, MIN_RAW));
    if raw < Codec11Match.Min(|band|, MAX_RAW) {
      var c := Best(band, raw, table);
      GreedyMatch(band, table, raw, raw, c);
      LiteralsSize(band[raw..raw]);
      GreedySize(band, table, raw + c.length, raw + c.length);
    } else {
      GreedySize(band, table, raw, raw);
    }
  }

  /** One byte below the bound is reached by every band in which nothing repeats. */
  lemma BoundIsReached(band: seq<Byte>, table: Table)
    requires NoMatch(band, table, 0, |band|)
    ensures |Payload(band, table)| + (if band == [] then 0 else 1) == EncodeBound(|band|)
  {
    hide Best, Serialize, Literals;
    var raw := RawLen(band, table);
    PayloadSize(band, table);
    RawFromStops(band, table, Codec11Match.Min(|band|, MIN_RAW));
    GreedyWithoutMatch(band, table, raw, raw, |band|);
    LiteralsSize(band[raw..]);
  }

  // ---- the greedy parse

  /**
   * What the encoder promises about its tokens, from position `pos` on, said without saying how
   * they are found: a match is the best one where it stands, a literal covers only positions
   * without a match and has fewer than 128 bytes only before a match or at the end, and the tokens
   * tile the rest of the band.
   */
  ghost predicate IsGreedyParse(ts: seq<Token>, band: seq<Byte>, table: Table, pos: nat)
    requires pos <= |band|
  {
    if ts == [] then pos == |band|
    else GreedyHead(ts, band, table, pos) && IsGreedyParse(ts[1..], band, table, pos + ts[0].Span())
  }

  ghost predicate GreedyHead(ts: seq<Token>, band: seq<Byte>, table: Table, pos: nat)
    requires pos <= |band| && ts != []
  {
    var next := pos + ts[0].Span();
    && next <= |band|
    && match ts[0]
       case Match(length, slot) => length > 0 && Best(band, pos, table) == Choice(length, slot)
       case Literal(bytes) =>
         && 1 <= |bytes| <= MAX_LITERAL && bytes == band[pos..next] && NoMatch(band, table, pos, next)
         && (|bytes| < MAX_LITERAL && |ts| > 1 ==> ts[1].Match?)
  }

  lemma NoMatchParts(band: seq<Byte>, table: Table, from: nat, mid: nat, to: nat)
    requires from <= mid <= to <= |band| && NoMatch(band, table, from, to)
    ensures NoMatch(band, table, from, mid) && NoMatch(band, table, mid, to)
  {
    hide Best;
  }

  lemma NoLiterals(band: seq<Byte>, at: nat, rest: seq<Token>)
    requires at <= |band|
    ensures Literals(band[at..at]) + rest == rest
  {
    assert band[at..at] == [];
  }

  lemma {:induction false} LiteralsAreGreedy(band: seq<Byte>, table: Table, from: nat, to: nat, rest: seq<Token>)
    requires from <= to <= |band| && NoMatch(band, table, from, to)
    requires IsGreedyParse(rest, band, table, to) && (rest != [] ==> rest[0].Match?)
    ensures IsGreedyParse(Literals(band[from..to]) + rest, band, table, from)
    decreases |band| - from
  {
    hide Best, Literals, IsGreedyParse, GreedyHead, NoMatch;
    if from == to {
      NoLiterals(band, to, rest);
    } else {
      var count := if to - from > MAX_LITERAL then MAX_LITERAL else to - from;
      var mid := from + count;
      LiteralsHead(band, from, to, count);
      NoMatchParts(band, table, from, mid, to);
      if count < MAX_LITERAL {
        NoLiterals(band, to, rest);
      }
      LiteralsAreGreedy(band, table, mid, to, rest);
      PrependLiteral(band, table, from, mid, Literals(band[mid..to]) + rest);
      Assoc([Literal(band[from..mid])], Literals(band[mid..to]), rest);
    }
  }

  lemma LiteralsHead(band: seq<Byte>, from: nat, to: nat, count: nat)
    requires from < to <= |band| && count == if to - from > MAX_LITERAL then MAX_LITERAL else to - from
    ensures Literals(band[from..to]) == [Literal(band[from..from + count])] + Literals(band[from + count..to])
  {
    SliceSlice(band, from, to, 0, count);
    SliceSlice(band, from, to, count, to - from);
    assert band[from..to][..count] == band[from..to][0..count];
    assert band[from..to][count..] == band[from..to][count..to - from];
  }

  lemma PrependLiteral(band: seq<Byte>, table: Table, from: nat, to: nat, rest: seq<Token>)
    requires from < to <= |band| && to - from <= MAX_LITERAL && NoMatch(band, table, from, to)
    requires IsGreedyParse(rest, band, table, to)
    requires to - from < MAX_LITERAL && rest != [] ==> rest[0].Match?
    ensures IsGreedyParse([Literal(band[from..to])] + rest, band, table, from)
  {
    hide Best;
    var ts := [Literal(band[from..to])] + rest;
    assert ts[1..] == rest;
    assert GreedyHead(ts, band, table, from);
  }

  lemma {:induction false} GreedyIsGreedy(band: seq<Byte>, table: Table, litStart: nat, pos: nat)
    requires litStart <= pos <= |band| && NoMatch(band, table, litStart, pos)
    ensures IsGreedyParse(Greedy(band, table, litStart, pos), band, table, litStart)
    decreases |band| - pos
  {
    hide Best, Literals;
    if pos == |band| {
      GreedyEnd(band, table, litStart);
      LiteralsAreGreedy(band, table, litStart, pos, []);
      assert Literals(band[litStart..pos]) + [] == Literals(band[litStart..pos]);
    } else {
      var c := Best(band, pos, table);
      if c.length == 0 {
        GreedyIsGreedy(band, table, litStart, pos + 1);
      } else {
        var next := pos + c.length;
        var rest := [Match(c.length, c.slot)] + Greedy(band, table, next, next);
        GreedyIsGreedy(band, table, next, next);
        assert rest[1..] == Greedy(band, table, next, next);
        LiteralsAreGreedy(band, table, litStart, pos, rest);
        assert Literals(band[litStart..pos]) + rest
               == Literals(band[litStart..pos]) + [Match(c.length, c.slot)] + Greedy(band, table, next, next);
      }
    }
  }

  lemma {:induction false} GreedyParseIsUnique(ts: seq<Token>, us: seq<Token>, band: seq<Byte>, table: Table, pos: nat)
    requires pos <= |band| && IsGreedyParse(ts, band, table, pos) && IsGreedyParse(us, band, table, pos)
    ensures ts == us
  {
    hide Best;
    if ts != [] && us != [] {
      FirstOfGreedyParse(ts, band, table, pos);
      FirstOfGreedyParse(us, band, table, pos);
      assert ts[0] == us[0];
      GreedyParseIsUnique(ts[1..], us[1..], band, table, pos + ts[0].Span());
    }
  }

  /** The first token of a greedy parse is determined by where the matches are. */
  lemma FirstOfGreedyParse(ts: seq<Token>, band: seq<Byte>, table: Table, pos: nat)
    requires pos <= |band| && ts != [] && IsGreedyParse(ts, band, table, pos)
    ensures ts[0].Literal? <==> Best(band, pos, table).length == 0
    ensures var next := pos + ts[0].Span();
            ts[0].Literal? && |ts[0].bytes| < MAX_LITERAL && next < |band| ==> Best(band, next, table).length > 0
  {
    hide Best;
    assert ts[0].Literal? ==> Best(band, pos, table).length == 0;
    assert |ts| > 1 ==> GreedyHead(ts[1..], band, table, pos + ts[0].Span());
  }

  /** The encoder's tokens are the greedy parse after the raw prefix, and there is only one. */
  lemma TokensAreTheGreedyParse(band: seq<Byte>, table: Table, ts: seq<Token>)
    ensures ts == Tokens(band, table) <==> IsGreedyParse(ts, band, table, RawLen(band, table))
  {
    hide Best, Greedy, IsGreedyParse;
    var raw := RawLen(band, table);
    GreedyIsGreedy(band, table, raw, raw);
    if IsGreedyParse(ts, band, table, raw) {
      GreedyParseIsUnique(ts, Tokens(band, table), band, table, raw);
    }
  }
}
