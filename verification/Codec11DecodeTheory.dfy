/** What the decoder's results mean: token semantics, buffer size, byte order, accepted payloads. */
module Codec11DecodeTheory {
  import opened Arith
  import opened Bytes
  import opened Codec11Format
  import opened Codec11Decode

  /**
   * The decoder agrees with the token semantics: a stream decodes without error exactly when it
   * parses into tokens, no match reaches before the band and the result fits; the output and the
   * statistics are then those of the tokens.
   */
  lemma {:induction false} StreamMeaning(s: seq<Byte>, table: Table, cap: nat, out: seq<Byte>, stats: Stats)
    requires |out| <= cap
    ensures var r := RunStream(s, table, cap, out, stats);
            var ts := Parse(s);
            var x := if ts.Some? then Exec(ts.value, table, out) else None;
            if x.Some? && |x.value| <= cap
            then r == Run(Ok, x.value, stats.AddAll(ts.value))
            else r.status != Ok
    decreases |s|
  {
    if s != [] && Head(s).Some? {
      var t := Head(s).value;
      var rest := s[|t.Encoded()|..];
      var ts := Parse(rest);
      if ts.Some? {
        assert ([t] + ts.value)[1..] == ts.value;
      }
      if InReach(t, table, out) {
        var next := Apply(t, table, out);
        if |next| <= cap {
          StreamMeaning(rest, table, cap, next, stats.Add(t));
        }
      }
    }
  }

  /** Why a token at the front of `rest` cannot be decoded next, if it cannot. */
  function Obstacle(rest: seq<Byte>, table: Table, cap: nat, out: seq<Byte>): Status {
    if rest == [] then Ok
    else if Head(rest).None? then ETruncated
    else if !InReach(Head(rest).value, table, out) then EOffset
    else if |out| + Head(rest).value.Span() > cap then EOverflow
    else Ok
  }

  /** A token that cannot be taken is counted all the same, unless its second byte is missing. */
  function FrontStats(stats: Stats, rest: seq<Byte>): Stats {
    if rest == [] then stats
    else if Head(rest).Some? then stats.Add(Head(rest).value)
    else if rest[0] < 0x80 then stats.AddLiteral(rest[0] + 1)
    else stats
  }

  /**
   * On arbitrary bytes the decoder consumes some whole tokens, its output is what they build, and
   * its status names the obstacle at the first token it could not take.
   */
  lemma {:induction false} StopsAtFirstObstacle(s: seq<Byte>, table: Table, cap: nat, out: seq<Byte>, stats: Stats)
      returns (ts: seq<Token>, rest: seq<Byte>)
    requires |out| <= cap
    ensures AllValid(ts) && s == Serialize(ts) + rest
    ensures var r := RunStream(s, table, cap, out, stats);
            && Exec(ts, table, out) == Some(r.out)
            && r.status == Obstacle(rest, table, cap, r.out)
            && r.stats == FrontStats(stats.AddAll(ts), rest)
            && (r.status == Ok <==> rest == [])
    decreases |s|
  {
    hide RunStream, Serialize, Exec;
    if s == [] || Head(s).None? {
      RunEnd(s, table, cap, out, stats);
      NoTokens(table, out, s);
      return [], s;
    }
    var t := Head(s).value;
    var tail := s[|t.Encoded()|..];
    RunOne(s, t, tail, table, cap, out, stats);
    if Obstacle(s, table, cap, out) != Ok {
      NoTokens(table, out, s);
      return [], s;
    }
    ts, rest := StopsAtFirstObstacle(tail, table, cap, Apply(t, table, out), stats.Add(t));
    OneMoreToken(t, ts, table, out);
    assert s == t.Encoded() + tail;
    Assoc(t.Encoded(), Serialize(ts), rest);
    ts := [t] + ts;
  }

  lemma NoTokens(table: Table, out: seq<Byte>, s: seq<Byte>)
    ensures Exec([], table, out) == Some(out) && Serialize([]) + s == s
  {
  }

  lemma OneMoreToken(t: Token, ts: seq<Token>, table: Table, out: seq<Byte>)
    requires t.Valid() && AllValid(ts) && InReach(t, table, out)
    ensures Exec([t] + ts, table, out) == Exec(ts, table, Apply(t, table, out))
    ensures AllValid([t] + ts) && Serialize([t] + ts) == t.Encoded() + Serialize(ts)
  {
    hide Token.Encoded, Token.Valid, Apply;
    assert ([t] + ts)[1..] == ts;
  }

  /**
   * A smaller buffer changes nothing as long as the output fits; otherwise the result is an
   * overflow that has produced a prefix of the same output.
   */
  lemma {:induction false} StreamCap(s: seq<Byte>, table: Table, cap: nat, small: nat, out: seq<Byte>, stats: Stats)
    requires |out| <= small <= cap
    ensures var r, r' := RunStream(s, table, cap, out, stats), RunStream(s, table, small, out, stats);
            if |r.out| <= small then r' == r
            else r'.status == EOverflow && |r'.out| <= |r.out| && r.out[..|r'.out|] == r'.out
    decreases |s|
  {
    if s != [] && Head(s).Some? {
      var t := Head(s).value;
      if InReach(t, table, out) && cap - |out| >= t.Span() {
        var next := Apply(t, table, out);
        var rest := s[|t.Encoded()|..];
        if |next| <= small {
          StreamCap(rest, table, cap, small, next, stats.Add(t));
        } else {
          var r := RunStream(rest, table, cap, next, stats.Add(t));
          assert r.out[..|out|] == r.out[..|next|][..|out|];
        }
      }
    }
  }

  lemma CapacityExact(p: seq<Byte>, cap: nat, small: nat)
    requires small <= cap
    ensures var d, d' := Decoded(p, cap), Decoded(p, small);
            if |d.out| <= small then d' == d
            else d'.status == EOverflow && |d'.out| < |d.out| && d.out[..|d'.out|] == d'.out
  {
    hide RunStream, Sum, Get32;
    if |p| >= HEADER_LEN + CHECKSUM_LEN {
      var le := Get32(p, 0, true) == MAGIC;
      var rawLen := Get32(p, 4, le);
      var end := |p| - CHECKSUM_LEN;
      if (le || Get32(p, 0, false) == MAGIC) && rawLen <= MAX_RAW && rawLen <= end - HEADER_LEN && rawLen <= cap {
        var raw := p[HEADER_LEN..HEADER_LEN + rawLen];
        if rawLen <= small {
          StreamCap(p[HEADER_LEN + rawLen..end], ReadTable(p, le), cap, small, raw, NO_STATS);
        } else {
          var run := RunStream(p[HEADER_LEN + rawLen..end], ReadTable(p, le), cap, raw, NO_STATS);
          assert Decoded(p, cap).out == run.out;
        }
      }
    }
  }

  // ---- byte order

  function SwapPairs(s: seq<Byte>): (r: seq<Byte>)
    ensures |r| == |s|
  {
    if |s| < 2 then s else [s[1], s[0]] + SwapPairs(s[2..])
  }

  function Reversed4(p: seq<Byte>, i: nat): (r: seq<Byte>)
    requires i + 4 <= |p|
    ensures |r| == 4
  {
    [p[i + 3], p[i + 2], p[i + 1], p[i]]
  }

  function OtherHeader(p: seq<Byte>): (r: seq<Byte>)
    requires |p| >= HEADER_LEN
    ensures |r| == HEADER_LEN
  {
    Reversed4(p, 0) + Reversed4(p, 4) + SwapPairs(p[8..HEADER_LEN])
  }

  /** The same payload as a machine of the other byte order would have written it. */
  function OtherOrder(p: seq<Byte>): (r: seq<Byte>)
    requires |p| >= HEADER_LEN
    ensures |r| == |p|
  {
    OtherHeader(p) + p[HEADER_LEN..]
  }

  lemma {:induction false} SwapPairsAt(s: seq<Byte>, i: nat)
    requires 2 * i + 2 <= |s|
    ensures SwapPairs(s)[2 * i] == s[2 * i + 1] && SwapPairs(s)[2 * i + 1] == s[2 * i]
  {
    if i > 0 {
      SwapPairsAt(s[2..], i - 1);
    }
  }

  lemma HeaderOfOtherOrder(p: seq<Byte>, le: bool)
    requires |p| >= HEADER_LEN
    ensures var q := OtherOrder(p);
            Get32(q, 0, le) == Get32(p, 0, !le) && Get32(q, 4, le) == Get32(p, 4, !le)
            && ReadTable(q, le) == ReadTable(p, !le)
  {
    var q, s := OtherOrder(p), p[8..HEADER_LEN];
    assert q[0] == p[3] && q[1] == p[2] && q[2] == p[1] && q[3] == p[0];
    assert q[4] == p[7] && q[5] == p[6] && q[6] == p[5] && q[7] == p[4];
    forall i | 0 <= i < TABLE_ENTRIES
      ensures Get16(q, 8 + 2 * i, le) == Get16(p, 8 + 2 * i, !le)
    {
      SwapPairsAt(s, i);
      assert q[8 + 2 * i] == SwapPairs(s)[2 * i] && q[8 + 2 * i + 1] == SwapPairs(s)[2 * i + 1];
    }
  }

  lemma {:induction false} SumOfSwapPairs(s: seq<Byte>)
    ensures Sum(SwapPairs(s)) == Sum(s)
  {
    if |s| >= 2 {
      SumOfSwapPairs(s[2..]);
      SumAppend([s[1], s[0]], SwapPairs(s[2..]));
      SumAppend([s[0], s[1]], s[2..]);
      assert s == [s[0], s[1]] + s[2..];
      Sum2(s[0], s[1]);
      Sum2(s[1], s[0]);
    }
  }

  lemma Sum2(a: Byte, b: Byte)
    ensures Sum([a, b]) == a + b
  {
    assert [a, b][..1] == [a] && [a][..0] == [];
    assert Sum([a]) == Sum([]) + a;
  }

  lemma SumOfReversed4(p: seq<Byte>, i: nat)
    requires i + 4 <= |p|
    ensures Sum(Reversed4(p, i)) == Sum(p[i..i + 4])
  {
    var a, b, c, d := p[i], p[i + 1], p[i + 2], p[i + 3];
    assert p[i..i + 4] == [a, b] + [c, d] && Reversed4(p, i) == [d, c] + [b, a];
    SumAppend([a, b], [c, d]);
    SumAppend([d, c], [b, a]);
    Sum2(a, b);
    Sum2(c, d);
    Sum2(d, c);
    Sum2(b, a);
  }

  /** The trade leaves every checksum as it is. */
  lemma SumOfOtherOrder(p: seq<Byte>, end: nat)
    requires HEADER_LEN <= end <= |p|
    ensures Sum(OtherOrder(p)[..end]) == Sum(p[..end])
  {
    hide Sum, SwapPairs, Reversed4;
    var a, b, c, d := p[0..4], p[4..8], p[8..HEADER_LEN], p[HEADER_LEN..end];
    SumOfReversed4(p, 0);
    SumOfReversed4(p, 4);
    SumOfSwapPairs(c);
    assert p[..end] == ((a + b) + c) + d;
    SumAppend((a + b) + c, d);
    SumAppend(a + b, c);
    SumAppend(a, b);
    assert OtherOrder(p)[..end] == OtherHeader(p) + d;
    SumAppend(OtherHeader(p), d);
    SumAppend(Reversed4(p, 0) + Reversed4(p, 4), SwapPairs(c));
    SumAppend(Reversed4(p, 0), Reversed4(p, 4));
  }

  /** The byte order of the header is invisible: same result, same output, same table, same sums. */
  lemma ByteOrderIndependence(p: seq<Byte>, cap: nat)
    requires |p| >= HEADER_LEN
    ensures var d, e := Decoded(p, cap), Decoded(OtherOrder(p), cap);
            && e.status == d.status && e.out == d.out
            && (e.info == d.info || e.info == d.info.(littleEndian := !d.info.littleEndian))
  {
    assert !(Get32(p, 0, true) == MAGIC && Get32(p, 0, false) == MAGIC);
    hide RunStream, Sum, Get32, ReadTable, OtherOrder, DecodedAs;
    HeaderOfOtherOrder(p, true);
    HeaderOfOtherOrder(p, false);
    if |p| >= HEADER_LEN + CHECKSUM_LEN {
      OtherOrderDecodes(p, cap, Get32(p, 0, true) == MAGIC);
    }
  }

  lemma OtherOrderDecodes(p: seq<Byte>, cap: nat, le: bool)
    requires |p| >= HEADER_LEN + CHECKSUM_LEN
    ensures var d, e := DecodedAs(p, cap, le), DecodedAs(OtherOrder(p), cap, !le);
            e.status == d.status && e.out == d.out && e.info == d.info.(littleEndian := !le)
  {
    hide RunStream, Sum, Get32, ReadTable, OtherOrder;
    var end := |p| - CHECKSUM_LEN;
    HeaderOfOtherOrder(p, !le);
    SumOfOtherOrder(p, end);
    RestOfOtherOrder(p, end, Get32(p, 4, le));
  }

  lemma RestOfOtherOrder(p: seq<Byte>, end: nat, n: nat)
    requires HEADER_LEN <= end && end + 4 == |p|
    ensures var q := OtherOrder(p);
            && Get32(q, end, false) == Get32(p, end, false)
            && (HEADER_LEN + n <= end ==>
                && q[HEADER_LEN..HEADER_LEN + n] == p[HEADER_LEN..HEADER_LEN + n]
                && q[HEADER_LEN + n..end] == p[HEADER_LEN + n..end])
  {
  }

  // ---- the payloads that are accepted

  lemma HeaderParts(p: seq<Byte>, table: Table, rawLen: U32, le: bool)
    requires |p| >= HEADER_LEN && p[..HEADER_LEN] == Header(table, rawLen, le)
    ensures Get32(p, 0, le) == MAGIC && Get32(p, 4, le) == rawLen && ReadTable(p, le) == table
  {
    hide Put16, Put32, Get16, Get32, TableBytes;
    var h := Header(table, rawLen, le);
    assert p[0..4] == h[0..4] == Put32(MAGIC, le);
    assert p[4..8] == h[4..8] == Put32(rawLen, le);
    assert p[8..HEADER_LEN] == h[8..] == TableBytes(table, le);
    hide Header;
    forall i | 0 <= i < TABLE_ENTRIES
      ensures ReadTable(p, le)[i] == table[i]
    {
      SliceSlice(p, 8, HEADER_LEN, 2 * i, 2 * i + 2);
      GetPut16(p, 8 + 2 * i, table[i], le);
    }
    GetPut32(p, 0, MAGIC, le);
    GetPut32(p, 4, rawLen, le);
  }

  lemma MagicHasOneOrder(p: seq<Byte>)
    requires |p| >= 4
    ensures !(Get32(p, 0, true) == MAGIC && Get32(p, 0, false) == MAGIC)
  {
  }

  lemma SignedParts(body: seq<Byte>)
    ensures var p := Signed(body);
            |p| == |body| + 4 && p[..|body|] == body && Get32(p, |body|, false) == Checksum(body)
  {
    hide Checksum;
    GetPut32(Signed(body), |body|, Checksum(body), false);
  }

  lemma FrameParts(le: bool, table: Table, raw: seq<Byte>, ts: seq<Token>)
    requires |raw| <= MAX_RAW && AllValid(ts)
    ensures var p := Frame(le, table, raw, ts);
            var end := |p| - CHECKSUM_LEN;
            && end == HEADER_LEN + |raw| + |Serialize(ts)|
            && p[..HEADER_LEN] == Header(table, |raw|, le)
            && p[HEADER_LEN..HEADER_LEN + |raw|] == raw && p[HEADER_LEN + |raw|..end] == Serialize(ts)
            && Get32(p, end, false) == Checksum(p[..end])
  {
    hide Signed, Header, Serialize;
    var body := Header(table, |raw|, le) + raw + Serialize(ts);
    SignedParts(body);
    var p := Signed(body);
    assert p[..HEADER_LEN] == body[..HEADER_LEN]
        && p[HEADER_LEN..HEADER_LEN + |raw|] == body[HEADER_LEN..HEADER_LEN + |raw|]
           && p[HEADER_LEN + |raw|..|body|] == body[HEADER_LEN + |raw|..];
  }

  /** Every well-formed frame whose band fits the buffer decodes to that band. */
  lemma FrameDecodes(le: bool, table: Table, raw: seq<Byte>, ts: seq<Token>, cap: nat)
    requires |raw| <= MAX_RAW && AllValid(ts) && Exec(ts, table, raw).Some?
    requires |Exec(ts, table, raw).value| <= cap
    ensures var d := Decoded(Frame(le, table, raw, ts), cap);
            && d.status == Ok && d.out == Exec(ts, table, raw).value
            && d.info.littleEndian == le && d.info.table == table && d.info.rawLen == |raw|
            && d.info.streamLen == |Serialize(ts)| && d.info.stats == NO_STATS.AddAll(ts)
  {
    hide Frame, Header, Serialize, RunStream, Parse, Exec, Get32, ReadTable, Checksum;
    var p := Frame(le, table, raw, ts);
    FrameParts(le, table, raw, ts);
    HeaderParts(p, table, |raw|, le);
    MagicHasOneOrder(p);
    ParseSerialize(ts);
    StreamMeaning(Serialize(ts), table, cap, raw, NO_STATS);
  }

  /** And nothing else decodes: an accepted payload is the frame of its own parts, byte for byte. */
  lemma OnlyFramesDecode(p: seq<Byte>, cap: nat) returns (raw: seq<Byte>, ts: seq<Token>)
    requires Decoded(p, cap).status == Ok
    ensures var d := Decoded(p, cap);
            && |raw| <= MAX_RAW && AllValid(ts)
            && p == Frame(d.info.littleEndian, d.info.table, raw, ts)
            && Exec(ts, d.info.table, raw) == Some(d.out)
  {
    hide RunStream, Parse, Exec, Get32, ReadTable, Checksum, Serialize, Header, Decoded;
    var le := Accepted(p, cap);
    var end := |p| - CHECKSUM_LEN;
    var table, rawLen := ReadTable(p, le), Get32(p, 4, le);
    raw := p[HEADER_LEN..HEADER_LEN + rawLen];
    var stream := p[HEADER_LEN + rawLen..end];
    StreamMeaning(stream, table, cap, raw, NO_STATS);
    ts := Parse(stream).value;
    HeaderIsRead(p, le);
    PutGet32(p, end, false);
    Pieces(p, rawLen);
  }

  lemma Accepted(p: seq<Byte>, cap: nat) returns (le: bool)
    requires Decoded(p, cap).status == Ok
    ensures |p| >= HEADER_LEN + CHECKSUM_LEN && Get32(p, 0, le) == MAGIC && Get32(p, 4, le) <= MAX_RAW
    ensures HEADER_LEN + Get32(p, 4, le) <= |p| - CHECKSUM_LEN && Get32(p, 4, le) <= cap
    ensures var d, end, rawLen := Decoded(p, cap), |p| - CHECKSUM_LEN, Get32(p, 4, le);
            && RunStream(p[HEADER_LEN + rawLen..end], ReadTable(p, le), cap, p[HEADER_LEN..HEADER_LEN + rawLen],
                         NO_STATS) == Run(Ok, d.out, d.info.stats)
            && d.info.littleEndian == le && d.info.table == ReadTable(p, le)
            && Get32(p, end, false) == Checksum(p[..end])
  {
    hide RunStream, Get32, ReadTable, Checksum;
    le := Get32(p, 0, true) == MAGIC;
  }

  lemma Pieces(p: seq<Byte>, rawLen: nat)
    requires HEADER_LEN + rawLen + 4 <= |p|
    ensures var end := |p| - 4;
            && p[..end] == p[..HEADER_LEN] + p[HEADER_LEN..HEADER_LEN + rawLen] + p[HEADER_LEN + rawLen..end]
            && p == p[..end] + p[end..end + 4]
  {
  }

  lemma HeaderIsRead(p: seq<Byte>, le: bool)
    requires |p| >= HEADER_LEN && Get32(p, 0, le) == MAGIC
    ensures p[..HEADER_LEN] == Header(ReadTable(p, le), Get32(p, 4, le), le)
  {
    hide Get32, Put32, TableBytes, ReadTable;
    PutGet32(p, 0, le);
    PutGet32(p, 4, le);
    var t := TableBytes(ReadTable(p, le), le);
    forall i | 0 <= i < 2 * TABLE_ENTRIES
      ensures p[8..HEADER_LEN][i] == t[i]
    {
      TableByteIsRead(p, le, i);
    }
    assert p[8..HEADER_LEN] == t;
    assert p[..HEADER_LEN] == p[0..4] + p[4..8] + p[8..HEADER_LEN];
  }

  lemma TableByteIsRead(p: seq<Byte>, le: bool, i: nat)
    requires |p| >= HEADER_LEN && i < 2 * TABLE_ENTRIES
    ensures TableBytes(ReadTable(p, le), le)[i] == p[8 + i]
  {
    var k := i / 2;
    EntryIsRead(p, le, k);
    hide Put16, Get16, TableBytes, ReadTable;
    var t := TableBytes(ReadTable(p, le), le);
    assert t[i] == t[2 * k..2 * k + 2][i % 2] && p[8 + i] == p[8 + 2 * k..8 + 2 * k + 2][i % 2];
  }

  lemma EntryIsRead(p: seq<Byte>, le: bool, k: nat)
    requires |p| >= HEADER_LEN && k < TABLE_ENTRIES
    ensures TableBytes(ReadTable(p, le), le)[2 * k..2 * k + 2] == p[8 + 2 * k..8 + 2 * k + 2]
  {
    PutGet16(p, 8 + 2 * k, le);
    var table := ReadTable(p, le);
    assert table[k] == Get16(p, 8 + 2 * k, le);
    hide Put16, Get16, TableBytes, ReadTable;
    assert TableBytes(table, le)[2 * k..2 * k + 2] == Put16(table[k], le);
  }

}
