/** The encoder's payload byte by byte, and what the decoder reads from it. */
module Codec11PayloadTheory {
  import opened Arith
  import opened Bytes
  import opened Codec11Format
  import opened Codec11Match
  import opened Codec11Encode
  import opened Codec11EncodeTheory
  import opened Codec11Decode
  import opened Codec11DecodeTheory

  /** The raw length that the decoder reads from a payload, into any buffer, ends at the first match. */
  lemma RawLenIsStored(band: seq<Byte>, table: Table, cap: nat, r: nat)
    ensures Decoded(Payload(band, table), cap).info.rawLen == r <==> IsRawEnd(band, table, r)
  {
    hide Frame, Header, Serialize, RunStream, Tokens, Get32, ReadTable, Checksum, IsRawEnd, RawLen;
    var raw, ts := RawLen(band, table), Tokens(band, table);
    var p := Frame(true, table, band[..raw], ts);
    RawEndMeaning(band, table, r);
    FrameParts(true, table, band[..raw], ts);
    HeaderParts(p, table, raw, true);
  }

  // ---- the payload as bytes

  predicate EntryAt(p: seq<Byte>, i: nat, d: U16)
    requires 136 <= |p| && i < 64
  {
    p[8 + 2 * i] as int + p[9 + 2 * i] as int * 256 == d
  }

  ghost predicate EntriesAt(p: seq<Byte>, table: Table)
    requires 136 <= |p|
  {
    forall i :: 0 <= i < 64 ==> EntryAt(p, i, table[i])
  }

  /** Four bytes, high byte first, that hold `n` modulo 2 to the 32. */
  predicate IsSum(s: seq<Byte>, n: nat)
    requires |s| == 4
  {
    s[0] as int * 16777216 + s[1] as int * 65536 + s[2] as int * 256 + s[3] == n % 4294967296
  }

  /**
   * A payload said byte by byte: magic, raw length and distances low byte first, the raw bytes up to
   * the first match, the greedy tokens, and the byte sum high byte first.
   */
  ghost predicate IsPayload(band: seq<Byte>, table: Table, p: seq<Byte>, r: nat, ts: seq<Token>) {
    && IsRawEnd(band, table, r) && r <= |band| && IsGreedyParse(ts, band, table, r) && AllValid(ts)
    && HasLayout(band, table, p, r, Serialize(ts))
  }

  ghost predicate HasLayout(band: seq<Byte>, table: Table, p: seq<Byte>, r: nat, stream: seq<Byte>) {
    && r <= |band| && r <= 128 && |p| == 140 + r + |stream|
    && p[..8] == [0xEF, 0xCD, 0xAB, 0x09, r, 0, 0, 0]
    && EntriesAt(p, table)
    && p[136..136 + r] == band[..r] && p[136 + r..|p| - 4] == stream
    && IsSum(p[|p| - 4..], Sum(p[..|p| - 4]))
  }

  /** The payload of a band is the one byte string that is laid out as the format wants it. */
  lemma PayloadMeaning(band: seq<Byte>, table: Table, p: seq<Byte>)
    ensures p == Payload(band, table) <==> exists r: nat, ts: seq<Token> :: IsPayload(band, table, p, r, ts)
  {
    hide *;
    PayloadIsLaidOut(band, table);
    forall r: nat, ts: seq<Token> | IsPayload(band, table, p, r, ts)
      ensures p == Payload(band, table)
    {
      PartsOfPayload(band, table, p, r, ts);
      LayoutIsUnique(band, table, p, Payload(band, table), r, Serialize(ts));
    }
  }

  lemma PartsOfPayload(band: seq<Byte>, table: Table, p: seq<Byte>, r: nat, ts: seq<Token>)
    requires IsPayload(band, table, p, r, ts)
    ensures AllValid(ts) && HasLayout(band, table, p, r, Serialize(ts))
    ensures HasLayout(band, table, Payload(band, table), r, Serialize(ts))
  {
    hide IsRawEnd, IsGreedyParse, HasLayout, Serialize, Payload, Tokens, RawLen;
    RawEndMeaning(band, table, r);
    TokensAreTheGreedyParse(band, table, ts);
    PayloadIsLaidOut(band, table);
  }

  lemma PayloadIsLaidOut(band: seq<Byte>, table: Table)
    ensures IsPayload(band, table, Payload(band, table), RawLen(band, table), Tokens(band, table))
  {
    hide IsRawEnd, IsGreedyParse, Frame, Body, Signed, Serialize, Tokens, RawLen, HasLayout;
    var raw, ts := RawLen(band, table), Tokens(band, table);
    RawEndMeaning(band, table, raw);
    TokensAreTheGreedyParse(band, table, ts);
    FrameIsLaidOut(band, table, raw, ts);
  }

  lemma FrameIsLaidOut(band: seq<Byte>, table: Table, raw: nat, ts: seq<Token>)
    requires raw <= |band| && raw <= 128 && AllValid(ts)
    ensures HasLayout(band, table, Frame(true, table, band[..raw], ts), raw, Serialize(ts))
  {
    hide Frame, Serialize, Sum, EntriesAt, Header;
    var p := Frame(true, table, band[..raw], ts);
    FrameParts(true, table, band[..raw], ts);
    HeaderIsLaidOut(p, table, raw);
    assert p[|p| - 4..] == p[|p| - 4..|p| - 4 + 4];
  }

  lemma HeaderIsLaidOut(p: seq<Byte>, table: Table, raw: nat)
    requires |p| >= 136 && raw <= 128 && p[..136] == Header(table, raw, true)
    ensures p[..8] == [0xEF, 0xCD, 0xAB, 0x09, raw, 0, 0, 0] && EntriesAt(p, table)
  {
    hide EntryAt;
    HeaderStart(table, raw);
    HeaderParts(p, table, raw, true);
    hide Header, Get32, ReadTable;
    forall i | 0 <= i < 64
      ensures EntryAt(p, i, table[i])
    {
      EntryIsStored(p, i);
    }
    assert p[..8] == p[..136][..8];
  }

  lemma HeaderStart(table: Table, raw: nat)
    requires raw <= 128
    ensures Header(table, raw, true)[..8] == [0xEF, 0xCD, 0xAB, 0x09, raw, 0, 0, 0]
  {
    assert Put32(MAGIC, true) == [0xEF, 0xCD, 0xAB, 0x09] && Put32(raw, true) == [raw, 0, 0, 0];
    hide Put32, TableBytes;
    assert Header(table, raw, true)[..8] == Put32(MAGIC, true) + Put32(raw, true);
  }

  lemma EntryIsStored(p: seq<Byte>, i: nat)
    requires |p| >= 136 && i < 64
    ensures EntryAt(p, i, ReadTable(p, true)[i])
  {
  }

  lemma LayoutIsUnique(band: seq<Byte>, table: Table, p: seq<Byte>, q: seq<Byte>, r: nat, stream: seq<Byte>)
    requires HasLayout(band, table, p, r, stream) && HasLayout(band, table, q, r, stream)
    ensures p == q
  {
    hide Sum, EntriesAt, IsSum;
    SameEntries(p, q, table);
    var a, b, n := 136, 136 + r, |p| - 4;
    assert p[..n] == p[..8] + p[8..a] + p[a..b] + p[b..n];
    assert q[..n] == q[..8] + q[8..a] + q[a..b] + q[b..n];
    SameSum(p[n..], q[n..], Sum(p[..n]));
    assert p == p[..n] + p[n..] && q == q[..n] + q[n..];
  }

  lemma SameEntries(p: seq<Byte>, q: seq<Byte>, table: Table)
    requires 136 <= |p| && 136 <= |q| && EntriesAt(p, table) && EntriesAt(q, table)
    ensures p[8..136] == q[8..136]
  {
    forall j | 8 <= j < 136
      ensures p[j] == q[j]
    {
      var i := (j - 8) / 2;
      assert EntryAt(p, i, table[i]) && EntryAt(q, i, table[i]);
    }
  }

  lemma SameSum(s: seq<Byte>, t: seq<Byte>, n: nat)
    requires |s| == |t| == 4 && IsSum(s, n) && IsSum(t, n)
    ensures s == t
  {
    Digits(s[3], s[2], s[1], s[0]);
    Digits(t[3], t[2], t[1], t[0]);
  }
}
