/** The 0x11 decoder: a cursor over the payload, an output buffer, and the statistics it reports. */
module Codec11Decode {
  import opened Arith
  import opened Bytes
  import opened Codec11Format

  datatype Stats = Stats(literals: nat, matches: nat, maxLiteral: nat, maxMatch: nat, maxIndex: nat) {
    function AddLiteral(count: nat): Stats {
      this.(literals := literals + 1, maxLiteral := Max(maxLiteral, count))
    }

    function AddMatch(length: nat, index: nat): Stats {
      this.(matches := matches + 1, maxMatch := Max(maxMatch, length), maxIndex := Max(maxIndex, index))
    }

    function Add(t: Token): Stats {
      match t
      case Literal(bytes) => AddLiteral(|bytes|)
      case Match(length, slot) => AddMatch(length, slot)
    }

    function AddAll(ts: seq<Token>): Stats
      decreases |ts|
    {
      if ts == [] then this else Add(ts[0]).AddAll(ts[1..])
    }
  }

  const NO_STATS := Stats(0, 0, 0, 0, 0)

  datatype Info = Info(littleEndian: bool, rawLen: U32, table: Table, checksumStored: U32,
                       checksumComputed: U32, streamLen: nat, stats: Stats)

  function ZeroTable(): Table {
    seq(TABLE_ENTRIES, i => 0)
  }

  const NO_INFO := Info(false, 0, ZeroTable(), 0, 0, 0, NO_STATS)

  function Max(a: nat, b: nat): nat {
    if b > a then b else a
  }

  datatype Run = Run(status: Status, out: seq<Byte>, stats: Stats)

  /** The token loop on a stream `s`, with `out` decoded so far into a buffer of `cap` bytes. */
  function RunStream(s: seq<Byte>, table: Table, cap: nat, out: seq<Byte>, stats: Stats): (r: Run)
    requires |out| <= cap
    ensures |r.out| <= cap && |out| <= |r.out| && r.out[..|out|] == out
    decreases |s|
  {
    if s == [] then Run(Ok, out, stats)
    else if Head(s).None? then
      Run(ETruncated, out, if s[0] < 0x80 then stats.AddLiteral(s[0] + 1) else stats)
    else
      var t := Head(s).value;
      if !InReach(t, table, out) then Run(EOffset, out, stats.Add(t))
      else if cap - |out| < t.Span() then Run(EOverflow, out, stats.Add(t))
      else
        var next := Apply(t, table, out);
        var r := RunStream(s[|t.Encoded()|..], table, cap, next, stats.Add(t));
        assert r.out[..|out|] == r.out[..|next|][..|out|];
        r
  }

  /** One step of RunStream, with the token `t` and the rest of the stream named. */
  lemma RunOne(s: seq<Byte>, t: Token, rest: seq<Byte>, table: Table, cap: nat, out: seq<Byte>, stats: Stats)
    requires |out| <= cap && s != [] && Head(s) == Some(t) && rest == s[|t.Encoded()|..]
    ensures RunStream(s, table, cap, out, stats)
            == if !InReach(t, table, out) then Run(EOffset, out, stats.Add(t))
               else if cap - |out| < t.Span() then Run(EOverflow, out, stats.Add(t))
               else RunStream(rest, table, cap, Apply(t, table, out), stats.Add(t))
  {
  }

  /** RunStream where no complete token is left. */
  lemma RunEnd(s: seq<Byte>, table: Table, cap: nat, out: seq<Byte>, stats: Stats)
    requires |out| <= cap && (s != [] ==> Head(s).None?)
    ensures RunStream(s, table, cap, out, stats)
            == if s == [] then Run(Ok, out, stats)
               else Run(ETruncated, out, if s[0] < 0x80 then stats.AddLiteral(s[0] + 1) else stats)
  {
  }

  /** The step at a cursor `s` of `p` where the two bytes of a match token stand. */
  lemma MatchStep(p: seq<Byte>, s: nat, end: nat, length: nat, index: nat,
                  table: Table, cap: nat, out: seq<Byte>, stats: Stats)
    requires s + 2 <= end <= |p| && p[s] >= 0x80 && |out| <= cap
    requires length == p[s] as int % 0x80 + p[s + 1] as int / 0x40 * 0x80 + 3
    requires index == p[s + 1] as int % 0x40
    ensures RunStream(p[s..end], table, cap, out, stats)
            == if table[index] == 0 || table[index] > |out| then Run(EOffset, out, stats.AddMatch(length, index))
               else if cap - |out| < length then Run(EOverflow, out, stats.AddMatch(length, index))
               else RunStream(p[s + 2..end], table, cap, CopyBack(out, table[index], length),
                              stats.AddMatch(length, index))
  {
    hide RunStream;
    RunOne(p[s..end], Match(length, index), p[s + 2..end], table, cap, out, stats);
  }

  /** The step at a literal token of `count` bytes, when the stream holds them all. */
  lemma LiteralStep(p: seq<Byte>, s: nat, end: nat, count: nat,
                    table: Table, cap: nat, out: seq<Byte>, stats: Stats)
    requires s < end <= |p| && p[s] < 0x80 && |out| <= cap
    requires count == p[s] as int + 1 && s + 1 + count <= end
    ensures RunStream(p[s..end], table, cap, out, stats)
            == if cap - |out| < count then Run(EOverflow, out, stats.AddLiteral(count))
               else RunStream(p[s + 1 + count..end], table, cap, out + p[s + 1..s + 1 + count], stats.AddLiteral(count))
  {
    hide RunStream;
    SliceSlice(p, s, end, 1, count + 1);
    RunOne(p[s..end], Literal(p[s + 1..s + 1 + count]), p[s + 1 + count..end], table, cap, out, stats);
  }

  function ReadTable(p: seq<Byte>, le: bool): Table
    requires |p| >= HEADER_LEN
  {
    seq(TABLE_ENTRIES, i requires 0 <= i < TABLE_ENTRIES => Get16(p, 8 + 2 * i, le))
  }

  datatype Decoding = Decoding(status: Status, out: seq<Byte>, info: Info)

  /** What decoding the payload `p` into a buffer of `cap` bytes yields. */
  function Decoded(p: seq<Byte>, cap: nat): (r: Decoding)
    ensures |r.out| <= cap
  {
    if |p| < HEADER_LEN + CHECKSUM_LEN then Decoding(ETruncated, [], NO_INFO)
    else if Get32(p, 0, true) != MAGIC && Get32(p, 0, false) != MAGIC then Decoding(EMagic, [], NO_INFO)
    else DecodedAs(p, cap, Get32(p, 0, true) == MAGIC)
  }

  /** Decoding in a byte order that is known. */
  function DecodedAs(p: seq<Byte>, cap: nat, le: bool): (r: Decoding)
    requires |p| >= HEADER_LEN + CHECKSUM_LEN
    ensures |r.out| <= cap
  {
    var rawLen, table, end := Get32(p, 4, le), ReadTable(p, le), |p| - CHECKSUM_LEN;
    if rawLen > MAX_RAW then Decoding(ERawLen, [], Info(le, rawLen, table, 0, 0, 0, NO_STATS))
    else if end - HEADER_LEN < rawLen then Decoding(ETruncated, [], Info(le, rawLen, table, 0, 0, 0, NO_STATS))
    else
      var stored, computed := Get32(p, end, false), Checksum(p[..end]);
      if rawLen > cap then Decoding(EOverflow, [], Info(le, rawLen, table, stored, computed, 0, NO_STATS))
      else
        var stream := p[HEADER_LEN + rawLen..end];
        var run := RunStream(stream, table, cap, p[HEADER_LEN..HEADER_LEN + rawLen], NO_STATS);
        var status := if run.status.Ok? && computed != stored then EChecksum else run.status;
        Decoding(status, run.out, Info(le, rawLen, table, stored, computed, |stream|, run.stats))
  }

  // ---- the decoder itself

  /** The bytes past the reported length keep what they held: nothing is written beyond it. */
  twostate predicate WritesPrefix(out: array<Byte>, s: seq<Byte>)
    reads out
  {
    |s| <= out.Length && out[..|s|] == s && forall k :: |s| <= k < out.Length ==> out[k] == old(out[k])
  }

  /**
   * Decodes into `out`. Null pointers are EINVAL; otherwise status, output, statistics and the
   * untouched rest of the buffer are exactly as Decoded says.
   */
  method Decode(payload: Option<seq<Byte>>, out: array?<Byte>)
    returns (status: Status, outLen: nat, info: Info)
    modifies out
    ensures payload.None? || out == null ==> status == EInval && outLen == 0 && info == NO_INFO
    ensures out != null && payload.None? ==> out[..] == old(out[..])
    ensures out != null && payload.Some? ==>
              var d := Decoded(payload.value, out.Length);
              status == d.status && outLen == |d.out| && info == d.info && WritesPrefix(out, d.out)
  {
    hide RunStream, Sum;
    info := NO_INFO;
    outLen := 0;
    if payload.None? || out == null {
      return EInval, 0, info;
    }
    var p := payload.value;
    if |p| < HEADER_LEN + CHECKSUM_LEN {
      return ETruncated, 0, info;
    }
    if Get32(p, 0, true) == MAGIC {
      info := info.(littleEndian := true);
    } else if Get32(p, 0, false) == MAGIC {
      info := info.(littleEndian := false);
    } else {
      return EMagic, 0, info;
    }
    info := info.(rawLen := Get32(p, 4, info.littleEndian));
    var table := ReadTableLoop(p, info.littleEndian);
    info := info.(table := table);
    if info.rawLen > MAX_RAW {
      return ERawLen, 0, info;
    }
    var end := |p| - CHECKSUM_LEN;
    if end - HEADER_LEN < info.rawLen {
      return ETruncated, 0, info;
    }
    var sum := SumLoop(p, end);
    info := info.(checksumComputed := sum, checksumStored := Get32(p, end, false));
    if info.rawLen > out.Length {
      return EOverflow, 0, info;
    }
    var raw := info.rawLen;
    CopyBytes(out, 0, p[HEADER_LEN..HEADER_LEN + raw]);
    assert out[..raw] == p[HEADER_LEN..HEADER_LEN + raw];
    info := info.(streamLen := end - (HEADER_LEN + raw));
    var runStatus, pos, stats := DecodeStream(p, HEADER_LEN + raw, end, table, out, raw);
    info := info.(stats := stats);
    if runStatus != Ok {
      return runStatus, pos, info;
    }
    status := if info.checksumComputed == info.checksumStored then Ok else EChecksum;
    return status, pos, info;
  }

  method ReadTableLoop(p: seq<Byte>, le: bool) returns (table: Table)
    requires |p| >= HEADER_LEN
    ensures table == ReadTable(p, le)
  {
    var entries: seq<U16> := [];
    for i := 0 to TABLE_ENTRIES
      invariant |entries| == i
      invariant forall j :: 0 <= j < i ==> entries[j] == Get16(p, 8 + 2 * j, le)
    {
      entries := entries + [Get16(p, 8 + 2 * i, le)];
    }
    table := entries;
  }

  /** The `while (s < end)` loop: from stream position `start`, with `pos` bytes decoded. */
  method DecodeStream(p: seq<Byte>, start: nat, end: nat, table: Table, out: array<Byte>, pos0: nat)
    returns (status: Status, pos: nat, stats: Stats)
    requires start <= end <= |p| && pos0 <= out.Length
    modifies out
    ensures pos <= out.Length && forall k :: pos <= k < out.Length ==> out[k] == old(out[k])
    ensures Run(status, out[..pos], stats)
            == RunStream(p[start..end], table, out.Length, old(out[..pos0]), NO_STATS)
  {
    hide RunStream, CopyBack;
    var s := start;
    pos, stats := pos0, NO_STATS;
    ghost var goal := RunStream(p[start..end], table, out.Length, out[..pos0], NO_STATS);
    while s < end
      invariant start <= s <= end && pos <= out.Length
      invariant RunStream(p[s..end], table, out.Length, out[..pos], stats) == goal
      invariant forall k :: pos <= k < out.Length ==> out[k] == old(out[k])
    {
      var b1: int := p[s];
      s := s + 1;
      if b1 >= 0x80 {
        if s >= end {
          RunEnd(p[s - 1..end], table, out.Length, out[..pos], stats);
          return ETruncated, pos, stats;
        }
        var b2: int := p[s];
        s := s + 1;
        var length := b1 % 0x80 + b2 / 0x40 * 0x80 + 3;
        var index := b2 % 0x40;
        var offset := table[index];
        MatchStep(p, s - 2, end, length, index, table, out.Length, out[..pos], stats);
        stats := stats.AddMatch(length, index);
        if offset == 0 || offset > pos {
          return EOffset, pos, stats;
        }
        if out.Length - pos < length {
          return EOverflow, pos, stats;
        }
        CopyLoop(out, pos, offset, length);
        pos := pos + length;
      } else {
        var count := b1 + 1;
        if end - s < count {
          RunEnd(p[s - 1..end], table, out.Length, out[..pos], stats);
          stats := stats.AddLiteral(count);
          return ETruncated, pos, stats;
        }
        LiteralStep(p, s - 1, end, count, table, out.Length, out[..pos], stats);
        stats := stats.AddLiteral(count);
        if out.Length - pos < count {
          return EOverflow, pos, stats;
        }
        CopyBytes(out, pos, p[s..s + count]);
        pos := pos + count;
        s := s + count;
      }
    }
    RunEnd(p[s..end], table, out.Length, out[..pos], stats);
    status := Ok;
  }

  /** The byte-by-byte copy, which reads bytes it has just written when offset < length. */
  method CopyLoop(out: array<Byte>, pos: nat, offset: nat, length: nat)
    requires 1 <= offset <= pos && pos + length <= out.Length
    modifies out
    ensures out[..pos + length] == CopyBack(old(out[..pos]), offset, length)
    ensures forall k :: pos + length <= k < out.Length ==> out[k] == old(out[k])
  {
    ghost var before := out[..pos];
    for k := 0 to length
      invariant out[..pos] == before
      invariant forall j :: 0 <= j < k ==> out[pos + j] == CopySource(before, offset, j)
      invariant forall j :: pos + k <= j < out.Length ==> out[j] == old(out[j])
    {
      SourceStep(before, offset, k);
      assert k >= offset ==> out[pos + (k - offset)] == CopySource(before, offset, k - offset);
      out[pos + k] := out[pos + k - offset];
    }
  }
}
