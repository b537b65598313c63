/** The greedy 0x11 encoder: the parse it makes, and the method that writes it into a buffer. */
module Codec11Encode {
  import opened Arith
  import opened Bytes
  import opened Codec11Format
  import opened Codec11Match

  /** Where the raw prefix that has reached `raw` ends: at the first match, or at the upper limit. */
  function RawFrom(band: seq<Byte>, table: Table, raw: nat): (r: nat)
    requires raw <= Min(|band|, MAX_RAW)
    ensures raw <= r <= Min(|band|, MAX_RAW)
    decreases MAX_RAW - raw
  {
    if raw < Min(|band|, MAX_RAW) && Best(band, raw, table).length == 0 then RawFrom(band, table, raw + 1) else raw
  }

  function RawLen(band: seq<Byte>, table: Table): (r: nat)
    ensures Min(|band|, MIN_RAW) <= r <= Min(|band|, MAX_RAW)
  {
    RawFrom(band, table, Min(|band|, MIN_RAW))
  }

  /** A literal run cut into tokens of at most 128 bytes. */
  function Literals(bytes: seq<Byte>): (ts: seq<Token>)
    ensures AllValid(ts)
    decreases |bytes|
  {
    if bytes == [] then []
    else
      var count := Min(|bytes|, MAX_LITERAL);
      [Literal(bytes[..count])] + Literals(bytes[count..])
  }

  /** The greedy parse from `pos` on, when the bytes from `litStart` to `pos` wait as literals. */
  function Greedy(band: seq<Byte>, table: Table, litStart: nat, pos: nat): (ts: seq<Token>)
    requires litStart <= pos <= |band|
    ensures AllValid(ts)
    decreases |band| - pos
  {
    if pos == |band| then Literals(band[litStart..])
    else
      var c := Best(band, pos, table);
      if c.length == 0 then Greedy(band, table, litStart, pos + 1)
      else
        var next := pos + c.length;
        Literals(band[litStart..pos]) + [Match(c.length, c.slot)] + Greedy(band, table, next, next)
  }

  function Tokens(band: seq<Byte>, table: Table): (ts: seq<Token>)
    ensures AllValid(ts)
  {
    Greedy(band, table, RawLen(band, table), RawLen(band, table))
  }

  /** The payload up to its checksum. */
  function Body(band: seq<Byte>, table: Table): seq<Byte> {
    var raw := RawLen(band, table);
    Header(table, raw, true) + band[..raw] + Serialize(Tokens(band, table))
  }

  /** The payload of a band. */
  function Payload(band: seq<Byte>, table: Table): (p: seq<Byte>)
    ensures p == Frame(true, table, band[..RawLen(band, table)], Tokens(band, table))
  {
    Signed(Body(band, table))
  }

  lemma GreedySkip(band: seq<Byte>, table: Table, litStart: nat, pos: nat)
    requires litStart <= pos < |band| && Best(band, pos, table).length == 0
    ensures Greedy(band, table, litStart, pos) == Greedy(band, table, litStart, pos + 1)
  {
  }

  lemma GreedyMatch(band: seq<Byte>, table: Table, litStart: nat, pos: nat, c: Choice)
    requires litStart <= pos < |band| && c == Best(band, pos, table) && c.length > 0
    ensures Serialize(Greedy(band, table, litStart, pos))
            == Serialize(Literals(band[litStart..pos])) + Match(c.length, c.slot).Encoded()
               + Serialize(Greedy(band, table, pos + c.length, pos + c.length))
  {
    hide Serialize, Literals;
    SerializeAround(Literals(band[litStart..pos]), Match(c.length, c.slot),
                    Greedy(band, table, pos + c.length, pos + c.length));
  }

  lemma SerializeAround(before: seq<Token>, t: Token, after: seq<Token>)
    requires AllValid(before) && t.Valid() && AllValid(after)
    ensures AllValid(before + [t] + after)
    ensures Serialize(before + [t] + after) == Serialize(before) + t.Encoded() + Serialize(after)
  {
    assert Serialize([t]) == t.Encoded() + Serialize([t][1..]) && Serialize([t][1..]) == [];
    hide Serialize, Token.Encoded;
    SerializeAppend(before, [t]);
    SerializeAppend(before + [t], after);
  }

  lemma GreedyEnd(band: seq<Byte>, table: Table, litStart: nat)
    requires litStart <= |band|
    ensures Greedy(band, table, litStart, |band|) == Literals(band[litStart..|band|])
    ensures Serialize(Literals([])) == []
  {
    assert band[litStart..] == band[litStart..|band|];
  }

  lemma LiteralsStep(bytes: seq<Byte>)
    requires bytes != []
    ensures var count := Min(|bytes|, MAX_LITERAL);
            Serialize(Literals(bytes)) == [count - 1] + bytes[..count] + Serialize(Literals(bytes[count..]))
  {
    var count := Min(|bytes|, MAX_LITERAL);
    assert Literals(bytes)[1..] == Literals(bytes[count..]);
  }

  // ---- the encoder itself

  /** The buffer holds the first `n` bytes of `s` and is untouched beyond. */
  twostate predicate Holds(out: array<Byte>, n: nat, s: seq<Byte>)
    reads out
  {
    && n <= out.Length && n <= |s| && out[..n] == s[..n]
    && forall k :: n <= k < out.Length ==> out[k] == old(out[k])
  }

  /** `s` was to be written: all of it is there, or it does not fit and a proper prefix is there. */
  twostate predicate Emitted(out: array<Byte>, n: nat, s: seq<Byte>, ok: bool)
    reads out
  {
    Holds(out, n, s) && (ok <==> |s| <= out.Length) && (ok <==> n == |s|)
  }

  /**
   * Encodes `band` into `out`. If the payload fits, it is written; if it does not, the result is
   * EOverflow and the buffer holds a proper prefix of it. A null band (of positive length), table
   * or buffer is EINVAL.
   */
  method Encode(band: Option<seq<Byte>>, table: Option<Table>, out: array?<Byte>)
    returns (status: Status, outLen: nat)
    modifies out
    ensures band.None? || table.None? || out == null ==> status == EInval && outLen == 0
    ensures out != null && (band.None? || table.None?) ==> out[..] == old(out[..])
    ensures out != null && band.Some? && table.Some? ==>
              && Emitted(out, outLen, Payload(band.value, table.value), status == Ok)
              && status in {Ok, EOverflow}
  {
    hide RawLen, Serialize, Greedy, Header, Checksum;
    if band.None? || table.None? || out == null {
      return EInval, 0;
    }
    var ok;
    ghost var body, p := Body(band.value, table.value), Payload(band.value, table.value);
    ok, outLen := EmitBody(band.value, table.value, out);
    assert p[..outLen] == body[..outLen];
    if !ok {
      return EOverflow, outLen;
    }
    ok, outLen := EmitChecksum(out, outLen);
    status := if ok then Ok else EOverflow;
  }

  method EmitBody(band: seq<Byte>, table: Table, out: array<Byte>) returns (ok: bool, n: nat)
    modifies out
    ensures Emitted(out, n, Body(band, table), ok)
  {
    hide RawLen, Serialize, Greedy, Header;
    var raw, index := RawLoop(band, table);
    if out.Length < HEADER_LEN + raw {
      return false, 0;
    }
    WriteHeader(band, table, raw, out);
    assert out[..HEADER_LEN + raw] == Header(table, raw, true) + band[..raw];
    ok, n := EmitTokens(band, table, raw, index, out, HEADER_LEN + raw);
  }

  method EmitChecksum(out: array<Byte>, n0: nat) returns (ok: bool, n: nat)
    requires n0 <= out.Length
    modifies out
    ensures n >= n0 && Emitted(out, n, Signed(old(out[..n0])), ok)
  {
    hide Checksum;
    n := n0;
    var sum := SumLoop(out[..], n);
    assert (out[..n] + Put32(sum, false))[..n] == out[..n];
    ok, n := EmitBytes(out, n, Put32(sum, false));
  }

  method RawLoop(band: seq<Byte>, table: Table) returns (raw: nat, index: nat)
    ensures raw == RawLen(band, table)
  {
    raw, index := Min(|band|, MIN_RAW), 0;
    var rawMax := Min(|band|, MAX_RAW);
    while raw < rawMax
      invariant raw <= rawMax && RawFrom(band, table, raw) == RawLen(band, table)
    {
      var m;
      m, index := LongestMatch(band, raw, table, index);
      if m != 0 {
        break;
      }
      raw := raw + 1;
    }
  }

  method WriteHeader(band: seq<Byte>, table: Table, raw: nat, out: array<Byte>)
    requires raw <= |band| && raw <= MAX_RAW && HEADER_LEN + raw <= out.Length
    modifies out
    ensures Holds(out, HEADER_LEN + raw, Header(table, raw, true) + band[..raw])
  {
    hide Put32;
    CopyBytes(out, 0, Put32(MAGIC, true));
    CopyBytes(out, 4, Put32(raw, true));
    assert out[..8] == Put32(MAGIC, true) + Put32(raw, true);
    WriteTable(table, out);
    assert out[..HEADER_LEN] == Header(table, raw, true);
    CopyBytes(out, HEADER_LEN, band[..raw]);
  }

  method WriteTable(table: Table, out: array<Byte>)
    requires HEADER_LEN <= out.Length
    modifies out
    ensures out[..HEADER_LEN] == old(out[..8]) + TableBytes(table, true)
    ensures forall k :: HEADER_LEN <= k < out.Length ==> out[k] == old(out[k])
  {
    ghost var t, head := TableBytes(table, true), out[..8];
    for i := 0 to TABLE_ENTRIES
      invariant out[..8] == head
      invariant forall j :: 0 <= j < 2 * i ==> out[8 + j] == t[j]
      invariant forall k :: 8 + 2 * i <= k < out.Length ==> out[k] == old(out[k])
    {
      assert t[2 * i..2 * i + 2] == Put16(table[i], true);
      assert t[2 * i] == t[2 * i..2 * i + 2][0] && t[2 * i + 1] == t[2 * i..2 * i + 2][1];
      out[8 + 2 * i] := table[i] % 0x100;
      out[8 + 2 * i + 1] := table[i] / 0x100;
    }
  }

  /** The token loop: matches where there are any, the bytes in between as literal runs. */
  method EmitTokens(band: seq<Byte>, table: Table, raw: nat, index0: nat, out: array<Byte>, n0: nat)
    returns (ok: bool, n: nat)
    requires raw <= |band| && n0 <= out.Length
    modifies out
    ensures n >= n0 && Emitted(out, n, old(out[..n0]) + Serialize(Greedy(band, table, raw, raw)), ok)
  {
    hide Greedy, Serialize, Literals, Best;
    ghost var s := out[..n0] + Serialize(Greedy(band, table, raw, raw));
    var pos: nat, litStart: nat, index := raw, raw, index0;
    n := n0;
    while pos < |band|
      invariant litStart <= pos <= |band| && n0 <= n <= out.Length
      invariant out[..n] + Serialize(Greedy(band, table, litStart, pos)) == s
      invariant forall k :: n <= k < out.Length ==> out[k] == old(out[k])
    {
      var m;
      m, index := LongestMatch(band, pos, table, index);
      if m == 0 {
        GreedySkip(band, table, litStart, pos);
        pos := pos + 1;
        continue;
      }
      GreedyMatch(band, table, litStart, pos, Choice(m, index));
      ok, n := EmitLiterals(band, litStart, pos, out, n);
      if !ok {
        return;
      }
      ok, n := EmitBytes(out, n, [0x80 + (m - 3) % 0x80, (m - 3) / 0x80 * 0x40 + index]);
      if !ok {
        return;
      }
      pos := pos + m;
      litStart := pos;
    }
    GreedyEnd(band, table, litStart);
    ok, n := EmitLiterals(band, litStart, |band|, out, n);
  }

  /** One NEED check and the bytes it guards. */
  method EmitBytes(out: array<Byte>, n0: nat, bytes: seq<Byte>) returns (ok: bool, n: nat)
    requires n0 <= out.Length
    modifies out
    ensures n == (if ok then n0 + |bytes| else n0) <= out.Length && (ok <==> n0 + |bytes| <= out.Length)
    ensures out[..n] == old(out[..n0]) + if ok then bytes else []
    ensures forall k :: n <= k < out.Length ==> out[k] == old(out[k])
  {
    if out.Length - n0 < |bytes| {
      return false, n0;
    }
    CopyBytes(out, n0, bytes);
    return true, n0 + |bytes|;
  }

  /** The first token of a literal run: its count byte and its bytes. */
  function RunToken(band: seq<Byte>, from: nat, to: nat): (token: seq<Byte>)
    requires from < to <= |band|
    ensures 2 <= |token| <= to - from + 1
  {
    var count := if to - from > MAX_LITERAL then MAX_LITERAL else to - from;
    [count - 1] + band[from..from + count]
  }

  /** The literal loop: the bytes from `from` to `to` as tokens of at most 128 bytes. */
  method EmitLiterals(band: seq<Byte>, from: nat, to: nat, out: array<Byte>, n0: nat)
    returns (ok: bool, n: nat)
    requires from <= to <= |band| && n0 <= out.Length
    modifies out
    ensures n >= n0 && Emitted(out, n, old(out[..n0]) + Serialize(Literals(band[from..to])), ok)
  {
    assert Serialize(Literals([])) == [];
    hide Serialize, Literals, RunToken;
    ghost var s := out[..n0] + Serialize(Literals(band[from..to]));
    var litStart: nat := from;
    n := n0;
    while litStart < to
      invariant litStart <= to && n0 <= n <= out.Length
      invariant out[..n] + Serialize(Literals(band[litStart..to])) == s
      invariant forall k :: n <= k < out.Length ==> out[k] == old(out[k])
    {
      var token := RunToken(band, litStart, to);
      ghost var rest := Serialize(Literals(band[litStart + |token| - 1..to]));
      RunStep(band, litStart, to);
      Assoc(out[..n], token, rest);
      ok, n := EmitBytes(out, n, token);
      if !ok {
        return;
      }
      litStart := litStart + |token| - 1;
    }
    ok := true;
  }

  /** A literal run is its first token and the run that is left. */
  lemma RunStep(band: seq<Byte>, from: nat, to: nat)
    requires from < to <= |band|
    ensures var token := RunToken(band, from, to);
            Serialize(Literals(band[from..to])) == token + Serialize(Literals(band[from + |token| - 1..to]))
  {
    hide Serialize, Literals;
    var count := if to - from > MAX_LITERAL then MAX_LITERAL else to - from;
    LiteralsStep(band[from..to]);
    SliceSlice(band, from, to, 0, count);
    SliceSlice(band, from, to, count, to - from);
    assert band[from..to][count..] == band[from..to][count..to - from];
    assert band[from..to][..count] == band[from..to][0..count];
  }
}
