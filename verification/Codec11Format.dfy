/**
 * The 0x11 band payload: a header that announces 64 distances, a raw prefix, a stream of
 * literal and match tokens, and a checksum. This module gives the format a meaning that
 * neither the decoder nor the encoder is defined by.
 */
module Codec11Format {
  import opened Arith
  import opened Bytes

  const MAGIC: U32 := 0x09AB_CDEF
  const TABLE_ENTRIES := 64
  const HEADER_LEN := 136
  const MAX_RAW := 128
  const MAX_LITERAL := 128
  const MAX_MATCH := 514
  const CHECKSUM_LEN := 4
  const MIN_RAW := 64

  type Table = t: seq<U16> | |t| == TABLE_ENTRIES witness seq(TABLE_ENTRIES, _ => 0)

  datatype Token = Literal(bytes: seq<Byte>) | Match(length: nat, slot: nat) {
    /** The tokens that the two encodings can express. */
    predicate Valid() {
      match this
      case Literal(bytes) => 1 <= |bytes| <= MAX_LITERAL
      case Match(length, slot) => 3 <= length <= MAX_MATCH && slot < TABLE_ENTRIES
    }

    function Encoded(): (s: seq<Byte>)
      requires Valid()
    {
      match this
      case Literal(bytes) => [|bytes| - 1] + bytes
      case Match(length, slot) => [0x80 + (length - 3) % 0x80, (length - 3) / 0x80 * 0x40 + slot]
    }

    /** The number of band bytes the token stands for. */
    function Span(): nat {
      match this
      case Literal(bytes) => |bytes|
      case Match(length, _) => length
    }
  }

  predicate AllValid(ts: seq<Token>) {
    forall t <- ts :: t.Valid()
  }

  function Serialize(ts: seq<Token>): seq<Byte>
    requires AllValid(ts)
  {
    if ts == [] then [] else ts[0].Encoded() + Serialize(ts[1..])
  }

  lemma {:induction false} SerializeAppend(a: seq<Token>, b: seq<Token>)
    requires AllValid(a) && AllValid(b)
    ensures AllValid(a + b) && Serialize(a + b) == Serialize(a) + Serialize(b)
  {
    if a == [] {
      assert a + b == b;
    } else {
      assert (a + b)[1..] == a[1..] + b;
      SerializeAppend(a[1..], b);
    }
  }

  /**
   * `length` more bytes that repeat the last `offset` ones over and over. The length may exceed
   * the offset, which is how runs and periods are coded.
   */
  function CopyBack(out: seq<Byte>, offset: nat, length: nat): (r: seq<Byte>)
    requires 1 <= offset <= |out|
    ensures |r| == |out| + length && r[..|out|] == out
  {
    out + seq(length, k requires 0 <= k < length => CopySource(out, offset, k))
  }

  function CopySource(out: seq<Byte>, offset: nat, k: nat): Byte
    requires 1 <= offset <= |out|
  {
    out[|out| - offset + k % offset]
  }

  ghost predicate Periodic(r: seq<Byte>, from: nat, offset: nat)
    requires offset <= from
  {
    forall k :: from <= k < |r| ==> r[k] == r[k - offset]
  }

  /** CopyBack is the one continuation in which every new byte repeats the byte `offset` before it. */
  lemma CopyBackMeaning(out: seq<Byte>, offset: nat, length: nat, r: seq<Byte>)
    requires 1 <= offset <= |out|
    ensures r == CopyBack(out, offset, length)
            <==> |r| == |out| + length && r[..|out|] == out && Periodic(r, |out|, offset)
  {
    var c := CopyBack(out, offset, length);
    forall k | |out| <= k < |c|
      ensures c[k] == c[k - offset]
    {
      SourceStep(out, offset, k - |out|);
    }
    if |r| == |out| + length && r[..|out|] == out && Periodic(r, |out|, offset) {
      PeriodicBytes(out, offset, r, length);
      assert r == r[..|r|];
    }
  }

  lemma SourceStep(out: seq<Byte>, offset: nat, k: nat)
    requires 1 <= offset <= |out|
    ensures CopySource(out, offset, k)
            == if k < offset then out[|out| - offset + k] else CopySource(out, offset, k - offset)
  {
    if k >= offset {
      DivModStep(k, offset);
    }
  }

  lemma {:induction false} PeriodicBytes(out: seq<Byte>, offset: nat, r: seq<Byte>, length: nat)
    requires 1 <= offset <= |out| && |out| + length <= |r|
    requires r[..|out|] == out && Periodic(r, |out|, offset)
    ensures r[..|out| + length] == CopyBack(out, offset, length)
  {
    if length > 0 {
      PeriodicBytes(out, offset, r, length - 1);
      var k := length - 1;
      SourceStep(out, offset, k);
      assert r[|out| + k] == r[|out| + k - offset];
      if k < offset {
        assert r[|out| + k - offset] == out[|out| + k - offset];
      } else {
        assert r[..|out| + k][|out| + k - offset] == CopySource(out, offset, k - offset);
      }
      assert r[..|out| + length] == r[..|out| + k] + [CopySource(out, offset, k)];
    }
  }

  predicate InReach(t: Token, table: Table, out: seq<Byte>) {
    t.Match? ==> t.slot < TABLE_ENTRIES && 1 <= table[t.slot] <= |out|
  }

  /** The band after one more token. */
  function Apply(t: Token, table: Table, out: seq<Byte>): (r: seq<Byte>)
    requires InReach(t, table, out)
    ensures |r| == |out| + t.Span() && r[..|out|] == out
  {
    match t
    case Literal(bytes) => out + bytes
    case Match(length, slot) => CopyBack(out, table[slot], length)
  }

  /** The meaning of a token list: the band it builds, unless a match reaches too far back. */
  function Exec(ts: seq<Token>, table: Table, out: seq<Byte>): (r: Option<seq<Byte>>)
    ensures r.Some? ==> |out| <= |r.value| && r.value[..|out|] == out
  {
    if ts == [] then Some(out)
    else if InReach(ts[0], table, out) then
      var next := Apply(ts[0], table, out);
      var r := Exec(ts[1..], table, next);
      assert r.Some? ==> r.value[..|out|] == r.value[..|next|][..|out|];
      r
    else None
  }

  /** The tokens a stream consists of, if it ends with a token. */
  function Parse(s: seq<Byte>): (r: Option<seq<Token>>)
    ensures r.Some? ==> AllValid(r.value) && Serialize(r.value) == s
    decreases |s|
  {
    if s == [] then Some([])
    else
      var head := Head(s);
      if head.None? then None
      else
        var t := head.value;
        var rest := Parse(s[|t.Encoded()|..]);
        if rest.None? then None
        else
          assert ([t] + rest.value)[1..] == rest.value;
          Some([t] + rest.value)
  }

  /** The first token of a stream, unless the stream ends inside it. */
  function Head(s: seq<Byte>): (r: Option<Token>)
    requires s != []
    ensures r.Some? ==> r.value.Valid() && r.value.Encoded() <= s
  {
    if s[0] >= 0x80 then
      if |s| < 2 then None
      else
        var b1: int, b2: int := s[0], s[1];
        Some(Match(b1 % 0x80 + b2 / 0x40 * 0x80 + 3, b2 % 0x40))
    else
      if |s| < s[0] + 2 then None
      else Some(Literal(s[1..s[0] + 2]))
  }

  lemma HeadOfToken(t: Token, rest: seq<Byte>)
    requires t.Valid()
    ensures Head(t.Encoded() + rest) == Some(t)
  {
    match t
    case Literal(bytes) => assert (t.Encoded() + rest)[1..|bytes| + 1] == bytes;
    case Match(length, slot) =>
      var s := t.Encoded() + rest;
      assert s[0] == 0x80 + (length - 3) % 0x80 && s[1] == (length - 3) / 0x80 * 0x40 + slot;
      SplitLength(length - 3, slot);
  }

  lemma SplitLength(n: nat, slot: nat)
    requires n < 512 && slot < 64
    ensures (0x80 + n % 0x80) % 0x80 == n % 0x80
    ensures (n / 0x80 * 0x40 + slot) / 0x40 == n / 0x80 && (n / 0x80 * 0x40 + slot) % 0x40 == slot
  {
    DivModUnique(0x80 + n % 0x80, 0x80, 1, n % 0x80);
    DivModUnique(n / 0x80 * 0x40 + slot, 0x40, n / 0x80, slot);
  }

  /** A match token, read from its two bytes: a flag, seven and two bits of length, six bits of table slot. */
  lemma MatchTokenExact(s: seq<Byte>, length: nat, slot: nat)
    requires s != []
    ensures Head(s) == Some(Match(length, slot)) <==>
              && |s| >= 2 && 3 <= length <= 514 && slot < 64
              && s[0] == 128 + (length - 3) % 128 && s[1] == 64 * ((length - 3) / 128) + slot
  {
  }

  /** A literal token: one count byte below 128 that is one less than the number of bytes, and the bytes. */
  lemma LiteralTokenExact(s: seq<Byte>, bytes: seq<Byte>)
    requires s != []
    ensures Head(s) == Some(Literal(bytes)) <==> 1 <= |bytes| <= 128 && [|bytes| - 1] + bytes <= s
  {
    if Head(s) == Some(Literal(bytes)) {
      assert bytes == s[1..s[0] + 2] && s[..|bytes| + 1] == [s[0]] + bytes;
    }
    if 1 <= |bytes| <= 128 && [|bytes| - 1] + bytes <= s {
      assert s[0] == |bytes| - 1 && s[1..|bytes| + 1] == ([|bytes| - 1] + bytes)[1..];
    }
  }

  /** The token encoding is unambiguous: a stream parses into the tokens it was written from. */
  lemma {:induction false} ParseSerialize(ts: seq<Token>)
    requires AllValid(ts)
    ensures Parse(Serialize(ts)) == Some(ts)
  {
    if ts != [] {
      var rest := Serialize(ts[1..]);
      HeadOfToken(ts[0], rest);
      assert Serialize(ts)[|ts[0].Encoded()|..] == rest;
      ParseSerialize(ts[1..]);
      assert [ts[0]] + ts[1..] == ts;
    }
  }

  function TableBytes(table: Table, le: bool): (s: seq<Byte>)
    ensures |s| == 2 * TABLE_ENTRIES
    ensures forall i :: 0 <= i < TABLE_ENTRIES ==> s[2 * i..2 * i + 2] == Put16(table[i], le)
  {
    seq(2 * TABLE_ENTRIES, i requires 0 <= i < 2 * TABLE_ENTRIES => Put16(table[i / 2], le)[i % 2])
  }

  function Header(table: Table, rawLen: U32, le: bool): (s: seq<Byte>)
    ensures |s| == HEADER_LEN
  {
    Put32(MAGIC, le) + Put32(rawLen, le) + TableBytes(table, le)
  }

  function Checksum(s: seq<Byte>): U32 {
    Sum(s) % RANGE32
  }

  /** The wrapping 32-bit sum is the checksum of the true sum. */
  method SumLoop(p: seq<Byte>, end: nat) returns (sum: U32)
    requires end <= |p|
    ensures sum == Checksum(p[..end])
  {
    sum := 0;
    for i := 0 to end
      invariant sum == Checksum(p[..i])
    {
      assert p[..i + 1][..i] == p[..i];
      sum := (sum as int + p[i]) % RANGE32;
    }
  }

  function Signed(body: seq<Byte>): seq<Byte> {
    body + Put32(Checksum(body), false)
  }

  /** A complete payload: byte order, table, raw prefix and tokens determine every byte. */
  function Frame(le: bool, table: Table, raw: seq<Byte>, ts: seq<Token>): seq<Byte>
    requires |raw| <= MAX_RAW && AllValid(ts)
  {
    Signed(Header(table, |raw|, le) + raw + Serialize(ts))
  }
}
