/** Everything a decode returns, on any bytes whatever, said without the loop that finds it. */
module Codec11DecodeMeaning {
  import opened Arith
  import opened Bytes
  import opened Codec11Format
  import opened Codec11Decode
  import opened Codec11DecodeTheory

  // ---- where the stream stops

  /** With `n` bytes decoded into a buffer of `cap`, the next token cannot be taken, and `status` says why. */
  predicate IsStop(rest: seq<Byte>, table: Table, n: nat, cap: nat, status: Status)
    requires rest != []
  {
    var b1: int := rest[0];
    if b1 < 128 then
      if |rest| < b1 + 2 then status == ETruncated else status == EOverflow && n + b1 + 1 > cap
    else if |rest| < 2 then status == ETruncated
    else
      var b2: int := rest[1];
      var offset: int := table[b2 % 64];
      if offset == 0 || offset > n then status == EOffset
      else status == EOverflow && n + (b1 - 128) + b2 / 64 * 128 + 3 > cap
  }

  lemma StopMeaning(rest: seq<Byte>, table: Table, out: seq<Byte>, cap: nat, status: Status)
    requires rest != []
    ensures IsStop(rest, table, |out|, cap, status) <==> status == Obstacle(rest, table, cap, out) && status != Ok
  {
  }

  /** `s` is the tokens `ts`, which build `out` within the buffer, and `rest`, whose first token cannot be taken. */
  ghost predicate IsSplit(s: seq<Byte>, table: Table, cap: nat, raw: seq<Byte>,
                          ts: seq<Token>, rest: seq<Byte>, out: seq<Byte>, status: Status) {
    && AllValid(ts) && s == Serialize(ts) + rest
    && Exec(ts, table, raw) == Some(out) && |out| <= cap
    && if rest == [] then status == Ok else IsStop(rest, table, |out|, cap, status)
  }

  /** A stream splits in one way only. */
  lemma {:induction false} SplitIsUnique(s: seq<Byte>, table: Table, cap: nat, raw: seq<Byte>,
                                         ts: seq<Token>, rest: seq<Byte>, out: seq<Byte>, status: Status,
                                         us: seq<Token>, tail: seq<Byte>, out': seq<Byte>, status': Status)
    requires IsSplit(s, table, cap, raw, ts, rest, out, status)
    requires IsSplit(s, table, cap, raw, us, tail, out', status')
    ensures ts == us && rest == tail && out == out' && status == status'
    decreases |ts|
  {
    hide Serialize, IsStop, Exec, Obstacle, Head, Apply, InReach, Token.Valid, Token.Encoded;
    if ts == [] || us == [] {
      EmptySplit(s, table, cap, raw, ts, rest, out, status);
      EmptySplit(s, table, cap, raw, us, tail, out', status');
      if ts == [] && s != [] {
        StopMeaning(s, table, raw, cap, status);
      }
      if us == [] && s != [] {
        StopMeaning(s, table, raw, cap, status');
      }
    } else {
      FirstTokenIsTaken(table, cap, raw, ts, rest, out);
      FirstTokenIsTaken(table, cap, raw, us, tail, out');
      var t := ts[0];
      SplitIsUnique(s[|t.Encoded()|..], table, cap, Apply(t, table, raw), ts[1..], rest, out, status,
                    us[1..], tail, out', status');
      assert ts == [t] + ts[1..] && us == [t] + us[1..];
    }
  }

  /** The tokens are empty exactly when the first one cannot be taken. */
  lemma EmptySplit(s: seq<Byte>, table: Table, cap: nat, raw: seq<Byte>,
                   ts: seq<Token>, rest: seq<Byte>, out: seq<Byte>, status: Status)
    requires IsSplit(s, table, cap, raw, ts, rest, out, status)
    ensures if ts == [] then s == rest && out == raw else s != [] && Obstacle(s, table, cap, raw) == Ok
  {
    hide IsStop, Obstacle, Head;
    if ts == [] {
      NoTokens(table, raw, rest);
    } else {
      FirstTokenIsTaken(table, cap, raw, ts, rest, out);
    }
  }

  lemma FirstTokenIsTaken(table: Table, cap: nat, raw: seq<Byte>, ts: seq<Token>, rest: seq<Byte>, out: seq<Byte>)
    requires ts != [] && AllValid(ts) && Exec(ts, table, raw) == Some(out) && |out| <= cap
    ensures var s := Serialize(ts) + rest;
            && s != [] && Head(s) == Some(ts[0]) && Obstacle(s, table, cap, raw) == Ok
            && InReach(ts[0], table, raw) && Exec(ts[1..], table, Apply(ts[0], table, raw)) == Some(out)
            && AllValid(ts[1..]) && s[|ts[0].Encoded()|..] == Serialize(ts[1..]) + rest
  {
    var t, tail := ts[0], Serialize(ts[1..]);
    assert Serialize(ts) == t.Encoded() + tail;
    hide Serialize, Token.Encoded;
    HeadOfToken(t, tail + rest);
    Assoc(t.Encoded(), tail, rest);
  }

  // ---- the statistics

  /** The numbers of bytes that the literal tokens announce. */
  function LiteralSizes(ts: seq<Token>): seq<nat> {
    if ts == [] then []
    else (match ts[0] case Literal(bytes) => [|bytes|] case Match(_, _) => []) + LiteralSizes(ts[1..])
  }

  function MatchLengths(ts: seq<Token>): seq<nat> {
    if ts == [] then []
    else (match ts[0] case Literal(_) => [] case Match(length, _) => [length]) + MatchLengths(ts[1..])
  }

  function MatchSlots(ts: seq<Token>): seq<nat> {
    if ts == [] then []
    else (match ts[0] case Literal(_) => [] case Match(_, slot) => [slot]) + MatchSlots(ts[1..])
  }

  /** A literal token is counted as soon as its count byte is read. */
  function LiteralBegun(rest: seq<Byte>): seq<nat> {
    if rest != [] && rest[0] < 128 then [rest[0] + 1] else []
  }

  /** A match token is counted when both its bytes are read. */
  predicate MatchBegun(rest: seq<Byte>) {
    |rest| >= 2 && rest[0] >= 128
  }

  function LengthBegun(rest: seq<Byte>): seq<nat> {
    if MatchBegun(rest) then [rest[0] as int - 128 + rest[1] as int / 64 * 128 + 3] else []
  }

  function SlotBegun(rest: seq<Byte>): seq<nat> {
    if MatchBegun(rest) then [rest[1] as int % 64] else []
  }

  /** The greatest number in the list, 0 if it is empty. */
  predicate IsGreatest(m: nat, s: seq<nat>) {
    if s == [] then m == 0 else m in s && forall x <- s :: x <= m
  }

  predicate IsTally(stats: Stats, literals: seq<nat>, lengths: seq<nat>, slots: seq<nat>) {
    && stats.literals == |literals| && stats.matches == |lengths| == |slots|
    && IsGreatest(stats.maxLiteral, literals)
    && IsGreatest(stats.maxMatch, lengths) && IsGreatest(stats.maxIndex, slots)
  }

  lemma GreatestOfMore(m: nat, s: seq<nat>, x: nat)
    requires IsGreatest(m, s)
    ensures IsGreatest(Max(m, x), s + [x])
  {
    assert (s + [x])[|s|] == x;
    assert forall y <- s :: y in s + [x];
  }

  lemma TallyLiteral(stats: Stats, literals: seq<nat>, lengths: seq<nat>, slots: seq<nat>, count: nat)
    requires IsTally(stats, literals, lengths, slots)
    ensures IsTally(stats.AddLiteral(count), literals + [count], lengths, slots)
  {
    hide IsGreatest;
    GreatestOfMore(stats.maxLiteral, literals, count);
  }

  lemma TallyMatch(stats: Stats, literals: seq<nat>, lengths: seq<nat>, slots: seq<nat>, length: nat, slot: nat)
    requires IsTally(stats, literals, lengths, slots)
    ensures IsTally(stats.AddMatch(length, slot), literals, lengths + [length], slots + [slot])
  {
    hide IsGreatest;
    GreatestOfMore(stats.maxMatch, lengths, length);
    GreatestOfMore(stats.maxIndex, slots, slot);
  }

  lemma {:induction false} TallyAll(ts: seq<Token>, stats: Stats,
                                    literals: seq<nat>, lengths: seq<nat>, slots: seq<nat>)
    requires IsTally(stats, literals, lengths, slots)
    ensures IsTally(stats.AddAll(ts), literals + LiteralSizes(ts), lengths + MatchLengths(ts), slots + MatchSlots(ts))
    decreases |ts|
  {
    hide IsTally, Stats.AddLiteral, Stats.AddMatch;
    if ts == [] {
      assert literals + [] == literals && lengths + [] == lengths && slots + [] == slots;
    } else {
      var a, b, c := LiteralSizes(ts[1..]), MatchLengths(ts[1..]), MatchSlots(ts[1..]);
      match ts[0]
      case Literal(bytes) =>
        TallyLiteral(stats, literals, lengths, slots, |bytes|);
        TallyAll(ts[1..], stats.AddLiteral(|bytes|), literals + [|bytes|], lengths, slots);
        Assoc(literals, [|bytes|], a);
        assert [] + b == b && [] + c == c;
      case Match(length, slot) =>
        TallyMatch(stats, literals, lengths, slots, length, slot);
        TallyAll(ts[1..], stats.AddMatch(length, slot), literals, lengths + [length], slots + [slot]);
        Assoc(lengths, [length], b);
        Assoc(slots, [slot], c);
        assert [] + a == a;
    }
  }

  /** The statistics count the tokens decoded and the one the stream stopped at. */
  ghost predicate IsTallyOf(stats: Stats, ts: seq<Token>, rest: seq<Byte>) {
    IsTally(stats, LiteralSizes(ts) + LiteralBegun(rest), MatchLengths(ts) + LengthBegun(rest),
            MatchSlots(ts) + SlotBegun(rest))
  }

  lemma TallyMeaning(ts: seq<Token>, rest: seq<Byte>)
    ensures IsTallyOf(FrontStats(NO_STATS.AddAll(ts), rest), ts, rest)
  {
    hide IsTally, Stats.AddAll, Stats.AddLiteral, Stats.AddMatch, LiteralSizes, MatchLengths, MatchSlots;
    var a, b, c, stats := LiteralSizes(ts), MatchLengths(ts), MatchSlots(ts), NO_STATS.AddAll(ts);
    NothingTallied();
    TallyAll(ts, NO_STATS, [], [], []);
    assert [] + a == a == a + [] && [] + b == b == b + [] && [] + c == c == c + [];
    if LiteralBegun(rest) != [] {
      TallyLiteral(stats, a, b, c, rest[0] + 1);
    } else if MatchBegun(rest) {
      var t := Head(rest).value;
      TallyMatch(stats, a, b, c, t.length, t.slot);
    }
  }

  lemma NothingTallied()
    ensures IsTally(NO_STATS, [], [], [])
  {
  }

  lemma TallyIsUnique(s: Stats, t: Stats, ts: seq<Token>, rest: seq<Byte>)
    requires IsTallyOf(s, ts, rest) && IsTallyOf(t, ts, rest)
    ensures s == t
  {
    hide LiteralSizes, MatchLengths, MatchSlots, LiteralBegun, LengthBegun, SlotBegun;
  }

  // ---- the whole result

  /** What is known of a payload from its header and its last four bytes. */
  function Known(p: seq<Byte>, le: bool, streamLen: nat, stats: Stats): Info
    requires |p| >= 140
  {
    Info(le, Get32(p, 4, le), ReadTable(p, le), Get32(p, |p| - 4, false), Sum(p[..|p| - 4]) % 4294967296,
         streamLen, stats)
  }

  /** If the raw bytes are there and fit, tokens are decoded up to the first that cannot be; then the sum decides. */
  ghost predicate IsStreamDecoding(p: seq<Byte>, cap: nat, d: Decoding, le: bool, raw: nat,
                                   ts: seq<Token>, rest: seq<Byte>)
    requires 140 + raw <= |p|
  {
    var status := if rest == [] then Ok else d.status;
    && IsSplit(p[136 + raw..|p| - 4], ReadTable(p, le), cap, p[136..136 + raw], ts, rest, d.out, status)
    && d.info == Known(p, le, |p| - 140 - raw, d.info.stats) && IsTallyOf(d.info.stats, ts, rest)
    && (rest == [] ==> d.status == if d.info.checksumStored == d.info.checksumComputed then Ok else EChecksum)
  }

  /** The result of decoding `p` into `cap` bytes, error by error in the order in which they are found. */
  ghost predicate IsDecoding(p: seq<Byte>, cap: nat, d: Decoding, ts: seq<Token>, rest: seq<Byte>) {
    if |p| < 140 then d == Decoding(ETruncated, [], NO_INFO)
    else if p[..4] != [0xEF, 0xCD, 0xAB, 0x09] && p[..4] != [0x09, 0xAB, 0xCD, 0xEF] then
      d == Decoding(EMagic, [], NO_INFO)
    else
      var le := p[0] == 0xEF;
      var raw := Get32(p, 4, le);
      if raw > 128 then d == Decoding(ERawLen, [], Info(le, raw, ReadTable(p, le), 0, 0, 0, NO_STATS))
      else if 140 + raw > |p| then d == Decoding(ETruncated, [], Info(le, raw, ReadTable(p, le), 0, 0, 0, NO_STATS))
      else if raw > cap then d == Decoding(EOverflow, [], Known(p, le, 0, NO_STATS))
      else IsStreamDecoding(p, cap, d, le, raw, ts, rest)
  }

  lemma MagicBytes(p: seq<Byte>, le: bool)
    requires |p| >= 4
    ensures Get32(p, 0, le) == MAGIC <==> p[..4] == if le then [0xEF, 0xCD, 0xAB, 0x09] else [0x09, 0xAB, 0xCD, 0xEF]
  {
    assert p[..4] == p[0..4];
    assert Put32(MAGIC, le) == if le then [0xEF, 0xCD, 0xAB, 0x09] else [0x09, 0xAB, 0xCD, 0xEF];
    PutGet32(p, 0, le);
    if p[0..4] == Put32(MAGIC, le) {
      GetPut32(p, 0, MAGIC, le);
    }
  }

  lemma DecodingExists(p: seq<Byte>, cap: nat) returns (ts: seq<Token>, rest: seq<Byte>)
    ensures IsDecoding(p, cap, Decoded(p, cap), ts, rest)
  {
    hide Get32, ReadTable, Sum, RunStream, IsStreamDecoding;
    ts, rest := [], [];
    if |p| >= 140 {
      MagicBytes(p, true);
      MagicBytes(p, false);
      var le := Get32(p, 0, true) == MAGIC;
      var raw := Get32(p, 4, le);
      if (le || Get32(p, 0, false) == MAGIC) && raw <= 128 && 140 + raw <= |p| && raw <= cap {
        ts, rest := StreamDecodingExists(p, cap, le, raw);
      }
    }
  }

  lemma StreamDecodingExists(p: seq<Byte>, cap: nat, le: bool, raw: nat) returns (ts: seq<Token>, rest: seq<Byte>)
    requires 140 + raw <= |p| && raw == Get32(p, 4, le) && raw <= 128 && raw <= cap
    ensures IsStreamDecoding(p, cap, DecodedAs(p, cap, le), le, raw, ts, rest)
  {
    hide Get32, ReadTable, Sum, RunStream, IsStop, Obstacle, IsTallyOf, FrontStats, Exec, Serialize;
    var table, head := ReadTable(p, le), p[136..136 + raw];
    ts, rest := StopsAtFirstObstacle(p[136 + raw..|p| - 4], table, cap, head, NO_STATS);
    var run := RunStream(p[136 + raw..|p| - 4], table, cap, head, NO_STATS);
    TallyMeaning(ts, rest);
    if rest != [] {
      StopMeaning(rest, table, run.out, cap, run.status);
    }
  }

  lemma DecodingIsUnique(p: seq<Byte>, cap: nat, d: Decoding, ts: seq<Token>, rest: seq<Byte>,
                         e: Decoding, us: seq<Token>, tail: seq<Byte>)
    requires IsDecoding(p, cap, d, ts, rest) && IsDecoding(p, cap, e, us, tail)
    ensures d == e
  {
    hide Get32, ReadTable, Sum, IsSplit, IsTallyOf;
    if |p| >= 140 && (p[..4] == [0xEF, 0xCD, 0xAB, 0x09] || p[..4] == [0x09, 0xAB, 0xCD, 0xEF]) {
      var le := p[0] == 0xEF;
      var raw := Get32(p, 4, le);
      if raw <= 128 && 140 + raw <= |p| && raw <= cap {
        SplitIsUnique(p[136 + raw..|p| - 4], ReadTable(p, le), cap, p[136..136 + raw],
                      ts, rest, d.out, if rest == [] then Ok else d.status,
                      us, tail, e.out, if tail == [] then Ok else e.status);
        TallyIsUnique(d.info.stats, e.info.stats, ts, rest);
      }
    }
  }

  /** Decoding yields what IsDecoding describes, on every byte string and for every buffer, and nothing else. */
  lemma DecodedMeaning(p: seq<Byte>, cap: nat, d: Decoding)
    ensures d == Decoded(p, cap) <==> exists ts, rest :: IsDecoding(p, cap, d, ts, rest)
  {
    hide *;
    var ts0, rest0 := DecodingExists(p, cap);
    forall ts, rest | IsDecoding(p, cap, d, ts, rest)
      ensures d == Decoded(p, cap)
    {
      DecodingIsUnique(p, cap, d, ts, rest, Decoded(p, cap), ts0, rest0);
    }
  }
}
