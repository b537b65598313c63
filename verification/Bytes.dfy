/** Bytes, fixed-width unsigned integers and their two byte orders. */
module Bytes {
  type Byte = b: int | 0 <= b < 0x100
  type U16 = v: int | 0 <= v < 0x1_0000
  type U32 = v: int | 0 <= v < 0x1_0000_0000

  const RANGE32: int := 0x1_0000_0000

  datatype Option<+T> = None | Some(value: T)

  /** The result codes of the QPDL functions (include/m2022/qpdl.h). */
  datatype Status =
    | Ok | ETruncated | EMagic | ERawLen | EOffset | EOverflow | EChecksum
    | ERecord | ENoPjl | EInval | ERange | EState

  function Put16(v: U16, le: bool): (s: seq<Byte>)
    ensures |s| == 2
  {
    if le then [v % 0x100, v / 0x100] else [v / 0x100, v % 0x100]
  }

  function Put32(v: U32, le: bool): (s: seq<Byte>)
    ensures |s| == 4
  {
    var b0, b1, b2, b3 := v % 0x100, v / 0x100 % 0x100, v / 0x1_0000 % 0x100, v / 0x100_0000;
    if le then [b0, b1, b2, b3] else [b3, b2, b1, b0]
  }

  function Get16(p: seq<Byte>, i: nat, le: bool): U16
    requires i + 2 <= |p|
  {
    var a: int, b: int := p[i], p[i + 1];
    if le then b * 0x100 + a else a * 0x100 + b
  }

  function Get32(p: seq<Byte>, i: nat, le: bool): U32
    requires i + 4 <= |p|
  {
    var a: int, b: int, c: int, d: int := p[i], p[i + 1], p[i + 2], p[i + 3];
    if le then d * 0x100_0000 + c * 0x1_0000 + b * 0x100 + a
    else a * 0x100_0000 + b * 0x1_0000 + c * 0x100 + d
  }

  /** Reading what was written gives the value back, in either byte order and anywhere. */
  lemma GetPut16(p: seq<Byte>, i: nat, v: U16, le: bool)
    requires i + 2 <= |p| && p[i..i + 2] == Put16(v, le)
    ensures Get16(p, i, le) == v
  {
    assert p[i] == p[i..i + 2][0] && p[i + 1] == p[i..i + 2][1];
  }

  lemma GetPut32(p: seq<Byte>, i: nat, v: U32, le: bool)
    requires i + 4 <= |p| && p[i..i + 4] == Put32(v, le)
    ensures Get32(p, i, le) == v
  {
    var q := p[i..i + 4];
    assert p[i] == q[0] && p[i + 1] == q[1] && p[i + 2] == q[2] && p[i + 3] == q[3];
    assert v / 0x100 / 0x100 == v / 0x1_0000 && v / 0x1_0000 / 0x100 == v / 0x100_0000;
  }

  /** Writing what was read gives the bytes back. */
  lemma PutGet16(p: seq<Byte>, i: nat, le: bool)
    requires i + 2 <= |p|
    ensures Put16(Get16(p, i, le), le) == p[i..i + 2]
  {
  }

  lemma PutGet32(p: seq<Byte>, i: nat, le: bool)
    requires i + 4 <= |p|
    ensures Put32(Get32(p, i, le), le) == p[i..i + 4]
  {
    if le {
      Digits(p[i], p[i + 1], p[i + 2], p[i + 3]);
    } else {
      Digits(p[i + 3], p[i + 2], p[i + 1], p[i]);
    }
  }

  lemma Digits(a: Byte, b: Byte, c: Byte, d: Byte)
    ensures var v := d as int * 0x100_0000 + c as int * 0x1_0000 + b as int * 0x100 + a;
            v % 0x100 == a && v / 0x100 % 0x100 == b && v / 0x1_0000 % 0x100 == c && v / 0x100_0000 == d
  {
    var v := d as int * 0x100_0000 + c as int * 0x1_0000 + b as int * 0x100 + a;
    assert v / 0x1_0000 == d as int * 0x100 + c;
    assert v / 0x100 == d as int * 0x1_0000 + c as int * 0x100 + b;
  }

  /** The sum a checksum is taken from, before it wraps. */
  function Sum(s: seq<Byte>): nat {
    if s == [] then 0 else Sum(s[..|s| - 1]) + s[|s| - 1]
  }

  lemma {:induction false} SumAppend(a: seq<Byte>, b: seq<Byte>)
    ensures Sum(a + b) == Sum(a) + Sum(b)
  {
    if b == [] {
      assert a + b == a;
    } else {
      assert (a + b)[..|a + b| - 1] == a + b[..|b| - 1];
      SumAppend(a, b[..|b| - 1]);
    }
  }

  /** The bytes of a text of printable characters. */
  function Ascii(text: string): (s: seq<Byte>)
    ensures |s| == |text|
  {
    seq(|text|, i requires 0 <= i < |text| => if 0x20 <= text[i] as int < 0x7F then text[i] as int else 0x3F)
  }

  /** memcpy into the buffer at `pos`. */
  method CopyBytes(out: array<Byte>, pos: nat, bytes: seq<Byte>)
    requires pos + |bytes| <= out.Length
    modifies out
    ensures out[..pos + |bytes|] == old(out[..pos]) + bytes
    ensures forall k :: pos + |bytes| <= k < out.Length ==> out[k] == old(out[k])
  {
    forall j | 0 <= j < |bytes| {
      out[pos + j] := bytes[j];
    }
  }
}
