/** The fixed-size records of a job, big-endian. */
module Records {
  import opened Bytes

  const REC_PAGE: Byte := 0x00
  const REC_END_PAGE: Byte := 0x01
  const REC_END_JOB: Byte := 0x09
  const REC_BAND: Byte := 0x0C
  const PAGE_HEADER_LEN := 17
  const BAND_HEADER_LEN := 11
  const END_PAGE_LEN := 3
  const COMPRESSION_0X11: Byte := 0x11

  datatype PageHeader = PageHeader(
    yRes100: Byte, copies: U16, paperCode: Byte, paperWidth: U16, paperHeight: U16, feeder: Byte,
    reservedA: Byte, duplex: Byte, tumble: Byte, reservedD: Byte, qpdlVersion: Byte, reservedF: Byte, xRes100: Byte)

  datatype BandHeader = BandHeader(number: Byte, width: U16, height: U16, compression: Byte, length: U32)

  datatype Parsed<T> = Record(record: T) | Refused(status: Status)

  function WritePageHeader(h: PageHeader): (s: seq<Byte>)
    ensures |s| == PAGE_HEADER_LEN
  {
    [REC_PAGE, h.yRes100] + Put16(h.copies, false) + [h.paperCode] + Put16(h.paperWidth, false)
    + Put16(h.paperHeight, false)
    + [h.feeder, h.reservedA, h.duplex, h.tumble, h.reservedD, h.qpdlVersion, h.reservedF, h.xRes100]
  }

  function ParsePageHeader(p: seq<Byte>): Parsed<PageHeader> {
    if |p| < PAGE_HEADER_LEN then Refused(ETruncated)
    else if p[0] != REC_PAGE then Refused(ERecord)
    else Record(PageHeader(p[1], Get16(p, 2, false), p[4], Get16(p, 5, false), Get16(p, 7, false), p[9], p[10], p[11],
                           p[12], p[13], p[14], p[15], p[16]))
  }

  function WriteBandHeader(h: BandHeader): (s: seq<Byte>)
    ensures |s| == BAND_HEADER_LEN
  {
    [REC_BAND, h.number] + Put16(h.width, false) + Put16(h.height, false) + [h.compression] + Put32(h.length, false)
  }

  function ParseBandHeader(p: seq<Byte>): Parsed<BandHeader> {
    if |p| < BAND_HEADER_LEN then Refused(ETruncated)
    else if p[0] != REC_BAND then Refused(ERecord)
    else Record(BandHeader(p[1], Get16(p, 2, false), Get16(p, 4, false), p[6], Get32(p, 7, false)))
  }

  function WriteEndPage(copies: U16): (s: seq<Byte>)
    ensures |s| == END_PAGE_LEN
  {
    [REC_END_PAGE] + Put16(copies, false)
  }

  /** Parsing is the inverse of writing: a header is read exactly where its own bytes stand. */
  lemma PageHeaderExact(p: seq<Byte>, h: PageHeader)
    ensures ParsePageHeader(p) == Record(h) <==> WritePageHeader(h) <= p
  {
    hide Put16, Get16;
    var s := WritePageHeader(h);
    if s <= p {
      assert p[..PAGE_HEADER_LEN] == s;
      assert forall i :: 0 <= i < PAGE_HEADER_LEN ==> p[i] == s[i];
      assert p[2..4] == s[2..4] && p[5..7] == s[5..7] && p[7..9] == s[7..9];
      GetPut16(p, 2, h.copies, false);
      GetPut16(p, 5, h.paperWidth, false);
      GetPut16(p, 7, h.paperHeight, false);
    }
    if ParsePageHeader(p) == Record(h) {
      PutGet16(p, 2, false);
      PutGet16(p, 5, false);
      PutGet16(p, 7, false);
      assert s == p[..PAGE_HEADER_LEN];
    }
  }

  lemma BandHeaderExact(p: seq<Byte>, h: BandHeader)
    ensures ParseBandHeader(p) == Record(h) <==> WriteBandHeader(h) <= p
  {
    hide Put16, Get16, Put32, Get32;
    var s := WriteBandHeader(h);
    if s <= p {
      assert p[..BAND_HEADER_LEN] == s;
      assert forall i :: 0 <= i < BAND_HEADER_LEN ==> p[i] == s[i];
      assert p[2..4] == s[2..4] && p[4..6] == s[4..6] && p[7..11] == s[7..11];
      GetPut16(p, 2, h.width, false);
      GetPut16(p, 4, h.height, false);
      GetPut32(p, 7, h.length, false);
    }
    if ParseBandHeader(p) == Record(h) {
      PutGet16(p, 2, false);
      PutGet16(p, 4, false);
      PutGet32(p, 7, false);
      assert s == p[..BAND_HEADER_LEN];
    }
  }

  // ---- byte by byte

  /** Two bytes of `p`, high byte first, hold `v`. */
  predicate Big16At(p: seq<Byte>, i: nat, v: int)
    requires i + 2 <= |p|
  {
    p[i] as int * 256 + p[i + 1] == v
  }

  lemma WholeOf(s: seq<Byte>, p: seq<Byte>)
    requires |s| == |p|
    ensures s <= p <==> p == s
  {
  }

  /** Where each field of a page header stands; 16-bit fields are stored high byte first. */
  lemma PageHeaderLayout(p: seq<Byte>, h: PageHeader)
    ensures p == WritePageHeader(h) <==>
              && |p| == 17 && p[0] == 0x00 && p[1] == h.yRes100 && Big16At(p, 2, h.copies) && p[4] == h.paperCode
              && Big16At(p, 5, h.paperWidth) && Big16At(p, 7, h.paperHeight) && p[9] == h.feeder
              && p[10] == h.reservedA && p[11] == h.duplex && p[12] == h.tumble && p[13] == h.reservedD
              && p[14] == h.qpdlVersion && p[15] == h.reservedF && p[16] == h.xRes100
  {
    hide WritePageHeader;
    PageHeaderExact(p, h);
    if |p| == 17 {
      WholeOf(WritePageHeader(h), p);
    }
  }

  lemma BandHeaderLayout(p: seq<Byte>, h: BandHeader)
    ensures p == WriteBandHeader(h) <==>
              && |p| == 11 && p[0] == 0x0C && p[1] == h.number && Big16At(p, 2, h.width) && Big16At(p, 4, h.height)
              && p[6] == h.compression
              && p[7] as int * 0x100_0000 + p[8] as int * 0x1_0000 + p[9] as int * 0x100 + p[10] == h.length
  {
    hide WriteBandHeader;
    BandHeaderExact(p, h);
    if |p| == 11 {
      WholeOf(WriteBandHeader(h), p);
    }
  }

  lemma EndPageLayout(p: seq<Byte>, copies: U16)
    ensures p == WriteEndPage(copies) <==> |p| == 3 && p[0] == 0x01 && Big16At(p, 1, copies)
  {
    if |p| == 3 {
      PutGet16(p, 1, false);
      assert p == [p[0]] + p[1..3];
    }
  }
}
