// The Telink serialisers as the firmware runs them: a zeroed buffer and a
// write pointer that advances field by field, with `memcpy` for stored
// values and `ZB_LEBESWAP` reversing them in place. Each is proved to
// produce exactly the bytes the corresponding function of module Zcl
// describes.
module ZclTx {
  import opened Wrappers
  import opened Bytes
  import opened ZbhciConstants
  import opened Zbhci
  import ZbhciWire
  import Zcl

  /** Nothing has been written at or past `pos`: the buffer's `memset` zeros are still there. */
  ghost predicate ZeroFrom(buf: array<Byte>, pos: nat)
    reads buf
  {
    forall k | pos <= k < buf.Length :: buf[k] == 0
  }

  /** `*pBuf++ = ...` for each byte of `b`, or `memcpy(pBuf, b, |b|); pBuf += |b|`. */
  method PutBytes(buf: array<Byte>, off: nat, b: seq<Byte>) returns (next: nat)
    requires off + |b| <= buf.Length && ZeroFrom(buf, off)
    modifies buf
    ensures next == off + |b|
    ensures buf[..next] == old(buf[..off]) + b
    ensures ZeroFrom(buf, next)
  {
    var i := 0;
    while i < |b|
      invariant 0 <= i <= |b|
      invariant buf[..off] == old(buf[..off])
      invariant buf[off..off + i] == b[..i]
      invariant ZeroFrom(buf, off + i)
    {
      buf[off + i] := b[i];
      i := i + 1;
    }
    next := off + |b|;
    assert buf[..next] == buf[..off] + buf[off..next];
  }

  /** `ZB_LEBESWAP(p, len)`: the `len` bytes at `p` reversed in place. */
  method LeBeSwap(buf: array<Byte>, off: nat, len: nat)
    requires off + len <= buf.Length
    modifies buf
    ensures buf[..off] == old(buf[..off])
    ensures buf[off..off + len] == Reverse(old(buf[off..off + len]))
    ensures buf[off + len..] == old(buf[off + len..])
  {
    ghost var s := buf[off..off + len];
    SwapEnds(buf, off, len);
    forall k | 0 <= k < len
      ensures buf[off..off + len][k] == Reverse(s)[k]
    {
      assert buf[off + k] == s[len - 1 - k];
    }
    assert buf[off..off + len] == Reverse(s);
    assert buf[..off] == old(buf[..off]);
    assert buf[off + len..] == old(buf[off + len..]);
  }

  /** The swapping loop: byte `j` of the range takes the byte mirrored about its middle. */
  method SwapEnds(buf: array<Byte>, off: nat, len: nat)
    requires off + len <= buf.Length
    modifies buf
    ensures forall j | 0 <= j < buf.Length && (j < off || off + len <= j) :: buf[j] == old(buf[j])
    ensures forall j | off <= j < off + len :: buf[j] == old(buf[2 * off + len - 1 - j])
  {
    var lo, hi := off, off + len;
    while lo + 1 < hi
      invariant off <= lo <= hi <= off + len && lo - off == off + len - hi
      invariant forall j | 0 <= j < buf.Length && (j < off || off + len <= j) :: buf[j] == old(buf[j])
      invariant forall j | off <= j < lo :: buf[j] == old(buf[2 * off + len - 1 - j])
      invariant forall j | hi <= j < off + len :: buf[j] == old(buf[2 * off + len - 1 - j])
      invariant forall j | lo <= j < hi :: buf[j] == old(buf[j])
    {
      buf[lo], buf[hi - 1] := buf[hi - 1], buf[lo];
      lo, hi := lo + 1, hi - 1;
    }
    forall j | lo <= j < hi
      ensures buf[j] == old(buf[2 * off + len - 1 - j])
    {
      assert j == 2 * off + len - 1 - j;
    }
  }

  /** Source address, endpoints, sequence number and cluster, the first 7 bytes of every response. */
  method PutHeader(buf: array<Byte>, h: CommandHeader) returns (next: nat)
    requires 7 <= buf.Length && ZeroFrom(buf, 0)
    modifies buf
    ensures next == 7 && buf[..next] == ZbhciWire.CommandHeaderBytes(h)
    ensures ZeroFrom(buf, next)
  {
    Zcl.HiLo(h.sourceAddress);
    Zcl.HiLo(h.clusterId);
    next := PutBytes(buf, 0, [Hi(h.sourceAddress), Lo(h.sourceAddress)]);
    next := PutBytes(buf, next, [h.sourceEndpoint, h.destinationEndpoint, h.sequenceNumber]);
    next := PutBytes(buf, next, [Hi(h.clusterId), Lo(h.clusterId)]);
  }

  /** A stored value: copied, then reversed unless it is a string or a structure. */
  method PutValue(buf: array<Byte>, off: nat, dataType: Byte, data: seq<Byte>) returns (next: nat)
    requires off + |data| <= buf.Length && ZeroFrom(buf, off)
    modifies buf
    ensures next == off + |data|
    ensures buf[..next] == old(buf[..off]) + Zcl.WireValue(dataType, data)
    ensures ZeroFrom(buf, next)
  {
    next := PutBytes(buf, off, data);
    if Zcl.Swapped(dataType) {
      ghost var before := buf[..next];
      LeBeSwap(buf, off, |data|);
      assert buf[..off] == before[..off];
      assert buf[off..next] == Reverse(data) by {
        assert before[off..next] == data;
      }
      assert buf[..next] == buf[..off] + buf[off..next];
    }
  }

  /** One record of the read-attributes response loop. */
  method PutReadRecord(buf: array<Byte>, off: nat, r: Zcl.ReadRecord) returns (next: nat)
    requires off + |Zcl.ReadRecordBytes(r)| <= buf.Length && ZeroFrom(buf, off)
    modifies buf
    ensures next == off + |Zcl.ReadRecordBytes(r)|
    ensures buf[..next] == old(buf[..off]) + Zcl.ReadRecordBytes(r)
    ensures ZeroFrom(buf, next)
  {
    next := PutBytes(buf, off, [Hi(r.attrId), Lo(r.attrId), r.status]);
    if r.status == SUCCESS {
      next := PutBytes(buf, next, [r.dataType]);
      next := PutValue(buf, next, r.dataType, r.data);
    }
  }

  /** The step of a record loop: one more part appended, still within the whole. */
  lemma ConcatStep(parts: seq<seq<Byte>>, i: nat)
    requires i < |parts|
    ensures ZbhciWire.Concat(parts[..i + 1]) == ZbhciWire.Concat(parts[..i]) + parts[i]
    ensures |ZbhciWire.Concat(parts[..i + 1])| <= |ZbhciWire.Concat(parts)|
  {
    assert parts[..i + 1][..i] == parts[..i];
    ConcatPrefix(parts, i + 1);
  }

  /** A prefix of the parts concatenates to no more than all of them. */
  lemma {:induction false} ConcatPrefix(parts: seq<seq<Byte>>, j: nat)
    requires j <= |parts|
    ensures |ZbhciWire.Concat(parts[..j])| <= |ZbhciWire.Concat(parts)|
    decreases |parts|
  {
    if j < |parts| {
      var n := |parts|;
      assert parts[..n - 1][..j] == parts[..j];
      ConcatPrefix(parts[..n - 1], j);
    } else {
      assert parts[..j] == parts;
    }
  }

  /** The loop over the read records. */
  method PutReadRecords(buf: array<Byte>, off: nat, rs: seq<Zcl.ReadRecord>) returns (next: nat)
    requires off + |ZbhciWire.Concat(Zcl.ReadChunks(rs))| <= buf.Length && ZeroFrom(buf, off)
    modifies buf
    ensures next == off + |ZbhciWire.Concat(Zcl.ReadChunks(rs))|
    ensures buf[..next] == old(buf[..off]) + ZbhciWire.Concat(Zcl.ReadChunks(rs))
    ensures ZeroFrom(buf, next)
  {
    var parts := Zcl.ReadChunks(rs);
    ghost var start := buf[..off];
    next := off;
    var i := 0;
    while i < |rs|
      invariant 0 <= i <= |rs|
      invariant next == off + |ZbhciWire.Concat(parts[..i])| <= buf.Length
      invariant buf[..next] == start + ZbhciWire.Concat(parts[..i])
      invariant ZeroFrom(buf, next)
    {
      next := PutReadStep(buf, next, parts, i, rs[i], start);
      i := i + 1;
    }
    assert parts[..i] == parts;
  }

  /** One turn of that loop: record `i` appended to what is written. */
  method PutReadStep(buf: array<Byte>, off: nat, parts: seq<seq<Byte>>, i: nat, r: Zcl.ReadRecord,
                        ghost start: seq<Byte>) returns (next: nat)
    requires i < |parts| && parts[i] == Zcl.ReadRecordBytes(r)
    requires off == |start| + |ZbhciWire.Concat(parts[..i])| <= buf.Length
    requires |start| + |ZbhciWire.Concat(parts)| <= buf.Length
    requires buf[..off] == start + ZbhciWire.Concat(parts[..i]) && ZeroFrom(buf, off)
    modifies buf
    ensures next == |start| + |ZbhciWire.Concat(parts[..i + 1])| <= buf.Length
    ensures buf[..next] == start + ZbhciWire.Concat(parts[..i + 1])
    ensures ZeroFrom(buf, next)
  {
    ConcatStep(parts, i);
    ghost var written := buf[..off];
    next := PutReadRecord(buf, off, r);
    assert buf[..next] == written + parts[i];
  }

  /**
   * `*_zclReadRspCmd` with a buffer the size of the response (the firmware's
   * is a fixed 64 bytes, see Zcl.ReadRspOverruns): what is handed to
   * `zbhciTx` is the response.
   */
  method ReadRspCmd(h: CommandHeader, rs: seq<Zcl.ReadRecord>) returns (frame: seq<Byte>)
    requires |rs| < 0x100
    ensures frame == Zcl.ReadRsp(h, rs)
  {
    var buf := new Byte[|Zcl.ReadRsp(h, rs)|](_ => 0);
    var off := PutHeader(buf, h);
    off := PutBytes(buf, off, [|rs| as Byte]);
    off := PutReadRecords(buf, off, rs);
    frame := buf[..off];
  }

  /** Records of fixed bytes one after another: `*pBuf++` for each byte of each. */
  method PutParts(buf: array<Byte>, off: nat, parts: seq<seq<Byte>>) returns (next: nat)
    requires off + |ZbhciWire.Concat(parts)| <= buf.Length && ZeroFrom(buf, off)
    modifies buf
    ensures next == off + |ZbhciWire.Concat(parts)|
    ensures buf[..next] == old(buf[..off]) + ZbhciWire.Concat(parts)
    ensures ZeroFrom(buf, next)
  {
    ghost var start := buf[..off];
    next := off;
    var i := 0;
    while i < |parts|
      invariant 0 <= i <= |parts|
      invariant next == off + |ZbhciWire.Concat(parts[..i])| <= buf.Length
      invariant buf[..next] == start + ZbhciWire.Concat(parts[..i])
      invariant ZeroFrom(buf, next)
    {
      ConcatStep(parts, i);
      ghost var written := buf[..next];
      next := PutBytes(buf, next, parts[i]);
      assert buf[..next] == written + parts[i];
      i := i + 1;
    }
    assert parts[..i] == parts;
  }

  /**
   * `*_zclWriteRspCmd`: the one-byte shortcut or a (status, identifier)
   * triple per record, in a buffer the size of the response (the firmware's
   * is a fixed 64 bytes, see Zcl.WriteRspOverruns).
   */
  method WriteRspCmd(h: CommandHeader, dataLen: nat, ws: seq<Zcl.WriteRecord>) returns (frame: seq<Byte>)
    requires dataLen == 1 ==> |ws| >= 1
    ensures frame == Zcl.WriteRsp(h, dataLen, ws)
  {
    var buf := new Byte[|Zcl.WriteRsp(h, dataLen, ws)|](_ => 0);
    var off := PutHeader(buf, h);
    if dataLen == 1 {
      off := PutBytes(buf, off, [ws[0].status, 0xFF, 0xFF]);
    } else {
      off := PutParts(buf, off, Zcl.WriteChunks(ws));
    }
    frame := buf[..off];
  }

  /**
   * `*_zclCfgReportRspCmd`: header, count and a (status, direction,
   * identifier) record each, in a buffer the size of the response (the
   * firmware's is a fixed 64 bytes, see Zcl.CfgReportRspOverruns).
   */
  method CfgReportRspCmd(h: CommandHeader, cs: seq<Zcl.CfgStatus>) returns (frame: seq<Byte>)
    requires |cs| < 0x100
    ensures frame == Zcl.CfgReportRsp(h, cs)
  {
    var buf := new Byte[|Zcl.CfgReportRsp(h, cs)|](_ => 0);
    var off := PutHeader(buf, h);
    off := PutBytes(buf, off, [|cs| as Byte]);
    off := PutParts(buf, off, Zcl.CfgStatusChunks(cs));
    frame := buf[..off];
  }

  /** One record of the read-report-configuration loop, with its two branches. */
  method PutCfgReadRecord(buf: array<Byte>, off: nat, c: Zcl.CfgReadRecord) returns (next: nat)
    requires off + |Zcl.CfgReadRecordBytes(c)| <= buf.Length && ZeroFrom(buf, off)
    modifies buf
    ensures next == off + |Zcl.CfgReadRecordBytes(c)|
    ensures buf[..next] == old(buf[..off]) + Zcl.CfgReadRecordBytes(c)
    ensures ZeroFrom(buf, next)
  {
    ghost var start := buf[..off];
    next := PutBytes(buf, off, [c.status, c.direction, Hi(c.attrId), Lo(c.attrId)]);
    ghost var head := buf[..next];
    if c.direction == Zcl.SendAttrReports {
      next := PutBytes(buf, next, [c.dataType, Hi(c.minReportInt), Lo(c.minReportInt), Hi(c.maxReportInt), Lo(c.maxReportInt)]);
      if c.analog {
        next := PutBytes(buf, next, c.reportableChange);
      } else {
        assert buf[..next] == buf[..next] + [];
      }
    } else {
      next := PutBytes(buf, next, [Hi(c.timeoutPeriod), Lo(c.timeoutPeriod)]);
    }
  }

  /** The loop over the read-report-configuration records. */
  method PutCfgReadRecords(buf: array<Byte>, off: nat, cs: seq<Zcl.CfgReadRecord>) returns (next: nat)
    requires off + |ZbhciWire.Concat(Zcl.CfgReadChunks(cs))| <= buf.Length && ZeroFrom(buf, off)
    modifies buf
    ensures next == off + |ZbhciWire.Concat(Zcl.CfgReadChunks(cs))|
    ensures buf[..next] == old(buf[..off]) + ZbhciWire.Concat(Zcl.CfgReadChunks(cs))
    ensures ZeroFrom(buf, next)
  {
    var parts := Zcl.CfgReadChunks(cs);
    ghost var start := buf[..off];
    next := off;
    var i := 0;
    while i < |cs|
      invariant 0 <= i <= |cs|
      invariant next == off + |ZbhciWire.Concat(parts[..i])| <= buf.Length
      invariant buf[..next] == start + ZbhciWire.Concat(parts[..i])
      invariant ZeroFrom(buf, next)
    {
      next := PutCfgReadStep(buf, next, parts, i, cs[i], start);
      i := i + 1;
    }
    assert parts[..i] == parts;
  }

  /** One turn of that loop: record `i` appended to what is written. */
  method PutCfgReadStep(buf: array<Byte>, off: nat, parts: seq<seq<Byte>>, i: nat, r: Zcl.CfgReadRecord,
                        ghost start: seq<Byte>) returns (next: nat)
    requires i < |parts| && parts[i] == Zcl.CfgReadRecordBytes(r)
    requires off == |start| + |ZbhciWire.Concat(parts[..i])| <= buf.Length
    requires |start| + |ZbhciWire.Concat(parts)| <= buf.Length
    requires buf[..off] == start + ZbhciWire.Concat(parts[..i]) && ZeroFrom(buf, off)
    modifies buf
    ensures next == |start| + |ZbhciWire.Concat(parts[..i + 1])| <= buf.Length
    ensures buf[..next] == start + ZbhciWire.Concat(parts[..i + 1])
    ensures ZeroFrom(buf, next)
  {
    ConcatStep(parts, i);
    ghost var written := buf[..off];
    next := PutCfgReadRecord(buf, off, r);
    assert buf[..next] == written + parts[i];
  }

  /**
   * `*_zclCfgReadRspCmd` with a buffer the size of the response (the
   * firmware's is a fixed 64 bytes, see Zcl.CfgReadRspOverruns).
   */
  method CfgReadRspCmd(h: CommandHeader, cs: seq<Zcl.CfgReadRecord>) returns (frame: seq<Byte>)
    requires |cs| < 0x100
    ensures frame == Zcl.CfgReadRsp(h, cs)
  {
    var buf := new Byte[|Zcl.CfgReadRsp(h, cs)|](_ => 0);
    var off := PutHeader(buf, h);
    off := PutBytes(buf, off, [|cs| as Byte]);
    off := PutCfgReadRecords(buf, off, cs);
    frame := buf[..off];
  }

  // ---------------------------------------------------------------- reports

  /** One report record: identifier, data type, and the value swapped unless a string. */
  method PutReportRecord(buf: array<Byte>, off: nat, r: Zcl.ReportRecord) returns (next: nat)
    requires off + |Zcl.ReportRecordBytes(r)| <= buf.Length && ZeroFrom(buf, off)
    modifies buf
    ensures next == off + |Zcl.ReportRecordBytes(r)|
    ensures buf[..next] == old(buf[..off]) + Zcl.ReportRecordBytes(r)
    ensures ZeroFrom(buf, next)
  {
    next := PutBytes(buf, off, [Hi(r.attrId), Lo(r.attrId), r.dataType]);
    next := PutValue(buf, next, r.dataType, r.data);
  }

  method PutReportRecords(buf: array<Byte>, off: nat, rs: seq<Zcl.ReportRecord>) returns (next: nat)
    requires off + |ZbhciWire.Concat(Zcl.ReportChunks(rs))| <= buf.Length && ZeroFrom(buf, off)
    modifies buf
    ensures next == off + |ZbhciWire.Concat(Zcl.ReportChunks(rs))|
    ensures buf[..next] == old(buf[..off]) + ZbhciWire.Concat(Zcl.ReportChunks(rs))
    ensures ZeroFrom(buf, next)
  {
    var parts := Zcl.ReportChunks(rs);
    ghost var start := buf[..off];
    next := off;
    var i := 0;
    while i < |rs|
      invariant 0 <= i <= |rs|
      invariant next == off + |ZbhciWire.Concat(parts[..i])| <= buf.Length
      invariant buf[..next] == start + ZbhciWire.Concat(parts[..i])
      invariant ZeroFrom(buf, next)
    {
      next := PutReportStep(buf, next, parts, i, rs[i], start);
      i := i + 1;
    }
    assert parts[..i] == parts;
  }

  /** One turn of that loop: record `i` appended to what is written. */
  method PutReportStep(buf: array<Byte>, off: nat, parts: seq<seq<Byte>>, i: nat, r: Zcl.ReportRecord,
                        ghost start: seq<Byte>) returns (next: nat)
    requires i < |parts| && parts[i] == Zcl.ReportRecordBytes(r)
    requires off == |start| + |ZbhciWire.Concat(parts[..i])| <= buf.Length
    requires |start| + |ZbhciWire.Concat(parts)| <= buf.Length
    requires buf[..off] == start + ZbhciWire.Concat(parts[..i]) && ZeroFrom(buf, off)
    modifies buf
    ensures next == |start| + |ZbhciWire.Concat(parts[..i + 1])| <= buf.Length
    ensures buf[..next] == start + ZbhciWire.Concat(parts[..i + 1])
    ensures ZeroFrom(buf, next)
  {
    ConcatStep(parts, i);
    ghost var written := buf[..off];
    next := PutReportRecord(buf, off, r);
    assert buf[..next] == written + parts[i];
  }

  /**
   * The firmware's length precomputation for a report, in its `u8 bufLen`:
   * every addition is reduced modulo 256.
   */
  method ReportBufLen(rs: seq<Zcl.ReportRecord>) returns (bufLen: Byte)
    ensures bufLen == Trunc8(Zcl.ReportLength(rs))
  {
    bufLen := 8;
    var i := 0;
    while i < |rs|
      invariant 0 <= i <= |rs|
      invariant bufLen == Trunc8(Zcl.ReportLength(rs[..i]))
    {
      assert rs[..i + 1][..i] == rs[..i];
      ghost var total := Zcl.ReportLength(rs[..i]);
      bufLen := Trunc8(bufLen + 3);
      bufLen := Trunc8(bufLen + |rs[i].data|);
      ModuloSum(total, 3, |rs[i].data|);
      i := i + 1;
    }
    assert rs[..i] == rs;
  }

  /** Reducing after each addition is reducing once at the end. */
  lemma ModuloSum(a: int, b: int, c: int)
    ensures Trunc8(Trunc8(Trunc8(a) + b) + c) == Trunc8(a + b + c)
  {
    var q1, q2 := a / 0x100, (Trunc8(a) + b) / 0x100;
    assert Trunc8(a) + b == a + b - 0x100 * q1;
    assert Trunc8(Trunc8(a) + b) + c == a + b + c - 0x100 * (q1 + q2);
  }

  /** The intended precomputation, without a limit. */
  method ReportSize(rs: seq<Zcl.ReportRecord>) returns (size: nat)
    ensures size == Zcl.ReportLength(rs)
  {
    size := 8;
    var i := 0;
    while i < |rs|
      invariant 0 <= i <= |rs|
      invariant size == Zcl.ReportLength(rs[..i])
    {
      assert rs[..i + 1][..i] == rs[..i];
      size := size + 3 + |rs[i].data|;
      i := i + 1;
    }
    assert rs[..i] == rs;
  }

  /**
   * `*_zclReportCmd` with the intended length: a buffer of the precomputed
   * size holds the whole report. `available` is whether `ev_buf_allocate`
   * found a buffer; without one nothing is sent.
   */
  method ReportCmd(h: CommandHeader, rs: seq<Zcl.ReportRecord>, available: bool) returns (frame: Option<seq<Byte>>)
    requires |rs| < 0x100
    ensures frame == if available then Some(Zcl.Report(h, rs)) else None
  {
    var bufLen := ReportSize(rs);
    if !available {
      return None;
    }
    Zcl.ReportLengthMatches(h, rs);
    var buf := new Byte[bufLen](_ => 0);
    var off := PutHeader(buf, h);
    off := PutBytes(buf, off, [|rs| as Byte]);
    off := PutReportRecords(buf, off, rs);
    frame := Some(buf[..off]);
  }

  // ----------------------------------------------------------- publish price

  method PutIssue(buf: array<Byte>, off: nat, p: Zcl.Price) returns (next: nat)
    requires off + 13 <= buf.Length && ZeroFrom(buf, off)
    modifies buf
    ensures next == off + 13 && buf[..next] == old(buf[..off]) + Zcl.IssueBytes(p)
    ensures ZeroFrom(buf, next)
  {
    ghost var w := buf[..off];
    next := PutBytes(buf, off, Zcl.Le32(p.issuerEventId));
    next := PutBytes(buf, next, Zcl.Le32(p.currentTime));
    next := PutBytes(buf, next, [p.unitsOfMeasure]);
    next := PutBytes(buf, next, Zcl.Le16(p.currency));
    next := PutBytes(buf, next, [p.priceTrailingDigitAndPriceTier]);
    next := PutBytes(buf, next, [p.numPriceTiersAndRegisterTier]);
    assert buf[..next] == w + Zcl.IssueBytes(p);
  }

  method PutPeriod(buf: array<Byte>, off: nat, p: Zcl.Price) returns (next: nat)
    requires off + 8 <= buf.Length && ZeroFrom(buf, off)
    modifies buf
    ensures next == off + 8 && buf[..next] == old(buf[..off]) + Zcl.PeriodBytes(p)
    ensures ZeroFrom(buf, next)
  {
    ghost var w := buf[..off];
    next := PutBytes(buf, off, Zcl.Le32(p.startTime));
    next := PutBytes(buf, next, Zcl.Le16(p.durationInMins));
    next := PutBytes(buf, next, [p.price]);
    next := PutBytes(buf, next, [p.priceRatio]);
    assert buf[..next] == w + Zcl.PeriodBytes(p);
  }

  method PutGeneration(buf: array<Byte>, off: nat, p: Zcl.Price) returns (next: nat)
    requires off + 18 <= buf.Length && ZeroFrom(buf, off)
    modifies buf
    ensures next == off + 18 && buf[..next] == old(buf[..off]) + Zcl.GenerationBytes(p)
    ensures ZeroFrom(buf, next)
  {
    ghost var w := buf[..off];
    next := PutBytes(buf, off, Zcl.Le32(p.generationPrice));
    next := PutBytes(buf, next, [p.generationPriceRatio]);
    next := PutBytes(buf, next, Zcl.Le32(p.alternateCostDelivered));
    next := PutBytes(buf, next, [p.alternateCostUnit, p.alternateCostTrailingDigit, p.numBlockThresholds, p.priceControl,
                                 p.numGenerationTiers, p.generationTier, p.extendedNumPriceTiers, p.extendedPriceTier,
                                 p.extendedRegisterTier]);
    assert buf[..next] == w + Zcl.GenerationBytes(p);
  }

  /**
   * `*_zclPublishPriceCmdHandler`: the 56-byte payload zeroed, the fields
   * written least significant byte first from the start, and all 56 bytes
   * handed to `zbhciTx`.
   */
  method PublishPriceCmd(p: Zcl.Price) returns (frame: seq<Byte>)
    ensures frame == Zcl.PublishPrice(p)
  {
    var buf := new Byte[Zcl.PublishPriceSize](_ => 0);
    var off := PutBytes(buf, 0, Zcl.Le32(p.providerId));
    ghost var s1 := buf[..off];
    assert s1 == Zcl.Le32(p.providerId);
    off := PutBytes(buf, off, p.rateLabel);
    ghost var s2 := buf[..off];
    off := PutIssue(buf, off, p);
    ghost var s3 := buf[..off];
    off := PutPeriod(buf, off, p);
    ghost var s4 := buf[..off];
    off := PutGeneration(buf, off, p);
    assert buf[..off] == s4 + Zcl.GenerationBytes(p);
    Assoc5(s1, p.rateLabel, Zcl.IssueBytes(p), Zcl.PeriodBytes(p), Zcl.GenerationBytes(p));
    ZeroTail(buf, off);
    frame := buf[..];
  }

  lemma Assoc5(a: seq<Byte>, b: seq<Byte>, c: seq<Byte>, d: seq<Byte>, e: seq<Byte>)
    ensures a + b + c + d + e == a + b + (c + d + e)
  {
  }

  /** A buffer whose bytes from `pos` on are zero is its first `pos` bytes followed by zeros. */
  lemma ZeroTail(buf: array<Byte>, pos: nat)
    requires pos <= buf.Length && ZeroFrom(buf, pos)
    ensures buf[..] == buf[..pos] + seq(buf.Length - pos, _ => 0)
  {
    assert buf[..] == buf[..pos] + buf[pos..];
  }
}
