/** Message layout shared by the row server and its client. */
module Wire {
  import opened Bytes

  const MAGIC_REQ: nat := 0x52454C50
  const MAGIC_RESP: nat := 0x50534552
  const VERSION: nat := 1
  const OP_GATHER: nat := 1
  const OP_PING: nat := 2
  const OP_STAT: nat := 3
  const OP_RECHARGE: nat := 4
  const HEADER: nat := 16
  const STAT_BODY: nat := 32
  const ROW_BYTES: nat := 160

  const ST_OK: nat := 0
  const ST_BAD_HEADER: nat := 1
  const ST_BAD_OP: nat := 2
  const ST_RANGE: nat := 3
  const ST_TOO_MANY: nat := 4
  const ST_INTERNAL: nat := 5
  const ST_BAD_PARAM: nat := 6
  const ST_BUSY: nat := 7

  datatype ReqHead = ReqHead(magic: nat, version: nat, op: nat, arg: nat, reqId: nat, count: nat)

  datatype RespHead = RespHead(magic: nat, reqId: nat, status: nat, count: nat)

  function ParseReq(b: seq<Byte>): ReqHead
    requires |b| >= HEADER
  {
    ReqHead(Value(b[0..4]), Value(b[4..5]), Value(b[5..6]), Value(b[6..8]), Value(b[8..12]), Value(b[12..16]))
  }

  /** Any request header, right or wrong. */
  function RawHeader(h: ReqHead): (b: seq<Byte>)
    ensures |b| == HEADER
  {
    LE(h.magic, 4) + LE(h.version, 1) + LE(h.op, 1) + LE(h.arg, 2) + LE(h.reqId, 4) + LE(h.count, 4)
  }

  function ReqHeader(op: nat, arg: nat, reqId: nat, count: nat): (b: seq<Byte>)
    ensures |b| == HEADER
  {
    RawHeader(ReqHead(MAGIC_REQ, VERSION, op, arg, reqId, count))
  }

  function EncodeReq(op: nat, arg: nat, reqId: nat, ids: seq<nat>): (b: seq<Byte>)
    ensures |b| == HEADER + 4 * |ids|
  {
    ReqHeader(op, arg, reqId, |ids|) + Words(ids)
  }

  function RespHeader(reqId: nat, status: nat, count: nat): (b: seq<Byte>)
    ensures |b| == HEADER
  {
    LE(MAGIC_RESP, 4) + LE(reqId, 4) + LE(status, 4) + LE(count, 4)
  }

  function ParseResp(b: seq<Byte>): RespHead
    requires |b| >= HEADER
  {
    RespHead(Value(b[0..4]), Value(b[4..8]), Value(b[8..12]), Value(b[12..16]))
  }

  lemma RawHeaderRoundTrip(h: ReqHead, tail: seq<Byte>)
    requires h.magic < TWO32 && h.version < 0x100 && h.op < 0x100 && h.arg < 0x1_0000
    requires h.reqId < TWO32 && h.count < TWO32
    ensures ParseReq(RawHeader(h) + tail) == h
  {
    var b := RawHeader(h) + tail;
    Powers();
    assert b[0..4] == LE(h.magic, 4);
    assert b[4..5] == LE(h.version, 1);
    assert b[5..6] == LE(h.op, 1);
    assert b[6..8] == LE(h.arg, 2);
    assert b[8..12] == LE(h.reqId, 4);
    assert b[12..16] == LE(h.count, 4);
    ValueOfLE(h.magic, 4);
    ValueOfLE(h.version, 1);
    ValueOfLE(h.op, 1);
    ValueOfLE(h.arg, 2);
    ValueOfLE(h.reqId, 4);
    ValueOfLE(h.count, 4);
  }

  lemma ReqHeaderRoundTrip(op: nat, arg: nat, reqId: nat, count: nat, tail: seq<Byte>)
    requires op < 0x100 && arg < 0x1_0000 && reqId < TWO32 && count < TWO32
    ensures ParseReq(ReqHeader(op, arg, reqId, count) + tail) == ReqHead(MAGIC_REQ, VERSION, op, arg, reqId, count)
  {
    RawHeaderRoundTrip(ReqHead(MAGIC_REQ, VERSION, op, arg, reqId, count), tail);
  }

  lemma RespHeaderRoundTrip(reqId: nat, status: nat, count: nat, tail: seq<Byte>)
    requires reqId < TWO32 && status < TWO32 && count < TWO32
    ensures ParseResp(RespHeader(reqId, status, count) + tail) == RespHead(MAGIC_RESP, reqId, status, count)
  {
    var b := RespHeader(reqId, status, count) + tail;
    Powers();
    assert b[0..4] == LE(MAGIC_RESP, 4);
    assert b[4..8] == LE(reqId, 4);
    assert b[8..12] == LE(status, 4);
    assert b[12..16] == LE(count, 4);
    ValueOfLE(MAGIC_RESP, 4);
    ValueOfLE(reqId, 4);
    ValueOfLE(status, 4);
    ValueOfLE(count, 4);
  }

  lemma ParseReqPrefix(b: seq<Byte>, tail: seq<Byte>)
    requires |b| >= HEADER
    ensures ParseReq(b + tail) == ParseReq(b)
  {
    assert forall i, j | 0 <= i <= j <= HEADER :: (b + tail)[i..j] == b[i..j];
  }

  /** The body of a STAT reply, as the client unpacks it. */
  datatype Stat = Stat(baseRow: nat, rowCount: nat, rowBytes: nat, resident: nat, served: nat)

  function EncodeStat(s: Stat): (b: seq<Byte>)
    ensures |b| == STAT_BODY
  {
    LE(s.baseRow, 8) + LE(s.rowCount, 8) + LE(s.rowBytes, 4) + LE(s.resident, 4) + LE(s.served, 8)
  }

  function ParseStat(b: seq<Byte>): Stat
    requires |b| == STAT_BODY
  {
    Stat(Value(b[0..8]), Value(b[8..16]), Value(b[16..20]), Value(b[20..24]), Value(b[24..32]))
  }

  lemma StatRoundTrip(s: Stat)
    requires s.baseRow < TWO64 && s.rowCount < TWO64 && s.rowBytes < TWO32 && s.resident < TWO32 && s.served < TWO64
    ensures ParseStat(EncodeStat(s)) == s
  {
    var b := EncodeStat(s);
    Powers();
    assert b[0..8] == LE(s.baseRow, 8);
    assert b[8..16] == LE(s.rowCount, 8);
    assert b[16..20] == LE(s.rowBytes, 4);
    assert b[20..24] == LE(s.resident, 4);
    assert b[24..32] == LE(s.served, 8);
    ValueOfLE(s.baseRow, 8);
    ValueOfLE(s.rowCount, 8);
    ValueOfLE(s.rowBytes, 4);
    ValueOfLE(s.resident, 4);
    ValueOfLE(s.served, 8);
  }
}
