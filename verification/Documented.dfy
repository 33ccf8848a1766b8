/** The protocol as its documentation gives it: fields at offsets, statuses by number. What the server
    writes for one message is held against it byte by byte. */
module Documented {
  import opened Bytes
  import opened Common
  import opened Wire
  import opened Transducer
  import opened Protocol

  // ----------------------------------------------------------------- fields

  function U16(b: seq<Byte>, at: nat): nat
    requires at + 2 <= |b|
  {
    b[at] as nat + 0x100 * b[at + 1] as nat
  }

  function U32(b: seq<Byte>, at: nat): nat
    requires at + 4 <= |b|
  {
    b[at] as nat + 0x100 * b[at + 1] as nat + 0x1_0000 * b[at + 2] as nat + 0x100_0000 * b[at + 3] as nat
  }

  function U64(b: seq<Byte>, at: nat): nat
    requires at + 8 <= |b|
  {
    U32(b, at) + 0x1_0000_0000 * U32(b, at + 4)
  }

  lemma {:induction false} ValueIsFields(b: seq<Byte>)
    ensures |b| == 1 ==> Value(b) == b[0] as nat
    ensures |b| == 2 ==> Value(b) == U16(b, 0)
    ensures |b| == 4 ==> Value(b) == U32(b, 0)
    ensures |b| == 8 ==> Value(b) == U64(b, 0)
    decreases |b|
  {
    if |b| == 2 {
      ValueIsFields(b[1..]);
    } else if |b| == 4 {
      assert Value(b) == b[0] as nat + 0x100 * (b[1] as nat + 0x100 * Value(b[2..])) by {
        assert b[1..][1..] == b[2..];
      }
      ValueIsFields(b[2..]);
    } else if |b| == 8 {
      ValueSplit(b, 4);
      ValueIsFields(b[..4]);
      ValueIsFields(b[4..]);
      Powers();
    }
  }

  lemma {:induction false} ValueSplit(b: seq<Byte>, n: nat)
    requires n <= |b|
    ensures Value(b) == Value(b[..n]) + Pow256(n) * Value(b[n..])
  {
    if n > 0 {
      ValueSplit(b[1..], n - 1);
      assert b[1..][..n - 1] == b[..n][1..] && b[1..][n - 1..] == b[n..];
      assert 0x100 * (Pow256(n - 1) * Value(b[n..])) == Pow256(n) * Value(b[n..]);
    } else {
      assert b[0..] == b && b[..0] == [];
    }
  }

  /** Writing keeps the low bytes, as a C cast does. */
  lemma {:induction false} LowBytes(v: nat, n: nat)
    ensures Value(LE(v, n)) == v % Pow256(n)
  {
    if n > 0 {
      var q, p := v / 0x100, Pow256(n - 1);
      assert LE(v, n)[1..] == LE(q, n - 1);
      LowBytes(q, n - 1);
      var h, r := q / p, q % p;
      assert q == h * p + r;
      assert v == h * (0x100 * p) + (0x100 * r + v % 0x100) by {
        assert 0x100 * (h * p) == h * (0x100 * p);
      }
      Ratio(v, h, 0x100 * r + v % 0x100, 0x100 * p);
    }
  }

  /** A number written at an offset is read there. */
  lemma Field4(b: seq<Byte>, at: nat, v: nat)
    requires at + 4 <= |b| && b[at..at + 4] == LE(v, 4)
    ensures U32(b, at) == v % 0x1_0000_0000
  {
    LowBytes(v, 4);
    ValueIsFields(b[at..at + 4]);
    Powers();
  }

  lemma Field8(b: seq<Byte>, at: nat, v: nat)
    requires at + 8 <= |b| && b[at..at + 8] == LE(v, 8)
    ensures U64(b, at) == v % 0x1_0000_0000_0000_0000
  {
    LowBytes(v, 8);
    ValueIsFields(b[at..at + 8]);
    Powers();
  }

  // --------------------------------------------------------------- requests

  /** A request header with the right magic number and version. */
  predicate Proper(b: seq<Byte>)
    requires |b| >= 16
  {
    U32(b, 0) == 0x52454C50 && b[4] == 1
  }

  lemma HeaderFields(b: seq<Byte>)
    requires |b| >= 16
    ensures var h := ParseReq(b);
            && h.magic == U32(b, 0) && h.version == b[4] as nat && h.op == b[5] as nat && h.arg == U16(b, 6)
            && h.reqId == U32(b, 8) && h.count == U32(b, 12)
    ensures GoodHead(ParseReq(b)) <==> Proper(b)
  {
    ValueIsFields(b[0..4]);
    ValueIsFields(b[4..5]);
    ValueIsFields(b[5..6]);
    ValueIsFields(b[6..8]);
    ValueIsFields(b[8..12]);
    ValueIsFields(b[12..16]);
  }

  /** What a client that packs a request puts on the wire. */
  lemma RequestBytes(op: nat, arg: nat, reqId: nat, ids: seq<nat>)
    requires Request(op, arg, reqId, ids).Valid()
    ensures var b := EncodeReq(op, arg, reqId, ids);
            && |b| == 16 + 4 * |ids| && Proper(b) && b[5] as nat == op && U16(b, 6) == arg
            && U32(b, 8) == reqId && U32(b, 12) == |ids|
            && forall i :: 0 <= i < |ids| ==> U32(b, 16 + 4 * i) == ids[i]
  {
    var b := EncodeReq(op, arg, reqId, ids);
    assert b == ReqHeader(op, arg, reqId, |ids|) + Words(ids);
    ReqHeaderRoundTrip(op, arg, reqId, |ids|, Words(ids));
    HeaderFields(b);
    assert b[16..] == Words(ids) + [];
    WordsRoundTrip(ids, []);
    forall i | 0 <= i < |ids|
      ensures U32(b, 16 + 4 * i) == ids[i]
    {
      WordAt(b, |ids|, i);
    }
  }

  lemma WordAt(b: seq<Byte>, n: nat, i: nat)
    requires |b| == 16 + 4 * n && i < n
    ensures ReadWords(b[16..], n)[i] == U32(b, 16 + 4 * i)
  {
    ReadWordsAt(b[16..], n, i);
    assert b[16..][4 * i..4 * i + 4] == b[16 + 4 * i..16 + 4 * i + 4];
    ValueIsFields(b[16 + 4 * i..16 + 4 * i + 4]);
  }

  // ---------------------------------------------------------------- replies

  /** The first 16 bytes of a reply. */
  predicate Says(out: seq<Byte>, id: nat, status: nat, count: nat) {
    |out| >= 16 && U32(out, 0) == 0x50534552 && U32(out, 4) == id && U32(out, 8) == status && U32(out, 12) == count
  }

  predicate Bare(out: seq<Byte>, id: nat, status: nat) {
    |out| == 16 && Says(out, id, status, 0)
  }

  lemma RespSays(reqId: nat, status: nat, count: nat, body: seq<Byte>)
    requires reqId < TWO32 && status < TWO32 && count < TWO32
    ensures Says(Resp(reqId, status, count, body), reqId, status, count)
    ensures Resp(reqId, status, count, body)[16..] == body
  {
    hide LE, U32;
    var b := Resp(reqId, status, count, body);
    assert b[0..4] == LE(MAGIC_RESP, 4);
    assert b[4..8] == LE(reqId, 4);
    assert b[8..12] == LE(status, 4);
    assert b[12..16] == LE(count, 4);
    Field4(b, 0, MAGIC_RESP);
    Field4(b, 4, reqId);
    Field4(b, 8, status);
    Field4(b, 12, count);
  }

  /** Row i of a reply is the slice of the file that belongs to the i-th id. */
  predicate RowIs(cfg: Config, b: seq<Byte>, out: seq<Byte>, i: nat)
    requires 16 + 4 * (i + 1) <= |b|
  {
    var id := U32(b, 16 + 4 * i);
    && cfg.base <= id < cfg.base + cfg.count && 160 * (id - cfg.base + 1) <= |cfg.table| && 16 + 160 * (i + 1) <= |out|
    && out[16 + 160 * i..16 + 160 * (i + 1)] == cfg.table[160 * (id - cfg.base)..160 * (id - cfg.base + 1)]
  }

  predicate AllInRange(cfg: Config, b: seq<Byte>, n: nat)
    requires |b| == 16 + 4 * n
  {
    forall i :: 0 <= i < n ==> cfg.base <= U32(b, 16 + 4 * i) < cfg.base + cfg.count
  }

  predicate StatReplyIs(cfg: Config, aux: Aux, id: nat, out: seq<Byte>) {
    && |out| == 48 && Says(out, id, 0, 0)
    && U64(out, 16) == cfg.base && U64(out, 24) == cfg.count && U32(out, 32) == 160
    && U32(out, 36) == (if aux.resident < 0x1_0000_0000 then aux.resident else 0xFFFF_FFFF)
    && U64(out, 40) == aux.served % 0x1_0000_0000_0000_0000
  }

  predicate SweepReplyIs(aux: Aux, id: nat, out: seq<Byte>) {
    && |out| == 56 && Says(out, id, 0, 0)
    && U64(out, 16) == aux.before % 0x1_0000_0000_0000_0000
    && U64(out, 24) == aux.after % 0x1_0000_0000_0000_0000
    && U64(out, 32) == aux.recharged % 0x1_0000_0000_0000_0000
    && U32(out, 40) == aux.done % 0x1_0000_0000 && U32(out, 44) == aux.total % 0x1_0000_0000
    && U32(out, 48) == aux.slicePages % 0x1_0000_0000 && U32(out, 52) == aux.elapsed % 0x1_0000_0000
  }

  /** The reply to a whole message. */
  predicate ReplyIs(cfg: Config, aux: Aux, b: seq<Byte>, out: seq<Byte>)
    requires |b| >= 16 && |b| == 16 + 4 * U32(b, 12)
  {
    var op, arg, id, n := b[5], U16(b, 6), U32(b, 8), U32(b, 12);
    if op == 1 then
      if n > cfg.maxRows then Bare(out, id, 4)
      else if !AllInRange(cfg, b, n) then Bare(out, id, 3)
      else |out| == 16 + 160 * n && Says(out, id, 0, n) && forall i :: 0 <= i < n ==> RowIs(cfg, b, out, i)
    else if op == 2 then Bare(out, id, 0)
    else if op == 3 then StatReplyIs(cfg, aux, id, out)
    else if op == 4 then
      if arg > 4096 then Bare(out, id, 6)
      else if aux.sweepStatus != 0 then Bare(out, id, aux.sweepStatus)
      else SweepReplyIs(aux, id, out)
    else Bare(out, id, 2)
  }

  lemma {:induction false} RowsOfAt(cfg: Config, ids: seq<nat>, i: nat)
    requires cfg.Valid() && AllOwned(cfg, ids) && i < |ids|
    ensures 160 * (i + 1) <= |RowsOf(cfg, ids)|
    ensures RowsOf(cfg, ids)[160 * i..160 * (i + 1)] == RowAt(cfg, ids[i])
  {
    var n := |ids| - 1;
    var front, last := RowsOf(cfg, ids[..n]), RowAt(cfg, ids[n]);
    assert RowsOf(cfg, ids) == front + last;
    if i < n {
      RowsOfAt(cfg, ids[..n], i);
      assert (front + last)[160 * i..160 * (i + 1)] == front[160 * i..160 * (i + 1)];
    } else {
      assert (front + last)[160 * n..160 * (n + 1)] == last;
    }
  }

  lemma RowInFile(cfg: Config, id: nat)
    requires cfg.Valid() && cfg.Owns(id)
    ensures 160 * (id - cfg.base + 1) <= |cfg.table|
    ensures RowAt(cfg, id) == cfg.table[160 * (id - cfg.base)..160 * (id - cfg.base + 1)]
  {
    SliceFits(cfg, id - cfg.base);
  }

  lemma RowsAre(cfg: Config, b: seq<Byte>, n: nat, ids: seq<nat>, out: seq<Byte>)
    requires cfg.Valid() && |b| == 16 + 4 * n && ids == ReadWords(b[16..], n) && AllOwned(cfg, ids)
    requires |out| == 16 + 160 * n && out[16..] == RowsOf(cfg, ids)
    ensures forall i :: 0 <= i < n ==> RowIs(cfg, b, out, i)
  {
    hide RowsOf, RowAt;
    forall i | 0 <= i < n
      ensures RowIs(cfg, b, out, i)
    {
      WordAt(b, n, i);
      RowsOfAt(cfg, ids, i);
      RowInFile(cfg, ids[i]);
      assert out[16..][160 * i..160 * (i + 1)] == out[16 + 160 * i..16 + 160 * (i + 1)];
    }
  }

  lemma StatReplyHolds(cfg: Config, aux: Aux, id: nat)
    requires cfg.Valid() && id < TWO32
    ensures StatReplyIs(cfg, aux, id, Resp(id, ST_OK, 0, EncodeStat(StatOf(cfg, aux))))
  {
    hide LE, U32;
    var s := StatOf(cfg, aux);
    var out := Resp(id, ST_OK, 0, EncodeStat(s));
    RespSays(id, ST_OK, 0, EncodeStat(s));
    assert out[16..24] == LE(s.baseRow, 8);
    assert out[24..32] == LE(s.rowCount, 8);
    assert out[32..36] == LE(s.rowBytes, 4);
    assert out[36..40] == LE(s.resident, 4);
    assert out[40..48] == LE(s.served, 8);
    Field8(out, 16, s.baseRow);
    Field8(out, 24, s.rowCount);
    Field4(out, 32, s.rowBytes);
    Field4(out, 36, s.resident);
    Field8(out, 40, s.served);
  }

  lemma SweepReplyHolds(aux: Aux, id: nat)
    requires id < TWO32
    ensures SweepReplyIs(aux, id, Resp(id, ST_OK, 0, RechargeBody(aux)))
  {
    hide LE, U32;
    var out := Resp(id, ST_OK, 0, RechargeBody(aux));
    RespSays(id, ST_OK, 0, RechargeBody(aux));
    assert out[16..24] == LE(aux.before, 8);
    assert out[24..32] == LE(aux.after, 8);
    assert out[32..40] == LE(aux.recharged, 8);
    assert out[40..44] == LE(aux.done, 4);
    assert out[44..48] == LE(aux.total, 4);
    assert out[48..52] == LE(aux.slicePages, 4);
    assert out[52..56] == LE(aux.elapsed, 4);
    Field8(out, 16, aux.before);
    Field8(out, 24, aux.after);
    Field8(out, 32, aux.recharged);
    Field4(out, 40, aux.done);
    Field4(out, 44, aux.total);
    Field4(out, 48, aux.slicePages);
    Field4(out, 52, aux.elapsed);
  }

  lemma OwnedIsInRange(cfg: Config, b: seq<Byte>, n: nat)
    requires |b| == 16 + 4 * n
    ensures AllOwned(cfg, ReadWords(b[16..], n)) <==> AllInRange(cfg, b, n)
  {
    hide ReadWords, U32;
    var ids := ReadWords(b[16..], n);
    forall i | 0 <= i < n
      ensures cfg.Owns(ids[i]) <==> cfg.base <= U32(b, 16 + 4 * i) < cfg.base + cfg.count
    {
      WordAt(b, n, i);
    }
    if AllOwned(cfg, ids) {
      forall i | 0 <= i < n
        ensures cfg.base <= U32(b, 16 + 4 * i) < cfg.base + cfg.count
      {
        assert cfg.Owns(ids[i]);
      }
    }
  }

  /** Every whole message in the right form that can be read past gets the documented reply. */
  lemma EveryReply(cfg: Config, aux: Aux, b: seq<Byte>)
    requires cfg.Valid() && aux.sweepStatus < TWO32
    requires |b| >= 16 && |b| == 16 + 4 * U32(b, 12)
    ensures ReplyIs(cfg, aux, b, Answer(cfg, aux, b[5] as nat, U16(b, 6), U32(b, 8), ReadWords(b[16..], U32(b, 12))))
  {
    hide Resp, RowsOf, RechargeBody, EncodeStat, ReadWords, AllOwned, AllInRange, Says, StatReplyIs, SweepReplyIs, RowIs, U32;
    var n, id := U32(b, 12), U32(b, 8);
    FieldBound(b, 8);
    FieldBound(b, 12);
    var ids := ReadWords(b[16..], n);
    OwnedIsInRange(cfg, b, n);
    BareSays(id, 0);
    BareSays(id, 2);
    BareSays(id, 3);
    BareSays(id, 4);
    BareSays(id, 6);
    BareSays(id, aux.sweepStatus);
    if b[5] == 1 && n <= cfg.maxRows && AllOwned(cfg, ids) {
      RespSays(id, 0, n, RowsOf(cfg, ids));
      RowsAre(cfg, b, n, ids, Resp(id, 0, n, RowsOf(cfg, ids)));
    } else if b[5] == 3 {
      StatReplyHolds(cfg, aux, id);
    } else if b[5] == 4 {
      SweepReplyHolds(aux, id);
    }
  }

  lemma FieldBound(b: seq<Byte>, at: nat)
    requires at + 4 <= |b|
    ensures U32(b, at) < TWO32
  {
  }

  lemma BareSays(id: nat, status: nat)
    requires id < TWO32 && status < TWO32
    ensures Bare(Resp(id, status, 0, []), id, status)
  {
    RespSays(id, status, 0, []);
  }

  // ----------------------------------------------------------------- stream

  /** The id array, if there is one, is not used: everything but a GATHER within the limit. */
  predicate Unused(cfg: Config, b: seq<Byte>)
    requires |b| >= 16
  {
    b[5] != 1 || U32(b, 12) > cfg.maxRows
  }

  /** More than 64 MiB of unused ids are not read past. */
  predicate Hopeless(cfg: Config, b: seq<Byte>)
    requires |b| >= 16
  {
    Unused(cfg, b) && 4 * U32(b, 12) > 67_108_864
  }

  lemma OnlyMessage(step: Machine, b: seq<Byte>, out: seq<Byte>)
    requires b != [] && step(0, b) == Reply(out, |b|) && step(1, []).NeedMore?
    ensures Run(step, 0, b) == Served(out, [], 1, true)
  {
    assert b[|b|..] == [];
    assert Run(step, 1, []) == Served([], [], 1, true);
    assert out + [] == out;
  }

  /** The first message of a stream, whole and readable: the documented reply, and back at a boundary. */
  lemma ServesAsDocumented(cfg: Config, aux: nat -> Aux, b: seq<Byte>)
    requires cfg.Valid() && aux(0).sweepStatus < TWO32
    requires |b| >= 16 && |b| == 16 + 4 * U32(b, 12) && Proper(b) && !Hopeless(cfg, b)
    ensures var s := Serve(cfg, aux, b); s.open && s.rest == [] && s.k == 1 && ReplyIs(cfg, aux(0), b, s.out)
  {
    hide Answer, ReplyIs, ReadWords, ParseReq, U32;
    HeaderFields(b);
    EveryReply(cfg, aux(0), b);
    var out := Answer(cfg, aux(0), b[5] as nat, U16(b, 6), U32(b, 8), ReadWords(b[16..], U32(b, 12)));
    assert ReadWords(b[HEADER..], U32(b, 12)) == ReadWords(b[16..], U32(b, 12));
    assert Handle(cfg, aux(0), b) == Reply(out, |b|);
    OnlyMessage(Handler(cfg, aux), b, out);
  }

  /** A message with the wrong magic number or version, or too long to read past, gets its status and is
      the last. */
  lemma EndsAsDocumented(cfg: Config, aux: nat -> Aux, b: seq<Byte>)
    requires cfg.Valid() && |b| >= 16 && (!Proper(b) || Hopeless(cfg, b))
    ensures var s := Serve(cfg, aux, b); !s.open && Bare(s.out, U32(b, 8), if !Proper(b) then 1 else 4)
  {
    hide Answer, ReadWords, ParseReq, U32, Resp, Bare;
    HeaderFields(b);
    FieldBound(b, 8);
    BareSays(U32(b, 8), 1);
    BareSays(U32(b, 8), 4);
    assert Handler(cfg, aux)(0, b) == Last(Resp(U32(b, 8), if !Proper(b) then 1 else 4, 0, []));
  }

  /** A stream that breaks off inside ids nobody would have used is answered with status 4, and with
      nothing if it breaks off inside ids that somebody would. */
  lemma BrokenOffAsDocumented(cfg: Config, aux: nat -> Aux, b: seq<Byte>)
    requires cfg.Valid() && 16 <= |b| < 16 + 4 * U32(b, 12) && Proper(b) && !Hopeless(cfg, b)
    ensures var s := Serve(cfg, aux, b);
            && s.out == [] && s.rest == b
            && if Unused(cfg, b) then Bare(Parting(cfg, s.rest), U32(b, 8), 4) else Parting(cfg, s.rest) == []
  {
    hide Answer, ReadWords, ParseReq, U32, Resp, Bare;
    HeaderFields(b);
    FieldBound(b, 8);
    BareSays(U32(b, 8), 4);
    assert Handler(cfg, aux)(0, b) == NeedMore;
  }
}
