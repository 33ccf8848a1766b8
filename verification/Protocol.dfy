/** What a row server answers to a byte stream, message by message.

    This is the reference both ends are proved against: the serving loop of RowServer
    writes exactly these bytes, and the connections the client reads from deliver them. */
module Protocol {
  import opened Bytes
  import opened Wire
  import opened Transducer

  const MAX_MAX_ROWS: nat := 0x20_0000
  const MAX_DRAIN_BYTES: nat := 0x400_0000
  const RECHARGE_MAX_SLICE_MIB: nat := 4096

  /** A server is its configuration and its file. */
  datatype Config = Config(base: nat, count: nat, table: seq<Byte>, maxRows: nat) {
    predicate Valid() {
      && 0 < count
      && base + count <= TWO32 - 1
      && |table| == count * ROW_BYTES
      && 1 <= maxRows <= MAX_MAX_ROWS
    }

    predicate Owns(id: int) {
      base <= id < base + count
    }
  }

  /** What a reply depends on besides the request: counters, and how a RECHARGE sweep ended. */
  datatype Aux = Aux(resident: nat, served: nat, sweepStatus: nat, before: nat, after: nat, recharged: nat,
                     done: nat, total: nat, slicePages: nat, elapsed: nat)

  lemma SliceFits(cfg: Config, local: nat)
    requires cfg.Valid() && local < cfg.count
    ensures local * ROW_BYTES + ROW_BYTES <= |cfg.table|
  {
    assert (local + 1) * ROW_BYTES <= cfg.count * ROW_BYTES;
  }

  /** The bytes of one row, by global id. */
  function RowAt(cfg: Config, id: nat): (row: seq<Byte>)
    requires cfg.Valid() && cfg.Owns(id)
    ensures |row| == ROW_BYTES
  {
    SliceFits(cfg, id - cfg.base);
    cfg.table[(id - cfg.base) * ROW_BYTES..(id - cfg.base) * ROW_BYTES + ROW_BYTES]
  }

  predicate AllOwned(cfg: Config, ids: seq<nat>) {
    forall i :: 0 <= i < |ids| ==> cfg.Owns(ids[i])
  }

  function RowsOf(cfg: Config, ids: seq<nat>): (rows: seq<Byte>)
    requires cfg.Valid() && AllOwned(cfg, ids)
    ensures |rows| == |ids| * ROW_BYTES
  {
    if ids == [] then [] else RowsOf(cfg, ids[..|ids| - 1]) + RowAt(cfg, ids[|ids| - 1])
  }

  function Resp(reqId: nat, status: nat, count: nat, body: seq<Byte>): (b: seq<Byte>)
    ensures |b| == HEADER + |body|
  {
    RespHeader(reqId, status, count) + body
  }

  function StatOf(cfg: Config, aux: Aux): Stat {
    Stat(cfg.base, cfg.count, ROW_BYTES, if aux.resident > TWO32 - 1 then TWO32 - 1 else aux.resident, aux.served % TWO64)
  }

  function RechargeStatus(arg: nat, aux: Aux): nat {
    if arg > RECHARGE_MAX_SLICE_MIB then ST_BAD_PARAM else aux.sweepStatus
  }

  function RechargeBody(aux: Aux): (b: seq<Byte>)
    ensures |b| == 40
  {
    LE(aux.before, 8) + LE(aux.after, 8) + LE(aux.recharged, 8) + LE(aux.done, 4) + LE(aux.total, 4) +
    LE(aux.slicePages, 4) + LE(aux.elapsed, 4)
  }

  /** The reply to one complete request. */
  function Answer(cfg: Config, aux: Aux, op: nat, arg: nat, reqId: nat, ids: seq<nat>): (r: seq<Byte>)
    requires cfg.Valid()
    ensures |r| >= HEADER
  {
    if op == OP_GATHER then
      if |ids| > cfg.maxRows then Resp(reqId, ST_TOO_MANY, 0, [])
      else if !AllOwned(cfg, ids) then Resp(reqId, ST_RANGE, 0, [])
      else Resp(reqId, ST_OK, |ids|, RowsOf(cfg, ids))
    else if op == OP_PING then Resp(reqId, ST_OK, 0, [])
    else if op == OP_STAT then Resp(reqId, ST_OK, 0, EncodeStat(StatOf(cfg, aux)))
    else if op == OP_RECHARGE then
      if RechargeStatus(arg, aux) != ST_OK then Resp(reqId, RechargeStatus(arg, aux), 0, [])
      else Resp(reqId, ST_OK, 0, RechargeBody(aux))
    else Resp(reqId, ST_BAD_OP, 0, [])
  }

  predicate GoodHead(h: ReqHead) {
    h.magic == MAGIC_REQ && h.version == VERSION
  }

  /** The id array is read only to be thrown away: everything but a GATHER that fits. */
  predicate Drained(cfg: Config, h: ReqHead) {
    h.op != OP_GATHER || h.count > cfg.maxRows
  }

  /** Too long to read past: the next header cannot be found any more. */
  predicate Overlong(cfg: Config, h: ReqHead) {
    Drained(cfg, h) && 4 * h.count > MAX_DRAIN_BYTES
  }

  /** What the next message in the stream does, if it is all there. */
  function Handle(cfg: Config, aux: Aux, b: seq<Byte>): (s: Step)
    requires cfg.Valid()
    ensures s.Reply? ==> HEADER <= s.used <= |b|
  {
    if |b| < HEADER then NeedMore else
    var h := ParseReq(b);
    if !GoodHead(h) then Last(Resp(h.reqId, ST_BAD_HEADER, 0, []))
    else if Overlong(cfg, h) then Last(Resp(h.reqId, ST_TOO_MANY, 0, []))
    else if |b| < HEADER + 4 * h.count then NeedMore
    else Reply(Answer(cfg, aux, h.op, h.arg, h.reqId, ReadWords(b[HEADER..], h.count)), HEADER + 4 * h.count)
  }

  function Handler(cfg: Config, aux: nat -> Aux): (nat, seq<Byte>) -> Step
    requires cfg.Valid()
  {
    (k: nat, b: seq<Byte>) => Handle(cfg, aux(k), b)
  }

  /** Everything the server writes for a stream of bytes; aux(k) is what reply k depends on. */
  function Serve(cfg: Config, aux: nat -> Aux, b: seq<Byte>): Served
    requires cfg.Valid()
  {
    Run(Handler(cfg, aux), 0, b)
  }

  /** What is still written when a stream stops inside `rest`: a broken drain is answered. */
  function Parting(cfg: Config, rest: seq<Byte>): seq<Byte> {
    if |rest| < HEADER then [] else
    var h := ParseReq(rest);
    if GoodHead(h) && Drained(cfg, h) && |rest| < HEADER + 4 * h.count then Resp(h.reqId, ST_TOO_MANY, 0, []) else []
  }

  // ---------------------------------------------------------------- framing

  lemma HandleStable(cfg: Config, aux: Aux, a: seq<Byte>, b: seq<Byte>)
    requires cfg.Valid() && !Handle(cfg, aux, a).NeedMore?
    ensures Handle(cfg, aux, a + b) == Handle(cfg, aux, a)
  {
    ParseReqPrefix(a, b);
    var h := ParseReq(a);
    if GoodHead(h) && !Overlong(cfg, h) {
      assert (a + b)[HEADER..] == a[HEADER..] + b;
      ReadWordsPrefix(a[HEADER..], h.count, b);
    }
  }

  lemma HandlerIsStable(cfg: Config, aux: nat -> Aux)
    requires cfg.Valid()
    ensures Consumes(Handler(cfg, aux)) && Stable(Handler(cfg, aux))
  {
    var step := Handler(cfg, aux);
    forall k: nat, b: seq<Byte> | step(k, b).Reply?
      ensures 0 < step(k, b).used <= |b|
    {
      var s := Handle(cfg, aux(k), b);
      assert s == step(k, b);
    }
    forall k: nat, a: seq<Byte>, b: seq<Byte> | !step(k, a).NeedMore?
      ensures step(k, a + b) == step(k, a)
    {
      HandleStable(cfg, aux(k), a, b);
    }
  }

  /** The server never takes back a byte, and how the stream is cut into reads does not show. */
  lemma ServeMonotone(cfg: Config, aux: nat -> Aux, a: seq<Byte>, b: seq<Byte>)
    requires cfg.Valid()
    ensures Serve(cfg, aux, a).out <= Serve(cfg, aux, a + b).out
    ensures Serve(cfg, aux, a).open && Serve(cfg, aux, a).rest == [] ==>
              Serve(cfg, aux, a + b).out == Serve(cfg, aux, a).out + Run(Handler(cfg, aux), Serve(cfg, aux, a).k, b).out
  {
    HandlerIsStable(cfg, aux);
    RunAppend(Handler(cfg, aux), 0, a, b);
    assert [] + b == b;
  }

  // --------------------------------------------------- message-level reference

  datatype Request = Request(op: nat, arg: nat, reqId: nat, ids: seq<nat>) {
    predicate Valid() {
      && op < 0x100 && arg < 0x1_0000 && reqId < TWO32 && |ids| < TWO32
      && forall i :: 0 <= i < |ids| ==> ids[i] < TWO32
    }

    predicate Readable(cfg: Config) {
      (op == OP_GATHER && |ids| <= cfg.maxRows) || 4 * |ids| <= MAX_DRAIN_BYTES
    }
  }

  /** Everything the client sends: only a GATHER carries ids. */
  predicate Shaped(q: Request) {
    q.Valid() && (q.op == OP_GATHER || q.ids == [])
  }

  function EncodeAll(qs: seq<Request>): seq<Byte> {
    if qs == [] then [] else EncodeReq(qs[0].op, qs[0].arg, qs[0].reqId, qs[0].ids) + EncodeAll(qs[1..])
  }

  ghost predicate AllShaped(qs: seq<Request>) {
    forall i :: 0 <= i < |qs| ==> Shaped(qs[i])
  }

  lemma {:induction false} EncodeSnoc(qs: seq<Request>, q: Request)
    ensures EncodeAll(qs + [q]) == EncodeAll(qs) + EncodeReq(q.op, q.arg, q.reqId, q.ids)
  {
    if qs == [] {
      assert [q][1..] == [] && qs + [q] == [q];
      assert EncodeAll([q]) == EncodeReq(q.op, q.arg, q.reqId, q.ids) + [];
    } else {
      assert (qs + [q])[1..] == qs[1..] + [q];
      EncodeSnoc(qs[1..], q);
    }
  }

  /** A request under any magic number and version. */
  datatype Message = Message(magic: nat, version: nat, q: Request) {
    predicate Valid() {
      magic < TWO32 && version < 0x100 && q.Valid()
    }

    predicate Known() {
      magic == MAGIC_REQ && version == VERSION
    }

    /** The server can answer and go on. */
    predicate ReadPast(cfg: Config) {
      Known() && q.Readable(cfg)
    }

    function Encode(): (b: seq<Byte>)
      ensures |b| == HEADER + 4 * |q.ids|
    {
      RawHeader(ReqHead(magic, version, q.op, q.arg, q.reqId, |q.ids|)) + Words(q.ids)
    }

    /** What it is told if the server cannot. */
    function Farewell(): seq<Byte> {
      Resp(q.reqId, if Known() then ST_TOO_MANY else ST_BAD_HEADER, 0, [])
    }
  }

  function EncodeMessages(ms: seq<Message>): seq<Byte> {
    if ms == [] then [] else ms[0].Encode() + EncodeMessages(ms[1..])
  }

  /** One reply per message, in order, up to the first that cannot be read past. */
  function Replies(cfg: Config, aux: nat -> Aux, k: nat, ms: seq<Message>): seq<Byte>
    requires cfg.Valid()
    decreases |ms|
  {
    if ms == [] then []
    else if !ms[0].ReadPast(cfg) then ms[0].Farewell()
    else
      var q := ms[0].q;
      Answer(cfg, aux(k), q.op, q.arg, q.reqId, q.ids) + Replies(cfg, aux, k + 1, ms[1..])
  }

  lemma HandleMessage(cfg: Config, aux: Aux, m: Message, tail: seq<Byte>)
    requires cfg.Valid() && m.Valid()
    ensures Handle(cfg, aux, m.Encode() + tail) ==
            if m.ReadPast(cfg) then Reply(Answer(cfg, aux, m.q.op, m.q.arg, m.q.reqId, m.q.ids), HEADER + 4 * |m.q.ids|)
            else Last(m.Farewell())
  {
    hide Answer, Resp, ParseReq, RawHeader;
    var h := ReqHead(m.magic, m.version, m.q.op, m.q.arg, m.q.reqId, |m.q.ids|);
    var b := m.Encode() + tail;
    assert b == RawHeader(h) + (Words(m.q.ids) + tail);
    RawHeaderRoundTrip(h, Words(m.q.ids) + tail);
    if m.ReadPast(cfg) {
      assert b[HEADER..] == Words(m.q.ids) + tail;
      WordsRoundTrip(m.q.ids, tail);
    }
  }

  lemma HandleRequest(cfg: Config, aux: Aux, q: Request, tail: seq<Byte>)
    requires cfg.Valid() && q.Valid()
    ensures Handle(cfg, aux, EncodeReq(q.op, q.arg, q.reqId, q.ids) + tail) ==
            if q.Readable(cfg) then Reply(Answer(cfg, aux, q.op, q.arg, q.reqId, q.ids), HEADER + 4 * |q.ids|)
            else Last(Resp(q.reqId, ST_TOO_MANY, 0, []))
  {
    hide Handle, Answer, Resp;
    HandleMessage(cfg, aux, Message(MAGIC_REQ, VERSION, q), tail);
  }

  /** Every message in a stream gets its own reply and none shifts the next header; the stream stays
      open if and only if each has the right magic and version and is short enough to read past. */
  lemma {:induction false} ServeRequests(cfg: Config, aux: nat -> Aux, k: nat, ms: seq<Message>)
    requires cfg.Valid() && forall i :: 0 <= i < |ms| ==> ms[i].Valid()
    ensures var s := Run(Handler(cfg, aux), k, EncodeMessages(ms));
            && s.out == Replies(cfg, aux, k, ms)
            && s.rest == []
            && (s.open <==> forall i :: 0 <= i < |ms| ==> ms[i].ReadPast(cfg))
    decreases |ms|
  {
    hide Handle, Answer, Message.ReadPast, Message.Farewell, Message.Encode;
    var step := Handler(cfg, aux);
    if ms == [] {
      NoMessage(cfg, aux(k));
      assert step(k, []) == NeedMore;
    } else {
      var m := ms[0];
      var rest := EncodeMessages(ms[1..]);
      HandleMessage(cfg, aux(k), m, rest);
      var b := m.Encode() + rest;
      assert EncodeMessages(ms) == b;
      assert step(k, b) == Handle(cfg, aux(k), b);
      if m.ReadPast(cfg) {
        assert b[|m.Encode()|..] == rest;
        ServeRequests(cfg, aux, k + 1, ms[1..]);
        AllButTheFirst(cfg, ms);
      } else {
        assert !ms[0].ReadPast(cfg);
      }
    }
  }

  lemma NoMessage(cfg: Config, aux: Aux)
    requires cfg.Valid()
    ensures Handle(cfg, aux, []) == NeedMore
  {
  }

  lemma AllButTheFirst(cfg: Config, ms: seq<Message>)
    requires ms != [] && ms[0].ReadPast(cfg)
    ensures (forall i :: 0 <= i < |ms| ==> ms[i].ReadPast(cfg)) <==>
            (forall i :: 0 <= i < |ms[1..]| ==> ms[1..][i].ReadPast(cfg))
  {
    hide Message.ReadPast;
    assert forall i :: 1 <= i < |ms| ==> ms[i] == ms[1..][i - 1];
    assert forall i :: 0 <= i < |ms[1..]| ==> ms[1..][i] == ms[i + 1];
  }

  /** That a rejected request leaves the connection usable is false: a wrong magic number ends the
      stream after its reply, and so does a PING that claims more ids than are ever drained. */
  lemma SomeRepliesAreTheLast(cfg: Config, aux: nat -> Aux)
    requires cfg.Valid()
    ensures var s := Serve(cfg, aux, Message(0, VERSION, Request(OP_PING, 0, 7, [])).Encode());
            !s.open && s.out == Resp(7, ST_BAD_HEADER, 0, [])
    ensures var s := Serve(cfg, aux, Message(MAGIC_REQ, VERSION, Request(OP_PING, 0, 7, seq(0x100_0001, i => 0))).Encode());
            !s.open && s.out == Resp(7, ST_TOO_MANY, 0, [])
  {
    hide Handle, Answer, Resp, Words;
    OneMessageOnly(cfg, aux, Message(0, VERSION, Request(OP_PING, 0, 7, [])));
    OneMessageOnly(cfg, aux, Message(MAGIC_REQ, VERSION, Request(OP_PING, 0, 7, seq(0x100_0001, i => 0))));
  }

  lemma OneMessageOnly(cfg: Config, aux: nat -> Aux, m: Message)
    requires cfg.Valid() && m.Valid() && !m.ReadPast(cfg)
    ensures Serve(cfg, aux, m.Encode()).out == m.Farewell() && !Serve(cfg, aux, m.Encode()).open
  {
    hide Handle, Message.ReadPast, Message.Farewell, Message.Encode;
    ServeRequests(cfg, aux, 0, [m]);
    assert EncodeMessages([m][1..]) == [];
    assert EncodeMessages([m]) == m.Encode() + [] == m.Encode();
    assert [m][0] == m;
  }

  /** One more request on a stream that stands at a header boundary. */
  lemma ServeNext(cfg: Config, aux: nat -> Aux, sent: seq<Byte>, q: Request)
    requires cfg.Valid() && q.Valid()
    requires Serve(cfg, aux, sent).open && Serve(cfg, aux, sent).rest == []
    ensures var s := Serve(cfg, aux, sent);
            var t := Serve(cfg, aux, sent + EncodeReq(q.op, q.arg, q.reqId, q.ids));
            && t.rest == []
            && t.open == q.Readable(cfg)
            && t.out == s.out + (if q.Readable(cfg) then Answer(cfg, aux(s.k), q.op, q.arg, q.reqId, q.ids)
                                 else Resp(q.reqId, ST_TOO_MANY, 0, []))
  {
    hide Handle, Answer, Resp;
    var s := Serve(cfg, aux, sent);
    var m := EncodeReq(q.op, q.arg, q.reqId, q.ids);
    HandlerIsStable(cfg, aux);
    RunAppend(Handler(cfg, aux), 0, sent, m);
    assert s.rest + m == m;
    var w := Message(MAGIC_REQ, VERSION, q);
    ServeRequests(cfg, aux, s.k, [w]);
    assert EncodeMessages([w][1..]) == [];
    assert EncodeMessages([w]) == m + [] == m;
    assert Replies(cfg, aux, s.k + 1, []) == [];
    assert [w][0] == w;
    if q.Readable(cfg) {
      var a := Answer(cfg, aux(s.k), q.op, q.arg, q.reqId, q.ids);
      assert Replies(cfg, aux, s.k, [w]) == a + Replies(cfg, aux, s.k + 1, [w][1..]) == a + [] == a;
      assert forall i :: 0 <= i < |[w]| ==> [w][i] == w;
    }
  }
}
