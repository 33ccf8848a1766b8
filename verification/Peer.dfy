/** The client's end of one connection, with what it has learned of the server behind it. */
module Peers {
  import opened Bytes
  import opened Common
  import opened Wire
  import opened Protocol
  import opened Network

  const GATHER_ATTEMPTS: nat := 3
  /** Microseconds. */
  const CONNECT_FLOOR: nat := 1000
  const FIRST_PAUSE: nat := 500_000
  const MAX_PAUSE: nat := 5_000_000

  datatype Why =
    | BadMagic
    | OutOfSync
    | Status(code: nat)
    | WrongCount
    | UnexpectedRows
    | RangeChanged
    | WrongRowBytes
    | EmptyRange
    | BadSplit

  /** OSError covers timeouts, resets and closed connections; only those are retried. */
  datatype Exc = OSError | ProtocolError(why: Why) | ValueError | IndexError(first: nat) | NotUsable

  datatype Outcome = Ok | Raise(e: Exc) {
    predicate IsFailure() {
      Raise?
    }

    function PropagateFailure(): Outcome
      requires Raise?
    {
      this
    }
  }

  /** The rows of a list of ids, in that order, duplicates included. */
  ghost function TruthRows(truth: RowMap, ids: seq<nat>): seq<Byte> {
    if ids == [] then [] else TruthRows(truth, ids[..|ids| - 1]) + truth(ids[|ids| - 1])
  }

  lemma {:induction false} ServedRowsAreTrue(cfg: Config, truth: RowMap, ids: seq<nat>)
    requires Conforms(cfg, truth) && AllOwned(cfg, ids)
    ensures RowsOf(cfg, ids) == TruthRows(truth, ids)
    ensures forall i :: 0 <= i < |ids| ==> |truth(ids[i])| == ROW_BYTES
  {
    if ids != [] {
      ServedRowsAreTrue(cfg, truth, ids[..|ids| - 1]);
      assert cfg.Owns(ids[|ids| - 1]);
      assert RowAt(cfg, ids[|ids| - 1]) == truth(ids[|ids| - 1]);
      forall i | 0 <= i < |ids|
        ensures |truth(ids[i])| == ROW_BYTES
      {
        assert i < |ids| - 1 ==> ids[i] == ids[..|ids| - 1][i];
      }
    }
  }

  lemma {:induction false} TruthRowsLength(truth: RowMap, ids: seq<nat>)
    requires forall j :: 0 <= j < |ids| ==> |truth(ids[j])| == ROW_BYTES
    ensures |TruthRows(truth, ids)| == |ids| * ROW_BYTES
  {
    if ids != [] {
      TruthRowsLength(truth, ids[..|ids| - 1]);
    }
  }

  /** Row i of a body sits at i * ROW_BYTES. */
  lemma {:induction false} TruthRowAt(truth: RowMap, ids: seq<nat>, i: nat)
    requires i < |ids|
    requires forall j :: 0 <= j < |ids| ==> |truth(ids[j])| == ROW_BYTES
    ensures |TruthRows(truth, ids)| == |ids| * ROW_BYTES
    ensures TruthRows(truth, ids)[i * ROW_BYTES..(i + 1) * ROW_BYTES] == truth(ids[i])
    decreases |ids|
  {
    var n := |ids| - 1;
    var init := ids[..n];
    TruthRowsLength(truth, ids);
    TruthRowsLength(truth, init);
    var front, last := TruthRows(truth, init), truth(ids[n]);
    assert TruthRows(truth, ids) == front + last;
    if i < n {
      TruthRowAt(truth, init, i);
      assert (front + last)[i * ROW_BYTES..(i + 1) * ROW_BYTES] == front[i * ROW_BYTES..(i + 1) * ROW_BYTES];
    } else {
      assert (front + last)[n * ROW_BYTES..(n + 1) * ROW_BYTES] == last;
    }
  }

  /** Is m a GATHER for exactly these ids, whatever its request id? */
  ghost predicate GathersExactly(m: seq<Byte>, ids: seq<nat>) {
    exists reqId: nat :: reqId < TWO32 && m == EncodeReq(OP_GATHER, 0, reqId, ids)
  }

  ghost function StatReplyBody(s: Sock): seq<Byte>
    requires s.cfg.Valid()
  {
    if s.oom then [] else EncodeStat(StatOf(s.cfg, s.aux(Serve(s.cfg, s.aux, s.sent).k)))
  }

  lemma StatReply(s: Sock, reqId: nat)
    requires s.cfg.Valid()
    ensures ReplyTo(s, Request(OP_STAT, 0, reqId, [])) ==
            RespHeader(reqId, if s.oom then ST_INTERNAL else ST_OK, 0) + StatReplyBody(s)
  {
  }

  lemma StatBodyParses(s: Sock)
    requires s.cfg.Valid() && !s.oom
    ensures |StatReplyBody(s)| == STAT_BODY
    ensures var t := ParseStat(StatReplyBody(s));
            t.baseRow == s.cfg.base && t.rowCount == s.cfg.count && t.rowBytes == ROW_BYTES
  {
    StatRoundTrip(StatOf(s.cfg, s.aux(Serve(s.cfg, s.aux, s.sent).k)));
  }

  lemma GatherReply(s: Sock, truth: RowMap, reqId: nat, ids: seq<nat>)
    requires Conforms(s.cfg, truth) && AllOwned(s.cfg, ids) && !s.oom
    ensures ReplyTo(s, Request(OP_GATHER, 0, reqId, ids)) ==
            if |ids| <= s.cfg.maxRows then RespHeader(reqId, ST_OK, |ids|) + TruthRows(truth, ids)
            else RespHeader(reqId, ST_TOO_MANY, 0) + []
    ensures |TruthRows(truth, ids)| == |ids| * ROW_BYTES
  {
    ServedRowsAreTrue(s.cfg, truth, ids);
  }

  /** `got` bytes of a body are in the row buffer and the rest of it is still unread. */
  ghost predicate BodyAt(left: seq<Byte>, rows: seq<Byte>, body: seq<Byte>, got: nat) {
    got <= |body| <= |rows| && left == body[got..] && rows[..got] == body[..got]
  }

  lemma BodyGrows(left: seq<Byte>, rows: seq<Byte>, body: seq<Byte>, got: nat, chunk: seq<Byte>)
    requires BodyAt(left, rows, body, got) && chunk <= left
    ensures var n := got + |chunk|;
            var r := rows[..got] + chunk + rows[n..];
            |r| == |rows| && BodyAt(left[|chunk|..], r, body, n)
  {
    var n := got + |chunk|;
    assert chunk == body[got..n];
    assert body[..n] == body[..got] + body[got..n];
    assert body[got..][|chunk|..] == body[n..];
  }

  ghost predicate SameEpoch(s: Sock, t: Sock) {
    s.cfg == t.cfg && s.aux == t.aux && s.oom == t.oom && s.sent == t.sent
  }

  lemma StillSettled(s: Sock, t: Sock)
    requires SameEpoch(s, t) && Settled(s)
    ensures Settled(t)
  {
  }

  class Peer {
    const net: Net
    const addr: nat
    var sock: Option<Sock>
    var timeout: nat
    var armed: nat
    var deadline: Option<nat>
    var answered: bool
    var baseRow: nat
    var rowCount: nat
    var rowBytes: nat
    var resident: nat
    var served: nat
    var cap: nat
    var pending: Option<nat>
    var reqIds: seq<nat>
    var rows: seq<Byte>
    var rdWant: nat
    var rdGot: nat
    /** Every GATHER this peer tried to send, whole or in part. */
    ghost var asked: seq<seq<Byte>>

    constructor (net: Net, addr: nat)
      ensures this.net == net && this.addr == addr && sock.None? && deadline.None? && pending.None?
      ensures cap == 0 && reqIds == [] && rows == []
    {
      this.net, this.addr := net, addr;
      sock, deadline, pending := None, None, None;
      timeout, armed, answered := 0, 0, false;
      baseRow, rowCount, rowBytes, resident, served := 0, 0, 0, 0, 0;
      cap, reqIds, rows, rdWant, rdGot := 0, [], [], 0, 0;
      asked := [];
    }

    // -------------------------------------------------------------- states

    /** The connection is a possible history with a conforming server, and the cached timeout
        is the one the socket has. */
    ghost predicate Live()
      reads this`sock, this`armed
    {
      sock.Some? && Plausible(sock.value) && sock.value.tmo == armed
      && Conforms(sock.value.cfg, net.world.truth) && sock.value.cfg in net.world.servers(addr)
    }

    ghost function Left(): seq<Byte>
      requires Live()
      reads this`sock, this`armed
    {
      Unread(sock.value)
    }

    ghost predicate Buffers()
      reads this`rowBytes, this`reqIds, this`cap, this`rows
    {
      rowBytes == ROW_BYTES && |reqIds| == cap && |rows| == cap * ROW_BYTES
    }

    ghost predicate RangeHolds()
      reads this`sock, this`baseRow, this`rowCount
    {
      sock.Some? && sock.value.cfg.base == baseRow && sock.value.cfg.count == rowCount
    }

    /** Open, in sync, nothing outstanding: the state between two calls. */
    ghost predicate Quiet()
      reads this`sock, this`armed, this`pending, this`baseRow, this`rowCount
    {
      Live() && AtRest(sock.value) && pending.None? && RangeHolds()
    }

    /** The ids in the request buffer are ones this peer serves. */
    ghost predicate Loaded(k: nat)
      reads this`rowBytes, this`reqIds, this`cap, this`rows, this`baseRow, this`rowCount
    {
      && Buffers() && 0 < k <= cap && k < TWO32
      && forall i :: 0 <= i < k ==> baseRow <= reqIds[i] < baseRow + rowCount && reqIds[i] < TWO32
    }

    ghost function Expected(k: nat): seq<Byte>
      requires k <= |reqIds|
      reads this`reqIds
    {
      TruthRows(net.world.truth, reqIds[..k])
    }

    /** A GATHER is on the wire and no byte of its answer has been read. */
    ghost predicate Asked(k: nat)
      reads this`sock, this`armed, this`pending, this`rowBytes, this`reqIds, this`cap, this`rows, this`baseRow, this`rowCount
    {
      && Live() && RangeHolds() && Loaded(k)
      && pending.Some? && pending.value < TWO32
      && |Expected(k)| == k * ROW_BYTES
      && if k <= sock.value.cfg.maxRows then
           Settled(sock.value) && Left() == RespHeader(pending.value, ST_OK, k) + Expected(k)
         else
           Whole(sock.value.sent) && Left() == RespHeader(pending.value, ST_TOO_MANY, 0) + []
    }

    /** The header has been accepted and the body is coming in. */
    ghost predicate Reading(k: nat)
      reads this`sock, this`armed, this`pending, this`rowBytes, this`reqIds, this`cap, this`rows, this`baseRow, this`rowCount,
            this`rdWant, this`rdGot
    {
      && Live() && RangeHolds() && Loaded(k) && Settled(sock.value) && pending.None?
      && |Expected(k)| == k * ROW_BYTES == rdWant
      && BodyAt(Left(), rows, Expected(k), rdGot)
    }

    /** The whole answer is in the row buffer and the connection is in sync again. */
    ghost predicate Done(k: nat)
      reads this`sock, this`armed, this`pending, this`rowBytes, this`reqIds, this`cap, this`rows, this`baseRow, this`rowCount
    {
      Quiet() && Loaded(k) && rows[..k * ROW_BYTES] == Expected(k)
    }

    ghost predicate Late()
      reads this`deadline, net
    {
      deadline.Some? && net.now >= deadline.value
    }

    /** Why a call may fail with OSError: the adversary broke something, or time is up. */
    ghost predicate Excused(faults: nat)
      reads this`deadline, this`timeout, net
    {
      net.faults > faults || (deadline.Some? && (timeout == 0 || Late()))
    }

    /** A send whose turn it is breaks: it does so at once, as the adversary says and when it says. */
    twostate predicate SendBreaks(r: Outcome)
      reads this`deadline, this`timeout, net
    {
      deadline.Some? && timeout > 0 && old(net.now) < deadline.value && net.fate(old(net.step)).fault ==>
        && r == Raise(OSError) && net.step == old(net.step) + 1
        && net.now == old(net.now) + Min(net.fate(old(net.step)).delay, Min(timeout, deadline.value - old(net.now)))
    }

    /** With no time left nothing is called any more. */
    twostate predicate StopsWhenLate(r: Outcome)
      reads this`deadline, net
    {
      old(Late()) ==> r == Raise(OSError) && net.step == old(net.step)
    }

    /** Time was spent in calls only, and what failed would have failed anyone who waits as long as this
        peer does, unless time has run out. */
    twostate predicate Fair()
      reads this`timeout, this`deadline, net
    {
      Fairly(net.fate, timeout, deadline, old(net.Counts()), net.Counts())
    }

    /** A send right after the one before it. */
    twostate predicate Volley()
      reads net
    {
      net.sending && net.volley == if old(net.sending) then old(net.volley) + 1 else 1
    }

    /** A call that began at t0 has not run past the deadline. */
    ghost predicate InTime(t0: nat)
      reads this`deadline, net
    {
      t0 <= net.now && (deadline.Some? ==> net.now <= Max(t0, deadline.value))
    }

    // ------------------------------------------------------------ transport

    method Connect(connectTimeout: nat, tmo: nat) returns (r: Outcome)
      modifies this`sock, this`timeout, this`armed
      modifies net`now, net`step, net`faults, net`refused, net`dialed, net`sending, net`ready
      ensures net.now == old(net.now) + Min(net.fate(old(net.step)).delay, connectTimeout)
      ensures net.dialed == (old(net.now), old(net.step)) && net.step == old(net.step) + 1
      ensures r.Ok? <==> !TurnedAway(net.fate(old(net.step)), net.world.servers(addr), connectTimeout)
      ensures Fairly(net.fate, tmo, None, old(net.Counts()), net.Counts()) && net.faults >= old(net.faults)
      ensures net.refused == old(net.refused) + (if r.Ok? then 0 else 1)
      ensures r.Raise? ==>
                || (sock == old(sock) && timeout == old(timeout) && armed == old(armed))
                || (Live() && timeout == tmo)
      ensures r.Ok? ==> Live() && Fresh(sock.value) && timeout == tmo
      ensures r.Ok? && sock.value.oom ==> net.faults > old(net.faults)
      ensures r.Raise? ==> r.e == OSError
    {
      var c := net.Connect(addr, connectTimeout);
      if c.Refused? {
        return Raise(OSError);
      }
      sock := Some(c.sock.(tmo := tmo));
      timeout, armed := tmo, tmo;
      assert Fresh(sock.value);
      FreshIsPlausible(sock.value);
      if c.Half? {
        return Raise(OSError);
      }
      return Ok;
    }

    /** From here on no byte of the old connection can be read. */
    method Close()
      modifies this`sock, this`pending
      ensures sock.None? && pending.None?
    {
      sock, pending := None, None;
    }

    /** The next call may block this long: until the timeout or the deadline, whichever is nearer. */
    method Arm() returns (r: Outcome)
      requires Live()
      modifies this`armed, this`sock
      ensures Live() && sock.value == old(sock.value).(tmo := armed) && Left() == old(Left())
      ensures r.Ok? && deadline.Some? ==> net.now < deadline.value
      ensures r.Ok? ==> armed == if deadline.None? then timeout else Min(timeout, deadline.value - net.now)
      ensures r.Raise? ==> r.e == OSError && deadline.Some? && (Late() || timeout == 0)
    {
      var budget := timeout;
      if deadline.Some? {
        if deadline.value <= net.now || timeout == 0 {
          return Raise(OSError);
        }
        budget := Min(timeout, deadline.value - net.now);
      }
      if budget != armed {
        sock := Some(sock.value.(tmo := budget));
        armed := budget;
      }
      return Ok;
    }

    twostate lemma NoCallIsFair()
      requires unchanged(net)
      ensures Fair()
    {
    }

    /** A call under a timeout that Arm has set. */
    twostate lemma OneCallIsFair()
      requires net.Spends() && net.step == old(net.step) + 1
      requires deadline.Some? ==> old(net.now) <= deadline.value
      requires armed == if deadline.None? then timeout else Min(timeout, deadline.value - old(net.now))
      requires net.now == old(net.now) + Min(net.fate(old(net.step)).delay, armed)
      requires net.faults == old(net.faults) + (if Fails(net.fate(old(net.step)), armed) then 1 else 0)
      ensures Fair()
    {
    }

    /** One recv. An empty chunk is the end of the connection. */
    method Recv(want: nat) returns (r: Outcome, chunk: seq<Byte>)
      requires Live() && want > 0
      modifies this`sock, this`armed, net`now, net`step, net`faults, net`sending, net`ready, net`blind
      ensures Live() && SameEpoch(sock.value, old(sock.value))
      ensures InTime(old(net.now)) && net.faults >= old(net.faults) && Fair()
      ensures r.Ok? && chunk != [] ==>
                |chunk| <= want && chunk <= old(Left()) && Left() == old(Left())[|chunk|..]
      ensures r.Ok? ==> deadline.None? || net.now <= deadline.value
      ensures r.Ok? && chunk == [] ==> net.faults > old(net.faults) || old(Left()) == []
      ensures r.Raise? ==> r.e == OSError && (Excused(old(net.faults)) || old(Left()) == [])
      ensures old(net.ready) > 0 ==> net.blind == old(net.blind) && net.ready + 1 >= old(net.ready)
      ensures r.Ok? ==> sock.value.rcvd == old(sock.value.rcvd) + chunk
      ensures r.Ok? && chunk != [] ==> net.faults == old(net.faults)
    {
      hide Peer.Fair, Waits, Breaks, Fails, Conforms, Emitted;
      chunk := [];
      r := Arm();
      if r.Raise? {
        NoCallIsFair();
        return;
      }
      var got, s := net.Recv(sock.value, want);
      sock := Some(s);
      OneCallIsFair();
      match got {
        case Data(c) =>
          return Ok, c;
        case Closed =>
          return Ok, [];
        case TimedOut =>
          return Raise(OSError), [];
      }
    }

    /** The timeout of a socket is no part of the conversation. */
    lemma Rearmed(s: Sock, t: Sock, q: Request)
      requires s.cfg.Valid() && t == s.(tmo := t.tmo) && (AtRest(s) || (s.oom && Fresh(s)))
      ensures (AtRest(t) || (t.oom && Fresh(t))) && ReplyTo(t, q) == ReplyTo(s, q)
    {
    }

    /** Send a whole request, or fail. */
    method SendAll(q: Request) returns (r: Outcome)
      requires q.Valid() && Live() && (AtRest(sock.value) || (sock.value.oom && Fresh(sock.value)))
      modifies this`sock, this`armed, net`now, net`step, net`faults, net`volley, net`sending, net`ready
      ensures Live() && sock.value.cfg == old(sock.value.cfg)
      ensures InTime(old(net.now)) && net.faults >= old(net.faults) && Fair()
      ensures r.Ok? ==>
                && Left() == ReplyTo(old(sock.value), q)
                && (Shaped(q) ==> Whole(sock.value.sent))
                && (Shaped(q) && !old(sock.value.oom) && q.Readable(sock.value.cfg) ==> Settled(sock.value))
      ensures r.Raise? ==> r.e == OSError && Excused(old(net.faults))
      ensures SendBreaks(r) && StopsWhenLate(r)
      ensures r.Ok? ==> sock.value == old(sock.value).(sent := old(sock.value.sent) + EncodeReq(q.op, q.arg, q.reqId, q.ids), tmo := armed)
      ensures r.Ok? ==> net.faults == old(net.faults) && Volley()
      ensures deadline.None? ==> (r.Ok? <==> !Fails(net.fate(old(net.step)), timeout))
    {
      hide Peer.Fair, Waits, Breaks, Conforms, Emitted, Plausible, Unread, ReplyTo, AtRest, Fresh, Request.Readable, Whole,
           Settled, EncodeReq, Shaped, Config.Valid;
      LiveIsValid();
      r := Arm();
      if r.Raise? {
        NoCallIsFair();
        return;
      }
      ghost var s := sock.value;
      Rearmed(old(sock.value), s, q);
      var ok, t := net.Send(sock.value, EncodeReq(q.op, q.arg, q.reqId, q.ids));
      sock := Some(t);
      OneCallIsFair();
      if !ok {
        return Raise(OSError);
      }
      SendRequest(s, q);
      return Ok;
    }

    method RecvExact(want: nat) returns (r: Outcome, buf: seq<Byte>)
      requires Live() && want <= |Left()|
      modifies this`sock, this`armed, net`now, net`step, net`faults, net`sending, net`ready, net`blind
      ensures Live() && SameEpoch(sock.value, old(sock.value))
      ensures InTime(old(net.now)) && net.faults >= old(net.faults) && Fair()
      ensures r.Ok? ==> buf == old(Left())[..want] && Left() == old(Left())[want..]
      ensures r.Ok? && want > 0 ==> deadline.None? || net.now <= deadline.value
      ensures r.Raise? ==> r.e == OSError && Excused(old(net.faults))
      ensures r.Ok? ==> sock.value.rcvd == old(sock.value.rcvd) + buf && net.faults == old(net.faults)
    {
      hide Conforms, Emitted, Settled, Plausible, Unread, Waits, Breaks;
      buf := [];
      ghost var all := Left();
      while |buf| < want
        invariant Live() && SameEpoch(sock.value, old(sock.value))
        invariant InTime(old(net.now)) && net.faults >= old(net.faults) && Fair()
        invariant sock.value.rcvd == old(sock.value.rcvd) + buf && net.faults == old(net.faults)
        invariant buf != [] ==> deadline.None? || net.now <= deadline.value
        invariant |buf| <= want && buf == all[..|buf|] && Left() == all[|buf|..]
      {
        var chunk;
        r, chunk := Recv(want - |buf|);
        if r.Raise? {
          return;
        }
        if chunk == [] {
          return Raise(OSError), buf;
        }
        buf := buf + chunk;
      }
      return Ok, buf;
    }

    /** What becomes of a header, whatever it says. One of a stream out of step is fatal; a rejected request
        leaves the stream in step; only status 5 is worth another connection. */
    method Judge(h: RespHead) returns (r: Outcome)
      modifies this`pending
      ensures r.Ok? <==> h.magic == 0x50534552 && old(pending) == Some(h.reqId) && h.status == 0
      ensures h.magic != 0x50534552 ==> r == Raise(ProtocolError(BadMagic))
      ensures h.magic == 0x50534552 && old(pending) != Some(h.reqId) ==> r == Raise(ProtocolError(OutOfSync))
      ensures h.magic == 0x50534552 && old(pending) == Some(h.reqId) && h.status != 0 ==>
                r == Raise(if h.status == 5 then OSError else ProtocolError(Status(h.status)))
      ensures pending == if h.magic == 0x50534552 && old(pending) == Some(h.reqId) then None else old(pending)
    {
      if h.magic != MAGIC_RESP {
        return Raise(ProtocolError(BadMagic));
      }
      if Some(h.reqId) != pending {
        return Raise(ProtocolError(OutOfSync));
      }
      pending := None;
      if h.status != 0 {
        return Raise(if h.status == ST_INTERNAL then OSError else ProtocolError(Status(h.status)));
      }
      return Ok;
    }

    /** Read and check a response header. The three checks before the status are the ones a
        stream out of step would trip; here they cannot fire. */
    method ReadHeader(ghost head: RespHead, ghost tail: seq<Byte>) returns (r: Outcome, count: nat)
      requires Live() && pending == Some(head.reqId)
      requires head.reqId < TWO32 && head.status < TWO32 && head.count < TWO32
      requires Left() == RespHeader(head.reqId, head.status, head.count) + tail
      modifies this`sock, this`armed, this`pending, net`now, net`step, net`faults, net`sending, net`ready, net`blind
      ensures Live() && SameEpoch(sock.value, old(sock.value))
      ensures InTime(old(net.now)) && net.faults >= old(net.faults) && Fair()
      ensures r.Ok? ==> deadline.None? || net.now <= deadline.value
      ensures r.Ok? ==> head.status == 0 && count == head.count && Left() == tail && pending.None?
      ensures r == Raise(OSError) ==> Excused(old(net.faults)) || head.status == ST_INTERNAL
      ensures r.Raise? && r != Raise(OSError) ==>
                head.status !in {ST_OK, ST_INTERNAL} && r == Raise(ProtocolError(Status(head.status)))
      ensures r.Ok? ==> sock.value.rcvd == old(sock.value.rcvd) + RespHeader(head.reqId, head.status, head.count)
      ensures r.Ok? ==> net.faults == old(net.faults)
    {
      count := 0;
      var hdr;
      r, hdr := RecvExact(HEADER);
      if r.Raise? {
        return;
      }
      assert hdr == RespHeader(head.reqId, head.status, head.count) + [];
      RespHeaderRoundTrip(head.reqId, head.status, head.count, []);
      var h := ParseResp(hdr);
      r := Judge(h);
      count := if r.Ok? then h.count else 0;
    }

    /** Since the socket was s, one STAT has gone out and its answer, which says stat, has come in. */
    ghost predicate StatSeen(s: Sock, reqId: nat, stat: Stat)
      requires reqId < TWO32
      reads this`sock
    {
      && sock.Some? && sock.value.sent == s.sent + EncodeReq(OP_STAT, 0, reqId, [])
      && Answered(s, reqId, stat)
    }

    ghost predicate Answered(s: Sock, reqId: nat, stat: Stat)
      requires reqId < TWO32
      reads this`sock
    {
      && sock.Some? && |sock.value.rcvd| == |s.rcvd| + HEADER + STAT_BODY
      && var body := sock.value.rcvd[|s.rcvd| + HEADER..];
         sock.value.rcvd == s.rcvd + RespHeader(reqId, ST_OK, 0) + body && stat == ParseStat(body)
    }

    method SendBare(op: nat, reqId: nat) returns (r: Outcome)
      requires op < 0x100 && reqId < TWO32
      requires Live() && (AtRest(sock.value) || (sock.value.oom && Fresh(sock.value)))
      modifies this`sock, this`armed, this`pending, net`now, net`step, net`faults, net`volley, net`sending, net`ready
      ensures Live() && sock.value.cfg == old(sock.value.cfg)
      ensures InTime(old(net.now)) && net.faults >= old(net.faults) && Fair()
      ensures r.Ok? ==>
                && pending == Some(reqId)
                && Left() == ReplyTo(old(sock.value), Request(op, 0, reqId, []))
                && (!old(sock.value.oom) ==> Settled(sock.value))
      ensures r.Raise? ==> r.e == OSError && Excused(old(net.faults))
      ensures StopsWhenLate(r)
      ensures r.Ok? ==> sock.value == old(sock.value).(sent := old(sock.value.sent) + EncodeReq(op, 0, reqId, []), tmo := armed)
      ensures r.Ok? ==> net.faults == old(net.faults) && Volley()
      ensures deadline.None? ==> (r.Ok? <==> !Fails(net.fate(old(net.step)), timeout))
    {
      r := SendAll(Request(op, 0, reqId, []));
      if r.Raise? {
        return;
      }
      pending := Some(reqId);
      return Ok;
    }

    method ReadAck() returns (r: Outcome)
      requires Live() && Settled(sock.value) && pending.Some? && pending.value < TWO32
      requires Left() == RespHeader(pending.value, ST_OK, 0) + []
      modifies this`sock, this`armed, this`pending, net`now, net`step, net`faults, net`sending, net`ready, net`blind
      ensures Live() && SameEpoch(sock.value, old(sock.value))
      ensures InTime(old(net.now)) && net.faults >= old(net.faults) && Fair()
      ensures r.Ok? ==> AtRest(sock.value) && pending.None?
      ensures r.Raise? ==> r.e == OSError && Excused(old(net.faults))
      ensures r.Ok? ==> sock.value.rcvd == old(sock.value.rcvd) + RespHeader(old(pending.value), ST_OK, 0) && net.faults == old(net.faults)
    {
      var n;
      r, n := ReadHeader(RespHead(MAGIC_RESP, pending.value, ST_OK, 0), []);
      if r.Raise? {
        return;
      }
      if n != 0 {
        return Raise(ProtocolError(UnexpectedRows));
      }
    }

    lemma NowAtRest(s: Sock, t: Sock)
      requires SameEpoch(s, t) && Settled(s) && Plausible(t) && Unread(t) == []
      ensures AtRest(t)
    {
      StillSettled(s, t);
    }

    /** The answer to a STAT, from its first byte to its last. */
    method ReadStat(ghost s: Sock) returns (r: Outcome, stat: Stat)
      requires Live() && s.cfg.Valid() && pending.Some? && pending.value < TWO32 && sock.value.cfg == s.cfg
      requires Left() == RespHeader(pending.value, if s.oom then ST_INTERNAL else ST_OK, 0) + StatReplyBody(s)
      requires !s.oom ==> Settled(sock.value)
      modifies this`sock, this`armed, this`pending, net`now, net`step, net`faults, net`sending, net`ready, net`blind
      ensures Live() && SameEpoch(sock.value, old(sock.value))
      ensures InTime(old(net.now)) && net.faults >= old(net.faults) && Fair()
      ensures r.Ok? ==>
                && !s.oom && AtRest(sock.value) && pending.None? && net.faults == old(net.faults)
                && stat.baseRow == s.cfg.base && stat.rowCount == s.cfg.count && stat.rowBytes == ROW_BYTES
                && (deadline.None? || net.now <= deadline.value)
      ensures r.Ok? ==> Answered(old(sock.value), old(pending.value), stat)
      ensures r.Raise? ==> r.e == OSError && (Excused(old(net.faults)) || s.oom)
    {
      hide Conforms, Emitted, StatReplyBody, Waits, Breaks, AtRest, Settled, ParseStat;
      stat := Stat(0, 0, 0, 0, 0);
      ghost var body := StatReplyBody(s);
      var n;
      r, n := ReadHeader(RespHead(MAGIC_RESP, pending.value, if s.oom then ST_INTERNAL else ST_OK, 0), body);
      if r.Raise? {
        return;
      }
      if n != 0 {
        return Raise(ProtocolError(UnexpectedRows)), stat;
      }
      StatBodyParses(s);
      var b;
      r, b := RecvExact(STAT_BODY);
      if r.Raise? {
        return;
      }
      assert b == body;
      NowAtRest(old(sock.value), sock.value);
      stat := ParseStat(b);
      return Ok, stat;
    }

    method QueryStat(reqId: nat) returns (r: Outcome, stat: Stat)
      requires reqId < TWO32 && Live() && (AtRest(sock.value) || (sock.value.oom && Fresh(sock.value)))
      modifies this`sock, this`armed, this`pending, net`now, net`step, net`faults, net`volley, net`sending, net`ready, net`blind
      ensures Live() && sock.value.cfg == old(sock.value.cfg)
      ensures InTime(old(net.now)) && net.faults >= old(net.faults) && Fair()
      ensures r.Ok? ==>
                && AtRest(sock.value) && pending.None?
                && stat.baseRow == sock.value.cfg.base && stat.rowCount == sock.value.cfg.count
                && stat.rowBytes == ROW_BYTES
                && (deadline.None? || net.now <= deadline.value)
      ensures r.Raise? ==> r.e == OSError && (Excused(old(net.faults)) || old(sock.value.oom))
      ensures StopsWhenLate(r)
      ensures r.Ok? ==> net.faults == old(net.faults) && StatSeen(old(sock.value), reqId, stat)
    {
      hide Conforms, Emitted, Plausible, StatReplyBody, Waits, Breaks, AtRest, Fresh, Settled, Whole, Unread, ReplyTo, EncodeReq,
           ParseStat, Config.Valid;
      LiveIsValid();
      stat := Stat(0, 0, 0, 0, 0);
      ghost var s := sock.value;
      r := SendBare(OP_STAT, reqId);
      if r.Raise? {
        return;
      }
      StatReply(s, reqId);
      r, stat := ReadStat(s);
    }


    // --------------------------------------------------------------- gather

    /** Room for n ids and their rows; the buffers never shrink. */
    method Reserve(n: nat)
      requires Buffers()
      modifies this`cap, this`reqIds, this`rows
      ensures Buffers() && cap == if n <= old(cap) then old(cap) else Max(n, 4096)
      ensures n <= old(cap) ==> reqIds == old(reqIds) && rows == old(rows)
    {
      if n <= cap {
        return;
      }
      cap := Max(n, 4096);
      reqIds := seq(cap, i => 0);
      rows := seq(cap * ROW_BYTES, i => 0 as Byte);
    }

    lemma LoadedFits(count: nat)
      requires Loaded(count)
      ensures 0 < count <= cap == |reqIds| && count < TWO32 && rowBytes == ROW_BYTES && |rows| == cap * ROW_BYTES
    {
    }

    lemma LiveIsValid()
      requires Live()
      ensures sock.value.cfg.Valid()
    {
    }

    lemma QuietIsUp()
      requires Quiet()
      ensures Live() && RangeHolds() && AtRest(sock.value) && !sock.value.oom
    {
    }

    lemma LoadedRequest(reqId: nat, count: nat)
      requires reqId < TWO32 && RangeHolds() && Loaded(count)
      ensures Request(OP_GATHER, 0, reqId, reqIds[..count]).Valid()
      ensures AllOwned(sock.value.cfg, reqIds[..count])
    {
    }

    lemma NowAsked(s: Sock, reqId: nat, count: nat)
      requires reqId < TWO32 && Live() && RangeHolds() && Loaded(count) && pending == Some(reqId)
      requires !s.oom && s.cfg == sock.value.cfg && AllOwned(s.cfg, reqIds[..count])
      requires Left() == ReplyTo(s, Request(OP_GATHER, 0, reqId, reqIds[..count]))
      requires Request(OP_GATHER, 0, reqId, reqIds[..count]).Readable(s.cfg) ==> Settled(sock.value)
      requires Whole(sock.value.sent)
      ensures Asked(count)
    {
      GatherReply(s, net.world.truth, reqId, reqIds[..count]);
    }

    /** Ask for the first count loaded ids. Nothing may be outstanding. */
    method SendGather(reqId: nat, count: nat) returns (r: Outcome)
      requires reqId < TWO32 && Quiet() && Loaded(count)
      modifies this`sock, this`armed, this`pending, this`asked, net`now, net`step, net`faults, net`volley, net`sending, net`ready
      ensures Live() && RangeHolds() && sock.value.cfg == old(sock.value.cfg)
      ensures InTime(old(net.now)) && net.faults >= old(net.faults) && Fair()
      ensures |asked| == |old(asked)| + 1 && asked[..|old(asked)|] == old(asked)
      ensures GathersExactly(asked[|old(asked)|], reqIds[..count])
      ensures r.Ok? ==> Asked(count)
      ensures r.Raise? ==> r.e == OSError && Excused(old(net.faults))
      ensures SendBreaks(r)
      ensures r.Ok? ==> Volley() && pending == Some(reqId)
    {
      hide Conforms, Emitted, Plausible, Peer.Asked, Request.Readable, Waits, Breaks, TruthRows, Peer.Loaded, ReplyTo, Unread,
           Whole, Settled, EncodeReq, Peer.Quiet;
      LoadedFits(count);
      QuietIsUp();
      var ids := reqIds[..count];
      var q := Request(OP_GATHER, 0, reqId, ids);
      ghost var s := sock.value;
      LoadedRequest(reqId, count);
      asked := asked + [EncodeReq(OP_GATHER, 0, reqId, ids)];
      r := SendAll(q);
      if r.Raise? {
        return;
      }
      pending := Some(reqId);
      NowAsked(s, reqId, count);
    }

    /** From Asked to Reading: the header is the only thing read. */
    method BeginRows(count: nat) returns (r: Outcome)
      requires Asked(count)
      modifies this`sock, this`armed, this`pending, this`rdWant, this`rdGot, net`now, net`step, net`faults, net`sending, net`ready, net`blind
      ensures Live() && RangeHolds()
      ensures InTime(old(net.now)) && net.faults >= old(net.faults) && Fair()
      ensures r.Ok? ==> Reading(count) && 0 == rdGot < rdWant && (deadline.None? || net.now <= deadline.value)
      ensures r == Raise(OSError) ==> Excused(old(net.faults))
      ensures r.Raise? && r != Raise(OSError) ==>
                r == Raise(ProtocolError(Status(ST_TOO_MANY))) && count > sock.value.cfg.maxRows
      ensures Live()
    {
      hide Conforms, Emitted, Settled, Plausible, TruthRows, Peer.Loaded, Waits, Breaks, Whole, Unread, Config.Valid, Serve, RespHeader;
      LoadedFits(count);
      ghost var s := sock.value;
      var got;
      if count <= sock.value.cfg.maxRows {
        r, got := ReadHeader(RespHead(MAGIC_RESP, pending.value, ST_OK, count), Expected(count));
      } else {
        r, got := ReadHeader(RespHead(MAGIC_RESP, pending.value, ST_TOO_MANY, 0), []);
      }
      if r.Raise? {
        return;
      }
      if got != count {
        return Raise(ProtocolError(WrongCount));
      }
      StillSettled(s, sock.value);
      rdWant, rdGot := count * rowBytes, 0;
    }

    /** A chunk of the body goes into the row buffer behind the bytes already there. */
    method Store(chunk: seq<Byte>, ghost count: nat, ghost left: seq<Byte>)
      requires Live() && RangeHolds() && Loaded(count) && Settled(sock.value) && pending.None?
      requires |Expected(count)| == count * ROW_BYTES == rdWant
      requires BodyAt(left, rows, Expected(count), rdGot) && chunk <= left && Left() == left[|chunk|..]
      modifies this`rows, this`rdGot, this`answered
      ensures Reading(count) && rdGot == old(rdGot) + |chunk| && (answered <==> rdGot >= rdWant)
    {
      hide Conforms, Emitted, Settled, Plausible, TruthRows, BodyAt, Unread;
      BodyGrows(left, rows, Expected(count), rdGot, chunk);
      var got := rdGot + |chunk|;
      rows, rdGot, answered := rows[..rdGot] + chunk + rows[got..], got, got >= rdWant;
    }

    /** One step of Reading, of whatever length the network gives. */
    method PumpRows(ghost count: nat) returns (r: Outcome)
      requires Reading(count) && rdGot < rdWant && !answered
      modifies this`sock, this`armed, this`rows, this`rdGot, this`answered, net`now, net`step, net`faults, net`sending, net`ready, net`blind
      ensures Live() && RangeHolds() && Loaded(count) && rdGot <= rdWant
      ensures InTime(old(net.now)) && net.faults >= old(net.faults) && Fair()
      ensures r.Ok? ==> deadline.None? || net.now <= deadline.value
      ensures r.Ok? ==> Reading(count) && rdGot > old(rdGot) && (answered <==> rdGot >= rdWant)
      ensures r.Raise? ==> r.e == OSError && Excused(old(net.faults)) && !answered
      ensures old(net.ready) > 0 ==> net.blind == old(net.blind) && net.ready + 1 >= old(net.ready)
    {
      hide Conforms, Emitted, Settled, Plausible, Unread, TruthRows, Peer.Loaded, Waits, Breaks;
      ghost var left := Left();
      ghost var s := sock.value;
      var chunk;
      r, chunk := Recv(rdWant - rdGot);
      if r.Raise? {
        return;
      }
      if chunk == [] {
        return Raise(OSError);
      }
      StillSettled(s, sock.value);
      Store(chunk, count, left);
    }

    lemma CompleteIsDone(count: nat)
      requires Reading(count) && rdGot == rdWant
      ensures Done(count)
    {
    }

    method FinishRows(ghost count: nat) returns (r: Outcome)
      requires Reading(count) && !answered && rdGot < rdWant
      modifies this`sock, this`armed, this`rows, this`rdGot, this`answered, net`now, net`step, net`faults, net`sending, net`ready, net`blind
      ensures Live() && RangeHolds() && Loaded(count)
      ensures InTime(old(net.now)) && net.faults >= old(net.faults) && Fair()
      ensures r.Ok? ==> Done(count) && answered
      ensures r.Raise? ==> r.e == OSError && Excused(old(net.faults)) && !answered
    {
      hide Waits, Breaks, Conforms, Emitted, Plausible, Unread, Settled, TruthRows, BodyAt, Peer.Loaded;
      while rdGot < rdWant
        invariant Reading(count) && rdGot <= rdWant && (answered <==> rdGot >= rdWant)
        invariant InTime(old(net.now)) && net.faults >= old(net.faults) && Fair()
        decreases rdWant - rdGot
      {
        :- PumpRows(count);
      }
      CompleteIsDone(count);
      return Ok;
    }

    /** Row t of a complete answer is the row of the t-th id asked for. */
    lemma RowOfAnswer(k: nat, t: nat)
      requires Done(k) && t < k
      ensures (t + 1) * ROW_BYTES <= |rows| && rows[t * ROW_BYTES..(t + 1) * ROW_BYTES] == net.world.truth(reqIds[t])
    {
      hide Whole, Emitted, Plausible, Serve, Settled, TruthRows, RowsOf;
      var ids := reqIds[..k];
      ServedRowsAreTrue(sock.value.cfg, net.world.truth, ids);
      TruthRowAt(net.world.truth, ids, t);
      var body := rows[..k * ROW_BYTES];
      assert (t + 1) * ROW_BYTES <= k * ROW_BYTES;
      assert body[t * ROW_BYTES..(t + 1) * ROW_BYTES] == rows[t * ROW_BYTES..(t + 1) * ROW_BYTES];
    }
  }
}
