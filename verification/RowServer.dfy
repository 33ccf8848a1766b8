/** The serving side: one connection's loop over a byte stream that arrives in arbitrary pieces. */
module RowServer {
  import opened Bytes
  import opened Wire
  import opened Transducer
  import opened Protocol
  import opened Network

  /** What one read or write does. Bytes(n) moves up to n bytes, the rest are the ways it can fail. */
  datatype Event = Moved(n: nat) | Interrupted | WouldBlock | Broken

  datatype Rd = RdOk | RdEof | RdErr | RdTimeout

  /** A connection. `input` is everything the client will ever send on it and `events` is the
      rest of its life; when that is used up the connection is gone. */
  class Conn {
    const input: seq<Byte>
    var pos: nat
    var out: seq<Byte>
    var events: seq<Event>
    /** A write has failed part way. */
    ghost var cut: bool
    /** A read or a write has failed for good. */
    ghost var lost: bool
    /** A read has timed out. */
    ghost var stalled: bool

    constructor (input: seq<Byte>, events: seq<Event>)
      ensures this.input == input && this.events == events && pos == 0 && out == []
      ensures !cut && !lost && !stalled
    {
      this.input, this.events := input, events;
      pos, out := 0, [];
      cut, lost, stalled := false, false, false;
    }

    ghost predicate Valid()
      reads `pos
    {
      pos <= |input|
    }

    /** There is a reason to stop reading. A timeout is one only inside a message. */
    ghost predicate Gone(inside: bool)
      reads `pos, `lost, `stalled
    {
      lost || pos == |input| || (inside && stalled)
    }

    /** read(2): some bytes, the end of the stream, or a reason for none. */
    method Read(n: nat) returns (e: Event, chunk: seq<Byte>)
      requires Valid() && n > 0
      modifies this`pos, this`events, this`lost, this`stalled
      ensures Valid() && events == if old(events) == [] then [] else old(events)[1..]
      ensures (lost <==> old(lost) || e.Broken?) && (stalled <==> old(stalled) || e.WouldBlock?)
      ensures e.Moved? && chunk == [] ==> pos == |input|
      ensures old(events) == [] ==> e.Broken?
      ensures |chunk| <= n && pos == old(pos) + |chunk| && chunk == input[old(pos)..pos]
      ensures !e.Moved? ==> chunk == []
    {
      chunk := [];
      if events == [] {
        lost := true;
        return Broken, [];
      }
      e, events := events[0], events[1..];
      lost, stalled := lost || e.Broken?, stalled || e.WouldBlock?;
      if e.Moved? {
        var left := |input| - pos;
        var most := if n < left then n else left;
        var k := if 1 <= e.n <= most then e.n else most;
        chunk := input[pos..pos + k];
        pos := pos + k;
      }
    }

    /** write(2): at least one byte, or a reason for none. */
    method Write(buf: seq<Byte>) returns (e: Event, n: nat)
      requires buf != []
      modifies this`out, this`events, this`lost
      ensures lost <==> old(lost) || e.Broken? || e.WouldBlock?
      ensures events == if old(events) == [] then [] else old(events)[1..]
      ensures old(events) == [] ==> e.Broken?
      ensures n <= |buf| && out == old(out) + buf[..n] && (n > 0 <==> e.Moved?)
    {
      n := 0;
      if events == [] {
        lost := true;
        return Broken, 0;
      }
      e, events := events[0], events[1..];
      lost := lost || e.Broken? || e.WouldBlock?;
      if e.Moved? {
        n := if 1 <= e.n <= |buf| then e.n else |buf|;
        out := out + buf[..n];
      }
    }

    method ReadFull(n: nat) returns (r: Rd, buf: seq<Byte>)
      requires Valid()
      modifies this`pos, this`events, this`lost, this`stalled
      ensures Valid() && old(pos) <= pos <= old(pos) + n && |events| <= |old(events)|
      ensures r.RdOk? <==> pos == old(pos) + n
      ensures r.RdOk? ==> buf == input[old(pos)..pos]
      ensures r.RdTimeout? ==> pos == old(pos) && |events| < |old(events)|
      ensures r.RdEof? ==> pos == old(pos) == |input|
      ensures r.RdErr? ==> Gone(pos > old(pos))
      ensures r.RdTimeout? ==> stalled
    {
      buf := [];
      while |buf| < n
        invariant Valid() && |buf| <= n && pos == old(pos) + |buf| && buf == input[old(pos)..pos]
        invariant |events| <= |old(events)|
        decreases |events| + n - |buf|
      {
        var e, chunk := Read(n - |buf|);
        if chunk != [] {
          buf := buf + chunk;
          continue;
        }
        if e.Moved? {
          return if buf == [] then RdEof else RdErr, buf;
        }
        if e.Interrupted? {
          continue;
        }
        return if e.WouldBlock? && buf == [] then RdTimeout else RdErr, buf;
      }
      return RdOk, buf;
    }

    method WriteFull(buf: seq<Byte>) returns (ok: bool)
      modifies this`out, this`events, this`cut, this`lost
      ensures (old(lost) || !ok ==> lost)
      ensures |events| <= |old(events)| && (cut <==> old(cut) || !ok)
      ensures ok ==> out == old(out) + buf
      ensures !ok ==> old(out) <= out < old(out) + buf
    {
      var sent := 0;
      while sent < |buf|
        invariant 0 <= sent <= |buf| && out == old(out) + buf[..sent]
        invariant |events| <= |old(events)| && cut == old(cut) && (old(lost) ==> lost)
        decreases |events| + |buf| - sent
      {
        var e, n := Write(buf[sent..]);
        if n > 0 {
          assert buf[..sent] + buf[sent..][..n] == buf[..sent + n];
          sent := sent + n;
          continue;
        }
        if e.Interrupted? {
          continue;
        }
        cut := true;
        return false;
      }
      assert buf[..|buf|] == buf;
      return true;
    }

    /** Read and drop an id array nobody will use, in pieces of the scratch buffer. */
    method Drain(scratch: nat, bytes: nat) returns (ok: bool)
      requires Valid() && scratch > 0
      modifies this`pos, this`events, this`lost, this`stalled
      ensures Valid() && |events| <= |old(events)|
      ensures ok ==> pos == old(pos) + bytes && bytes <= MAX_DRAIN_BYTES
      ensures !ok && bytes <= MAX_DRAIN_BYTES ==> Gone(true)
      ensures !ok ==> if bytes > MAX_DRAIN_BYTES then pos == old(pos) else old(pos) <= pos < old(pos) + bytes
    {
      if bytes > MAX_DRAIN_BYTES {
        return false;
      }
      var left := bytes;
      while left > 0
        invariant Valid() && 0 <= left <= bytes && pos == old(pos) + bytes - left
        invariant |events| <= |old(events)|
      {
        var n := if left < scratch then left else scratch;
        var r, _ := ReadFull(n);
        if r != RdOk {
          return false;
        }
        left := left - n;
      }
      return true;
    }
  }

  // ----------------------------------------------------------------- gather

  /** uint32_t subtraction. */
  function Sub32(a: nat, b: nat): (d: nat)
    ensures d < TWO32
  {
    (a - b) % TWO32
  }

  /** Ids below the base wrap past the row count, so one unsigned compare covers both ends. */
  lemma OneCompareCoversBothEnds(cfg: Config, id: nat)
    requires cfg.Valid() && id < TWO32
    ensures Sub32(id, cfg.base) < cfg.count <==> cfg.Owns(id)
    ensures cfg.Owns(id) ==> Sub32(id, cfg.base) == id - cfg.base
  {
    if id < cfg.base {
      assert Sub32(id, cfg.base) == id - cfg.base + TWO32;
    }
  }

  /** For u32 bases and counts the compare is right about every id exactly if the range ends
      within the u32 ids. Beyond that it claims rows at the bottom of the table. */
  lemma OneCompareIsExactIff(base: nat, count: nat)
    requires base < TWO32 && count < TWO32
    ensures (forall id: nat | id < TWO32 :: Sub32(id, base) < count <==> base <= id < base + count)
            <==> base + count <= TWO32
  {
    if base + count > TWO32 {
      assert Sub32(0, base) == TWO32 - base;
    } else {
      forall id: nat | id < TWO32
        ensures Sub32(id, base) < count <==> base <= id < base + count
      {
        assert id < base ==> Sub32(id, base) == id - base + TWO32;
      }
    }
  }

  /** The startup check: each term on its own first, because their u64 sum could wrap. */
  function Accepts(baseRow: nat, rowCount: nat, fileSize: nat): bool
    requires baseRow < TWO64 && rowCount < TWO64 && fileSize < TWO64
  {
    && rowCount != 0
    && !(baseRow > TWO32 - 1 || rowCount > TWO32 - 1 || (baseRow + rowCount) % TWO64 > TWO32 - 1)
    && fileSize == (rowCount * ROW_BYTES) % TWO64
  }

  /** What it accepts is a configuration every other proof here starts from, and nothing more. */
  lemma AcceptsExactlyValid(baseRow: nat, rowCount: nat, table: seq<Byte>, maxRows: nat)
    requires baseRow < TWO64 && rowCount < TWO64 && |table| < TWO64 && 1 <= maxRows <= MAX_MAX_ROWS
    ensures Accepts(baseRow, rowCount, |table|) <==> Config(baseRow, rowCount, table, maxRows).Valid()
    ensures Accepts(baseRow, rowCount, |table|) <==>
            rowCount > 0 && baseRow + rowCount <= 4_294_967_295 && |table| == 160 * rowCount
  {
  }

  lemma IdsBelow(b: seq<Byte>, n: nat, i: nat)
    requires 4 * n <= |b| && i < n
    ensures ReadWords(b, n)[i] == Value(b[4 * i..4 * i + 4]) < TWO32
  {
    ReadWordsAt(b, n, i);
    Powers();
    ValueBound(b[4 * i..4 * i + 4]);
  }

  lemma RowsGrow(cfg: Config, ids: seq<nat>, i: nat)
    requires cfg.Valid() && i < |ids| && AllOwned(cfg, ids[..i]) && cfg.Owns(ids[i])
    ensures AllOwned(cfg, ids[..i + 1])
    ensures RowsOf(cfg, ids[..i + 1]) == RowsOf(cfg, ids[..i]) + RowAt(cfg, ids[i])
  {
    assert ids[..i + 1][..i] == ids[..i];
  }

  method CopyRow(cfg: Config, local: nat, dst: array<Byte>, at: nat)
    requires cfg.Valid() && local < cfg.count && at + ROW_BYTES <= dst.Length
    modifies dst
    ensures dst[..at] == old(dst[..at])
    ensures dst[..at + ROW_BYTES] == old(dst[..at]) + RowAt(cfg, cfg.base + local)
  {
    SliceFits(cfg, local);
    forall j | 0 <= j < ROW_BYTES {
      dst[at + j] := cfg.table[local * ROW_BYTES + j];
    }
    assert dst[at..at + ROW_BYTES] == RowAt(cfg, cfg.base + local);
    assert dst[..at + ROW_BYTES] == dst[..at] + dst[at..at + ROW_BYTES];
  }

  /** Copy the rows of `count` ids behind the header space of the response buffer. */
  method GatherRows(cfg: Config, ids: seq<Byte>, count: nat, dst: array<Byte>) returns (status: nat)
    requires cfg.Valid() && 4 * count <= |ids| && dst.Length >= HEADER + count * ROW_BYTES
    modifies dst
    ensures status == if AllOwned(cfg, ReadWords(ids, count)) then ST_OK else ST_RANGE
    ensures status == ST_OK ==>
              dst[HEADER..HEADER + count * ROW_BYTES] == RowsOf(cfg, ReadWords(ids, count))
  {
    hide RowsOf, RowAt, ReadWords, Sub32;
    ghost var want := ReadWords(ids, count);
    ghost var head := dst[..HEADER];
    for i := 0 to count
      invariant AllOwned(cfg, want[..i])
      invariant dst[..HEADER + i * ROW_BYTES] == head + RowsOf(cfg, want[..i])
    {
      var id := Value(ids[4 * i..4 * i + 4]);
      IdsBelow(ids, count, i);
      OneCompareCoversBothEnds(cfg, id);
      var local := Sub32(id, cfg.base);
      if local >= cfg.count {
        assert !cfg.Owns(want[i]);
        return ST_RANGE;
      }
      RowsGrow(cfg, want, i);
      assert (i + 1) * ROW_BYTES <= count * ROW_BYTES;
      CopyRow(cfg, local, dst, HEADER + i * ROW_BYTES);
    }
    assert want[..count] == want;
    return ST_OK;
  }

  // ---------------------------------------------------------------- serving

  /** Header and rows sit in one buffer, so that a reply is one write. */
  method SendResponse(c: Conn, resp: array<Byte>, reqId: nat, status: nat, count: nat, body: nat) returns (ok: bool)
    requires resp.Length >= HEADER + body
    modifies resp, c`out, c`events, c`cut, c`lost
    ensures |c.events| <= |old(c.events)| && (c.cut <==> old(c.cut) || !ok) && (old(c.lost) || !ok ==> c.lost)
    ensures var all := old(c.out) + Resp(reqId, status, count, old(resp[HEADER..HEADER + body]));
            if ok then c.out == all else old(c.out) <= c.out < all
  {
    var h := RespHeader(reqId, status, count);
    ghost var rows := resp[HEADER..HEADER + body];
    forall i | 0 <= i < HEADER {
      resp[i] := h[i];
    }
    assert resp[..HEADER + body] == h + rows;
    ok := c.WriteFull(resp[..HEADER + body]);
  }

  /** All the server will have written once the stream stops inside `b`. */
  ghost function Emission(cfg: Config, aux: nat -> Aux, b: seq<Byte>): seq<Byte>
    requires cfg.Valid()
  {
    var s := Serve(cfg, aux, b);
    s.out + if s.open then Parting(cfg, s.rest) else []
  }

  /** At a header boundary after k replies: nothing half read, nothing half written. */
  ghost predicate AtBoundary(c: Conn, cfg: Config, aux: nat -> Aux, k: nat)
    reads c`pos, c`out, c`cut
  {
    c.Valid() && cfg.Valid() && !c.cut && Serve(cfg, aux, c.input[..c.pos]) == Served(c.out, [], k, true)
  }

  /** `m` is what has been read since the last boundary. */
  ghost predicate Inside(c: Conn, cfg: Config, aux: nat -> Aux, k: nat, m: seq<Byte>)
    reads c`pos, c`out, c`cut
  {
    && c.Valid() && cfg.Valid() && !c.cut && |m| <= c.pos && m == c.input[c.pos - |m|..c.pos]
    && Serve(cfg, aux, c.input[..c.pos - |m|]) == Served(c.out, [], k, true)
  }

  /** Everything written is what the reference writes, cut short only if a write failed, and
      there is a reason for having stopped. */
  ghost predicate Delivered(c: Conn, cfg: Config, aux: nat -> Aux)
    reads c`pos, c`out, c`cut, c`lost, c`stalled
  {
    && c.Valid() && cfg.Valid()
    && (c.cut ==> c.lost)
    && (Serve(cfg, aux, c.input[..c.pos]).open ==> c.Gone(Serve(cfg, aux, c.input[..c.pos]).rest != []))
    && var all := Emission(cfg, aux, c.input[..c.pos]);
       if c.cut then c.out < all else c.out == all
  }

  /** One more piece of the stream after a boundary. */
  lemma AfterBoundary(cfg: Config, aux: nat -> Aux, a: seq<Byte>, k: nat, out: seq<Byte>, m: seq<Byte>)
    requires cfg.Valid() && Serve(cfg, aux, a) == Served(out, [], k, true)
    ensures var t := Run(Handler(cfg, aux), k, m);
            Serve(cfg, aux, a + m) == t.(out := out + t.out)
  {
    hide Handle;
    HandlerIsStable(cfg, aux);
    RunAppend(Handler(cfg, aux), 0, a, m);
    assert [] + m == m;
  }

  lemma AfterShort(cfg: Config, aux: nat -> Aux, a: seq<Byte>, k: nat, out: seq<Byte>, m: seq<Byte>)
    requires cfg.Valid() && Serve(cfg, aux, a) == Served(out, [], k, true) && Handle(cfg, aux(k), m).NeedMore?
    ensures Emission(cfg, aux, a + m) == out + Parting(cfg, m)
    ensures Serve(cfg, aux, a + m).rest == m
  {
    hide Handle, Parting;
    AfterBoundary(cfg, aux, a, k, out, m);
    assert Handler(cfg, aux)(k, m) == NeedMore;
    assert Run(Handler(cfg, aux), k, m) == Served([], m, k, true);
  }

  lemma AfterLast(cfg: Config, aux: nat -> Aux, a: seq<Byte>, k: nat, out: seq<Byte>, m: seq<Byte>, o: seq<Byte>)
    requires cfg.Valid() && Serve(cfg, aux, a) == Served(out, [], k, true) && Handle(cfg, aux(k), m) == Last(o)
    ensures Emission(cfg, aux, a + m) == out + o && !Serve(cfg, aux, a + m).open
  {
    hide Handle, Parting;
    AfterBoundary(cfg, aux, a, k, out, m);
    assert Handler(cfg, aux)(k, m) == Last(o);
    assert Run(Handler(cfg, aux), k, m) == Served(o, [], k + 1, false);
    assert (out + o) + [] == out + o;
  }

  lemma AfterReply(cfg: Config, aux: nat -> Aux, a: seq<Byte>, k: nat, out: seq<Byte>, m: seq<Byte>, o: seq<Byte>)
    requires cfg.Valid() && Serve(cfg, aux, a) == Served(out, [], k, true)
    requires Handle(cfg, aux(k), m) == Reply(o, |m|) && m != []
    ensures Serve(cfg, aux, a + m) == Served(out + o, [], k + 1, true)
  {
    hide Handle;
    AfterBoundary(cfg, aux, a, k, out, m);
    assert Handler(cfg, aux)(k, m) == Reply(o, |m|);
    assert m[|m|..] == [];
    NothingYet(cfg, aux, k + 1);
    assert Run(Handler(cfg, aux), k, m) == Served(o + [], [], k + 1, true);
  }

  lemma NothingYet(cfg: Config, aux: nat -> Aux, k: nat)
    requires cfg.Valid()
    ensures Run(Handler(cfg, aux), k, []) == Served([], [], k, true)
  {
    assert Handler(cfg, aux)(k, []) == Handle(cfg, aux(k), []);
  }

  /** Send the reply to a whole message and stand at the next boundary. */
  method Respond(c: Conn, cfg: Config, aux: nat -> Aux, k: nat, ghost m: seq<Byte>, resp: array<Byte>,
                 reqId: nat, status: nat, count: nat, body: nat)
    returns (more: bool)
    requires resp.Length >= HEADER + body && Inside(c, cfg, aux, k, m) && m != []
    requires Handle(cfg, aux(k), m) == Reply(Resp(reqId, status, count, resp[HEADER..HEADER + body]), |m|)
    modifies resp, c`out, c`events, c`cut, c`lost
    ensures |c.events| <= |old(c.events)|
    ensures if more then AtBoundary(c, cfg, aux, k + 1) else Delivered(c, cfg, aux)
  {
    hide Handle, Resp, Parting, Serve, Config.Valid;
    ghost var o := Resp(reqId, status, count, resp[HEADER..HEADER + body]);
    AfterReply(cfg, aux, c.input[..c.pos - |m|], k, c.out, m, o);
    assert c.input[..c.pos - |m|] + m == c.input[..c.pos];
    more := SendResponse(c, resp, reqId, status, count, body);
    ClosedReply(cfg, aux, c.input[..c.pos], old(c.out) + o, k + 1);
  }

  lemma ClosedReply(cfg: Config, aux: nat -> Aux, b: seq<Byte>, out: seq<Byte>, k: nat)
    requires cfg.Valid() && Serve(cfg, aux, b) == Served(out, [], k, true)
    ensures Emission(cfg, aux, b) == out
  {
  }

  /** Send the reply there is no coming back from. */
  method Conclude(c: Conn, cfg: Config, aux: nat -> Aux, k: nat, ghost m: seq<Byte>, resp: array<Byte>,
                  reqId: nat, status: nat)
    requires resp.Length >= HEADER && Inside(c, cfg, aux, k, m)
    requires var s := Handle(cfg, aux(k), m);
             var o := Resp(reqId, status, 0, []);
             s == Last(o) || (s.NeedMore? && Parting(cfg, m) == o && c.Gone(m != []))
    modifies resp, c`out, c`events, c`cut, c`lost
    ensures |c.events| <= |old(c.events)| && Delivered(c, cfg, aux)
  {
    hide Handle, Resp, Parting, Serve, Config.Valid, Emission;
    ghost var a := c.input[..c.pos - |m|];
    ghost var o := Resp(reqId, status, 0, []);
    if Handle(cfg, aux(k), m).NeedMore? {
      AfterShort(cfg, aux, a, k, c.out, m);
    } else {
      AfterLast(cfg, aux, a, k, c.out, m, o);
    }
    assert a + m == c.input[..c.pos];
    assert resp[HEADER..HEADER + 0] == [];
    var _ := SendResponse(c, resp, reqId, status, 0, 0);
  }

  /** Close without a word in the middle of a message. */
  lemma Breaks(c: Conn, cfg: Config, aux: nat -> Aux, k: nat, m: seq<Byte>)
    requires Inside(c, cfg, aux, k, m) && Handle(cfg, aux(k), m).NeedMore? && Parting(cfg, m) == []
    requires c.Gone(m != [])
    ensures Delivered(c, cfg, aux)
  {
    hide Handle, Parting, Serve, Emission;
    ghost var a := c.input[..c.pos - |m|];
    AfterShort(cfg, aux, a, k, c.out, m);
    assert a + m == c.input[..c.pos];
  }

  /** What the reference does with a header and as much of an id array as there is. */
  lemma HandleParts(cfg: Config, aux: Aux, m: seq<Byte>, ids: seq<Byte>)
    requires cfg.Valid() && |m| == HEADER && GoodHead(ParseReq(m)) && !Overlong(cfg, ParseReq(m))
    requires |ids| <= 4 * ParseReq(m).count
    ensures var h := ParseReq(m);
            Handle(cfg, aux, m + ids) ==
            if |ids| < 4 * h.count then NeedMore
            else Reply(Answer(cfg, aux, h.op, h.arg, h.reqId, ReadWords(ids, h.count)), |m + ids|)
  {
    hide Answer, ReadWords;
    ParseReqPrefix(m, ids);
    assert (m + ids)[HEADER..] == ids;
  }

  lemma PartingParts(cfg: Config, m: seq<Byte>, ids: seq<Byte>)
    requires |m| == HEADER && GoodHead(ParseReq(m)) && |ids| < 4 * ParseReq(m).count
    ensures Parting(cfg, m + ids) == if Drained(cfg, ParseReq(m)) then Resp(ParseReq(m).reqId, ST_TOO_MANY, 0, []) else []
  {
    ParseReqPrefix(m, ids);
  }

  /** GATHER within the limit: read the ids, look them up, answer. */
  method ServeGather(c: Conn, cfg: Config, aux: nat -> Aux, k: nat, hdr: seq<Byte>, resp: array<Byte>) returns (more: bool)
    requires Inside(c, cfg, aux, k, hdr) && |hdr| == HEADER && GoodHead(ParseReq(hdr))
    requires ParseReq(hdr).op == OP_GATHER && ParseReq(hdr).count <= cfg.maxRows
    requires resp.Length == HEADER + cfg.maxRows * ROW_BYTES
    modifies resp, c
    ensures |c.events| <= |old(c.events)| && c.pos >= old(c.pos)
    ensures if more then AtBoundary(c, cfg, aux, k + 1) else Delivered(c, cfg, aux)
  {
    hide Handle, Parting, Serve, Emission, ParseReq, ReadWords, RowsOf, Config.Valid;
    var h := ParseReq(hdr);
    var r, ids := c.ReadFull(4 * h.count);
    ghost var got := c.input[old(c.pos)..c.pos];
    ghost var m := hdr + got;
    assert Inside(c, cfg, aux, k, m);
    HandleParts(cfg, aux(k), hdr, got);
    if r != RdOk {
      PartingParts(cfg, hdr, got);
      Breaks(c, cfg, aux, k, m);
      return false;
    }
    assert h.count * ROW_BYTES <= cfg.maxRows * ROW_BYTES;
    var st := GatherRows(cfg, ids, h.count, resp);
    if st != ST_OK {
      assert resp[HEADER..HEADER + 0] == [];
      more := Respond(c, cfg, aux, k, m, resp, h.reqId, st, 0, 0);
    } else {
      more := Respond(c, cfg, aux, k, m, resp, h.reqId, ST_OK, h.count, h.count * ROW_BYTES);
    }
  }

  /** Whatever else a request claims to carry is read past before it is answered. */
  method SkipIds(c: Conn, cfg: Config, aux: nat -> Aux, k: nat, hdr: seq<Byte>, resp: array<Byte>)
    returns (ok: bool, ghost m: seq<Byte>, ghost ids: seq<nat>)
    requires Inside(c, cfg, aux, k, hdr) && |hdr| == HEADER && GoodHead(ParseReq(hdr)) && Drained(cfg, ParseReq(hdr))
    requires resp.Length == HEADER + cfg.maxRows * ROW_BYTES
    modifies resp, c
    ensures |c.events| <= |old(c.events)| && c.pos >= old(c.pos) && |m| >= HEADER
    ensures !ok ==> Delivered(c, cfg, aux)
    ensures ok ==> var h := ParseReq(hdr);
                   && Inside(c, cfg, aux, k, m) && |ids| == h.count
                   && Handle(cfg, aux(k), m) == Reply(Answer(cfg, aux(k), h.op, h.arg, h.reqId, ids), |m|)
  {
    hide Handle, Parting, Serve, Emission, ParseReq, ReadWords, Answer, Resp;
    var h := ParseReq(hdr);
    m, ids := hdr, [];
    ok := c.Drain(4 * cfg.maxRows, 4 * h.count);
    ghost var got := c.input[old(c.pos)..c.pos];
    m := hdr + got;
    assert Inside(c, cfg, aux, k, m);
    if !ok {
      if Overlong(cfg, h) {
        assert m == hdr;
        OverlongLast(cfg, aux(k), hdr);
      } else {
        HandleParts(cfg, aux(k), hdr, got);
        PartingParts(cfg, hdr, got);
      }
      Conclude(c, cfg, aux, k, m, resp, h.reqId, ST_TOO_MANY);
    } else {
      HandleParts(cfg, aux(k), hdr, got);
      ids := ReadWords(got, h.count);
    }
  }

  lemma OverlongLast(cfg: Config, aux: Aux, m: seq<Byte>)
    requires cfg.Valid() && |m| == HEADER && GoodHead(ParseReq(m)) && Overlong(cfg, ParseReq(m))
    ensures Handle(cfg, aux, m) == Last(Resp(ParseReq(m).reqId, ST_TOO_MANY, 0, []))
  {
  }

  method ServeBare(c: Conn, cfg: Config, aux: nat -> Aux, k: nat, hdr: seq<Byte>, resp: array<Byte>) returns (more: bool)
    requires Inside(c, cfg, aux, k, hdr) && |hdr| == HEADER && GoodHead(ParseReq(hdr)) && Drained(cfg, ParseReq(hdr))
    requires resp.Length == HEADER + cfg.maxRows * ROW_BYTES
    modifies resp, c
    ensures |c.events| <= |old(c.events)| && c.pos >= old(c.pos)
    ensures if more then AtBoundary(c, cfg, aux, k + 1) else Delivered(c, cfg, aux)
  {
    hide Handle, Parting, Serve, Emission, ParseReq, Resp, EncodeStat, RechargeBody, StatOf, RowsOf;
    var h := ParseReq(hdr);
    var ok, m, ids := SkipIds(c, cfg, aux, k, hdr, resp);
    if !ok {
      return false;
    }
    assert resp[HEADER..HEADER + 0] == [];
    if h.op == OP_GATHER {
      more := Respond(c, cfg, aux, k, m, resp, h.reqId, ST_TOO_MANY, 0, 0);
    } else if h.op == OP_PING {
      more := Respond(c, cfg, aux, k, m, resp, h.reqId, ST_OK, 0, 0);
    } else if h.op == OP_STAT {
      Fill(resp, EncodeStat(StatOf(cfg, aux(k))));
      more := Respond(c, cfg, aux, k, m, resp, h.reqId, ST_OK, 0, STAT_BODY);
    } else if h.op == OP_RECHARGE {
      var st := RechargeStatus(h.arg, aux(k));
      if st != ST_OK {
        more := Respond(c, cfg, aux, k, m, resp, h.reqId, st, 0, 0);
        return;
      }
      Fill(resp, RechargeBody(aux(k)));
      more := Respond(c, cfg, aux, k, m, resp, h.reqId, ST_OK, 0, 40);
    } else {
      more := Respond(c, cfg, aux, k, m, resp, h.reqId, ST_BAD_OP, 0, 0);
    }
  }

  /** Store a reply body behind the header space. */
  method Fill(resp: array<Byte>, body: seq<Byte>)
    requires resp.Length >= HEADER + |body|
    modifies resp
    ensures resp[HEADER..HEADER + |body|] == body
  {
    forall i | 0 <= i < |body| {
      resp[HEADER + i] := body[i];
    }
  }

  lemma BadHeadLast(cfg: Config, aux: Aux, m: seq<Byte>)
    requires cfg.Valid() && |m| == HEADER && !GoodHead(ParseReq(m))
    ensures Handle(cfg, aux, m) == Last(Resp(ParseReq(m).reqId, ST_BAD_HEADER, 0, []))
  {
  }

  lemma ShortHead(cfg: Config, aux: Aux, m: seq<Byte>)
    requires cfg.Valid() && |m| < HEADER
    ensures Handle(cfg, aux, m).NeedMore? && Parting(cfg, m) == []
  {
  }

  /** One turn of the serving loop: back at a header boundary, or closed with nothing owed. */
  method ServeOne(c: Conn, cfg: Config, aux: nat -> Aux, k: nat, resp: array<Byte>) returns (more: bool, idle: bool)
    requires AtBoundary(c, cfg, aux, k) && resp.Length == HEADER + cfg.maxRows * ROW_BYTES
    modifies resp, c
    ensures |c.events| <= |old(c.events)| && c.pos >= old(c.pos)
    ensures if more then AtBoundary(c, cfg, aux, if idle then k else k + 1) else Delivered(c, cfg, aux)
    ensures more ==> c.pos > old(c.pos) || |c.events| < |old(c.events)|
  {
    hide Handle, Parting, Serve, Emission, ParseReq, Resp;
    idle := false;
    var r, hdr := c.ReadFull(HEADER);
    ghost var got := c.input[old(c.pos)..c.pos];
    assert Inside(c, cfg, aux, k, got);
    if r == RdTimeout {
      return true, true;
    }
    if r != RdOk {
      ShortHead(cfg, aux(k), got);
      Breaks(c, cfg, aux, k, got);
      return false, false;
    }
    var h := ParseReq(hdr);
    if !GoodHead(h) {
      BadHeadLast(cfg, aux(k), hdr);
      Conclude(c, cfg, aux, k, hdr, resp, h.reqId, ST_BAD_HEADER);
      more := false;
    } else if h.op == OP_GATHER && h.count <= cfg.maxRows {
      more := ServeGather(c, cfg, aux, k, hdr, resp);
    } else {
      more := ServeBare(c, cfg, aux, k, hdr, resp);
    }
  }

  /** serve_conn: for every stream and every way it is cut into reads and writes, the bytes
      written are those of the message-level reference for the part of the stream consumed,
      and for the whole stream unless the connection failed or stalled inside a message. */
  method ServeConn(c: Conn, cfg: Config, aux: nat -> Aux)
    requires cfg.Valid() && c.pos == 0 && c.out == [] && !c.cut
    modifies c
    ensures Delivered(c, cfg, aux)
    ensures !c.lost && !c.stalled ==> c.out == Emission(cfg, aux, c.input)
  {
    hide Handle, Parting, Serve, Emission;
    var resp := new Byte[HEADER + cfg.maxRows * ROW_BYTES];
    var k, more := 0, true;
    Start(cfg, aux);
    assert c.input[..0] == [];
    while more
      invariant if more then AtBoundary(c, cfg, aux, k) else Delivered(c, cfg, aux)
      invariant fresh(resp)
      decreases more, |c.input| - c.pos + |c.events|
    {
      var idle;
      more, idle := ServeOne(c, cfg, aux, k, resp);
      k := if idle then k else k + 1;
    }
    Complete(c, cfg, aux);
  }

  /** A stream given up for no fault of the connection was over, or past saving. */
  lemma Complete(c: Conn, cfg: Config, aux: nat -> Aux)
    requires Delivered(c, cfg, aux)
    ensures !c.lost && !c.stalled ==> c.out == Emission(cfg, aux, c.input)
  {
    hide Handle, Parting;
    if c.pos == |c.input| {
      assert c.input[..c.pos] == c.input;
    } else if !c.lost && !c.stalled {
      HandlerIsStable(cfg, aux);
      RunAppend(Handler(cfg, aux), 0, c.input[..c.pos], c.input[c.pos..]);
      assert c.input[..c.pos] + c.input[c.pos..] == c.input;
    }
  }

  lemma Start(cfg: Config, aux: nat -> Aux)
    requires cfg.Valid()
    ensures Serve(cfg, aux, []) == Served([], [], 0, true)
  {
    NothingYet(cfg, aux, 0);
  }

  /** A thread without its buffers waits for one header, refuses it by name and closes. */
  method ServeStarved(c: Conn, cfg: Config, aux: nat -> Aux)
    requires cfg.Valid() && c.Valid() && c.pos == 0 && c.out == [] && !c.cut
    modifies c
    ensures c.out <= Emitted(Sock(cfg, aux, true, c.input, [], 0))
    ensures !c.lost && !c.stalled ==> c.out == Emitted(Sock(cfg, aux, true, c.input, [], 0))
  {
    hide ParseReq, Resp, Serve;
    var r, hdr := c.ReadFull(HEADER);
    if r == RdOk {
      var resp := new Byte[HEADER];
      assert resp[HEADER..HEADER + 0] == [];
      SameHead(hdr, c.input);
      var _ := SendResponse(c, resp, ParseReq(hdr).reqId, ST_INTERNAL, 0, 0);
    }
  }

  lemma SameHead(hdr: seq<Byte>, b: seq<Byte>)
    requires |hdr| == HEADER && hdr <= b
    ensures ParseReq(b) == ParseReq(hdr)
  {
    ParseReqPrefix(hdr, b[HEADER..]);
    assert hdr + b[HEADER..] == b;
  }

  // ------------------------------------------------- what reaches the client

  /** All that is written for the bytes p after k replies, once the stream stops there. */
  ghost function Written(cfg: Config, aux: nat -> Aux, k: nat, p: seq<Byte>): seq<Byte>
    requires cfg.Valid()
  {
    var t := Run(Handler(cfg, aux), k, p);
    t.out + if t.open then Parting(cfg, t.rest) else []
  }

  lemma OneMessage(cfg: Config, aux: nat -> Aux, k: nat, b: seq<Byte>)
    requires cfg.Valid()
    ensures var t := Run(Handler(cfg, aux), k, b);
            match Handle(cfg, aux(k), b)
            case NeedMore => Written(cfg, aux, k, b) == Parting(cfg, b)
            case Last(o) => Written(cfg, aux, k, b) == t.out == o
            case Reply(o, used) =>
              && used <= |b| && Written(cfg, aux, k, b) == o + Written(cfg, aux, k + 1, b[used..])
              && t.out == o + Run(Handler(cfg, aux), k + 1, b[used..]).out
  {
    var s := Handle(cfg, aux(k), b);
    hide Handle, Parting;
    assert Handler(cfg, aux)(k, b) == s;
    if s.Reply? {
      var u := Run(Handler(cfg, aux), k + 1, b[s.used..]);
      var parting := if u.open then Parting(cfg, u.rest) else [];
      assert (s.out + u.out) + parting == s.out + (u.out + parting);
    }
  }

  /** A client's request cut short is waited for, and if that is in vain either nothing is written
      or what the whole request would have brought; or it is refused already. */
  lemma CutRequest(cfg: Config, aux: Aux, q: Request, n: nat)
    requires cfg.Valid() && Shaped(q) && n < HEADER + 4 * |q.ids|
    ensures var p := EncodeReq(q.op, q.arg, q.reqId, q.ids)[..n];
            var refusal := Resp(q.reqId, ST_TOO_MANY, 0, []);
            match Handle(cfg, aux, p)
            case NeedMore =>
              Parting(cfg, p) == [] ||
              (Parting(cfg, p) == refusal == Answer(cfg, aux, q.op, q.arg, q.reqId, q.ids) && q.Readable(cfg))
              || (Parting(cfg, p) == refusal && !q.Readable(cfg))
            case Last(o) => o == refusal && !q.Readable(cfg)
            case Reply(_, _) => false
  {
    hide ReadWords, ParseReq, Resp;
    var p := EncodeReq(q.op, q.arg, q.reqId, q.ids)[..n];
    if n >= HEADER {
      var ids := Words(q.ids)[..n - HEADER];
      assert p == ReqHeader(q.op, q.arg, q.reqId, |q.ids|) + ids;
      ReqHeaderRoundTrip(q.op, q.arg, q.reqId, |q.ids|, ids);
    }
  }

  /** Wherever a client's stream stops, the server has written nothing but a part of what it would
      write for all of it. */
  lemma {:induction false} PrefixWritesPrefix(cfg: Config, aux: nat -> Aux, k: nat, qs: seq<Request>, p: seq<Byte>)
    requires cfg.Valid() && AllShaped(qs) && p <= EncodeAll(qs)
    ensures Written(cfg, aux, k, p) <= Run(Handler(cfg, aux), k, EncodeAll(qs)).out
    decreases |qs|
  {
    hide Parting, Answer, Handle, Written, EncodeReq, Run;
    OneMessage(cfg, aux, k, p);
    if qs == [] {
      NoParting(cfg);
    } else {
      var q := qs[0];
      var m, rest := EncodeReq(q.op, q.arg, q.reqId, q.ids), EncodeAll(qs[1..]);
      assert EncodeAll(qs) == m + rest;
      HandleRequest(cfg, aux(k), q, rest);
      OneMessage(cfg, aux, k, m + rest);
      if |p| < |m| {
        assert p == m[..|p|];
        CutRequest(cfg, aux(k), q, |p|);
      } else {
        var p' := p[|m|..];
        assert p == m + p' && p' <= rest;
        HandleRequest(cfg, aux(k), q, p');
        assert (m + rest)[|m|..] == rest;
        if q.Readable(cfg) {
          PrefixWritesPrefix(cfg, aux, k + 1, qs[1..], p');
        }
      }
    }
  }

  lemma NoParting(cfg: Config)
    ensures Parting(cfg, []) == []
    ensures cfg.Valid() ==> forall aux: Aux :: Handle(cfg, aux, []).NeedMore?
  {
  }

  /** The connections the client is proved against carry what the serving loop writes: whatever
      part of a client's requests arrived, and whatever failed or stalled on the way, the client
      can have been sent nothing but a prefix of what its proofs assume it may read. */
  lemma WritesWhatTheClientReads(c: Conn, s: Sock)
    requires s.cfg.Valid() && !s.oom && Whole(s.sent)
    requires c.input <= s.sent && Delivered(c, s.cfg, s.aux)
    ensures c.out <= Emitted(s)
    ensures c.input == s.sent && Settled(s) && !c.lost && !c.stalled ==> c.out == Emitted(s)
  {
    hide Handle, Parting;
    var qs :| AllShaped(qs) && s.sent == EncodeAll(qs);
    PrefixWritesPrefix(s.cfg, s.aux, 0, qs, c.input[..c.pos]);
    if c.input == s.sent && Settled(s) && !c.lost && !c.stalled {
      Complete(c, s.cfg, s.aux);
      NoParting(s.cfg);
      assert Emitted(s) + [] == Emitted(s);
    }
  }
}
