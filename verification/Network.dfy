/** The world outside the client: a clock, and connections to row servers that an adversary
    may delay, chop up, stall, reset or close at any call. */
module Network {
  import opened Bytes
  import opened Common
  import opened Wire
  import opened Protocol

  datatype Option<+T> = None | Some(value: T)

  type RowMap = nat -> seq<Byte>

  /** A server that holds the right bytes for every row of the range it announces. */
  predicate Conforms(cfg: Config, truth: RowMap) {
    cfg.Valid() && forall id: nat | cfg.base <= id < cfg.base + cfg.count :: RowAt(cfg, id) == truth(id)
  }

  /** One connection, from its SYN to its end. The two byte strings only ever grow. `oom` is a
      server thread that could not allocate its buffers: it answers one header and closes. */
  datatype Sock = Sock(cfg: Config, aux: nat -> Aux, oom: bool, sent: seq<Byte>, rcvd: seq<Byte>, tmo: nat)

  /** All the server will ever write in answer to what was sent so far. */
  function Emitted(s: Sock): seq<Byte>
    requires s.cfg.Valid()
  {
    if s.oom then
      if |s.sent| < HEADER then [] else Resp(ParseReq(s.sent).reqId, ST_INTERNAL, 0, [])
    else
      Serve(s.cfg, s.aux, s.sent).out
  }

  predicate Plausible(s: Sock) {
    s.cfg.Valid() && s.rcvd <= Emitted(s)
  }

  function Unread(s: Sock): seq<Byte>
    requires Plausible(s)
  {
    Emitted(s)[|s.rcvd|..]
  }

  /** What has been sent is a list of requests, all of them whole. */
  ghost predicate Whole(sent: seq<Byte>) {
    exists qs :: AllShaped(qs) && sent == EncodeAll(qs)
  }

  lemma OneMoreIsWhole(sent: seq<Byte>, q: Request)
    requires Whole(sent) && Shaped(q)
    ensures Whole(sent + EncodeReq(q.op, q.arg, q.reqId, q.ids))
  {
    var qs :| AllShaped(qs) && sent == EncodeAll(qs);
    EncodeSnoc(qs, q);
    assert AllShaped(qs + [q]);
  }

  /** Only whole requests have been sent, all are answered in full and the server awaits a header. */
  ghost predicate Settled(s: Sock) {
    && s.cfg.Valid() && !s.oom && Whole(s.sent)
    && Serve(s.cfg, s.aux, s.sent).open && Serve(s.cfg, s.aux, s.sent).rest == []
  }

  /** In sync: settled, and no byte is left unread. */
  ghost predicate AtRest(s: Sock) {
    Settled(s) && Plausible(s) && Unread(s) == []
  }

  ghost predicate Fresh(s: Sock) {
    s.cfg.Valid() && s.sent == [] && s.rcvd == []
  }

  lemma FreshIsPlausible(s: Sock)
    requires Fresh(s)
    ensures Plausible(s) && (s.oom || AtRest(s))
  {
    assert Handler(s.cfg, s.aux)(0, []) == Handle(s.cfg, s.aux(0), []);
    NothingIsWhole();
  }

  lemma NothingIsWhole()
    ensures Whole([])
  {
    assert AllShaped([]) && EncodeAll([]) == [];
  }

  /** Bytes that reach the server never change what it already wrote. */
  lemma SendKeepsPlausible(s: Sock, m: seq<Byte>)
    requires Plausible(s)
    ensures Plausible(s.(sent := s.sent + m))
  {
    if s.oom {
      if |s.sent| >= HEADER {
        ParseReqPrefix(s.sent, m);
      }
    } else {
      ServeMonotone(s.cfg, s.aux, s.sent, m);
    }
  }

  /** What a request sent on a connection in sync brings back. */
  function ReplyTo(s: Sock, q: Request): (r: seq<Byte>)
    requires s.cfg.Valid()
  {
    if s.oom then Resp(q.reqId, ST_INTERNAL, 0, [])
    else if q.Readable(s.cfg) then Answer(s.cfg, s.aux(Serve(s.cfg, s.aux, s.sent).k), q.op, q.arg, q.reqId, q.ids)
    else Resp(q.reqId, ST_TOO_MANY, 0, [])
  }

  lemma SendRequest(s: Sock, q: Request)
    requires q.Valid() && (AtRest(s) || (s.oom && Fresh(s)))
    ensures var t := s.(sent := s.sent + EncodeReq(q.op, q.arg, q.reqId, q.ids));
            && Plausible(t)
            && Unread(t) == ReplyTo(s, q)
            && (Shaped(q) ==> Whole(t.sent))
            && (Shaped(q) && !s.oom && q.Readable(s.cfg) ==> Settled(t))
  {
    hide Answer, Handle, Resp;
    NothingIsWhole();
    if Shaped(q) {
      OneMoreIsWhole(s.sent, q);
    }
    var m := EncodeReq(q.op, q.arg, q.reqId, q.ids);
    if s.oom {
      assert s.sent + m == m == ReqHeader(q.op, q.arg, q.reqId, |q.ids|) + Words(q.ids);
      ReqHeaderRoundTrip(q.op, q.arg, q.reqId, |q.ids|, Words(q.ids));
    } else {
      ServeNext(s.cfg, s.aux, s.sent, q);
      assert s.rcvd == Emitted(s);
    }
  }

  /** Reading n of the unread bytes leaves the others. */
  lemma ReadSome(s: Sock, n: nat)
    requires Plausible(s) && n <= |Unread(s)|
    ensures var t := s.(rcvd := s.rcvd + Unread(s)[..n]); Plausible(t) && Unread(t) == Unread(s)[n..]
  {
    hide Serve, Resp, ParseReq, Config.Valid;
    var t := s.(rcvd := s.rcvd + Unread(s)[..n]);
    assert Emitted(t) == Emitted(s);
    assert Emitted(s) == s.rcvd + Unread(s)[..n] + Unread(s)[n..];
  }

  /** What the adversary does to one blocking call. */
  datatype Fate = Fate(delay: nat, fault: bool, half: bool, size: nat, server: nat, aux: nat -> Aux, oom: bool,
                       ready: nat -> bool)

  /** What there is to talk to: the servers that may answer at each address, one or the other at
      each connect, and the rows that all of them are meant to serve. */
  datatype World = World(truth: RowMap, servers: nat -> seq<Config>)

  type HonestWorld = w: World | forall addr: nat, i: nat :: i < |w.servers(addr)| ==> Conforms(w.servers(addr)[i], w.truth)
    witness World((id: nat) => [], (addr: nat) => [])

  /** Whoever answers at this address serves exactly these rows and takes gathers of `most`. */
  predicate Keeps(world: World, addr: nat, base: nat, count: nat, most: nat) {
    forall cfg :: cfg in world.servers(addr) ==> cfg.base == base && cfg.count == count && cfg.maxRows >= most
  }

  /** A call fails if the adversary breaks it or delays it for longer than the caller waits. */
  predicate Fails(f: Fate, patience: nat) {
    f.fault || f.delay > patience
  }

  /** Whoever dials this address with this much patience gets no connection out of it. */
  predicate TurnedAway(f: Fate, servers: seq<Config>, patience: nat) {
    Fails(f, patience) || f.half || f.server >= |servers|
  }

  /** All delays the schedule holds before call n. */
  ghost function Waits(fate: nat -> Fate, n: nat): nat {
    if n == 0 then 0 else Waits(fate, n - 1) + fate(n - 1).delay
  }

  /** How many of the calls before n fail one who waits this long, or meet a server out of memory. */
  ghost function Breaks(fate: nat -> Fate, patience: nat, n: nat): nat {
    if n == 0 then 0
    else Breaks(fate, patience, n - 1) + if Fails(fate(n - 1), patience) || fate(n - 1).oom then 1 else 0
  }

  lemma {:induction false} WaitsGrow(fate: nat -> Fate, m: nat, n: nat)
    requires m <= n
    ensures Waits(fate, m) <= Waits(fate, n)
  {
    if m < n {
      WaitsGrow(fate, m, n - 1);
    }
  }

  function Pow2(k: nat): nat {
    if k == 0 then 1 else 2 * Pow2(k - 1)
  }

  /** The pauses after k refused dials: half a second, twice as long each time, five seconds at most. */
  ghost function Pauses(k: nat): nat {
    if k == 0 then 0 else Pauses(k - 1) + Min(500_000 * Pow2(k - 1), 5_000_000)
  }

  lemma {:induction false} PauseGrows(j: nat, k: nat)
    requires j <= k
    ensures Pow2(j) <= Pow2(k)
  {
    if j < k {
      PauseGrows(j, k - 1);
    }
  }

  /** Two series of pauses are no longer than one over the same dials. */
  lemma {:induction false} PausesJoin(j: nat, k: nat)
    ensures Pauses(j) + Pauses(k) <= Pauses(j + k)
  {
    if k > 0 {
      PausesJoin(j, k - 1);
      PauseGrows(k - 1, j + k - 1);
    }
  }

  /** What the clock and the counters show. */
  datatype Book = Book(step: nat, now: nat, faults: nat, refused: nat, slept: nat)

  /** Time has passed only in calls, no more than the schedule delays them, and in pauses. */
  ghost predicate Spent(fate: nat -> Fate, a: Book, b: Book) {
    && a.step <= b.step && a.now <= b.now && a.faults <= b.faults && a.refused <= b.refused && a.slept <= b.slept
    && b.now - a.now <= Charge(fate, a, b)
  }

  /** The delays of the calls made, and the pauses. */
  ghost function Charge(fate: nat -> Fate, a: Book, b: Book): int {
    Waits(fate, b.step) - Waits(fate, a.step) + b.slept - a.slept
  }

  /** Besides, every fault is a call that fails even one who waits this long, unless time has run out. */
  ghost predicate Fairly(fate: nat -> Fate, patience: nat, deadline: Option<nat>, a: Book, b: Book) {
    && Spent(fate, a, b)
    && (b.faults - a.faults <= Breaks(fate, patience, b.step) - Breaks(fate, patience, a.step) ||
        (deadline.Some? && b.now >= deadline.value))
  }

  lemma FairlyJoin(fate: nat -> Fate, patience: nat, deadline: Option<nat>, a: Book, b: Book, c: Book)
    requires Fairly(fate, patience, deadline, a, b) && Fairly(fate, patience, deadline, b, c)
    ensures Fairly(fate, patience, deadline, a, c)
  {
  }

  lemma FairlyStays(fate: nat -> Fate, patience: nat, deadline: Option<nat>, a: Book)
    ensures Fairly(fate, patience, deadline, a, a) && PausedWell(a, a)
  {
  }

  /** Pauses are no longer than the refused dials account for. */
  ghost predicate PausedWell(a: Book, b: Book) {
    a.refused <= b.refused && b.slept - a.slept <= Pauses(b.refused - a.refused)
  }

  lemma PausedJoin(a: Book, b: Book, c: Book)
    requires PausedWell(a, b) && PausedWell(b, c)
    ensures PausedWell(a, c)
  {
    PausesJoin(b.refused - a.refused, c.refused - b.refused);
  }

  /** From this call on nobody who waits this long meets a failure, and all delays together stay
      below the budget. */
  ghost predicate Calm(fate: nat -> Fate, from: nat, patience: nat, budget: nat) {
    && (forall i :: i >= from ==> !Fails(fate(i), patience) && !fate(i).oom)
    && forall n :: n >= from ==> Waits(fate, n) - Waits(fate, from) < budget
  }

  lemma {:induction false} CalmBreaksNothing(fate: nat -> Fate, from: nat, patience: nat, budget: nat, n: nat)
    requires Calm(fate, from, patience, budget) && from <= n
    ensures Breaks(fate, patience, n) == Breaks(fate, patience, from)
    ensures Waits(fate, n) - Waits(fate, from) < budget
    decreases n
  {
    if from < n {
      CalmBreaksNothing(fate, from, patience, budget, n - 1);
    }
  }

  lemma CalmSpends(fate: nat -> Fate, patience: nat, deadline: nat, a: Book, b: Book)
    requires a.now <= deadline && Calm(fate, a.step, patience, deadline - a.now)
    requires Fairly(fate, patience, Some(deadline), a, b) && a.slept == b.slept
    ensures b.faults == a.faults && b.now < deadline
  {
    CalmBreaksNothing(fate, a.step, patience, deadline - a.now, b.step);
  }

  datatype Connected = Refused | Half(sock: Sock) | Up(sock: Sock)

  datatype Received = Data(chunk: seq<Byte>) | Closed | TimedOut

  /** Time is counted in microseconds. Only blocking calls take time, and a call never takes
      longer than its timeout. `fate` decides every call in turn and is arbitrary. */
  class Net {
    var now: nat
    var step: nat
    /** Calls that failed, and connections to a server out of memory. Refused dials are not counted. */
    ghost var faults: nat
    /** Dials that brought no connection, and all time spent in pauses. */
    ghost var refused: nat
    ghost var slept: nat
    /** How many sends there were the last time any came one right after the other, and if the last
        call was one of them. */
    ghost var volley: nat
    ghost var sending: bool
    /** Sockets the last select called readable that have not been read since, and how many reads there
        have been of sockets that no select had called readable. */
    ghost var ready: nat
    ghost var blind: nat
    /** When the last connect began, and which call it was. */
    ghost var dialed: (nat, nat)
    const fate: nat -> Fate
    const world: HonestWorld

    constructor (fate: nat -> Fate, world: HonestWorld)
      ensures this.fate == fate && this.world == world && Counts() == Book(0, 0, 0, 0, 0)
    {
      this.fate, this.world := fate, world;
      now, step, faults, refused, slept, dialed := 0, 0, 0, 0, 0, (0, 0);
      volley, sending, ready, blind := 0, false, 0, 0;
    }

    ghost function Counts(): Book
      reads this`step, this`now, this`faults, this`refused, this`slept
    {
      Book(step, now, faults, refused, slept)
    }

    twostate predicate Spends()
      reads this`step, this`now, this`faults, this`refused, this`slept
    {
      Spent(fate, old(Counts()), Counts())
    }

    twostate predicate Paused()
      reads this`step, this`now, this`faults, this`refused, this`slept
    {
      PausedWell(old(Counts()), Counts())
    }

    method Elapse(most: nat) returns (f: Fate)
      modifies this`now, this`step
      ensures f == fate(old(step)) && step == old(step) + 1 && now == old(now) + Min(f.delay, most) && Spends()
    {
      f := fate(step);
      step := step + 1;
      now := now + Min(f.delay, most);
    }

    method Sleep(t: nat)
      modifies this`now, this`slept
      ensures now == old(now) + t && slept == old(slept) + t && Spends()
    {
      now, slept := now + t, slept + t;
    }

    /** A call that is neither a send nor a read. */
    ghost method Other()
      modifies this`sending, this`ready
      ensures !sending && ready == 0
    {
      sending, ready := false, 0;
    }

    /** A new connection, or one that broke right after the handshake, or none. */
    method Connect(addr: nat, tmo: nat) returns (c: Connected)
      modifies this`now, this`step, this`faults, this`refused, this`dialed, this`sending, this`ready
      ensures step == old(step) + 1 && now == old(now) + Min(fate(old(step)).delay, tmo) && dialed == (old(now), old(step))
      ensures c.Up? <==> !TurnedAway(fate(old(step)), world.servers(addr), tmo)
      ensures Spends() && refused == old(refused) + (if c.Up? then 0 else 1)
      ensures !c.Refused? ==> Fresh(c.sock) && c.sock.cfg in world.servers(addr) && Conforms(c.sock.cfg, world.truth)
      ensures faults == old(faults) + (if c.Up? && c.sock.oom then 1 else 0)
      ensures fate(old(step)).fault ==> c.Refused?
      ensures c.Up? && c.sock.oom ==> fate(old(step)).oom
    {
      dialed := (now, step);
      Other();
      var f := Elapse(tmo);
      var servers := world.servers(addr);
      if Fails(f, tmo) || f.server >= |servers| {
        refused := refused + 1;
        return Refused;
      }
      var s := Sock(servers[f.server], f.aux, f.oom, [], [], 0);
      if f.half {
        refused := refused + 1;
        return Half(s);
      }
      if f.oom {
        faults := faults + 1;
      }
      return Up(s);
    }

    /** All of m, or a prefix of it and an error. */
    method Send(s: Sock, m: seq<Byte>) returns (ok: bool, t: Sock)
      requires Plausible(s)
      modifies this`now, this`step, this`faults, this`volley, this`sending, this`ready
      ensures step == old(step) + 1 && now == old(now) + Min(fate(old(step)).delay, s.tmo)
      ensures sending && volley == if old(sending) then old(volley) + 1 else 1
      ensures Plausible(t) && (ok <==> !Fails(fate(old(step)), s.tmo)) && Spends()
      ensures ok ==> t == s.(sent := s.sent + m) && faults == old(faults)
      ensures !ok ==> faults == old(faults) + 1 && t.tmo == s.tmo && t.cfg == s.cfg
    {
      hide Emitted, Breaks, Waits, Pauses;
      volley, sending, ready := if sending then volley + 1 else 1, true, 0;
      var f := Elapse(s.tmo);
      if Fails(f, s.tmo) {
        faults := faults + 1;
        var n := if f.size < |m| then f.size else |m|;
        SendKeepsPlausible(s, m[..n]);
        return false, s.(sent := s.sent + m[..n]);
      }
      SendKeepsPlausible(s, m);
      return true, s.(sent := s.sent + m);
    }

    /** Between 1 and `want` of the unread bytes, or the end of the connection, or silence. */
    method Recv(s: Sock, want: nat) returns (r: Received, t: Sock)
      requires Plausible(s) && want > 0
      modifies this`now, this`step, this`faults, this`sending, this`ready, this`blind
      ensures if old(ready) > 0 then ready == old(ready) - 1 && blind == old(blind) else ready == 0 && blind == old(blind) + 1
      ensures step == old(step) + 1 && now == old(now) + Min(fate(old(step)).delay, s.tmo) && Spends()
      ensures r.Data? <==> !Fails(fate(old(step)), s.tmo) && Unread(s) != []
      ensures r.Data? ==>
                && 0 < |r.chunk| <= want && r.chunk <= Unread(s)
                && t == s.(rcvd := s.rcvd + r.chunk) && Plausible(t) && Unread(t) == Unread(s)[|r.chunk|..]
      ensures !r.Data? ==> t == s
      ensures faults == old(faults) + (if Fails(fate(old(step)), s.tmo) then 1 else 0)
    {
      hide Emitted, Breaks, Waits, Pauses;
      if ready > 0 {
        ready := ready - 1;
      } else {
        blind := blind + 1;
      }
      sending := false;
      var f := Elapse(s.tmo);
      var left := Unread(s);
      if Fails(f, s.tmo) || left == [] {
        if Fails(f, s.tmo) {
          faults := faults + 1;
        }
        return if f.fault && f.half then Closed else TimedOut, s;
      }
      var most := if want < |left| then want else |left|;
      var n := if 1 <= f.size <= most then f.size else most;
      ReadSome(s, n);
      return Data(left[..n]), s.(rcvd := s.rcvd + left[..n]);
    }

    /** Which of n sockets are readable: some of them, or none if the wait ran out. */
    method Select(n: nat, wait: nat) returns (hits: seq<nat>)
      requires n > 0
      modifies this`now, this`step, this`faults, this`sending, this`ready
      ensures ready == |hits|
      ensures step == old(step) + 1 && now == old(now) + Min(fate(old(step)).delay, wait) && Spends()
      ensures hits == [] <==> Fails(fate(old(step)), wait)
      ensures forall i :: 0 <= i < |hits| ==> hits[i] < n
      ensures forall i, j :: 0 <= i < j < |hits| ==> hits[i] < hits[j]
      ensures faults == old(faults) + (if hits == [] then 1 else 0)
    {
      var f := Elapse(wait);
      Other();
      hits := [];
      if Fails(f, wait) {
        faults := faults + 1;
        return;
      }
      for i := 0 to n
        invariant forall a :: 0 <= a < |hits| ==> hits[a] < i
        invariant forall a, b :: 0 <= a < b < |hits| ==> hits[a] < hits[b]
      {
        if f.ready(i) {
          hits := hits + [i];
        }
      }
      if hits == [] {
        hits := seq(n, i => i);
      }
      ready := |hits|;
    }
  }
}
