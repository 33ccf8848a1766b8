/** The fault-tolerant exchange: ask every peer, drain every answer, reissue what a fault left open. */
module Exchanges {
  import opened Bytes
  import opened Common
  import opened Wire
  import opened Protocol
  import opened Network
  import opened Peers

  /** A peer's share of one gather: the output positions its rows go to, in request order. */
  datatype Job = Job(peer: Peer, sel: seq<nat>)

  ghost function PeersOf(jobs: seq<Job>): set<Peer> {
    set j | j in jobs :: j.peer
  }

  ghost predicate OnePerPeer(jobs: seq<Job>) {
    forall a, b :: 0 <= a < b < |jobs| ==> jobs[a].peer != jobs[b].peer
  }

  /** What the exchange never changes about a peer. */
  datatype Card = Card(reqIds: seq<nat>, cap: nat, baseRow: nat, rowCount: nat, rowBytes: nat)

  ghost function CardOf(p: Peer): Card
    reads p`reqIds, p`cap, p`baseRow, p`rowCount, p`rowBytes
  {
    Card(p.reqIds, p.cap, p.baseRow, p.rowCount, p.rowBytes)
  }

  /** The ids a job asks for. */
  ghost function Ids(j: Job): seq<nat>
    reads j.peer`reqIds
  {
    if |j.sel| <= |j.peer.reqIds| then j.peer.reqIds[..|j.sel|] else []
  }

  /** The waiting sockets, oldest first. */
  function Listed(s: set<nat>, n: nat): (l: seq<nat>)
    ensures forall i :: 0 <= i < |l| ==> l[i] < n && l[i] in s
    ensures forall i, j :: 0 <= i < j < |l| ==> l[i] < l[j]
    ensures forall x :: x in s && x < n ==> x in l
  {
    if n == 0 then [] else if n - 1 in s then Listed(s, n - 1) + [n - 1] else Listed(s, n - 1)
  }

  function Indices(n: nat): (s: set<nat>)
    ensures forall a: nat :: a in s <==> a < n
  {
    if n == 0 then {} else Indices(n - 1) + {n - 1}
  }

  function Total(rem: seq<nat>): nat {
    if rem == [] then 0 else rem[0] + Total(rem[1..])
  }

  lemma {:induction false} TotalDrops(rem: seq<nat>, i: nat, v: nat)
    requires i < |rem| && v < rem[i]
    ensures Total(rem[i := v]) < Total(rem)
  {
    if i == 0 {
      assert rem[i := v][1..] == rem[1..];
    } else {
      assert rem[i := v][1..] == rem[1..][i - 1 := v];
      TotalDrops(rem[1..], i - 1, v);
    }
  }

  /** At most one more GATHER, and it asks for exactly the job's ids. */
  ghost predicate AskedOnceMore(before: seq<seq<Byte>>, now: seq<seq<Byte>>, ids: seq<nat>) {
    now == before || (|now| == |before| + 1 && now[..|before|] == before && GathersExactly(now[|before|], ids))
  }

  /** At most n more GATHERs, every one of them for exactly the job's ids. */
  ghost predicate AskedMore(before: seq<seq<Byte>>, now: seq<seq<Byte>>, ids: seq<nat>, n: nat) {
    && |before| <= |now| <= |before| + n && now[..|before|] == before
    && forall m :: |before| <= m < |now| ==> GathersExactly(now[m], ids)
  }

  lemma AskedStep(before: seq<seq<Byte>>, mid: seq<seq<Byte>>, now: seq<seq<Byte>>, ids: seq<nat>, n: nat)
    requires AskedMore(before, mid, ids, n) && AskedOnceMore(mid, now, ids)
    ensures AskedMore(before, now, ids, n + 1)
  {
    hide GathersExactly;
    forall m | |before| <= m < |now|
      ensures GathersExactly(now[m], ids)
    {
      assert m < |mid| ==> now[m] == mid[m];
    }
  }

  lemma NotAsked(log: seq<seq<Byte>>, ids: seq<nat>)
    ensures AskedOnceMore(log, log, ids)
  {
  }

  /** The i-th request id from here. */
  ghost function IdAfter(first: nat, i: nat): (id: nat)
    ensures id < TWO32
  {
    (first + i) % TWO32
  }

  lemma IdNext(first: nat, i: nat, id: nat)
    requires if i == 0 then id == first else id == IdAfter(first, i)
    ensures (id + 1) % TWO32 == IdAfter(first, i + 1)
  {
  }

  class Exchanger {
    const net: Net
    var reqId: nat
    var timeout: nat
    var connectTimeout: nat
    var gatherDeadline: nat

    constructor (net: Net, timeout: nat, connectTimeout: nat, gatherDeadline: nat)
      ensures this.net == net && this.timeout == timeout && this.connectTimeout == connectTimeout
      ensures this.gatherDeadline == gatherDeadline && reqId == 0
    {
      this.net, this.timeout, this.connectTimeout, this.gatherDeadline := net, timeout, connectTimeout, gatherDeadline;
      reqId := 0;
    }

    method NextReqId() returns (id: nat)
      modifies this`reqId
      ensures id == reqId == (old(reqId) + 1) % TWO32
    {
      reqId := (reqId + 1) % TWO32;
      return reqId;
    }

    // ------------------------------------------------------------- states

    /** A job's peer belongs here, works under this deadline and has its ids in the buffer. */
    ghost predicate Posted(j: Job, deadline: Option<nat>)
      reads this`timeout, j.peer`timeout, j.peer`deadline, j.peer`rowBytes, j.peer`reqIds, j.peer`cap, j.peer`rows,
            j.peer`baseRow, j.peer`rowCount
    {
      j.peer.net == net && j.peer.timeout == timeout && j.peer.deadline == deadline && j.peer.Loaded(|j.sel|)
    }

    ghost predicate AllPosted(jobs: seq<Job>, deadline: Option<nat>)
      reads this`timeout, PeersOf(jobs)`timeout, PeersOf(jobs)`deadline, PeersOf(jobs)`rowBytes, PeersOf(jobs)`reqIds, PeersOf(jobs)`cap, PeersOf(jobs)`rows, PeersOf(jobs)`baseRow, PeersOf(jobs)`rowCount
    {
      forall a :: 0 <= a < |jobs| ==> Posted(jobs[a], deadline)
    }

    /** A range that its address is known to keep, with room for the job. */
    ghost predicate Pinned(j: Job)
      reads j.peer`baseRow, j.peer`rowCount
    {
      Keeps(net.world, j.peer.addr, j.peer.baseRow, j.peer.rowCount, |j.sel|)
    }

    ghost predicate AllPinned(jobs: seq<Job>)
      reads PeersOf(jobs)`baseRow, PeersOf(jobs)`rowCount
    {
      forall a :: 0 <= a < |jobs| ==> Pinned(jobs[a])
    }

    ghost predicate AllQuiet(jobs: seq<Job>)
      reads PeersOf(jobs)`sock, PeersOf(jobs)`armed, PeersOf(jobs)`pending, PeersOf(jobs)`baseRow, PeersOf(jobs)`rowCount
    {
      forall a :: 0 <= a < |jobs| ==> jobs[a].peer.Quiet()
    }

    ghost predicate AllAborted(jobs: seq<Job>)
      reads PeersOf(jobs)`sock, PeersOf(jobs)`pending, PeersOf(jobs)`answered
    {
      forall a :: 0 <= a < |jobs| ==> jobs[a].peer.sock.None? && jobs[a].peer.pending.None? && !jobs[a].peer.answered
    }

    ghost predicate NoneAnswered(jobs: seq<Job>)
      reads PeersOf(jobs)`answered
    {
      forall a :: 0 <= a < |jobs| ==> !jobs[a].peer.answered
    }

    ghost predicate AnsweredAreDone(jobs: seq<Job>)
      reads PeersOf(jobs)`sock, PeersOf(jobs)`armed, PeersOf(jobs)`pending, PeersOf(jobs)`rowBytes, PeersOf(jobs)`reqIds, PeersOf(jobs)`cap, PeersOf(jobs)`rows, PeersOf(jobs)`baseRow, PeersOf(jobs)`rowCount, PeersOf(jobs)`answered
    {
      forall a :: 0 <= a < |jobs| && jobs[a].peer.answered ==> jobs[a].peer.Done(|jobs[a].sel|)
    }

    /** Why an attempt may fail with OSError. */
    ghost predicate Excused(faults: nat, deadline: nat)
      reads this`timeout, net
    {
      net.faults > faults || timeout == 0 || net.now >= deadline
    }

    /** Time was spent in calls and pauses only, and what failed would have failed anyone who waits as long
        as this client does, unless time has run out. */
    twostate predicate Fair(deadline: nat)
      reads this`timeout, net
    {
      Fairly(net.fate, timeout, Some(deadline), old(net.Counts()), net.Counts())
    }

    /** Past the deadline only by way of a connect that outlasted it, and in an error. */
    ghost predicate Punctual(r: Outcome, deadline: nat)
      reads this`connectTimeout, net
    {
      net.now > deadline ==> r == Raise(OSError) && Outlasted(deadline)
    }

    /** The last call was a connect that began by the deadline and took its time, or what a connect may
        take at the least, and the two together go past the deadline. */
    ghost predicate Outlasted(deadline: nat)
      reads this`connectTimeout, net
    {
      var (began, call) := net.dialed;
      var took := Min(net.fate(call).delay, Min(connectTimeout, CONNECT_FLOOR));
      net.step == call + 1 && net.now == began + took && began <= deadline < began + took
    }

    /** A connect that begins with less than the floor left and is refused no sooner than that. */
    ghost predicate TooLate(step: nat, now: nat, deadline: nat)
      reads this`connectTimeout
    {
      && now <= deadline < now + CONNECT_FLOOR <= now + connectTimeout
      && net.fate(step).fault && net.fate(step).delay >= CONNECT_FLOOR
    }

    twostate predicate DialsLate(r: Outcome, deadline: nat)
      reads this`connectTimeout, net
    {
      old(TooLate(net.step, net.now, deadline)) ==> r == Raise(OSError) && net.now == old(net.now) + CONNECT_FLOOR
    }

    /** The first call of an attempt on open connections is a send. If it breaks, this is when. */
    ghost function BreaksAt(step: nat, now: nat, deadline: nat): nat
      reads this`timeout
    {
      now + Min(net.fate(step).delay, Min(timeout, if deadline > now then deadline - now else 0))
    }

    twostate predicate SendBreaks(r: Outcome, deadline: nat)
      reads this`timeout, net
    {
      timeout > 0 && old(net.now) < deadline && net.fate(old(net.step)).fault ==>
        && r == Raise(OSError) && net.step == old(net.step) + 1
        && net.now == BreaksAt(old(net.step), old(net.now), deadline)
    }

    // ------------------------------------------------------------ connect

    /** Some dial is answered in time, if all before it are refused and the pauses kept. */
    ghost predicate Reachable(addr: nat, step: nat, now: nat, deadline: nat)
      reads this`connectTimeout
    {
      exists n: nat :: AnsweredAt(addr, step, now, deadline, n)
    }

    ghost predicate AnsweredAt(addr: nat, step: nat, now: nat, deadline: nat, n: nat)
      reads this`connectTimeout
    {
      var f := net.fate(step + n);
      && !f.fault && !f.half && f.server < |net.world.servers(addr)| && f.delay <= connectTimeout
      && now + Waits(net.fate, step + n + 1) - Waits(net.fate, step) + Pauses(n) < deadline
    }

    /** Between two dials: all of them were refused, and each was followed by its pause. */
    ghost predicate Dialing(a: Book, b: Book, pause: nat, deadline: nat) {
      var d := b.refused - a.refused;
      && d >= 0 && b.step == a.step + d && pause == Min(500_000 * Pow2(d), 5_000_000)
      && PausedWell(a, b) && (b.slept - a.slept == Pauses(d) || b.now >= deadline)
    }

    lemma DialingStarts(a: Book, deadline: nat)
      ensures Dialing(a, a, 500_000, deadline)
    {
    }

    lemma DialingOn(a: Book, b: Book, c: Book, d: Book, pause: nat, deadline: nat)
      requires Dialing(a, b, pause, deadline) && b.now <= c.now < deadline
      requires c == b.(step := b.step + 1, now := c.now, faults := c.faults, refused := b.refused + 1)
      requires var t := Min(pause, deadline - c.now); d == c.(now := c.now + t, slept := c.slept + t)
      ensures Dialing(a, d, Min(pause * 2, 5_000_000), deadline)
    {
    }

    lemma DialingEnds(a: Book, b: Book, c: Book, pause: nat, deadline: nat, up: bool)
      requires Dialing(a, b, pause, deadline) && b.now <= c.now && (up || c.now >= deadline)
      requires c == b.(step := b.step + 1, now := c.now, faults := c.faults, refused := b.refused + if up then 0 else 1)
      ensures PausedWell(a, c) && c.step - a.step == c.refused - a.refused + if up then 1 else 0
      ensures c.slept - a.slept == Pauses(c.refused - a.refused) || c.now >= deadline
    {
    }

    /** The n-th dial is the one: whoever gets to it is not turned away, and whoever fails before has
        time left. */
    lemma StillReachable(addr: nat, a: Book, b: Book, pause: nat, deadline: nat, n: nat)
      requires AnsweredAt(addr, a.step, a.now, deadline, n) && b.refused - a.refused <= n
      requires Dialing(a, b, pause, deadline) && Fairly(net.fate, timeout, Some(deadline), a, b)
      ensures b.now + net.fate(b.step).delay < deadline
      ensures b.refused - a.refused == n ==>
                !TurnedAway(net.fate(b.step), net.world.servers(addr), DialTime(deadline - b.now))
    {
      var d := b.refused - a.refused;
      WaitsGrow(net.fate, a.step + d + 1, a.step + n + 1);
      PausesJoin(d, n - d);
      assert Waits(net.fate, a.step + d + 1) == Waits(net.fate, a.step + d) + net.fate(a.step + d).delay;
    }

    lemma PauseIsFair(a: Book, b: Book, deadline: nat, t: nat)
      requires b == a.(now := a.now + t, slept := a.slept + t)
      ensures Fairly(net.fate, timeout, Some(deadline), a, b)
    {
    }

    /** How long a dial may take with this much time left. */
    function DialTime(left: int): nat
      reads this`connectTimeout
    {
      Min(connectTimeout, if left > CONNECT_FLOOR then left else CONNECT_FLOOR)
    }

    /** One dial. If the n-th was to be answered, it is this one or there is time for more. */
    method Dial(p: Peer, deadline: nat, ghost start: Book, ghost pause: nat, ghost n: Option<nat>) returns (r: Outcome)
      requires p.net == net && Dialing(start, net.Counts(), pause, deadline)
      requires Fairly(net.fate, timeout, Some(deadline), start, net.Counts())
      requires n.Some? ==>
                 AnsweredAt(p.addr, start.step, start.now, deadline, n.value) && net.refused - start.refused <= n.value
      modifies p`sock, p`timeout, p`armed, net`now, net`step, net`faults, net`refused, net`dialed, net`sending, net`ready
      ensures old(net.now) <= net.now <= old(net.now) + DialTime(deadline - old(net.now))
      ensures net.faults >= old(net.faults) && Fairly(net.fate, timeout, Some(deadline), start, net.Counts())
      ensures net.step == old(net.step) + 1 && net.refused == old(net.refused) + if r.Ok? then 0 else 1
      ensures r.Ok? ==> p.Live() && Fresh(p.sock.value) && p.timeout == timeout
      ensures r.Ok? && p.sock.value.oom ==> net.faults > old(net.faults)
      ensures r.Raise? ==> r.e == OSError && (p.timeout == old(p.timeout) || p.timeout == timeout)
      ensures old(net.now) <= deadline < net.now ==> Outlasted(deadline)
      ensures DialsLate(r, deadline)
      ensures n.Some? && r.Raise? ==> net.now < deadline && net.refused - start.refused <= n.value
    {
      hide Fairly, Dialing, AnsweredAt, Conforms, Peer.Live, Fresh;
      ghost var was := net.Counts();
      if n.Some? {
        StillReachable(p.addr, start, was, pause, deadline, n.value);
      }
      r := p.Connect(DialTime(deadline - net.now), timeout);
      TightEnough(timeout, None, deadline, was, net.Counts());
      FairlyJoin(net.fate, timeout, Some(deadline), start, was, net.Counts());
    }

    /** Only a connection or the deadline ends this; the pauses in between double. */
    method Connect(p: Peer, deadline: nat) returns (r: Outcome)
      requires p.net == net
      modifies p`sock, p`timeout, p`armed, net
      ensures old(net.now) <= net.now <= Max(old(net.now), deadline) + CONNECT_FLOOR
      ensures net.faults >= old(net.faults) && Fair(deadline) && net.Paused()
      ensures r.Ok? ==> p.Live() && Fresh(p.sock.value) && p.timeout == timeout
      ensures r.Ok? && p.sock.value.oom ==> net.faults > old(net.faults)
      ensures r.Raise? ==> r.e == OSError && net.now >= deadline
      ensures r.Raise? ==> p.timeout == old(p.timeout) || p.timeout == timeout
      ensures old(net.now) <= deadline < net.now ==> Outlasted(deadline)
      ensures DialsLate(r, deadline)
      // every dial but the last was refused, and followed by the pause that was due
      ensures net.step - old(net.step) == net.refused - old(net.refused) + (if r.Ok? then 1 else 0)
      ensures net.slept - old(net.slept) == Pauses(net.refused - old(net.refused)) || net.now >= deadline
      ensures old(Reachable(p.addr, net.step, net.now, deadline)) ==> r.Ok?
    {
      hide Fairly, PausedWell, Dialing, Pauses, AnsweredAt, Peer.Live, Fresh, Outlasted, Waits, Breaks, Charge, Spent, Pow2;
      ghost var start := net.Counts();
      ghost var n: Option<nat> := None;
      if Reachable(p.addr, net.step, net.now, deadline) {
        ghost var m: nat :| AnsweredAt(p.addr, net.step, net.now, deadline, m);
        n := Some(m);
      }
      var pause := FIRST_PAUSE;
      DialingStarts(start, deadline);
      FairlyStays(net.fate, timeout, Some(deadline), start);
      while true
        invariant old(net.now) <= net.now <= Max(old(net.now), deadline)
        invariant net.faults >= old(net.faults)
        invariant p.timeout == old(p.timeout) || p.timeout == timeout
        invariant old(TooLate(net.step, net.now, deadline)) ==> net.step == old(net.step) && net.now == old(net.now)
        invariant Dialing(start, net.Counts(), pause, deadline) && Fair(deadline) && pause > 0
        invariant old(Reachable(p.addr, net.step, net.now, deadline)) <==> n.Some?
        invariant n.Some? ==>
                    AnsweredAt(p.addr, start.step, start.now, deadline, n.value) && net.refused - start.refused <= n.value
        decreases deadline - net.now
      {
        ghost var was := net.Counts();
        r := Dial(p, deadline, start, pause, n);
        ghost var dialed := net.Counts();
        if r.Ok? {
          DialingEnds(start, was, dialed, pause, deadline, true);
          return;
        }
        var left := deadline - net.now;
        if left <= 0 {
          DialingEnds(start, was, dialed, pause, deadline, false);
          return;
        }
        net.Sleep(Min(pause, left));
        DialingOn(start, was, dialed, net.Counts(), pause, deadline);
        PauseIsFair(dialed, net.Counts(), deadline, Min(pause, left));
        FairlyJoin(net.fate, timeout, Some(deadline), start, dialed, net.Counts());
        pause := Min(pause * 2, MAX_PAUSE);
      }
    }

    lemma Connected(p: Peer)
      requires p.Live() && Fresh(p.sock.value)
      ensures AtRest(p.sock.value) || (p.sock.value.oom && Fresh(p.sock.value))
    {
      FreshIsPlausible(p.sock.value);
    }

    lemma LiveIsServed(p: Peer)
      requires p.Live()
      ensures p.sock.value.cfg in p.net.world.servers(p.addr)
    {
    }

    method CheckRange(p: Peer, stat: Stat) returns (r: Outcome)
      modifies p`resident, p`served
      ensures r.Ok? <==> stat.baseRow == p.baseRow && stat.rowCount == p.rowCount && stat.rowBytes == p.rowBytes
      ensures r.Ok? ==> p.resident == stat.resident && p.served == stat.served
      ensures r.Raise? ==> r.e == ProtocolError(RangeChanged)
    {
      if stat.baseRow != p.baseRow || stat.rowCount != p.rowCount || stat.rowBytes != p.rowBytes {
        return Raise(ProtocolError(RangeChanged));
      }
      p.resident, p.served := stat.resident, stat.served;
      return Ok;
    }

    /** Without a deadline of its own a peer blames every fault on the schedule. */
    lemma TightEnough(patience: nat, own: Option<nat>, deadline: nat, a: Book, b: Book)
      requires Fairly(net.fate, patience, own, a, b) && (own.None? || own == Some(deadline))
      ensures Fairly(net.fate, patience, Some(deadline), a, b)
    {
    }

    lemma PausedNot(a: Book, b: Book, c: Book)
      requires PausedWell(a, b) && b.refused == c.refused && b.slept == c.slept
      ensures PausedWell(a, c)
    {
    }

    /** A new connection, and the range its server reports. */
    method Greet(p: Peer, deadline: nat) returns (r: Outcome, stat: Stat)
      requires p.net == net && p.pending.None? && (p.deadline.None? || p.deadline == Some(deadline))
      modifies this`reqId, p`sock, p`timeout, p`armed, p`pending, net
      ensures p.timeout == old(p.timeout) || p.timeout == timeout
      ensures old(net.now) <= net.now && net.faults >= old(net.faults) && Fair(deadline)
      ensures p.deadline.Some? ==> net.now <= Max(old(net.now), deadline) + CONNECT_FLOOR
      ensures r.Ok? ==>
                && p.sock.Some? && p.Live() && AtRest(p.sock.value) && p.pending.None? && p.timeout == timeout
                && stat.baseRow == p.sock.value.cfg.base && stat.rowCount == p.sock.value.cfg.count
                && stat.rowBytes == ROW_BYTES
                && (p.deadline.None? || net.now <= deadline)
      ensures r.Raise? ==> r.e == OSError && Excused(old(net.faults), deadline)
      ensures p.deadline.Some? && old(net.now) <= deadline ==> Punctual(r, deadline)
      ensures p.deadline.Some? ==> DialsLate(r, deadline)
      ensures net.Paused()
    {
      hide Conforms, AtRest, Fresh, Plausible, Fairly, PausedWell, Peer.StatSeen, Settled, Whole, Unread, Config.Valid, EncodeReq;
      stat := Stat(0, 0, 0, 0, 0);
      r := Connect(p, deadline);
      if r.Raise? {
        return;
      }
      Connected(p);
      ghost var was := net.Counts();
      var id := NextReqId();
      r, stat := p.QueryStat(id);
      TightEnough(p.timeout, p.deadline, deadline, was, net.Counts());
      FairlyJoin(net.fate, timeout, Some(deadline), old(net.Counts()), was, net.Counts());
      PausedNot(old(net.Counts()), was, net.Counts());
    }

    /** Replace a dropped connection. One whose server reports another range is refused. */
    method Handshake(j: Job, deadline: nat) returns (r: Outcome)
      requires Posted(j, Some(deadline)) && net.now <= deadline && j.peer.pending.None?
      modifies this`reqId, j.peer`sock, j.peer`timeout, j.peer`armed, j.peer`pending, j.peer`resident, j.peer`served, net
      ensures j.peer.timeout == timeout
      ensures old(net.now) <= net.now <= deadline + CONNECT_FLOOR && net.faults >= old(net.faults) && Fair(deadline)
      ensures r.Ok? ==> j.peer.Quiet() && net.now <= deadline
      ensures r == Raise(OSError) ==> Excused(old(net.faults), deadline)
      ensures r.Raise? && r != Raise(OSError) ==> r.e == ProtocolError(RangeChanged) && !Pinned(j)
      ensures Punctual(r, deadline) && DialsLate(r, deadline)
      ensures net.Paused()
    {
      hide Peer.Loaded, Peer.Live, AtRest, Conforms, Fairly, PausedWell;
      j.peer.LoadedFits(|j.sel|);
      var p := j.peer;
      var stat;
      r, stat := Greet(p, deadline);
      if r.Raise? {
        return;
      }
      LiveIsServed(p);
      r := CheckRange(p, stat);
    }

    method ReopenOne(j: Job, deadline: nat) returns (r: Outcome)
      requires Posted(j, Some(deadline)) && net.now <= deadline
      requires j.peer.Quiet() || (j.peer.sock.None? && j.peer.pending.None?)
      modifies this`reqId, j.peer, net
      ensures Posted(j, Some(deadline)) && CardOf(j.peer) == old(CardOf(j.peer)) && j.peer.asked == old(j.peer.asked)
      ensures !j.peer.answered
      ensures old(net.now) <= net.now <= deadline + CONNECT_FLOOR && net.faults >= old(net.faults) && Fair(deadline)
      ensures r.Ok? ==> j.peer.Quiet() && net.now <= deadline
      ensures old(j.peer.Quiet()) ==> r.Ok? && unchanged(net)
      ensures Punctual(r, deadline) && (old(j.peer.sock.None?) ==> DialsLate(r, deadline))
      ensures r == Raise(OSError) ==> Excused(old(net.faults), deadline)
      ensures r.Raise? && r != Raise(OSError) ==> r.e == ProtocolError(RangeChanged) && !Pinned(j)
      ensures net.Paused()
    {
      hide Peer.Loaded, Fairly, PausedWell;
      FairlyStays(net.fate, timeout, Some(deadline), net.Counts());
      j.peer.answered := false;
      if j.peer.sock.Some? {
        return Ok;
      }
      r := Handshake(j, deadline);
    }

    /** A job the reopen loop has not come to: all of them still connected, or all dropped. */
    ghost predicate Unopened(j: Job, deadline: nat, card: Card, log: seq<seq<Byte>>, warm: bool)
      reads this`timeout, j.peer
    {
      && Posted(j, Some(deadline)) && CardOf(j.peer) == card && j.peer.asked == log
      && if warm then j.peer.Quiet() else j.peer.sock.None? && j.peer.pending.None? && !j.peer.answered
    }

    ghost predicate Opened(j: Job, deadline: nat, card: Card, log: seq<seq<Byte>>)
      reads this`timeout, j.peer
    {
      Posted(j, Some(deadline)) && CardOf(j.peer) == card && j.peer.asked == log && !j.peer.answered
    }

    method ReopenTurn(j: Job, deadline: nat, ghost card: Card, ghost log: seq<seq<Byte>>, ghost warm: bool) returns (r: Outcome)
      requires Unopened(j, deadline, card, log, warm) && net.now <= deadline
      modifies this`reqId, j.peer, net
      ensures Opened(j, deadline, card, log) && (r.Ok? ==> j.peer.Quiet() && net.now <= deadline)
      ensures warm ==> r.Ok? && unchanged(net)
      ensures Punctual(r, deadline) && (!warm ==> DialsLate(r, deadline))
      ensures old(net.now) <= net.now <= deadline + CONNECT_FLOOR && net.faults >= old(net.faults) && Fair(deadline)
      ensures r == Raise(OSError) ==> Excused(old(net.faults), deadline)
      ensures r.Raise? && r != Raise(OSError) ==> r.e == ProtocolError(RangeChanged) && !Pinned(j)
      ensures net.Paused()
    {
      hide Posted, CardOf, Peer.Quiet, Fairly, PausedWell;
      r := ReopenOne(j, deadline);
    }

    lemma AllUnopened(todo: seq<Job>, deadline: nat, warm: bool) returns (cards: seq<Card>, logs: seq<seq<seq<Byte>>>)
      requires AllPosted(todo, Some(deadline)) && if warm then AllQuiet(todo) else AllAborted(todo)
      ensures |cards| == |logs| == |todo|
      ensures forall a :: 0 <= a < |todo| ==>
                && Unopened(todo[a], deadline, cards[a], logs[a], warm)
                && cards[a] == CardOf(todo[a].peer) && logs[a] == todo[a].peer.asked
    {
      hide Posted, Peer.Quiet;
      cards := seq(|todo|, a requires 0 <= a < |todo| reads PeersOf(todo) => CardOf(todo[a].peer));
      logs := seq(|todo|, a requires 0 <= a < |todo| reads PeersOf(todo) => todo[a].peer.asked);
    }

    lemma AllOpened(todo: seq<Job>, deadline: nat, cards: seq<Card>, logs: seq<seq<seq<Byte>>>)
      requires |cards| == |logs| == |todo|
      requires forall a :: 0 <= a < |todo| ==> Opened(todo[a], deadline, cards[a], logs[a])
      ensures AllPosted(todo, Some(deadline)) && NoneAnswered(todo)
      ensures forall a :: 0 <= a < |todo| ==> CardOf(todo[a].peer) == cards[a] && todo[a].peer.asked == logs[a]
    {
      hide Posted, CardOf;
    }

    /** Of jobs on dropped connections a failed one is enough to stop; a live one never fails. */
    method Reopen(todo: seq<Job>, deadline: nat) returns (r: Outcome)
      requires OnePerPeer(todo) && AllPosted(todo, Some(deadline)) && net.now <= deadline
      requires AllQuiet(todo) || AllAborted(todo)
      modifies this`reqId, PeersOf(todo), net
      ensures AllPosted(todo, Some(deadline)) && NoneAnswered(todo)
      ensures forall a :: 0 <= a < |todo| ==>
                CardOf(todo[a].peer) == old(CardOf(todo[a].peer)) && todo[a].peer.asked == old(todo[a].peer.asked)
      ensures old(net.now) <= net.now <= deadline + CONNECT_FLOOR && net.faults >= old(net.faults) && Fair(deadline)
      ensures r.Ok? ==> AllQuiet(todo) && net.now <= deadline
      ensures r == Raise(OSError) ==> Excused(old(net.faults), deadline)
      ensures r.Raise? && r != Raise(OSError) ==> r.e == ProtocolError(RangeChanged) && !AllPinned(todo)
      ensures old(AllQuiet(todo)) ==> r.Ok? && unchanged(net)
      ensures Punctual(r, deadline) && (!old(AllQuiet(todo)) && todo != [] ==> DialsLate(r, deadline))
      ensures net.Paused()
    {
      hide Peer.Quiet, Pinned, Opened, Unopened, AllPosted, NoneAnswered, CardOf, AllAborted, TooLate, Fairly, PausedWell;
      ghost var warm := AllQuiet(todo);
      ghost var cards, logs := AllUnopened(todo, deadline, warm);
      FairlyStays(net.fate, timeout, Some(deadline), net.Counts());
      r := Ok;
      for i := 0 to |todo|
        invariant forall a :: 0 <= a < i ==> Opened(todo[a], deadline, cards[a], logs[a]) && todo[a].peer.Quiet()
        invariant forall a :: i <= a < |todo| ==> Unopened(todo[a], deadline, cards[a], logs[a], warm)
        invariant warm || i == 0 ==> unchanged(net)
        invariant !warm && i > 0 ==> !old(TooLate(net.step, net.now, deadline))
        invariant net.Paused()
        invariant old(net.now) <= net.now <= deadline && net.faults >= old(net.faults) && Fair(deadline)
      {
        ghost var was := net.Counts();
        r := ReopenTurn(todo[i], deadline, cards[i], logs[i], warm);
        FairlyJoin(net.fate, timeout, Some(deadline), old(net.Counts()), was, net.Counts());
        PausedJoin(old(net.Counts()), was, net.Counts());
        if r.Raise? {
          forall a | i < a < |todo|
            ensures Opened(todo[a], deadline, cards[a], logs[a])
          {
            ColdIsOpened(todo[a], deadline, cards[a], logs[a]);
          }
          AllOpened(todo, deadline, cards, logs);
          return;
        }
      }
      AllOpened(todo, deadline, cards, logs);
      return Ok;
    }

    lemma ColdIsOpened(j: Job, deadline: nat, card: Card, log: seq<seq<Byte>>)
      requires Unopened(j, deadline, card, log, false)
      ensures Opened(j, deadline, card, log)
    {
    }

    // ----------------------------------------------------- send and begin

    ghost predicate AllAsked(jobs: seq<Job>)
      reads PeersOf(jobs)`sock, PeersOf(jobs)`armed, PeersOf(jobs)`pending, PeersOf(jobs)`rowBytes, PeersOf(jobs)`reqIds, PeersOf(jobs)`cap, PeersOf(jobs)`rows, PeersOf(jobs)`baseRow, PeersOf(jobs)`rowCount
    {
      forall a :: 0 <= a < |jobs| ==> jobs[a].peer.Asked(|jobs[a].sel|)
    }

    ghost predicate AllReading(jobs: seq<Job>)
      reads PeersOf(jobs)`sock, PeersOf(jobs)`armed, PeersOf(jobs)`pending, PeersOf(jobs)`rowBytes, PeersOf(jobs)`reqIds, PeersOf(jobs)`cap, PeersOf(jobs)`rows, PeersOf(jobs)`baseRow, PeersOf(jobs)`rowCount, PeersOf(jobs)`rdWant, PeersOf(jobs)`rdGot
    {
      forall a :: 0 <= a < |jobs| ==>
        jobs[a].peer.Reading(|jobs[a].sel|) && jobs[a].peer.rdGot < jobs[a].peer.rdWant
    }

    ghost predicate AllDone(jobs: seq<Job>)
      reads PeersOf(jobs)`sock, PeersOf(jobs)`armed, PeersOf(jobs)`pending, PeersOf(jobs)`rowBytes, PeersOf(jobs)`reqIds, PeersOf(jobs)`cap, PeersOf(jobs)`rows, PeersOf(jobs)`baseRow, PeersOf(jobs)`rowCount
    {
      forall a :: 0 <= a < |jobs| ==> jobs[a].peer.Done(|jobs[a].sel|)
    }

    method SendOne(j: Job, deadline: nat) returns (r: Outcome)
      requires Posted(j, Some(deadline)) && net.now <= deadline && j.peer.Quiet() && !j.peer.answered
      modifies this`reqId, j.peer, net`now, net`step, net`faults, net`volley, net`sending, net`ready
      ensures Posted(j, Some(deadline)) && !j.peer.answered
      ensures CardOf(j.peer) == old(CardOf(j.peer))
      ensures AskedOnceMore(old(j.peer.asked), j.peer.asked, Ids(j))
      ensures old(net.now) <= net.now <= deadline && net.faults >= old(net.faults) && Fair(deadline)
      ensures r.Ok? ==> j.peer.Asked(|j.sel|)
      ensures r.Raise? ==> r.e == OSError && Excused(old(net.faults), deadline)
      ensures SendBreaks(r, deadline)
      ensures r.Ok? ==> net.sending && net.volley == if old(net.sending) then old(net.volley) + 1 else 1
      ensures reqId == (old(reqId) + 1) % TWO32 && (r.Ok? ==> j.peer.pending == Some(reqId))
    {
      hide Peer.Quiet, Peer.Loaded, Peer.Asked, GathersExactly, Fairly, PausedWell, Peer.Live, Peer.RangeHolds, Conforms, Fails, Breaks, Waits;
      j.peer.LoadedFits(|j.sel|);
      var id := NextReqId();
      r := j.peer.SendGather(id, |j.sel|);
    }

    method BeginOne(j: Job, deadline: nat) returns (r: Outcome)
      requires Posted(j, Some(deadline)) && net.now <= deadline && j.peer.Asked(|j.sel|) && !j.peer.answered
      modifies j.peer, net`now, net`step, net`faults, net`sending, net`ready, net`blind
      ensures Posted(j, Some(deadline)) && !j.peer.answered
      ensures CardOf(j.peer) == old(CardOf(j.peer)) && j.peer.asked == old(j.peer.asked)
      ensures old(net.now) <= net.now <= deadline && net.faults >= old(net.faults) && Fair(deadline)
      ensures r.Ok? ==> j.peer.Reading(|j.sel|) && j.peer.rdGot < j.peer.rdWant
      ensures r == Raise(OSError) ==> Excused(old(net.faults), deadline)
      ensures r.Raise? && r != Raise(OSError) ==> r.e == ProtocolError(Status(ST_TOO_MANY)) && !Pinned(j)
    {
      hide Peer.Loaded, Peer.Asked, Peer.Reading, Conforms, Plausible, Fairly, PausedWell;
      r := j.peer.BeginRows(|j.sel|);
    }

    /** A job as the send loop found it, and as it may leave it. */
    ghost predicate Unsent(j: Job, deadline: nat, card: Card, log: seq<seq<Byte>>)
      reads this`timeout, j.peer
    {
      Posted(j, Some(deadline)) && CardOf(j.peer) == card && !j.peer.answered && j.peer.Quiet() && j.peer.asked == log
    }

    ghost predicate Sent(j: Job, deadline: nat, card: Card, log: seq<seq<Byte>>)
      reads this`timeout, j.peer
    {
      Posted(j, Some(deadline)) && CardOf(j.peer) == card && !j.peer.answered && AskedOnceMore(log, j.peer.asked, Ids(j))
    }

    method SendTurn(j: Job, deadline: nat, ghost card: Card, ghost log: seq<seq<Byte>>) returns (r: Outcome)
      requires Unsent(j, deadline, card, log) && net.now <= deadline
      modifies this`reqId, j.peer, net`now, net`step, net`faults, net`volley, net`sending, net`ready
      ensures Sent(j, deadline, card, log)
      ensures old(net.now) <= net.now <= deadline && net.faults >= old(net.faults) && Fair(deadline)
      ensures r.Raise? ==> r.e == OSError && Excused(old(net.faults), deadline)
      ensures SendBreaks(r, deadline)
      ensures r.Ok? ==> net.sending && net.volley == if old(net.sending) then old(net.volley) + 1 else 1
      ensures reqId == (old(reqId) + 1) % TWO32 && (r.Ok? ==> reqId < TWO32 && Posed(j, deadline, card, log, reqId))
    {
      hide Peer.Quiet, Peer.Asked, AskedOnceMore, Posted, Ids, Fairly, PausedWell;
      r := SendOne(j, deadline);
    }

    /** Its request is on the wire under this id. */
    ghost predicate Posed(j: Job, deadline: nat, card: Card, log: seq<seq<Byte>>, id: nat)
      reads this`timeout, j.peer
    {
      Sent(j, deadline, card, log) && j.peer.Asked(|j.sel|) && j.peer.pending == Some(id)
    }

    lemma PosedIsSent(j: Job, deadline: nat, card: Card, log: seq<seq<Byte>>, id: nat)
      requires Posed(j, deadline, card, log, id)
      ensures Sent(j, deadline, card, log) && j.peer.Asked(|j.sel|) && j.peer.pending == Some(id)
    {
    }

    lemma UnsentIsSent(j: Job, deadline: nat, card: Card, log: seq<seq<Byte>>)
      requires Unsent(j, deadline, card, log)
      ensures Sent(j, deadline, card, log)
    {
      NotAsked(log, Ids(j));
    }

    lemma AllUnsent(todo: seq<Job>, deadline: nat) returns (cards: seq<Card>, logs: seq<seq<seq<Byte>>>)
      requires AllPosted(todo, Some(deadline)) && AllQuiet(todo) && NoneAnswered(todo)
      ensures |cards| == |logs| == |todo|
      ensures forall a :: 0 <= a < |todo| ==>
                && Unsent(todo[a], deadline, cards[a], logs[a])
                && cards[a] == CardOf(todo[a].peer) && logs[a] == todo[a].peer.asked
    {
      hide Peer.Quiet, Posted;
      cards := seq(|todo|, a requires 0 <= a < |todo| reads PeersOf(todo) => CardOf(todo[a].peer));
      logs := seq(|todo|, a requires 0 <= a < |todo| reads PeersOf(todo) => todo[a].peer.asked);
    }

    method SendAll(todo: seq<Job>, deadline: nat) returns (r: Outcome)
      requires OnePerPeer(todo) && AllPosted(todo, Some(deadline)) && net.now <= deadline
      requires AllQuiet(todo) && NoneAnswered(todo)
      modifies this`reqId, PeersOf(todo), net`now, net`step, net`faults, net`volley, net`sending, net`ready
      ensures AllPosted(todo, Some(deadline)) && NoneAnswered(todo)
      ensures forall a :: 0 <= a < |todo| ==>
                && CardOf(todo[a].peer) == old(CardOf(todo[a].peer))
                && AskedOnceMore(old(todo[a].peer.asked), todo[a].peer.asked, Ids(todo[a]))
      ensures old(net.now) <= net.now <= deadline && net.faults >= old(net.faults) && Fair(deadline)
      ensures r.Ok? ==> AllAsked(todo)
      ensures r.Raise? ==> r.e == OSError && Excused(old(net.faults), deadline)
      ensures todo != [] ==> SendBreaks(r, deadline)
      ensures r.Ok? ==> net.volley >= |todo|
      ensures r.Ok? ==> forall a :: 0 <= a < |todo| ==> todo[a].peer.pending == Some(IdAfter(old(reqId), a + 1))
    {
      hide Peer.Quiet, AllAsked, AllQuiet, Peer.Asked, Sent, Unsent, Posed, AllPosted, NoneAnswered, AskedOnceMore, CardOf, Ids, Fairly, PausedWell, IdAfter;
      ghost var cards, logs := AllUnsent(todo, deadline);
      FairlyStays(net.fate, timeout, Some(deadline), net.Counts());
      r := Ok;
      for i := 0 to |todo|
        invariant forall a :: 0 <= a < i ==>
                    Posed(todo[a], deadline, cards[a], logs[a], IdAfter(old(reqId), a + 1))
        invariant forall a :: i <= a < |todo| ==> Unsent(todo[a], deadline, cards[a], logs[a])
        invariant if i == 0 then reqId == old(reqId) else reqId == IdAfter(old(reqId), i)
        invariant net.volley >= i && (i > 0 ==> net.sending)
        invariant i == 0 ==> net.now == old(net.now) && net.step == old(net.step)
        invariant i > 0 ==> !(timeout > 0 && old(net.now) < deadline && net.fate(old(net.step)).fault)
        invariant old(net.now) <= net.now <= deadline && net.faults >= old(net.faults) && Fair(deadline)
      {
        IdNext(old(reqId), i, reqId);
        ghost var was := net.Counts();
        r := SendTurn(todo[i], deadline, cards[i], logs[i]);
        FairlyJoin(net.fate, timeout, Some(deadline), old(net.Counts()), was, net.Counts());
        if r.Raise? {
          SomePosed(todo, deadline, cards, logs, old(reqId), i);
          return;
        }
      }
      AllPosed(todo, deadline, cards, logs, old(reqId));
      return Ok;
    }

    /** The i-th could not be asked, and those behind it have not been. */
    lemma SomePosed(todo: seq<Job>, deadline: nat, cards: seq<Card>, logs: seq<seq<seq<Byte>>>, first: nat, i: nat)
      requires |cards| == |logs| == |todo| && i < |todo| && Sent(todo[i], deadline, cards[i], logs[i])
      requires forall a :: 0 <= a < i ==> Posed(todo[a], deadline, cards[a], logs[a], IdAfter(first, a + 1))
      requires forall a :: i < a < |todo| ==> Unsent(todo[a], deadline, cards[a], logs[a])
      ensures AllPosted(todo, Some(deadline)) && NoneAnswered(todo)
      ensures forall a :: 0 <= a < |todo| ==>
                CardOf(todo[a].peer) == cards[a] && AskedOnceMore(logs[a], todo[a].peer.asked, Ids(todo[a]))
    {
      hide Sent, Unsent, Posed, AskedOnceMore, Ids, CardOf, AllPosted, NoneAnswered, Peer.Asked, IdAfter;
      forall a | 0 <= a < |todo|
        ensures Sent(todo[a], deadline, cards[a], logs[a])
      {
        if a < i {
          PosedIsSent(todo[a], deadline, cards[a], logs[a], IdAfter(first, a + 1));
        } else if a > i {
          UnsentIsSent(todo[a], deadline, cards[a], logs[a]);
        }
      }
      AllSent(todo, deadline, cards, logs);
    }

    lemma AllPosed(todo: seq<Job>, deadline: nat, cards: seq<Card>, logs: seq<seq<seq<Byte>>>, first: nat)
      requires |cards| == |logs| == |todo|
      requires forall a :: 0 <= a < |todo| ==> Posed(todo[a], deadline, cards[a], logs[a], IdAfter(first, a + 1))
      ensures AllPosted(todo, Some(deadline)) && NoneAnswered(todo) && AllAsked(todo)
      ensures forall a :: 0 <= a < |todo| ==>
                && CardOf(todo[a].peer) == cards[a] && AskedOnceMore(logs[a], todo[a].peer.asked, Ids(todo[a]))
                && todo[a].peer.pending == Some(IdAfter(first, a + 1))
    {
      hide Sent, Posed, AskedOnceMore, Ids, CardOf, AllPosted, NoneAnswered, Peer.Asked, IdAfter;
      forall a | 0 <= a < |todo|
        ensures Sent(todo[a], deadline, cards[a], logs[a]) && todo[a].peer.Asked(|todo[a].sel|)
        ensures todo[a].peer.pending == Some(IdAfter(first, a + 1))
      {
        PosedIsSent(todo[a], deadline, cards[a], logs[a], IdAfter(first, a + 1));
      }
      AllSent(todo, deadline, cards, logs);
    }

    lemma AllSent(todo: seq<Job>, deadline: nat, cards: seq<Card>, logs: seq<seq<seq<Byte>>>)
      requires |cards| == |logs| == |todo|
      requires forall a :: 0 <= a < |todo| ==> Sent(todo[a], deadline, cards[a], logs[a])
      ensures AllPosted(todo, Some(deadline)) && NoneAnswered(todo)
      ensures forall a :: 0 <= a < |todo| ==>
                CardOf(todo[a].peer) == cards[a] && AskedOnceMore(logs[a], todo[a].peer.asked, Ids(todo[a]))
    {
      hide Posted, AskedOnceMore, Ids, CardOf;
    }

    method BeginAll(todo: seq<Job>, deadline: nat) returns (r: Outcome)
      requires OnePerPeer(todo) && AllPosted(todo, Some(deadline)) && net.now <= deadline
      requires AllAsked(todo) && NoneAnswered(todo)
      modifies PeersOf(todo), net`now, net`step, net`faults, net`sending, net`ready, net`blind
      ensures AllPosted(todo, Some(deadline)) && NoneAnswered(todo)
      ensures forall a :: 0 <= a < |todo| ==>
                CardOf(todo[a].peer) == old(CardOf(todo[a].peer)) && todo[a].peer.asked == old(todo[a].peer.asked)
      ensures old(net.now) <= net.now <= deadline && net.faults >= old(net.faults) && Fair(deadline)
      ensures r.Ok? ==> AllReading(todo)
      ensures r == Raise(OSError) ==> Excused(old(net.faults), deadline)
      ensures r.Raise? && r != Raise(OSError) ==>
                r.e == ProtocolError(Status(ST_TOO_MANY)) && !AllPinned(todo)
    {
      hide Peer.Asked, Peer.Reading, Posted, CardOf, Pinned, Fairly, PausedWell;
      FairlyStays(net.fate, timeout, Some(deadline), net.Counts());
      r := Ok;
      for i := 0 to |todo|
        invariant AllPosted(todo, Some(deadline)) && NoneAnswered(todo)
        invariant forall a :: 0 <= a < |todo| ==>
                    CardOf(todo[a].peer) == old(CardOf(todo[a].peer)) && todo[a].peer.asked == old(todo[a].peer.asked)
        invariant forall a :: 0 <= a < i ==>
                    todo[a].peer.Reading(|todo[a].sel|) && todo[a].peer.rdGot < todo[a].peer.rdWant
        invariant forall a :: i <= a < |todo| ==> todo[a].peer.Asked(|todo[a].sel|)
        invariant old(net.now) <= net.now <= deadline && net.faults >= old(net.faults) && Fair(deadline)
      {
        ghost var was := net.Counts();
        r := BeginOne(todo[i], deadline);
        FairlyJoin(net.fate, timeout, Some(deadline), old(net.Counts()), was, net.Counts());
        if r.Raise? {
          return;
        }
      }
      return Ok;
    }

    // --------------------------------------------------------------- drain

    /** Who is still waiting has an unfinished body and is not answered; the others are done. */
    ghost predicate Draining(todo: seq<Job>, waiting: set<nat>, rem: seq<nat>)
      reads PeersOf(todo)
    {
      && |rem| == |todo|
      && (forall a :: a in waiting ==> a < |todo|)
      && forall a :: 0 <= a < |todo| ==> JobDraining(todo[a], a in waiting, rem[a])
    }

    ghost predicate JobDraining(j: Job, waits: bool, rem: nat)
      reads j.peer
    {
      if waits then
        j.peer.Reading(|j.sel|) && !j.peer.answered && j.peer.rdGot < j.peer.rdWant && rem == j.peer.rdWant - j.peer.rdGot
      else
        j.peer.Done(|j.sel|) && j.peer.answered
    }

    /** One recv for one waiting peer. */
    method PumpOne(j: Job, deadline: nat, ghost rem: nat) returns (r: Outcome, ghost rem': nat)
      requires Posted(j, Some(deadline)) && net.now <= deadline && JobDraining(j, true, rem)
      modifies j.peer, net`now, net`step, net`faults, net`sending, net`ready, net`blind
      ensures Posted(j, Some(deadline))
      ensures CardOf(j.peer) == old(CardOf(j.peer)) && j.peer.asked == old(j.peer.asked)
      ensures old(net.now) <= net.now <= deadline && net.faults >= old(net.faults) && Fair(deadline)
      ensures r.Ok? ==> JobDraining(j, !j.peer.answered, rem') && rem' < rem
      ensures r.Raise? ==> r.e == OSError && !j.peer.answered && Excused(old(net.faults), deadline)
      ensures old(net.ready) > 0 ==> net.blind == old(net.blind) && net.ready + 1 >= old(net.ready)
    {
      var p := j.peer;
      hide Peer.Reading, Peer.Done, Peer.Loaded, Peer.Live, Peer.RangeHolds, Fairly, PausedWell;
      rem' := 0;
      r := p.PumpRows(|j.sel|);
      if r.Ok? {
        rem' := p.rdWant - p.rdGot;
        if p.answered {
          Finished(p, |j.sel|);
        }
      }
    }

    lemma Finished(p: Peer, k: nat)
      requires p.Reading(k) && p.rdGot >= p.rdWant
      ensures p.Done(k)
    {
      p.CompleteIsDone(k);
    }

    /** A job between two pumps: only its buffer and what it still waits for have changed. */
    ghost predicate Pumped(j: Job, deadline: nat, card: Card, log: seq<seq<Byte>>, waits: bool, rem: nat)
      reads this`timeout, j.peer
    {
      Posted(j, Some(deadline)) && CardOf(j.peer) == card && j.peer.asked == log && JobDraining(j, waits, rem)
    }

    method PumpTurn(j: Job, deadline: nat, ghost card: Card, ghost log: seq<seq<Byte>>, ghost rem: nat)
      returns (r: Outcome, ghost rem': nat)
      requires Pumped(j, deadline, card, log, true, rem) && net.now <= deadline
      modifies j.peer, net`now, net`step, net`faults, net`sending, net`ready, net`blind
      ensures Posted(j, Some(deadline)) && CardOf(j.peer) == card && j.peer.asked == log
      ensures old(net.now) <= net.now <= deadline && net.faults >= old(net.faults) && Fair(deadline)
      ensures r.Ok? ==> Pumped(j, deadline, card, log, !j.peer.answered, rem') && rem' < rem
      ensures r.Raise? ==> r.e == OSError && !j.peer.answered && Excused(old(net.faults), deadline)
      ensures old(net.ready) > 0 ==> net.blind == old(net.blind) && net.ready + 1 >= old(net.ready)
    {
      hide Posted, CardOf, JobDraining, Fairly, PausedWell;
      r, rem' := PumpOne(j, deadline, rem);
    }

    lemma AllPumped(todo: seq<Job>, deadline: nat, waiting: set<nat>, rem: seq<nat>)
      returns (cards: seq<Card>, logs: seq<seq<seq<Byte>>>)
      requires AllPosted(todo, Some(deadline)) && Draining(todo, waiting, rem)
      ensures |cards| == |logs| == |todo|
      ensures forall a :: 0 <= a < |todo| ==>
                && Pumped(todo[a], deadline, cards[a], logs[a], a in waiting, rem[a])
                && cards[a] == CardOf(todo[a].peer) && logs[a] == todo[a].peer.asked
    {
      hide Posted, JobDraining;
      cards := seq(|todo|, a requires 0 <= a < |todo| reads PeersOf(todo) => CardOf(todo[a].peer));
      logs := seq(|todo|, a requires 0 <= a < |todo| reads PeersOf(todo) => todo[a].peer.asked);
    }

    lemma PumpedIsDone(j: Job, deadline: nat, card: Card, log: seq<seq<Byte>>, waits: bool, rem: nat)
      requires Pumped(j, deadline, card, log, waits, rem)
      ensures Posted(j, Some(deadline)) && CardOf(j.peer) == card && j.peer.asked == log && JobDraining(j, waits, rem)
      ensures j.peer.answered ==> j.peer.Done(|j.sel|)
    {
      hide Posted, CardOf, Peer.Done, Peer.Reading;
    }

    /** The readable sockets of one select, each pumped once. */
    method PumpReady(todo: seq<Job>, deadline: nat, waiting0: set<nat>, hits: seq<nat>, ghost rem0: seq<nat>)
      returns (r: Outcome, waiting: set<nat>, ghost rem: seq<nat>)
      requires OnePerPeer(todo) && AllPosted(todo, Some(deadline)) && net.now <= deadline
      requires Draining(todo, waiting0, rem0)
      requires forall i :: 0 <= i < |hits| ==> hits[i] in waiting0
      requires forall i, j :: 0 <= i < j < |hits| ==> hits[i] != hits[j]
      modifies PeersOf(todo), net`now, net`step, net`faults, net`sending, net`ready, net`blind
      ensures AllPosted(todo, Some(deadline))
      ensures forall a :: 0 <= a < |todo| ==>
                CardOf(todo[a].peer) == old(CardOf(todo[a].peer)) && todo[a].peer.asked == old(todo[a].peer.asked)
      ensures old(net.now) <= net.now <= deadline && net.faults >= old(net.faults) && Fair(deadline)
      ensures r.Ok? ==> Draining(todo, waiting, rem) && (hits != [] ==> Total(rem) < Total(rem0))
      ensures r.Raise? ==> r.e == OSError && Excused(old(net.faults), deadline)
      ensures r.Raise? ==> AnsweredAreDone(todo) && !AllAnswered(todo)
      ensures old(net.ready) >= |hits| ==> net.blind == old(net.blind)
    {
      hide Posted, CardOf, JobDraining, Peer.Done, Pumped, Total, Fairly, PausedWell;
      FairlyStays(net.fate, timeout, Some(deadline), net.Counts());
      waiting, rem := waiting0, rem0;
      ghost var cards, logs := AllPumped(todo, deadline, waiting, rem);
      for i := 0 to |hits|
        invariant |rem| == |todo| && forall a :: a in waiting ==> a < |todo|
        invariant forall a :: 0 <= a < |todo| ==> Pumped(todo[a], deadline, cards[a], logs[a], a in waiting, rem[a])
        invariant old(net.ready) >= |hits| ==> net.blind == old(net.blind) && net.ready >= |hits| - i
        invariant old(net.now) <= net.now <= deadline && net.faults >= old(net.faults) && Fair(deadline)
        invariant forall t :: i <= t < |hits| ==> hits[t] in waiting
        invariant if i == 0 then rem == rem0 else Total(rem) < Total(rem0)
      {
        var a := hits[i];
        ghost var left;
        ghost var was := net.Counts();
        r, left := PumpTurn(todo[a], deadline, cards[a], logs[a], rem[a]);
        FairlyJoin(net.fate, timeout, Some(deadline), old(net.Counts()), was, net.Counts());
        if r.Raise? {
          forall b | 0 <= b < |todo|
            ensures Posted(todo[b], Some(deadline)) && CardOf(todo[b].peer) == cards[b] && todo[b].peer.asked == logs[b]
            ensures todo[b].peer.answered ==> todo[b].peer.Done(|todo[b].sel|)
          {
            if b != a {
              PumpedIsDone(todo[b], deadline, cards[b], logs[b], b in waiting, rem[b]);
            }
          }
          return;
        }
        TotalDrops(rem, a, left);
        rem := rem[a := left];
        if todo[a].peer.answered {
          waiting := waiting - {a};
        }
      }
      forall b | 0 <= b < |todo|
        ensures Posted(todo[b], Some(deadline)) && CardOf(todo[b].peer) == cards[b] && todo[b].peer.asked == logs[b]
        ensures JobDraining(todo[b], b in waiting, rem[b])
      {
        PumpedIsDone(todo[b], deadline, cards[b], logs[b], b in waiting, rem[b]);
      }
      return Ok, waiting, rem;
    }

    ghost predicate AllAnswered(jobs: seq<Job>)
      reads PeersOf(jobs)`answered
    {
      forall a :: 0 <= a < |jobs| ==> jobs[a].peer.answered
    }

    /** A select that waits for as long as the timeout and the deadline allow. */
    twostate lemma SelectIsFair(deadline: nat)
      requires net.Spends() && old(net.now) <= deadline && net.step == old(net.step) + 1
      requires var wait := Min(timeout, deadline - old(net.now));
               && net.now == old(net.now) + Min(net.fate(old(net.step)).delay, wait)
               && net.faults == old(net.faults) + (if Fails(net.fate(old(net.step)), wait) then 1 else 0)
      ensures Fair(deadline)
    {
    }

    /** Wait until something is readable and pump it. */
    method DrainRound(todo: seq<Job>, deadline: nat, waiting0: set<nat>, ghost rem0: seq<nat>)
      returns (r: Outcome, waiting: set<nat>, ghost rem: seq<nat>)
      requires OnePerPeer(todo) && AllPosted(todo, Some(deadline)) && net.now <= deadline
      requires Draining(todo, waiting0, rem0) && waiting0 != {}
      modifies PeersOf(todo), net`now, net`step, net`faults, net`sending, net`ready, net`blind
      ensures AllPosted(todo, Some(deadline))
      ensures forall a :: 0 <= a < |todo| ==>
                CardOf(todo[a].peer) == old(CardOf(todo[a].peer)) && todo[a].peer.asked == old(todo[a].peer.asked)
      ensures old(net.now) <= net.now <= deadline && net.faults >= old(net.faults) && Fair(deadline)
      ensures r.Ok? ==> Draining(todo, waiting, rem) && Total(rem) < Total(rem0)
      ensures r.Raise? ==> r.e == OSError && Excused(old(net.faults), deadline)
      ensures r.Raise? ==> AnsweredAreDone(todo) && !AllAnswered(todo)
      ensures net.blind == old(net.blind)
    {
      hide Posted, CardOf, JobDraining, Peer.Done, Peer.Reading, Draining, Fairly, PausedWell;
      FairlyStays(net.fate, timeout, Some(deadline), net.Counts());
      waiting, rem := waiting0, rem0;
      SomeWait(todo, waiting, rem);
      var list := Listed(waiting, |todo|);
      var ready := [];
      if net.now < deadline && timeout > 0 {
        ready := net.Select(|list|, Min(timeout, deadline - net.now));
        SelectIsFair(deadline);
      }
      if ready == [] {
        StillWaiting(todo, waiting, rem);
        r := Raise(OSError);
        return;
      }
      var hits := seq(|ready|, i requires 0 <= i < |ready| => list[ready[i]]);
      ghost var was := net.Counts();
      r, waiting, rem := PumpReady(todo, deadline, waiting, hits, rem);
      FairlyJoin(net.fate, timeout, Some(deadline), old(net.Counts()), was, net.Counts());
    }

    /** All waiting bodies at once: whoever the network lets be read next is pumped, until none is left.
        The order makes no difference to what is in the buffers. */
    method Drain(todo: seq<Job>, deadline: nat) returns (r: Outcome)
      requires OnePerPeer(todo) && AllPosted(todo, Some(deadline)) && net.now <= deadline
      requires AllReading(todo) && NoneAnswered(todo) && todo != []
      modifies PeersOf(todo), net`now, net`step, net`faults, net`sending, net`ready, net`blind
      ensures AllPosted(todo, Some(deadline))
      ensures forall a :: 0 <= a < |todo| ==>
                CardOf(todo[a].peer) == old(CardOf(todo[a].peer)) && todo[a].peer.asked == old(todo[a].peer.asked)
      ensures old(net.now) <= net.now <= deadline && net.faults >= old(net.faults) && Fair(deadline)
      ensures r.Ok? ==> AllDone(todo)
      ensures r.Raise? ==> r.e == OSError && Excused(old(net.faults), deadline)
      ensures r.Raise? ==> AnsweredAreDone(todo) && !AllAnswered(todo)
      ensures net.blind == old(net.blind)
    {
      hide Fairly, PausedWell;
      var waiting := Indices(|todo|);
      ghost var rem := StartDraining(todo);
      hide Posted, CardOf, JobDraining, Peer.Done, Peer.Reading;
      FairlyStays(net.fate, timeout, Some(deadline), net.Counts());
      r := Ok;
      while waiting != {}
        invariant AllPosted(todo, Some(deadline))
        invariant forall a :: 0 <= a < |todo| ==>
                    CardOf(todo[a].peer) == old(CardOf(todo[a].peer)) && todo[a].peer.asked == old(todo[a].peer.asked)
        invariant net.blind == old(net.blind)
        invariant old(net.now) <= net.now <= deadline && net.faults >= old(net.faults) && Fair(deadline)
        invariant Draining(todo, waiting, rem)
        decreases Total(rem)
      {
        ghost var was := net.Counts();
        r, waiting, rem := DrainRound(todo, deadline, waiting, rem);
        FairlyJoin(net.fate, timeout, Some(deadline), old(net.Counts()), was, net.Counts());
        if r.Raise? {
          return;
        }
      }
      FullyDrained(todo, rem);
      return Ok;
    }

    ghost function Remaining(j: Job): nat
      reads j.peer
    {
      if j.peer.rdGot < j.peer.rdWant then j.peer.rdWant - j.peer.rdGot else 0
    }

    lemma StartDraining(todo: seq<Job>) returns (rem: seq<nat>)
      requires AllReading(todo) && NoneAnswered(todo)
      ensures Draining(todo, Indices(|todo|), rem)
    {
      hide Peer.Reading, Peer.Done;
      rem := seq(|todo|, a requires 0 <= a < |todo| reads PeersOf(todo) => Remaining(todo[a]));
    }

    lemma FullyDrained(todo: seq<Job>, rem: seq<nat>)
      requires Draining(todo, {}, rem)
      ensures AllDone(todo)
    {
      hide Peer.Reading, Peer.Done;
      forall a | 0 <= a < |todo|
        ensures todo[a].peer.Done(|todo[a].sel|)
      {
        assert JobDraining(todo[a], false, rem[a]);
      }
    }

    lemma SomeWait(todo: seq<Job>, waiting: set<nat>, rem: seq<nat>)
      requires Draining(todo, waiting, rem) && waiting != {}
      ensures Listed(waiting, |todo|) != []
    {
      var a :| a in waiting;
      assert a in Listed(waiting, |todo|);
    }

    lemma StillWaiting(todo: seq<Job>, waiting: set<nat>, rem: seq<nat>)
      requires Draining(todo, waiting, rem) && waiting != {}
      ensures AnsweredAreDone(todo) && !AllAnswered(todo)
    {
      var a :| a in waiting;
      assert JobDraining(todo[a], true, rem[a]);
    }

    method FinishOne(j: Job, deadline: nat) returns (r: Outcome)
      requires Posted(j, Some(deadline)) && net.now <= deadline
      requires j.peer.Reading(|j.sel|) && j.peer.rdGot < j.peer.rdWant && !j.peer.answered
      modifies j.peer, net`now, net`step, net`faults, net`sending, net`ready, net`blind
      ensures Posted(j, Some(deadline))
      ensures CardOf(j.peer) == old(CardOf(j.peer)) && j.peer.asked == old(j.peer.asked)
      ensures old(net.now) <= net.now <= deadline && net.faults >= old(net.faults) && Fair(deadline)
      ensures r.Ok? ==> j.peer.Done(|j.sel|)
      ensures r.Raise? ==> r.e == OSError && !j.peer.answered && Excused(old(net.faults), deadline)
    {
      hide Peer.Reading, Peer.Done, Peer.Loaded, Peer.Live, Peer.RangeHolds, Fairly, PausedWell;
      r := j.peer.FinishRows(|j.sel|);
    }

    // ------------------------------------------------------------ attempts

    /** Every body is on its way: read them all, together if there are several. */
    method ReadAll(todo: seq<Job>, deadline: nat) returns (r: Outcome)
      requires OnePerPeer(todo) && AllPosted(todo, Some(deadline)) && net.now <= deadline
      requires AllReading(todo) && NoneAnswered(todo) && todo != []
      modifies PeersOf(todo), net`now, net`step, net`faults, net`sending, net`ready, net`blind
      ensures AllPosted(todo, Some(deadline))
      ensures forall a :: 0 <= a < |todo| ==>
                CardOf(todo[a].peer) == old(CardOf(todo[a].peer)) && todo[a].peer.asked == old(todo[a].peer.asked)
      ensures old(net.now) <= net.now <= deadline && net.faults >= old(net.faults) && Fair(deadline)
      ensures r.Ok? ==> AllDone(todo)
      ensures r.Raise? ==> r.e == OSError && Excused(old(net.faults), deadline)
      ensures r.Raise? ==> AnsweredAreDone(todo) && !AllAnswered(todo)
      ensures |todo| > 1 ==> net.blind == old(net.blind)
    {
      hide Posted, CardOf, Peer.Reading, Peer.Done, Fairly, PausedWell;
      if |todo| > 1 {
        r := Drain(todo, deadline);
      } else {
        r := FinishOne(todo[0], deadline);
      }
    }

    /** On open connections: all requests leave, then all headers come in, then all bodies. */
    method AskAndRead(todo: seq<Job>, deadline: nat) returns (r: Outcome)
      requires OnePerPeer(todo) && AllPosted(todo, Some(deadline)) && net.now <= deadline && todo != []
      requires AllQuiet(todo) && NoneAnswered(todo)
      modifies this`reqId, PeersOf(todo), net`now, net`step, net`faults, net`volley, net`sending, net`ready, net`blind
      ensures AllPosted(todo, Some(deadline))
      ensures forall a :: 0 <= a < |todo| ==>
                && CardOf(todo[a].peer) == old(CardOf(todo[a].peer))
                && AskedOnceMore(old(todo[a].peer.asked), todo[a].peer.asked, Ids(todo[a]))
      ensures old(net.now) <= net.now <= deadline && net.faults >= old(net.faults) && Fair(deadline)
      ensures r.Ok? ==> AllDone(todo) && net.volley >= |todo|
      ensures r == Raise(OSError) ==>
                Excused(old(net.faults), deadline) && AnsweredAreDone(todo) && !AllAnswered(todo)
      ensures r.Raise? && r != Raise(OSError) ==>
                r.e == ProtocolError(Status(ST_TOO_MANY)) && !AllPinned(todo)
      ensures SendBreaks(r, deadline)
    {
      hide Posted, AskedOnceMore, AllQuiet, AllAsked, AllReading, AllDone, AllPosted, Pinned, Fairly, OnePerPeer, NoneAnswered,
           AnsweredAreDone, AllAnswered, AllPinned;
      r := SendAll(todo, deadline);
      if r.Raise? {
        NoneIsNotAll(todo);
        return;
      }
      ghost var was := net.Counts();
      r := BeginAll(todo, deadline);
      FairlyJoin(net.fate, timeout, Some(deadline), old(net.Counts()), was, net.Counts());
      if r.Raise? {
        NoneIsNotAll(todo);
        return;
      }
      was := net.Counts();
      r := ReadAll(todo, deadline);
      FairlyJoin(net.fate, timeout, Some(deadline), old(net.Counts()), was, net.Counts());
    }

    /** One attempt: each job ends with its rows, or without an answer and a fault to blame. */
    method Attempt(todo: seq<Job>, deadline: nat) returns (r: Outcome)
      requires OnePerPeer(todo) && AllPosted(todo, Some(deadline)) && net.now <= deadline && todo != []
      requires AllQuiet(todo) || AllAborted(todo)
      modifies this`reqId, PeersOf(todo), net
      ensures AllPosted(todo, Some(deadline))
      ensures forall a :: 0 <= a < |todo| ==>
                && CardOf(todo[a].peer) == old(CardOf(todo[a].peer))
                && AskedOnceMore(old(todo[a].peer.asked), todo[a].peer.asked, Ids(todo[a]))
      ensures old(net.now) <= net.now <= deadline + CONNECT_FLOOR && net.faults >= old(net.faults)
      ensures Fair(deadline) && net.Paused()
      ensures r.Ok? ==> AllDone(todo) && net.volley >= |todo|
      ensures r == Raise(OSError) ==>
                Excused(old(net.faults), deadline) && AnsweredAreDone(todo) && !AllAnswered(todo)
      ensures r.Raise? && r != Raise(OSError) ==>
                r.e in {ProtocolError(RangeChanged), ProtocolError(Status(ST_TOO_MANY))} && !AllPinned(todo)
      ensures Punctual(r, deadline)
      ensures old(AllQuiet(todo)) ==> net.now <= deadline && SendBreaks(r, deadline)
      ensures old(AllQuiet(todo)) ==> net.slept == old(net.slept) && net.refused == old(net.refused)
      ensures !old(AllQuiet(todo)) ==> DialsLate(r, deadline)
    {
      hide Posted, AskedOnceMore, AllQuiet, AllDone, AllPosted, Pinned, Fairly, PausedWell, CardOf, OnePerPeer,
           NoneAnswered, AnsweredAreDone, AllAnswered, AllPinned, AllAborted, TooLate, BreaksAt;
      r := Reopen(todo, deadline);
      if r.Raise? {
        NoneAskedYet(todo);
        NoneIsNotAll(todo);
        return;
      }
      ghost var was := net.Counts();
      r := AskAndRead(todo, deadline);
      FairlyJoin(net.fate, timeout, Some(deadline), old(net.Counts()), was, net.Counts());
      PausedNot(old(net.Counts()), was, net.Counts());
    }

    lemma NoneIsNotAll(todo: seq<Job>)
      requires NoneAnswered(todo) && todo != []
      ensures !AllAnswered(todo) && AnsweredAreDone(todo)
    {
      assert !todo[0].peer.answered;
    }

    lemma NoneAskedYet(todo: seq<Job>)
      ensures forall a :: 0 <= a < |todo| ==>
                AskedOnceMore(todo[a].peer.asked, todo[a].peer.asked, Ids(todo[a]))
    {
    }

    /** The jobs whose answer is not complete. */
    method Unanswered(todo: seq<Job>) returns (rest: seq<Job>)
      requires OnePerPeer(todo)
      ensures OnePerPeer(rest) && NoneAnswered(rest)
      ensures forall x :: 0 <= x < |rest| ==> rest[x] in todo
      ensures forall a :: 0 <= a < |todo| ==> todo[a].peer.answered || todo[a] in rest
      ensures !AllAnswered(todo) ==> rest != []
    {
      rest := [];
      for i := 0 to |todo|
        invariant OnePerPeer(rest) && NoneAnswered(rest)
        invariant forall x :: 0 <= x < |rest| ==> rest[x] in todo[..i]
        invariant forall a :: 0 <= a < i ==> todo[a].peer.answered || todo[a] in rest
      {
        assert todo[..i + 1] == todo[..i] + [todo[i]];
        if !todo[i].peer.answered {
          rest := rest + [todo[i]];
        }
      }
    }

    /** Reset the connections of jobs that are in doubt, so that nothing on them is read again. */
    method Abort(todo: seq<Job>)
      requires NoneAnswered(todo)
      modifies PeersOf(todo)`sock, PeersOf(todo)`pending
      ensures AllAborted(todo)
    {
      for i := 0 to |todo|
        invariant forall a :: 0 <= a < i ==> todo[a].peer.sock.None? && todo[a].peer.pending.None?
      {
        todo[i].peer.Close();
      }
    }

    /** todo is what is left of active, and everything else of active is done. */
    ghost predicate Remains(active: seq<Job>, todo: seq<Job>)
      reads PeersOf(active)`sock, PeersOf(active)`armed, PeersOf(active)`pending, PeersOf(active)`rowBytes, PeersOf(active)`reqIds, PeersOf(active)`cap, PeersOf(active)`rows, PeersOf(active)`baseRow, PeersOf(active)`rowCount
    {
      && todo != []
      && (forall x :: 0 <= x < |todo| ==> todo[x] in active)
      && forall a :: 0 <= a < |active| ==> active[a] in todo || active[a].peer.Done(|active[a].sel|)
    }

    lemma PartOf(active: seq<Job>, todo: seq<Job>)
      requires OnePerPeer(active) && forall x :: 0 <= x < |todo| ==> todo[x] in active
      ensures PeersOf(todo) <= PeersOf(active)
      ensures forall a :: 0 <= a < |active| && active[a] !in todo ==> active[a].peer !in PeersOf(todo)
    {
      forall a | 0 <= a < |active| && active[a] !in todo
        ensures active[a].peer !in PeersOf(todo)
      {
        if active[a].peer in PeersOf(todo) {
          var j :| j in todo && j.peer == active[a].peer;
          var b :| 0 <= b < |active| && active[b] == j;
        }
      }
    }

    /** An attempt on what is left, seen from the whole gather: nothing happens to the other jobs. */
    method AttemptPart(active: seq<Job>, todo: seq<Job>, deadline: nat) returns (r: Outcome)
      requires OnePerPeer(active) && AllPosted(active, Some(deadline)) && net.now <= deadline
      requires OnePerPeer(todo) && Remains(active, todo) && (AllQuiet(todo) || AllAborted(todo))
      modifies this`reqId, PeersOf(active), net
      ensures AllPosted(active, Some(deadline))
      ensures forall a :: 0 <= a < |active| ==>
                && CardOf(active[a].peer) == old(CardOf(active[a].peer))
                && AskedOnceMore(old(active[a].peer.asked), active[a].peer.asked, Ids(active[a]))
      ensures old(net.now) <= net.now <= deadline + CONNECT_FLOOR && net.faults >= old(net.faults) && Fair(deadline)
      ensures forall a :: 0 <= a < |active| ==>
                if active[a] in todo then
                  (r.Ok? || (r == Raise(OSError) && active[a].peer.answered)) ==> active[a].peer.Done(|active[a].sel|)
                else
                  active[a].peer.Done(|active[a].sel|)
      ensures r == Raise(OSError) ==> Excused(old(net.faults), deadline) && !AllAnswered(todo)
      ensures r.Raise? && r != Raise(OSError) ==>
                r.e in {ProtocolError(RangeChanged), ProtocolError(Status(ST_TOO_MANY))} && !AllPinned(active)
      ensures Punctual(r, deadline)
      ensures old(AllQuiet(todo)) ==> net.now <= deadline && SendBreaks(r, deadline)
      ensures !old(AllQuiet(todo)) ==> DialsLate(r, deadline)
      ensures r.Ok? ==> net.volley >= |todo|
      ensures net.Paused()
      ensures old(AllQuiet(todo)) ==> net.slept == old(net.slept) && net.refused == old(net.refused)
    {
      hide Posted, CardOf, AskedOnceMore, AllQuiet, AllAborted, Pinned, Peer.Done, Ids, Excused, OnePerPeer, Fairly, PausedWell;
      PartOf(active, todo);
      PartPosted(active, todo, Some(deadline));
      r := Attempt(todo, deadline);
      forall a | 0 <= a < |active|
        ensures Posted(active[a], Some(deadline))
        ensures CardOf(active[a].peer) == old(CardOf(active[a].peer))
        ensures AskedOnceMore(old(active[a].peer.asked), active[a].peer.asked, Ids(active[a]))
        ensures active[a] !in todo ==> active[a].peer.Done(|active[a].sel|)
        ensures (r.Ok? || (r == Raise(OSError) && active[a].peer.answered)) ==> active[a].peer.Done(|active[a].sel|)
      {
        if active[a] in todo {
          var t :| 0 <= t < |todo| && todo[t] == active[a];
        } else {
          NotAsked(active[a].peer.asked, Ids(active[a]));
        }
      }
      if r.Raise? && r != Raise(OSError) {
        PartPinned(active, todo);
      }
    }

    lemma PartPosted(active: seq<Job>, todo: seq<Job>, deadline: Option<nat>)
      requires AllPosted(active, deadline) && forall x :: 0 <= x < |todo| ==> todo[x] in active
      ensures AllPosted(todo, deadline)
    {
      hide Posted;
      forall x | 0 <= x < |todo|
        ensures Posted(todo[x], deadline)
      {
        var a :| 0 <= a < |active| && active[a] == todo[x];
      }
    }

    lemma PartPinned(active: seq<Job>, todo: seq<Job>)
      requires !AllPinned(todo) && forall x :: 0 <= x < |todo| ==> todo[x] in active
      ensures !AllPinned(active)
    {
      hide Pinned;
      var x :| 0 <= x < |todo| && !Pinned(todo[x]);
      var a :| 0 <= a < |active| && active[a] == todo[x];
    }

    lemma Leftover(active: seq<Job>, todo: seq<Job>, rest: seq<Job>)
      requires forall x :: 0 <= x < |todo| ==> todo[x] in active
      requires forall x :: 0 <= x < |rest| ==> rest[x] in todo
      requires forall a :: 0 <= a < |todo| ==> todo[a].peer.answered || todo[a] in rest
      requires forall a :: 0 <= a < |active| ==>
                 (active[a] in todo ==> active[a].peer.answered) ==> active[a].peer.Done(|active[a].sel|)
      requires rest != []
      ensures Remains(active, rest)
    {
      hide Peer.Done;
      forall a | 0 <= a < |active|
        ensures active[a] in rest || active[a].peer.Done(|active[a].sel|)
      {
        if active[a] in todo {
          var t :| 0 <= t < |todo| && todo[t] == active[a];
        }
      }
    }

    /** After a fault: the unanswered jobs, their connections reset. */
    method DropUnanswered(active: seq<Job>, todo: seq<Job>) returns (rest: seq<Job>)
      requires OnePerPeer(active) && OnePerPeer(todo) && !AllAnswered(todo)
      requires forall x :: 0 <= x < |todo| ==> todo[x] in active
      requires forall a :: 0 <= a < |active| ==>
                 (active[a] in todo ==> active[a].peer.answered) ==> active[a].peer.Done(|active[a].sel|)
      modifies PeersOf(active)`sock, PeersOf(active)`pending
      ensures OnePerPeer(rest) && Remains(active, rest) && AllAborted(rest)
      ensures forall x :: 0 <= x < |rest| ==> rest[x] in todo
    {
      hide Peer.Done, OnePerPeer;
      rest := Unanswered(todo);
      Leftover(active, todo, rest);
      PartOf(active, rest);
      Abort(rest);
    }

    /** After a fault the unanswered jobs are aborted and stay; the answered ones keep their rows. */
    method AttemptRest(active: seq<Job>, todo: seq<Job>, deadline: nat) returns (r: Outcome, rest: seq<Job>)
      requires OnePerPeer(active) && AllPosted(active, Some(deadline)) && net.now <= deadline
      requires OnePerPeer(todo) && Remains(active, todo) && (AllQuiet(todo) || AllAborted(todo))
      modifies this`reqId, PeersOf(active), net
      ensures AllPosted(active, Some(deadline))
      ensures forall a :: 0 <= a < |active| ==>
                && CardOf(active[a].peer) == old(CardOf(active[a].peer))
                && AskedOnceMore(old(active[a].peer.asked), active[a].peer.asked, Ids(active[a]))
      ensures old(net.now) <= net.now <= deadline + CONNECT_FLOOR && net.faults >= old(net.faults) && Fair(deadline)
      ensures r.Ok? ==> AllDone(active)
      ensures r == Raise(OSError) ==>
                && Excused(old(net.faults), deadline)
                && OnePerPeer(rest) && Remains(active, rest) && AllAborted(rest)
                && (forall x :: 0 <= x < |rest| ==> rest[x] in todo)
      ensures r.Raise? && r != Raise(OSError) ==>
                r.e in {ProtocolError(RangeChanged), ProtocolError(Status(ST_TOO_MANY))} && !AllPinned(active)
      ensures Punctual(r, deadline)
      ensures old(AllQuiet(todo)) ==> net.now <= deadline && SendBreaks(r, deadline)
      ensures !old(AllQuiet(todo)) ==> DialsLate(r, deadline)
      ensures r.Ok? ==> net.volley >= |todo|
      ensures net.Paused()
      ensures old(AllQuiet(todo)) ==> net.slept == old(net.slept) && net.refused == old(net.refused)
    {
      hide Posted, CardOf, AskedOnceMore, Pinned, Peer.Done, Ids, OnePerPeer, AllQuiet, AllAborted, AllAnswered, Fairly, PausedWell;
      rest := [];
      r := AttemptPart(active, todo, deadline);
      if r == Raise(OSError) {
        rest := DropUnanswered(active, todo);
      }
    }

    /** The request logs of every job since they were `was`, over n attempts. */
    ghost predicate Logged(active: seq<Job>, was: seq<seq<seq<Byte>>>, n: nat)
      reads PeersOf(active)`asked, PeersOf(active)`reqIds
    {
      |was| == |active| &&
      forall a :: 0 <= a < |active| ==> AskedMore(was[a], active[a].peer.asked, Ids(active[a]), n)
    }

    lemma LogStart(active: seq<Job>) returns (was: seq<seq<seq<Byte>>>)
      ensures Logged(active, was, 0)
      ensures forall a :: 0 <= a < |active| ==> was[a] == active[a].peer.asked
    {
      was := seq(|active|, a requires 0 <= a < |active| reads PeersOf(active) => active[a].peer.asked);
    }

    lemma LogWeaker(active: seq<Job>, was: seq<seq<seq<Byte>>>, m: nat, n: nat)
      requires Logged(active, was, m) && m <= n
      ensures Logged(active, was, n)
      ensures forall a :: 0 <= a < |active| ==> |active[a].peer.asked| <= |was[a]| + m
    {
    }

    method AttemptLogged(active: seq<Job>, todo: seq<Job>, deadline: nat, ghost was: seq<seq<seq<Byte>>>, ghost n: nat)
      returns (r: Outcome, rest: seq<Job>)
      requires OnePerPeer(active) && AllPosted(active, Some(deadline)) && net.now <= deadline
      requires OnePerPeer(todo) && Remains(active, todo) && (AllQuiet(todo) || AllAborted(todo))
      requires Logged(active, was, n)
      modifies this`reqId, PeersOf(active), net
      ensures AllPosted(active, Some(deadline))
      ensures forall a :: 0 <= a < |active| ==> CardOf(active[a].peer) == old(CardOf(active[a].peer))
      ensures Logged(active, was, n + 1)
      ensures old(net.now) <= net.now <= deadline + CONNECT_FLOOR && net.faults >= old(net.faults) && Fair(deadline)
      ensures r.Ok? ==> AllDone(active)
      ensures r == Raise(OSError) ==>
                Excused(old(net.faults), deadline) && OnePerPeer(rest) && Remains(active, rest) && AllAborted(rest)
      ensures r.Raise? && r != Raise(OSError) ==>
                r.e in {ProtocolError(RangeChanged), ProtocolError(Status(ST_TOO_MANY))} && !AllPinned(active)
      ensures Punctual(r, deadline)
      ensures old(AllQuiet(todo)) ==> net.now <= deadline && SendBreaks(r, deadline)
      ensures !old(AllQuiet(todo)) ==> DialsLate(r, deadline)
      ensures r.Ok? ==> net.volley >= |todo|
      ensures net.Paused()
      ensures old(AllQuiet(todo)) ==> net.slept == old(net.slept) && net.refused == old(net.refused)
      ensures old(AllQuiet(todo) && timeout > 0 && Calm(net.fate, net.step, timeout, deadline - net.now)) ==> r != Raise(OSError)
    {
      hide Posted, AskedMore, AskedOnceMore, Pinned, Peer.Quiet, Peer.Done, OnePerPeer, AllAborted, AllDone,
           Remains, AllQuiet, Fairly, PausedWell, Calm;
      ghost var mid := seq(|active|, a requires 0 <= a < |active| reads PeersOf(active) => active[a].peer.asked);
      ghost var ids := seq(|active|, a requires 0 <= a < |active| reads PeersOf(active) => Ids(active[a]));
      r, rest := AttemptRest(active, todo, deadline);
      if old(AllQuiet(todo) && Calm(net.fate, net.step, timeout, deadline - net.now)) {
        CalmSpends(net.fate, timeout, deadline, old(net.Counts()), net.Counts());
      }
      forall a | 0 <= a < |active|
        ensures AskedMore(was[a], active[a].peer.asked, Ids(active[a]), n + 1)
      {
        assert Ids(active[a]) == ids[a];
        AskedStep(was[a], mid[a], active[a].peer.asked, ids[a], n);
      }
    }

    /** A schedule that makes a gather late: its first send breaks with less than the floor left, and
        the connect that follows is refused no sooner than that. */
    ghost predicate Doomed(step: nat, now: nat, deadline: nat)
      reads this`timeout, this`connectTimeout
    {
      && timeout > 0 && now < deadline && net.fate(step).fault
      && BreaksAt(step, now, deadline) < deadline
      && TooLate(step + 1, BreaksAt(step, now, deadline), deadline)
    }

    /** Attempts until one goes through, the third has failed, or the deadline is reached. */
    method Attempts(active: seq<Job>, deadline: nat, ghost was: seq<seq<seq<Byte>>>) returns (r: Outcome)
      requires OnePerPeer(active) && AllPosted(active, Some(deadline)) && net.now <= deadline
      requires AllQuiet(active) && active != [] && Logged(active, was, 0)
      modifies this`reqId, PeersOf(active), net
      ensures AllPosted(active, Some(deadline))
      ensures forall a :: 0 <= a < |active| ==> CardOf(active[a].peer) == old(CardOf(active[a].peer))
      ensures Logged(active, was, GATHER_ATTEMPTS)
      ensures timeout > 0 ==> forall a :: 0 <= a < |active| ==>
                |active[a].peer.asked| - |was[a]| <= 1 + net.faults - old(net.faults)
      ensures old(net.now) <= net.now <= deadline + CONNECT_FLOOR && net.faults >= old(net.faults) && Fair(deadline)
      ensures r.Ok? ==> AllDone(active)
      ensures r == Raise(OSError) ==> net.faults >= old(net.faults) + GATHER_ATTEMPTS || timeout == 0 || net.now >= deadline
      ensures r.Raise? && r != Raise(OSError) ==>
                r.e in {ProtocolError(RangeChanged), ProtocolError(Status(ST_TOO_MANY))} && !AllPinned(active)
      ensures Punctual(r, deadline)
      ensures net.now > deadline ==> net.faults > old(net.faults) || timeout == 0
      ensures old(Doomed(net.step, net.now, deadline)) ==> net.now > deadline
      ensures net.Paused()
      ensures timeout > 0 && net.faults == old(net.faults) ==> net.slept == old(net.slept) && net.refused == old(net.refused)
      ensures timeout > 0 && net.faults == old(net.faults) && r.Ok? ==> net.volley >= |active|
      ensures old(timeout > 0 && Calm(net.fate, net.step, timeout, deadline - net.now)) ==> r != Raise(OSError)
    {
      hide Posted, Logged, Pinned, Peer.Quiet, Peer.Done, OnePerPeer, AllAborted, AllDone, AllPosted, AllQuiet, CardOf, Fairly, PausedWell, Calm;
      var todo := active;
      var attempt := 0;
      Everything(active);
      FairlyStays(net.fate, timeout, Some(deadline), net.Counts());
      while true
        invariant old(timeout > 0 && Calm(net.fate, net.step, timeout, deadline - net.now)) ==> attempt == 0
        invariant 0 <= attempt < GATHER_ATTEMPTS
        invariant AllPosted(active, Some(deadline))
        invariant OnePerPeer(todo) && Remains(active, todo) && if attempt == 0 then AllQuiet(todo) else AllAborted(todo)
        invariant old(Doomed(net.step, net.now, deadline)) ==> attempt <= 1 && timeout > 0
        invariant old(Doomed(net.step, net.now, deadline)) && attempt == 1 ==>
                    net.step == old(net.step) + 1 && net.now == old(BreaksAt(net.step, net.now, deadline))
        invariant forall a :: 0 <= a < |active| ==> CardOf(active[a].peer) == old(CardOf(active[a].peer))
        invariant Logged(active, was, attempt)
        invariant Fair(deadline)
        invariant net.Paused() && (attempt == 0 ==> todo == active && unchanged(net))
        invariant old(net.now) <= net.now <= deadline
        invariant net.faults >= old(net.faults) && (timeout > 0 ==> net.faults >= old(net.faults) + attempt)
        decreases GATHER_ATTEMPTS - attempt
      {
        if attempt > 0 {
          AbortedIsNotQuiet(todo);
        }
        ghost var mid := net.Counts();
        r, todo := AttemptLogged(active, todo, deadline, was, attempt);
        FairlyJoin(net.fate, timeout, Some(deadline), old(net.Counts()), mid, net.Counts());
        PausedJoin(old(net.Counts()), mid, net.Counts());
        attempt := attempt + 1;
        if r != Raise(OSError) || attempt == GATHER_ATTEMPTS || net.now >= deadline {
          LogWeaker(active, was, attempt, GATHER_ATTEMPTS);
          return;
        }
      }
    }

    lemma AbortedIsNotQuiet(todo: seq<Job>)
      requires AllAborted(todo) && todo != []
      ensures !AllQuiet(todo)
    {
      assert todo[0].peer.sock.None?;
      assert !todo[0].peer.Quiet();
    }

    lemma Everything(active: seq<Job>)
      requires active != []
      ensures Remains(active, active)
    {
    }

    method SetDeadline(jobs: seq<Job>, deadline: Option<nat>)
      requires exists d :: AllPosted(jobs, d)
      modifies PeersOf(jobs)`deadline
      ensures AllPosted(jobs, deadline)
    {
      for i := 0 to |jobs|
        invariant forall a :: 0 <= a < i ==> Posted(jobs[a], deadline)
        invariant forall a :: i <= a < |jobs| ==> Posted(jobs[a], jobs[a].peer.deadline)
      {
        jobs[i].peer.deadline := deadline;
      }
    }

    /** No peer was asked more than GATHER_ATTEMPTS times, nor more often than one plus the faults
        met, and every request was for exactly the ids of its job. */
    twostate predicate WithinBudget(active: seq<Job>)
      reads this, PeersOf(active), net
    {
      forall a :: 0 <= a < |active| ==>
        && AskedMore(old(active[a].peer.asked), active[a].peer.asked, Ids(active[a]), GATHER_ATTEMPTS)
        && (timeout > 0 ==> |active[a].peer.asked| <= |old(active[a].peer.asked)| + 1 + net.faults - old(net.faults))
    }

    /** How an exchange that began at t0 may end: in time, or at most the floor late in the one case
        that `Outlasted` describes, which takes a fault and is an OSError; with OSError only after three
        faults or at the deadline; and with no error of the protocol but a moved range or a smaller
        max_rows. */
    ghost predicate Ended(r: Outcome, faults: nat, t0: nat)
      reads this`timeout, this`connectTimeout, this`gatherDeadline, net
    {
      && t0 <= net.now <= t0 + gatherDeadline + 1_000
      && (net.now > t0 + gatherDeadline <==> Outlasted(t0 + gatherDeadline))
      && (net.now > t0 + gatherDeadline ==> r == Raise(OSError) && (net.faults > faults || timeout == 0))
      && net.faults >= faults
      && (r.Raise? ==> r.e in {OSError, ProtocolError(RangeChanged), ProtocolError(Status(ST_TOO_MANY))})
      && (r == Raise(OSError) ==>
            net.faults >= faults + GATHER_ATTEMPTS || timeout == 0 || net.now >= t0 + gatherDeadline)
    }

    /** Where the time of an exchange goes: into calls, no more than they are delayed, and into the pauses
        that were due. With at most two faults and time enough it succeeds if ranges are kept, and so it
        does, without a pause, if nothing fails. */
    ghost predicate Prompt(r: Outcome, pinned: bool, a: Book, b: Book)
      reads this`timeout, this`gatherDeadline
    {
      && Fairly(net.fate, timeout, Some(a.now + gatherDeadline), a, b) && PausedWell(a, b)
      && (timeout > 0 && b.faults == a.faults ==> b.slept == a.slept && b.refused == a.refused)
      && (pinned && timeout > 0 && b.faults <= a.faults + 2 && Charge(net.fate, a, b) < gatherDeadline ==> r.Ok?)
      && (pinned && timeout > 0 && Calm(net.fate, a.step, timeout, gatherDeadline) ==> r.Ok?)
    }

    lemma PromptAsWell(r: Outcome, p: bool, q: bool, a: Book, b: Book)
      requires Prompt(r, p, a, b) && (q ==> p)
      ensures Prompt(r, q, a, b)
    {
    }

    /** The attempts, with the deadline set on every peer for as long as they last. */
    method Timed(active: seq<Job>, deadline: nat, ghost was: seq<seq<seq<Byte>>>) returns (r: Outcome)
      requires OnePerPeer(active) && AllPosted(active, None) && net.now <= deadline
      requires AllQuiet(active) && active != [] && Logged(active, was, 0)
      modifies this`reqId, PeersOf(active), net
      ensures AllPosted(active, None)
      ensures forall a :: 0 <= a < |active| ==> CardOf(active[a].peer) == old(CardOf(active[a].peer))
      ensures Logged(active, was, GATHER_ATTEMPTS)
      ensures timeout > 0 ==> forall a :: 0 <= a < |active| ==>
                |active[a].peer.asked| - |was[a]| <= 1 + net.faults - old(net.faults)
      ensures old(net.now) <= net.now <= deadline + CONNECT_FLOOR && net.faults >= old(net.faults) && Fair(deadline)
      ensures r.Ok? ==> AllDone(active)
      ensures r == Raise(OSError) ==> net.faults >= old(net.faults) + GATHER_ATTEMPTS || timeout == 0 || net.now >= deadline
      ensures r.Raise? && r != Raise(OSError) ==>
                r.e in {ProtocolError(RangeChanged), ProtocolError(Status(ST_TOO_MANY))} && !AllPinned(active)
      ensures Punctual(r, deadline)
      ensures net.now > deadline ==> net.faults > old(net.faults) || timeout == 0
      ensures old(Doomed(net.step, net.now, deadline)) ==> net.now > deadline
      ensures net.Paused()
      ensures timeout > 0 && net.faults == old(net.faults) ==> net.slept == old(net.slept) && net.refused == old(net.refused)
      ensures timeout > 0 && net.faults == old(net.faults) && r.Ok? ==> net.volley >= |active|
      ensures old(timeout > 0 && Calm(net.fate, net.step, timeout, deadline - net.now)) ==> r != Raise(OSError)
    {
      hide Posted, AskedMore, Pinned, Peer.Quiet, Peer.Done, OnePerPeer, Ids, CardOf, TooLate, Fairly, PausedWell, Calm, Punctual, Doomed, WithinBudget, AllAborted, AllQuiet, AllDone;
      SetDeadline(active, Some(deadline));
      r := Attempts(active, deadline, was);
      SetDeadline(active, None);
    }

    /** One gather over the given jobs. Whatever the network does, its length, its traffic and its
        outcome are bounded as Ended and WithinBudget say. */
    method Exchange(active: seq<Job>) returns (r: Outcome)
      requires OnePerPeer(active) && AllPosted(active, None) && AllQuiet(active) && active != []
      modifies this`reqId, PeersOf(active), net
      ensures AllPosted(active, None)
      ensures forall a :: 0 <= a < |active| ==> CardOf(active[a].peer) == old(CardOf(active[a].peer))
      ensures WithinBudget(active)
      ensures r.Ok? ==> AllDone(active)
      ensures Ended(r, old(net.faults), old(net.now))
      ensures r.Raise? && r.e.ProtocolError? ==> !AllPinned(active)
      ensures old(Doomed(net.step, net.now, net.now + gatherDeadline)) ==> net.now > old(net.now) + gatherDeadline
      ensures Prompt(r, AllPinned(active), old(net.Counts()), net.Counts())
      // all requests left before any answer was read
      ensures timeout > 0 && net.faults == old(net.faults) && r.Ok? ==> net.volley >= |active|
    {
      hide AllPosted, AskedMore, AllPinned, AllQuiet, AllDone, OnePerPeer, Ids, CardOf, TooLate, Calm, Waits, Breaks, PausedWell;
      ghost var was := LogStart(active);
      r := Timed(active, net.now + gatherDeadline, was);
    }
  }

  // ------------------------------------------------------------- a late one

  const NO_AUX := Aux(0, 0, 0, 0, 0, 0, 0, 0, 0, 0)

  /** A world with one server of one row. */
  function OneRow(): (cfg: Config)
    ensures cfg.Valid()
  {
    Config(0, 1, seq(ROW_BYTES, i => 0), 1)
  }

  function OneRowWorld(): HonestWorld {
    OneRowConforms();
    World((id: nat) => seq(ROW_BYTES, i => 0), (addr: nat) => [OneRow()])
  }

  lemma OneRowConforms()
    ensures Conforms(OneRow(), (id: nat) => seq(ROW_BYTES, i => 0))
  {
    assert RowAt(OneRow(), 0) == seq(ROW_BYTES, i => 0);
  }

  /** The first call breaks half a millisecond before the deadline, the second is refused a
      millisecond later. */
  function LateFate(step: nat): Fate {
    Fate(if step == 0 then 999_500 else CONNECT_FLOOR, true, false, 0, 0, (k: nat) => NO_AUX, false, (i: nat) => false)
  }

  /** A peer that has been open all along, in sync, with id 0 loaded. */
  method OpenPeer(net: Net, timeout: nat) returns (p: Peer)
    requires net.world == OneRowWorld()
    ensures fresh(p) && p.net == net && p.timeout == timeout && p.deadline.None? && p.Quiet() && p.Loaded(1)
  {
    p := new Peer(net, 0);
    var s := Sock(OneRow(), (k: nat) => NO_AUX, false, [], [], timeout);
    FreshIsPlausible(s);
    OneRowConforms();
    p.sock, p.armed, p.timeout := Some(s), timeout, timeout;
    p.baseRow, p.rowCount, p.rowBytes := 0, 1, ROW_BYTES;
    p.reqIds, p.rows, p.cap := [0], seq(ROW_BYTES, i => 0), 1;
  }

  /** That a gather is over by its deadline is false: this one, begun at 0 with a second to go, is not. */
  method LateExchange() returns (net: Net, r: Outcome)
    ensures r == Raise(OSError) && net.now > 1_000_000
  {
    hide Peer.Quiet, Peer.Loaded, OneRowWorld, Exchanger.Prompt, Exchanger.AllPinned, Exchanger.WithinBudget, Exchanger.AllDone;
    net := new Net(LateFate, OneRowWorld());
    var ex := new Exchanger(net, 30_000_000, 5_000_000, 1_000_000);
    var p := OpenPeer(net, ex.timeout);
    r := ex.Exchange([Job(p, [0])]);
  }
}
