/** The client's table: a split of the rows over peers, and gathers that look like one array. */
module Tables {
  import opened Bytes
  import opened Common
  import opened Wire
  import opened Protocol
  import opened Network
  import opened Peers
  import opened Exchanges
  import opened Routing

  type Row = seq<Byte>

  ghost predicate Distinct(ps: seq<Peer>) {
    forall i, j :: 0 <= i < j < |ps| ==> ps[i] != ps[j]
  }

  ghost function Group(ps: seq<Peer>): set<Peer> {
    set p | p in ps
  }

  ghost function RangesOf(ps: seq<Peer>): (rs: seq<Range>)
    reads Group(ps)
    ensures |rs| == |ps|
    ensures forall i :: 0 <= i < |ps| ==> rs[i] == Range(ps[i].baseRow, ps[i].rowCount)
  {
    seq(|ps|, i requires 0 <= i < |ps| reads Group(ps) => Range(ps[i].baseRow, ps[i].rowCount))
  }

  lemma {:induction false} Once(ps: seq<Peer>, p: Peer)
    requires Distinct(ps)
    ensures multiset(ps)[p] <= 1
    ensures multiset(ps)[p] == 1 ==> p in ps
  {
    if ps != [] {
      var n := |ps| - 1;
      assert ps == ps[..n] + [ps[n]];
      Once(ps[..n], p);
      assert ps[n] == p ==> p !in ps[..n] && p !in multiset(ps[..n]);
    }
  }

  lemma DistinctPermute(a: seq<Peer>, b: seq<Peer>)
    requires multiset(a) == multiset(b) && Distinct(a)
    ensures Distinct(b) && |a| == |b| && Group(a) == Group(b)
  {
    assert |multiset(a)| == |multiset(b)|;
    forall i, j | 0 <= i < j < |b|
      ensures b[i] != b[j]
    {
      if b[i] == b[j] {
        assert b == b[..i] + ([b[i]] + (b[i + 1..j] + ([b[j]] + b[j + 1..])));
        assert multiset(b)[b[i]] >= 2;
        Once(a, b[i]);
      }
    }
    forall p: Peer
      ensures p in a <==> p in b
    {
      assert p in a <==> p in multiset(a);
      assert p in b <==> p in multiset(b);
    }
  }

  ghost predicate SelectedBy(sel: seq<seq<nat>>, rs: seq<Range>, ids: seq<int>, most: nat, total: nat) {
    && |sel| == |rs|
    && (forall i :: 0 <= i < |rs| ==> sel[i] == Positions(ids, rs[i]) && |sel[i]| <= most)
    && forall p :: 0 <= p < |ids| ==> 0 <= ids[p] < total
  }

  /** More ids for one range than a request may carry. */
  ghost predicate TooMany(ids: seq<int>, rs: seq<Range>, most: nat) {
    exists i :: 0 <= i < |rs| && |Positions(ids, rs[i])| > most
  }

  ghost predicate CarriesIds(at: seq<nat>, reqIds: seq<nat>, ids: seq<int>) {
    && |at| <= |reqIds|
    && forall t :: 0 <= t < |at| ==> at[t] < |ids| && 0 <= ids[at[t]] && reqIds[t] == ids[at[t]]
  }

  ghost function CardRanges(cards: seq<Card>): (rs: seq<Range>)
    ensures |rs| == |cards|
    ensures forall i :: 0 <= i < |cards| ==> rs[i] == Range(cards[i].baseRow, cards[i].rowCount)
  {
    seq(|cards|, i requires 0 <= i < |cards| => Range(cards[i].baseRow, cards[i].rowCount))
  }

  class Table {
    const net: Net
    const ex: Exchanger
    var peers: seq<Peer>
    var rowsTotal: nat
    var rowBytes: nat
    var maxRows: nat
    /** Set for good by the first transport or protocol error that leaves a call. */
    var failed: bool
    var sel: seq<seq<nat>>
    var staging: array<Row>

    ghost predicate Member(p: Peer)
      reads ex`timeout, p`timeout, p`deadline, p`rowBytes, p`reqIds, p`cap, p`rows, p`baseRow, p`rowCount
    {
      && p.net == net && p.timeout == ex.timeout && p.deadline.None?
      && p.Buffers() && p.baseRow + p.rowCount <= TWO32 - 1
    }

    ghost predicate Valid()
      reads this, ex, Group(peers)
    {
      && ex.net == net && rowBytes == ROW_BYTES && maxRows < TWO32
      && Distinct(peers) && peers != []
      && (forall i :: 0 <= i < |peers| ==> Member(peers[i]))
      && Tiles(RangesOf(peers), rowsTotal)
      && (!failed ==> forall i :: 0 <= i < |peers| ==> peers[i].Quiet())
    }

    /** The peers are parsed but not connected; a table that was never opened is unusable. */
    constructor (net: Net, peers: seq<Peer>, rowsTotal: nat, rowBytes: nat, maxRows: nat,
                 timeout: nat, connectTimeout: nat, gatherDeadline: nat)
      ensures this.net == net && this.peers == peers && this.rowsTotal == rowsTotal && this.rowBytes == rowBytes
      ensures this.maxRows == maxRows && failed && fresh(ex) && fresh(staging) && ex.net == net && ex.timeout == timeout
      ensures ex.gatherDeadline == gatherDeadline
    {
      this.net, this.peers, this.rowsTotal, this.rowBytes, this.maxRows := net, peers, rowsTotal, rowBytes, maxRows;
      ex := new Exchanger(net, timeout, connectTimeout, gatherDeadline);
      failed, sel := true, [];
      staging := new Row[0];
    }

    // ---------------------------------------------------------------- open

    /** A freshly parsed peer. */
    ghost predicate Blank(p: Peer)
      reads p
    {
      p.net == net && p.sock.None? && p.pending.None? && p.deadline.None? && p.cap == 0 && p.reqIds == [] && p.rows == []
    }

    /** The range the peer goes by is that of a server at its address. */
    ghost predicate Announced(p: Peer)
      reads p`baseRow, p`rowCount
    {
      exists cfg :: cfg in p.net.world.servers(p.addr) && cfg.base == p.baseRow && cfg.count == p.rowCount
    }

    /** Connect a peer and adopt the range it reports. */
    method OpenOne(p: Peer, deadline: nat) returns (r: Outcome)
      requires ex.net == net && Blank(p)
      modifies ex`reqId, p, net
      ensures p.net == net && p.deadline.None?
      ensures net.faults >= old(net.faults) && net.now >= old(net.now)
      ensures ex.Fair(deadline) && net.Paused()
      ensures r.Ok? ==> Member(p) && p.Quiet() && Announced(p) && p.rowCount > 0 && rowBytes == ROW_BYTES
      ensures r.Raise? ==> (r.e == OSError && ex.Excused(old(net.faults), deadline)) ||
                           (r.e == ProtocolError(WrongRowBytes) && rowBytes != ROW_BYTES)
    {
      var stat;
      r, stat := ex.Greet(p, deadline);
      if r.Raise? {
        return;
      }
      r := Adopt(p, stat);
    }

    /** Take over what STAT reported, if it is a table this client can read. */
    method Adopt(p: Peer, stat: Stat) returns (r: Outcome)
      requires p.net == net && p.timeout == ex.timeout && p.deadline.None? && p.cap == 0 && p.reqIds == [] && p.rows == []
      requires p.Live() && AtRest(p.sock.value) && p.pending.None?
      requires stat.baseRow == p.sock.value.cfg.base && stat.rowCount == p.sock.value.cfg.count
      requires stat.rowBytes == ROW_BYTES
      modifies p`baseRow, p`rowCount, p`rowBytes, p`resident, p`served
      ensures r.Ok? ==> Member(p) && p.Quiet() && Announced(p) && p.rowCount > 0 && rowBytes == ROW_BYTES
      ensures r.Raise? ==> r.e == ProtocolError(WrongRowBytes) && rowBytes != ROW_BYTES
    {
      hide Whole, Emitted, Serve;
      p.baseRow, p.rowCount, p.rowBytes := stat.baseRow, stat.rowCount, stat.rowBytes;
      p.resident, p.served := stat.resident, stat.served;
      if p.rowBytes != rowBytes {
        return Raise(ProtocolError(WrongRowBytes));
      }
      if p.rowCount <= 0 {
        return Raise(ProtocolError(EmptyRange));
      }
      return Ok;
    }

    /** Sort the peers by first row; the keys are read before anything moves. */
    method SortPeers()
      modifies this`peers
      ensures multiset(peers) == multiset(old(peers)) && multiset(RangesOf(peers)) == multiset(old(RangesOf(peers)))
      ensures SortedByBase(RangesOf(peers))
    {
      ghost var was := RangesOf(peers);
      var tagged := Tagged(peers);
      var sorted := SortByKey(tagged);
      Permuted(tagged, sorted);
      assert was == Keys(tagged) && peers == Vals(tagged);
      forall i | 0 <= i < |sorted|
        ensures sorted[i].0 == Range(sorted[i].1.baseRow, sorted[i].1.rowCount)
      {
        assert sorted[i] in multiset(tagged);
      }
      peers := Vals(sorted);
      assert RangesOf(peers) == Keys(sorted);
    }

    method Tagged(ps: seq<Peer>) returns (xs: seq<(Range, Peer)>)
      ensures |xs| == |ps|
      ensures forall i :: 0 <= i < |ps| ==> xs[i] == (Range(ps[i].baseRow, ps[i].rowCount), ps[i])
    {
      xs := [];
      for i := 0 to |ps|
        invariant |xs| == i
        invariant forall j :: 0 <= j < i ==> xs[j] == (Range(ps[j].baseRow, ps[j].rowCount), ps[j])
      {
        xs := xs + [(Range(ps[i].baseRow, ps[i].rowCount), ps[i])];
      }
    }

    /** Accepts a split exactly if every row has one owner, whatever the order of the peers. */
    method CheckSplit() returns (r: Outcome)
      requires NonEmpty(RangesOf(peers))
      modifies this`peers
      ensures multiset(peers) == multiset(old(peers))
      ensures r.Ok? <==> Tiles(old(RangesOf(peers)), rowsTotal)
      ensures r.Ok? <==> Tiles(RangesOf(peers), rowsTotal)
      ensures r.Raise? ==> r.e == ProtocolError(BadSplit)
    {
      hide RangesOf, SortedByBase, Tiles, NonEmpty;
      ghost var parsed := RangesOf(peers);
      SortPeers();
      ghost var rs := RangesOf(peers);
      StillNonEmpty(parsed, rs);
      SplitExact(rs, rowsTotal);
      SamePartition(parsed, rs, rowsTotal);
      var due: nat := 0;
      for i := 0 to |peers|
        invariant Scan(rs, 0, rowsTotal) <==> Scan(rs[i..], due, rowsTotal)
      {
        assert rs[i..][0] == rs[i] && rs[i..][1..] == rs[i + 1..];
        if peers[i].baseRow != due {
          return Raise(ProtocolError(BadSplit));
        }
        due := due + peers[i].rowCount;
      }
      if due != rowsTotal {
        return Raise(ProtocolError(BadSplit));
      }
      return Ok;
    }

    lemma StillNonEmpty(a: seq<Range>, b: seq<Range>)
      requires multiset(a) == multiset(b) && NonEmpty(a)
      ensures NonEmpty(b)
    {
      forall i | 0 <= i < |b|
        ensures b[i].count > 0
      {
        assert b[i] in multiset(a);
        var j :| 0 <= j < |a| && a[j] == b[i];
      }
    }

    lemma SamePartition(a: seq<Range>, b: seq<Range>, total: nat)
      requires multiset(a) == multiset(b)
      ensures Tiles(a, total) <==> Tiles(b, total)
    {
      forall id: int
        ensures Owners(a, id) == Owners(b, id)
      {
        OwnersPermute(a, b, id);
      }
    }

    method OpenAll(deadline: nat) returns (r: Outcome)
      requires ex.net == net && Distinct(peers)
      requires forall i :: 0 <= i < |peers| ==> Blank(peers[i])
      modifies ex`reqId, Group(peers), net
      ensures ex.Fair(deadline) && net.Paused()
      ensures r.Ok? ==> forall i :: 0 <= i < |peers| ==>
                Member(peers[i]) && peers[i].Quiet() && Announced(peers[i]) && peers[i].rowCount > 0
      ensures r.Ok? && peers != [] ==> rowBytes == ROW_BYTES
      ensures r.Raise? ==> (r.e == OSError && ex.Excused(old(net.faults), deadline)) ||
                           (r.e == ProtocolError(WrongRowBytes) && rowBytes != ROW_BYTES)
    {
      hide Peer.Quiet, Member, Blank, Announced, Fairly, PausedWell;
      FairlyStays(net.fate, ex.timeout, Some(deadline), net.Counts());
      for i := 0 to |peers|
        invariant ex.Fair(deadline) && net.Paused()
        invariant forall j :: 0 <= j < i ==>
                    Member(peers[j]) && peers[j].Quiet() && Announced(peers[j]) && peers[j].rowCount > 0
        invariant net.faults >= old(net.faults)
        invariant forall j :: i <= j < |peers| ==> Blank(peers[j])
        invariant i > 0 ==> rowBytes == ROW_BYTES
      {
        ghost var was := net.Counts();
        r := OpenOne(peers[i], deadline);
        FairlyJoin(net.fate, ex.timeout, Some(deadline), old(net.Counts()), was, net.Counts());
        PausedJoin(old(net.Counts()), was, net.Counts());
        if r.Raise? {
          return;
        }
      }
      return Ok;
    }

    /** Connect to every peer, learn the split and check it. The table is usable exactly if this succeeds. */
    method Open(connectDeadline: nat) returns (r: Outcome)
      requires ex.net == net && Distinct(peers) && peers != [] && failed && maxRows < TWO32
      requires forall i :: 0 <= i < |peers| ==> Blank(peers[i])
      modifies this`peers, this`failed, ex`reqId, Group(peers), net
      ensures multiset(peers) == multiset(old(peers))
      ensures ex.Fair(old(net.now) + connectDeadline) && net.Paused()
      ensures r.Ok? ==> Valid() && !failed
      ensures r.Raise? ==> failed && forall i :: 0 <= i < |peers| ==> peers[i].sock.None?
      ensures r.Ok? || r.e == ProtocolError(BadSplit) ==> forall i :: 0 <= i < |peers| ==> Announced(peers[i])
      ensures r.Raise? && r.e == ProtocolError(BadSplit) ==>
                !Tiles(RangesOf(peers), rowsTotal) && !Tiles(RangesOf(old(peers)), rowsTotal)
      ensures r.Raise? ==> (r.e == OSError && ex.Excused(old(net.faults), old(net.now) + connectDeadline)) ||
                           r.e == ProtocolError(BadSplit) ||
                           (r.e == ProtocolError(WrongRowBytes) && rowBytes != ROW_BYTES)
    {
      hide Peer.Quiet, Member, Blank, Tiles, Distinct, Valid, Announced, RangesOf, Exchanger.Excused, Fairly, PausedWell;
      var deadline := net.now + connectDeadline;
      ghost var parsed := peers;
      r := OpenAll(deadline);
      if r.Ok? {
        r := Settle();
      }
      if r.Raise? {
        GiveUp(parsed);
      }
    }

    /** The last step of opening: the peers agree with the table, or not. */
    method Settle() returns (r: Outcome)
      requires ex.net == net && Distinct(peers) && peers != [] && failed && rowBytes == ROW_BYTES && maxRows < TWO32
      requires forall i :: 0 <= i < |peers| ==>
                 Member(peers[i]) && peers[i].Quiet() && Announced(peers[i]) && peers[i].rowCount > 0
      modifies this`peers, this`failed
      ensures forall i :: 0 <= i < |peers| ==> Announced(peers[i])
      ensures multiset(peers) == multiset(old(peers)) && Group(peers) == Group(old(peers))
      ensures r.Ok? ==> Valid() && !failed
      ensures r.Raise? ==>
                && failed && r.e == ProtocolError(BadSplit)
                && !Tiles(RangesOf(peers), rowsTotal) && !Tiles(RangesOf(old(peers)), rowsTotal)
    {
      hide Peer.Quiet, Owners, Distinct, Tiles, Scan, SortedByBase, Announced;
      ghost var parsed := peers;
      assert NonEmpty(RangesOf(peers));
      r := CheckSplit();
      assert RangesOf(parsed) == old(RangesOf(peers));
      DistinctPermute(parsed, peers);
      SameMembers(parsed, peers);
      if r.Ok? {
        failed := false;
      }
    }

    lemma SameMembers(a: seq<Peer>, b: seq<Peer>)
      requires Group(a) == Group(b)
      requires forall i :: 0 <= i < |a| ==> Member(a[i]) && a[i].Quiet() && Announced(a[i])
      ensures forall i :: 0 <= i < |b| ==> Member(b[i]) && b[i].Quiet() && Announced(b[i])
    {
      hide Peer.Quiet, Member, Announced;
      forall i | 0 <= i < |b|
        ensures Member(b[i]) && b[i].Quiet() && Announced(b[i])
      {
        assert b[i] in Group(a);
        var j :| 0 <= j < |a| && a[j] == b[i];
      }
    }

    method CloseAll()
      modifies Group(peers)`sock, Group(peers)`pending
      ensures forall i :: 0 <= i < |peers| ==> peers[i].sock.None?
    {
      for i := 0 to |peers|
        invariant forall j :: 0 <= j < i ==> peers[j].sock.None?
      {
        peers[i].Close();
      }
    }

    /** After a failed opening no socket is left; what the peers announced stays. */
    method GiveUp(ghost parsed: seq<Peer>)
      requires Group(parsed) == Group(peers)
      modifies Group(peers)`sock, Group(peers)`pending
      ensures forall i :: 0 <= i < |peers| ==> peers[i].sock.None?
      ensures RangesOf(peers) == old(RangesOf(peers)) && RangesOf(parsed) == old(RangesOf(parsed))
      ensures forall i :: 0 <= i < |peers| ==> Announced(peers[i]) == old(Announced(peers[i]))
    {
      hide Announced;
      ghost var rs, ps := RangesOf(peers), RangesOf(parsed);
      CloseAll();
      assert RangesOf(peers) == rs && RangesOf(parsed) == ps;
    }

    // -------------------------------------------------------------- gather

    method StagingFor(n: nat)
      modifies this`staging
      ensures staging.Length >= n && (if n <= old(staging.Length) then staging == old(staging) else fresh(staging))
    {
      if staging.Length < n {
        staging := new Row[Max(n, 4096)](i => []);
      }
    }

    method FlatNonzero(ids: seq<int>, lo: nat, hi: nat) returns (found: seq<nat>)
      requires lo <= hi
      ensures found == Positions(ids, Range(lo, hi - lo))
    {
      found := [];
      for i := 0 to |ids|
        invariant found == Positions(ids[..i], Range(lo, hi - lo))
      {
        assert ids[..i + 1][..i] == ids[..i];
        if lo <= ids[i] && ids[i] < hi {
          found := found + [i];
        }
      }
      assert ids[..|ids|] == ids;
    }

    /** Who gets which positions; too many for one peer is an error before any traffic. */
    method Partition(ids: seq<int>) returns (r: Outcome, routed: nat)
      modifies this`sel
      ensures r.Ok? ==>
                && |sel| == |peers| && routed == Routed(ids, RangesOf(peers))
                && forall i :: 0 <= i < |peers| ==> sel[i] == Positions(ids, RangesOf(peers)[i]) && |sel[i]| <= maxRows
      ensures r.Raise? ==>
                r.e == ValueError && exists i :: 0 <= i < |peers| && |Positions(ids, RangesOf(peers)[i])| > maxRows
    {
      hide Positions;
      ghost var rs := RangesOf(peers);
      routed := 0;
      var split: seq<seq<nat>> := [];
      for i := 0 to |peers|
        invariant RangesOf(peers) == rs
        invariant |split| == i && routed == Routed(ids, rs[..i])
        invariant forall j :: 0 <= j < i ==> split[j] == Positions(ids, rs[j]) && |split[j]| <= maxRows
      {
        var found := FlatNonzero(ids, peers[i].baseRow, peers[i].baseRow + peers[i].rowCount);
        assert rs[i] == Range(peers[i].baseRow, peers[i].rowCount);
        if |found| > maxRows {
          assert |Positions(ids, RangesOf(peers)[i])| > maxRows;
          return Raise(ValueError), 0;
        }
        RoutedSplit(ids, rs[..i], rs[i]);
        assert rs[..i + 1] == rs[..i] + [rs[i]];
        split := split + [found];
        routed := routed + |found|;
      }
      assert rs[..|peers|] == rs;
      sel := split;
      assert RangesOf(peers) == rs;
      return Ok, routed;
    }

    method Mark(covered: array<bool>, at: seq<nat>)
      requires forall t :: 0 <= t < |at| ==> at[t] < covered.Length
      modifies covered
      ensures forall p :: 0 <= p < covered.Length ==> (covered[p] <==> old(covered[p]) || p in at)
    {
      for t := 0 to |at|
        invariant forall p :: 0 <= p < covered.Length ==> (covered[p] <==> old(covered[p]) || p in at[..t])
      {
        covered[at[t]] := true;
        assert at[..t + 1] == at[..t] + [at[t]];
      }
      assert at[..|at|] == at;
    }

    /** The first position no peer covers. */
    method RaiseUnroutable(ids: seq<int>) returns (first: nat)
      requires |sel| == |peers| && Tiles(RangesOf(peers), rowsTotal)
      requires forall i :: 0 <= i < |peers| ==> sel[i] == Positions(ids, RangesOf(peers)[i])
      requires exists p :: 0 <= p < |ids| && !(0 <= ids[p] < rowsTotal)
      ensures first < |ids| && !(0 <= ids[first] < rowsTotal)
      ensures forall p :: 0 <= p < first ==> 0 <= ids[p] < rowsTotal
    {
      forall p | 0 <= p < |ids|
        ensures (exists j :: 0 <= j < |sel| && p in sel[j]) <==> 0 <= ids[p] < rowsTotal
      {
        CoveredIff(ids, p);
      }
      var covered := new bool[|ids|](i => false);
      forall i | 0 <= i < |peers|
        ensures forall t :: 0 <= t < |sel[i]| ==> sel[i][t] < |ids|
      {
        PositionsExact(ids, RangesOf(peers)[i]);
      }
      for i := 0 to |sel|
        invariant forall p :: 0 <= p < |ids| ==> (covered[p] <==> exists j :: 0 <= j < i && p in sel[j])
      {
        Mark(covered, sel[i]);
      }
      assert forall p :: 0 <= p < |ids| ==> (covered[p] <==> 0 <= ids[p] < rowsTotal);
      first := FirstFalse(covered);
    }

    static method FirstFalse(covered: array<bool>) returns (first: nat)
      requires exists p :: 0 <= p < covered.Length && !covered[p]
      ensures first < covered.Length && !covered[first]
      ensures forall p :: 0 <= p < first ==> covered[p]
    {
      first := 0;
      while covered[first]
        invariant first < covered.Length
        invariant forall p :: 0 <= p < first ==> covered[p]
        decreases covered.Length - first
      {
        first := first + 1;
      }
    }

    lemma CoveredIff(ids: seq<int>, p: nat)
      requires |sel| == |peers| && Tiles(RangesOf(peers), rowsTotal) && p < |ids|
      requires forall i :: 0 <= i < |peers| ==> sel[i] == Positions(ids, RangesOf(peers)[i])
      ensures (exists j :: 0 <= j < |sel| && p in sel[j]) <==> 0 <= ids[p] < rowsTotal
    {
      var rs := RangesOf(peers);
      if j :| 0 <= j < |sel| && p in sel[j] {
        PositionsExact(ids, rs[j]);
        OwnersAtLeast(rs, j, ids[p]);
        assert Owners(rs, ids[p]) == One(0 <= ids[p] < rowsTotal);
      }
      if 0 <= ids[p] < rowsTotal {
        var i := EveryPositionOnce(ids, rs, rowsTotal, p);
        assert p in sel[i];
      }
    }

    /** The request buffer holds the selected ids, and their rows go to the selected positions. */
    ghost predicate Carries(j: Job, ids: seq<int>)
      reads j.peer`reqIds
    {
      CarriesIds(j.sel, j.peer.reqIds, ids)
    }

    /** Copy the ids a peer owns into its request buffer, cut to u32 as the wire has them. */
    method LoadOne(p: Peer, ids: seq<int>, at: seq<nat>)
      requires ex.net == net && Member(p) && 0 < |at| < TWO32 && at == Positions(ids, Range(p.baseRow, p.rowCount))
      modifies p`cap, p`reqIds, p`rows
      ensures Member(p) && JobReady(Job(p, at), ids)
    {
      PositionsExact(ids, Range(p.baseRow, p.rowCount));
      p.Reserve(|at|);
      var w: seq<nat> := p.reqIds;
      for t := 0 to |at|
        invariant |w| == p.cap
        invariant forall u :: 0 <= u < t ==> w[u] == ids[at[u]]
      {
        w := w[t := ids[at[t]] % TWO32];
      }
      p.reqIds := w;
    }

    /** The jobs of a gather: one per peer that owns any of the ids; src says which. */
    ghost predicate Jobs(active: seq<Job>, src: seq<nat>, upto: nat)
      reads this`peers, this`sel
    {
      && |src| == |active| && upto <= |peers| == |sel|
      && (forall a :: 0 <= a < |active| ==> src[a] < upto && active[a] == Job(peers[src[a]], sel[src[a]]))
      && (forall a, b :: 0 <= a < b < |active| ==> src[a] < src[b])
      && (forall i :: 0 <= i < upto && sel[i] != [] ==> i in src)
    }

    ghost predicate JobReady(j: Job, ids: seq<int>)
      reads ex`timeout, j.peer
    {
      Member(j.peer) && ex.Posted(j, None) && Carries(j, ids)
    }

    method Load(ids: seq<int>) returns (active: seq<Job>, ghost src: seq<nat>)
      requires ex.net == net && Distinct(peers) && |sel| == |peers| && maxRows < TWO32
      requires forall i :: 0 <= i < |peers| ==> Member(peers[i])
      requires forall i :: 0 <= i < |peers| ==> |sel[i]| <= maxRows
      requires forall i :: 0 <= i < |peers| ==> sel[i] == Positions(ids, Range(peers[i].baseRow, peers[i].rowCount))
      modifies Group(peers)`cap, Group(peers)`reqIds, Group(peers)`rows
      ensures forall i :: 0 <= i < |peers| ==> Member(peers[i])
      ensures Jobs(active, src, |peers|)
      ensures forall a :: 0 <= a < |active| ==> JobReady(active[a], ids)
    {
      hide Positions, Member, JobReady, Jobs;
      active, src := NoJobs();
      for i := 0 to |peers|
        invariant forall k :: 0 <= k < |peers| ==> Member(peers[k])
        invariant Jobs(active, src, i)
        invariant forall a :: 0 <= a < |active| ==> JobReady(active[a], ids)
      {
        var p := peers[i];
        if sel[i] != [] {
          LoadOne(p, ids, sel[i]);
          Appended(active, src, i);
          active, src := active + [Job(p, sel[i])], src + [i];
        } else {
          Skipped(active, src, i);
        }
      }
    }

    method NoJobs() returns (active: seq<Job>, ghost src: seq<nat>)
      requires |sel| == |peers|
      ensures Jobs(active, src, 0) && active == []
    {
      active, src := [], [];
    }

    lemma Skipped(active: seq<Job>, src: seq<nat>, i: nat)
      requires i < |peers| && Jobs(active, src, i) && sel[i] == []
      ensures Jobs(active, src, i + 1)
    {
    }

    lemma Appended(active: seq<Job>, src: seq<nat>, i: nat)
      requires i < |peers| && Jobs(active, src, i)
      ensures Jobs(active + [Job(peers[i], sel[i])], src + [i], i + 1)
    {
      forall k | 0 <= k < i + 1 && sel[k] != []
        ensures k in src + [i]
      {
        if k == i { assert (src + [i])[|src|] == i; }
      }
    }

    lemma JobsAreApart(active: seq<Job>, src: seq<nat>)
      requires Distinct(peers) && Jobs(active, src, |peers|)
      ensures OnePerPeer(active) && PeersOf(active) <= Group(peers)
      ensures forall i :: 0 <= i < |peers| && peers[i] in PeersOf(active) ==> i in src
    {
      forall i | 0 <= i < |peers| && peers[i] in PeersOf(active)
        ensures i in src
      {
        var a :| 0 <= a < |active| && active[a].peer == peers[i];
        assert src[a] == i;
      }
    }

    lemma SomeJob(ids: seq<int>, active: seq<Job>, src: seq<nat>, p: nat) returns (a: nat)
      requires Jobs(active, src, |peers|) && Tiles(RangesOf(peers), rowsTotal)
      requires forall i :: 0 <= i < |peers| ==> sel[i] == Positions(ids, RangesOf(peers)[i])
      requires p < |ids| && 0 <= ids[p] < rowsTotal
      ensures a < |active| && p in active[a].sel
    {
      var i := EveryPositionOnce(ids, RangesOf(peers), rowsTotal, p);
      assert i in src;
      a :| 0 <= a < |src| && src[a] == i;
    }

    /** Every id is a row of the table and every peer has been given the positions of its ids. */
    ghost predicate Selected(ids: seq<int>)
      reads this`peers, this`sel, this`maxRows, this`rowsTotal, Group(peers)
    {
      SelectedBy(sel, RangesOf(peers), ids, maxRows, rowsTotal)
    }

    /** Every peer of the table that a gather uses is known to keep its range. */
    ghost predicate Steady()
      reads this, Group(peers)
    {
      forall i :: 0 <= i < |peers| ==>
        Keeps(net.world, peers[i].addr, peers[i].baseRow, peers[i].rowCount, maxRows)
    }

    lemma SteadyJobs(ids: seq<int>, active: seq<Job>, src: seq<nat>)
      requires Valid() && Steady() && Jobs(active, src, |peers|) && Selected(ids)
      ensures ex.AllPinned(active)
    {
      forall a | 0 <= a < |active|
        ensures ex.Pinned(active[a])
      {
        assert active[a] == Job(peers[src[a]], sel[src[a]]);
      }
    }

    /** The exchange on a table's peers: whatever happens the table stays well formed, and it is
        condemned exactly if an error comes out. */
    method Run(active: seq<Job>, ghost src: seq<nat>) returns (r: Outcome)
      requires Valid() && !failed && active != []
      requires Jobs(active, src, |peers|) && OnePerPeer(active) && PeersOf(active) <= Group(peers)
      requires forall i :: 0 <= i < |peers| && peers[i] in PeersOf(active) ==> i in src
      requires ex.AllPosted(active, None) && ex.AllQuiet(active)
      modifies this`failed, ex`reqId, PeersOf(active), net
      ensures Valid() && (failed <==> r.Raise?)
      ensures forall i :: 0 <= i < |peers| ==> CardOf(peers[i]) == old(CardOf(peers[i]))
      ensures forall a :: 0 <= a < |active| ==> CardOf(active[a].peer) == old(CardOf(active[a].peer))
      ensures r.Ok? ==> ex.AllDone(active)
      ensures ex.Ended(r, old(net.faults), old(net.now))
      ensures ex.Prompt(r, ex.AllPinned(active), old(net.Counts()), net.Counts())
      ensures r.Raise? && r.e.ProtocolError? ==> !ex.AllPinned(active)
    {
      hide Valid, Fits, RangesOf, Peer.Quiet, Peer.Done, Exchanger.Posted, Exchanger.AllPinned, Exchanger.AllQuiet,
           Exchanger.WithinBudget, Exchanger.Ended, Exchanger.AllPosted, Exchanger.AllDone, OnePerPeer, Member, Jobs, CardOf, Exchanger.Prompt;
      ghost var cards := Cards();
      r := ex.Exchange(active);
      failed := r.Raise?;
      forall i | 0 <= i < |peers|
        ensures CardOf(peers[i]) == cards[i]
        ensures Member(peers[i]) && (r.Ok? ==> peers[i].Quiet())
      {
        if i in src {
          var a := JobOf(active, src, i);
          PostedIsMember(active, a, cards[i]);
        } else {
          assert peers[i] !in PeersOf(active);
        }
      }
      ValidAgain(cards);
    }

    /** The cards of all peers, and that they are fit for a table. */
    lemma Cards() returns (cards: seq<Card>)
      requires Valid()
      ensures |cards| == |peers| && Fits(cards)
      ensures forall i :: 0 <= i < |peers| ==> CardOf(peers[i]) == cards[i]
      ensures forall i :: 0 <= i < |peers| ==> Member(peers[i]) && (!failed ==> peers[i].Quiet())
      ensures forall i :: 0 <= i < |peers| ==> cards[i].baseRow + cards[i].rowCount <= TWO32 - 1
      ensures ex.net == net && Distinct(peers) && peers != []
    {
      var ps := peers;
      cards := seq(|ps|, i requires 0 <= i < |ps| reads Group(ps) => CardOf(ps[i]));
      CardRangesAre(cards);
    }

    lemma CardRangesAre(cards: seq<Card>)
      requires |cards| == |peers| && forall i :: 0 <= i < |peers| ==> CardOf(peers[i]) == cards[i]
      ensures RangesOf(peers) == CardRanges(cards)
    {
      forall i | 0 <= i < |peers|
        ensures RangesOf(peers)[i] == CardRanges(cards)[i]
      {
        assert CardOf(peers[i]) == cards[i];
      }
    }

    /** The parts of Valid that no call changes. */
    ghost predicate Fits(cards: seq<Card>)
      reads this`peers, this`rowBytes, this`maxRows, this`rowsTotal
    {
      && ex.net == net && rowBytes == ROW_BYTES && maxRows < TWO32
      && Distinct(peers) && peers != [] && Tiles(CardRanges(cards), rowsTotal)
    }

    lemma ValidAgain(cards: seq<Card>)
      requires Fits(cards) && |cards| == |peers|
      requires forall i :: 0 <= i < |peers| ==> CardOf(peers[i]) == cards[i]
      requires forall i :: 0 <= i < |peers| ==> Member(peers[i]) && (!failed ==> peers[i].Quiet())
      ensures Valid()
    {
      CardRangesAre(cards);
    }

    lemma JobOf(active: seq<Job>, src: seq<nat>, i: nat) returns (a: nat)
      requires Jobs(active, src, |peers|) && i in src
      ensures a < |active| && i < |peers| && active[a].peer == peers[i]
    {
      a :| 0 <= a < |src| && src[a] == i;
    }

    lemma PostedIsMember(active: seq<Job>, a: nat, card: Card)
      requires ex.net == net && ex.AllPosted(active, None) && a < |active|
      requires CardOf(active[a].peer) == card && card.baseRow + card.rowCount <= TWO32 - 1
      ensures Member(active[a].peer)
      ensures ex.AllDone(active) ==> active[a].peer.Quiet()
    {
      hide Peer.Quiet;
      assert ex.Posted(active[a], None);
      if ex.AllDone(active) {
        assert active[a].peer.Done(|active[a].sel|);
      }
    }

    lemma SameRanges(rs: seq<Range>)
      requires |rs| == |peers|
      requires forall i :: 0 <= i < |peers| ==> Range(peers[i].baseRow, peers[i].rowCount) == rs[i]
      ensures RangesOf(peers) == rs
    {
    }

    /** Load the request buffers and run the exchange. */
    method ExchangeAll(ids: seq<int>) returns (r: Outcome, active: seq<Job>, ghost src: seq<nat>)
      requires Valid() && !failed && Selected(ids) && ids != []
      modifies this`failed, ex`reqId, Group(peers), net
      ensures Valid() && (failed <==> r.Raise?)
      ensures Selected(ids) && Jobs(active, src, |peers|)
      ensures forall a :: 0 <= a < |active| ==> Carries(active[a], ids)
      ensures RangesOf(peers) == old(RangesOf(peers))
      ensures r.Ok? ==> ex.AllDone(active)
      ensures ex.Ended(r, old(net.faults), old(net.now))
      ensures ex.Prompt(r, Steady(), old(net.Counts()), net.Counts())
      ensures r.Raise? ==> r.e == OSError || r.e.ProtocolError?
      ensures r.Raise? && r.e.ProtocolError? ==> !Steady()
    {
      hide Valid, Exchanger.Ended, Exchanger.AllPosted, Exchanger.AllQuiet, Exchanger.AllDone, Exchanger.AllPinned, Steady, Jobs,
           SelectedBy, OnePerPeer, CarriesIds, Exchanger.Prompt;
      ghost var rs := RangesOf(peers);
      ghost var some;
      active, src, some := Prepare(ids);
      r := Run(active, src);
      EndedHow(r, old(net.faults), old(net.now));
      SameRanges(rs);
      if Steady() {
        SteadyJobs(ids, active, src);
      }
      ex.PromptAsWell(r, ex.AllPinned(active), Steady(), old(net.Counts()), net.Counts());
    }

    lemma EndedHow(r: Outcome, faults: nat, t0: nat)
      requires ex.Ended(r, faults, t0)
      ensures r.Raise? ==> r.e == OSError || r.e.ProtocolError?
    {
    }

    method Prepare(ids: seq<int>) returns (active: seq<Job>, ghost src: seq<nat>, ghost some: nat)
      requires Valid() && !failed && Selected(ids) && ids != []
      modifies Group(peers)`cap, Group(peers)`reqIds, Group(peers)`rows
      ensures Valid() && Selected(ids) && RangesOf(peers) == old(RangesOf(peers))
      ensures Jobs(active, src, |peers|) && some < |active|
      ensures OnePerPeer(active) && PeersOf(active) <= Group(peers)
      ensures forall i :: 0 <= i < |peers| && peers[i] in PeersOf(active) ==> i in src
      ensures ex.AllPosted(active, None) && ex.AllQuiet(active)
      ensures forall a :: 0 <= a < |active| ==> Carries(active[a], ids)
    {
      hide Peer.Quiet, Member, Jobs, JobReady, Tiles, Distinct, Carries, OnePerPeer, Positions;
      ghost var rs := RangesOf(peers);
      active, src := Load(ids);
      assert RangesOf(peers) == rs;
      JobsAreApart(active, src);
      JobsAreReady(active, src, ids);
      some := SomeJob(ids, active, src, 0);
    }

    lemma JobsAreReady(active: seq<Job>, src: seq<nat>, ids: seq<int>)
      requires Jobs(active, src, |peers|) && forall a :: 0 <= a < |active| ==> JobReady(active[a], ids)
      requires forall i :: 0 <= i < |peers| ==> peers[i].Quiet()
      ensures ex.AllPosted(active, None) && ex.AllQuiet(active)
      ensures forall a :: 0 <= a < |active| ==> Carries(active[a], ids)
    {
      hide Peer.Quiet, Member, Carries, Exchanger.Posted;
    }

    // ------------------------------------------------------------- scatter

    /** The rows of a job are in place. */
    ghost predicate Landed(j: Job, ids: seq<int>)
      reads this`staging, staging
    {
      forall t :: 0 <= t < |j.sel| ==>
        && j.sel[t] < |ids| <= staging.Length && 0 <= ids[j.sel[t]]
        && staging[j.sel[t]] == net.world.truth(ids[j.sel[t]])
    }

    method ScatterOne(j: Job, ids: seq<int>)
      requires j.peer.net == net && j.peer.Done(|j.sel|) && Carries(j, ids) && |ids| <= staging.Length
      modifies staging
      ensures Landed(j, ids)
      ensures forall q :: 0 <= q < staging.Length ==>
                staging[q] == old(staging[q]) || (q < |ids| && 0 <= ids[q] && staging[q] == net.world.truth(ids[q]))
    {
      hide Peer.Done;
      for t := 0 to |j.sel|
        invariant forall u :: 0 <= u < t ==> staging[j.sel[u]] == net.world.truth(ids[j.sel[u]])
        invariant forall q :: 0 <= q < staging.Length ==>
                    staging[q] == old(staging[q]) || (q < |ids| && 0 <= ids[q] && staging[q] == net.world.truth(ids[q]))
      {
        j.peer.RowOfAnswer(|j.sel|, t);
        staging[j.sel[t]] := j.peer.rows[t * ROW_BYTES..(t + 1) * ROW_BYTES];
      }
    }

    method Scatter(active: seq<Job>, ids: seq<int>)
      requires ex.AllDone(active)
      requires forall a :: 0 <= a < |active| ==> active[a].peer.net == net && Carries(active[a], ids)
      requires |ids| <= staging.Length
      modifies staging
      ensures forall a :: 0 <= a < |active| ==> Landed(active[a], ids)
    {
      hide Peer.Done, CarriesIds;
      for i := 0 to |active|
        invariant forall a :: 0 <= a < i ==> Landed(active[a], ids)
      {
        ScatterOne(active[i], ids);
      }
    }

    /** After the scatter every position of the gather holds its row. */
    lemma AllLanded(ids: seq<int>, active: seq<Job>, src: seq<nat>)
      requires Selected(ids) && Jobs(active, src, |peers|) && Tiles(RangesOf(peers), rowsTotal)
      requires forall a :: 0 <= a < |active| ==> Landed(active[a], ids)
      ensures forall p :: 0 <= p < |ids| ==> InPlace(ids, p)
    {
      forall p | 0 <= p < |ids|
        ensures InPlace(ids, p)
      {
        var a := SomeJob(ids, active, src, p);
        var t :| 0 <= t < |active[a].sel| && active[a].sel[t] == p;
      }
    }

    ghost predicate InPlace(ids: seq<int>, p: nat)
      reads this`staging, staging
    {
      p < |ids| <= staging.Length && 0 <= ids[p] && staging[p] == net.world.truth(ids[p])
    }

    /** Whatever the network does: row j of the result is the row of ids[j], or there is no result. */
    method Gather(ids: seq<int>) returns (r: Outcome, out: seq<Row>)
      requires Valid()
      modifies this`staging, this`sel, this`failed, staging, ex`reqId, Group(peers), net
      ensures Valid() && RangesOf(peers) == old(RangesOf(peers))
      ensures staging == old(staging) || fresh(staging)
      // the right rows, in the right order
      ensures r.Ok? ==> |out| == |ids|
      ensures r.Ok? ==> forall j :: 0 <= j < |ids| ==> 0 <= ids[j] < rowsTotal && out[j] == net.world.truth(ids[j])
      // an empty gather does nothing at all, even on a failed table
      ensures ids == [] ==> r.Ok? && failed == old(failed) && unchanged(net)
      // once failed, always failed, and no rows ever again
      ensures old(failed) ==> failed && (ids != [] ==> r == Raise(NotUsable))
      ensures r.Ok? ==> failed == old(failed)
      // a request that cannot be routed is refused before anything is sent
      ensures r.Raise? && r.e in {ValueError, NotUsable} ==> failed == old(failed) && unchanged(net) && unchanged(Group(peers))
      ensures r.Raise? && r.e.IndexError? ==> failed == old(failed) && unchanged(net) && unchanged(Group(peers))
      ensures r.Raise? && r.e.IndexError? ==>
                && r.e.first < |ids| && !(0 <= ids[r.e.first] < rowsTotal)
                && forall p :: 0 <= p < r.e.first ==> 0 <= ids[p] < rowsTotal
      ensures ids != [] && !old(failed) ==> (r == Raise(ValueError) <==> Oversized(ids))
      ensures ids != [] && !old(failed) ==> (r.Raise? && r.e.IndexError? <==> !Oversized(ids) && !InTable(ids))
      // what can go wrong once something was sent, only that, and when
      ensures r.Raise? && !(r.e in {ValueError, NotUsable} || r.e.IndexError?) ==> failed
      ensures ids != [] && !old(failed) && !(r.Raise? && (r.e == ValueError || r.e.IndexError?)) ==>
                ex.Ended(r, old(net.faults), old(net.now))
      ensures r.Raise? && r.e.ProtocolError? ==> !Steady()
      // and it does succeed while at most two calls fail and there is time, or if nothing fails
      ensures ids != [] && !old(failed) && !Oversized(ids) && InTable(ids) ==>
                ex.Prompt(r, Steady(), old(net.Counts()), net.Counts())
    {
      hide Member, SelectedBy, Exchanger.Prompt, TooMany, InTable, Exchanger.AllDone, Exchanger.Ended, Peer.Quiet, Jobs, Carries, Tiles, Distinct, Steady, Positions;
      ghost var rs := RangesOf(peers);
      StagingFor(|ids|);
      assert RangesOf(peers) == rs;
      if ids == [] {
        return Ok, [];
      }
      if failed {
        return Raise(NotUsable), [];
      }
      out := [];
      r := Route(ids);
      assert RangesOf(peers) == rs;
      if r.Raise? {
        return;
      }
      var active;
      ghost var src;
      r, active, src := ExchangeAll(ids);
      if r.Raise? {
        return;
      }
      out := Deliver(ids, active, src);
    }

    ghost predicate Oversized(ids: seq<int>)
      reads this`peers, this`maxRows, Group(peers)
    {
      TooMany(ids, RangesOf(peers), maxRows)
    }

    ghost predicate InTable(ids: seq<int>)
      reads this`rowsTotal
    {
      forall p :: 0 <= p < |ids| ==> 0 <= ids[p] < rowsTotal
    }

    /** Decide who serves which position, or refuse; nothing has been sent yet. */
    method Route(ids: seq<int>) returns (r: Outcome)
      requires Valid()
      modifies this`sel
      ensures r.Ok? ==> Selected(ids)
      ensures r.Raise? ==> r.e == ValueError || r.e.IndexError?
      ensures r == Raise(ValueError) <==> Oversized(ids)
      ensures r.Ok? <==> !Oversized(ids) && InTable(ids)
      ensures r.Raise? && r.e.IndexError? ==>
                && r.e.first < |ids| && !(0 <= ids[r.e.first] < rowsTotal)
                && forall p :: 0 <= p < r.e.first ==> 0 <= ids[p] < rowsTotal
    {
      hide Member, Positions, Routed;
      ghost var rs := RangesOf(peers);
      var routed;
      r, routed := Partition(ids);
      if r.Raise? {
        return;
      }
      assert RangesOf(peers) == rs;
      RoutedExact(ids, rs, rowsTotal);
      if routed != |ids| {
        var first := RaiseUnroutable(ids);
        return Raise(IndexError(first));
      }
    }

    method Deliver(ids: seq<int>, active: seq<Job>, ghost src: seq<nat>) returns (out: seq<Row>)
      requires Valid() && Selected(ids) && Jobs(active, src, |peers|) && ex.AllDone(active)
      requires |ids| <= staging.Length && forall a :: 0 <= a < |active| ==> Carries(active[a], ids)
      modifies staging
      ensures Valid() && RangesOf(peers) == old(RangesOf(peers))
      ensures |out| == |ids|
      ensures forall j :: 0 <= j < |ids| ==> 0 <= ids[j] < rowsTotal && out[j] == net.world.truth(ids[j])
    {
      ghost var rs := RangesOf(peers);
      Scatter(active, ids);
      assert RangesOf(peers) == rs;
      AllLanded(ids, active, src);
      out := staging[..|ids|];
      forall j | 0 <= j < |ids|
        ensures 0 <= ids[j] < rowsTotal && out[j] == net.world.truth(ids[j])
      {
        assert InPlace(ids, j);
      }
    }

    ghost predicate Within(start: int, n: int)
      reads this`rowsTotal
    {
      0 <= start && start + n <= rowsTotal
    }

    /** How a gather of rows [start, start + n) may fail on a table that can be used. */
    ghost predicate MayFail(r: Outcome, start: int, n: nat, a: Book)
      reads this, ex, ex.net, Group(peers)
    {
      r.Raise? ==>
        match r.e
        case NotUsable => false
        case ValueError => n > maxRows
        case IndexError(first) => first < n && !(0 <= start + first < rowsTotal)
        case ProtocolError(_) => failed && ex.Ended(r, a.faults, a.now) && !Steady()
        case OSError => failed && ex.Ended(r, a.faults, a.now)
    }

    method ReadChunk(start: int, n: nat) returns (r: Outcome, rows: seq<Row>)
      requires Valid() && n > 0
      modifies this`staging, this`sel, this`failed, staging, ex`reqId, Group(peers), net
      ensures Valid() && RangesOf(peers) == old(RangesOf(peers))
      ensures staging == old(staging) || fresh(staging)
      ensures old(failed) ==> failed && r == Raise(NotUsable)
      ensures !old(failed) ==> MayFail(r, start, n, old(net.Counts()))
      ensures !old(failed) && n <= maxRows && Within(start, n) ==>
                ex.Prompt(r, Steady(), old(net.Counts()), net.Counts())
      ensures r.Ok? ==> failed == old(failed)
      ensures r.Ok? ==> |rows| == n && Within(start, n)
      ensures r.Ok? ==> forall k: nat :: k < n ==> rows[k] == net.world.truth(start + k)
    {
      hide Valid, Steady, Exchanger.Prompt, Exchanger.Ended, TooMany, MayFail, RangesOf, InTable;
      var ids := seq(n, k requires 0 <= k < n => start + k);
      InsideIffWithin(ids, start);
      NotTooMany(ids, RangesOf(peers), maxRows);
      ghost var rs := RangesOf(peers);
      r, rows := Gather(ids);
      assert RangesOf(peers) == rs;
      if r.Ok? {
        ChunkRows(ids, start, rows);
      }
      if !old(failed) {
        ChunkFails(r, ids, start, old(net.Counts()));
      }
    }

    lemma InsideIffWithin(ids: seq<int>, start: int)
      requires ids != [] && forall j :: 0 <= j < |ids| ==> ids[j] == start + j
      ensures InTable(ids) <==> Within(start, |ids|)
    {
      assert ids[0] == start && ids[|ids| - 1] == start + |ids| - 1;
    }

    lemma ChunkFails(r: Outcome, ids: seq<int>, start: int, a: Book)
      requires forall j :: 0 <= j < |ids| ==> ids[j] == start + j
      requires r == Raise(ValueError) ==> |ids| > maxRows
      requires r.Raise? && r.e.IndexError? ==> r.e.first < |ids| && !(0 <= ids[r.e.first] < rowsTotal)
      requires r.Raise? && !(r.e == ValueError || r.e.IndexError?) ==> ex.Ended(r, a.faults, a.now) && (r.e != NotUsable ==> failed)
      requires r.Raise? && r.e.ProtocolError? ==> !Steady()
      ensures MayFail(r, start, |ids|, a)
    {
    }

    lemma NotTooMany(ids: seq<int>, rs: seq<Range>, most: nat)
      ensures |ids| <= most ==> !TooMany(ids, rs, most)
    {
      forall i | 0 <= i < |rs|
        ensures |Positions(ids, rs[i])| <= |ids|
      {
        PositionsExact(ids, rs[i]);
      }
    }

    lemma Chunked(start: int, buf: seq<Row>, rows: seq<Row>)
      requires 0 <= start || buf == []
      requires 0 <= start + |buf|
      requires forall k: nat :: k < |buf| ==> 0 <= start && buf[k] == net.world.truth(start + k)
      requires forall k: nat :: k < |rows| ==> rows[k] == net.world.truth(start + |buf| + k)
      ensures forall k: nat :: k < |buf + rows| ==> 0 <= start && (buf + rows)[k] == net.world.truth(start + k)
    {
      forall k: nat | k < |buf + rows|
        ensures 0 <= start && (buf + rows)[k] == net.world.truth(start + k)
      {
        if k >= |buf| {
          var j: nat := k - |buf|;
          assert rows[j] == net.world.truth(start + |buf| + j);
        }
      }
    }

    lemma ChunkRows(ids: seq<int>, start: int, rows: seq<Row>)
      requires |ids| == |rows| > 0 && forall j :: 0 <= j < |ids| ==> ids[j] == start + j
      requires forall j :: 0 <= j < |ids| ==> 0 <= ids[j] < rowsTotal && rows[j] == net.world.truth(ids[j])
      ensures 0 <= start && start + |rows| <= rowsTotal
      ensures forall k: nat :: k < |rows| ==> rows[k] == net.world.truth(start + k)
    {
      assert ids[0] == start && ids[|ids| - 1] == start + |ids| - 1;
      forall k: nat | k < |rows|
        ensures rows[k] == net.world.truth(start + k)
      {
        assert ids[k] == start + k;
      }
    }

    /** How reading rows [start, start + count) may fail, the gather that fails beginning at a. */
    ghost predicate PieceFails(r: Outcome, start: int, count: int, a: Book)
      reads this, ex, ex.net, Group(peers)
    {
      r.Raise? ==>
        match r.e
        case NotUsable => false
        case ValueError => maxRows == 0
        case IndexError(_) => !Within(start, count)
        case ProtocolError(_) => failed && ex.Ended(r, a.faults, a.now) && !Steady()
        case OSError => failed && ex.Ended(r, a.faults, a.now)
    }

    /** At most two faults, and time enough. */
    ghost predicate EasyGoing(a: Book, b: Book)
      reads ex`gatherDeadline
    {
      b.faults <= a.faults + 2 && Charge(ex.net.fate, a, b) < ex.gatherDeadline
    }

    ghost predicate AllEasy(cuts: seq<Book>)
      reads ex`gatherDeadline
    {
      forall i :: 0 < i < |cuts| ==> EasyGoing(cuts[i - 1], cuts[i])
    }

    lemma LastPiece(r: Outcome, start: int, count: int, done: nat, n: nat, a: Book, b: Book)
      requires r.Raise? && MayFail(r, start + done, n, a) && 0 < n && done + n <= count && (n <= maxRows || maxRows == 0)
      requires n <= maxRows && Within(start + done, n) ==> ex.Prompt(r, Steady(), a, b)
      ensures PieceFails(r, start, count, a)
      ensures Within(start, count) && maxRows >= 1 && Steady() && ex.timeout > 0 ==> !EasyGoing(a, b)
    {
      hide Steady;
    }

    /** Rows a piece, for the size asked for: no more than every server accepts, and at least one. */
    function PieceOf(chunkRows: int): (n: nat)
      reads this`maxRows
      ensures n >= 1 && (maxRows >= 1 ==> n <= maxRows) && (1 <= chunkRows <= maxRows ==> n == chunkRows)
    {
      var limit := if chunkRows < maxRows then chunkRows else maxRows;
      if limit < 1 then 1 else limit
    }

    /** A range of rows is gathered in pieces that every server accepts. cuts is where the gathers
        begin and end. */
    method ReadRowsContiguous(start: int, count: int, chunkRows: int)
      returns (r: Outcome, buf: seq<Row>, ghost cuts: seq<Book>)
      requires Valid()
      modifies this`staging, this`sel, this`failed, staging, ex`reqId, Group(peers), net
      ensures Valid() && RangesOf(peers) == old(RangesOf(peers))
      ensures count <= 0 ==> r.Ok? && buf == []
      ensures r.Ok? && count > 0 ==> |buf| == count && Within(start, count)
      ensures r.Ok? ==> forall k: nat :: k < |buf| ==> buf[k] == net.world.truth(start + k)
      ensures old(failed) ==> failed && (count > 0 ==> r == Raise(NotUsable))
      // no more gathers than it takes
      ensures cuts != [] && cuts[0] == old(net.Counts()) && cuts[|cuts| - 1] == net.Counts()
      ensures r.Ok? && count > 0 ==> (|cuts| - 2) * PieceOf(chunkRows) < count <= (|cuts| - 1) * PieceOf(chunkRows)
      // an error is that of the last gather, and its reason lies there
      ensures r.Raise? && !old(failed) ==> |cuts| >= 2 && PieceFails(r, start, count, cuts[|cuts| - 2])
      // every gather that may succeed does
      ensures !old(failed) && Within(start, count) && maxRows >= 1 && Steady() && ex.timeout > 0 && AllEasy(cuts) ==> r.Ok?
    {
      hide Valid, Steady, RangesOf, MayFail, PieceFails, EasyGoing, Exchanger.Prompt;
      buf, cuts := [], [net.Counts()];
      if count <= 0 {
        return Ok, [], cuts;
      }
      var step := PieceOf(chunkRows);
      ghost var rs := RangesOf(peers);
      while |buf| < count
        invariant |buf| <= count
        invariant Valid() && RangesOf(peers) == rs
        invariant staging == old(staging) || fresh(staging)
        invariant failed == old(failed) && (failed ==> buf == [])
        invariant cuts != [] && cuts[0] == old(net.Counts()) && cuts[|cuts| - 1] == net.Counts()
        invariant if |buf| < count then |buf| == (|cuts| - 1) * step
                  else (|cuts| - 2) * step < count <= (|cuts| - 1) * step
        invariant buf != [] ==> Within(start, |buf|)
        invariant forall k: nat :: k < |buf| ==> 0 <= start && buf[k] == net.world.truth(start + k)
      {
        var done := |buf|;
        var n := if step < count - done then step else count - done;
        var rows;
        r, rows := ReadChunk(start + done, n);
        ghost var was := cuts;
        cuts := cuts + [net.Counts()];
        if r.Raise? {
          if !old(failed) {
            LastPiece(r, start, count, done, n, was[|was| - 1], net.Counts());
            assert cuts[|cuts| - 2] == was[|was| - 1];
          }
          return r, [], cuts;
        }
        Chunked(start, buf, rows);
        buf := buf + rows;
        OneMorePiece(|was| - 1, step);
      }
      return Ok, buf, cuts;
    }

    lemma OneMorePiece(k: nat, step: nat)
      ensures (k + 1) * step == k * step + step
    {
    }

    // ---------------------------------------------------------------- info

    /** Since the socket was s a PING has gone out and nothing has been read. */
    ghost predicate Pinged(p: Peer, s: Sock, id: nat)
      reads p
    {
      && p.Live() && Settled(p.sock.value) && p.RangeHolds()
      && p.pending == Some(id) && id < TWO32
      && p.Left() == RespHeader(id, ST_OK, 0) + []
      && p.sock.value.sent == s.sent + EncodeReq(OP_PING, 0, id, []) && p.sock.value.rcvd == s.rcvd
    }

    /** Since the socket was s a PING has gone out, its answer has come in, and that is all. */
    ghost predicate Acked(p: Peer, s: Sock, id: nat)
      requires id < TWO32
      reads p`sock
    {
      && p.sock.Some? && p.sock.value.sent == s.sent + EncodeReq(OP_PING, 0, id, [])
      && p.sock.value.rcvd == s.rcvd + RespHeader(id, ST_OK, 0)
    }

    method PingOne(p: Peer) returns (r: Outcome)
      requires ex.net == net && Member(p) && p.Quiet()
      modifies ex`reqId, p`sock, p`armed, p`pending, net`now, net`step, net`faults, net`volley, net`sending, net`ready
      ensures Member(p) && ex.reqId == (old(ex.reqId) + 1) % TWO32
      ensures Fairly(net.fate, ex.timeout, None, old(net.Counts()), net.Counts())
      ensures r.Ok? ==> net.faults == old(net.faults) && p.Volley() && Pinged(p, old(p.sock.value), ex.reqId)
      ensures r.Ok? <==> !Fails(net.fate(old(net.step)), ex.timeout)
      ensures r.Raise? ==> r.e == OSError && net.faults > old(net.faults)
    {
      hide Conforms, Emitted, Plausible, Fairly, EncodeReq, Whole, Fails;
      p.LiveIsValid();
      var id := ex.NextReqId();
      ghost var s := p.sock.value;
      PingReply(s, id);
      r := p.SendBare(OP_PING, id);
    }

    lemma PingReply(s: Sock, id: nat)
      requires s.cfg.Valid() && AtRest(s) && id < TWO32
      ensures ReplyTo(s, Request(OP_PING, 0, id, [])) == RespHeader(id, ST_OK, 0) + []
    {
    }

    method AckOne(p: Peer, ghost s: Sock, ghost id: nat) returns (r: Outcome)
      requires ex.net == net && Member(p) && id < TWO32 && Pinged(p, s, id)
      modifies p`sock, p`armed, p`pending, net`now, net`step, net`faults, net`sending, net`ready, net`blind
      ensures Member(p)
      ensures Fairly(net.fate, ex.timeout, None, old(net.Counts()), net.Counts())
      ensures r.Ok? ==> net.faults == old(net.faults) && p.Quiet() && Acked(p, s, id)
      ensures r.Raise? ==> r.e == OSError && net.faults > old(net.faults)
    {
      hide Conforms, Emitted, Plausible, Fairly, EncodeReq, Whole, Unread;
      r := p.ReadAck();
    }

    method PingAll() returns (r: Outcome)
      requires ex.net == net && Distinct(peers) && peers != []
      requires forall i :: 0 <= i < |peers| ==> Member(peers[i]) && peers[i].Quiet()
      modifies ex`reqId, Group(peers)`sock, Group(peers)`armed, Group(peers)`pending, net`now, net`step, net`faults, net`volley, net`sending, net`ready, net`blind
      ensures forall i :: 0 <= i < |peers| ==> Member(peers[i]) && (r.Ok? ==> peers[i].Quiet())
      ensures r.Ok? ==> net.volley >= |peers| && forall i :: 0 <= i < |peers| ==>
                old(peers[i].sock.Some?) && Acked(peers[i], old(peers[i].sock.value), IdAfter(old(ex.reqId), i + 1))
      ensures r.Ok? <==> net.faults == old(net.faults)
      ensures r.Raise? ==> r.e == OSError && net.faults > old(net.faults)
      ensures Fails(net.fate(old(net.step)), ex.timeout) ==> r.Raise?
      ensures Fairly(net.fate, ex.timeout, None, old(net.Counts()), net.Counts())
    {
      hide Peer.Quiet, Member, Pinged, Acked, Fairly, Fails, IdAfter;
      ghost var was := SocksNow(peers);
      ghost var start := net.Counts();
      FairlyStays(net.fate, ex.timeout, None, start);
      for i := 0 to |peers|
        invariant forall j :: 0 <= j < |peers| ==> Member(peers[j])
        invariant forall j :: 0 <= j < i ==> Pinged(peers[j], was[j], IdAfter(old(ex.reqId), j + 1))
        invariant forall j :: i <= j < |peers| ==> peers[j].Quiet() && peers[j].sock == Some(was[j])
        invariant if i == 0 then ex.reqId == old(ex.reqId) else ex.reqId == IdAfter(old(ex.reqId), i)
        invariant net.volley >= i && (i > 0 ==> net.sending) && net.faults == old(net.faults)
        invariant if i == 0 then net.step == old(net.step) else !Fails(net.fate(old(net.step)), ex.timeout)
        invariant Fairly(net.fate, ex.timeout, None, start, net.Counts())
      {
        IdNext(old(ex.reqId), i, ex.reqId);
        ghost var mid := net.Counts();
        r := PingOne(peers[i]);
        FairlyJoin(net.fate, ex.timeout, None, start, mid, net.Counts());
        if r.Raise? {
          return;
        }
      }
      ghost var mid := net.Counts();
      r := AckAll(was, old(ex.reqId));
      FairlyJoin(net.fate, ex.timeout, None, start, mid, net.Counts());
    }

    method AckAll(ghost was: seq<Sock>, ghost first: nat) returns (r: Outcome)
      requires ex.net == net && Distinct(peers) && |was| == |peers|
      requires forall i :: 0 <= i < |peers| ==> Member(peers[i]) && Pinged(peers[i], was[i], IdAfter(first, i + 1))
      modifies Group(peers)`sock, Group(peers)`armed, Group(peers)`pending, net`now, net`step, net`faults, net`sending, net`ready, net`blind
      ensures forall i :: 0 <= i < |peers| ==> Member(peers[i]) && (r.Ok? ==> peers[i].Quiet())
      ensures r.Ok? ==> forall i :: 0 <= i < |peers| ==> Acked(peers[i], was[i], IdAfter(first, i + 1))
      ensures if r.Ok? then net.faults == old(net.faults) else r.e == OSError && net.faults > old(net.faults)
      ensures Fairly(net.fate, ex.timeout, None, old(net.Counts()), net.Counts())
    {
      hide Peer.Quiet, Member, Pinged, Acked, Fairly, IdAfter;
      ghost var start := net.Counts();
      FairlyStays(net.fate, ex.timeout, None, start);
      for i := 0 to |peers|
        invariant forall j :: 0 <= j < |peers| ==> Member(peers[j])
        invariant forall j :: 0 <= j < i ==> peers[j].Quiet() && Acked(peers[j], was[j], IdAfter(first, j + 1))
        invariant forall j :: i <= j < |peers| ==> Pinged(peers[j], was[j], IdAfter(first, j + 1))
        invariant net.faults == old(net.faults) && Fairly(net.fate, ex.timeout, None, start, net.Counts())
      {
        ghost var mid := net.Counts();
        r := AckOne(peers[i], was[i], IdAfter(first, i + 1));
        FairlyJoin(net.fate, ex.timeout, None, start, mid, net.Counts());
        if r.Raise? {
          return;
        }
      }
      return Ok;
    }

    lemma SocksNow(ps: seq<Peer>) returns (was: seq<Sock>)
      requires forall i :: 0 <= i < |ps| ==> ps[i].Quiet()
      ensures |was| == |ps| && forall i :: 0 <= i < |ps| ==> ps[i].sock == Some(was[i])
    {
      was := seq(|ps|, i requires 0 <= i < |ps| && ps[i].sock.Some? reads Group(ps) => ps[i].sock.value);
    }

    /** Every connection is known to be good afterwards, because each has carried a request and its
        answer, or the table is failed: a fault leaves sockets in doubt. */
    method Ping() returns (r: Outcome)
      requires Valid()
      modifies this`failed, ex`reqId, Group(peers)`sock, Group(peers)`armed, Group(peers)`pending, net`now, net`step, net`faults, net`volley, net`sending, net`ready, net`blind
      ensures Valid() && (old(failed) ==> failed && r == Raise(NotUsable))
      ensures old(failed) ==> unchanged(net) && unchanged(Group(peers)) && unchanged(ex)
      // it fails if and only if a call does, and then the table is failed
      ensures !old(failed) ==> (failed <==> r.Raise?) && (r.Raise? <==> net.faults > old(net.faults))
      ensures !old(failed) && r.Raise? ==> r.e == OSError
      ensures !old(failed) && Fails(net.fate(old(net.step)), ex.timeout) ==> r.Raise?
      ensures Fairly(net.fate, ex.timeout, None, old(net.Counts()), net.Counts())
      // all requests leave one after the other, then every answer is read
      ensures r.Ok? ==> net.volley >= |peers| && forall i :: 0 <= i < |peers| ==>
                old(peers[i].sock.Some?) && Acked(peers[i], old(peers[i].sock.value), IdAfter(old(ex.reqId), i + 1))
    {
      hide Valid, Fits, Peer.Quiet, Member, Fairly, Acked, IdAfter, Fails;
      if failed {
        FairlyStays(net.fate, ex.timeout, None, net.Counts());
        return Raise(NotUsable);
      }
      ghost var cards := Cards();
      r := PingAll();
      failed := r.Raise?;
      ValidAgain(cards);
    }

    method StatOne(p: Peer) returns (r: Outcome, stat: Stat)
      requires ex.net == net && Member(p) && p.Quiet()
      modifies ex`reqId, p`sock, p`armed, p`pending, net`now, net`step, net`faults, net`volley, net`sending, net`ready, net`blind
      ensures Member(p) && ex.reqId == (old(ex.reqId) + 1) % TWO32
      ensures Fairly(net.fate, ex.timeout, None, old(net.Counts()), net.Counts())
      ensures r.Ok? ==> net.faults == old(net.faults) && p.Quiet() && p.StatSeen(old(p.sock.value), ex.reqId, stat)
      ensures r.Ok? ==> stat.baseRow == p.baseRow && stat.rowCount == p.rowCount && stat.rowBytes == p.rowBytes
      ensures r.Raise? ==> r.e == OSError && net.faults > old(net.faults)
    {
      hide Conforms, Emitted, Plausible, Fairly, EncodeReq, Whole, Peer.StatSeen, Unread;
      p.QuietIsUp();
      var id := ex.NextReqId();
      r, stat := p.QueryStat(id);
    }

    ghost predicate SameRange(p: Peer, stat: Stat)
      reads p`baseRow, p`rowCount, p`rowBytes
    {
      stat.baseRow == p.baseRow && stat.rowCount == p.rowCount && stat.rowBytes == p.rowBytes
    }

    method StatAll() returns (r: Outcome, stats: seq<Stat>)
      requires ex.net == net && Distinct(peers)
      requires forall i :: 0 <= i < |peers| ==> Member(peers[i]) && peers[i].Quiet()
      modifies ex`reqId, Group(peers)`sock, Group(peers)`armed, Group(peers)`pending, net`now, net`step, net`faults, net`volley, net`sending, net`ready, net`blind
      ensures forall i :: 0 <= i < |peers| ==> Member(peers[i]) && (r.Ok? ==> peers[i].Quiet())
      ensures r.Ok? ==> |stats| == |peers| && forall i :: 0 <= i < |peers| ==>
                && SameRange(peers[i], stats[i]) && old(peers[i].sock.Some?)
                && peers[i].StatSeen(old(peers[i].sock.value), IdAfter(old(ex.reqId), i + 1), stats[i])
      ensures if r.Ok? then net.faults == old(net.faults) else r.e == OSError && net.faults > old(net.faults)
      ensures Fairly(net.fate, ex.timeout, None, old(net.Counts()), net.Counts())
    {
      hide Peer.Quiet, Member, Fairly, IdAfter, Peer.StatSeen;
      ghost var was := SocksNow(peers);
      ghost var start := net.Counts();
      FairlyStays(net.fate, ex.timeout, None, start);
      stats := [];
      for i := 0 to |peers|
        invariant forall j :: 0 <= j < |peers| ==> Member(peers[j]) && peers[j].Quiet()
        invariant forall j :: i <= j < |peers| ==> peers[j].sock == Some(was[j])
        invariant if i == 0 then ex.reqId == old(ex.reqId) else ex.reqId == IdAfter(old(ex.reqId), i)
        invariant |stats| == i && forall j :: 0 <= j < i ==>
                    SameRange(peers[j], stats[j]) && peers[j].StatSeen(was[j], IdAfter(old(ex.reqId), j + 1), stats[j])
        invariant net.faults == old(net.faults) && Fairly(net.fate, ex.timeout, None, start, net.Counts())
      {
        IdNext(old(ex.reqId), i, ex.reqId);
        ghost var mid := net.Counts();
        var s;
        r, s := StatOne(peers[i]);
        FairlyJoin(net.fate, ex.timeout, None, start, mid, net.Counts());
        if r.Raise? {
          return;
        }
        stats := stats + [s];
      }
      return Ok, stats;
    }

    /** What every server says of itself now. On one connection a range never moves, so the check that
        follows, which would not condemn the table, always passes. */
    method Stats() returns (r: Outcome, stats: seq<Stat>)
      requires Valid()
      modifies this`failed, ex`reqId, Group(peers)`sock, Group(peers)`armed, Group(peers)`pending,
               Group(peers)`resident, Group(peers)`served, net`now, net`step, net`faults, net`volley, net`sending, net`ready, net`blind
      ensures Valid() && (old(failed) ==> failed && r == Raise(NotUsable))
      ensures old(failed) ==> unchanged(net) && unchanged(Group(peers)) && unchanged(ex)
      ensures !old(failed) ==> (failed <==> r.Raise?) && (r.Raise? <==> net.faults > old(net.faults))
      ensures !old(failed) && r.Raise? ==> r.e == OSError
      ensures Fairly(net.fate, ex.timeout, None, old(net.Counts()), net.Counts())
      // one request and one answer a peer, and what is returned and kept is what the answer says
      ensures r.Ok? ==> |stats| == |peers| && forall i :: 0 <= i < |peers| ==>
                && SameRange(peers[i], stats[i]) && old(peers[i].sock.Some?)
                && peers[i].StatSeen(old(peers[i].sock.value), IdAfter(old(ex.reqId), i + 1), stats[i])
                && peers[i].resident == stats[i].resident && peers[i].served == stats[i].served
    {
      hide Valid, Fits, Peer.Quiet, Member, Fairly, IdAfter, Peer.StatSeen, SameRange, CardOf, Distinct, EncodeReq;
      stats := [];
      if failed {
        FairlyStays(net.fate, ex.timeout, None, net.Counts());
        return Raise(NotUsable), [];
      }
      ghost var cards := Cards();
      r, stats := StatAll();
      failed := r.Raise?;
      ValidAgain(cards);
      if r.Ok? {
        r := CheckRanges(stats);
        ValidAgain(cards);
      }
    }

    method CheckRanges(stats: seq<Stat>) returns (r: Outcome)
      requires Distinct(peers) && |stats| == |peers| && forall i :: 0 <= i < |peers| ==> SameRange(peers[i], stats[i])
      modifies Group(peers)`resident, Group(peers)`served
      ensures r.Ok?
      ensures forall i :: 0 <= i < |peers| ==>
                peers[i].resident == stats[i].resident && peers[i].served == stats[i].served
    {
      for i := 0 to |peers|
        invariant forall j :: 0 <= j < i ==>
                    peers[j].resident == stats[j].resident && peers[j].served == stats[j].served
      {
        r := ex.CheckRange(peers[i], stats[i]);
        if r.Raise? {
          return;
        }
      }
      return Ok;
    }

    method Close()
      requires Valid()
      modifies this`failed, Group(peers)`sock, Group(peers)`pending
      ensures Valid() && failed && forall i :: 0 <= i < |peers| ==> peers[i].sock.None?
    {
      hide Tiles, Distinct, Member, Peer.Quiet;
      ghost var rs := RangesOf(peers);
      CloseAll();
      failed := true;
      assert RangesOf(peers) == rs;
    }
  }
}
