/** From the checkpoint to the caller: export, serve and gather composed. */
module EndToEnd {
  import opened Bytes
  import opened Wire
  import opened Protocol
  import opened Network
  import opened Peers
  import opened Routing
  import opened Tables
  import E = Exporter
  import R = RowServer

  /** Row r of the checkpoint's table: row r % ROWS_PER_SHARD of shard r / ROWS_PER_SHARD,
      wherever in the file that shard is. */
  function CheckpointRow(file: seq<Byte>, shards: E.ShardMap, r: nat): seq<Byte> {
    var sh, local := r / E.ROWS_PER_SHARD, r % E.ROWS_PER_SHARD;
    if sh in shards && shards[sh].begin + (local + 1) * ROW_BYTES <= |file| then
      file[shards[sh].begin + local * ROW_BYTES..shards[sh].begin + (local + 1) * ROW_BYTES]
    else []
  }

  function Checkpoint(file: seq<Byte>, shards: E.ShardMap): RowMap {
    (r: nat) => CheckpointRow(file, shards, r)
  }

  /** The logical bytes of a row are one slice of the file. */
  lemma RowIsOneSlice(file: seq<Byte>, shards: E.ShardMap, r: nat, row: seq<Byte>)
    requires |row| == ROW_BYTES
    ensures E.Emits(file, shards, r * ROW_BYTES, row) <==> row == CheckpointRow(file, shards, r)
  {
    hide E.Has, E.Logical;
    var sh, local := r / E.ROWS_PER_SHARD, r % E.ROWS_PER_SHARD;
    var x := r * ROW_BYTES;
    E.RowToByte(r, sh, local);
    if E.Emits(file, shards, x, row) {
      assert E.IsLogical(file, shards, x + 0, row[0]);
      assert E.IsLogical(file, shards, x + (ROW_BYTES - 1), row[ROW_BYTES - 1]);
    }
    if sh in shards {
      E.ReadIsLogical(file, shards, sh, local * ROW_BYTES, ROW_BYTES);
      if shards[sh].begin + (local + 1) * ROW_BYTES <= |file| && E.Emits(file, shards, x, row) {
        E.RangeIsUnique(file, shards, r, 1, row, CheckpointRow(file, shards, r));
      }
    } else {
      E.NoSuchShard(file, shards, x);
    }
  }

  /** A part of the bytes of a range is the range of a part. */
  lemma RowOfRange(file: seq<Byte>, shards: E.ShardMap, start: nat, count: nat, flat: seq<Byte>, k: nat)
    requires E.IsRange(file, shards, start, count, flat) && k < count
    ensures (k + 1) * ROW_BYTES <= |flat|
    ensures flat[k * ROW_BYTES..(k + 1) * ROW_BYTES] == CheckpointRow(file, shards, start + k)
  {
    hide E.IsLogical;
    var row := flat[k * ROW_BYTES..(k + 1) * ROW_BYTES];
    forall i | 0 <= i < |row|
      ensures E.IsLogical(file, shards, (start + k) * ROW_BYTES + i, row[i])
    {
      assert row[i] == flat[k * ROW_BYTES + i];
    }
    RowIsOneSlice(file, shards, start + k, row);
  }

  /** A server holds the right bytes for the range it announces exactly if its file is that range
      of the checkpoint as the exporter writes it. */
  lemma {:induction false} ConformsIffExported(file: seq<Byte>, shards: E.ShardMap, cfg: Config)
    requires cfg.Valid()
    ensures Conforms(cfg, Checkpoint(file, shards)) <==> E.IsRange(file, shards, cfg.base, cfg.count, cfg.table)
  {
    hide E.IsLogical, CheckpointRow;
    if E.IsRange(file, shards, cfg.base, cfg.count, cfg.table) {
      forall id: nat | cfg.base <= id < cfg.base + cfg.count
        ensures RowAt(cfg, id) == Checkpoint(file, shards)(id)
      {
        RowOfRange(file, shards, cfg.base, cfg.count, cfg.table, id - cfg.base);
      }
    }
    if Conforms(cfg, Checkpoint(file, shards)) {
      forall i | 0 <= i < |cfg.table|
        ensures E.IsLogical(file, shards, cfg.base * ROW_BYTES + i, cfg.table[i])
      {
        var id := cfg.base + i / ROW_BYTES;
        assert cfg.Owns(id);
        var row := RowAt(cfg, id);
        assert row == CheckpointRow(file, shards, id);
        RowIsOneSlice(file, shards, id, row);
        assert row[i % ROW_BYTES] == cfg.table[i];
        assert id * ROW_BYTES + i % ROW_BYTES == cfg.base * ROW_BYTES + i;
      }
    }
  }

  /** Export a range and serve it: the startup checks pass, and the rows are the checkpoint's. */
  method Publish(file: seq<Byte>, shards: E.ShardMap, base: nat, count: nat, block: nat, maxRows: nat)
    returns (cfg: Option<Config>)
    requires block > 0 && 1 <= maxRows <= MAX_MAX_ROWS && 0 < count && base + count <= TWO32 - 1
    ensures cfg.Some? <==> E.Complete(file, shards, base, count)
    ensures cfg.Some? ==>
              && cfg.value.Valid() && cfg.value.base == base && cfg.value.count == count && cfg.value.maxRows == maxRows
              && Conforms(cfg.value, Checkpoint(file, shards))
  {
    hide E.Complete, E.Emits, Conforms;
    var w, half := E.Export(file, shards, base, count, block);
    if !w.Finished? {
      return None;
    }
    ConformsIffExported(file, shards, Config(base, count, half, maxRows));
    return Some(Config(base, count, half, maxRows));
  }

  // ------------------------------------------------------------- deployment

  /** Every shard lies inside the file. */
  predicate Whole(file: seq<Byte>, shards: E.ShardMap) {
    forall i :: i in shards ==> shards[i].begin + E.SPAN <= |file|
  }

  lemma InsideTheTable(split: seq<Range>, total: nat, i: nat)
    requires Tiles(split, total) && i < |split| && split[i].count > 0
    ensures split[i].base + split[i].count <= total
  {
    var last := split[i].base + split[i].count - 1;
    OwnersAtLeast(split, i, last);
    assert Owners(split, last) == One(0 <= last < total);
  }

  /** One server for each part of a split of the table. */
  ghost predicate Published(file: seq<Byte>, shards: E.ShardMap, split: seq<Range>, maxRows: nat, cfgs: seq<Config>) {
    && |cfgs| == |split|
    && forall i :: 0 <= i < |cfgs| ==>
         && cfgs[i].Valid() && cfgs[i].base == split[i].base && cfgs[i].count == split[i].count
         && cfgs[i].maxRows == maxRows && Conforms(cfgs[i], Checkpoint(file, shards))
  }

  lemma OnePublishedMore(file: seq<Byte>, shards: E.ShardMap, split: seq<Range>, maxRows: nat, cfgs: seq<Config>,
                         cfg: Config, i: nat)
    requires i < |split| && Published(file, shards, split[..i], maxRows, cfgs)
    requires cfg.Valid() && cfg.base == split[i].base && cfg.count == split[i].count
    requires cfg.maxRows == maxRows && Conforms(cfg, Checkpoint(file, shards))
    ensures Published(file, shards, split[..i + 1], maxRows, cfgs + [cfg])
  {
    hide Conforms, Checkpoint;
    assert split[..i + 1] == split[..i] + [split[i]];
  }

  /** Export every part and serve it: of a sound checkpoint and a split that tiles its table,
      every part can be. */
  method PublishAll(file: seq<Byte>, shards: E.ShardMap, split: seq<Range>, total: nat, block: nat, maxRows: nat)
    returns (cfgs: seq<Config>)
    requires block > 0 && 1 <= maxRows <= MAX_MAX_ROWS && E.Checked(shards) && Whole(file, shards)
    requires NonEmpty(split) && Tiles(split, total) && total <= E.N_SHARDS * E.ROWS_PER_SHARD
    ensures Published(file, shards, split, maxRows, cfgs)
  {
    hide E.Checked, E.Complete, Tiles, Conforms, Checkpoint;
    cfgs := [];
    for i := 0 to |split|
      invariant Published(file, shards, split[..i], maxRows, cfgs)
    {
      InsideTheTable(split, total, i);
      E.WhenComplete(file, shards, split[i].base, split[i].count);
      var cfg := Publish(file, shards, split[i].base, split[i].count, block, maxRows);
      OnePublishedMore(file, shards, split, maxRows, cfgs, cfg.value, i);
      cfgs := cfgs + [cfg.value];
    }
    assert split[..|split|] == split;
  }

  /** The servers of an address: any of the published ones, by their numbers. */
  function Hosted(cfgs: seq<Config>, at: seq<nat>): seq<Config> {
    if at == [] then []
    else (if at[0] < |cfgs| then [cfgs[at[0]]] else []) + Hosted(cfgs, at[1..])
  }

  lemma {:induction false} HostedArePublished(cfgs: seq<Config>, at: seq<nat>, i: nat)
    requires i < |Hosted(cfgs, at)|
    ensures Hosted(cfgs, at)[i] in cfgs
  {
    var head := if at[0] < |cfgs| then [cfgs[at[0]]] else [];
    if i >= |head| {
      HostedArePublished(cfgs, at[1..], i - |head|);
    }
  }

  /** Published servers, wherever they run, make an honest world. */
  method Deploy(file: seq<Byte>, shards: E.ShardMap, ghost split: seq<Range>, ghost maxRows: nat, cfgs: seq<Config>,
                at: nat -> seq<nat>)
    returns (world: HonestWorld)
    requires Published(file, shards, split, maxRows, cfgs)
    ensures world.truth == Checkpoint(file, shards)
    ensures forall addr :: world.servers(addr) == Hosted(cfgs, at(addr))
  {
    hide Conforms, Checkpoint, Hosted;
    var w := World(Checkpoint(file, shards), (addr: nat) => Hosted(cfgs, at(addr)));
    forall addr: nat, i: nat | i < |w.servers(addr)|
      ensures Conforms(w.servers(addr)[i], w.truth)
    {
      HostedArePublished(cfgs, at(addr), i);
    }
    return w;
  }

  /** Server i runs at address i and nowhere else, and the client knows those addresses. */
  ghost predicate AsPlanned(split: seq<Range>, at: nat -> seq<nat>, addrs: seq<nat>) {
    && |addrs| == |split| && (forall i :: 0 <= i < |addrs| ==> addrs[i] == i)
    && forall i: nat :: i < |split| ==> at(i) == [i]
  }

  method Parse(net: Net, addrs: seq<nat>) returns (peers: seq<Peer>)
    ensures |peers| == |addrs| && Distinct(peers)
    ensures forall i :: 0 <= i < |peers| ==>
              && fresh(peers[i]) && peers[i].net == net && peers[i].addr == addrs[i]
              && peers[i].sock.None? && peers[i].pending.None? && peers[i].deadline.None?
              && peers[i].cap == 0 && peers[i].reqIds == [] && peers[i].rows == []
  {
    peers := [];
    for i := 0 to |addrs|
      invariant |peers| == i && Distinct(peers)
      invariant forall j :: 0 <= j < i ==>
                  && fresh(peers[j]) && peers[j].net == net && peers[j].addr == addrs[j]
                  && peers[j].sock.None? && peers[j].pending.None? && peers[j].deadline.None?
                  && peers[j].cap == 0 && peers[j].reqIds == [] && peers[j].rows == []
    {
      var p := new Peer(net, addrs[i]);
      peers := peers + [p];
    }
  }

  lemma OneServerEach(cfgs: seq<Config>, i: nat)
    requires i < |cfgs|
    ensures Hosted(cfgs, [i]) == [cfgs[i]]
  {
    assert [i][1..] == [];
    assert Hosted(cfgs, []) == [];
  }

  /** As planned, a peer can only go by the range of the part it was meant for. */
  lemma GoesByItsPart(file: seq<Byte>, shards: E.ShardMap, split: seq<Range>, maxRows: nat, cfgs: seq<Config>,
                      at: nat -> seq<nat>, addrs: seq<nat>, table: Table, p: Peer, i: nat)
    requires Published(file, shards, split, maxRows, cfgs) && AsPlanned(split, at, addrs) && i < |split| && p.addr == i
    requires forall addr :: p.net.world.servers(addr) == Hosted(cfgs, at(addr))
    requires table.Announced(p)
    ensures Range(p.baseRow, p.rowCount) == split[i]
    ensures Keeps(p.net.world, p.addr, p.baseRow, p.rowCount, maxRows)
  {
    hide Conforms, Hosted;
    OneServerEach(cfgs, i);
    assert p.net.world.servers(i) == [cfgs[i]];
    var cfg :| cfg in p.net.world.servers(p.addr) && cfg.base == p.baseRow && cfg.count == p.rowCount;
  }

  /** Everything the client's side of a deployment is given: the addresses, its limits and times. */
  datatype Client = Client(addrs: seq<nat>, maxRows: nat, timeout: nat, connectTimeout: nat, connectDeadline: nat,
                           gatherDeadline: nat)

  /** The table a client builds on a deployment, opened. */
  method Connect(net: Net, total: nat, client: Client) returns (table: Table, r: Outcome, ghost parsed: seq<Peer>)
    requires client.addrs != [] && client.maxRows < TWO32
    modifies net
    ensures fresh(table) && fresh(table.ex) && fresh(table.staging) && fresh(Group(table.peers))
    ensures table.net == table.ex.net == net && table.rowsTotal == total && table.maxRows == client.maxRows
    ensures table.ex.timeout == client.timeout && table.ex.gatherDeadline == client.gatherDeadline
    ensures |parsed| == |client.addrs| && multiset(parsed) == multiset(table.peers)
    ensures forall i :: 0 <= i < |parsed| ==> parsed[i].net == net && parsed[i].addr == client.addrs[i]
    ensures r.Ok? ==> table.Valid() && !table.failed
    ensures r.Ok? || r.e == ProtocolError(BadSplit) ==> forall i :: 0 <= i < |parsed| ==> table.Announced(parsed[i])
    ensures r.Raise? ==> || (r.e == OSError && table.ex.Excused(old(net.faults), old(net.now) + client.connectDeadline))
                         || (r.e == ProtocolError(BadSplit) && !Tiles(RangesOf(parsed), total))
    ensures Fairly(net.fate, client.timeout, Some(old(net.now) + client.connectDeadline), old(net.Counts()), net.Counts())
    ensures net.Paused()
  {
    hide Table.Valid, Table.Announced, Tiles, RangesOf, Fairly, PausedWell;
    var peers := Parse(net, client.addrs);
    table := new Table(net, peers, total, ROW_BYTES, client.maxRows, client.timeout, client.connectTimeout, client.gatherDeadline);
    r := table.Open(client.connectDeadline);
    parsed := peers;
    SamePeers(parsed, table.peers);
    if r.Ok? || r.e == ProtocolError(BadSplit) {
      forall i | 0 <= i < |parsed|
        ensures table.Announced(parsed[i])
      {
        assert parsed[i] in multiset(table.peers);
        var j :| 0 <= j < |table.peers| && table.peers[j] == parsed[i];
      }
    }
  }

  lemma SamePeers(a: seq<Peer>, b: seq<Peer>)
    requires multiset(a) == multiset(b)
    ensures Group(a) == Group(b) && |a| == |b|
  {
    assert |a| == |multiset(a)| && |b| == |multiset(b)|;
    forall p | p in Group(a)
      ensures p in Group(b)
    {
      assert p in multiset(a);
    }
    forall p | p in Group(b)
      ensures p in Group(a)
    {
      assert p in multiset(b);
    }
  }

  /** On a deployment as planned the client finds the split that was published. */
  lemma FindsTheSplit(file: seq<Byte>, shards: E.ShardMap, split: seq<Range>, maxRows: nat, cfgs: seq<Config>,
                      at: nat -> seq<nat>, addrs: seq<nat>, table: Table, parsed: seq<Peer>)
    requires Published(file, shards, split, maxRows, cfgs) && AsPlanned(split, at, addrs) && |parsed| == |addrs|
    requires forall i :: 0 <= i < |parsed| ==>
               parsed[i].addr == addrs[i] && parsed[i].net == table.net && table.Announced(parsed[i])
    requires forall addr :: table.net.world.servers(addr) == Hosted(cfgs, at(addr))
    requires multiset(parsed) == multiset(table.peers) && table.maxRows <= maxRows
    ensures RangesOf(parsed) == split && table.Steady()
  {
    hide Published, Hosted, Table.Announced;
    forall i | 0 <= i < |parsed|
      ensures RangesOf(parsed)[i] == split[i]
      ensures Keeps(table.net.world, parsed[i].addr, parsed[i].baseRow, parsed[i].rowCount, maxRows)
    {
      GoesByItsPart(file, shards, split, maxRows, cfgs, at, addrs, table, parsed[i], i);
    }
    forall j | 0 <= j < |table.peers|
      ensures Keeps(table.net.world, table.peers[j].addr, table.peers[j].baseRow, table.peers[j].rowCount, table.maxRows)
    {
      assert table.peers[j] in multiset(parsed);
      var i :| 0 <= i < |parsed| && parsed[i] == table.peers[j];
    }
  }

  /** Whether a table is steady is a matter of its ranges. */
  ghost predicate SteadyRanges(world: World, peers: seq<Peer>, rs: seq<Range>, maxRows: nat) {
    |rs| == |peers| && forall i :: 0 <= i < |peers| ==> Keeps(world, peers[i].addr, rs[i].base, rs[i].count, maxRows)
  }

  lemma SteadyByRanges(table: Table)
    ensures table.Steady() <==> SteadyRanges(table.net.world, table.peers, RangesOf(table.peers), table.maxRows)
  {
  }

  /** Why a client that was given a deployment may come back without rows. If it got as far as to
      gather, it began to at `began`. */
  ghost predicate Explained(e: Exc, net: Net, client: Client, ids: seq<int>, total: nat, planned: bool,
                            began: Option<Book>)
    reads net
  {
    match e
    case OSError =>
      || client.timeout == 0
      || (if began.None? then net.faults > 0 || net.now >= client.connectDeadline
          else net.faults >= GATHER_ATTEMPTS || net.now >= began.value.now + client.gatherDeadline)
    case IndexError(first) => first < |ids| && !(0 <= ids[first] < total)
    case ValueError => |ids| > client.maxRows
    case ProtocolError(_) => !planned
    case NotUsable => false
  }

  ghost predicate OpensFairly(fate: nat -> Fate, client: Client, b: Book) {
    var a := Book(0, 0, 0, 0, 0);
    Fairly(fate, client.timeout, Some(client.connectDeadline), a, b) && PausedWell(a, b)
  }

  /** Ids of the table, no more than one request may carry. */
  ghost predicate Proper(client: Client, ids: seq<int>, total: nat) {
    |ids| <= client.maxRows && forall j :: 0 <= j < |ids| ==> 0 <= ids[j] < total
  }

  ghost predicate GoesWell(fate: nat -> Fate, client: Client, a: Book, b: Book) {
    || (b.faults <= a.faults + 2 && Charge(fate, a, b) < client.gatherDeadline)
    || Calm(fate, a.step, client.timeout, client.gatherDeadline)
  }

  /** The whole way. Of any sound checkpoint, wherever its shards lie, cut any split that tiles the
      table into files, serve them from any addresses, let faults fall as they may: if a client gets
      rows at all, then for id r it gets row r % ROWS_PER_SHARD of shard r / ROWS_PER_SHARD. If every
      server is where it should be, it gets them unless the network or its own arguments are to blame. */
  method GatherFromCheckpoint(file: seq<Byte>, shards: E.ShardMap, split: seq<Range>, total: nat, block: nat, maxRows: nat,
                              at: nat -> seq<nat>, fate: nat -> Fate, client: Client, ids: seq<int>)
    returns (net: Net, r: Outcome, out: seq<seq<Byte>>, ghost began: Option<Book>)
    requires block > 0 && 1 <= maxRows <= MAX_MAX_ROWS && E.Checked(shards) && Whole(file, shards)
    requires NonEmpty(split) && Tiles(split, total) && total <= E.N_SHARDS * E.ROWS_PER_SHARD
    requires client.addrs != [] && client.maxRows < TWO32
    ensures fresh(net)
    ensures r.Ok? ==> |out| == |ids|
    ensures r.Ok? ==> forall j :: 0 <= j < |ids| ==> 0 <= ids[j] < total && out[j] == CheckpointRow(file, shards, ids[j])
    ensures r.Raise? ==>
              Explained(r.e, net, client, ids, total, AsPlanned(split, at, client.addrs) && client.maxRows <= maxRows, began)
    ensures began.Some? && r.Ok? ==> net.now <= began.value.now + client.gatherDeadline
    // it does not get as far as to gather only if calls fail, or delays and pauses use up the time
    ensures began.None? ==> r.Raise? && OpensFairly(fate, client, net.Counts())
    // and once it does, it gets its rows with at most two faults and time enough, or if nothing fails
    ensures began.Some? && AsPlanned(split, at, client.addrs) && client.maxRows <= maxRows && client.timeout > 0 ==>
              Proper(client, ids, total) && GoesWell(fate, client, began.value, net.Counts()) ==> r.Ok?
  {
    hide E.Checked, Conforms, Tiles, Table.Valid, Table.Announced, Table.Steady, Hosted, Published, RangesOf,
         SteadyRanges, CheckpointRow, AsPlanned, Fairly, PausedWell, Calm, Charge, TooMany;
    out, began := [], None;
    var cfgs := PublishAll(file, shards, split, total, block, maxRows);
    var world := Deploy(file, shards, split, maxRows, cfgs, at);
    net := new Net(fate, world);
    var table;
    ghost var parsed;
    table, r, parsed := Connect(net, total, client);
    ghost var planned := AsPlanned(split, at, client.addrs) && client.maxRows <= maxRows;
    if planned && (r.Ok? || r.e == ProtocolError(BadSplit)) {
      FindsTheSplit(file, shards, split, maxRows, cfgs, at, client.addrs, table, parsed);
    }
    if r.Raise? {
      return;
    }
    began := Some(net.Counts());
    SteadyByRanges(table);
    table.NotTooMany(ids, RangesOf(table.peers), client.maxRows);
    r, out := table.Gather(ids);
    SteadyByRanges(table);
  }

  /** Wherever a client waits for bytes, it has sent whole requests and no others, so all it can be
      given is what the serving loop writes for them: between gathers, before the header and within
      the body of an answer. */
  lemma ServedByTheLoop(c: R.Conn, p: Peer, k: nat)
    requires p.Quiet() || p.Asked(k) || p.Reading(k)
    requires !p.sock.value.oom && c.input <= p.sock.value.sent
    requires R.Delivered(c, p.sock.value.cfg, p.sock.value.aux)
    ensures c.out <= Emitted(p.sock.value)
  {
    hide R.Delivered, Emitted;
    R.WritesWhatTheClientReads(c, p.sock.value);
  }
}
