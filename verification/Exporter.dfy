/** Exporting a global row range out of a checkpoint whose shards lie anywhere in the file. */
module Exporter {
  import opened Bytes
  import opened Wire

  const ROWS_PER_SHARD: nat := 2500012
  const N_SHARDS: nat := 128
  const SPAN: nat := ROWS_PER_SHARD * ROW_BYTES

  datatype Shard = Shard(begin: nat, end: nat, rows: nat, cols: nat, dtype: string)

  type ShardMap = map<int, Shard>

  predicate GoodShard(s: Shard) {
    && s.rows == ROWS_PER_SHARD && s.cols == ROW_BYTES
    && (s.dtype == "F8_E4M3" || s.dtype == "F8_E4M3FN")
    && s.end - s.begin == SPAN
  }

  lemma {:induction false} HowMany(s: set<int>, n: nat)
    requires forall i :: i in s <==> 0 <= i < n
    ensures |s| == n
  {
    if n > 0 {
      HowMany(s - {n - 1}, n - 1);
    } else {
      assert forall i :: i !in s;
    }
  }

  /** n keys that include 0..n-1 include nothing else. */
  lemma NoOthers(s: set<int>, n: nat)
    requires |s| == n && forall i :: 0 <= i < n ==> i in s
    ensures forall i :: i in s ==> 0 <= i < n
  {
    var low := set i | i in s && 0 <= i < n;
    HowMany(low, n);
    assert s == low + (s - low);
    assert |s - low| == 0;
  }

  /** What the header check promises: every shard is there, none else, and each is the right size. */
  predicate Checked(shards: ShardMap) {
    && (forall i :: i in shards ==> 0 <= i < N_SHARDS && GoodShard(shards[i]))
    && forall i :: 0 <= i < N_SHARDS ==> i in shards
  }

  /** In plain numbers: 128 entries, and among them numbers 0 to 127, each 2500012 rows of 160 one-byte
      floats, and exactly that many bytes long. */
  lemma CheckedInNumbers(shards: ShardMap)
    ensures Checked(shards) <==>
            |shards| == 128 && forall i :: 0 <= i < 128 ==>
              && i in shards && shards[i].rows == 2_500_012 && shards[i].cols == 160
              && shards[i].dtype in {"F8_E4M3", "F8_E4M3FN"} && shards[i].end - shards[i].begin == 400_001_920
  {
    assert |shards| == |shards.Keys|;
    if Checked(shards) {
      HowMany(shards.Keys, 128);
    } else if |shards| == 128 && forall i :: 0 <= i < 128 ==> i in shards {
      NoOthers(shards.Keys, 128);
    }
  }

  method Check(shards: ShardMap) returns (ok: bool)
    ensures ok <==> Checked(shards)
  {
    hide GoodShard;
    if |shards| != N_SHARDS {
      if Checked(shards) {
        HowMany(shards.Keys, N_SHARDS);
      }
      return false;
    }
    assert |shards.Keys| == N_SHARDS;
    for i := 0 to N_SHARDS
      invariant forall j :: 0 <= j < i ==> j in shards && GoodShard(shards[j])
    {
      if i !in shards {
        return false;
      }
      if !GoodShard(shards[i]) {
        return false;
      }
    }
    NoOthers(shards.Keys, N_SHARDS);
    return true;
  }

  // ----------------------------------------------------------- logical bytes

  /** Byte x of the whole table is at offset x % SPAN of shard x / SPAN, if that is in the file. */
  predicate Has(file: seq<Byte>, shards: ShardMap, x: int) {
    x / SPAN in shards && shards[x / SPAN].begin + x % SPAN < |file|
  }

  function Logical(file: seq<Byte>, shards: ShardMap, x: int): Byte
    requires Has(file, shards, x)
  {
    file[shards[x / SPAN].begin + x % SPAN]
  }

  predicate Complete(file: seq<Byte>, shards: ShardMap, start: int, count: int) {
    CompleteUpTo(file, shards, start * ROW_BYTES, (start + count) * ROW_BYTES)
  }

  predicate CompleteUpTo(file: seq<Byte>, shards: ShardMap, from: int, to: int) {
    forall x :: from <= x < to ==> Has(file, shards, x)
  }

  predicate IsLogical(file: seq<Byte>, shards: ShardMap, x: int, v: Byte) {
    Has(file, shards, x) && v == Logical(file, shards, x)
  }

  /** e is what the table holds from byte `from` on. */
  predicate Emits(file: seq<Byte>, shards: ShardMap, from: int, e: seq<Byte>) {
    forall i :: 0 <= i < |e| ==> IsLogical(file, shards, from + i, e[i])
  }

  // ------------------------------------------------------------------ sinks

  /** One printed digest line. The hash itself is left open. */
  datatype Line<D> = Line(idx: nat, digest: D, len: nat)

  /** A digest of every block of a stream, the last one possibly short. */
  function Lines<D>(h: seq<Byte> -> D, idx: nat, s: seq<Byte>, block: nat): seq<Line<D>>
    requires block > 0
    decreases |s|
  {
    if s == [] then []
    else
      var n := if |s| < block then |s| else block;
      [Line(idx, h(s[..n]), n)] + Lines(h, idx + 1, s[n..], block)
  }

  lemma LinesNext<D>(h: seq<Byte> -> D, idx: nat, s: seq<Byte>, block: nat)
    requires block > 0 && s != []
    ensures var n := if |s| < block then |s| else block;
            Lines(h, idx, s, block) == [Line(idx, h(s[..n]), n)] + Lines(h, idx + 1, s[n..], block)
  {
  }

  lemma LinesStep<D>(h: seq<Byte> -> D, idx: nat, s: seq<Byte>, block: nat)
    requires 0 < block <= |s|
    ensures Lines(h, idx, s, block) == [Line(idx, h(s[..block]), block)] + Lines(h, idx + 1, s[block..], block)
  {
  }

  lemma {:induction false} LinesAppend<D>(h: seq<Byte> -> D, idx: nat, a: seq<Byte>, b: seq<Byte>, block: nat, n: nat)
    requires block > 0 && |a| == n * block
    ensures Lines(h, idx, a + b, block) == Lines(h, idx, a, block) + Lines(h, idx + n, b, block)
    decreases n
  {
    hide Lines;
    if n == 0 {
      assert a == [] && a + b == b;
      LinesOfNothing(h, idx, block);
    } else {
      assert |a| == (n - 1) * block + block >= block;
      LinesAppend(h, idx + 1, a[block..], b, block, n - 1);
      assert (a + b)[..block] == a[..block];
      assert (a + b)[block..] == a[block..] + b;
      LinesStep(h, idx, a, block);
      LinesStep(h, idx, a + b, block);
    }
  }

  lemma LinesOfNothing<D>(h: seq<Byte> -> D, idx: nat, block: nat)
    requires block > 0
    ensures Lines(h, idx, [], block) == []
  {
  }

  /** Digest lines tell streams apart as far as the hash does. */
  lemma {:induction false} LinesTellApart<D>(h: seq<Byte> -> D, idx: nat, a: seq<Byte>, b: seq<Byte>, block: nat)
    requires block > 0 && Lines(h, idx, a, block) == Lines(h, idx, b, block)
    requires forall x, y :: h(x) == h(y) ==> x == y
    ensures a == b
    decreases |a|
  {
    if a == [] {
      assert Lines(h, idx, a, block) == [];
    } else {
      var la, lb := Lines(h, idx, a, block), Lines(h, idx, b, block);
      var n := la[0].len;
      assert b != [] && lb[0].len == n && a[..n] == b[..n];
      assert la[1..] == Lines(h, idx + 1, a[n..], block) && lb[1..] == Lines(h, idx + 1, b[n..], block);
      LinesTellApart(h, idx + 1, a[n..], b[n..], block);
      assert a == a[..n] + a[n..] && b == b[..n] + b[n..];
    }
  }

  /** Where the walk puts its bytes: straight out, or through the re-blocking digest. */
  class Sink<D> {
    const h: seq<Byte> -> D
    const block: nat
    const digest: bool
    var out: seq<Byte>
    var buf: seq<Byte>
    var lines: seq<Line<D>>
    /** What the running total has been fed. */
    var hashed: seq<Byte>
    /** Everything handed over so far. */
    ghost var stream: seq<Byte>

    constructor (h: seq<Byte> -> D, block: nat, digest: bool)
      requires block > 0
      ensures Valid() && this.h == h && this.block == block && this.digest == digest && stream == []
    {
      this.h, this.block, this.digest := h, block, digest;
      out, buf, lines, hashed, stream := [], [], [], [], [];
    }

    ghost predicate Valid()
      reads this
    {
      && block > 0
      && (if digest then
            out == [] && Reblocked(buf) && |buf| < block
          else
            out == stream && buf == [] && lines == [] && hashed == [])
    }

    ghost predicate Reblocked(rest: seq<Byte>)
      requires block > 0
      reads this
    {
      && stream == hashed + rest && |hashed| == |lines| * block
      && lines == Lines(h, 0, hashed, block)
    }

    method Take(b: seq<Byte>)
      requires Valid()
      modifies this
      ensures Valid() && stream == old(stream) + b
    {
      hide Lines;
      stream := stream + b;
      if !digest {
        out := out + b;
        return;
      }
      buf := buf + b;
      assert old(stream) + b == hashed + buf;
      while |buf| >= block
        invariant digest && block > 0 && out == [] && stream == old(stream) + b && Reblocked(buf)
      {
        var chunk := buf[..block];
        assert hashed + buf == (hashed + chunk) + buf[block..];
        LinesAppend(h, 0, hashed, chunk, block, |lines|);
        OneLine(h, |lines|, chunk, block);
        buf := buf[block..];
        lines := lines + [Line(|lines|, h(chunk), |chunk|)];
        hashed := hashed + chunk;
      }
    }

    /** The short last block and the total. */
    method Finish() returns (total: D)
      requires Valid() && digest
      modifies this
      ensures lines == Lines(h, 0, stream, block) && total == h(stream) && stream == old(stream)
    {
      hide Lines;
      if buf != [] {
        LinesAppend(h, 0, hashed, buf, block, |lines|);
        OneLine(h, |lines|, buf, block);
        lines := lines + [Line(|lines|, h(buf), |buf|)];
        hashed := hashed + buf;
      }
      assert hashed == stream;
      return h(hashed);
    }
  }

  lemma OneLine<D>(h: seq<Byte> -> D, idx: nat, s: seq<Byte>, block: nat)
    requires 0 < |s| <= block
    ensures Lines(h, idx, s, block) == [Line(idx, h(s), |s|)]
  {
    assert s[..|s|] == s && s[|s|..] == [];
  }

  /** --digest-plain: the same lines, straight off a flat file. */
  method DigestPlain<D>(h: seq<Byte> -> D, file: seq<Byte>, block: nat) returns (lines: seq<Line<D>>, total: D)
    requires block > 0
    ensures lines == Lines(h, 0, file, block) && total == h(file)
  {
    hide Lines;
    var pos, idx, hashed := 0, 0, [];
    lines := [];
    assert file[0..] == file;
    while true
      invariant 0 <= pos <= |file| && hashed == file[..pos] && idx == |lines|
      invariant Lines(h, 0, file, block) == lines + Lines(h, idx, file[pos..], block)
      decreases |file| - pos
    {
      var n := if |file| - pos < block then |file| - pos else block;
      var buf := file[pos..pos + n];
      if buf == [] {
        break;
      }
      LinesNext(h, idx, file[pos..], block);
      assert file[pos..][..n] == buf && file[pos..][n..] == file[pos + n..];
      lines := lines + [Line(idx, h(buf), |buf|)];
      hashed, idx, pos := hashed + buf, idx + 1, pos + n;
    }
    assert file[..pos] == file && file[pos..] == [];
    LinesOfNothing(h, idx, block);
    return lines, h(hashed);
  }

  // ------------------------------------------------------------------- walk

  datatype Walk = Finished | NoShard(sh: int) | ShortRead(pos: nat)

  /** Byte y of a shard is byte sh * SPAN + y of the table. */
  lemma InShard(sh: int, y: nat)
    requires y < SPAN
    ensures (sh * SPAN + y) / SPAN == sh && (sh * SPAN + y) % SPAN == y
  {
  }

  lemma ReadIsLogical(file: seq<Byte>, shards: ShardMap, sh: int, y: nat, n: nat)
    requires sh in shards && y + n <= SPAN
    ensures shards[sh].begin + y + n <= |file| ==>
              Emits(file, shards, sh * SPAN + y, file[shards[sh].begin + y..shards[sh].begin + y + n])
    ensures n > 0 && shards[sh].begin + y + n > |file| ==> !Has(file, shards, sh * SPAN + y + n - 1)
  {
    if shards[sh].begin + y + n <= |file| {
      var e := file[shards[sh].begin + y..shards[sh].begin + y + n];
      forall i | 0 <= i < |e|
        ensures IsLogical(file, shards, sh * SPAN + y + i, e[i])
      {
        InShard(sh, y + i);
      }
    } else if n > 0 {
      InShard(sh, y + n - 1);
    }
  }

  lemma EmitsMore(file: seq<Byte>, shards: ShardMap, from: int, a: seq<Byte>, b: seq<Byte>)
    requires Emits(file, shards, from, a) && Emits(file, shards, from + |a|, b)
    ensures Emits(file, shards, from, a + b)
  {
    hide IsLogical;
    forall i | 0 <= i < |a + b|
      ensures IsLogical(file, shards, from + i, (a + b)[i])
    {
      if i >= |a| {
        var j := i - |a|;
        assert (a + b)[i] == b[j];
        assert from + |a| + j == from + i;
      }
    }
  }

  /** The part of the walk within one shard: bytes y..y + len of it, a block at a time. */
  method CopySpan<D>(file: seq<Byte>, shards: ShardMap, sh: int, y: nat, len: nat, block: nat, sink: Sink<D>) returns (w: Walk)
    requires sh in shards && y + len <= SPAN && block > 0 && sink.Valid()
    modifies sink
    ensures sink.Valid() && old(sink.stream) <= sink.stream
    ensures Emits(file, shards, sh * SPAN + y, sink.stream[|old(sink.stream)|..])
    ensures w.Finished? ==> |sink.stream| == |old(sink.stream)| + len
    ensures w.Finished? || (w.ShortRead? && exists x :: sh * SPAN + y <= x < sh * SPAN + y + len && !Has(file, shards, x))
  {
    hide IsLogical, Has, Sink.Valid;
    var pos, remaining := shards[sh].begin + y, len;
    ghost var was := sink.stream;
    assert was[|was|..] == [];
    while remaining > 0
      invariant 0 <= remaining <= len && pos == shards[sh].begin + y + len - remaining
      invariant sink.Valid() && was <= sink.stream && |sink.stream| == |was| + len - remaining
      invariant Emits(file, shards, sh * SPAN + y, sink.stream[|was|..])
    {
      var n := if block < remaining then block else remaining;
      var have := if pos >= |file| then 0 else if |file| - pos < n then |file| - pos else n;
      ReadIsLogical(file, shards, sh, y + len - remaining, n);
      if have != n {
        return ShortRead(pos);
      }
      var buf := file[pos..pos + n];
      EmitsMore(file, shards, sh * SPAN + y, sink.stream[|was|..], buf);
      assert (sink.stream + buf)[|was|..] == sink.stream[|was|..] + buf;
      sink.Take(buf);
      pos, remaining := pos + n, remaining - n;
    }
    return Finished;
  }

  /** divmod with its rows turned into bytes. */
  lemma RowToByte(g: int, sh: int, local: int)
    requires sh == g / ROWS_PER_SHARD && local == g % ROWS_PER_SHARD
    ensures g * ROW_BYTES == sh * SPAN + local * ROW_BYTES
    ensures (g * ROW_BYTES) / SPAN == sh
  {
    InShard(sh, local * ROW_BYTES);
  }

  /** iter_range: wherever the shards lie, the bytes handed over are those of the table from row
      `start` on, and all of them exactly if the file has them. */
  method IterRange<D>(file: seq<Byte>, shards: ShardMap, start: int, count: int, block: nat, sink: Sink<D>) returns (w: Walk)
    requires block > 0 && sink.Valid()
    modifies sink
    ensures sink.Valid() && old(sink.stream) <= sink.stream
    ensures Emits(file, shards, start * ROW_BYTES, sink.stream[|old(sink.stream)|..])
    ensures w.Finished? ==> |sink.stream| == |old(sink.stream)| + if count > 0 then count * ROW_BYTES else 0
    ensures w.Finished? <==> Complete(file, shards, start, count)
    ensures w.NoShard? ==> w.sh !in shards
  {
    hide IsLogical, Has, Emits, Sink.Valid;
    var g, end := start, start + count;
    ghost var was := sink.stream;
    EmitsNothing(file, shards, start * ROW_BYTES, was);
    while g < end
      invariant g == start || start <= g <= end
      invariant sink.Valid() && was <= sink.stream && |sink.stream| == |was| + (g - start) * ROW_BYTES
      invariant Emits(file, shards, start * ROW_BYTES, sink.stream[|was|..])
      invariant CompleteUpTo(file, shards, start * ROW_BYTES, g * ROW_BYTES)
      decreases end - g
    {
      var sh, local := g / ROWS_PER_SHARD, g % ROWS_PER_SHARD;
      RowToByte(g, sh, local);
      if sh !in shards {
        NoSuchShard(file, shards, g * ROW_BYTES);
        return NoShard(sh);
      }
      var take := if ROWS_PER_SHARD - local < end - g then ROWS_PER_SHARD - local else end - g;
      ghost var mid := sink.stream;
      w := CopySpan(file, shards, sh, local * ROW_BYTES, take * ROW_BYTES, block, sink);
      EmitsMore(file, shards, start * ROW_BYTES, mid[|was|..], sink.stream[|mid|..]);
      assert sink.stream[|was|..] == mid[|was|..] + sink.stream[|mid|..];
      if !w.Finished? {
        return;
      }
      AllThere(file, shards, g * ROW_BYTES, sink.stream[|mid|..]);
      g := g + take;
    }
    return Finished;
  }

  lemma EmitsNothing(file: seq<Byte>, shards: ShardMap, from: int, s: seq<Byte>)
    ensures Emits(file, shards, from, s[|s|..])
  {
  }

  lemma NoSuchShard(file: seq<Byte>, shards: ShardMap, x: int)
    requires x / SPAN !in shards
    ensures !Has(file, shards, x)
  {
  }

  lemma AllThere(file: seq<Byte>, shards: ShardMap, from: int, e: seq<Byte>)
    requires Emits(file, shards, from, e)
    ensures CompleteUpTo(file, shards, from, from + |e|)
  {
    forall x | from <= x < from + |e|
      ensures Has(file, shards, x)
    {
      assert IsLogical(file, shards, from + (x - from), e[x - from]);
    }
  }

  // ------------------------------------------------------------------- runs

  /** The flat file that holds rows [start, start + count) of the table. */
  predicate IsRange(file: seq<Byte>, shards: ShardMap, start: int, count: int, flat: seq<Byte>) {
    |flat| == (if count > 0 then count * ROW_BYTES else 0) && Emits(file, shards, start * ROW_BYTES, flat)
  }

  lemma RangeIsUnique(file: seq<Byte>, shards: ShardMap, start: int, count: int, a: seq<Byte>, b: seq<Byte>)
    requires IsRange(file, shards, start, count, a) && IsRange(file, shards, start, count, b)
    ensures a == b
  {
    hide Has;
    forall i | 0 <= i < |a|
      ensures a[i] == b[i]
    {
      assert IsLogical(file, shards, start * ROW_BYTES + i, a[i]);
      assert IsLogical(file, shards, start * ROW_BYTES + i, b[i]);
    }
  }

  /** With a checked header the export succeeds exactly for row ranges of the table whose shards
      the file really holds. */
  lemma WhenComplete(file: seq<Byte>, shards: ShardMap, start: int, count: int)
    requires Checked(shards) && forall i :: i in shards ==> shards[i].begin + SPAN <= |file|
    ensures Complete(file, shards, start, count) <==> count <= 0 || 0 <= start <= start + count <= N_SHARDS * ROWS_PER_SHARD
  {
    var from, to := start * ROW_BYTES, (start + count) * ROW_BYTES;
    var all := N_SHARDS * SPAN;
    forall x: int
      ensures Has(file, shards, x) <==> 0 <= x < all
    {
      InShard(x / SPAN, x % SPAN);
    }
    if count > 0 && start < 0 {
      assert !Has(file, shards, from);
    } else if count > 0 && start + count > N_SHARDS * ROWS_PER_SHARD {
      assert !Has(file, shards, to - 1);
    }
  }

  /** --start --count: the rows, raw. */
  method Export(file: seq<Byte>, shards: ShardMap, start: int, count: int, block: nat) returns (w: Walk, out: seq<Byte>)
    requires block > 0
    ensures w.Finished? <==> Complete(file, shards, start, count)
    ensures w.Finished? ==> IsRange(file, shards, start, count, out)
    ensures Emits(file, shards, start * ROW_BYTES, out)
  {
    hide Emits, Complete;
    var sink := new Sink((s: seq<Byte>) => 0, block, false);
    w := IterRange(file, shards, start, count, block, sink);
    assert sink.stream[0..] == sink.stream;
    out := sink.out;
  }

  /** --digest: the lines are those of --digest-plain over the flat file, wherever the shards lie
      and however the walk cuts the bytes up. */
  method DigestRange<D>(h: seq<Byte> -> D, file: seq<Byte>, shards: ShardMap, start: int, count: int, block: nat)
    returns (w: Walk, lines: seq<Line<D>>, total: D)
    requires block > 0
    ensures w.Finished? <==> Complete(file, shards, start, count)
    ensures w.Finished? ==>
              forall flat :: IsRange(file, shards, start, count, flat) ==>
                lines == Lines(h, 0, flat, block) && total == h(flat)
  {
    hide Emits, Complete, Lines;
    var sink := new Sink(h, block, true);
    w := IterRange(file, shards, start, count, block, sink);
    assert sink.stream[0..] == sink.stream;
    lines, total := sink.lines, h(sink.hashed);
    if w.Finished? {
      ghost var stream := sink.stream;
      total := sink.Finish();
      lines := sink.lines;
      forall flat | IsRange(file, shards, start, count, flat)
        ensures flat == stream
      {
        RangeIsUnique(file, shards, start, count, flat, stream);
      }
    }
  }
}
