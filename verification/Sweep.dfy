/** The page cache under the served file, and the sweep that moves its charge to the daemon. */
module Sweep {
  import opened Bytes
  import opened Common
  import opened Wire
  import opened Protocol

  const MIB: nat := 0x10_0000
  const WARM_CHUNK: nat := 64 * MIB
  const MINCORE_PAGES: nat := 0x8000
  const RECHARGE_SLICE_MIB: nat := 1024
  const RECHARGE_MAX_SECS: nat := 600

  // ------------------------------------------------------------- arithmetic

  function Ceil(a: nat, d: nat): nat
    requires d > 0
  {
    (a + d - 1) / d
  }

  lemma NextMultiple(x: nat, d: nat)
    requires d > 0 && x % d == 0
    ensures (x + d) % d == 0 && (x + d) / d == x / d + 1
  {
    assert x + d == (x / d + 1) * d;
    Ratio(x + d, x / d + 1, 0, d);
  }

  /** A multiple of d is inside [0, end) exactly if its quotient is below the count. */
  lemma MultipleBelow(x: nat, end: nat, d: nat)
    requires d > 0 && x % d == 0
    ensures x < end <==> x / d < Ceil(end, d)
    ensures x - d < end <= x ==> Ceil(end, d) == x / d
  {
    var q := x / d;
    assert x == q * d;
    var c := Ceil(end, d);
    var r := (end + d - 1) % d;
    assert end + d - 1 == c * d + r;
    if q >= c {
      MulUp(c, q, d);
    } else {
      MulUp(q + 1, c, d);
    }
    if x - d < end <= x {
      Ratio(end + d - 1, q, end + d - 1 - x, d);
    }
  }

  lemma MultipleOfMultiple(k: nat, m: nat, d: nat)
    requires d > 0 && m % d == 0
    ensures (k * m) % d == 0
  {
    assert m == (m / d) * d;
    assert k * m == (k * (m / d)) * d;
    Ratio(k * m, k * (m / d), 0, d);
  }

  lemma SumOfMultiples(x: nat, y: nat, d: nat)
    requires d > 0 && x % d == 0 && y % d == 0
    ensures (x + y) % d == 0 && (x + y) / d == x / d + y / d
  {
    assert x + y == (x / d + y / d) * d;
    Ratio(x + y, x / d + y / d, 0, d);
  }

  // ------------------------------------------------------------------ pages

  datatype Owner = Ours | Elsewhere

  /** One page of the file: in this process's page table, in the cache, and who is charged. */
  datatype Page = Page(mapped: bool, cached: bool, owner: Owner)

  type Pages = seq<Page>

  function Loaded(p: Page): Page {
    if p.cached then p else p.(cached := true, owner := Ours)
  }

  /** An access through the mapping: a page not in the cache is read in and charged to us. */
  function Faulted(p: Page): Page {
    Loaded(p).(mapped := true)
  }

  /** Eviction skips a page that some process still maps. */
  function Evicted(p: Page): Page {
    if p.mapped then p else p.(cached := false)
  }

  function Marked(ps: Pages, which: nat -> bool, f: Page -> Page): (r: Pages)
    ensures |r| == |ps|
    ensures forall i :: 0 <= i < |ps| ==> r[i] == if which(i) then f(ps[i]) else ps[i]
  {
    seq(|ps|, i requires 0 <= i < |ps| => if which(i) then f(ps[i]) else ps[i])
  }

  /** Nothing left the cache, and only the daemon's own reads brought anything in. */
  predicate Kept(a: Page, b: Page) {
    if a.cached then b.cached && b.owner == a.owner else b.cached ==> b.owner == Ours
  }

  predicate Warmer(a: Pages, b: Pages) {
    |a| == |b| && forall i :: 0 <= i < |a| ==> Kept(a[i], b[i]) && (a[i].mapped ==> b[i].mapped)
  }

  function CachedIn(ps: Pages): nat {
    if ps == [] then 0 else CachedIn(ps[..|ps| - 1]) + if ps[|ps| - 1].cached then 1 else 0
  }

  lemma {:induction false} WarmerHasMore(a: Pages, b: Pages)
    requires Warmer(a, b)
    ensures CachedIn(a) <= CachedIn(b)
  {
    if a != [] {
      WarmerHasMore(a[..|a| - 1], b[..|b| - 1]);
    }
  }

  /** Missing now though it was there before: only pages lo..hi. */
  predicate ColdWithin(a: Pages, b: Pages, lo: nat, hi: nat) {
    |a| == |b| && forall i :: 0 <= i < |a| && a[i].cached && !b[i].cached ==> lo <= i < hi
  }

  // ----------------------------------------------------------------- kernel

  /** What happens at one kernel call: gathers of other threads that came before it, whether
      it fails, pages it touches on its own account, and how long it takes. */
  datatype Whim = Whim(gathers: set<nat>, fails: bool, extra: set<nat>, millis: nat)

  /** Time before call `step` and everything before it. */
  ghost function ClockAt(whim: nat -> Whim, step: nat): nat {
    if step == 0 then 0 else ClockAt(whim, step - 1) + whim(step - 1).millis
  }

  /** An attempt to drop page table entries: when, as which kernel call, of which pages, and how
      many states had been traced by then. */
  datatype Drop = Drop(at: nat, step: nat, lo: nat, hi: nat, seen: nat)

  class Kernel {
    const pageSize: nat
    const mapLen: nat
    const whim: nat -> Whim
    var pages: Pages
    var step: nat
    var clock: nat
    /** Every state a gather could have found, and every page a sweep has touched, in order. */
    ghost var trace: seq<Pages>
    ghost var touched: seq<nat>
    ghost var drops: seq<Drop>

    ghost predicate Valid()
      reads `pages, `step, `clock
    {
      && pageSize > 0 && MIB % pageSize == 0 && |pages| == Ceil(mapLen, pageSize)
      && clock == ClockAt(whim, step)
    }

    constructor (pageSize: nat, mapLen: nat, whim: nat -> Whim, pages: Pages)
      requires pageSize > 0 && MIB % pageSize == 0 && |pages| == Ceil(mapLen, pageSize)
      ensures Valid() && this.pages == pages && this.whim == whim
      ensures this.pageSize == pageSize && this.mapLen == mapLen
      ensures step == 0 && clock == 0 && trace == [] && touched == [] && drops == []
    {
      this.pageSize, this.mapLen, this.whim, this.pages := pageSize, mapLen, whim, pages;
      step, clock, trace, touched, drops := 0, 0, [], [], [];
    }

    /** Gathers that ran since the last call, each a fault on the pages it read. */
    method Gathers()
      requires Valid()
      modifies `pages, `step, `clock
      ensures Valid() && step == old(step) + 1 && clock >= old(clock)
      ensures |pages| == |old(pages)|
      ensures forall i :: 0 <= i < |pages| ==>
                pages[i] == if i in whim(old(step)).gathers then Faulted(old(pages)[i]) else old(pages)[i]
    {
      var w := whim(step);
      pages := Marked(pages, (i: nat) => i in w.gathers, Faulted);
      step, clock := step + 1, clock + w.millis;
    }

    /** madvise(DONTNEED): drop the page table entries. A failed call may have dropped some. */
    method Unmap(lo: nat, hi: nat) returns (ok: bool)
      requires Valid()
      modifies `pages, `step, `clock, `trace, `drops
      ensures Valid() && step == old(step) + 1 && clock >= old(clock)
      ensures drops == old(drops) + [Drop(old(clock), old(step), lo, hi, |old(trace)|)]
      ensures ok == !whim(old(step)).fails
      ensures |pages| == |old(pages)|
      ensures forall i :: 0 <= i < |pages| ==> Kept(old(pages)[i], pages[i])
      ensures ok ==> forall i :: lo <= i < hi && i < |pages| ==> !pages[i].mapped
      ensures trace == old(trace) + [pages]
    {
      var w := whim(step);
      drops := drops + [Drop(clock, step, lo, hi, |trace|)];
      Gathers();
      pages := Marked(pages, (i: nat) => lo <= i < hi && (!w.fails || i in w.extra), (p: Page) => p.(mapped := false));
      trace := trace + [pages];
      return !w.fails;
    }

    /** posix_fadvise(DONTNEED): evict what nobody maps. A failed call may have evicted some. */
    method Evict(lo: nat, hi: nat) returns (ok: bool)
      requires Valid()
      modifies `pages, `step, `clock, `trace
      ensures ok == !whim(old(step)).fails
      ensures Valid() && step == old(step) + 1 && clock >= old(clock)
      ensures |pages| == |old(pages)|
      ensures forall i :: 0 <= i < |pages| && !(lo <= i < hi) ==> Kept(old(pages)[i], pages[i])
      ensures forall i :: 0 <= i < |pages| && (old(pages)[i].mapped || i in whim(old(step)).gathers) ==>
                Kept(old(pages)[i], pages[i])
      ensures forall i :: 0 <= i < |pages| && lo <= i < hi ==> Kept(old(pages)[i], pages[i]) || !pages[i].cached
      ensures ok ==> forall i :: 0 <= i < |pages| && lo <= i < hi ==>
                old(pages)[i].mapped || i in whim(old(step)).gathers || !pages[i].cached
      ensures trace == old(trace) + [pages]
    {
      var w := whim(step);
      Gathers();
      pages := Marked(pages, (i: nat) => lo <= i < hi && (!w.fails || i in w.extra), Evicted);
      trace := trace + [pages];
      return !w.fails;
    }

    /** madvise with a hint: at most some pages of the range are read ahead. */
    method Advise(lo: nat, hi: nat)
      requires Valid()
      modifies `pages, `step, `clock, `trace
      ensures Valid() && step > old(step) && clock >= old(clock)
      ensures Warmer(old(pages), pages) && trace == old(trace) + [pages]
    {
      var w := whim(step);
      Gathers();
      pages := Marked(pages, (i: nat) => lo <= i < hi && i in w.extra, Loaded);
      trace := trace + [pages];
    }

    /** Read one byte of the mapping. */
    method Touch(addr: nat)
      requires Valid() && addr < mapLen
      modifies `pages, `step, `clock, `trace, `touched
      ensures Valid() && step > old(step) && clock >= old(clock)
      ensures Warmer(old(pages), pages) && trace == old(trace) + [pages]
      ensures addr / pageSize < |pages| && pages[addr / pageSize].cached
      ensures touched == old(touched) + [addr / pageSize]
    {
      InBounds(addr, mapLen, pageSize);
      Gathers();
      var page := addr / pageSize;
      pages := Marked(pages, (i: nat) => i == page, Faulted);
      trace, touched := trace + [pages], touched + [addr / pageSize];
    }

    /** mincore: one bit a page. */
    method Mincore(off: nat, len: nat) returns (ok: bool, vec: seq<bool>)
      requires Valid() && off % pageSize == 0 && off + len <= mapLen && len > 0
      modifies `pages, `step, `clock, `trace
      ensures Valid() && step == old(step) + 1 && clock >= old(clock)
      ensures Warmer(old(pages), pages) && trace == old(trace) + [pages]
      ensures whim(old(step)).gathers == {} ==> pages == old(pages)
      ensures |vec| == Ceil(len, pageSize) && off / pageSize + |vec| <= |pages|
      ensures ok ==> forall i :: 0 <= i < |vec| ==> vec[i] == pages[off / pageSize + i].cached
      ensures ok == !whim(old(step)).fails
    {
      var w := whim(step);
      Gathers();
      trace := trace + [pages];
      RangeFits(off, len, mapLen, pageSize);
      var now := pages[off / pageSize..off / pageSize + Ceil(len, pageSize)];
      return !w.fails, seq(|now|, i requires 0 <= i < |now| => now[i].cached);
    }
  }

  lemma InBounds(addr: nat, len: nat, d: nat)
    requires d > 0 && addr < len
    ensures addr / d < Ceil(len, d)
  {
    var x := addr / d * d;
    Ratio(x, addr / d, 0, d);
    MultipleBelow(x, len, d);
  }

  lemma RangeFits(off: nat, len: nat, total: nat, d: nat)
    requires d > 0 && off % d == 0 && off + len <= total
    ensures Ceil(off + len, d) == off / d + Ceil(len, d) <= Ceil(total, d)
  {
    var e := len + d - 1;
    assert off + e == (off / d + e / d) * d + e % d;
    Ratio(off + e, off / d + e / d, e % d, d);
    CeilMonotone(off + len, total, d);
  }

  lemma CeilMonotone(a: nat, b: nat, d: nat)
    requires d > 0 && a <= b
    ensures Ceil(a, d) <= Ceil(b, d)
  {
    var x := a + d - 1;
    var p, q := x / d, (b + d - 1) / d;
    assert x == p * d + x % d && b + d - 1 == q * d + (b + d - 1) % d;
    if q < p {
      MulUp(q + 1, p, d);
    }
  }

  // --------------------------------------------------------- whole-map walks

  /** The pages lo, lo + 1, ..., hi - 1. */
  function Upto(lo: nat, hi: nat): (s: seq<nat>)
    ensures |s| == if lo <= hi then hi - lo else 0
  {
    if lo >= hi then [] else Upto(lo, hi - 1) + [hi - 1]
  }

  /** No state since `from` is missing a page that `a` had. */
  predicate NeverCooler(trace: seq<Pages>, from: nat, a: Pages) {
    forall i :: from <= i < |trace| ==> Warmer(a, trace[i])
  }

  /** From pages `a` to pages `b` by way of the states the trace gained: nothing was lost on the way. */
  predicate Warms(a: Pages, ta: seq<Pages>, b: Pages, tb: seq<Pages>) {
    Warmer(a, b) && ta <= tb && NeverCooler(tb, |ta|, a)
  }

  lemma WarmsStep(a: Pages, ta: seq<Pages>, b: Pages)
    requires Warmer(a, b)
    ensures Warms(a, ta, b, ta + [b]) && Warms(a, ta, a, ta)
  {
  }

  lemma WarmsTrans(a: Pages, ta: seq<Pages>, b: Pages, tb: seq<Pages>, c: Pages, tc: seq<Pages>)
    requires Warms(a, ta, b, tb) && Warms(b, tb, c, tc)
    ensures Warms(a, ta, c, tc)
  {
  }

  lemma CachedStays(a: Pages, b: Pages, lo: nat, mid: nat, hi: nat)
    requires Warmer(a, b) && CachedFrom(a, lo, mid) && CachedFrom(b, mid, hi)
    ensures CachedFrom(b, lo, hi)
  {
  }

  predicate CachedFrom(ps: Pages, lo: nat, hi: nat) {
    hi <= |ps| && forall i :: lo <= i < hi ==> ps[i].cached
  }

  lemma CachedNext(a: Pages, b: Pages, lo: nat, q: nat)
    requires Warmer(a, b) && CachedFrom(a, lo, q) && q < |b| && b[q].cached
    ensures CachedFrom(b, lo, q + 1)
  {
  }

  lemma UptoNext(lo: nat, q: nat)
    requires lo <= q
    ensures Upto(lo, q + 1) == Upto(lo, q) + [q]
  {
  }

  method TouchChunk(k: Kernel, pos: nat, chunk: nat)
    requires k.Valid() && pos % k.pageSize == 0 && pos + chunk <= k.mapLen && chunk > 0
    modifies k`pages, k`step, k`clock, k`trace, k`touched
    ensures k.Valid() && k.step >= old(k.step) && k.clock >= old(k.clock)
    ensures Warms(old(k.pages), old(k.trace), k.pages, k.trace)
    ensures CachedFrom(k.pages, pos / k.pageSize, Ceil(pos + chunk, k.pageSize))
    ensures k.touched == old(k.touched) + Upto(pos / k.pageSize, Ceil(pos + chunk, k.pageSize))
  {
    hide Ceil, Warms, Warmer, CachedFrom, Upto;
    var ps := k.pageSize;
    var p := 0;
    ghost var first, last := pos / ps, Ceil(pos + chunk, ps);
    ghost var q := first;
    MultipleBelow(pos, pos + chunk, ps);
    CeilMonotone(pos + chunk, k.mapLen, ps);
    ChunkStarts(k.pages, k.trace, first, last);
    while p < chunk
      invariant k.Valid() && k.step >= old(k.step) && k.clock >= old(k.clock)
      invariant (pos + p) % ps == 0 && (pos + p) / ps == q && first <= q <= last
      invariant Warms(old(k.pages), old(k.trace), k.pages, k.trace) && CachedFrom(k.pages, first, q)
      invariant k.touched == old(k.touched) + Upto(first, q)
      decreases chunk - p
    {
      ghost var was, wasTrace := k.pages, k.trace;
      MultipleBelow(pos + p, pos + chunk, ps);
      k.Touch(pos + p);
      WarmsStep(was, wasTrace, k.pages);
      WarmsTrans(old(k.pages), old(k.trace), was, wasTrace, k.pages, k.trace);
      CachedNext(was, k.pages, first, q);
      UptoNext(first, q);
      NextMultiple(pos + p, ps);
      p, q := p + ps, q + 1;
    }
    MultipleBelow(pos + p, pos + chunk, ps);
  }

  lemma ChunkStarts(a: Pages, ta: seq<Pages>, first: nat, last: nat)
    requires first <= last <= |a|
    ensures Warms(a, ta, a, ta) && CachedFrom(a, first, first) && Upto(first, first) == []
  {
  }

  /** How far a walk in steps has come at position `pos`. */
  function Reached(pos: nat, end: nat, d: nat): nat
    requires d > 0
  {
    if pos < end then pos / d else Ceil(end, d)
  }

  /** What a chunk at a multiple of d adds: everything up to the next chunk or to the end. */
  lemma ChunkReaches(pos: nat, size: nat, end: nat, d: nat)
    requires d > 0 && pos % d == 0 && size % d == 0 && 0 < size && pos < end
    ensures (pos + size) % d == 0
    ensures pos / d == Reached(pos, end, d)
    ensures pos / d <= Ceil(pos + Min(end - pos, size), d) == Reached(pos + size, end, d) <= Ceil(end, d)
  {
    SumOfMultiples(pos, size, d);
    MultipleBelow(pos + size, pos + size, d);
    CeilMonotone(pos, pos + size, d);
    CeilMonotone(pos + Min(end - pos, size), end, d);
    MultipleBelow(pos, end, d);
  }

  lemma UptoSplit(a: nat, b: nat, c: nat)
    requires a <= b <= c
    ensures Upto(a, b) + Upto(b, c) == Upto(a, c)
    decreases c
  {
    if b < c {
      UptoSplit(a, b, c - 1);
      assert Upto(a, b) + (Upto(b, c - 1) + [c - 1]) == (Upto(a, b) + Upto(b, c - 1)) + [c - 1];
    }
  }

  /** Ask for the pages of a byte range to be read ahead. */
  method Hint(k: Kernel, off: nat, len: nat)
    requires k.Valid()
    modifies k`pages, k`step, k`clock, k`trace
    ensures k.Valid() && k.step >= old(k.step) && k.clock >= old(k.clock)
    ensures Warms(old(k.pages), old(k.trace), k.pages, k.trace)
  {
    k.Advise(off / k.pageSize, Ceil(off + len, k.pageSize));
    WarmsStep(old(k.pages), old(k.trace), k.pages);
  }

  method HintMore(k: Kernel, ghost a: Pages, ghost ta: seq<Pages>, off: nat, len: nat)
    requires k.Valid() && Warms(a, ta, k.pages, k.trace)
    modifies k`pages, k`step, k`clock, k`trace
    ensures k.Valid() && k.step >= old(k.step) && k.clock >= old(k.clock)
    ensures Warms(a, ta, k.pages, k.trace) && Warmer(old(k.pages), k.pages)
  {
    Hint(k, off, len);
    WarmsTrans(a, ta, old(k.pages), old(k.trace), k.pages, k.trace);
  }

  lemma WarmsStart(a: Pages, ta: seq<Pages>)
    ensures Warms(a, ta, a, ta)
  {
  }

  /** What a walk from `off` has done by the time it stands at `pos`. */
  ghost predicate Walked(k: Kernel, a: Pages, ta: seq<Pages>, already: seq<nat>, off: nat, pos: nat, end: nat)
    reads k`pages, k`step, k`clock, k`trace, k`touched
  {
    && k.Valid() && pos % k.pageSize == 0 && off / k.pageSize <= Reached(pos, end, k.pageSize) <= Ceil(end, k.pageSize)
    && Warms(a, ta, k.pages, k.trace)
    && CachedFrom(k.pages, off / k.pageSize, Reached(pos, end, k.pageSize))
    && k.touched == already + Upto(off / k.pageSize, Reached(pos, end, k.pageSize))
  }

  lemma WalkStarts(k: Kernel, a: Pages, ta: seq<Pages>, off: nat, end: nat)
    requires k.Valid() && off % k.pageSize == 0 && off <= end <= k.mapLen && Warms(a, ta, k.pages, k.trace)
    ensures Walked(k, a, ta, k.touched, off, off, end)
  {
    MultipleBelow(off, end, k.pageSize);
    MultipleBelow(off, off, k.pageSize);
    CeilMonotone(off, k.mapLen, k.pageSize);
  }

  method TouchNext(k: Kernel, ghost a: Pages, ghost ta: seq<Pages>, ghost already: seq<nat>, off: nat, pos: nat, end: nat)
    requires Walked(k, a, ta, already, off, pos, end) && off <= pos < end <= k.mapLen
    modifies k`pages, k`step, k`clock, k`trace, k`touched
    ensures k.step >= old(k.step) && k.clock >= old(k.clock)
    ensures Walked(k, a, ta, already, off, pos + WARM_CHUNK, end)
  {
    hide Warms, Upto, Ceil, CachedFrom, Warmer, Reached;
    var chunk, next := Min(end - pos, WARM_CHUNK), pos + WARM_CHUNK;
    ghost var d := k.pageSize;
    MultipleOfMultiple(64, MIB, d);
    ChunkReaches(pos, WARM_CHUNK, end, d);
    if next < end {
      HintMore(k, a, ta, next, Min(end - next, WARM_CHUNK));
      StillCached(old(k.pages), k.pages, off / d, pos / d);
    }
    ghost var mid, midTrace := k.pages, k.trace;
    TouchChunk(k, pos, chunk);
    WarmsTrans(a, ta, mid, midTrace, k.pages, k.trace);
    AreWarmer(mid, midTrace, k.pages, k.trace);
    CachedStays(mid, k.pages, off / d, pos / d, Reached(next, end, d));
    UptoSplit(off / d, pos / d, Reached(next, end, d));
  }

  lemma AreWarmer(a: Pages, ta: seq<Pages>, b: Pages, tb: seq<Pages>)
    requires Warms(a, ta, b, tb)
    ensures Warmer(a, b)
  {
  }

  lemma StillCached(a: Pages, b: Pages, lo: nat, hi: nat)
    requires Warmer(a, b) && CachedFrom(a, lo, hi)
    ensures CachedFrom(b, lo, hi)
  {
  }

  /** touch_range: every page of the range once, in order, and none beyond it. */
  method TouchRange(k: Kernel, off: nat, len: nat)
    requires k.Valid() && off % k.pageSize == 0 && off + len <= k.mapLen
    modifies k`pages, k`step, k`clock, k`trace, k`touched
    ensures k.Valid() && k.step >= old(k.step) && k.clock >= old(k.clock)
    ensures Warms(old(k.pages), old(k.trace), k.pages, k.trace)
    ensures CachedFrom(k.pages, off / k.pageSize, Ceil(off + len, k.pageSize))
    ensures k.touched == old(k.touched) + Upto(off / k.pageSize, Ceil(off + len, k.pageSize))
  {
    hide Warms, Warmer, Upto, Ceil, CachedFrom;
    var end, pos := off + len, off;
    WarmsStart(k.pages, k.trace);
    WalkStarts(k, k.pages, k.trace, off, end);
    if len == 0 {
      return;
    }
    Hint(k, off, len);
    HintMore(k, old(k.pages), old(k.trace), off, Min(len, WARM_CHUNK));
    WalkStarts(k, old(k.pages), old(k.trace), off, end);
    while pos < end
      invariant off <= pos && k.step >= old(k.step) && k.clock >= old(k.clock)
      invariant Walked(k, old(k.pages), old(k.trace), old(k.touched), off, pos, end)
      decreases end - pos
    {
      TouchNext(k, old(k.pages), old(k.trace), old(k.touched), off, pos, end);
      pos := pos + WARM_CHUNK;
    }
    ghost var was := k.pages;
    HintMore(k, old(k.pages), old(k.trace), off, len);
    StillCached(was, k.pages, off / k.pageSize, Ceil(end, k.pageSize));
  }

  lemma OneMore(ps: Pages, j: nat)
    requires j < |ps|
    ensures CachedIn(ps[..j + 1]) == CachedIn(ps[..j]) + if ps[j].cached then 1 else 0
  {
    assert ps[..j + 1][..j] == ps[..j];
  }

  lemma PrefixHasMore(a: Pages, b: Pages, j: nat)
    requires Warmer(a, b) && j <= |a|
    ensures CachedIn(a[..j]) <= CachedIn(b[..j])
  {
    WarmerHasMore(a[..j], b[..j]);
  }

  /** Add up one vector of residency bits. */
  method CountBits(vec: seq<bool>, ghost a: Pages, ghost b: Pages, ghost first: nat, n: nat) returns (sum: nat)
    requires Warmer(a, b) && first + |vec| <= |a|
    requires forall i :: 0 <= i < |vec| ==> vec[i] == b[first + i].cached
    requires CachedIn(a[..first]) <= n <= CachedIn(b[..first])
    ensures CachedIn(a[..first + |vec|]) <= sum <= CachedIn(b[..first + |vec|])
  {
    hide CachedIn;
    sum := n;
    for i := 0 to |vec|
      invariant CachedIn(a[..first + i]) <= sum <= CachedIn(b[..first + i])
    {
      OneMore(a, first + i);
      OneMore(b, first + i);
      assert Kept(a[first + i], b[first + i]);
      sum := sum + if vec[i] then 1 else 0;
    }
  }

  /** Some kernel call in between failed. */
  ghost predicate Failed(whim: nat -> Whim, from: nat, to: nat) {
    exists t: nat :: from <= t < to && whim(t).fails
  }

  lemma FailedLonger(whim: nat -> Whim, from: nat, to: nat, later: nat)
    requires to <= later
    ensures Failed(whim, from, to) ==> Failed(whim, from, later)
  {
  }

  /** What a walk over the mapping counts: 0 if a call of its own failed, and otherwise no less than there
      was when it began and no more than there is at its end. */
  ghost predicate Counts(n: nat, whim: nat -> Whim, from: nat, to: nat, a: Pages, b: Pages) {
    if Failed(whim, from, to) then n == 0 else CachedIn(a) <= n <= CachedIn(b)
  }

  /** resident_pages: with gathers running meanwhile, no less than there was and no more than
      there is; 0 if the kernel would not say. */
  method ResidentPages(k: Kernel) returns (n: nat)
    requires k.Valid()
    modifies k`pages, k`step, k`clock, k`trace
    ensures k.Valid() && k.step >= old(k.step) && k.clock >= old(k.clock)
    ensures Warms(old(k.pages), old(k.trace), k.pages, k.trace)
    ensures Counts(n, k.whim, old(k.step), k.step, old(k.pages), k.pages)
    ensures (forall t :: k.whim(t).gathers == {}) ==> k.pages == old(k.pages)
    ensures k.mapLen > 0 ==> k.step > old(k.step) && |k.trace| > |old(k.trace)| && k.trace[|k.trace| - 1] == k.pages
  {
    hide Ceil, Warms, CachedIn;
    var d := k.pageSize;
    var span, off := MINCORE_PAGES * d, 0;
    n := 0;
    MultipleOfMultiple(MINCORE_PAGES, d, d);
    MultipleBelow(0, k.mapLen, d);
    WarmsStart(k.pages, k.trace);
    NoneCached(k.pages);
    while off < k.mapLen
      invariant k.Valid() && k.step >= old(k.step) && k.clock >= old(k.clock) && off % d == 0
      invariant Warms(old(k.pages), old(k.trace), k.pages, k.trace) && Warmer(old(k.pages), k.pages)
      invariant Reached(off, k.mapLen, d) <= |k.pages|
      invariant var f := Reached(off, k.mapLen, d); CachedIn(old(k.pages)[..f]) <= n <= CachedIn(k.pages[..f])
      invariant (forall t :: k.whim(t).gathers == {}) ==> k.pages == old(k.pages)
      invariant |k.trace| >= |old(k.trace)| && !Failed(k.whim, old(k.step), k.step)
      invariant off > 0 ==> k.step > old(k.step) && |k.trace| > |old(k.trace)| && k.trace[|k.trace| - 1] == k.pages
      decreases k.mapLen - off
    {
      var len := Min(k.mapLen - off, span);
      ghost var was, wasTrace := k.pages, k.trace;
      MultipleBelow(off, k.mapLen, d);
      var ok, vec := k.Mincore(off, len);
      WarmsStep(was, wasTrace, k.pages);
      WarmsTrans(old(k.pages), old(k.trace), was, wasTrace, k.pages, k.trace);
      AreWarmer(old(k.pages), old(k.trace), k.pages, k.trace);
      if !ok {
        return 0;
      }
      PrefixHasMore(was, k.pages, off / d);
      n := CountBits(vec, old(k.pages), k.pages, off / d, n);
      RangeFits(off, len, k.mapLen, d);
      ChunkReaches(off, span, k.mapLen, d);
      off := off + span;
    }
    assert old(k.pages)[..|k.pages|] == old(k.pages) && k.pages[..|k.pages|] == k.pages;
  }

  lemma NoneCached(ps: Pages)
    ensures CachedIn(ps[..0]) == 0
  {
  }

  // --------------------------------------------------------------- recharge

  /** At worst the daemon was charged for the page: it did not leave the cache. */
  predicate Moved(a: Page, b: Page) {
    Kept(a, b) || (b.cached && b.owner == Ours)
  }

  /** Pages lo..hi have been moved over, bar the spared, and the others left alone. */
  predicate Swept(a: Pages, b: Pages, lo: nat, hi: nat, spared: set<nat>) {
    && |a| == |b| && hi <= |a|
    && forall i :: 0 <= i < |a| ==>
         if lo <= i < hi && i !in spared then b[i].cached && b[i].owner == Ours
         else Kept(a[i], b[i]) && (lo <= i < hi ==> b[i].cached)
  }

  predicate NoneLost(a: Pages, b: Pages) {
    |a| == |b| && forall i :: 0 <= i < |a| ==> Moved(a[i], b[i])
  }

  lemma SweptJoin(a: Pages, b: Pages, c: Pages, m: nat, hi: nat, s1: set<nat>, s2: set<nat>)
    requires Swept(a, b, 0, m, s1) && Swept(b, c, m, hi, s2) && m <= hi
    requires (forall i :: i in s1 ==> i < m) && (forall i :: i in s2 ==> m <= i < hi)
    ensures Swept(a, c, 0, hi, s1 + s2)
  {
  }

  predicate ColdOnly(trace: seq<Pages>, from: nat, a: Pages, lo: nat, hi: nat) {
    forall i :: from <= i < |trace| ==> ColdWithin(a, trace[i], lo, hi)
  }

  lemma ColdOnlyMore(ta: seq<Pages>, from: nat, a: Pages, b: Pages, tb: seq<Pages>, c: Pages, lo: nat, hi: nat)
    requires ColdOnly(ta, from, a, lo, hi) && ColdWithin(a, b, lo, hi) && Warms(b, ta, c, tb) && from <= |ta|
    ensures ColdOnly(tb, from, a, lo, hi) && ColdWithin(a, c, lo, hi)
  {
  }

  function Within(s: set<nat>, lo: nat, hi: nat): set<nat> {
    set i | i in s && lo <= i < hi
  }

  /** The pages that gathers read after a slice was dropped and before its eviction, which is the
      next call. */
  function SparedBy(whim: nat -> Whim, d: Drop): set<nat> {
    Within(whim(d.step + 1).gathers, d.lo, d.hi)
  }

  function SparedIn(whim: nat -> Whim, drops: seq<Drop>): set<nat> {
    if drops == [] then {} else SparedIn(whim, drops[..|drops| - 1]) + SparedBy(whim, drops[|drops| - 1])
  }

  /** The slice in flight at state i: the last one dropped by then. Before any drop there is none. */
  function InFlight(drops: seq<Drop>, i: nat): (nat, nat) {
    if drops == [] then (0, 0)
    else
      var d := drops[|drops| - 1];
      if d.seen <= i then (d.lo, d.hi) else InFlight(drops[..|drops| - 1], i)
  }

  predicate ColdInFlight(a: Pages, b: Pages, drops: seq<Drop>, i: nat) {
    ColdWithin(a, b, InFlight(drops, i).0, InFlight(drops, i).1)
  }

  /** At every state since `from` only pages of the slice in flight are missing. */
  predicate OnlyInFlight(trace: seq<Pages>, from: nat, a: Pages, drops: seq<Drop>) {
    forall i :: from <= i < |trace| ==> ColdInFlight(a, trace[i], drops, i)
  }

  /** A slice dropped, evicted and read back, in that order, whatever fails on the way. */
  method SweepSlice(k: Kernel, off: nat, len: nat) returns (st: nat)
    requires k.Valid() && off % k.pageSize == 0 && off + len <= k.mapLen
    modifies k
    ensures k.Valid() && k.step > old(k.step) && k.clock >= old(k.clock)
    ensures st == ST_OK || (st == ST_INTERNAL && Failed(k.whim, old(k.step), k.step))
    ensures var lo, hi := off / k.pageSize, Ceil(off + len, k.pageSize);
            var d := Drop(old(k.clock), old(k.step), lo, hi, |old(k.trace)|);
            && (st == ST_OK ==> Swept(old(k.pages), k.pages, lo, hi, SparedBy(k.whim, d)))
            && NoneLost(old(k.pages), k.pages)
            && (forall i :: 0 <= i < |k.pages| && !(lo <= i < hi) ==> Kept(old(k.pages)[i], k.pages[i]))
            && old(k.trace) <= k.trace && ColdOnly(k.trace, |old(k.trace)|, old(k.pages), lo, hi)
            && k.drops == old(k.drops) + [d]
  {
    hide Ceil, Warms, ClockAt;
    ghost var a, from := k.pages, |k.trace|;
    var lo, hi := off / k.pageSize, Ceil(off + len, k.pageSize);
    CeilMonotone(off + len, k.mapLen, k.pageSize);
    MultipleBelow(off, off + len, k.pageSize);
    var ok := k.Unmap(lo, hi);
    if !ok {
      return ST_INTERNAL;
    }
    ok := k.Evict(lo, hi);
    ghost var b, tb := k.pages, k.trace;
    TouchRange(k, off, len);
    ColdOnlyMore(tb, from, a, b, k.trace, k.pages, lo, hi);
    AreWarmer(b, tb, k.pages, k.trace);
    TraceGrew(b, tb, k.pages, k.trace);
    st := if ok then ST_OK else ST_INTERNAL;
  }

  lemma TraceGrew(a: Pages, ta: seq<Pages>, b: Pages, tb: seq<Pages>)
    requires Warms(a, ta, b, tb)
    ensures ta <= tb
  {
  }

  /** The n-th slice of w pages, dropped within the time of a sweep that began at call `first`. */
  predicate SliceDrop(d: Drop, n: nat, w: nat, total: nat, start: nat, first: nat) {
    && d.lo == n * w && d.hi == Min((n + 1) * w, total)
    && start <= d.at < start + 600_000 && first < d.step
  }

  /** The drops of a sweep: slice after slice from the bottom, none begun after the time is up. */
  predicate InSlices(drops: seq<Drop>, w: nat, total: nat, start: nat, first: nat) {
    && (forall n :: 0 <= n < |drops| ==> SliceDrop(drops[n], n, w, total, start, first))
    && forall m, n :: 0 <= m < n < |drops| ==> drops[m].step < drops[n].step
  }

  /** Slices are page aligned, so n of them reach n * w pages or the end. */
  lemma SlicesReach(n: nat, size: nat, end: nat, d: nat)
    requires d > 0 && size > 0 && size % d == 0
    ensures (n * size) % d == 0 && (n * size) / d == n * (size / d)
    ensures Reached(n * size, end, d) == Min(n * (size / d), Ceil(end, d))
  {
    assert size == (size / d) * d;
    assert n * size == n * (size / d) * d;
    Ratio(n * size, n * (size / d), 0, d);
    MultipleBelow(n * size, end, d);
  }

  /** What a sweep has done after these drops. */
  ghost predicate Sweeping(k: Kernel, a: Pages, from: nat, w: nat, drops: seq<Drop>)
    reads k`pages, k`step, k`clock, k`trace
  {
    && k.Valid() && from <= |k.trace|
    && Swept(a, k.pages, 0, Min(|drops| * w, |k.pages|), SparedIn(k.whim, drops))
    && (forall i :: i in SparedIn(k.whim, drops) ==> i < Min(|drops| * w, |k.pages|))
    && OnlyInFlight(k.trace, from, a, drops)
  }

  lemma FlightSnoc(drops: seq<Drop>, d: Drop, i: nat)
    ensures InFlight(drops + [d], i) == if d.seen <= i then (d.lo, d.hi) else InFlight(drops, i)
  {
    assert (drops + [d])[..|drops|] == drops;
  }

  lemma NextInFlight(a: Pages, b: Pages, ta: seq<Pages>, from: nat, tb: seq<Pages>, drops: seq<Drop>, d: Drop)
    requires NoneLost(a, b) && OnlyInFlight(ta, from, a, drops) && from <= |ta| && ta <= tb
    requires ColdOnly(tb, |ta|, b, d.lo, d.hi) && d.seen == |ta|
    ensures OnlyInFlight(tb, from, a, drops + [d])
  {
    hide InFlight;
    forall i | from <= i < |tb|
      ensures ColdInFlight(a, tb[i], drops + [d], i)
    {
      FlightSnoc(drops, d, i);
      if i < |ta| {
        assert tb[i] == ta[i];
      } else {
        assert ColdWithin(b, tb[i], d.lo, d.hi);
      }
    }
  }

  lemma SweptIsKept(a: Pages, b: Pages, m: nat, s: set<nat>)
    requires Swept(a, b, 0, m, s)
    ensures NoneLost(a, b)
  {
  }

  lemma NoneLostTrans(a: Pages, b: Pages, c: Pages)
    requires NoneLost(a, b) && NoneLost(b, c)
    ensures NoneLost(a, c)
  {
  }

  /** Moved over for good, bar the spared. */
  predicate Taken(b: Pages, hi: nat, spared: set<nat>) {
    hi <= |b| && forall i :: 0 <= i < hi ==> b[i].cached && (i in spared || b[i].owner == Ours)
  }

  lemma TakenStays(a: Pages, b: Pages, c: Pages, hi: nat, s: set<nat>)
    requires Swept(a, b, 0, hi, s) && |c| == |b|
    requires forall i :: 0 <= i < hi ==> Kept(b[i], c[i])
    ensures Taken(c, hi, s)
  {
  }

  /** The next slice of a sweep. */
  method SweepNext(k: Kernel, ghost a: Pages, ghost from: nat, size: nat, w: nat, n: nat, ghost was: seq<Drop>)
    returns (st: nat, moved: nat)
    requires size > 0 && k.Valid() && size % k.pageSize == 0 && w == size / k.pageSize && n * size < k.mapLen
    requires Sweeping(k, a, from, w, was) && |was| == n
    modifies k
    ensures k.Valid() && k.step > old(k.step) && k.clock >= old(k.clock)
    ensures st == ST_OK || (st == ST_INTERNAL && Failed(k.whim, old(k.step), k.step))
    ensures old(k.trace) <= k.trace && NoneLost(a, k.pages)
    ensures |k.pages| == |old(k.pages)| == |a|
    ensures moved == Min((n + 1) * w, |k.pages|) - Min(n * w, |k.pages|)
    ensures var d := Drop(old(k.clock), old(k.step), n * w, Min((n + 1) * w, |k.pages|), |old(k.trace)|);
            && k.drops == old(k.drops) + [d]
            && OnlyInFlight(k.trace, from, a, was + [d])
            && if st == ST_OK then Sweeping(k, a, from, w, was + [d])
               else Taken(k.pages, Min(n * w, |k.pages|), SparedIn(k.whim, was))
  {
    hide Ceil, Swept, ColdOnly, OnlyInFlight, Reached, ClockAt, SparedIn;
    var off, d := n * size, k.pageSize;
    var len := Min(k.mapLen - off, size);
    ghost var b, tb := k.pages, k.trace;
    SlicesReach(n, size, k.mapLen, d);
    SlicesReach(n + 1, size, k.mapLen, d);
    ChunkReaches(off, size, k.mapLen, d);
    RangeFits(off, len, k.mapLen, d);
    assert (n + 1) * size == off + size;
    assert (n + 1) * w == n * w + w;
    ghost var drop := Drop(k.clock, k.step, n * w, Min((n + 1) * w, |k.pages|), |k.trace|);
    st := SweepSlice(k, off, len);
    moved := Ceil(len, d);
    SweptIsKept(a, b, n * w, SparedIn(k.whim, was));
    NoneLostTrans(a, b, k.pages);
    NextInFlight(a, b, tb, from, k.trace, was, drop);
    SparedSnoc(k.whim, was, drop);
    if st != ST_OK {
      TakenStays(a, b, k.pages, Min(n * w, |k.pages|), SparedIn(k.whim, was));
    } else {
      SweptJoin(a, b, k.pages, n * w, Min((n + 1) * w, |k.pages|), SparedIn(k.whim, was), SparedBy(k.whim, drop));
    }
  }

  datatype Report = Report(before: nat, after: nat, recharged: nat, done: nat, total: nat, slicePages: nat, elapsed: nat)

  /** n is no more than was in the cache at some moment before state `upto`. */
  predicate CountedBefore(trace: seq<Pages>, from: nat, upto: nat, n: nat) {
    exists i :: from <= i < upto && i < |trace| && n <= CachedIn(trace[i])
  }

  predicate DroppedDuring(drops: seq<Drop>, from: nat, to: nat) {
    forall n :: 0 <= n < |drops| ==> from <= drops[n].step < to
  }

  /** The two counts of a sweep: the call at which the first is over, the call that begins the last, and
      the pages as they are then. */
  datatype Walks = Walks(mid: nat, last: nat, was: Pages)

  /** What the counts say is true of the pages then: a count is 0 although pages were cached only if a
      call of its own failed. */
  ghost predicate WalksEnd(k: Kernel, a: Pages, first: nat, from: nat, rep: Report, drops: seq<Drop>, walks: Walks)
    reads k`pages, k`step, k`trace
  {
    && first < walks.mid <= walks.last < k.step
    && DroppedDuring(drops, walks.mid, walks.last)
    && NoneLost(a, walks.was)
    && Counts(rep.after, k.whim, walks.last, k.step, walks.was, k.pages)
    && (if Failed(k.whim, first, walks.mid) then rep.before == 0
        else CachedIn(a) <= rep.before &&
             CountedBefore(k.trace, from, if drops == [] then |k.trace| else drops[0].seen, rep.before))
  }

  /** How a sweep ends that made these drops. Nothing that was in the cache is left out of it; the
      slices done are charged to the daemon bar pages that gathers read between the drop and the
      eviction, and those are charged as before; a sweep that stops early has failed or has run out
      of time; the residency it reports first was counted before the first drop. */
  ghost predicate SweepEnds(k: Kernel, a: Pages, start: nat, first: nat, from: nat, st: nat, rep: Report,
                            drops: seq<Drop>, walks: Walks)
    reads k`pages, k`step, k`clock, k`trace
  {
    var moved := Min(rep.done * rep.slicePages, |k.pages|);
    && (st == ST_OK || (st == ST_INTERNAL && Failed(k.whim, first, k.step)))
    && |drops| == rep.done + (if st == ST_OK then 0 else 1)
    && InSlices(drops, rep.slicePages, |k.pages|, start, first)
    && NoneLost(a, k.pages)
    && Taken(k.pages, moved, SparedIn(k.whim, drops[..rep.done]))
    && (st == ST_OK ==> Swept(a, k.pages, 0, moved, SparedIn(k.whim, drops)))
    && OnlyInFlight(k.trace, from, a, drops)
    && rep.recharged == moved
    && WalksEnd(k, a, first, from, rep, drops, walks)
    && (moved == |k.pages| && !Failed(k.whim, walks.last, k.step) ==> rep.after == |k.pages|)
    && rep.done <= rep.total
    && (rep.done == rep.total ==> moved == |k.pages|)
    && (st == ST_OK && rep.done < rep.total ==> k.clock - start >= 600_000)
    && k.clock >= start && rep.elapsed == (k.clock - start) % TWO32
  }

  /** The report is of a sweep in slices of this many MiB. */
  predicate SweepIsOf(rep: Report, mib: nat, pageSize: nat, mapLen: nat)
    requires mib > 0 && pageSize > 0
  {
    && rep.slicePages == mib * 1_048_576 / pageSize
    && (rep.total - 1) * (mib * 1_048_576) < mapLen <= rep.total * (mib * 1_048_576)
  }

  lemma IsOf(rep: Report, mib: nat, pageSize: nat, mapLen: nat)
    requires mib > 0 && pageSize > 0 && mapLen > 0
    requires rep.slicePages == mib * 0x10_0000 / pageSize && rep.total == Ceil(mapLen, mib * 0x10_0000)
    ensures SweepIsOf(rep, mib, pageSize, mapLen)
  {
    var size := mib * 0x10_0000;
    var x := mapLen + size - 1;
    assert x == rep.total * size + x % size;
    assert (rep.total - 1) * size == rep.total * size - size;
  }

  /** 0 asks for the default. */
  function SliceBytes(mib: nat): (b: nat)
    ensures b > 0
  {
    (if mib == 0 then RECHARGE_SLICE_MIB else mib) * MIB
  }

  class Daemon {
    const k: Kernel
    var sweeping: bool

    constructor (k: Kernel)
      ensures this.k == k && !sweeping
    {
      this.k, sweeping := k, false;
    }

    /** recharge_map. */
    method RechargeMap(sliceMib: nat) returns (st: nat, rep: Report, ghost walks: Walks)
      requires k.Valid() && k.mapLen > 0
      modifies this, k
      ensures k.Valid() && sweeping == old(sweeping)
      ensures sliceMib > 4096 ==> st == 6
      ensures sliceMib <= 4096 && old(sweeping) ==> st == 7
      ensures st == 6 || st == 7 ==> unchanged(k)
      ensures sliceMib <= 4096 && !old(sweeping) ==>
                && (sliceMib == 0 ==> SweepIsOf(rep, 1024, k.pageSize, k.mapLen))
                && (sliceMib > 0 ==> SweepIsOf(rep, sliceMib, k.pageSize, k.mapLen))
                && old(k.drops) <= k.drops
                && SweepEnds(k, old(k.pages), old(k.clock), old(k.step), |old(k.trace)|, st, rep, k.drops[|old(k.drops)|..], walks)
    {
      hide Ceil, SweepEnds, Kernel.Valid, SweepIsOf;
      st, rep, walks := ST_BAD_PARAM, Report(0, 0, 0, 0, 0, 0, 0), Walks(0, 0, []);
      if sliceMib > RECHARGE_MAX_SLICE_MIB {
        return;
      }
      if sweeping {
        st := ST_BUSY;
        return;
      }
      sweeping := true;
      ValidPageSize(k);
      MultipleOfMultiple(if sliceMib == 0 then RECHARGE_SLICE_MIB else sliceMib, MIB, k.pageSize);
      st, rep, walks := SweepMap(k, SliceBytes(sliceMib));
      sweeping := false;
      IsOf(rep, if sliceMib == 0 then 1024 else sliceMib, k.pageSize, k.mapLen);
      EndsWithStatus(k, old(k.pages), old(k.clock), old(k.step), |old(k.trace)|, st, rep, k.drops[|old(k.drops)|..], walks);
    }
  }

  lemma ValidPageSize(k: Kernel)
    requires k.Valid()
    ensures k.pageSize > 0 && MIB % k.pageSize == 0
  {
  }

  lemma EndsWithStatus(k: Kernel, a: Pages, start: nat, first: nat, from: nat, st: nat, rep: Report, drops: seq<Drop>,
                       walks: Walks)
    requires SweepEnds(k, a, start, first, from, st, rep, drops, walks)
    ensures st == ST_OK || st == ST_INTERNAL
  {
  }

  /** The state in which the slice loop is left after n slices. */
  ghost predicate LoopEnds(k: Kernel, a: Pages, from: nat, w: nat, n: nat, st: nat, drops: seq<Drop>)
    reads k`pages, k`step, k`clock, k`trace
  {
    && k.Valid() && from <= |k.trace| && OnlyInFlight(k.trace, from, a, drops) && NoneLost(a, k.pages) && n <= |drops|
    && Taken(k.pages, Min(n * w, |k.pages|), SparedIn(k.whim, drops[..n]))
    && (st == ST_OK ==> Swept(a, k.pages, 0, Min(n * w, |k.pages|), SparedIn(k.whim, drops[..n])))
  }

  lemma LoopMayEnd(k: Kernel, a: Pages, from: nat, w: nat, drops: seq<Drop>)
    requires Sweeping(k, a, from, w, drops)
    ensures LoopEnds(k, a, from, w, |drops|, ST_OK, drops)
  {
    hide OnlyInFlight, SparedIn;
    assert drops[..|drops|] == drops;
  }

  lemma LoopMayFail(k: Kernel, a: Pages, from: nat, w: nat, was: seq<Drop>, d: Drop)
    requires k.Valid() && from <= |k.trace| && OnlyInFlight(k.trace, from, a, was + [d]) && NoneLost(a, k.pages)
    requires Taken(k.pages, Min(|was| * w, |k.pages|), SparedIn(k.whim, was))
    ensures LoopEnds(k, a, from, w, |was|, ST_INTERNAL, was + [d])
  {
    hide OnlyInFlight, SparedIn;
    assert (was + [d])[..|was|] == was;
  }

  lemma StillSweeping(k: Kernel, a: Pages, from: nat, w: nat, drops: seq<Drop>)
    requires Sweeping(k, a, from, w, drops)
    ensures |a| == |k.pages| && from <= |k.trace|
  {
  }

  lemma OneDropMore(whim: nat -> Whim, drops: seq<Drop>, d: Drop, w: nat, total: nat, start: nat, first: nat)
    requires InSlices(drops, w, total, start, first) && SliceDrop(d, |drops|, w, total, start, first)
    requires drops != [] ==> drops[|drops| - 1].step < d.step
    ensures InSlices(drops + [d], w, total, start, first)
    ensures SparedIn(whim, drops + [d]) == SparedIn(whim, drops) + SparedBy(whim, d)
  {
    hide SliceDrop, SparedIn, SparedBy;
    SparedSnoc(whim, drops, d);
  }

  lemma SparedSnoc(whim: nat -> Whim, drops: seq<Drop>, d: Drop)
    ensures SparedIn(whim, drops + [d]) == SparedIn(whim, drops) + SparedBy(whim, d)
  {
    hide SparedBy;
    assert (drops + [d])[..|drops|] == drops;
  }

  /** The loop over slices. */
  method SweepLoop(k: Kernel, ghost a: Pages, ghost from: nat, size: nat, w: nat, t0: nat, ghost first: nat)
    returns (st: nat, done: nat, recharged: nat, ghost drops: seq<Drop>)
    requires k.Valid() && size > 0 && size % k.pageSize == 0 && w == size / k.pageSize && t0 <= k.clock
    requires Sweeping(k, a, from, w, []) && first < k.step
    modifies k
    ensures k.drops == old(k.drops) + drops && |drops| == done + (if st == ST_OK then 0 else 1)
    ensures LoopEnds(k, a, from, w, done, st, drops)
    ensures st == ST_OK || (st == ST_INTERNAL && Failed(k.whim, first, k.step))
    ensures k.step >= old(k.step) && k.clock >= old(k.clock) && |k.trace| >= |old(k.trace)|
    ensures recharged == Min(done * w, |k.pages|)
    ensures done == 0 || (done - 1) * size < k.mapLen
    ensures st == ST_OK && done * size < k.mapLen ==> k.clock - t0 >= RECHARGE_MAX_SECS * 1000
    ensures InSlices(drops, w, |k.pages|, t0, first)
    ensures drops != [] ==> drops[0].seen == |old(k.trace)|
    ensures DroppedDuring(drops, old(k.step), k.step)
    ensures old(k.trace) <= k.trace
    ensures st != ST_OK ==> done * size < k.mapLen
  {
    hide Ceil, Sweeping, LoopEnds, OnlyInFlight, Taken, NoneLost, SliceDrop, InSlices, Kernel.Valid, SparedIn, SparedBy;
    StillSweeping(k, a, from, w, []);
    st, recharged, done, drops := ST_OK, 0, 0, [];
    NoDrops(k.whim, w, |k.pages|, t0, first);
    while done * size < k.mapLen
      invariant st == ST_OK && k.Valid() && k.step >= old(k.step) && k.clock >= old(k.clock)
      invariant old(k.trace) <= k.trace && |k.pages| == |a| && from <= |k.trace|
      invariant k.drops == old(k.drops) + drops && |drops| == done
      invariant Sweeping(k, a, from, w, drops)
      invariant recharged == Min(done * w, |k.pages|)
      invariant InSlices(drops, w, |k.pages|, t0, first)
      invariant drops != [] ==> drops[0].seen == |old(k.trace)|
      invariant DroppedDuring(drops, old(k.step), k.step)
      invariant if drops == [] then k.trace == old(k.trace) else drops[|drops| - 1].step < k.step
      invariant done == 0 || (done - 1) * size < k.mapLen
      decreases k.mapLen - done * size
    {
      if k.clock - t0 >= RECHARGE_MAX_SECS * 1000 {
        break;
      }
      ghost var d := Drop(k.clock, k.step, done * w, Min((done + 1) * w, |k.pages|), |k.trace|);
      IsSliceDrop(d, done, w, |k.pages|, t0, first);
      OneDropMore(k.whim, drops, d, w, |k.pages|, t0, first);
      ghost var was := drops;
      var moved;
      st, moved := SweepNext(k, a, from, size, w, done, drops);
      drops := drops + [d];
      if st != ST_OK {
        LoopMayFail(k, a, from, w, was, d);
        return;
      }
      assert (done + 1) * size == done * size + size;
      done, recharged := done + 1, recharged + moved;
    }
    LoopMayEnd(k, a, from, w, drops);
  }

  lemma IsSliceDrop(d: Drop, n: nat, w: nat, total: nat, start: nat, first: nat)
    requires start <= d.at < start + 600_000 && first < d.step
    requires d.lo == n * w && d.hi == Min((n + 1) * w, total)
    ensures SliceDrop(d, n, w, total, start, first)
  {
  }

  lemma NoDrops(whim: nat -> Whim, w: nat, total: nat, start: nat, first: nat)
    ensures InSlices([], w, total, start, first) && SparedIn(whim, []) == {}
  {
  }

  lemma {:induction false} AllCached(ps: Pages)
    requires CachedFrom(ps, 0, |ps|)
    ensures CachedIn(ps) == |ps|
  {
    if ps != [] {
      AllCached(ps[..|ps| - 1]);
    }
  }

  lemma StartSweep(k: Kernel, a: Pages, ta: seq<Pages>, w: nat)
    requires k.Valid() && Warms(a, ta, k.pages, k.trace)
    ensures Sweeping(k, a, |ta|, w, [])
  {
  }

  /** Residency is read once more after the loop, and nothing gets colder by it. */
  lemma EndSweep(a: Pages, from: nat, b: Pages, tb: seq<Pages>, c: Pages, tc: seq<Pages>, drops: seq<Drop>, hi: nat, st: nat,
                 s: set<nat>)
    requires from <= |tb| && OnlyInFlight(tb, from, a, drops) && NoneLost(a, b) && Taken(b, hi, s) && Warms(b, tb, c, tc)
    requires st == ST_OK ==> Swept(a, b, 0, hi, s)
    ensures OnlyInFlight(tc, from, a, drops) && NoneLost(a, c) && Taken(c, hi, s) && tb <= tc
    ensures st == ST_OK ==> Swept(a, c, 0, hi, s)
  {
    hide InFlight;
    forall i | from <= i < |tc|
      ensures ColdInFlight(a, tc[i], drops, i)
    {
      if i < |tb| {
        assert tc[i] == tb[i];
      } else {
        assert Warmer(b, tc[i]);
      }
    }
  }

  lemma TakenIsCached(b: Pages, s: set<nat>)
    requires Taken(b, |b|, s)
    ensures CachedIn(b) == |b|
  {
    AllCached(b);
  }

  lemma CachedAtMost(ps: Pages)
    ensures CachedIn(ps) <= |ps|
  {
  }

  lemma SlicesDone(n: nat, size: nat, end: nat, d: nat)
    requires d > 0 && size > 0 && size % d == 0 && (n == 0 || (n - 1) * size < end) && end > 0
    ensures n <= Ceil(end, size)
    ensures n == Ceil(end, size) <==> n * size >= end
    ensures n * size >= end ==> Min(n * (size / d), Ceil(end, d)) == Ceil(end, d)
  {
    Ratio(n * size, n, 0, size);
    MultipleBelow(n * size, end, size);
    if n > 0 {
      Ratio((n - 1) * size, n - 1, 0, size);
      MultipleBelow((n - 1) * size, end, size);
    }
    SlicesReach(n, size, end, d);
  }

  method SweepMap(k: Kernel, size: nat) returns (st: nat, rep: Report, ghost walks: Walks)
    requires k.Valid() && k.mapLen > 0 && size > 0 && size % k.pageSize == 0
    modifies k
    ensures k.Valid() && old(k.drops) <= k.drops
    ensures rep.slicePages == size / k.pageSize && rep.total == Ceil(k.mapLen, size)
    ensures SweepEnds(k, old(k.pages), old(k.clock), old(k.step), |old(k.trace)|, st, rep, k.drops[|old(k.drops)|..], walks)
  {
    hide Ceil, Swept, ColdOnly, OnlyInFlight, Taken, NoneLost, InSlices, Warms, CachedIn, Sweeping, SparedIn, ClockAt, Failed, DroppedDuring;
    var t0, w := k.clock, size / k.pageSize;
    ghost var a, from, first := k.pages, |k.trace|, k.step;
    var before := ResidentPages(k);
    ghost var seen, mid := k.trace, k.step;
    StartSweep(k, a, old(k.trace), w);
    TraceGrew(a, old(k.trace), k.pages, k.trace);
    var done, recharged;
    ghost var drops;
    st, done, recharged, drops := SweepLoop(k, a, from, size, w, t0, first);
    ghost var b, tb := k.pages, k.trace;
    walks := Walks(mid, k.step, b);
    var after := ResidentPages(k);
    EndSweep(a, from, b, tb, k.pages, k.trace, drops, Min(done * w, |b|), st, SparedIn(k.whim, drops[..done]));
    FailedLonger(k.whim, first, walks.last, k.step);
    assert k.drops[|old(k.drops)|..] == drops;
    assert st == ST_OK ==> drops[..done] == drops;
    assert k.trace[|seen| - 1] == seen[|seen| - 1];
    assert Failed(k.whim, first, mid) || CountedBefore(k.trace, from, |seen|, before);
    SlicesDone(done, size, k.mapLen, k.pageSize);
    if Min(done * w, |b|) == |b| {
      TakenIsCached(b, SparedIn(k.whim, drops[..done]));
      CachedAtMost(k.pages);
    }
    rep := Report(before, after, recharged, done, Ceil(k.mapLen, size), w, (k.clock - t0) % TWO32);
  }

  // ------------------------------------------------------------ full sweeps

  /** A gather read page i after its slice, the (i / w)-th, was unmapped and before it was evicted. */
  predicate ReadInTheGap(whim: nat -> Whim, drops: seq<Drop>, w: nat, i: nat) {
    w > 0 && i / w < |drops| && i in whim(drops[i / w].step + 1).gathers
  }

  lemma SparedHere(whim: nat -> Whim, d: Drop, n: nat, w: nat, total: nat, start: nat, first: nat, i: nat)
    requires SliceDrop(d, n, w, total, start, first) && w > 0 && i < total
    ensures i in SparedBy(whim, d) <==> i / w == n && i in whim(d.step + 1).gathers
  {
    InNthSlice(i, n, w);
  }

  /** Page i lies in slice i / w and in no other. */
  lemma {:induction false} SparedInItsSlice(whim: nat -> Whim, drops: seq<Drop>, w: nat, total: nat, start: nat, first: nat, i: nat)
    requires InSlices(drops, w, total, start, first) && w > 0 && i < total
    ensures i in SparedIn(whim, drops) <==> ReadInTheGap(whim, drops, w, i)
  {
    hide SliceDrop, SparedBy;
    if drops != [] {
      var n := |drops| - 1;
      SparedInItsSlice(whim, drops[..n], w, total, start, first, i);
      SparedHere(whim, drops[n], n, w, total, start, first, i);
    }
  }

  lemma InNthSlice(i: nat, n: nat, w: nat)
    requires w > 0
    ensures n * w <= i < (n + 1) * w <==> i / w == n
  {
    assert i == i / w * w + i % w && (n + 1) * w == n * w + w;
    if n * w <= i < (n + 1) * w {
      Ratio(i, n, i - n * w, w);
    }
  }

  /** After a full sweep every page is in the cache, and one is still charged elsewhere exactly
      if it was before and a gather read it after its slice was unmapped and before it was evicted. */
  lemma FullSweep(k: Kernel, a: Pages, start: nat, first: nat, from: nat, rep: Report, drops: seq<Drop>,
      walks: Walks)
    requires SweepEnds(k, a, start, first, from, ST_OK, rep, drops, walks) && rep.done == rep.total
    ensures rep.recharged == |k.pages| == |a|
    ensures !Failed(k.whim, walks.last, k.step) ==> rep.after == |k.pages|
    ensures forall i :: 0 <= i < |a| ==> rep.slicePages > 0 && i / rep.slicePages < |drops|
    ensures forall i :: 0 <= i < |a| ==>
              && k.pages[i].cached
              && (k.pages[i].owner == Elsewhere <==>
                    a[i].cached && a[i].owner == Elsewhere && ReadInTheGap(k.whim, drops, rep.slicePages, i))
  {
    hide OnlyInFlight, CountedBefore, NoneLost, Taken, CachedIn, InSlices, SparedIn, ReadInTheGap;
    forall i | 0 <= i < |a|
      ensures rep.slicePages > 0 && i / rep.slicePages < |drops| && k.pages[i].cached
      ensures k.pages[i].owner == Elsewhere <==>
              a[i].cached && a[i].owner == Elsewhere && ReadInTheGap(k.whim, drops, rep.slicePages, i)
    {
      SliceOfPage(i, rep.slicePages, rep.done);
      SparedInItsSlice(k.whim, drops, rep.slicePages, |a|, start, first, i);
      assert if i !in SparedIn(k.whim, drops) then k.pages[i].owner == Ours else Kept(a[i], k.pages[i]);
    }
  }

  /** Reads before the first drop do not count. */
  lemma EarlyReadsSpareNothing(k: Kernel, a: Pages, start: nat, first: nat, from: nat, rep: Report, drops: seq<Drop>, i: nat,
      walks: Walks)
    requires SweepEnds(k, a, start, first, from, ST_OK, rep, drops, walks) && rep.done == rep.total && i < |a|
    requires forall t: nat :: i in k.whim(t).gathers ==> t <= first || (drops != [] && t <= drops[0].step)
    ensures k.pages[i].cached && k.pages[i].owner == Ours
  {
    hide OnlyInFlight, CountedBefore, NoneLost, Taken, CachedIn, SparedIn, Swept;
    FullSweep(k, a, start, first, from, rep, drops, walks);
    var n := i / rep.slicePages;
    assert SliceDrop(drops[n], n, rep.slicePages, |k.pages|, start, first);
  }

  lemma SliceOfPage(i: nat, w: nat, n: nat)
    requires i < n * w
    ensures w > 0 && i / w < n
  {
    if i / w >= n {
      MulUp(n, i / w, w);
    }
  }

  lemma {:induction false} NoTime(whim: nat -> Whim, step: nat)
    requires forall t :: whim(t).millis == 0
    ensures ClockAt(whim, step) == 0
  {
    if step > 0 {
      NoTime(whim, step - 1);
    }
  }

  /** A sweep in which no call fails and no time passes is a full one. */
  lemma NothingStopsIt(k: Kernel, a: Pages, start: nat, first: nat, from: nat, st: nat, rep: Report, drops: seq<Drop>,
      walks: Walks)
    requires SweepEnds(k, a, start, first, from, st, rep, drops, walks) && k.Valid()
    requires (forall t :: k.whim(t).millis == 0) && forall t :: !k.whim(t).fails
    ensures st == ST_OK && rep.done == rep.total
  {
    hide InSlices, Swept, Taken, NoneLost, OnlyInFlight, CountedBefore, SparedIn, CachedIn;
    NoTime(k.whim, k.step);
  }

  /** The promise that a finished sweep charges every page to the daemon does fail: one page that
      some other process had read in, and gathers that keep reading it. */
  method OnePageSpared() returns (k: Kernel, st: nat, rep: Report)
    ensures st == ST_OK && rep.done == rep.total
    ensures |k.pages| == 1 && k.pages[0].cached && k.pages[0].owner == Elsewhere
  {
    hide SweepEnds;
    var whim := (t: nat) => Whim({0}, false, {}, 0);
    k := new Kernel(4096, 4096, whim, [Page(true, true, Elsewhere)]);
    ghost var a := k.pages;
    var d := new Daemon(k);
    ghost var walks;
    st, rep, walks := d.RechargeMap(0);
    NothingStopsIt(k, a, 0, 0, 0, st, rep, k.drops[0..], walks);
    FullSweep(k, a, 0, 0, 0, rep, k.drops[0..], walks);
  }
}
