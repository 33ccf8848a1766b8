/** Sweep-line arithmetic on trace spans: merge, holes, and who was open across them. Times are
    whole clock units. */
module Intervals {
  import opened Common

  datatype Span = Span(s: int, e: int)

  datatype Host = Host(s: int, e: int, name: string)

  // ---------------------------------------------------------------- sorting

  predicate StringLe(a: string, b: string) {
    a == [] || (b != [] && (a[0] < b[0] || (a[0] == b[0] && StringLe(a[1..], b[1..]))))
  }

  /** Tuple order. */
  predicate SpanLe(a: Span, b: Span) {
    a.s < b.s || (a.s == b.s && a.e <= b.e)
  }

  predicate HostLe(a: Host, b: Host) {
    a.s < b.s || (a.s == b.s && (a.e < b.e || (a.e == b.e && StringLe(a.name, b.name))))
  }

  lemma {:induction false} StringLeTotal(a: string, b: string)
    ensures StringLe(a, b) || StringLe(b, a)
  {
    if a != [] && b != [] {
      StringLeTotal(a[1..], b[1..]);
    }
  }

  lemma {:induction false} StringLeTrans(a: string, b: string, c: string)
    requires StringLe(a, b) && StringLe(b, c)
    ensures StringLe(a, c)
  {
    if a != [] && a[0] == b[0] == c[0] {
      StringLeTrans(a[1..], b[1..], c[1..]);
    }
  }

  lemma HostsInOrder(xs: seq<Host>)
    ensures Orders(HostLe, xs)
  {
    forall i, j | 0 <= i < |xs| && 0 <= j < |xs|
      ensures HostLe(xs[i], xs[j]) || HostLe(xs[j], xs[i])
    {
      StringLeTotal(xs[i].name, xs[j].name);
    }
    forall i, j, k | 0 <= i < |xs| && 0 <= j < |xs| && 0 <= k < |xs| && HostLe(xs[i], xs[j]) && HostLe(xs[j], xs[k])
      ensures HostLe(xs[i], xs[k])
    {
      if StringLe(xs[i].name, xs[j].name) && StringLe(xs[j].name, xs[k].name) {
        StringLeTrans(xs[i].name, xs[j].name, xs[k].name);
      }
    }
  }

  /** list.sort: in place, and nothing is lost. */
  method Sort<T>(a: array<T>, le: (T, T) -> bool)
    requires Orders(le, a[..])
    modifies a
    ensures SortedBy(a[..], le) && multiset(a[..]) == multiset(old(a[..]))
  {
    hide Orders;
    var s := Sorted(a[..], le);
    forall i | 0 <= i < a.Length {
      a[i] := s[i];
    }
    assert a[..] == s;
  }

  // ---------------------------------------------------- brute-force measure

  predicate Holds(x: Span, t: int) {
    x.s <= t < x.e
  }

  predicate Covered(xs: seq<Span>, t: int) {
    exists i :: 0 <= i < |xs| && Holds(xs[i], t)
  }

  /** How many clock units of [lo, hi) at least one span covers. */
  function Units(xs: seq<Span>, lo: int, hi: int): (n: nat)
    ensures n <= if lo < hi then hi - lo else 0
    decreases hi - lo
  {
    if hi <= lo then 0 else Units(xs, lo, hi - 1) + if Covered(xs, hi - 1) then 1 else 0
  }

  lemma {:induction false} UnitsSplit(xs: seq<Span>, lo: int, mid: int, hi: int)
    requires lo <= mid <= hi
    ensures Units(xs, lo, hi) == Units(xs, lo, mid) + Units(xs, mid, hi)
    decreases hi - mid
  {
    if mid < hi {
      UnitsSplit(xs, lo, mid, hi - 1);
    }
  }

  ghost predicate SameCover(a: seq<Span>, b: seq<Span>, lo: int, hi: int) {
    forall t :: lo <= t < hi ==> (Covered(a, t) <==> Covered(b, t))
  }

  lemma {:induction false} UnitsSame(a: seq<Span>, b: seq<Span>, lo: int, hi: int)
    requires SameCover(a, b, lo, hi)
    ensures Units(a, lo, hi) == Units(b, lo, hi)
    decreases hi - lo
  {
    if lo < hi {
      UnitsSame(a, b, lo, hi - 1);
    }
  }

  lemma {:induction false} UnitsNone(xs: seq<Span>, lo: int, hi: int)
    requires forall t :: lo <= t < hi ==> !Covered(xs, t)
    ensures Units(xs, lo, hi) == 0
    decreases hi - lo
  {
    if lo < hi {
      UnitsNone(xs, lo, hi - 1);
    }
  }

  lemma {:induction false} UnitsAll(xs: seq<Span>, lo: int, hi: int)
    requires lo <= hi && forall t :: lo <= t < hi ==> Covered(xs, t)
    ensures Units(xs, lo, hi) == hi - lo
    decreases hi - lo
  {
    if lo < hi {
      UnitsAll(xs, lo, hi - 1);
    }
  }

  lemma CoverOfBag(a: seq<Span>, b: seq<Span>, lo: int, hi: int)
    requires multiset(a) == multiset(b)
    ensures SameCover(a, b, lo, hi)
  {
    forall t
      ensures Covered(a, t) ==> Covered(b, t)
    {
      if i :| 0 <= i < |a| && Holds(a[i], t) {
        assert a[i] in multiset(a);
        var j :| 0 <= j < |b| && b[j] == a[i];
      }
    }
    forall t
      ensures Covered(b, t) ==> Covered(a, t)
    {
      if i :| 0 <= i < |b| && Holds(b[i], t) {
        assert b[i] in multiset(b);
        var j :| 0 <= j < |a| && a[j] == b[i];
      }
    }
  }

  /** Every span lies in [lo, hi], and none is inside out. */
  ghost predicate Bounds(xs: seq<Span>, lo: int, hi: int) {
    forall i :: 0 <= i < |xs| ==> lo <= xs[i].s <= xs[i].e <= hi
  }

  // ------------------------------------------------------------------- sums

  function Sum<T>(xs: seq<T>, f: T -> int): int {
    if xs == [] then 0 else Sum(xs[..|xs| - 1], f) + f(xs[|xs| - 1])
  }

  lemma {:induction false} SumSplit<T>(xs: seq<T>, f: T -> int, k: nat)
    requires k <= |xs|
    ensures Sum(xs, f) == Sum(xs[..k], f) + Sum(xs[k..], f)
  {
    if k < |xs| {
      var front := xs[..|xs| - 1];
      SumSplit(front, f, k);
      assert front[..k] == xs[..k] && xs[k..][..|xs[k..]| - 1] == front[k..];
    } else {
      assert xs[..k] == xs;
    }
  }

  lemma SumSnoc<T>(xs: seq<T>, x: T, f: T -> int)
    ensures Sum(xs + [x], f) == Sum(xs, f) + f(x)
  {
    assert (xs + [x])[..|xs|] == xs;
  }

  lemma SumNext<T>(xs: seq<T>, f: T -> int, k: nat)
    requires k < |xs|
    ensures Sum(xs[..k + 1], f) == Sum(xs[..k], f) + f(xs[k])
  {
    assert xs[..k + 1][..k] == xs[..k];
  }

  lemma {:induction false} SumZero<T>(xs: seq<T>, f: T -> int)
    requires forall i :: 0 <= i < |xs| ==> f(xs[i]) == 0
    ensures Sum(xs, f) == 0
  {
    if xs != [] {
      SumZero(xs[..|xs| - 1], f);
    }
  }

  lemma SumWithout<T>(b: seq<T>, f: T -> int, j: nat)
    requires j < |b|
    ensures Sum(b, f) == Sum(b[..j] + b[j + 1..], f) + f(b[j])
  {
    var rest := b[..j] + b[j + 1..];
    SumSplit(b, f, j + 1);
    SumNext(b, f, j);
    SumSplit(rest, f, j);
    assert rest[..j] == b[..j] && rest[j..] == b[j + 1..];
  }

  lemma LastSomewhere<T>(a: seq<T>, b: seq<T>) returns (j: nat)
    requires a != [] && multiset(a) == multiset(b)
    ensures j < |b| && b[j] == a[|a| - 1] && multiset(a[..|a| - 1]) == multiset(b[..j] + b[j + 1..])
  {
    var front, last := a[..|a| - 1], a[|a| - 1];
    assert a == front + [last];
    assert last in multiset(b);
    j :| 0 <= j < |b| && b[j] == last;
    Removed(b, j);
    assert multiset(front) == multiset(a) - multiset{last};
  }

  /** A sum does not depend on the order. */
  lemma {:induction false} SumOfBag<T>(a: seq<T>, b: seq<T>, f: T -> int)
    requires multiset(a) == multiset(b)
    ensures Sum(a, f) == Sum(b, f)
    decreases |a|
  {
    if a == [] {
      NothingElse(b);
    } else {
      var j := LastSomewhere(a, b);
      SumOfBag(a[..|a| - 1], b[..j] + b[j + 1..], f);
      SumWithout(b, f, j);
    }
  }

  // ------------------------------------------------------------------ merge

  function Len(x: Span): int {
    x.e - x.s
  }

  /** In order and apart; they may touch. */
  ghost predicate Disjoint(ms: seq<Span>) {
    && (forall i :: 0 <= i < |ms| ==> ms[i].s <= ms[i].e)
    && forall i, j :: 0 <= i < j < |ms| ==> ms[i].e <= ms[j].s
  }

  /** In order, with a hole between any two. */
  ghost predicate Separate(ms: seq<Span>) {
    && (forall i :: 0 <= i < |ms| ==> ms[i].s <= ms[i].e)
    && forall i, j :: 0 <= i < j < |ms| ==> ms[i].e < ms[j].s
  }

  lemma {:induction false} TotalIsUnits(ms: seq<Span>, lo: int, hi: int)
    requires Disjoint(ms) && Bounds(ms, lo, hi) && lo <= hi
    ensures Sum(ms, Len) == Units(ms, lo, hi)
  {
    if ms == [] {
      UnitsNone(ms, lo, hi);
    } else {
      var front, last := ms[..|ms| - 1], ms[|ms| - 1];
      assert ms == front + [last];
      TotalIsUnits(front, lo, last.s);
      UnitsSplit(ms, lo, last.s, hi);
      UnitsSplit(ms, last.s, last.e, hi);
      forall t | lo <= t < last.s
        ensures Covered(ms, t) <==> Covered(front, t)
      {
        assert forall i :: 0 <= i < |front| ==> ms[i] == front[i];
      }
      UnitsSame(ms, front, lo, last.s);
      UnitsAll(ms, last.s, last.e);
      UnitsNone(ms, last.e, hi);
    }
  }

  predicate Starts(xs: seq<Span>, v: int) {
    exists i :: 0 <= i < |xs| && xs[i].s == v
  }

  predicate Ends(xs: seq<Span>, v: int) {
    exists i :: 0 <= i < |xs| && xs[i].e == v
  }

  predicate Inside(x: Span, ms: seq<Span>) {
    exists k :: 0 <= k < |ms| && ms[k].s <= x.s && x.e <= ms[k].e
  }

  /** ms covers what xs covers and breaks only where xs does. */
  ghost predicate Merged(ms: seq<Span>, xs: seq<Span>) {
    && ms != [] && xs != [] && Separate(ms)
    && (forall i :: 0 <= i < |xs| ==> xs[i].s <= xs[i].e && Inside(xs[i], ms))
    && (forall k :: 0 <= k < |ms| ==> Starts(xs, ms[k].s) && Ends(xs, ms[k].e))
    && (forall t :: Covered(ms, t) ==> Covered(xs, t))
  }

  lemma CoverSnoc(xs: seq<Span>, x: Span, t: int)
    ensures Covered(xs + [x], t) <==> Covered(xs, t) || Holds(x, t)
  {
    var ys := xs + [x];
    assert ys[|xs|] == x && forall i :: 0 <= i < |xs| ==> ys[i] == xs[i];
  }

  lemma StartsSnoc(xs: seq<Span>, x: Span, v: int)
    ensures Starts(xs + [x], v) <==> Starts(xs, v) || x.s == v
    ensures Ends(xs + [x], v) <==> Ends(xs, v) || x.e == v
  {
    var ys := xs + [x];
    assert ys[|xs|] == x && forall i :: 0 <= i < |xs| ==> ys[i] == xs[i];
  }

  function Joined(cur: Span, x: Span): Span {
    Span(cur.s, if cur.e < x.e then x.e else cur.e)
  }

  lemma MergeFar(done: seq<Span>, cur: Span, xs: seq<Span>, x: Span)
    requires Merged(done + [cur], xs) && cur.e < x.s <= x.e
    ensures Merged(done + [cur] + [x], xs + [x])
  {
    hide Covered, Starts, Ends, Inside;
    var ms := done + [cur];
    assert (ms + [x])[|ms|] == x;
    forall i | 0 <= i < |xs + [x]|
      ensures Inside((xs + [x])[i], ms + [x])
    {
      InsideMore(xs, x, i, ms, ms + [x]);
    }
    forall k | 0 <= k < |ms + [x]|
      ensures Starts(xs + [x], (ms + [x])[k].s) && Ends(xs + [x], (ms + [x])[k].e)
    {
      StartsSnoc(xs, x, (ms + [x])[k].s);
      StartsSnoc(xs, x, (ms + [x])[k].e);
      assert k < |ms| ==> (ms + [x])[k] == ms[k];
    }
    forall t | Covered(ms + [x], t)
      ensures Covered(xs + [x], t)
    {
      CoverSnoc(ms, x, t);
      CoverSnoc(xs, x, t);
    }
    assert forall k :: 0 <= k < |ms| ==> ms[k].e <= cur.e by {
      assert ms[|ms| - 1] == cur;
    }
  }

  lemma InsideMore(xs: seq<Span>, x: Span, i: nat, ms: seq<Span>, ns: seq<Span>)
    requires i <= |xs| && (i < |xs| ==> Inside(xs[i], ms)) && |ns| >= |ms|
    requires exists k :: 0 <= k < |ns| && ns[k].s <= x.s && x.e <= ns[k].e
    requires forall k :: 0 <= k < |ms| ==> ns[k].s <= ms[k].s && ms[k].e <= ns[k].e
    ensures Inside((xs + [x])[i], ns)
  {
    if i < |xs| {
      var k :| 0 <= k < |ms| && ms[k].s <= xs[i].s && xs[i].e <= ms[k].e;
      assert ns[k].s <= xs[i].s && xs[i].e <= ns[k].e;
    }
  }

  lemma MergeNear(done: seq<Span>, cur: Span, xs: seq<Span>, x: Span)
    requires Merged(done + [cur], xs) && cur.s <= x.s <= x.e && x.s <= cur.e
    ensures Merged(done + [Joined(cur, x)], xs + [x])
  {
    hide Covered, Starts, Ends, Inside;
    var ms, ns, ys := done + [cur], done + [Joined(cur, x)], xs + [x];
    assert ms[|done|] == cur && ns[|done|] == Joined(cur, x);
    forall i | 0 <= i < |ys|
      ensures Inside(ys[i], ns)
    {
      InsideMore(xs, x, i, ms, ns);
    }
    forall i | 0 <= i < |ys|
      ensures ys[i].s <= ys[i].e
    {
      assert i < |xs| ==> ys[i] == xs[i];
    }
    forall k | 0 <= k < |ns|
      ensures Starts(ys, ns[k].s) && Ends(ys, ns[k].e)
    {
      StartsSnoc(xs, x, ns[k].s);
      StartsSnoc(xs, x, ns[k].e);
      assert ns[k].s == ms[k].s && (ns[k].e == ms[k].e || ns[k].e == x.e);
    }
    forall t | Covered(ns, t)
      ensures Covered(ys, t)
    {
      CoverSnoc(done, cur, t);
      CoverSnoc(done, Joined(cur, x), t);
      CoverSnoc(xs, x, t);
    }
    forall i, j | 0 <= i < j < |ns|
      ensures ns[i].e < ns[j].s
    {
      assert ns[i] == ms[i] && ns[j].s == ms[j].s;
    }
    forall k | 0 <= k < |ns|
      ensures ns[k].s <= ns[k].e
    {
      assert ns[k].s == ms[k].s && ms[k].e <= ns[k].e;
    }
  }

  lemma MergeFirst(x: Span)
    requires x.s <= x.e
    ensures Merged([x], [x])
  {
    var xs := [x];
    assert xs[0] == x;
    assert Inside(x, xs);
  }

  // ------------------------------------------------------- inside-out spans

  /** The spans that do not end before they begin; the others cover nothing. */
  function Proper(xs: seq<Span>): (ps: seq<Span>)
    ensures forall i :: 0 <= i < |ps| ==> ps[i].s <= ps[i].e
    ensures forall x :: x in ps <==> x in xs && x.s <= x.e
  {
    if xs == [] then []
    else Proper(xs[..|xs| - 1]) + if xs[|xs| - 1].s <= xs[|xs| - 1].e then [xs[|xs| - 1]] else []
  }

  lemma ProperSnoc(xs: seq<Span>, x: Span)
    ensures Proper(xs + [x]) == Proper(xs) + if x.s <= x.e then [x] else []
  {
    assert (xs + [x])[..|xs|] == xs;
  }

  /** A span is still running, or ends, where x begins. */
  predicate Sheltered(x: Span, xs: seq<Span>) {
    exists j :: 0 <= j < |xs| && xs[j].s < x.s <= xs[j].e
  }

  /** An inside-out span that no other shelters is merged as a block of negative length. */
  function LossOf(x: Span, xs: seq<Span>): nat {
    if x.e < x.s && !Sheltered(x, xs) then x.s - x.e else 0
  }

  function Loss(xs: seq<Span>): int {
    Sum(xs, (x: Span) => LossOf(x, xs))
  }

  /** Every inside-out span is sheltered. */
  ghost predicate Tame(xs: seq<Span>) {
    forall i :: 0 <= i < |xs| && xs[i].e < xs[i].s ==> Sheltered(xs[i], xs)
  }

  lemma {:induction false} SumOfNats<T>(xs: seq<T>, f: T -> int)
    requires forall i :: 0 <= i < |xs| ==> f(xs[i]) >= 0
    ensures Sum(xs, f) >= 0
    ensures Sum(xs, f) == 0 <==> forall i :: 0 <= i < |xs| ==> f(xs[i]) == 0
  {
    if xs != [] {
      var front := xs[..|xs| - 1];
      SumOfNats(front, f);
      assert forall i :: 0 <= i < |front| ==> front[i] == xs[i];
    }
  }

  lemma LossOfTame(xs: seq<Span>)
    ensures Loss(xs) >= 0 && (Loss(xs) == 0 <==> Tame(xs))
  {
    SumOfNats(xs, (x: Span) => LossOf(x, xs));
  }

  lemma {:induction false} SumSame<T>(xs: seq<T>, f: T -> int, g: T -> int)
    requires forall i :: 0 <= i < |xs| ==> f(xs[i]) == g(xs[i])
    ensures Sum(xs, f) == Sum(xs, g)
  {
    if xs != [] {
      SumSame(xs[..|xs| - 1], f, g);
    }
  }

  ghost predicate Comes(seen: seq<Span>, x: Span) {
    forall j :: 0 <= j < |seen| ==> SpanLe(seen[j], x)
  }

  /** A later span shelters none of those before it. */
  lemma LossSnoc(seen: seq<Span>, x: Span)
    requires Comes(seen, x)
    ensures Loss(seen + [x]) == Loss(seen) + LossOf(x, seen)
  {
    var all := seen + [x];
    forall y | y in all
      ensures LossOf(y, all) == LossOf(y, seen)
    {
      assert Sheltered(y, seen) ==> Sheltered(y, all) by {
        if j :| 0 <= j < |seen| && seen[j].s < y.s <= seen[j].e {
          assert all[j] == seen[j];
        }
      }
      assert y.s <= x.s;
    }
    SumSame(all, (y: Span) => LossOf(y, all), (y: Span) => LossOf(y, seen));
    SumSnoc(seen, x, (y: Span) => LossOf(y, seen));
  }

  lemma NothingToSum()
    ensures Sum([], Len) == 0 && Proper([]) == []
  {
  }

  /** Blocks of negative length only take away. */
  lemma {:induction false} ProperSum(ms: seq<Span>)
    ensures Sum(ms, Len) <= Sum(Proper(ms), Len)
    ensures Sum(ms, Len) == Sum(Proper(ms), Len) ==> Proper(ms) == ms
  {
    hide Sum, Proper;
    NothingToSum();
    if ms != [] {
      var front, last := ms[..|ms| - 1], ms[|ms| - 1];
      ProperSum(front);
      assert ms == front + [last];
      ProperSnoc(front, last);
      SumSnoc(front, last, Len);
      SumSnoc(Proper(front), last, Len);
      assert Proper(front) + [] == Proper(front);
    }
  }

  /** Every block ends before the next begins. */
  ghost predicate Chain(ms: seq<Span>) {
    forall k :: 0 < k < |ms| ==> ms[k - 1].e < ms[k].s
  }

  /** The state of the merge: the blocks are the merged proper spans, and in between those inside-out
      spans that were past everything when their turn came. */
  ghost predicate Merging(ms: seq<Span>, seen: seq<Span>) {
    && ms != [] && seen != [] && Chain(ms)
    && (if Proper(seen) == [] then Proper(ms) == [] else Merged(Proper(ms), Proper(seen)))
    && Sum(ms, Len) == Sum(Proper(ms), Len) - Loss(seen)
    && ms[|ms| - 1].s <= seen[|seen| - 1].s
    && forall y :: y in Proper(seen) ==> PastAll(ms[|ms| - 1], y)
  }

  /** y ends within the block x, or before it if x is inside-out. */
  predicate PastAll(x: Span, y: Span) {
    y.e <= x.e || (x.e < x.s && y.e < x.s)
  }

  lemma MergingFirst(x: Span)
    ensures Merging([x], [x])
  {
    hide Merged, Loss;
    assert [] + [x] == [x];
    ProperSnoc([], x);
    LossSnoc([], x);
    SumSnoc([], x, Len);
    LossOfTame([]);
    if x.s <= x.e {
      MergeFirst(x);
    }
  }

  lemma ChainSnoc(ms: seq<Span>, x: Span)
    requires Chain(ms) && (ms != [] ==> ms[|ms| - 1].e < x.s)
    ensures Chain(ms + [x])
  {
  }

  /** A proper block that is last among all blocks is last among the proper ones. */
  lemma LastProper(done: seq<Span>, cur: Span)
    ensures cur.s <= cur.e ==> Proper(done + [cur]) == Proper(done) + [cur]
    ensures cur.s > cur.e ==> Proper(done + [cur]) == Proper(done)
  {
    ProperSnoc(done, cur);
    assert Proper(done) + [] == Proper(done);
  }

  /** Past the end of the current block nothing shelters x, and nothing seen reaches it. */
  lemma NothingReaches(ms: seq<Span>, seen: seq<Span>, x: Span)
    requires Merging(ms, seen) && Comes(seen, x) && ms[|ms| - 1].e < x.s
    ensures !Sheltered(x, seen) && forall y :: y in Proper(seen) ==> y.e < x.s
  {
    hide Merged, Loss, Chain, Sum;
    assert SpanLe(seen[|seen| - 1], x);
    forall y | y in Proper(seen)
      ensures y.e < x.s
    {
      assert PastAll(ms[|ms| - 1], y);
    }
    forall j | 0 <= j < |seen| && seen[j].s < x.s
      ensures seen[j].e < x.s
    {
      assert seen[j].s <= seen[j].e ==> seen[j] in Proper(seen);
    }
  }

  lemma EndsBelow(ms: seq<Span>, seen: seq<Span>, t: int)
    requires Merged(ms, seen) && forall y :: y in seen ==> y.e < t
    ensures ms[|ms| - 1].e < t
  {
    hide Inside, Covered, Separate, Starts;
    assert Ends(seen, ms[|ms| - 1].e);
  }

  lemma FarMerged(ps: seq<Span>, seen: seq<Span>, x: Span)
    requires Merged(ps, seen) && x.s <= x.e && forall y :: y in seen ==> y.e < x.s
    ensures Merged(ps + [x], seen + [x])
  {
    hide Inside, Covered, Separate, Starts, Ends;
    EndsBelow(ps, seen, x.s);
    assert ps[..|ps| - 1] + [ps[|ps| - 1]] == ps;
    MergeFar(ps[..|ps| - 1], ps[|ps| - 1], seen, x);
  }

  /** A span that begins past the current block begins the next one. */
  lemma StepFar(ms: seq<Span>, seen: seq<Span>, x: Span)
    requires Merging(ms, seen) && Comes(seen, x) && ms[|ms| - 1].e < x.s
    ensures Merging(ms + [x], seen + [x])
  {
    hide Merged, Loss, Chain, Sum, Sheltered, Proper;
    NothingReaches(ms, seen, x);
    ChainSnoc(ms, x);
    LastProper(seen, x);
    LastProper(ms, x);
    LossSnoc(seen, x);
    SumSnoc(ms, x, Len);
    SumSnoc(Proper(ms), x, Len);
    if x.s <= x.e {
      if Proper(seen) == [] {
        MergeFirst(x);
        assert [] + [x] == [x];
      } else {
        FarMerged(Proper(ms), Proper(seen), x);
      }
    }
  }

  lemma LastIsShelter(done: seq<Span>, cur: Span, seen: seq<Span>, x: Span)
    requires Merged(done + [cur], Proper(seen)) && Comes(seen, x) && x.e < x.s <= cur.e
    ensures Sheltered(x, seen)
  {
    hide Inside, Covered, Separate, Starts, Proper;
    assert (done + [cur])[|done|] == cur;
    assert Ends(Proper(seen), cur.e);
    var i :| 0 <= i < |Proper(seen)| && Proper(seen)[i].e == cur.e;
    var y := Proper(seen)[i];
    assert y in seen;
    var j :| 0 <= j < |seen| && seen[j] == y;
    assert SpanLe(y, x);
  }

  /** A proper span that begins within the current block extends it; an inside-out one is nothing. */
  lemma StepNear(done: seq<Span>, cur: Span, seen: seq<Span>, x: Span)
    requires Merging(done + [cur], seen) && Comes(seen, x) && x.s <= cur.e
    ensures Merging(done + [Joined(cur, x)], seen + [x])
  {
    hide Merged, Loss, Sum, Sheltered, Proper;
    var ms := done + [cur];
    assert ms[|done|] == cur && SpanLe(seen[|seen| - 1], x);
    LastProper(done, cur);
    LastProper(done, Joined(cur, x));
    LastProper(seen, x);
    LossSnoc(seen, x);
    SumSnoc(done, cur, Len);
    SumSnoc(done, Joined(cur, x), Len);
    SumSnoc(Proper(done), cur, Len);
    SumSnoc(Proper(done), Joined(cur, x), Len);
    assert cur.s <= cur.e && Proper(seen) != [];
    var ns := done + [Joined(cur, x)];
    assert forall k :: 0 <= k < |done| ==> ns[k] == ms[k];
    assert ns[|done|] == Joined(cur, x);
    if x.s <= x.e {
      MergeNear(Proper(done), cur, Proper(seen), x);
      assert Chain(ns);
      assert Merged(Proper(ns), Proper(seen + [x]));
      assert Sum(ns, Len) == Sum(Proper(ns), Len) - Loss(seen + [x]);
      assert forall y :: y in Proper(seen + [x]) ==> PastAll(ns[|ns| - 1], y);
    } else {
      LastIsShelter(Proper(done), cur, seen, x);
    }
  }

  // ---------------------------------------------------- first start, last end

  /** Where the merge begins and ends. The current block ends before it begins exactly if it is the
      latest span, inside-out and unsheltered. */
  ghost predicate Edges(ms: seq<Span>, seen: seq<Span>) {
    && ms != [] && seen != [] && ms[0].s == seen[0].s
    && var cur, last := ms[|ms| - 1], seen[|seen| - 1];
       if cur.s <= cur.e then LossOf(last, seen) == 0 else cur == last && LossOf(last, seen) > 0
  }

  lemma NotItsOwnShelter(seen: seq<Span>, x: Span)
    ensures LossOf(x, seen + [x]) == LossOf(x, seen)
  {
    var all := seen + [x];
    assert all[|seen|] == x && forall j :: 0 <= j < |seen| ==> all[j] == seen[j];
  }

  lemma EdgesFirst(x: Span)
    ensures Edges([x], [x])
  {
    assert [] + [x] == [x];
    NotItsOwnShelter([], x);
  }

  lemma EdgesFar(ms: seq<Span>, seen: seq<Span>, x: Span)
    requires Merging(ms, seen) && Edges(ms, seen) && Comes(seen, x) && ms[|ms| - 1].e < x.s
    ensures Edges(ms + [x], seen + [x])
  {
    hide Merging, Comes, Sheltered;
    NothingReaches(ms, seen, x);
    NotItsOwnShelter(seen, x);
  }

  lemma EdgesNear(done: seq<Span>, cur: Span, seen: seq<Span>, x: Span)
    requires Merging(done + [cur], seen) && Edges(done + [cur], seen) && Comes(seen, x) && x.s <= cur.e
    ensures Edges(done + [Joined(cur, x)], seen + [x])
  {
    hide Merged, Loss, Sheltered, Proper, Sum, Chain;
    assert (done + [cur])[|done|] == cur && SpanLe(seen[|seen| - 1], x);
    assert done != [] ==> (done + [Joined(cur, x)])[0] == (done + [cur])[0];
    LastProper(done, cur);
    NotItsOwnShelter(seen, x);
    if x.e < x.s {
      LastIsShelter(Proper(done), cur, seen, x);
    }
  }

  ghost predicate FirstStart(xs: seq<Span>, v: int) {
    Starts(xs, v) && forall x :: x in xs ==> v <= x.s
  }

  ghost predicate Newest(xs: seq<Span>, z: Span) {
    z in xs && forall x :: x in xs ==> SpanLe(x, z)
  }

  /** The greatest end of a proper span, unless the newest span is inside-out and unsheltered: then
      the end of that one, however early. */
  ghost predicate LastEnd(xs: seq<Span>, v: int) {
    exists z :: Newest(xs, z) &&
      if LossOf(z, xs) > 0 then v == z.e
      else Ends(Proper(xs), v) && forall x :: x in Proper(xs) ==> x.e <= v
  }

  /** The wall time of a trace, from its raw spans. */
  ghost predicate WallIs(xs: seq<Span>, wall: int) {
    exists lo :: FirstStart(xs, lo) && LastEnd(xs, lo + wall)
  }

  lemma OneFirstStart(xs: seq<Span>, v: int, w: int)
    requires FirstStart(xs, v) && FirstStart(xs, w)
    ensures v == w
  {
  }

  lemma OneLastEnd(xs: seq<Span>, v: int, w: int)
    requires LastEnd(xs, v) && LastEnd(xs, w)
    ensures v == w
  {
    hide Proper, LossOf;
  }

  lemma OneWall(xs: seq<Span>, v: int, w: int)
    requires WallIs(xs, v) && WallIs(xs, w)
    ensures v == w
  {
    hide FirstStart, LastEnd;
    var lo :| FirstStart(xs, lo) && LastEnd(xs, lo + v);
    var at :| FirstStart(xs, at) && LastEnd(xs, at + w);
    OneFirstStart(xs, lo, at);
    OneLastEnd(xs, lo + v, at + w);
  }

  lemma EndsOfBlocks(ms: seq<Span>, xs: seq<Span>)
    requires Merging(ms, xs) && Edges(ms, xs) && SortedBy(xs, SpanLe)
    ensures LastEnd(xs, ms[|ms| - 1].e)
  {
    hide Separate, Inside, Covered, Starts, Loss, Chain, Sum, LossOf, Proper;
    var cur, last := ms[|ms| - 1], xs[|xs| - 1];
    assert Newest(xs, last);
    assert ms[..|ms| - 1] + [cur] == ms;
    LastProper(ms[..|ms| - 1], cur);
    if cur.s <= cur.e {
      assert Merged(Proper(ms), Proper(xs));
      assert Proper(ms)[|Proper(ms)| - 1] == cur;
      assert Ends(Proper(xs), cur.e);
    }
  }

  lemma EdgesOfBag(a: seq<Span>, b: seq<Span>, lo: int, hi: int)
    requires multiset(a) == multiset(b) && FirstStart(a, lo) && LastEnd(a, hi)
    ensures FirstStart(b, lo) && LastEnd(b, hi)
  {
    hide Proper, Starts, Ends, LossOf;
    SameMembers(a, b);
    SameInBag(a, b, lo);
    ProperOfBag(a, b);
    SameMembers(Proper(a), Proper(b));
    SameInBag(Proper(a), Proper(b), hi);
    var z :| Newest(a, z) && if LossOf(z, a) > 0 then hi == z.e
                             else Ends(Proper(a), hi) && forall x :: x in Proper(a) ==> x.e <= hi;
    LossOfOne(z, a, b);
    assert Newest(b, z);
  }

  lemma SameMembers(a: seq<Span>, b: seq<Span>)
    requires multiset(a) == multiset(b)
    ensures forall x :: x in a <==> x in b
  {
    assert forall x :: (x in a <==> x in multiset(a)) && (x in b <==> x in multiset(b));
  }

  /** The wall time the tool computes is that of the raw spans. */
  lemma WallOfMerge(ms: seq<Span>, xs: seq<Span>, raw: seq<Span>)
    requires Merging(ms, xs) && Edges(ms, xs) && SortedBy(xs, SpanLe) && multiset(raw) == multiset(xs)
    ensures WallIs(raw, ms[|ms| - 1].e - ms[0].s)
  {
    hide Merging, LastEnd, LossOf, SpanLe;
    EndsOfBlocks(ms, xs);
    assert FirstStart(xs, ms[0].s) by {
      StartsFirst(xs);
    }
    hide FirstStart;
    EdgesOfBag(xs, raw, ms[0].s, ms[|ms| - 1].e);
  }

  lemma StartsFirst(xs: seq<Span>)
    requires xs != [] && SortedBy(xs, SpanLe)
    ensures FirstStart(xs, xs[0].s)
  {
  }

  /** A trace need not be one instant for its wall time to be 0. */
  lemma ZeroWall()
    ensures var raw := [Span(0, 1), Span(3, 0)]; WallIs(raw, 0) && !OneInstant(Proper(raw))
  {
    var raw := [Span(0, 1), Span(3, 0)];
    assert raw[0].s == 0 && raw[1] == Span(3, 0);
    assert Newest(raw, raw[1]);
    assert LossOf(raw[1], raw) > 0;
    assert LastEnd(raw, 0 + 0);
    assert FirstStart(raw, 0);
    assert Span(0, 1) in Proper(raw) by {
      assert raw[0] in raw;
    }
  }

  /** One span that ends before it begins is enough to break the totals. */
  lemma NotTame()
    ensures !Tame([Span(5, 3)])
  {
    var raw := [Span(5, 3)];
    assert raw[0].e < raw[0].s;
  }

  /** The merge loop over sorted spans. */
  method MergeSpans(xs: seq<Span>) returns (ms: seq<Span>)
    requires xs != [] && SortedBy(xs, SpanLe)
    ensures ms != [] && Merging(ms, xs) && Edges(ms, xs)
    ensures Tame(xs) ==> Merged(ms, Proper(xs))
  {
    hide Merging, Merged, Tame, Loss, Edges;
    var done, cs, ce := [], xs[0].s, xs[0].e;
    MergingFirst(xs[0]);
    EdgesFirst(xs[0]);
    assert xs[..1] == [xs[0]] && [] + [xs[0]] == [xs[0]] && xs[0] == Span(cs, ce);
    for i := 1 to |xs|
      invariant Merging(done + [Span(cs, ce)], xs[..i]) && Edges(done + [Span(cs, ce)], xs[..i])
    {
      var s, e := xs[i].s, xs[i].e;
      assert xs[..i + 1] == xs[..i] + [xs[i]];
      if s > ce {
        EdgesFar(done + [Span(cs, ce)], xs[..i], xs[i]);
        StepFar(done + [Span(cs, ce)], xs[..i], xs[i]);
        done := done + [Span(cs, ce)];
        cs, ce := s, e;
        assert xs[i] == Span(cs, ce);
      } else {
        EdgesNear(done, Span(cs, ce), xs[..i], xs[i]);
        StepNear(done, Span(cs, ce), xs[..i], xs[i]);
        ce := if ce < e then e else ce;
      }
    }
    assert xs[..|xs|] == xs;
    ms := done + [Span(cs, ce)];
    TameMerges(ms, xs);
  }

  lemma TameMerges(ms: seq<Span>, xs: seq<Span>)
    requires Merging(ms, xs)
    ensures Tame(xs) ==> Merged(ms, Proper(xs))
  {
    hide Merged, Chain, Loss;
    LossOfTame(xs);
    ProperSum(ms);
  }

  lemma {:induction false} ProperKeeps(xs: seq<Span>, x: Span)
    ensures multiset(Proper(xs))[x] == if x.s <= x.e then multiset(xs)[x] else 0
  {
    if xs != [] {
      var front, last := xs[..|xs| - 1], xs[|xs| - 1];
      ProperKeeps(front, x);
      assert xs == front + [last];
    }
  }

  lemma ProperOfBag(a: seq<Span>, b: seq<Span>)
    requires multiset(a) == multiset(b)
    ensures multiset(Proper(a)) == multiset(Proper(b))
  {
    forall x: Span
      ensures multiset(Proper(a))[x] == multiset(Proper(b))[x]
    {
      ProperKeeps(a, x);
      ProperKeeps(b, x);
    }
  }

  lemma ShelteredOfBag(x: Span, a: seq<Span>, b: seq<Span>)
    requires multiset(a) == multiset(b) && Sheltered(x, a)
    ensures Sheltered(x, b)
  {
    var j :| 0 <= j < |a| && a[j].s < x.s <= a[j].e;
    assert a[j] in multiset(a);
    var k :| 0 <= k < |b| && b[k] == a[j];
  }

  lemma LossOfOne(x: Span, a: seq<Span>, b: seq<Span>)
    requires multiset(a) == multiset(b)
    ensures LossOf(x, a) == LossOf(x, b)
  {
    if Sheltered(x, a) {
      ShelteredOfBag(x, a, b);
    }
    if Sheltered(x, b) {
      ShelteredOfBag(x, b, a);
    }
  }

  lemma LossOfBag(a: seq<Span>, b: seq<Span>)
    requires multiset(a) == multiset(b)
    ensures Loss(a) == Loss(b) && (Tame(a) <==> Tame(b))
  {
    forall x: Span
      ensures LossOf(x, a) == LossOf(x, b)
    {
      LossOfOne(x, a, b);
    }
    SumSame(a, (x: Span) => LossOf(x, a), (x: Span) => LossOf(x, b));
    SumOfBag(a, b, (x: Span) => LossOf(x, b));
    LossOfTame(a);
    LossOfTame(b);
  }

  /** Inside-out spans cover nothing. */
  lemma ProperCovers(xs: seq<Span>, lo: int, hi: int)
    ensures Units(Proper(xs), lo, hi) == Units(xs, lo, hi)
  {
    forall t | lo <= t < hi
      ensures Covered(Proper(xs), t) <==> Covered(xs, t)
    {
      if i :| 0 <= i < |xs| && Holds(xs[i], t) {
        assert xs[i] in Proper(xs);
      }
      if i :| 0 <= i < |Proper(xs)| && Holds(Proper(xs)[i], t) {
        assert Proper(xs)[i] in xs;
      }
    }
    UnitsSame(Proper(xs), xs, lo, hi);
  }

  // -------------------------------------------------------- merged and brute

  /** Merging changes nothing about what is covered. */
  lemma MergedCovers(ms: seq<Span>, xs: seq<Span>, lo: int, hi: int)
    requires Merged(ms, xs)
    ensures SameCover(ms, xs, lo, hi)
  {
    forall t | Covered(xs, t)
      ensures Covered(ms, t)
    {
      var i :| 0 <= i < |xs| && Holds(xs[i], t);
      assert Inside(xs[i], ms);
      var k :| 0 <= k < |ms| && ms[k].s <= xs[i].s && xs[i].e <= ms[k].e;
      assert Holds(ms[k], t);
    }
  }

  lemma OuterEnds(ms: seq<Span>, k: nat)
    requires Separate(ms) && k < |ms|
    ensures ms[0].s <= ms[k].s <= ms[k].e <= ms[|ms| - 1].e
  {
    assert k > 0 ==> ms[0].e < ms[k].s;
    assert k < |ms| - 1 ==> ms[k].e < ms[|ms| - 1].s;
  }

  /** The merged spans begin and end where the raw ones do. */
  lemma MergedExtent(ms: seq<Span>, xs: seq<Span>)
    requires Merged(ms, xs)
    ensures Bounds(xs, ms[0].s, ms[|ms| - 1].e) && ms[0].s <= ms[|ms| - 1].e
  {
    hide Separate, Starts, Ends, Covered;
    OuterEnds(ms, 0);
    forall i | 0 <= i < |xs|
      ensures ms[0].s <= xs[i].s <= xs[i].e <= ms[|ms| - 1].e
    {
      assert Inside(xs[i], ms);
      var k :| 0 <= k < |ms| && ms[k].s <= xs[i].s && xs[i].e <= ms[k].e;
      OuterEnds(ms, k);
    }
  }

  lemma MergedBounds(ms: seq<Span>, xs: seq<Span>, lo: int, hi: int)
    requires Merged(ms, xs) && Bounds(xs, lo, hi)
    ensures Bounds(ms, lo, hi)
  {
    hide Inside, Covered;
    forall k | 0 <= k < |ms|
      ensures lo <= ms[k].s <= ms[k].e <= hi
    {
      assert Starts(xs, ms[k].s) && Ends(xs, ms[k].e);
    }
  }

  lemma BoundsOfBag(a: seq<Span>, b: seq<Span>, lo: int, hi: int)
    requires multiset(a) == multiset(b) && Bounds(a, lo, hi)
    ensures Bounds(b, lo, hi)
  {
    forall i | 0 <= i < |b|
      ensures lo <= b[i].s <= b[i].e <= hi
    {
      assert b[i] in multiset(b);
    }
  }

  lemma MergedTotal(ms: seq<Span>, xs: seq<Span>, raw: seq<Span>, lo: int, hi: int)
    requires Merged(ms, xs) && multiset(raw) == multiset(xs) && lo <= hi && Bounds(raw, lo, hi)
    ensures Sum(ms, Len) == Units(raw, lo, hi)
  {
    BoundsOfBag(raw, xs, lo, hi);
    MergedBounds(ms, xs, lo, hi);
    MergedCovers(ms, xs, lo, hi);
    TotalIsUnits(ms, lo, hi);
    UnitsSame(ms, xs, lo, hi);
    CoverOfBag(xs, raw, lo, hi);
    UnitsSame(xs, raw, lo, hi);
  }

  /** The blocks of a merge add up to what the raw spans cover, less the unsheltered inside-out ones. */
  lemma MergingTotal(ms: seq<Span>, xs: seq<Span>, raw: seq<Span>, lo: int, hi: int)
    requires Merging(ms, xs) && multiset(raw) == multiset(xs) && lo <= hi && Bounds(Proper(raw), lo, hi)
    ensures Sum(ms, Len) == Units(raw, lo, hi) - Loss(raw)
  {
    hide Merged, Loss, Chain, Units, Bounds;
    ProperOfBag(raw, xs);
    LossOfBag(raw, xs);
    ProperCovers(raw, lo, hi);
    if Proper(xs) == [] {
      assert |multiset(Proper(raw))| == 0;
      assert Proper(raw) == [];
      NothingCovered(lo, hi);
    } else {
      MergedTotal(Proper(ms), Proper(xs), Proper(raw), lo, hi);
    }
  }

  lemma NothingCovered(lo: int, hi: int)
    ensures Units([], lo, hi) == 0
  {
    UnitsNone([], lo, hi);
  }

  lemma ComesNext(xs: seq<Span>, i: nat)
    requires SortedBy(xs, SpanLe) && i < |xs|
    ensures Comes(xs[..i], xs[i])
  {
  }

  /** union_duration: sorts its list in place. For all lists the result is the number of clock units
      that at least one span covers less the lengths of the unsheltered inside-out spans; so it is
      that number if and only if there are none. */
  method UnionDuration(spans: array<Span>) returns (total: int)
    modifies spans
    ensures multiset(spans[..]) == multiset(old(spans[..])) && SortedBy(spans[..], SpanLe)
    ensures forall lo, hi :: lo <= hi && Bounds(Proper(old(spans[..])), lo, hi) ==>
              && total == Units(old(spans[..]), lo, hi) - Loss(old(spans[..]))
              && (total == Units(old(spans[..]), lo, hi) <==> Tame(old(spans[..])))
  {
    hide Merging, Merged, Units, Loss, Tame, SpanLe, Proper;
    ghost var was := spans[..];
    LossOfTame(was);
    if spans.Length == 0 {
      assert was == [];
      forall lo, hi
        ensures Units(was, lo, hi) == 0
      {
        NothingCovered(lo, hi);
      }
      NoLoss();
      return 0;
    }
    SpansInOrder(was);
    Sort(spans, SpanLe);
    ghost var xs := spans[..];
    total := 0;
    var cs, ce := spans[0].s, spans[0].e;
    ghost var done: seq<Span> := [];
    MergingFirst(xs[0]);
    NothingToSum();
    assert xs[..1] == [xs[0]] && [] + [xs[0]] == [xs[0]] && xs[0] == Span(cs, ce);
    for i := 1 to spans.Length
      invariant spans[..] == xs
      invariant Merging(done + [Span(cs, ce)], xs[..i]) && total == Sum(done, Len)
    {
      var s, e := spans[i].s, spans[i].e;
      ComesNext(xs, i);
      assert xs[i] == spans[i] && xs[..i + 1] == xs[..i] + [xs[i]];
      if s > ce {
        StepFar(done + [Span(cs, ce)], xs[..i], xs[i]);
        SumSnoc(done, Span(cs, ce), Len);
        total := total + (ce - cs);
        done := done + [Span(cs, ce)];
        cs, ce := s, e;
        assert xs[i] == Span(cs, ce);
      } else {
        StepNear(done, Span(cs, ce), xs[..i], xs[i]);
        ce := if ce < e then e else ce;
      }
    }
    assert xs[..spans.Length] == xs;
    SumSnoc(done, Span(cs, ce), Len);
    total := total + (ce - cs);
    forall lo, hi | lo <= hi && Bounds(Proper(was), lo, hi)
      ensures total == Units(was, lo, hi) - Loss(was)
    {
      MergingTotal(done + [Span(cs, ce)], xs, was, lo, hi);
    }
  }

  lemma NoLoss()
    ensures Loss([]) == 0
  {
  }

  lemma SpansInOrder(xs: seq<Span>)
    ensures Orders(SpanLe, xs)
  {
  }

  // ------------------------------------------------------------------- gaps

  /** The holes between merged spans that are at least `least` long. */
  function GapsOf(ms: seq<Span>, least: int): seq<Span> {
    if |ms| < 2 then []
    else
      var g := Span(ms[|ms| - 2].e, ms[|ms| - 1].s);
      GapsOf(ms[..|ms| - 1], least) + if Len(g) >= least then [g] else []
  }

  predicate Between(ms: seq<Span>, k: int, g: Span) {
    0 < k < |ms| && g == Span(ms[k - 1].e, ms[k].s)
  }

  lemma {:induction false} GapsAreHoles(ms: seq<Span>, least: int, g: Span)
    ensures g in GapsOf(ms, least) <==> Len(g) >= least && exists k :: Between(ms, k, g)
  {
    if |ms| >= 2 {
      var front := ms[..|ms| - 1];
      GapsAreHoles(front, least, g);
      assert forall k :: Between(front, k, g) ==> Between(ms, k, g);
      assert forall k :: Between(ms, k, g) ==> Between(front, k, g) || k == |ms| - 1;
      assert Between(ms, |ms| - 1, Span(ms[|ms| - 2].e, ms[|ms| - 1].s));
    }
  }

  lemma {:induction false} GapsInOrder(ms: seq<Span>, least: int)
    requires Separate(ms)
    ensures Disjoint(GapsOf(ms, least))
    ensures ms != [] ==> Bounds(GapsOf(ms, least), ms[0].s, ms[|ms| - 1].s)
  {
    if |ms| >= 2 {
      GapsInOrder(ms[..|ms| - 1], least);
    }
  }

  /** Busy time and all the holes make up the wall time. */
  lemma {:induction false} BusyAndIdle(ms: seq<Span>, least: int)
    requires Chain(ms) && ms != []
    ensures Sum(ms, Len) + Sum(GapsOf(ms, least), Len) <= ms[|ms| - 1].e - ms[0].s
    ensures least <= 1 ==> Sum(ms, Len) + Sum(GapsOf(ms, least), Len) == ms[|ms| - 1].e - ms[0].s
  {
    var front, last := ms[..|ms| - 1], ms[|ms| - 1];
    if front == [] {
      assert Sum(front, Len) == 0;
    } else {
      BusyAndIdle(front, least);
      SumSnoc(GapsOf(front, least), Span(front[|front| - 1].e, last.s), Len);
      assert GapsOf(front, least) + [] == GapsOf(front, least);
    }
  }

  /** An idle stretch: some span ends where it begins, some span begins where it ends, and none
      reaches into it. */
  ghost predicate IsHole(xs: seq<Span>, g: Span) {
    && g.s < g.e && Ends(xs, g.s) && Starts(xs, g.e)
    && forall i :: 0 <= i < |xs| ==> xs[i].e <= g.s || g.e <= xs[i].s
  }

  lemma Apart(ms: seq<Span>, i: nat, j: nat)
    requires Separate(ms) && i < |ms| && j < |ms|
    ensures ms[i].s <= ms[i].e && (i < j <==> ms[i].e < ms[j].s)
  {
  }

  /** Every raw span lies beside a hole of the merged ones. */
  lemma BesideHole(ms: seq<Span>, x: Span, k: nat)
    requires Separate(ms) && 0 < k < |ms| && Inside(x, ms)
    ensures x.e <= ms[k - 1].e || ms[k].s <= x.s
  {
    hide Separate;
    var m :| 0 <= m < |ms| && ms[m].s <= x.s && x.e <= ms[m].e;
    Apart(ms, m, k - 1);
    Apart(ms, k, m);
    Apart(ms, m, m);
    Apart(ms, k, k);
    if m < k - 1 {
      Apart(ms, k - 1, k - 1);
    }
  }

  lemma HoleOfMerged(ms: seq<Span>, xs: seq<Span>, k: int, g: Span)
    requires Merged(ms, xs) && Between(ms, k, g)
    ensures IsHole(xs, g)
  {
    hide Covered, Starts, Ends, Inside, Separate;
    Apart(ms, k - 1, k);
    assert Ends(xs, ms[k - 1].e) && Starts(xs, ms[k].s);
    forall i | 0 <= i < |xs|
      ensures xs[i].e <= g.s || g.e <= xs[i].s
    {
      BesideHole(ms, xs[i], k);
    }
  }

  lemma HoleIsIdle(xs: seq<Span>, g: Span, t: int)
    requires IsHole(xs, g) && Covered(xs, t)
    ensures t < g.s || g.e <= t
  {
  }

  lemma UnitIsCovered(ms: seq<Span>, xs: seq<Span>, k: nat, t: int)
    requires Merged(ms, xs) && k < |ms| && ms[k].s <= t < ms[k].e
    ensures Covered(xs, t)
  {
    hide Inside, Starts, Ends, Separate;
    assert Holds(ms[k], t);
  }

  lemma BlockOf(ms: seq<Span>, xs: seq<Span>, i: nat) returns (k: nat)
    requires Merged(ms, xs) && i < |xs|
    ensures k < |ms| && ms[k].s <= xs[i].s <= xs[i].e <= ms[k].e
  {
    hide Covered, Separate, Starts, Ends;
    assert Inside(xs[i], ms);
    k :| 0 <= k < |ms| && ms[k].s <= xs[i].s && xs[i].e <= ms[k].e;
  }

  /** No hole begins or ends inside a merged span. */
  lemma HoleMeetsEdges(ms: seq<Span>, xs: seq<Span>, g: Span) returns (k: nat, m: nat)
    requires Merged(ms, xs) && IsHole(xs, g)
    ensures k < |ms| && m < |ms| && ms[k].e == g.s && ms[m].s == g.e
  {
    hide Merged, Covered;
    var i: nat :| i < |xs| && xs[i].e == g.s;
    var j: nat :| j < |xs| && xs[j].s == g.e;
    k := BlockOf(ms, xs, i);
    m := BlockOf(ms, xs, j);
    if g.s < ms[k].e {
      UnitIsCovered(ms, xs, k, g.s);
      HoleIsIdle(xs, g, g.s);
    }
    if ms[m].s < g.e {
      UnitIsCovered(ms, xs, m, g.e - 1);
      HoleIsIdle(xs, g, g.e - 1);
    }
  }

  lemma BlockBeside(ms: seq<Span>, xs: seq<Span>, g: Span, j: nat)
    requires Merged(ms, xs) && IsHole(xs, g) && j < |ms|
    ensures ms[j].s <= g.s || g.e <= ms[j].s
  {
    hide Covered, Inside, Ends, Separate;
    assert Starts(xs, ms[j].s);
  }

  /** The gaps the tool reports are exactly the idle stretches long enough. */
  lemma GapsExact(ms: seq<Span>, xs: seq<Span>, least: int, g: Span)
    requires Merged(ms, xs)
    ensures g in GapsOf(ms, least) <==> IsHole(xs, g) && Len(g) >= least
  {
    hide Covered, Inside, GapsOf;
    GapsAreHoles(ms, least, g);
    if k :| Between(ms, k, g) {
      HoleOfMerged(ms, xs, k, g);
    }
    if IsHole(xs, g) {
      var k, m := HoleMeetsEdges(ms, xs, g);
      NextBlock(ms, xs, g, k, m);
      assert Between(ms, m, g);
    }
  }

  lemma NextBlock(ms: seq<Span>, xs: seq<Span>, g: Span, k: nat, m: nat)
    requires Merged(ms, xs) && IsHole(xs, g) && k < |ms| && m < |ms| && ms[k].e == g.s && ms[m].s == g.e
    ensures m == k + 1
  {
    hide Covered, Inside, Starts, Ends, Separate;
    Apart(ms, k, m);
    Apart(ms, k, k + 1);
    BlockBeside(ms, xs, g, k + 1);
    Apart(ms, k + 1, m);
    Apart(ms, k + 1, k + 1);
  }

  // ------------------------------------------------------------ attribution

  /** How much of a host span lies inside a gap. */
  function Overlap(h: Host, g: Span): int {
    var lo, hi := if h.s > g.s then h.s else g.s, if h.e < g.e then h.e else g.e;
    if hi > lo then hi - lo else 0
  }

  function Idle(h: Host, gaps: seq<Span>): int {
    Sum(gaps, (g: Span) => Overlap(h, g))
  }

  function Blame(hosts: seq<Host>, gaps: seq<Span>, name: string): int {
    Sum(hosts, (h: Host) => if h.name == name then Idle(h, gaps) else 0)
  }

  function Hits(hosts: seq<Host>, gaps: seq<Span>, name: string): int {
    Sum(hosts, (h: Host) => if h.name == name && Idle(h, gaps) > 0 then 1 else 0)
  }

  /** A gap clipped to a host span; a point at one end if they do not meet. */
  function Clip(h: Host, g: Span): Span {
    var lo := if g.s < h.s then h.s else if g.s > h.e then h.e else g.s;
    var hi := if g.e < h.s then h.s else if g.e > h.e then h.e else g.e;
    Span(lo, hi)
  }

  function Clipped(h: Host, gaps: seq<Span>): seq<Span> {
    seq(|gaps|, i requires 0 <= i < |gaps| => Clip(h, gaps[i]))
  }

  lemma {:induction false} ClippedSum(h: Host, gaps: seq<Span>)
    requires h.s <= h.e && forall i :: 0 <= i < |gaps| ==> gaps[i].s <= gaps[i].e
    ensures Sum(Clipped(h, gaps), Len) == Idle(h, gaps)
  {
    if gaps != [] {
      var front := gaps[..|gaps| - 1];
      ClippedSum(h, front);
      assert Clipped(h, gaps)[..|gaps| - 1] == Clipped(h, front);
    }
  }

  lemma ClipKeeps(h: Host, gaps: seq<Span>, t: int)
    requires h.s <= t < h.e
    ensures Covered(Clipped(h, gaps), t) <==> Covered(gaps, t)
  {
    var cut := Clipped(h, gaps);
    assert forall i :: 0 <= i < |gaps| ==> (Holds(cut[i], t) <==> Holds(gaps[i], t));
  }

  lemma ClipIsDisjoint(h: Host, gaps: seq<Span>)
    requires Disjoint(gaps) && h.s <= h.e
    ensures Disjoint(Clipped(h, gaps)) && Bounds(Clipped(h, gaps), h.s, h.e)
  {
  }

  /** The brute-force sum of overlaps is the number of idle clock units the span was open in. */
  lemma IdleIsUnits(h: Host, gaps: seq<Span>)
    requires Disjoint(gaps)
    ensures Idle(h, gaps) == Units(gaps, h.s, h.e)
  {
    hide Disjoint, Bounds, Clipped, Covered;
    if h.e <= h.s {
      SumZero(gaps, (g: Span) => Overlap(h, g));
    } else {
      Upright(gaps);
      ClippedSum(h, gaps);
      ClipIsDisjoint(h, gaps);
      TotalIsUnits(Clipped(h, gaps), h.s, h.e);
      forall t | h.s <= t < h.e
        ensures Covered(Clipped(h, gaps), t) <==> Covered(gaps, t)
      {
        ClipKeeps(h, gaps, t);
      }
      UnitsSame(Clipped(h, gaps), gaps, h.s, h.e);
    }
  }

  lemma Upright(gaps: seq<Span>)
    requires Disjoint(gaps)
    ensures forall i :: 0 <= i < |gaps| ==> gaps[i].s <= gaps[i].e
  {
  }

  lemma IdleParts(h: Host, gaps: seq<Span>, j: nat)
    requires j <= |gaps|
    ensures Idle(h, gaps) == Idle(h, gaps[..j]) + Idle(h, gaps[j..])
    ensures j < |gaps| ==> Idle(h, gaps[..j + 1]) == Idle(h, gaps[..j]) + Overlap(h, gaps[j])
  {
    hide Overlap;
    SumSplit(gaps, (g: Span) => Overlap(h, g), j);
    if j < |gaps| {
      SumNext(gaps, (g: Span) => Overlap(h, g), j);
    }
  }

  /** Gaps that end before the span begins, or begin after it ends, add nothing. */
  lemma FarGapsAddNothing(h: Host, gaps: seq<Span>)
    requires forall i :: 0 <= i < |gaps| ==> gaps[i].e <= h.s || gaps[i].s >= h.e
    ensures Idle(h, gaps) == 0
  {
    SumZero(gaps, (g: Span) => Overlap(h, g));
  }

  lemma LaterGapsAddNothing(h: Host, gaps: seq<Span>, j: nat)
    requires Disjoint(gaps) && j <= |gaps| && (j < |gaps| ==> gaps[j].s >= h.e)
    ensures Idle(h, gaps[j..]) == 0
  {
    hide Idle;
    FarGapsAddNothing(h, gaps[j..]);
  }

  /** One host span: the shared pointer moves past gaps that are over, then a scan to the last
      gap that begins in time. */
  method Charge(h: Host, gaps: seq<Span>, gi: nat) returns (next: nat, covered: int)
    requires gi <= |gaps| && forall k :: 0 <= k < gi ==> gaps[k].e <= h.s
    ensures gi <= next <= |gaps| && forall k :: 0 <= k < next ==> gaps[k].e <= h.s
    ensures Disjoint(gaps) ==> covered == Idle(h, gaps)
  {
    hide Idle, Overlap, Disjoint;
    next := gi;
    while next < |gaps| && gaps[next].e < h.s
      invariant gi <= next <= |gaps| && forall k :: 0 <= k < next ==> gaps[k].e <= h.s
    {
      next := next + 1;
    }
    FarGapsAddNothing(h, gaps[..next]);
    var j := next;
    covered := 0;
    while j < |gaps| && gaps[j].s < h.e
      invariant next <= j <= |gaps| && covered == Idle(h, gaps[..j])
    {
      IdleParts(h, gaps, j);
      covered := covered + Overlap(h, gaps[j]);
      j := j + 1;
    }
    IdleParts(h, gaps, j);
    if Disjoint(gaps) {
      LaterGapsAddNothing(h, gaps, j);
    }
  }

  /** The books after some host spans: a name is in them exactly if it has been charged. */
  ghost predicate Books(blame: map<string, int>, hits: map<string, int>, hosts: seq<Host>, gaps: seq<Span>) {
    forall name :: && (name in blame <==> Hits(hosts, gaps, name) > 0)
                   && (name in hits <==> name in blame)
                   && (name in blame ==> blame[name] == Blame(hosts, gaps, name) && hits[name] == Hits(hosts, gaps, name))
                   && Hits(hosts, gaps, name) >= 0
                   && (Hits(hosts, gaps, name) == 0 ==> Blame(hosts, gaps, name) == 0)
  }

  lemma IdleIsNat(h: Host, gaps: seq<Span>)
    requires Disjoint(gaps)
    ensures Idle(h, gaps) >= 0
  {
    IdleIsUnits(h, gaps);
  }

  lemma BookOne(blame: map<string, int>, hits: map<string, int>, hosts: seq<Host>, gaps: seq<Span>, h: Host)
    requires Books(blame, hits, hosts, gaps) && Disjoint(gaps)
    ensures var c := Idle(h, gaps);
            if c > 0 then
              Books(blame[h.name := (if h.name in blame then blame[h.name] else 0) + c],
                    hits[h.name := (if h.name in hits then hits[h.name] else 0) + 1], hosts + [h], gaps)
            else Books(blame, hits, hosts + [h], gaps)
  {
    hide Idle;
    IdleIsNat(h, gaps);
    forall name: string
      ensures Blame(hosts + [h], gaps, name) == Blame(hosts, gaps, name) + (if h.name == name then Idle(h, gaps) else 0)
      ensures Hits(hosts + [h], gaps, name) ==
              Hits(hosts, gaps, name) + (if h.name == name && Idle(h, gaps) > 0 then 1 else 0)
    {
      SumSnoc(hosts, h, (x: Host) => if x.name == name then Idle(x, gaps) else 0);
      SumSnoc(hosts, h, (x: Host) => if x.name == name && Idle(x, gaps) > 0 then 1 else 0);
    }
    hide Blame, Hits;
  }

  /** Attribution: every name is charged the overlaps of all its spans with all the gaps. */
  method Attribute(host: array<Host>, gaps: seq<Span>) returns (blame: map<string, int>, hits: map<string, int>)
    modifies host
    ensures multiset(host[..]) == multiset(old(host[..]))
    ensures Disjoint(gaps) ==> Books(blame, hits, old(host[..]), gaps)
  {
    hide Books, Idle;
    ghost var was := host[..];
    HostsInOrder(host[..]);
    Sort(host, HostLe);
    ghost var hs := host[..];
    blame, hits := map[], map[];
    EmptyBooks(gaps);
    var gi := 0;
    for i := 0 to host.Length
      invariant host[..] == hs && gi <= |gaps|
      invariant i > 0 ==> forall k :: 0 <= k < gi ==> gaps[k].e <= hs[i - 1].s
      invariant i == 0 ==> gi == 0
      invariant Disjoint(gaps) ==> Books(blame, hits, hs[..i], gaps)
    {
      var h := host[i];
      assert i > 0 ==> HostLe(hs[i - 1], hs[i]);
      var covered;
      gi, covered := Charge(h, gaps, gi);
      assert hs[..i + 1] == hs[..i] + [h];
      if Disjoint(gaps) {
        BookOne(blame, hits, hs[..i], gaps, h);
      }
      if covered > 0 {
        blame := blame[h.name := (if h.name in blame then blame[h.name] else 0) + covered];
        hits := hits[h.name := (if h.name in hits then hits[h.name] else 0) + 1];
      }
    }
    assert hs[..host.Length] == hs;
    if Disjoint(gaps) {
      BooksOfBag(blame, hits, hs, was, gaps);
    }
  }

  lemma EmptyBooks(gaps: seq<Span>)
    ensures Books(map[], map[], [], gaps)
  {
  }

  lemma BooksOfBag(blame: map<string, int>, hits: map<string, int>, a: seq<Host>, b: seq<Host>, gaps: seq<Span>)
    requires Books(blame, hits, a, gaps) && multiset(a) == multiset(b)
    ensures Books(blame, hits, b, gaps)
  {
    forall name: string
      ensures Blame(a, gaps, name) == Blame(b, gaps, name) && Hits(a, gaps, name) == Hits(b, gaps, name)
    {
      SumOfBag(a, b, (h: Host) => if h.name == name then Idle(h, gaps) else 0);
      SumOfBag(a, b, (h: Host) => if h.name == name && Idle(h, gaps) > 0 then 1 else 0);
    }
    hide Blame, Hits;
  }

  // ----------------------------------------------------------------- report

  /** What the tool prints. A trace whose wall time is 0 is divided by it. */
  datatype Report =
    | NoSpans
    | DivisionByZero
    | NoGaps(wall: int)
    | Found(wall: int, gaps: seq<Span>, idle: int, blame: map<string, int>, hits: map<string, int>)

  /** The holes between merged spans, in order, and their total. */
  method ListGaps(ms: seq<Span>, least: int) returns (gaps: seq<Span>, total: int)
    requires ms != []
    ensures gaps == GapsOf(ms, least) && total == Sum(gaps, Len)
  {
    gaps, total := [], 0;
    for i := 1 to |ms|
      invariant gaps == GapsOf(ms[..i], least) && total == Sum(gaps, Len)
    {
      var g := Span(ms[i - 1].e, ms[i].s);
      assert ms[..i + 1][..i] == ms[..i];
      if g.e - g.s >= least {
        SumSnoc(gaps, g, Len);
        gaps, total := gaps + [g], total + (g.e - g.s);
      }
    }
    assert ms[..|ms|] == ms;
  }

  /** wall is the time from the first start, lo, to the last end. */
  ghost predicate WallAt(xs: seq<Span>, lo: int, wall: int) {
    Starts(xs, lo) && Ends(xs, lo + wall) && Bounds(xs, lo, lo + wall)
  }

  ghost predicate OneInstant(xs: seq<Span>) {
    exists t :: forall i :: 0 <= i < |xs| ==> xs[i] == Span(t, t)
  }

  /** The gaps are the holes of the raw spans, and with the busy time they fit the wall time. */
  ghost predicate Accounted(raw: seq<Span>, wall: int, least: int, gaps: seq<Span>) {
    && (exists lo :: WallAt(raw, lo, wall))
    && (forall g :: g in gaps <==> IsHole(raw, g) && Len(g) >= least)
    && (forall lo :: WallAt(raw, lo, wall) ==>
          && Sum(gaps, Len) + Units(raw, lo, lo + wall) <= wall
          && (least <= 1 ==> Sum(gaps, Len) + Units(raw, lo, lo + wall) == wall))
  }

  lemma MergedAccounts(ms: seq<Span>, xs: seq<Span>, raw: seq<Span>, least: int)
    requires ms != [] && Chain(ms) && Merged(ms, xs) && multiset(raw) == multiset(xs)
    ensures var wall := ms[|ms| - 1].e - ms[0].s;
            Accounted(raw, wall, least, GapsOf(ms, least)) && (wall == 0 <==> OneInstant(raw))
    ensures Disjoint(GapsOf(ms, least))
  {
    hide Merged, GapsOf, IsHole, Disjoint, WallAt, Units, OneInstant, Sum;
    var wall, gaps := ms[|ms| - 1].e - ms[0].s, GapsOf(ms, least);
    WallOf(ms, xs, raw);
    GapsApart(ms, xs, least);
    forall g
      ensures g in gaps <==> IsHole(raw, g) && Len(g) >= least
    {
      GapsExact(ms, xs, least, g);
      HolesOfBag(xs, raw, g);
    }
    forall lo | WallAt(raw, lo, wall)
      ensures Sum(gaps, Len) + Units(raw, lo, lo + wall) <= wall
      ensures least <= 1 ==> Sum(gaps, Len) + Units(raw, lo, lo + wall) == wall
    {
      Accounting(ms, xs, raw, least, lo);
    }
  }

  lemma SameInBag(a: seq<Span>, b: seq<Span>, v: int)
    requires multiset(a) == multiset(b)
    ensures (Starts(a, v) ==> Starts(b, v)) && (Ends(a, v) ==> Ends(b, v))
  {
    if i :| 0 <= i < |a| && a[i].s == v {
      assert a[i] in multiset(a);
      var j :| 0 <= j < |b| && b[j] == a[i];
    }
    if i :| 0 <= i < |a| && a[i].e == v {
      assert a[i] in multiset(a);
      var j :| 0 <= j < |b| && b[j] == a[i];
    }
  }

  lemma HoleOfBag(a: seq<Span>, b: seq<Span>, g: Span)
    requires multiset(a) == multiset(b) && IsHole(a, g)
    ensures IsHole(b, g)
  {
    hide Starts, Ends;
    SameInBag(a, b, g.s);
    SameInBag(a, b, g.e);
    forall i | 0 <= i < |b|
      ensures b[i].e <= g.s || g.e <= b[i].s
    {
      assert b[i] in multiset(b);
    }
  }

  lemma HolesOfBag(a: seq<Span>, b: seq<Span>, g: Span)
    requires multiset(a) == multiset(b)
    ensures IsHole(a, g) <==> IsHole(b, g)
  {
    if IsHole(a, g) {
      HoleOfBag(a, b, g);
    }
    if IsHole(b, g) {
      HoleOfBag(b, a, g);
    }
  }

  lemma WallOf(ms: seq<Span>, xs: seq<Span>, raw: seq<Span>)
    requires Merged(ms, xs) && multiset(raw) == multiset(xs)
    ensures WallAt(raw, ms[0].s, ms[|ms| - 1].e - ms[0].s)
    ensures ms[0].s == ms[|ms| - 1].e <==> OneInstant(raw)
  {
    hide Separate, Inside, Covered;
    var lo, hi := ms[0].s, ms[|ms| - 1].e;
    MergedExtent(ms, xs);
    BoundsOfBag(xs, raw, lo, hi);
    assert Starts(xs, lo) && Ends(xs, hi);
    SameInBag(xs, raw, lo);
    SameInBag(xs, raw, hi);
    if lo == hi {
      assert forall i :: 0 <= i < |raw| ==> raw[i] == Span(lo, lo);
    }
  }

  /** With every hole listed, busy time and idle time are the wall time; otherwise no more. */
  lemma Accounting(ms: seq<Span>, xs: seq<Span>, raw: seq<Span>, least: int, lo: int)
    requires Merged(ms, xs) && multiset(raw) == multiset(xs) && WallAt(raw, lo, ms[|ms| - 1].e - ms[0].s)
    requires Chain(ms)
    ensures var wall, idle := ms[|ms| - 1].e - ms[0].s, Sum(GapsOf(ms, least), Len);
            && idle + Units(raw, lo, lo + wall) <= wall
            && (least <= 1 ==> idle + Units(raw, lo, lo + wall) == wall)
  {
    hide Inside, Covered, Starts, Ends, GapsOf, Sum, Units;
    var wall := ms[|ms| - 1].e - ms[0].s;
    MergedExtent(ms, xs);
    BoundsOfBag(raw, xs, lo, lo + wall);
    MergedTotal(ms, xs, raw, lo, lo + wall);
    BusyAndIdle(ms, least);
  }

  lemma GapsApart(ms: seq<Span>, xs: seq<Span>, least: int)
    requires Merged(ms, xs)
    ensures Disjoint(GapsOf(ms, least))
  {
    GapsInOrder(ms, least);
  }

  /** With every hole listed, busy and idle time add up to the wall time if and only if every
      inside-out span is sheltered. */
  ghost predicate BalancesIffTame(raw: seq<Span>, wall: int, least: int, idle: int) {
    least <= 1 ==> forall lo, hi :: lo <= hi && Bounds(Proper(raw), lo, hi) ==>
      (idle + Units(raw, lo, hi) == wall <==> Tame(raw))
  }

  lemma MergingBalances(ms: seq<Span>, xs: seq<Span>, raw: seq<Span>, least: int)
    requires Merging(ms, xs) && multiset(raw) == multiset(xs)
    ensures BalancesIffTame(raw, ms[|ms| - 1].e - ms[0].s, least, Sum(GapsOf(ms, least), Len))
  {
    hide Merged, Loss, Tame, Units, Bounds, Proper, GapsOf, Sum, Chain;
    LossOfTame(raw);
    BusyAndIdle(ms, least);
    forall lo, hi | least <= 1 && lo <= hi && Bounds(Proper(raw), lo, hi)
      ensures Sum(GapsOf(ms, least), Len) + Units(raw, lo, hi) == ms[|ms| - 1].e - ms[0].s <==> Tame(raw)
    {
      MergingTotal(ms, xs, raw, lo, hi);
    }
  }

  /** What a run of the tool is worth on a trace without unsheltered inside-out spans. */
  lemma TameAccounts(ms: seq<Span>, xs: seq<Span>, raw: seq<Span>, least: int)
    requires ms != [] && Merging(ms, xs) && multiset(raw) == multiset(xs) && Tame(raw)
    requires Tame(xs) ==> Merged(ms, Proper(xs))
    ensures var wall := ms[|ms| - 1].e - ms[0].s;
            Accounted(Proper(raw), wall, least, GapsOf(ms, least)) && (wall == 0 <==> OneInstant(Proper(raw)))
    ensures Disjoint(GapsOf(ms, least))
  {
    hide Merged, Loss, Tame, Accounted, OneInstant, Disjoint, GapsOf, Chain, Proper;
    LossOfBag(raw, xs);
    ProperOfBag(raw, xs);
    MergedAccounts(ms, Proper(xs), Proper(raw), least);
  }

  /** The whole run, on any trace. It divides by zero exactly if the raw spans have a wall time of 0:
      the last end, as LastEnd finds it, is the first start. With every stretch listed, busy and idle time add up to the wall
      time exactly if every inside-out span is sheltered by another. Then the gaps are exactly the
      idle stretches of the proper spans that are long enough, and every host name is charged
      exactly the idle clock units its spans were open in. */
  method TraceGaps(gpu: array<Span>, host: array<Host>, least: int) returns (r: Report)
    modifies gpu, host
    ensures r.NoSpans? <==> gpu.Length == 0
    ensures r.NoGaps? ==> BalancesIffTame(old(gpu[..]), r.wall, least, 0)
    ensures r.Found? ==> BalancesIffTame(old(gpu[..]), r.wall, least, r.idle)
    ensures r.DivisionByZero? <==> gpu.Length > 0 && WallIs(old(gpu[..]), 0)
    ensures r.NoGaps? || r.Found? ==> WallIs(old(gpu[..]), r.wall)
    ensures Tame(old(gpu[..])) ==>
              && (r.DivisionByZero? <==> gpu.Length > 0 && OneInstant(Proper(old(gpu[..]))))
              && (r.NoGaps? ==> Accounted(Proper(old(gpu[..])), r.wall, least, []))
              && (r.Found? ==>
                    && Accounted(Proper(old(gpu[..])), r.wall, least, r.gaps)
                    && r.gaps != [] && Disjoint(r.gaps) && r.idle == Sum(r.gaps, Len)
                    && Books(r.blame, r.hits, old(host[..]), r.gaps))
  {
    hide Merging, Merged, Books, GapsOf, Disjoint, Accounted, OneInstant, BalancesIffTame, Tame, Proper, WallIs, Edges;
    ghost var was := gpu[..];
    if gpu.Length == 0 {
      return NoSpans;
    }
    SpansInOrder(was);
    Sort(gpu, SpanLe);
    var ms := MergeSpans(gpu[..]);
    var gaps, total := ListGaps(ms, least);
    var wall := ms[|ms| - 1].e - ms[0].s;
    MergingBalances(ms, gpu[..], was, least);
    WallOfMerge(ms, gpu[..], was);
    if WallIs(was, 0) {
      OneWall(was, 0, wall);
    }
    if Tame(was) {
      TameAccounts(ms, gpu[..], was, least);
    }
    if wall == 0 {
      return DivisionByZero;
    }
    if gaps == [] {
      NothingToSum();
      return NoGaps(wall);
    }
    var blame, hits := Attribute(host, gaps);
    return Found(wall, gaps, total, blame, hits);
  }
}
