/** Who owns which row, and which output positions a peer's rows go to. */
module Routing {
  import opened Common

  /** The rows [base, base + count). */
  datatype Range = Range(base: nat, count: nat) {
    predicate Has(id: int) {
      base <= id < base + count
    }
  }

  function One(b: bool): nat {
    if b then 1 else 0
  }

  /** How many of the ranges claim a row. */
  function Owners(rs: seq<Range>, id: int): nat {
    if rs == [] then 0 else One(rs[0].Has(id)) + Owners(rs[1..], id)
  }

  /** Every row of [from, total) has exactly one owner and no other row has any. */
  ghost predicate TilesFrom(rs: seq<Range>, from: nat, total: nat) {
    forall id: int :: Owners(rs, id) == One(from <= id < total)
  }

  ghost predicate Tiles(rs: seq<Range>, total: nat) {
    TilesFrom(rs, 0, total)
  }

  /** What the scan over sorted ranges accepts. */
  ghost predicate Scan(rs: seq<Range>, due: nat, total: nat) {
    if rs == [] then due == total
    else rs[0].base == due && Scan(rs[1..], due + rs[0].count, total)
  }

  ghost predicate SortedByBase(rs: seq<Range>) {
    forall i, j :: 0 <= i < j < |rs| ==> rs[i].base <= rs[j].base
  }

  ghost predicate NonEmpty(rs: seq<Range>) {
    forall i :: 0 <= i < |rs| ==> rs[i].count > 0
  }

  lemma {:induction false} OwnersAtLeast(rs: seq<Range>, i: nat, id: int)
    requires i < |rs| && rs[i].Has(id)
    ensures Owners(rs, id) >= 1
  {
    if i > 0 {
      OwnersAtLeast(rs[1..], i - 1, id);
    }
  }

  lemma {:induction false} NoOwners(rs: seq<Range>, id: int)
    requires forall i :: 0 <= i < |rs| ==> !rs[i].Has(id)
    ensures Owners(rs, id) == 0
  {
    if rs != [] {
      NoOwners(rs[1..], id);
    }
  }

  lemma {:induction false} ScanBound(rs: seq<Range>, due: nat, total: nat)
    requires Scan(rs, due, total)
    ensures due <= total
  {
    if rs != [] {
      ScanBound(rs[1..], due + rs[0].count, total);
    }
  }

  lemma {:induction false} ScanTiles(rs: seq<Range>, due: nat, total: nat)
    requires Scan(rs, due, total)
    ensures TilesFrom(rs, due, total)
  {
    if rs == [] {
    } else {
      var next := due + rs[0].count;
      ScanTiles(rs[1..], next, total);
      ScanBound(rs[1..], next, total);
      forall id: int
        ensures Owners(rs, id) == One(due <= id < total)
      {
        assert Owners(rs[1..], id) == One(next <= id < total);
      }
    }
  }

  lemma {:induction false} TilesScan(rs: seq<Range>, due: nat, total: nat)
    requires SortedByBase(rs) && NonEmpty(rs) && due <= total
    requires TilesFrom(rs, due, total)
    ensures Scan(rs, due, total)
  {
    if rs == [] {
      assert Owners(rs, due) == One(due < total);
    } else {
      var r := rs[0];
      OwnersAtLeast(rs, 0, r.base);
      OwnersAtLeast(rs, 0, r.base + r.count - 1);
      assert Owners(rs, due) == One(due < total);
      if r.base > due {
        NoOwners(rs, due);
        assert false;
      }
      var next := due + r.count;
      forall id: int
        ensures Owners(rs[1..], id) == One(next <= id < total)
      {
        assert Owners(rs, id) == One(due <= id < total);
      }
      TilesScan(rs[1..], next, total);
    }
  }

  /** The scan accepts sorted, non-empty ranges exactly when they tile the table. */
  lemma SplitExact(rs: seq<Range>, total: nat)
    requires SortedByBase(rs) && NonEmpty(rs)
    ensures Scan(rs, 0, total) <==> Tiles(rs, total)
  {
    if Scan(rs, 0, total) {
      ScanTiles(rs, 0, total);
    }
    if Tiles(rs, total) {
      TilesScan(rs, 0, total);
    }
  }

  lemma {:induction false} OwnersSplit(a: seq<Range>, b: seq<Range>, id: int)
    ensures Owners(a + b, id) == Owners(a, id) + Owners(b, id)
  {
    if a == [] {
      assert a + b == b;
    } else {
      assert (a + b)[1..] == a[1..] + b;
      OwnersSplit(a[1..], b, id);
    }
  }

  lemma OwnersWithout(b: seq<Range>, i: nat, id: int)
    requires i < |b|
    ensures Owners(b, id) == One(b[i].Has(id)) + Owners(b[..i] + b[i + 1..], id)
  {
    assert b == b[..i] + b[i..];
    OwnersSplit(b[..i], b[i..], id);
    OwnersSplit(b[..i], b[i + 1..], id);
    assert b[i..][1..] == b[i + 1..];
  }

  /** The order the peers are listed in does not matter. */
  lemma {:induction false} OwnersPermute(a: seq<Range>, b: seq<Range>, id: int)
    requires multiset(a) == multiset(b)
    ensures Owners(a, id) == Owners(b, id)
    decreases |a|
  {
    hide Owners;
    if a == [] {
      NothingElse(b);
    } else {
      var i := HeadSomewhere(a, b);
      assert a[..0] + a[1..] == a[1..];
      OwnersWithout(a, 0, id);
      OwnersWithout(b, i, id);
      OwnersPermute(a[1..], b[..i] + b[i + 1..], id);
    }
  }

  // ------------------------------------------------------------------- sort

  function Keys<T>(xs: seq<(Range, T)>): (rs: seq<Range>)
    ensures |rs| == |xs| && forall i :: 0 <= i < |xs| ==> rs[i] == xs[i].0
  {
    seq(|xs|, i requires 0 <= i < |xs| => xs[i].0)
  }

  function Vals<T>(xs: seq<(Range, T)>): (vs: seq<T>)
    ensures |vs| == |xs| && forall i :: 0 <= i < |xs| ==> vs[i] == xs[i].1
  {
    seq(|xs|, i requires 0 <= i < |xs| => xs[i].1)
  }

  ghost predicate SortedKeys<T>(xs: seq<(Range, T)>) {
    forall i, j :: 0 <= i < j < |xs| ==> xs[i].0.base <= xs[j].0.base
  }

  function ByBase<T>(): ((Range, T), (Range, T)) -> bool {
    (a: (Range, T), b: (Range, T)) => a.0.base <= b.0.base
  }

  /** list.sort with the first row as the key. */
  method SortByKey<T>(xs: seq<(Range, T)>) returns (ys: seq<(Range, T)>)
    ensures multiset(ys) == multiset(xs) && SortedKeys(ys)
  {
    ys := Sorted(xs, ByBase<T>());
    assert forall i, j :: 0 <= i < j < |ys| ==> ByBase<T>()(ys[i], ys[j]);
  }

  lemma {:induction false} Permuted<T>(xs: seq<(Range, T)>, ys: seq<(Range, T)>)
    requires multiset(xs) == multiset(ys)
    ensures multiset(Keys(xs)) == multiset(Keys(ys)) && multiset(Vals(xs)) == multiset(Vals(ys))
    decreases |xs|
  {
    assert |xs| == |multiset(xs)| == |ys|;
    if xs != [] {
      assert xs[0] in multiset(ys);
      var i :| 0 <= i < |ys| && ys[i] == xs[0];
      Unzipped(xs, 0);
      Unzipped(ys, i);
      Removed(xs, 0);
      Removed(ys, i);
      Permuted(xs[..0] + xs[1..], ys[..i] + ys[i + 1..]);
    }
  }

  lemma Unzipped<T>(xs: seq<(Range, T)>, i: nat)
    requires i < |xs|
    ensures var rest := xs[..i] + xs[i + 1..];
            && multiset(Keys(xs)) == multiset(Keys(rest)) + multiset{xs[i].0}
            && multiset(Vals(xs)) == multiset(Vals(rest)) + multiset{xs[i].1}
  {
    var rest := xs[..i] + xs[i + 1..];
    Removed(Keys(xs), i);
    assert Keys(rest) == Keys(xs)[..i] + Keys(xs)[i + 1..];
    Removed(Vals(xs), i);
    assert Vals(rest) == Vals(xs)[..i] + Vals(xs)[i + 1..];
  }

  // -------------------------------------------------------------- partition

  /** The positions of the ids a range owns, in caller order. */
  function Positions(ids: seq<int>, r: Range): seq<nat> {
    if ids == [] then [] else
    var n := |ids| - 1;
    if r.Has(ids[n]) then Positions(ids[..n], r) + [n] else Positions(ids[..n], r)
  }

  /** Exactly the positions of owned ids, each once, in increasing order. */
  lemma {:induction false} PositionsExact(ids: seq<int>, r: Range)
    ensures var sel := Positions(ids, r);
            && (forall i :: 0 <= i < |sel| ==> sel[i] < |ids| && r.Has(ids[sel[i]]))
            && (forall i, j :: 0 <= i < j < |sel| ==> sel[i] < sel[j])
            && (forall p :: 0 <= p < |ids| && r.Has(ids[p]) ==> p in sel)
            && |sel| <= |ids|
  {
    if ids != [] {
      var n := |ids| - 1;
      PositionsExact(ids[..n], r);
      assert forall p :: 0 <= p < n ==> ids[..n][p] == ids[p];
      var sel := Positions(ids, r);
      var init := Positions(ids[..n], r);
      forall p | 0 <= p < |ids| && r.Has(ids[p])
        ensures p in sel
      {
        if p < n {
          assert p in init;
        }
      }
    }
  }

  function Routed(ids: seq<int>, rs: seq<Range>): nat {
    if rs == [] then 0 else |Positions(ids, rs[0])| + Routed(ids, rs[1..])
  }

  lemma {:induction false} RoutedGrows(ids: seq<int>, id: int, rs: seq<Range>)
    ensures Routed(ids + [id], rs) == Routed(ids, rs) + Owners(rs, id)
  {
    if rs != [] {
      RoutedGrows(ids, id, rs[1..]);
      assert (ids + [id])[..|ids|] == ids;
    }
  }

  lemma {:induction false} RoutedNothing(rs: seq<Range>)
    ensures Routed([], rs) == 0
  {
    if rs != [] {
      RoutedNothing(rs[1..]);
    }
  }

  /** Over a tiling, all ids are routed exactly when all of them are rows of the table. */
  lemma {:induction false} RoutedExact(ids: seq<int>, rs: seq<Range>, total: nat)
    requires Tiles(rs, total)
    ensures Routed(ids, rs) <= |ids|
    ensures Routed(ids, rs) == |ids| <==> forall j :: 0 <= j < |ids| ==> 0 <= ids[j] < total
  {
    if ids == [] {
      RoutedNothing(rs);
    } else {
      var n := |ids| - 1;
      RoutedExact(ids[..n], rs, total);
      RoutedGrows(ids[..n], ids[n], rs);
      assert ids[..n] + [ids[n]] == ids;
      assert Owners(rs, ids[n]) == One(0 <= ids[n] < total);
      assert forall j :: 0 <= j < n ==> ids[..n][j] == ids[j];
    }
  }

  lemma {:induction false} RoutedSplit(ids: seq<int>, a: seq<Range>, r: Range)
    ensures Routed(ids, a + [r]) == Routed(ids, a) + |Positions(ids, r)|
  {
    if a == [] {
      assert a + [r] == [r];
      assert [r][1..] == [];
    } else {
      assert (a + [r])[1..] == a[1..] + [r];
      RoutedSplit(ids, a[1..], r);
    }
  }

  lemma {:induction false} SomeOwner(rs: seq<Range>, id: int) returns (i: nat)
    requires Owners(rs, id) >= 1
    ensures i < |rs| && rs[i].Has(id)
  {
    if rs[0].Has(id) {
      i := 0;
    } else {
      i := SomeOwner(rs[1..], id);
      i := i + 1;
    }
  }

  lemma {:induction false} TwoOwners(rs: seq<Range>, i: nat, j: nat, id: int)
    requires i < j < |rs| && rs[i].Has(id) && rs[j].Has(id)
    ensures Owners(rs, id) >= 2
  {
    if i == 0 {
      OwnersAtLeast(rs[1..], j - 1, id);
    } else {
      TwoOwners(rs[1..], i - 1, j - 1, id);
    }
  }

  /** The selections partition the output positions: every one is written by exactly one peer. */
  lemma EveryPositionOnce(ids: seq<int>, rs: seq<Range>, total: nat, p: nat) returns (i: nat)
    requires Tiles(rs, total) && p < |ids| && 0 <= ids[p] < total
    ensures i < |rs| && p in Positions(ids, rs[i])
    ensures forall j :: 0 <= j < |rs| && j != i ==> p !in Positions(ids, rs[j])
  {
    assert Owners(rs, ids[p]) == One(0 <= ids[p] < total);
    i := SomeOwner(rs, ids[p]);
    PositionsExact(ids, rs[i]);
    forall j | 0 <= j < |rs| && j != i
      ensures p !in Positions(ids, rs[j])
    {
      PositionsExact(ids, rs[j]);
      if rs[j].Has(ids[p]) {
        if i < j { TwoOwners(rs, i, j, ids[p]); } else { TwoOwners(rs, j, i, ids[p]); }
      }
    }
  }
}
