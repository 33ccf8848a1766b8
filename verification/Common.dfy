/** Small things several parts of the model need. */
module Common {

  function Min(a: nat, b: nat): nat {
    if a < b then a else b
  }

  function Max(a: nat, b: nat): nat {
    if a > b then a else b
  }

  lemma MulUp(x: int, y: int, d: nat)
    requires x <= y
    ensures x * d <= y * d
  {
    assert (y - x) * d == y * d - x * d;
  }

  lemma Ratio(a: int, q: int, r: int, d: int)
    requires d > 0 && a == q * d + r && 0 <= r < d
    ensures a / d == q && a % d == r
  {
    var p := a / d;
    assert a == p * d + a % d;
    assert (p + 1) * d == p * d + d && (q + 1) * d == q * d + d;
    if q > p {
      MulUp(p + 1, q, d);
    } else if q < p {
      MulUp(q + 1, p, d);
    }
  }

  lemma Removed<T>(b: seq<T>, i: nat)
    requires i < |b|
    ensures multiset(b[..i] + b[i + 1..]) == multiset(b) - multiset{b[i]}
  {
    assert b == b[..i] + ([b[i]] + b[i + 1..]);
  }

  /** The head of a list is somewhere in every rearrangement of it, and without it the rests are
      rearrangements of each other. */
  lemma HeadSomewhere<T>(a: seq<T>, b: seq<T>) returns (i: nat)
    requires a != [] && multiset(a) == multiset(b)
    ensures i < |b| && b[i] == a[0] && multiset(a[1..]) == multiset(b[..i] + b[i + 1..])
  {
    assert a[0] in multiset(a);
    i :| 0 <= i < |b| && b[i] == a[0];
    Removed(a, 0);
    assert a[..0] + a[1..] == a[1..];
    Removed(b, i);
  }

  lemma NothingElse<T>(b: seq<T>)
    requires multiset(b) == multiset{}
    ensures b == []
  {
    assert |b| == |multiset(b)|;
  }

  // ---------------------------------------------------------------- sorting

  /** A total order on the members of a list. */
  ghost predicate Orders<T>(le: (T, T) -> bool, xs: seq<T>) {
    && (forall i, j :: 0 <= i < |xs| && 0 <= j < |xs| ==> le(xs[i], xs[j]) || le(xs[j], xs[i]))
    && forall i, j, k :: 0 <= i < |xs| && 0 <= j < |xs| && 0 <= k < |xs| ==>
         le(xs[i], xs[j]) && le(xs[j], xs[k]) ==> le(xs[i], xs[k])
  }

  ghost predicate SortedBy<T>(s: seq<T>, le: (T, T) -> bool) {
    forall i, j :: 0 <= i < j < |s| ==> le(s[i], s[j])
  }

  /** Behind everything that comes before x or ties with it: ties keep their order. */
  function Inserted<T>(s: seq<T>, x: T, le: (T, T) -> bool): (r: seq<T>)
    ensures |r| == |s| + 1
  {
    if s == [] || le(s[|s| - 1], x) then s + [x]
    else Inserted(s[..|s| - 1], x, le) + [s[|s| - 1]]
  }

  lemma {:induction false} InsertedBag<T>(s: seq<T>, x: T, le: (T, T) -> bool)
    ensures multiset(Inserted(s, x, le)) == multiset(s) + multiset{x}
  {
    if s != [] {
      InsertedBag(s[..|s| - 1], x, le);
      assert s == s[..|s| - 1] + [s[|s| - 1]];
    }
  }

  /** Whatever both x and all of s come before, the result comes before. */
  lemma InsertedBelow<T>(s: seq<T>, x: T, le: (T, T) -> bool, top: T)
    requires le(x, top) && forall i :: 0 <= i < |s| ==> le(s[i], top)
    ensures forall i :: 0 <= i < |s| + 1 ==> le(Inserted(s, x, le)[i], top)
  {
    var t := Inserted(s, x, le);
    InsertedBag(s, x, le);
    forall i | 0 <= i < |t|
      ensures le(t[i], top)
    {
      assert t[i] in multiset(t);
      assert t[i] == x || t[i] in multiset(s);
    }
  }

  lemma SortedSnoc<T>(s: seq<T>, top: T, le: (T, T) -> bool)
    requires SortedBy(s, le) && forall i :: 0 <= i < |s| ==> le(s[i], top)
    ensures SortedBy(s + [top], le)
  {
  }

  lemma OrdersPart<T>(le: (T, T) -> bool, xs: seq<T>, ys: seq<T>)
    requires Orders(le, xs) && forall i :: 0 <= i < |ys| ==> ys[i] in xs
    ensures Orders(le, ys)
  {
    forall i, j | 0 <= i < |ys| && 0 <= j < |ys|
      ensures le(ys[i], ys[j]) || le(ys[j], ys[i])
    {
      var a :| 0 <= a < |xs| && xs[a] == ys[i];
      var b :| 0 <= b < |xs| && xs[b] == ys[j];
    }
    forall i, j, k | 0 <= i < |ys| && 0 <= j < |ys| && 0 <= k < |ys| && le(ys[i], ys[j]) && le(ys[j], ys[k])
      ensures le(ys[i], ys[k])
    {
      var a :| 0 <= a < |xs| && xs[a] == ys[i];
      var b :| 0 <= b < |xs| && xs[b] == ys[j];
      var c :| 0 <= c < |xs| && xs[c] == ys[k];
    }
  }

  lemma {:induction false} InsertedSorts<T>(s: seq<T>, x: T, le: (T, T) -> bool)
    requires Orders(le, s + [x]) && SortedBy(s, le)
    ensures SortedBy(Inserted(s, x, le), le)
  {
    var all := s + [x];
    assert all[|s|] == x;
    if s == [] {
    } else if le(s[|s| - 1], x) {
      forall i | 0 <= i < |s|
        ensures le(s[i], x)
      {
        assert all[i] == s[i] && all[|s| - 1] == s[|s| - 1];
        assert i < |s| - 1 ==> le(s[i], s[|s| - 1]);
      }
      SortedSnoc(s, x, le);
    } else {
      var front, last := s[..|s| - 1], s[|s| - 1];
      assert all[|s| - 1] == last;
      OrdersPart(le, all, front + [x]);
      InsertedSorts(front, x, le);
      InsertedBelow(front, x, le, last);
      SortedSnoc(Inserted(front, x, le), last, le);
    }
  }

  /** Stable insertion sort. */
  method Sorted<T>(xs: seq<T>, le: (T, T) -> bool) returns (ys: seq<T>)
    requires Orders(le, xs)
    ensures SortedBy(ys, le) && multiset(ys) == multiset(xs) && |ys| == |xs|
  {
    hide Orders;
    ys := [];
    for i := 0 to |xs|
      invariant SortedBy(ys, le) && |ys| == i && multiset(ys) == multiset(xs[..i])
    {
      forall j | 0 <= j < |ys + [xs[i]]|
        ensures (ys + [xs[i]])[j] in xs
      {
        if j < i {
          assert ys[j] in multiset(ys);
        }
      }
      OrdersPart(le, xs, ys + [xs[i]]);
      InsertedSorts(ys, xs[i], le);
      InsertedBag(ys, xs[i], le);
      assert xs[..i + 1] == xs[..i] + [xs[i]];
      ys := Inserted(ys, xs[i], le);
    }
    assert xs[..|xs|] == xs;
  }
}
