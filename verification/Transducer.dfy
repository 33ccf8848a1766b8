/** A machine that eats a byte stream message by message and never looks back. */
module Transducer {
  import opened Bytes

  datatype Step =
    | NeedMore
    | Reply(out: seq<Byte>, used: nat)
    | Last(out: seq<Byte>)

  /** Everything written for a stream: replies so far, unread tail, messages answered, still open. */
  datatype Served = Served(out: seq<Byte>, rest: seq<Byte>, k: nat, open: bool)

  type Machine = (nat, seq<Byte>) -> Step

  /** A handler consumes at least one byte per reply and no more than it was given. */
  ghost predicate Consumes(step: Machine) {
    forall k: nat, b: seq<Byte> :: step(k, b).Reply? ==> 0 < step(k, b).used <= |b|
  }

  /** A handler that has made up its mind is not swayed by bytes that come later. */
  ghost predicate Stable(step: Machine) {
    forall k: nat, a: seq<Byte>, b: seq<Byte> :: !step(k, a).NeedMore? ==> step(k, a + b) == step(k, a)
  }

  function Run(step: Machine, k: nat, b: seq<Byte>): (s: Served)
    decreases |b|
  {
    match step(k, b)
    case NeedMore => Served([], b, k, true)
    case Last(out) => Served(out, [], k + 1, false)
    case Reply(out, used) =>
      if 0 < used <= |b| then
        var t := Run(step, k + 1, b[used..]);
        t.(out := out + t.out)
      else
        Served([], b, k, true)
  }

  /** Eating a stream piece by piece is eating it whole, wherever it is cut. */
  lemma {:induction false} RunAppend(step: Machine, k: nat, a: seq<Byte>, b: seq<Byte>)
    requires Consumes(step) && Stable(step)
    ensures var s := Run(step, k, a);
            Run(step, k, a + b) ==
            if s.open then var t := Run(step, s.k, s.rest + b); t.(out := s.out + t.out) else s
    decreases |a|
  {
    var h := step(k, a);
    if h.NeedMore? {
      var t := Run(step, k, a + b);
      assert t.(out := [] + t.out) == t;
    } else if h.Reply? {
      assert step(k, a + b) == h;
      assert (a + b)[h.used..] == a[h.used..] + b;
      RunAppend(step, k + 1, a[h.used..], b);
      var s' := Run(step, k + 1, a[h.used..]);
      if s'.open {
        var t := Run(step, s'.k, s'.rest + b);
        assert h.out + (s'.out + t.out) == (h.out + s'.out) + t.out;
      }
    }
  }

  /** The unread tail is a suffix of the stream, and the start of a message. */
  lemma {:induction false} RestIsPartial(step: Machine, k: nat, b: seq<Byte>)
    requires Consumes(step)
    ensures var s := Run(step, k, b);
            && |s.rest| <= |b|
            && (s.open ==> s.rest == b[|b| - |s.rest|..] && step(s.k, s.rest).NeedMore?)
    decreases |b|
  {
    var h := step(k, b);
    if h.Reply? {
      RestIsPartial(step, k + 1, b[h.used..]);
    }
  }
}
