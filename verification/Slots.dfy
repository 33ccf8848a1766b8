/** Connection slots and the sweep flag of the row server, over every interleaving of its threads. */
module Slots {

  /** Where the accept loop is: between the counter going up and the thread, or the refusal. */
  datatype Acceptor = Waiting | Over | Admitted | Stopped

  /** Where a connection thread is. A RECHARGE takes it through the flag. */
  datatype Thread = Serving | TurnedAway | Sweeping | Leaving | Gone

  datatype State = State(limit: nat, live: int, acceptor: Acceptor, threads: seq<Thread>, flag: bool)

  /** The atomic steps. Any enabled one may come next. */
  datatype Step =
    | Arrive
    | Refuse
    | StartFails
    | Start
    | Stop
    | Exchange(t: nat)
    | AnswerBusy(t: nat)
    | Release(t: nat)
    | Leave(t: nat)
    | GiveBack(t: nat)

  predicate At(s: State, t: nat, where: Thread) {
    t < |s.threads| && s.threads[t] == where
  }

  predicate Enabled(s: State, step: Step) {
    match step
    case Arrive => s.acceptor == Waiting
    case Stop => s.acceptor == Waiting
    case Refuse => s.acceptor == Over
    case StartFails => s.acceptor == Admitted
    case Start => s.acceptor == Admitted
    case Exchange(t) => At(s, t, Serving)
    case AnswerBusy(t) => At(s, t, TurnedAway)
    case Release(t) => At(s, t, Sweeping)
    case Leave(t) => At(s, t, Serving)
    case GiveBack(t) => At(s, t, Leaving)
  }

  function Do(s: State, step: Step): State
    requires Enabled(s, step)
  {
    match step
    case Arrive => s.(live := s.live + 1, acceptor := if s.live >= s.limit then Over else Admitted)
    case Stop => s.(acceptor := Stopped)
    case Refuse => s.(live := s.live - 1, acceptor := Waiting)
    case StartFails => s.(live := s.live - 1, acceptor := Waiting)
    case Start => s.(threads := s.threads + [Serving], acceptor := Waiting)
    case Exchange(t) => s.(threads := s.threads[t := if s.flag then TurnedAway else Sweeping], flag := true)
    case AnswerBusy(t) => s.(threads := s.threads[t := Serving])
    case Release(t) => s.(threads := s.threads[t := Serving], flag := false)
    case Leave(t) => s.(threads := s.threads[t := Leaving])
    case GiveBack(t) => s.(threads := s.threads[t := Gone], live := s.live - 1)
  }

  function Start0(limit: nat): State {
    State(limit, 0, Waiting, [], false)
  }

  ghost predicate Runs(s: State, steps: seq<Step>, end: State)
    decreases |steps|
  {
    if steps == [] then s == end
    else Enabled(s, steps[0]) && Runs(Do(s, steps[0]), steps[1..], end)
  }

  // ------------------------------------------------------------- invariants

  /** Threads that have not given their slot back. */
  function Running(s: State): int {
    |s.threads| - multiset(s.threads)[Gone]
  }

  function Sweepers(s: State): nat {
    multiset(s.threads)[Sweeping]
  }

  predicate Sound(s: State) {
    && s.live == Running(s) + (if s.acceptor == Over || s.acceptor == Admitted then 1 else 0)
    && 0 <= Running(s) <= s.limit
    && (s.acceptor == Admitted ==> Running(s) < s.limit)
    && Sweepers(s) == (if s.flag then 1 else 0)
  }

  lemma StepKeepsSound(s: State, step: Step)
    requires Sound(s) && Enabled(s, step)
    ensures Sound(Do(s, step)) && Do(s, step).limit == s.limit
  {
    var s' := Do(s, step);
    if step.Start? {
      assert multiset(s'.threads) == multiset(s.threads) + multiset{Serving};
    }
  }

  lemma {:induction false} RunKeepsSound(s: State, steps: seq<Step>, end: State)
    requires Sound(s) && Runs(s, steps, end)
    ensures Sound(end) && end.limit == s.limit
    decreases |steps|
  {
    if steps != [] {
      StepKeepsSound(s, steps[0]);
      RunKeepsSound(Do(s, steps[0]), steps[1..], end);
    }
  }

  /** Whatever the interleaving: never more threads than slots, never two sweeps at once, the
      flag up exactly while one runs, and the counter right whenever the accept loop rests. */
  lemma AlwaysBounded(limit: nat, steps: seq<Step>, end: State)
    requires Runs(Start0(limit), steps, end)
    ensures Running(end) <= limit
    ensures forall t, u :: At(end, t, Sweeping) && At(end, u, Sweeping) ==> t == u
    ensures end.flag <==> exists t :: At(end, t, Sweeping)
    ensures end.acceptor == Waiting ==> end.live == Running(end)
  {
    RunKeepsSound(Start0(limit), steps, end);
    if t: nat, u: nat :| At(end, t, Sweeping) && At(end, u, Sweeping) && t < u {
      TwoOfThem(end.threads, t, u, Sweeping);
    }
    if end.flag {
      assert Sweeping in multiset(end.threads);
      var t :| 0 <= t < |end.threads| && end.threads[t] == Sweeping;
      assert At(end, t, Sweeping);
    }
    forall t: nat | At(end, t, Sweeping)
      ensures end.flag
    {
      assert end.threads[t] in multiset(end.threads);
    }
  }

  lemma TwoOfThem(s: seq<Thread>, t: nat, u: nat, x: Thread)
    requires t < u < |s| && s[t] == s[u] == x
    ensures multiset(s)[x] >= 2
  {
    assert s == s[..u] + s[u..];
    assert s[..u][t] in multiset(s[..u]) && s[u..][0] in multiset(s[u..]);
  }

  /** Its connection is open: it serves, or is about to again. */
  predicate InService(s: State, t: nat) {
    At(s, t, Serving) || At(s, t, TurnedAway) || At(s, t, Sweeping)
  }

  /** Nothing but its own Leave takes a thread out of service: a refused RECHARGE is answered and the
      connection served on, as after a sweep, and nothing brings a thread back. */
  lemma OnlyLeaveEnds(s: State, step: Step, t: nat)
    requires Enabled(s, step) && t < |s.threads|
    ensures InService(s, t) && !InService(Do(s, step), t) <==> InService(s, t) && step == Leave(t)
    ensures !InService(s, t) ==> !InService(Do(s, step), t)
    ensures (step == AnswerBusy(t) || step == Release(t)) ==> At(Do(s, step), t, Serving)
    ensures Do(s, step).threads[t] == s.threads[t] || step in {Exchange(t), AnswerBusy(t), Release(t), Leave(t), GiveBack(t)}
  {
  }

  lemma {:induction false} ServedUntilLeave(s: State, steps: seq<Step>, end: State, t: nat)
    requires Runs(s, steps, end) && InService(s, t)
    ensures InService(end, t) <==> Leave(t) !in steps
    decreases |steps|
  {
    if steps != [] {
      var next := Do(s, steps[0]);
      OnlyLeaveEnds(s, steps[0], t);
      if steps[0] == Leave(t) {
        NeverBack(next, steps[1..], end, t);
      } else {
        ServedUntilLeave(next, steps[1..], end, t);
      }
    }
  }

  lemma {:induction false} NeverBack(s: State, steps: seq<Step>, end: State, t: nat)
    requires Runs(s, steps, end) && t < |s.threads| && !InService(s, t)
    ensures t < |end.threads| && !InService(end, t)
    decreases |steps|
  {
    if steps != [] {
      OnlyLeaveEnds(s, steps[0], t);
      NeverBack(Do(s, steps[0]), steps[1..], end, t);
    }
  }

  /** A sweep is refused only while another is running, and a connection only while every slot
      is taken. */
  lemma RefusedForCause(limit: nat, steps: seq<Step>, s: State)
    requires Runs(Start0(limit), steps, s)
    ensures forall t :: Enabled(s, Exchange(t)) && At(Do(s, Exchange(t)), t, TurnedAway) ==>
              exists u :: u != t && At(s, u, Sweeping)
    ensures Enabled(s, Arrive) && Do(s, Arrive).acceptor == Over ==> Running(s) == limit
  {
    AlwaysBounded(limit, steps, s);
    RunKeepsSound(Start0(limit), steps, s);
  }

  lemma {:induction false} RunsOn(s: State, a: seq<Step>, mid: State, b: seq<Step>, end: State)
    requires Runs(s, a, mid) && Runs(mid, b, end)
    ensures Runs(s, a + b, end)
    decreases |a|
  {
    if a == [] {
      assert a + b == b;
    } else {
      RunsOn(Do(s, a[0]), a[1..], mid, b, end);
      assert (a + b)[1..] == a[1..] + b;
    }
  }

  /** What is left for one thread until it is gone. */
  function Homeward(s: State, t: nat): seq<Step>
    requires t < |s.threads|
  {
    match s.threads[t]
    case Serving => [Leave(t), GiveBack(t)]
    case TurnedAway => [AnswerBusy(t), Leave(t), GiveBack(t)]
    case Sweeping => [Release(t), Leave(t), GiveBack(t)]
    case Leaving => [GiveBack(t)]
    case Gone => []
  }

  lemma OneGoesHome(s: State, t: nat) returns (end: State)
    requires t < |s.threads|
    ensures Runs(s, Homeward(s, t), end)
    ensures |end.threads| == |s.threads| && end.acceptor == s.acceptor
    ensures forall u :: 0 <= u < |s.threads| ==> end.threads[u] == if u == t then Gone else s.threads[u]
  {
    end := s;
    var steps := Homeward(s, t);
    if steps != [] {
      end := Do(s, steps[0]);
      assert Runs(end, [], end);
      if |steps| > 1 {
        end := Do(end, steps[1]);
        assert Runs(end, [], end);
        if |steps| > 2 {
          end := Do(end, steps[2]);
        }
      }
    }
    assert Runs(end, [], end);
    assert |steps| > 0 ==> steps[1..] == steps[1..|steps|];
    assert |steps| > 1 ==> steps[1..][1..] == steps[2..];
    assert |steps| > 2 ==> steps[1..][1..][1..] == [];
  }

  lemma {:induction false} ThreadsGoHome(s: State, n: nat) returns (steps: seq<Step>, end: State)
    requires Sound(s) && (s.acceptor == Waiting || s.acceptor == Stopped) && n <= |s.threads|
    requires forall u :: n <= u < |s.threads| ==> s.threads[u] == Gone
    ensures Runs(s, steps, end) && end.live == 0 && !end.flag && end.limit == s.limit
    ensures forall u :: 0 <= u < |end.threads| ==> end.threads[u] == Gone
    decreases n
  {
    if n == 0 {
      steps, end := [], s;
      AllGone(s.threads);
    } else {
      var mid := OneGoesHome(s, n - 1);
      RunKeepsSound(s, Homeward(s, n - 1), mid);
      var more;
      more, end := ThreadsGoHome(mid, n - 1);
      steps := Homeward(s, n - 1) + more;
      RunsOn(s, Homeward(s, n - 1), mid, more, end);
    }
  }

  /** From every reachable state the accept loop can finish with the connection in its hands and
      the threads can finish on their own, and then every slot and the flag are back. */
  lemma NothingLeaks(limit: nat, before: seq<Step>, s: State) returns (steps: seq<Step>, end: State)
    requires Runs(Start0(limit), before, s)
    ensures Runs(s, steps, end) && end.live == 0 && !end.flag
    ensures forall u :: 0 <= u < |end.threads| ==> end.threads[u] == Gone
  {
    RunKeepsSound(Start0(limit), before, s);
    var first := if s.acceptor == Over then [Refuse] else if s.acceptor == Admitted then [StartFails] else [];
    var mid := if first == [] then s else Do(s, first[0]);
    assert Runs(mid, [], mid);
    assert first != [] ==> first[1..] == [];
    assert Runs(s, first, mid);
    RunKeepsSound(s, first, mid);
    var more;
    more, end := ThreadsGoHome(mid, |mid.threads|);
    steps := first + more;
    RunsOn(s, first, mid, more, end);
  }

  lemma {:induction false} AllGone(ts: seq<Thread>)
    requires forall u :: 0 <= u < |ts| ==> ts[u] == Gone
    ensures multiset(ts)[Gone] == |ts| && multiset(ts)[Sweeping] == 0
  {
    if ts != [] {
      AllGone(ts[..|ts| - 1]);
      assert ts == ts[..|ts| - 1] + [Gone];
    }
  }
}
