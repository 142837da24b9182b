/**
 LightweightSemaphore (lightweightsemaphore.h) as a state machine: any number of threads wait, wait
 with a timeout, try, wait for many and signal, one access to m_count or to the kernel semaphore per
 step, in any interleaving.  The kernel semaphore is a counter of permits.  wait is waitMany(1) and
 tryWait is tryWaitMany(1).  `signalled`, `acquired` and `delivered` are auxiliary: steps write them
 and never read them.
 */
module Semaphore {

  type Thread = nat

  const SPINS := 10000

  datatype Mode = Try | Forever | Timed

  datatype Pc =
    | Idle
    | TryLoad(max: nat, got: nat, mode: Mode)            // tryWaitMany, `got` units in hand already
    | Trying(max: nat, got: nat, mode: Mode, seen: int)
    | Spinning(max: nat, mode: Mode, spin: nat)
    | Spun(max: nat, mode: Mode, spin: nat, seen: int)
    | Sleeping(max: nat, mode: Mode)                     // m_count is decremented
    | TimedOut(max: nat)
    | Rechecking(max: nat, seen: int)
    | Posting(owed: nat)
    | Returned(units: nat)

  datatype State = State(
    count: int, permits: nat, pcs: seq<Pc>, signalled: nat, acquired: nat, delivered: nat)

  ghost predicate Init(s: State, initial: nat) {
    && s.count == initial && s.permits == 0 && s.signalled == s.acquired == s.delivered == 0
    && forall t :: 0 <= t < |s.pcs| ==> s.pcs[t] == Idle
  }

  // ---------------------------------------------------------------- steps

  function Goto(s: State, t: Thread, p: Pc): State
    requires t < |s.pcs|
  {
    s.(pcs := s.pcs[t := p])
  }

  /** What is left of `seen` when at most max units are taken. */
  function NewCount(seen: int, max: nat): int { if seen > max then seen - max else 0 }

  /** A unit was acquired after the spinning phase; more are only tried for. */
  function AfterOne(max: nat): Pc { if max > 1 then TryLoad(max - 1, 1, Try) else Returned(1) }

  /** One step of a waiting or posting thread; `weak` is a spurious failure of compare_exchange_weak. */
  function Advance(s: State, t: Thread, weak: bool): State
    requires t < |s.pcs|
  {
    match s.pcs[t]
    case Idle => s
    case TryLoad(max, got, mode) => Goto(s, t, Trying(max, got, mode, s.count))
    case Trying(max, got, mode, seen) =>
      if seen <= 0 then Goto(s, t, if mode == Try || max == 0 then Returned(got) else Spinning(max, mode, SPINS))
      else if s.count == seen && !weak then
        var units := seen - NewCount(seen, max);
        Goto(s, t, Returned(got + units)).(count := NewCount(seen, max), acquired := s.acquired + units)
      else Goto(s, t, Trying(max, got, mode, s.count))
    case Spinning(max, mode, spin) =>
      if spin > 0 then Goto(s, t, Spun(max, mode, spin - 1, s.count))
      else if s.count > 0 then Goto(s, t, AfterOne(max)).(count := s.count - 1, acquired := s.acquired + 1)
      else Goto(s, t, Sleeping(max, mode)).(count := s.count - 1)
    case Spun(max, mode, spin, seen) =>
      if seen > 0 && s.count == seen then
        var units := seen - NewCount(seen, max);
        Goto(s, t, Returned(units)).(count := NewCount(seen, max), acquired := s.acquired + units)
      else Goto(s, t, Spinning(max, mode, spin))
    case Sleeping(max, mode) =>
      if s.permits > 0 then Goto(s, t, AfterOne(max)).(permits := s.permits - 1, acquired := s.acquired + 1) else s
    case TimedOut(max) => Goto(s, t, Rechecking(max, s.count))
    case Rechecking(max, seen) =>
      if seen >= 0 && s.permits > 0 then
        Goto(s, t, AfterOne(max)).(permits := s.permits - 1, acquired := s.acquired + 1)
      else if seen < 0 && s.count == seen then Goto(s, t, Returned(0)).(count := s.count + 1)
      else Goto(s, t, TimedOut(max))
    case Posting(owed) =>
      if owed == 0 then Goto(s, t, Idle) else Goto(s, t, Posting(owed - 1)).(permits := s.permits + 1)
    case Returned(_) => s
  }

  /** waitMany, wait or their try forms begin. */
  ghost predicate Wait(s: State, s': State, t: Thread, max: nat, mode: Mode) {
    t < |s.pcs| && s.pcs[t] == Idle && s' == Goto(s, t, TryLoad(max, 0, mode))
  }

  /** The timeout of a sleeping thread expires. */
  ghost predicate Expire(s: State, s': State, t: Thread) {
    t < |s.pcs| && s.pcs[t].Sleeping? && s.pcs[t].mode == Timed && s' == Goto(s, t, TimedOut(s.pcs[t].max))
  }

  /** signal adds to m_count and finds how many sleepers to release. */
  ghost predicate Signal(s: State, s': State, t: Thread, n: nat) {
    && t < |s.pcs| && s.pcs[t] == Idle
    && var release := if -s.count < n then -s.count else n;
       s' == Goto(s, t, if release > 0 then Posting(release) else Idle)
               .(count := s.count + n, signalled := s.signalled + n)
  }

  /** A wait returns to its caller. */
  ghost predicate Return(s: State, s': State, t: Thread) {
    && t < |s.pcs| && s.pcs[t].Returned?
    && s' == Goto(s, t, Idle).(delivered := s.delivered + s.pcs[t].units)
  }

  ghost predicate Step(s: State, s': State) {
    || (exists t: nat, weak :: t < |s.pcs| && s' == Advance(s, t, weak))
    || (exists t: nat, max, mode :: Wait(s, s', t, max, mode))
    || (exists t: nat :: Expire(s, s', t))
    || (exists t: nat, n :: Signal(s, s', t, n))
    || (exists t: nat :: Return(s, s', t))
  }

  ghost predicate Run(r: seq<State>, initial: nat) {
    |r| > 0 && Init(r[0], initial) && forall i :: 0 <= i < |r| - 1 ==> Step(r[i], r[i + 1])
  }

  // ---------------------------------------------------------------- sums over threads

  function Sum<T>(xs: seq<T>, f: T -> nat): nat {
    if xs == [] then 0 else Sum(xs[..|xs| - 1], f) + f(xs[|xs| - 1])
  }

  lemma {:induction false} SumUpdate<T>(xs: seq<T>, f: T -> nat, t: nat, x: T)
    requires t < |xs|
    ensures Sum(xs[t := x], f) == Sum(xs, f) - f(xs[t]) + f(x)
  {
    var k := |xs| - 1;
    if t == k {
      assert xs[t := x][..k] == xs[..k];
    } else {
      assert xs[t := x][..k] == xs[..k][t := x];
      SumUpdate(xs[..k], f, t, x);
    }
  }

  lemma {:induction false} SumAtLeast<T>(xs: seq<T>, f: T -> nat, t: nat)
    requires t < |xs|
    ensures f(xs[t]) <= Sum(xs, f)
  {
    if t < |xs| - 1 {
      assert xs[..|xs| - 1][t] == xs[t];
      SumAtLeast(xs[..|xs| - 1], f, t);
    }
  }

  lemma {:induction false} SumZero<T>(xs: seq<T>, f: T -> nat)
    requires forall t :: 0 <= t < |xs| ==> f(xs[t]) == 0
    ensures Sum(xs, f) == 0
  {
    if xs != [] { SumZero(xs[..|xs| - 1], f); }
  }

  /** Committed to sleeping: m_count was decremented for this thread and it has neither been woken nor put back. */
  function Asleep(p: Pc): nat { if p.Sleeping? || p.TimedOut? || p.Rechecking? then 1 else 0 }

  function Owed(p: Pc): nat { if p.Posting? then p.owed else 0 }

  /** Units acquired by a wait that has not returned. */
  function Held(p: Pc): nat {
    if p.TryLoad? || p.Trying? then p.got else if p.Returned? then p.units else 0
  }

  function Sleepers(s: State): nat { Sum(s.pcs, Asleep) }

  function Posts(s: State): nat { Sum(s.pcs, Owed) }

  function InHand(s: State): nat { Sum(s.pcs, Held) }

  function Positive(x: int): nat { if x > 0 then x else 0 }

  // ---------------------------------------------------------------- the invariant

  /** Only the final attempt to acquire more has a unit in hand. */
  predicate PcOk(p: Pc) { (p.TryLoad? || p.Trying?) && p.mode != Try ==> p.got == 0 }

  ghost predicate Inv(s: State, initial: nat) {
    && (forall t :: 0 <= t < |s.pcs| ==> PcOk(s.pcs[t]))
    && Positive(-s.count) + s.permits + Posts(s) == Sleepers(s)
    && initial + s.signalled - s.acquired == s.count + Sleepers(s)
    && s.acquired == s.delivered + InHand(s)
  }

  /** Moving t to p changes the three sums by what t leaves and what it takes up. */
  lemma GotoSums(s: State, t: Thread, p: Pc)
    requires t < |s.pcs|
    ensures var s' := Goto(s, t, p);
            && Sleepers(s') == Sleepers(s) - Asleep(s.pcs[t]) + Asleep(p)
            && Posts(s') == Posts(s) - Owed(s.pcs[t]) + Owed(p)
            && InHand(s') == InHand(s) - Held(s.pcs[t]) + Held(p)
  {
    SumUpdate(s.pcs, Asleep, t, p);
    SumUpdate(s.pcs, Owed, t, p);
    SumUpdate(s.pcs, Held, t, p);
  }

  lemma MoveSums(s: State, s': State, t: Thread)
    requires t < |s.pcs| && |s'.pcs| == |s.pcs| && s'.pcs == s.pcs[t := s'.pcs[t]]
    ensures Sleepers(s') == Sleepers(s) - Asleep(s.pcs[t]) + Asleep(s'.pcs[t])
    ensures Posts(s') == Posts(s) - Owed(s.pcs[t]) + Owed(s'.pcs[t])
    ensures InHand(s') == InHand(s) - Held(s.pcs[t]) + Held(s'.pcs[t])
  {
    GotoSums(s, t, s'.pcs[t]);
  }

  lemma AdvanceKeeps(s: State, initial: nat, t: Thread, weak: bool)
    requires Inv(s, initial) && t < |s.pcs|
    ensures Inv(Advance(s, t, weak), initial)
  {
    hide Sum, Sleepers, Posts, InHand;
    MoveSums(s, Advance(s, t, weak), t);
  }

  lemma StepKeeps(s: State, s': State, initial: nat)
    requires Inv(s, initial) && Step(s, s')
    ensures Inv(s', initial)
  {
    hide Sum, Advance, Sleepers, Posts, InHand;
    if t: nat, weak :| t < |s.pcs| && s' == Advance(s, t, weak) {
      AdvanceKeeps(s, initial, t, weak);
    } else if t: nat, max, mode :| Wait(s, s', t, max, mode) {
      MoveSums(s, s', t);
    } else if t: nat :| Expire(s, s', t) {
      MoveSums(s, s', t);
    } else if t: nat, n :| Signal(s, s', t, n) {
      MoveSums(s, s', t);
    } else {
      var t: nat :| Return(s, s', t);
      MoveSums(s, s', t);
    }
  }

  lemma {:induction false} RunKeeps(r: seq<State>, initial: nat, i: nat)
    requires Run(r, initial) && i < |r|
    ensures Inv(r[i], initial)
  {
    if i == 0 {
      SumZero(r[0].pcs, Asleep);
      SumZero(r[0].pcs, Owed);
      SumZero(r[0].pcs, Held);
    } else {
      RunKeeps(r, initial, i - 1);
      StepKeeps(r[i - 1], r[i], initial);
    }
  }

  // ---------------------------------------------------------------- what the semaphore promises

  /** Acquisitions never exceed signals, and every unit not yet acquired is in the counter, is a kernel
      permit, or is owed as a post by a signaller under way: none is lost to a timeout.  The threads
      committed to sleeping are the permits, the posts owed and what the counter is below zero. */
  lemma NothingLost(r: seq<State>, initial: nat, i: nat)
    requires Run(r, initial) && i < |r|
    ensures r[i].acquired <= initial + r[i].signalled
    ensures initial + r[i].signalled - r[i].acquired == Positive(r[i].count) + r[i].permits + Posts(r[i])
    ensures r[i].acquired == r[i].delivered + InHand(r[i])
    ensures Sleepers(r[i]) == r[i].permits + Posts(r[i]) + Positive(-r[i].count)
  {
    RunKeeps(r, initial, i);
  }

  /** Once the signallers have finished, sleepers without a permit are exactly what the counter is below
      zero: at zero or above there is one permit for each sleeper. */
  lemma OnePermitEach(r: seq<State>, initial: nat, i: nat)
    requires Run(r, initial) && i < |r| && forall t :: 0 <= t < |r[i].pcs| ==> !r[i].pcs[t].Posting?
    ensures Sleepers(r[i]) == r[i].permits + Positive(-r[i].count)
    ensures r[i].count >= 0 ==> r[i].permits == Sleepers(r[i])
  {
    RunKeeps(r, initial, i);
    SumZero(r[i].pcs, Owed);
  }

  /** A sleeper is never stuck while a unit is free: it can be woken now, or a signaller is about to post. */
  lemma SleeperIsServed(r: seq<State>, initial: nat, i: nat, t: Thread)
    requires Run(r, initial) && i < |r| && t < |r[i].pcs| && Asleep(r[i].pcs[t]) == 1
    requires initial + r[i].signalled - r[i].acquired > 0
    ensures r[i].permits > 0 || exists u :: 0 <= u < |r[i].pcs| && Owed(r[i].pcs[u]) > 0
  {
    var s := r[i];
    RunKeeps(r, initial, i);
    SumAtLeast(s.pcs, Asleep, t);
    if s.permits == 0 {
      if forall u :: 0 <= u < |s.pcs| ==> Owed(s.pcs[u]) == 0 {
        SumZero(s.pcs, Owed);
      }
    }
  }

  // ---------------------------------------------------------------- what one call takes

  /** A wait for at most max units by t began at i and is under way, or about to return, at k. */
  ghost predicate Call(r: seq<State>, initial: nat, i: nat, k: nat, t: Thread, max: nat, mode: Mode) {
    && Run(r, initial) && i < k < |r| && Wait(r[i], r[i + 1], t, max, mode)
    && forall j :: i < j <= k ==> t < |r[j].pcs| && r[j].pcs[t] != Idle
  }

  /** Its timeout has expired. */
  ghost predicate TimedOutIn(r: seq<State>, i: nat, k: nat, t: Thread)
    requires k < |r|
  {
    exists j :: i < j < k && Expire(r[j], r[j + 1], t)
  }

  /** What a thread in such a call may still take and has in hand; `expired` when its timeout has. */
  predicate CallOk(p: Pc, max: nat, mode: Mode, expired: bool) {
    match p
    case TryLoad(m, got, md) => Attempt(m, got, md, max, mode)
    case Trying(m, got, md, _) => Attempt(m, got, md, max, mode)
    case Spinning(m, md, _) => m == max > 0 && md == mode != Try
    case Spun(m, md, _, _) => m == max > 0 && md == mode != Try
    case Sleeping(m, md) => m == max > 0 && md == mode != Try
    case TimedOut(m) => m == max > 0 && mode == Timed && expired
    case Rechecking(m, _) => m == max > 0 && mode == Timed && expired
    case Returned(units) => units <= max && (units == 0 ==> max == 0 || mode == Try || (mode == Timed && expired))
    case _ => false
  }

  /** The first attempt, or one for what is left when a unit is in hand. */
  predicate Attempt(m: nat, got: nat, md: Mode, max: nat, mode: Mode) {
    (m == max && got == 0 && md == mode) || (m + 1 == max && got == 1 && md == Try && mode != Try)
  }

  lemma AdvanceInCall(s: State, t: Thread, weak: bool, max: nat, mode: Mode, expired: bool)
    requires t < |s.pcs| && CallOk(s.pcs[t], max, mode, expired)
    ensures CallOk(Advance(s, t, weak).pcs[t], max, mode, expired)
  {
  }

  lemma StepInCall(s: State, s': State, t: Thread, max: nat, mode: Mode, expired: bool)
    requires t < |s.pcs| == |s'.pcs| && CallOk(s.pcs[t], max, mode, expired) && Step(s, s') && s'.pcs[t] != Idle
    ensures CallOk(s'.pcs[t], max, mode, expired || Expire(s, s', t))
  {
    hide Advance;
    if u: nat, weak :| u < |s.pcs| && s' == Advance(s, u, weak) {
      if u == t { AdvanceInCall(s, t, weak, max, mode, expired); } else { OnlyMoves(s, u, weak); }
    }
  }

  lemma OnlyMoves(s: State, t: Thread, weak: bool)
    requires t < |s.pcs|
    ensures |Advance(s, t, weak).pcs| == |s.pcs|
    ensures forall u :: 0 <= u < |s.pcs| && u != t ==> Advance(s, t, weak).pcs[u] == s.pcs[u]
  {
  }

  lemma SameThreads(s: State, s': State)
    requires Step(s, s')
    ensures |s'.pcs| == |s.pcs|
  {
    hide Advance;
    if u: nat, weak :| u < |s.pcs| && s' == Advance(s, u, weak) { OnlyMoves(s, u, weak); }
  }

  lemma {:induction false} CallKeeps(r: seq<State>, initial: nat, i: nat, k: nat, t: Thread, max: nat, mode: Mode)
    requires Call(r, initial, i, k, t, max, mode)
    ensures CallOk(r[k].pcs[t], max, mode, TimedOutIn(r, i, k, t))
    decreases k
  {
    hide Step, CallOk, Expire;
    if k == i + 1 {
      BeginsInCall(max, mode, TimedOutIn(r, i, k, t));
    } else {
      CallKeeps(r, initial, i, k - 1, t, max, mode);
      var s := r[k - 1];
      assert Step(s, r[k - 1 + 1]);
      SameThreads(s, r[k]);
      StepInCall(s, r[k], t, max, mode, TimedOutIn(r, i, k - 1, t));
      assert TimedOutIn(r, i, k, t) <==> TimedOutIn(r, i, k - 1, t) || Expire(s, r[k - 1 + 1], t);
    }
  }

  lemma BeginsInCall(max: nat, mode: Mode, expired: bool)
    ensures CallOk(TryLoad(max, 0, mode), max, mode, expired)
  {
  }

  /** A call returns at most what it asked for; one that waits, at least one unit unless it asked for none or has timed
      out. */
  lemma TakesWhatItAsksFor(r: seq<State>, initial: nat, i: nat, k: nat, t: Thread, max: nat, mode: Mode)
    requires Call(r, initial, i, k, t, max, mode) && r[k].pcs[t].Returned?
    ensures r[k].pcs[t].units <= max
    ensures mode == Forever && max > 0 ==> r[k].pcs[t].units > 0
    ensures mode == Timed && max > 0 && !TimedOutIn(r, i, k, t) ==> r[k].pcs[t].units > 0
  {
    CallKeeps(r, initial, i, k, t, max, mode);
  }

  /** As many as there are, up to max. */
  function Greedy(max: nat, count: int): nat { if count <= 0 then 0 else if count < max then count else max }

  /** At some moment of the call m_count was `seen`. */
  ghost predicate SeenIn(r: seq<State>, i: nat, k: nat, seen: int)
    requires k < |r|
  {
    exists j :: i < j < k && r[j].count == seen
  }

  /** ... and exactly `units` were there to be taken, and were taken. */
  ghost predicate TakenIn(r: seq<State>, i: nat, k: nat, max: nat, units: nat)
    requires k < |r|
  {
    exists j :: i < j < k && units == Greedy(max, r[j].count) && (units > 0 ==> r[j + 1].count == r[j].count - units)
  }

  /** Of the units loaded as `seen` as many as there are up to max are taken at once, if they are still there. */
  predicate Takes(s: State, s': State, max: nat, units: nat, seen: int) {
    units == Greedy(max, seen) && (units > 0 ==> s.count == seen && s'.count == seen - units)
  }

  /** A step of a call: it loads the counter, or returns with what it takes of what it has loaded. */
  lemma AdvanceTakes(s: State, t: Thread, weak: bool, max: nat, mode: Mode, expired: bool)
    requires t < |s.pcs| && CallOk(s.pcs[t], max, mode, expired)
    ensures var p, s' := s.pcs[t], Advance(s, t, weak);
            match s'.pcs[t]
            case Trying(_, _, _, seen) => seen == s.count
            case Spun(_, _, _, seen) => seen == s.count
            case Returned(units) =>
              if p.Returned? then p.units == units
              else if p.Trying? then units >= p.got && Takes(s, s', p.max, units - p.got, p.seen)
              else if p.Spun? then Takes(s, s', max, units, p.seen)
              else !p.TryLoad? && (units == 0 || (units == 1 && max == 1))
            case _ => true
  {
  }

  /** A step of some thread is one of t's, or leaves t where it is, or ends its sleep. */
  lemma StepOf(s: State, s': State, t: Thread)
    requires t < |s.pcs| && Step(s, s') && s.pcs[t] != Idle && t < |s'.pcs| && s'.pcs[t] != Idle
    ensures s'.pcs[t] == s.pcs[t] || s'.pcs[t].TimedOut? || exists weak :: s' == Advance(s, t, weak)
  {
    hide Advance;
    if u: nat, weak :| u < |s.pcs| && s' == Advance(s, u, weak) {
      if u != t { OnlyMoves(s, u, weak); }
    }
  }

  /** What a call knows: the counter it has loaded was there, and what it returns was taken, at some moment of the call;
      a wait may have been given one unit by a signaller and have tried for the rest. */
  ghost predicate Knows(r: seq<State>, i: nat, k: nat, t: Thread, max: nat, mode: Mode)
    requires k < |r| && t < |r[k].pcs|
  {
    match r[k].pcs[t]
    case Trying(_, _, _, seen) => SeenIn(r, i, k, seen)
    case Spun(_, _, _, seen) => SeenIn(r, i, k, seen)
    case Returned(units) => Taken(r, i, k, max, mode, units)
    case _ => true
  }

  ghost predicate Taken(r: seq<State>, i: nat, k: nat, max: nat, mode: Mode, units: nat)
    requires k < |r|
  {
    TakenIn(r, i, k, max, units)
    || (mode != Try && (units == 0 || (max > 0 && TakenIn(r, i, k, max - 1, units - 1))))
  }

  lemma {:induction false} CallKnows(r: seq<State>, initial: nat, i: nat, k: nat, t: Thread, max: nat, mode: Mode)
    requires Call(r, initial, i, k, t, max, mode)
    ensures Knows(r, i, k, t, max, mode)
    decreases k
  {
    hide Step, CallOk, Advance;
    if k > i + 1 {
      CallKnows(r, initial, i, k - 1, t, max, mode);
      CallKeeps(r, initial, i, k - 1, t, max, mode);
      assert Step(r[k - 1], r[k - 1 + 1]);
      StepKnows(r, i, k, t, max, mode, TimedOutIn(r, i, k - 1, t));
    }
  }

  lemma StepKnows(r: seq<State>, i: nat, k: nat, t: Thread, max: nat, mode: Mode, expired: bool)
    requires i + 1 < k < |r| && t < |r[k - 1].pcs| && t < |r[k].pcs| && r[k - 1].pcs[t] != Idle && r[k].pcs[t] != Idle
    requires Step(r[k - 1], r[k]) && CallOk(r[k - 1].pcs[t], max, mode, expired) && Knows(r, i, k - 1, t, max, mode)
    ensures Knows(r, i, k, t, max, mode)
  {
    hide Step, Advance, CallOk;
    var s, s' := r[k - 1], r[k];
    StepOf(s, s', t);
    if weak :| s' == Advance(s, t, weak) {
      AdvanceTakes(s, t, weak, max, mode, expired);
      if s'.pcs[t].Returned? && !s.pcs[t].Returned? {
        AttemptOf(s.pcs[t], max, mode, expired);
        Returns(r, i, k, t, max, mode);
      }
    }
  }

  lemma AttemptOf(p: Pc, max: nat, mode: Mode, expired: bool)
    requires CallOk(p, max, mode, expired)
    ensures p.Trying? ==> (p.got == 0 && p.max == max) || (p.got == 1 && p.max + 1 == max && mode != Try)
    ensures !p.Trying? && !p.TryLoad? && !p.Returned? ==> mode != Try && max > 0
  {
  }

  /** What is taken by a step was there at a moment of the call. */
  lemma TakenThen(r: seq<State>, i: nat, k: nat, max: nat, units: nat, seen: int)
    requires i + 1 < k < |r| && Takes(r[k - 1], r[k], max, units, seen) && SeenIn(r, i, k - 1, seen)
    ensures TakenIn(r, i, k, max, units)
  {
    if units > 0 {
      assert units == Greedy(max, r[k - 1].count);
    } else {
      var j :| i < j < k - 1 && r[j].count == seen;
      assert units == Greedy(max, r[j].count);
    }
  }

  lemma Returns(r: seq<State>, i: nat, k: nat, t: Thread, max: nat, mode: Mode)
    requires i + 1 < k < |r| && t < |r[k - 1].pcs| && t < |r[k].pcs| && r[k].pcs[t].Returned?
    requires var p, units := r[k - 1].pcs[t], r[k].pcs[t].units;
             if p.Trying? then
               units >= p.got && Takes(r[k - 1], r[k], p.max, units - p.got, p.seen) && SeenIn(r, i, k - 1, p.seen)
               && ((p.got == 0 && p.max == max) || (p.got == 1 && p.max + 1 == max && mode != Try))
             else if p.Spun? then Takes(r[k - 1], r[k], max, units, p.seen) && SeenIn(r, i, k - 1, p.seen)
             else mode != Try && (units == 0 || (units == 1 && max == 1))
    ensures Taken(r, i, k, max, mode, r[k].pcs[t].units)
  {
    var p, units := r[k - 1].pcs[t], r[k].pcs[t].units;
    if p.Trying? {
      TakenThen(r, i, k, p.max, units - p.got, p.seen);
    } else if p.Spun? {
      TakenThen(r, i, k, max, units, p.seen);
    } else {
      assert Greedy(0, r[k - 1].count) == 0;
    }
  }

  /** In every run: what a call of tryWaitMany returns was, at some moment of the call, as much as there was up to max,
      and was taken then; so it fails only where m_count was not above zero, or it asked for nothing.  A wait that
      returns anything has taken in the same way all of it, or all but the one unit it was given. */
  lemma TakesWhatIsThere(r: seq<State>, initial: nat, i: nat, k: nat, t: Thread, max: nat, mode: Mode)
    requires Call(r, initial, i, k, t, max, mode) && r[k].pcs[t].Returned?
    ensures Taken(r, i, k, max, mode, r[k].pcs[t].units)
  {
    CallKnows(r, initial, i, k, t, max, mode);
  }

  // ---------------------------------------------------------------- calls that nobody disturbs

  /** Steps of t while nobody else moves, a spurious failure for each true. */
  function Alone(s: State, t: Thread, weaks: seq<bool>): State
    requires t < |s.pcs|
    decreases |weaks|
  {
    if weaks == [] then s else
    OnlyMoves(s, t, weaks[0]);
    Alone(Advance(s, t, weaks[0]), t, weaks[1..])
  }

  /** An undisturbed tryWaitMany goes on until an exchange does not fail, and then has as much as there is. */
  lemma UncontendedTry(s: State, s': State, t: Thread, max: nat, weaks: seq<bool>)
    requires Wait(s, s', t, max, Try)
    ensures var units := Greedy(max, s.count);
            Alone(s', t, [false] + weaks) ==
            if (s.count <= 0 && weaks != []) || false in weaks
            then Goto(s, t, Returned(units)).(count := s.count - units, acquired := s.acquired + units)
            else Goto(s, t, Trying(max, 0, Try, s.count))
  {
    assert ([false] + weaks)[1..] == weaks;
    var s1 := Advance(s', t, false);
    assert s1 == Goto(s, t, Trying(max, 0, Try, s.count));
    TriesAlone(s1, t, max, weaks);
  }

  lemma {:induction false} TriesAlone(s: State, t: Thread, max: nat, weaks: seq<bool>)
    requires t < |s.pcs| && s.pcs[t] == Trying(max, 0, Try, s.count)
    ensures var units := Greedy(max, s.count);
            Alone(s, t, weaks) ==
            if (s.count <= 0 && weaks != []) || false in weaks
            then Goto(s, t, Returned(units)).(count := s.count - units, acquired := s.acquired + units)
            else s
    decreases |weaks|
  {
    if weaks != [] {
      var s' := Advance(s, t, weaks[0]);
      if s.count <= 0 || !weaks[0] {
        ReturnedStays(s', t, weaks[1..]);
      } else {
        assert s'.pcs == s.pcs;
        TriesAlone(s', t, max, weaks[1..]);
        assert false in weaks <==> false in weaks[1..];
      }
    }
  }

  lemma {:induction false} ReturnedStays(s: State, t: Thread, weaks: seq<bool>)
    requires t < |s.pcs| && s.pcs[t].Returned?
    ensures Alone(s, t, weaks) == s
    decreases |weaks|
  {
    if weaks != [] { ReturnedStays(s, t, weaks[1..]); }
  }

  /** n steps of t alone, without spurious failures. */
  function Steps(s: State, t: Thread, n: nat): State
    requires t < |s.pcs|
    decreases n
  {
    if n == 0 then s else
    OnlyMoves(s, t, false);
    Steps(Advance(s, t, false), t, n - 1)
  }

  lemma FirstStep(s: State, t: Thread, n: nat)
    requires t < |s.pcs|
    ensures |Advance(s, t, false).pcs| == |s.pcs|
    ensures Steps(s, t, n + 1) == Steps(Advance(s, t, false), t, n)
  {
    hide Advance;
    OnlyMoves(s, t, false);
  }

  /** Nothing to be had: asleep without a permit, or timed out with a permit still to be posted. */
  predicate MustWait(s: State, t: Thread)
    requires t < |s.pcs|
  {
    s.permits == 0 && (s.pcs[t].Sleeping? || ((s.pcs[t].TimedOut? || s.pcs[t].Rechecking?) && s.count >= 0))
  }

  /** How far a wait is from its end: which part of the call, ... */
  function Phase(p: Pc): nat {
    match p
    case TryLoad(_, _, mode) => if mode == Try then 1 else 4
    case Trying(_, _, mode, _) => if mode == Try then 1 else 4
    case Spinning(_, _, _) => 3
    case Spun(_, _, _, _) => 3
    case Returned(_) => 0
    case _ => 2
  }

  /** ... and how far in it. */
  function Left(p: Pc, count: int): nat {
    match p
    case TryLoad(_, _, _) => 2
    case Trying(_, _, _, seen) => if seen == count then 0 else 1
    case Spinning(_, _, spin) => 2 * spin
    case Spun(_, _, spin, _) => 2 * spin + 1
    case TimedOut(_) => 1
    case Rechecking(_, seen) => if seen == count then 0 else 2
    case _ => 0
  }

  predicate Waits(p: Pc) { p != Idle && !p.Posting? && !p.Returned? }

  /** A step alone brings a wait nearer to its end, unless there is nothing to be had. */
  lemma StepNears(s: State, t: Thread)
    requires t < |s.pcs| && Waits(s.pcs[t]) && !MustWait(s, t)
    ensures t < |Advance(s, t, false).pcs|
    ensures var s' := Advance(s, t, false);
            var p, q := s.pcs[t], s'.pcs[t];
            && (Waits(q) || q.Returned?)
            && (Phase(q) < Phase(p) || (Phase(q) == Phase(p) && Left(q, s'.count) < Left(p, s.count)))
  {
  }

  /** A wait that goes on alone returns, or comes to where there is nothing to be had. */
  lemma {:induction false} AloneReturns(s: State, t: Thread) returns (n: nat)
    requires t < |s.pcs| && (Waits(s.pcs[t]) || s.pcs[t].Returned?)
    ensures var e := Steps(s, t, n); t < |e.pcs| && (e.pcs[t].Returned? || MustWait(e, t))
    decreases Phase(s.pcs[t]), Left(s.pcs[t], s.count)
  {
    hide Advance, MustWait, Phase, Left;
    if s.pcs[t].Returned? || MustWait(s, t) { return 0; }
    StepNears(s, t);
    n := AloneReturns(Advance(s, t, false), t);
    FirstStep(s, t, n);
    n := n + 1;
  }
}
