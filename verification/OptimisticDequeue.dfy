/**
 The optimistic-count dequeue of concurrentqueue.h (ExplicitProducer::dequeue and dequeue_bulk) as a
 state machine: one producer publishes tail indices, any number of consumers run, one atomic access
 per step, in any interleaving.  A single dequeue is a bulk dequeue of at most one.  The counters
 are kept as unbounded integers and compared through their 64-bit words; `unit` and `takenBy` are
 auxiliary, written by steps and never read by them.
 */
module OptimisticDequeue {
  import opened Sets
  import opened Words

  type Thread = nat

  // ---------------------------------------------------------------- words

  /** static_cast<size_t>(tail - (count - overcommit)), as the words compute it. */
  function WordDifference(tail: nat, count: nat, overcommit: nat): (r: nat)
    ensures r < WORD
  {
    (tail % WORD - (count % WORD - overcommit % WORD) % WORD) % WORD
  }

  /** Comparing words orders the counters exactly while they are less than half the range apart. */
  lemma CircularOrder(a: nat, b: nat)
    requires -HALF < b - a < HALF
    ensures CircularLessThan(a % WORD, b % WORD) <==> a < b
  {
    ModOfDifference(a, b);
  }

  lemma DifferenceInRange(tail: nat, count: nat, overcommit: nat)
    requires -HALF < tail - (count - overcommit) < HALF
    ensures var d := tail - (count - overcommit);
            (CircularLessThan(0, WordDifference(tail, count, overcommit)) <==> d > 0)
            && (d > 0 ==> WordDifference(tail, count, overcommit) == d)
  {
    var d, c := tail - (count - overcommit), (count % WORD - overcommit % WORD) % WORD;
    ModOfDifference(count, overcommit);
    assert c == (count - overcommit) % WORD;
    ModOfDifference(tail, count - overcommit);
    assert WordDifference(tail, count, overcommit) == d % WORD;
  }

  // ---------------------------------------------------------------- states

  /** The numbers lo..hi. */
  function Interval(lo: nat, hi: nat): (r: set<nat>)
    ensures forall u: nat :: u in r <==> lo <= u < hi
    ensures |r| == if lo <= hi then hi - lo else 0
    decreases hi
  {
    if hi <= lo then {} else Interval(lo, hi - 1) + {hi - 1}
  }

  /** Auxiliary: the fate of each unit of dequeueOptimisticCount. */
  datatype Unit =
    | Undecided(t: Thread)
    | Failing(t: Thread)      // found too high, not yet added to the overcommit
    | Failed
    | Granted(t: Thread)      // entitles t to an index it has not yet taken
    | Claimed

  datatype Pc =
    | Idle
    | HaveTail(max: nat, tail: nat)
    | HaveOvercommit(max: nat, tail: nat, over: nat)
    | TakeTicket(desired: nat, over: nat)
    | ReloadTail(mine: nat, desired: nat, over: nat)
    | AddOvercommit(mine: nat, actual: nat, desired: nat, claim: bool)
    | ClaimHead(mine: nat, actual: nat)

  datatype State = State(
    tail: nat, head: nat, optimistic: nat, overcommit: nat, pc: map<Thread, Pc>,
    unit: map<nat, Unit>, takenBy: map<nat, Thread>)

  ghost predicate Init(s: State) {
    && s.tail == s.head == s.optimistic == s.overcommit == 0
    && (forall t :: t in s.pc ==> s.pc[t] == Idle)
    && s.unit == map[] && s.takenBy == map[]
  }

  // ---------------------------------------------------------------- steps

  function Goto(s: State, t: Thread, p: Pc): State { s.(pc := s.pc[t := p]) }

  /** Marks the units lo..hi. */
  function Mark(units: map<nat, Unit>, lo: nat, hi: nat, m: Unit): (r: map<nat, Unit>)
    ensures forall u: nat :: u in r <==> u in units || lo <= u < hi
    ensures forall u: nat :: u in r ==> r[u] == if lo <= u < hi then m else units[u]
  {
    var marked := Interval(lo, hi);
    units + map u | u in marked :: m
  }

  /** The producer publishes `count` more items. */
  ghost predicate Publish(s: State, s': State, count: nat) {
    s' == s.(tail := s.tail + count)
  }

  /** A consumer starts a dequeue of at most `max` items, reading the tail. */
  ghost predicate Start(s: State, s': State, t: Thread, max: nat) {
    t in s.pc && s.pc[t] == Idle && s' == Goto(s, t, HaveTail(max, s.tail))
  }

  function Min(a: nat, b: nat): nat { if a < b then a else b }

  /** The first comparison, with the optimistic count read now. */
  function StepCompare(s: State, t: Thread, max: nat, tail: nat, over: nat): State {
    var desired := WordDifference(tail, s.optimistic, over);
    if CircularLessThan(0, desired) then Goto(s, t, TakeTicket(Min(desired, max), over)) else Goto(s, t, Idle)
  }

  function StepTicket(s: State, t: Thread, desired: nat, over: nat): State {
    Goto(s, t, ReloadTail(s.optimistic, desired, over))
      .(optimistic := s.optimistic + desired,
        unit := Mark(s.unit, s.optimistic, s.optimistic + desired, Undecided(t)))
  }

  /** The ticket mine..mine + desired is decided: its first `actual` units are granted, the rest fail. */
  function Decided(s: State, t: Thread, mine: nat, desired: nat, actual: nat): map<nat, Unit> {
    Mark(Mark(s.unit, mine, mine + actual, Granted(t)), mine + actual, mine + desired, Failing(t))
  }

  /** The second comparison, with the tail read now, decides how much of the ticket is good. */
  function StepDecide(s: State, t: Thread, mine: nat, desired: nat, over: nat): State {
    var actual := WordDifference(s.tail, mine, over);
    if CircularLessThan(0, actual) then
      var actual := Min(desired, actual);
      var next := if actual < desired then AddOvercommit(mine, actual, desired, true) else ClaimHead(mine, actual);
      Goto(s, t, next).(unit := Decided(s, t, mine, desired, actual))
    else Goto(s, t, AddOvercommit(mine, 0, desired, false)).(unit := Decided(s, t, mine, desired, 0))
  }

  function StepOvercommit(s: State, t: Thread, mine: nat, actual: nat, desired: nat, claim: bool): State
    requires actual <= desired
  {
    Goto(s, t, if claim then ClaimHead(mine, actual) else Idle)
      .(overcommit := s.overcommit + (desired - actual), unit := Mark(s.unit, mine + actual, mine + desired, Failed))
  }

  /** headIndex.fetch_add: the indices head..head+actual are t's. */
  function StepClaim(s: State, t: Thread, mine: nat, actual: nat): State {
    Goto(s, t, Idle)
      .(head := s.head + actual, unit := Mark(s.unit, mine, mine + actual, Claimed),
        takenBy := Take(s.takenBy, s.head, s.head + actual, t))
  }

  function Take(takenBy: map<nat, Thread>, lo: nat, hi: nat, t: Thread): (r: map<nat, Thread>)
    ensures forall i: nat :: i in r <==> i in takenBy || lo <= i < hi
    ensures forall i: nat :: i in r ==> r[i] == if lo <= i < hi then t else takenBy[i]
  {
    var taken := Interval(lo, hi);
    takenBy + map i | i in taken :: t
  }

  function Advance(s: State, t: Thread): State
    requires t in s.pc
  {
    match s.pc[t]
    case Idle => s
    case HaveTail(max, tail) => Goto(s, t, HaveOvercommit(max, tail, s.overcommit))
    case HaveOvercommit(max, tail, over) => StepCompare(s, t, max, tail, over)
    case TakeTicket(desired, over) => StepTicket(s, t, desired, over)
    case ReloadTail(mine, desired, over) => StepDecide(s, t, mine, desired, over)
    case AddOvercommit(mine, actual, desired, claim) =>
      if actual <= desired then StepOvercommit(s, t, mine, actual, desired, claim) else s
    case ClaimHead(mine, actual) => StepClaim(s, t, mine, actual)
  }

  /** The counters of the comparison that decides a ticket are less than 2^63 apart.  The comparison before it, which
      only decides whether to try, may go wrong. */
  predicate InRange(s: State, t: Thread)
    requires t in s.pc
  {
    match s.pc[t]
    case ReloadTail(mine, _, over) => -HALF < s.tail - (mine - over) < HALF
    case _ => true
  }

  ghost predicate Step(s: State, s': State) {
    || (exists count :: Publish(s, s', count))
    || (exists t, max :: Start(s, s', t, max))
    || (exists t :: t in s.pc && InRange(s, t) && s' == Advance(s, t))
  }

  ghost predicate Run(r: seq<State>) {
    |r| > 0 && Init(r[0]) && forall i :: 0 <= i < |r| - 1 ==> Step(r[i], r[i + 1])
  }

  // ---------------------------------------------------------------- the invariant

  ghost function FailedBelow(units: map<nat, Unit>, n: nat): set<nat> {
    set u | u in units && u < n && units[u] == Failed
  }

  ghost function GrantedUnits(units: map<nat, Unit>): set<nat> {
    set u | u in units && (units[u].Granted? || units[u].Claimed?)
  }

  ghost function ClaimedUnits(units: map<nat, Unit>): set<nat> {
    set u | u in units && units[u] == Claimed
  }

  /** Units lo..hi are all marked m. */
  ghost predicate Marked(s: State, lo: nat, hi: nat, m: Unit) {
    forall u: nat :: lo <= u < hi ==> u in s.unit && s.unit[u] == m
  }

  ghost predicate ThreadOk(s: State, t: Thread)
    requires t in s.pc
  {
    match s.pc[t]
    case Idle => true
    case HaveTail(_, _) => true
    case HaveOvercommit(_, _, over) => over <= s.overcommit
    case TakeTicket(_, over) => over <= s.overcommit
    case ReloadTail(mine, desired, over) =>
      Marked(s, mine, mine + desired, Undecided(t)) && over <= |FailedBelow(s.unit, mine)|
    case AddOvercommit(mine, actual, desired, claim) =>
      && actual <= desired && (!claim ==> actual == 0)
      && Marked(s, mine, mine + actual, Granted(t)) && Marked(s, mine + actual, mine + desired, Failing(t))
    case ClaimHead(mine, actual) => Marked(s, mine, mine + actual, Granted(t))
  }

  /** An unsettled unit is in the ticket its thread is working on. */
  ghost predicate UnitOk(s: State, u: nat)
    requires u in s.unit
  {
    match s.unit[u]
    case Undecided(t) => t in s.pc && s.pc[t].ReloadTail? && s.pc[t].mine <= u < s.pc[t].mine + s.pc[t].desired
    case Failing(t) =>
      t in s.pc && s.pc[t].AddOvercommit? && s.pc[t].mine + s.pc[t].actual <= u < s.pc[t].mine + s.pc[t].desired
    case Granted(t) =>
      t in s.pc && (s.pc[t].AddOvercommit? || s.pc[t].ClaimHead?) && s.pc[t].mine <= u < s.pc[t].mine + s.pc[t].actual
    case _ => true
  }

  ghost predicate ThreadsOk(s: State) { forall t :: t in s.pc ==> ThreadOk(s, t) }

  ghost predicate UnitsOk(s: State) {
    (forall u: nat :: u in s.unit <==> u < s.optimistic) && (forall u: nat :: u in s.unit ==> UnitOk(s, u))
  }

  /** The shared counters count failed and claimed units. */
  ghost predicate Counted(s: State) {
    && |FailedBelow(s.unit, s.optimistic)| == s.overcommit && |ClaimedUnits(s.unit)| == s.head
    && (forall i: nat :: i in s.takenBy <==> i < s.head)
  }

  /** Nothing is granted from hi on, and what lies below it without having failed has been published. */
  ghost predicate Ceiling(s: State, hi: nat) {
    (forall u: nat :: u in GrantedUnits(s.unit) ==> u < hi) && hi - |FailedBelow(s.unit, hi)| <= s.tail
  }

  ghost predicate Inv(s: State) {
    ThreadsOk(s) && UnitsOk(s) && Counted(s) && exists hi :: Ceiling(s, hi)
  }

  // ---------------------------------------------------------------- counting

  /** Granted units never outnumber the published items. */
  lemma GrantedArePublished(s: State)
    requires Inv(s)
    ensures s.head <= |GrantedUnits(s.unit)| <= s.tail
  {
    hide ThreadsOk;
    var hi :| Ceiling(s, hi);
    var g, f := GrantedUnits(s.unit), FailedBelow(s.unit, hi);
    assert g + f <= Interval(0, hi) && g * f == {};
    SubsetSize(g + f, Interval(0, hi));
    assert |g + f| == |g| + |f|;
    SubsetSize(ClaimedUnits(s.unit), g);
  }

  /** The units lo..hi exist and none of them is marked m. */
  ghost predicate NoneIs(units: map<nat, Unit>, lo: nat, hi: nat, m: Unit) {
    forall u: nat :: lo <= u < hi ==> u !in units || units[u] != m
  }

  lemma MarkKeepsFailed(units: map<nat, Unit>, lo: nat, hi: nat, m: Unit, n: nat)
    requires NoneIs(units, lo, hi, Failed) && m != Failed
    ensures FailedBelow(Mark(units, lo, hi, m), n) == FailedBelow(units, n)
  {
    hide Mark;
  }

  lemma MarkKeepsClaimed(units: map<nat, Unit>, lo: nat, hi: nat, m: Unit)
    requires NoneIs(units, lo, hi, Claimed) && m != Claimed
    ensures ClaimedUnits(Mark(units, lo, hi, m)) == ClaimedUnits(units)
  {
    hide Mark;
  }

  lemma MarkFails(units: map<nat, Unit>, lo: nat, hi: nat, n: nat)
    requires NoneIs(units, lo, hi, Failed) && lo <= hi && (lo < hi ==> hi <= n)
    ensures |FailedBelow(Mark(units, lo, hi, Failed), n)| == |FailedBelow(units, n)| + (hi - lo)
  {
    hide Mark;
    var more := Interval(lo, hi);
    assert FailedBelow(Mark(units, lo, hi, Failed), n) == FailedBelow(units, n) + more;
    assert FailedBelow(units, n) !! more;
  }

  lemma MarkClaims(units: map<nat, Unit>, lo: nat, hi: nat)
    requires NoneIs(units, lo, hi, Claimed) && lo <= hi
    ensures |ClaimedUnits(Mark(units, lo, hi, Claimed))| == |ClaimedUnits(units)| + (hi - lo)
  {
    hide Mark;
    var more := Interval(lo, hi);
    assert ClaimedUnits(Mark(units, lo, hi, Claimed)) == ClaimedUnits(units) + more;
    assert ClaimedUnits(units) !! more;
  }

  // ---------------------------------------------------------------- every step keeps the invariant

  predicate OwnedBy(m: Unit, t: Thread) {
    (m.Undecided? || m.Failing? || m.Granted?) && m.t == t
  }

  /** A unit of t moves on: it stays t's, fails or is claimed. */
  predicate Settled(m: Unit, m': Unit, t: Thread) {
    OwnedBy(m, t) && (OwnedBy(m', t) || m' == Failed || m' == Claimed)
  }

  /** Only t's unsettled units change, and units only get added. */
  ghost predicate LocalUnits(units: map<nat, Unit>, units': map<nat, Unit>, t: Thread) {
    && (forall u: nat :: u in units ==> u in units' && (units'[u] == units[u] || Settled(units[u], units'[u], t)))
    && (forall u: nat :: u in units' && u !in units ==> OwnedBy(units'[u], t))
  }

  /** Only thread t moves. */
  ghost predicate Local(s: State, s': State, t: Thread) {
    t in s.pc && t in s'.pc && s'.pc == s.pc[t := s'.pc[t]] && s'.overcommit >= s.overcommit
    && LocalUnits(s.unit, s'.unit, t)
  }

  ghost predicate NoneNewlyGranted(units: map<nat, Unit>, units': map<nat, Unit>) {
    forall u: nat :: u in units' && (units'[u].Granted? || units'[u].Claimed?) ==>
      u in units && (units[u].Granted? || units[u].Claimed?)
  }

  lemma MarkIsLocal(units: map<nat, Unit>, lo: nat, hi: nat, m: Unit, t: Thread)
    requires forall u :: lo <= u < hi ==> u in units && OwnedBy(units[u], t)
    requires m == Failed || (m == Claimed && forall u :: lo <= u < hi ==> units[u].Granted?)
    ensures LocalUnits(units, Mark(units, lo, hi, m), t) && NoneNewlyGranted(units, Mark(units, lo, hi, m))
  {
    hide Mark;
  }

  /** Failed units stay failed. */
  lemma FailedGrows(units: map<nat, Unit>, units': map<nat, Unit>, t: Thread, n: nat)
    requires LocalUnits(units, units', t)
    ensures |FailedBelow(units, n)| <= |FailedBelow(units', n)|
  {
    SubsetSize(FailedBelow(units, n), FailedBelow(units', n));
  }

  lemma OtherThreads(s: State, s': State, t: Thread)
    requires ThreadsOk(s) && Local(s, s', t)
    ensures forall v :: v in s'.pc && v != t ==> ThreadOk(s', v)
  {
    hide FailedBelow;
    forall v | v in s'.pc && v != t ensures ThreadOk(s', v) {
      assert ThreadOk(s, v);
      if s.pc[v].ReloadTail? {
        FailedGrows(s.unit, s'.unit, t, s.pc[v].mine);
      }
    }
  }

  lemma OtherUnits(s: State, s': State, t: Thread)
    requires UnitsOk(s) && Local(s, s', t)
    ensures forall u: nat :: u in s'.unit && !OwnedBy(s'.unit[u], t) ==> UnitOk(s', u)
  {
    forall u | u in s'.unit && !OwnedBy(s'.unit[u], t) ensures UnitOk(s', u) {
      if s'.unit[u] != Failed && s'.unit[u] != Claimed {
        assert u in s.unit && s'.unit[u] == s.unit[u] && UnitOk(s, u);
      }
    }
  }

  /** The units of t are in its ticket, and all units are below the optimistic count. */
  ghost predicate OwnUnits(s: State, t: Thread) {
    && (forall u: nat :: u in s.unit && OwnedBy(s.unit[u], t) ==> UnitOk(s, u))
    && (forall u: nat :: u in s.unit <==> u < s.optimistic)
  }

  /** What is left to show of a step of t. */
  lemma LocalStep(s: State, s': State, t: Thread, hi: nat)
    requires ThreadsOk(s) && UnitsOk(s) && Local(s, s', t)
    requires ThreadOk(s', t) && OwnUnits(s', t) && Counted(s') && Ceiling(s', hi)
    ensures Inv(s')
  {
    hide ThreadOk, UnitOk, Counted, Ceiling, LocalUnits;
    OtherThreads(s, s', t);
    OtherUnits(s, s', t);
  }

  /** A ceiling stays one when nothing new is granted. */
  lemma CeilingStays(s: State, s': State, t: Thread, hi: nat)
    requires LocalUnits(s.unit, s'.unit, t) && s'.tail >= s.tail && Ceiling(s, hi)
    requires NoneNewlyGranted(s.unit, s'.unit)
    ensures Ceiling(s', hi)
  {
    FailedGrows(s.unit, s'.unit, t, hi);
    assert GrantedUnits(s'.unit) <= GrantedUnits(s.unit);
  }

  lemma PublishKeeps(s: State, count: nat)
    requires Inv(s)
    ensures Inv(s.(tail := s.tail + count))
  {
    hide FailedBelow, GrantedUnits, ClaimedUnits;
    var s' := s.(tail := s.tail + count);
    var hi :| Ceiling(s, hi);
    forall t | t in s'.pc ensures ThreadOk(s', t) { assert ThreadOk(s, t); }
    forall u | u in s'.unit ensures UnitOk(s', u) { assert UnitOk(s, u); }
    assert Ceiling(s', hi);
  }

  /** A thread without a ticket moves. */
  lemma MoveKeeps(s: State, t: Thread, p: Pc)
    requires Inv(s) && t in s.pc && (s.pc[t].Idle? || s.pc[t].HaveTail? || s.pc[t].HaveOvercommit?)
    requires ThreadOk(Goto(s, t, p), t)
    ensures Inv(Goto(s, t, p))
  {
    hide FailedBelow, ClaimedUnits, GrantedUnits;
    var s' := Goto(s, t, p);
    var hi :| Ceiling(s, hi);
    forall u | u in s'.unit ensures !OwnedBy(s'.unit[u], t) { assert UnitOk(s, u); }
    CeilingStays(s, s', t, hi);
    LocalStep(s, s', t, hi);
  }

  lemma TicketKeeps(s: State, t: Thread, desired: nat, over: nat)
    requires Inv(s) && t in s.pc && s.pc[t] == TakeTicket(desired, over)
    ensures Inv(StepTicket(s, t, desired, over))
  {
    hide Mark, FailedBelow, ClaimedUnits, GrantedUnits;
    var s' := StepTicket(s, t, desired, over);
    var hi :| Ceiling(s, hi);
    assert ThreadOk(s, t);
    MarkKeepsClaimed(s.unit, s.optimistic, s'.optimistic, Undecided(t));
    MarkKeepsFailed(s.unit, s.optimistic, s'.optimistic, Undecided(t), s.optimistic);
    NoneFailAbove(s.unit, s'.unit, s.optimistic, s'.optimistic);
    forall u | u in s'.unit && OwnedBy(s'.unit[u], t) ensures UnitOk(s', u) {
      if u in s.unit { assert UnitOk(s, u); }
    }
    CeilingStays(s, s', t, hi);
    LocalStep(s, s', t, hi);
  }

  lemma NoneFailAbove(units: map<nat, Unit>, units': map<nat, Unit>, n: nat, n': nat)
    requires n <= n' && NoneIs(units', n, n', Failed)
    ensures FailedBelow(units', n') == FailedBelow(units', n)
  {
  }

  /** What the second comparison grants is covered: the failures known to t lie below its ticket. */
  lemma GrantIsCovered(s: State, t: Thread, mine: nat, desired: nat, over: nat, actual: nat, hi: nat) returns (hi': nat)
    requires t in s.pc && s.pc[t] == ReloadTail(mine, desired, over) && ThreadOk(s, t) && Ceiling(s, hi)
    requires actual <= desired && (actual > 0 ==> actual <= s.tail - (mine - over))
    ensures hi' - |FailedBelow(s.unit, hi')| <= s.tail && hi <= hi' && (actual > 0 ==> mine + actual <= hi')
  {
    if actual == 0 || mine + actual <= hi {
      hi' := hi;
    } else {
      hi' := mine + actual;
      SubsetSize(FailedBelow(s.unit, mine), FailedBelow(s.unit, hi'));
    }
  }

  /** Deciding a ticket changes no failed or claimed unit. */
  lemma DecidedCounts(s: State, t: Thread, mine: nat, desired: nat, actual: nat, n: nat)
    requires Marked(s, mine, mine + desired, Undecided(t)) && actual <= desired
    ensures var units := Decided(s, t, mine, desired, actual);
            FailedBelow(units, n) == FailedBelow(s.unit, n) && ClaimedUnits(units) == ClaimedUnits(s.unit)
  {
    hide Mark, FailedBelow, ClaimedUnits;
    var units := Mark(s.unit, mine, mine + actual, Granted(t));
    MarkKeepsFailed(s.unit, mine, mine + actual, Granted(t), n);
    MarkKeepsClaimed(s.unit, mine, mine + actual, Granted(t));
    MarkKeepsFailed(units, mine + actual, mine + desired, Failing(t), n);
    MarkKeepsClaimed(units, mine + actual, mine + desired, Failing(t));
  }

  lemma DecidedUnits(s: State, t: Thread, mine: nat, desired: nat, actual: nat)
    requires Marked(s, mine, mine + desired, Undecided(t)) && actual <= desired
    ensures var units := Decided(s, t, mine, desired, actual);
            (forall u: nat :: u in units <==> u in s.unit)
            && (forall u :: mine <= u < mine + actual ==> units[u] == Granted(t))
            && (forall u :: mine + actual <= u < mine + desired ==> units[u] == Failing(t))
            && (forall u :: u in s.unit && !(mine <= u < mine + desired) ==> units[u] == s.unit[u])
  {
    hide Mark;
  }

  lemma DecidedCeiling(s: State, s': State, t: Thread, mine: nat, desired: nat, actual: nat, hi: nat, hi': nat)
    requires Marked(s, mine, mine + desired, Undecided(t)) && actual <= desired
    requires s'.unit == Decided(s, t, mine, desired, actual) && s'.tail == s.tail && Ceiling(s, hi)
    requires hi' - |FailedBelow(s.unit, hi')| <= s.tail && hi <= hi' && (actual > 0 ==> mine + actual <= hi')
    ensures Ceiling(s', hi')
  {
    hide Mark, FailedBelow;
    DecidedCounts(s, t, mine, desired, actual, hi');
    forall u | u in GrantedUnits(s'.unit) ensures u < hi' {
      assert u in GrantedUnits(s.unit) || mine <= u < mine + actual;
    }
  }

  /** The state after deciding to grant `actual` units, whatever the reason. */
  lemma DecidedKeeps(s: State, t: Thread, mine: nat, desired: nat, over: nat, actual: nat, p: Pc)
    requires Inv(s) && t in s.pc && s.pc[t] == ReloadTail(mine, desired, over)
    requires actual <= desired && (actual > 0 ==> actual <= s.tail - (mine - over))
    requires || (p.AddOvercommit? && p.mine == mine && p.actual == actual && p.desired == desired
                 && (!p.claim ==> actual == 0))
             || (p == ClaimHead(mine, actual) && actual == desired)
    ensures Inv(Goto(s, t, p).(unit := Decided(s, t, mine, desired, actual)))
  {
    hide Mark, Decided, FailedBelow, ClaimedUnits, Ceiling;
    var s' := Goto(s, t, p).(unit := Decided(s, t, mine, desired, actual));
    var hi :| Ceiling(s, hi);
    assert ThreadOk(s, t);
    var hi' := GrantIsCovered(s, t, mine, desired, over, actual, hi);
    DecidedCounts(s, t, mine, desired, actual, s.optimistic);
    DecidedUnits(s, t, mine, desired, actual);
    DecidedCeiling(s, s', t, mine, desired, actual, hi, hi');
    forall u | u in s'.unit && OwnedBy(s'.unit[u], t) ensures UnitOk(s', u) { assert UnitOk(s, u); }
    LocalStep(s, s', t, hi');
  }

  lemma DecideKeeps(s: State, t: Thread, mine: nat, desired: nat, over: nat)
    requires Inv(s) && t in s.pc && s.pc[t] == ReloadTail(mine, desired, over) && InRange(s, t)
    ensures Inv(StepDecide(s, t, mine, desired, over))
  {
    hide Inv, Decided, WordDifference, CircularLessThan;
    DifferenceInRange(s.tail, mine, over);
    var d := s.tail - (mine - over);
    if d <= 0 {
      DecidedKeeps(s, t, mine, desired, over, 0, AddOvercommit(mine, 0, desired, false));
    } else if d < desired {
      DecidedKeeps(s, t, mine, desired, over, d, AddOvercommit(mine, d, desired, true));
    } else {
      DecidedKeeps(s, t, mine, desired, over, desired, ClaimHead(mine, desired));
    }
  }

  lemma OvercommitUnits(s: State, t: Thread, mine: nat, actual: nat, desired: nat, claim: bool)
    requires UnitsOk(s) && t in s.pc && s.pc[t] == AddOvercommit(mine, actual, desired, claim) && ThreadOk(s, t)
    ensures OwnUnits(StepOvercommit(s, t, mine, actual, desired, claim), t)
    ensures ThreadOk(StepOvercommit(s, t, mine, actual, desired, claim), t)
  {
    hide Mark, FailedBelow;
    var s' := StepOvercommit(s, t, mine, actual, desired, claim);
    assert forall u: nat :: u in s'.unit <==> u in s.unit;
    forall u: nat | u in s'.unit && OwnedBy(s'.unit[u], t) ensures UnitOk(s', u) { assert UnitOk(s, u); }
  }

  lemma OvercommitLocal(s: State, t: Thread, mine: nat, actual: nat, desired: nat, claim: bool)
    requires t in s.pc && s.pc[t] == AddOvercommit(mine, actual, desired, claim) && ThreadOk(s, t)
    ensures var s' := StepOvercommit(s, t, mine, actual, desired, claim);
            Local(s, s', t) && NoneNewlyGranted(s.unit, s'.unit)
  {
    hide Mark, LocalUnits, NoneNewlyGranted;
    MarkIsLocal(s.unit, mine + actual, mine + desired, Failed, t);
  }

  /** As many units fail as are added to the overcommit. */
  lemma OvercommitCounted(s: State, t: Thread, mine: nat, actual: nat, desired: nat, claim: bool)
    requires t in s.pc && s.pc[t] == AddOvercommit(mine, actual, desired, claim) && ThreadOk(s, t)
    requires UnitsOk(s) && Counted(s)
    ensures Counted(StepOvercommit(s, t, mine, actual, desired, claim))
  {
    hide Mark, FailedBelow, ClaimedUnits, UnitsOk;
    TicketBelow(s, mine + actual, mine + desired, Failing(t));
    MarkFails(s.unit, mine + actual, mine + desired, s.optimistic);
    MarkKeepsClaimed(s.unit, mine + actual, mine + desired, Failed);
  }

  lemma OvercommitKeeps(s: State, t: Thread, mine: nat, actual: nat, desired: nat, claim: bool)
    requires Inv(s) && t in s.pc && s.pc[t] == AddOvercommit(mine, actual, desired, claim) && actual <= desired
    ensures Inv(StepOvercommit(s, t, mine, actual, desired, claim))
  {
    var hi :| Ceiling(s, hi);
    assert ThreadOk(s, t);
    hide Mark, Ceiling, LocalUnits, NoneNewlyGranted, OwnUnits, UnitsOk, ThreadOk, ThreadsOk, Counted;
    var s' := StepOvercommit(s, t, mine, actual, desired, claim);
    OvercommitUnits(s, t, mine, actual, desired, claim);
    OvercommitLocal(s, t, mine, actual, desired, claim);
    OvercommitCounted(s, t, mine, actual, desired, claim);
    CeilingStays(s, s', t, hi);
    LocalStep(s, s', t, hi);
  }

  lemma TicketBelow(s: State, lo: nat, hi: nat, m: Unit)
    requires UnitsOk(s) && Marked(s, lo, hi, m)
    ensures lo < hi ==> hi <= s.optimistic
  {
    if lo < hi { assert hi - 1 in s.unit; }
  }

  lemma ClaimUnits(s: State, t: Thread, mine: nat, actual: nat)
    requires UnitsOk(s) && t in s.pc && s.pc[t] == ClaimHead(mine, actual) && ThreadOk(s, t)
    ensures OwnUnits(StepClaim(s, t, mine, actual), t)
  {
    hide Mark, Take;
    var s' := StepClaim(s, t, mine, actual);
    assert forall u: nat :: u in s'.unit <==> u in s.unit;
    forall u: nat | u in s'.unit && OwnedBy(s'.unit[u], t) ensures UnitOk(s', u) { assert UnitOk(s, u); }
  }

  lemma ClaimKeeps(s: State, t: Thread, mine: nat, actual: nat)
    requires Inv(s) && t in s.pc && s.pc[t] == ClaimHead(mine, actual)
    ensures Inv(StepClaim(s, t, mine, actual))
  {
    hide Mark, Take, FailedBelow, ClaimedUnits, GrantedUnits, Ceiling, LocalUnits, NoneNewlyGranted, OwnUnits, UnitsOk;
    var s' := StepClaim(s, t, mine, actual);
    var hi :| Ceiling(s, hi);
    assert ThreadOk(s, t);
    ClaimUnits(s, t, mine, actual);
    MarkIsLocal(s.unit, mine, mine + actual, Claimed, t);
    MarkClaims(s.unit, mine, mine + actual);
    MarkKeepsFailed(s.unit, mine, mine + actual, Claimed, s.optimistic);
    CeilingStays(s, s', t, hi);
    LocalStep(s, s', t, hi);
  }

  lemma AdvanceKeeps(s: State, t: Thread)
    requires Inv(s) && t in s.pc && InRange(s, t)
    ensures Inv(Advance(s, t))
  {
    assert ThreadOk(s, t);
    match s.pc[t]
    case Idle =>
    case HaveTail(max, tail) => MoveKeeps(s, t, HaveOvercommit(max, tail, s.overcommit));
    case HaveOvercommit(max, tail, over) => MoveKeeps(s, t, StepCompare(s, t, max, tail, over).pc[t]);
    case TakeTicket(desired, over) => TicketKeeps(s, t, desired, over);
    case ReloadTail(mine, desired, over) => DecideKeeps(s, t, mine, desired, over);
    case AddOvercommit(mine, actual, desired, claim) => OvercommitKeeps(s, t, mine, actual, desired, claim);
    case ClaimHead(mine, actual) => ClaimKeeps(s, t, mine, actual);
  }

  lemma StepKeeps(s: State, s': State)
    requires Inv(s) && Step(s, s')
    ensures Inv(s')
  {
    if count :| Publish(s, s', count) {
      PublishKeeps(s, count);
    } else if t, max :| Start(s, s', t, max) {
      MoveKeeps(s, t, HaveTail(max, s.tail));
    } else {
      var t :| t in s.pc && InRange(s, t) && s' == Advance(s, t);
      AdvanceKeeps(s, t);
    }
  }

  /** Every reachable state satisfies the invariant. */
  lemma {:induction false} RunKeeps(r: seq<State>, i: nat)
    requires Run(r) && i < |r|
    ensures Inv(r[i])
  {
    if i == 0 {
      assert r[0].unit == map[] && FailedBelow(r[0].unit, 0) == {};
      assert ClaimedUnits(r[0].unit) == {} && GrantedUnits(r[0].unit) == {};
      assert Ceiling(r[0], 0);
    } else {
      RunKeeps(r, i - 1);
      StepKeeps(r[i - 1], r[i]);
    }
  }

  // ---------------------------------------------------------------- what the protocol promises

  /** In every reachable state the indices a consumer is entitled to, together with all those that
      were ever claimed or are owed to others, have been published. */
  lemma EntitledArePublished(r: seq<State>, i: nat)
    requires Run(r) && i < |r|
    ensures r[i].head <= |GrantedUnits(r[i].unit)| <= r[i].tail
  {
    RunKeeps(r, i);
    GrantedArePublished(r[i]);
  }

  /** Every index taken by headIndex.fetch_add is below the published tail and was taken by nobody before. */
  lemma ClaimIsPublishedAndFresh(r: seq<State>, i: nat, t: Thread)
    requires Run(r) && i + 1 < |r| && t in r[i].pc && r[i].pc[t].ClaimHead? && r[i + 1] == Advance(r[i], t)
    ensures r[i + 1].head == r[i].head + r[i].pc[t].actual <= r[i].tail
    ensures forall k: nat :: r[i].head <= k < r[i + 1].head ==>
              (k !in r[i].takenBy && k in r[i + 1].takenBy && r[i + 1].takenBy[k] == t)
  {
    hide Run, Mark, UnitsOk, Ceiling, FailedBelow, Interval;
    var s := r[i];
    RunKeeps(r, i);
    GrantedArePublished(s);
    assert ThreadOk(s, t);
    var mine := Interval(s.pc[t].mine, s.pc[t].mine + s.pc[t].actual);
    assert ClaimedUnits(s.unit) + mine <= GrantedUnits(s.unit) && ClaimedUnits(s.unit) !! mine;
    SubsetSize(ClaimedUnits(s.unit) + mine, GrantedUnits(s.unit));
  }

  /** One step never takes an index away from the thread that got it. */
  lemma StepKeepsTaken(s: State, s': State)
    requires Counted(s) && Step(s, s')
    ensures s.takenBy.Keys <= s'.takenBy.Keys && forall k :: k in s.takenBy ==> s'.takenBy[k] == s.takenBy[k]
    ensures s.head <= s'.head
  {
    hide Mark, Take, InRange, FailedBelow, ClaimedUnits, WordDifference, CircularLessThan;
    if t :| t in s.pc && InRange(s, t) && s' == Advance(s, t) {
    }
  }

  /** Exactly the indices below headIndex have been taken, each by one thread for good. */
  lemma {:induction false} TakenOnce(r: seq<State>, i: nat, j: nat, k: nat)
    requires Run(r) && i <= j < |r|
    ensures k in r[j].takenBy <==> k < r[j].head
    ensures r[i].head <= r[j].head <= r[j].tail
    ensures k in r[i].takenBy ==> k in r[j].takenBy && r[j].takenBy[k] == r[i].takenBy[k]
    decreases j - i
  {
    hide Step, Init, ThreadsOk, UnitsOk, FailedBelow, ClaimedUnits, GrantedUnits, Ceiling;
    RunKeeps(r, j);
    EntitledArePublished(r, j);
    if i < j {
      RunKeeps(r, i);
      StepKeepsTaken(r[i], r[i + 1]);
      TakenOnce(r, i + 1, j, k);
    }
  }

  // ---------------------------------------------------------------- what one call takes

  /** Of the units mine..mine + desired those that `tail` published items cover, over of the units before failing. */
  function Covered(tail: nat, mine: nat, desired: nat, over: nat): nat {
    var d := tail - (mine - over);
    if d <= 0 then 0 else if d < desired then d else desired
  }

  /** The first comparison gives up exactly when the items published are no more than the units handed out less those
      known to have failed, and else asks for as many as there are beyond them, up to max. */
  lemma CompareExactly(s: State, t: Thread, max: nat, tail: nat, over: nat)
    requires t in s.pc && s.pc[t] == HaveOvercommit(max, tail, over) && -HALF < tail - (s.optimistic - over) < HALF
    ensures var d := tail - (s.optimistic - over);
            Advance(s, t) == Goto(s, t, if d <= 0 then Idle else TakeTicket(Min(d, max), over))
  {
    hide WordDifference, CircularLessThan;
    DifferenceInRange(tail, s.optimistic, over);
  }

  /** Where a decided ticket goes on: exactly the covered units are to be claimed, the others given back. */
  predicate GoesOn(p: Pc, mine: nat, desired: nat, good: nat) {
    match p
    case AddOvercommit(m, actual, d, claim) => m == mine && d == desired && actual == good && (good > 0 ==> claim)
    case ClaimHead(m, actual) => m == mine && actual == good
    case _ => false
  }

  lemma DecideExactly(s: State, t: Thread)
    requires t in s.pc && s.pc[t].ReloadTail? && InRange(s, t)
    ensures var p, s' := s.pc[t], Advance(s, t);
            t in s'.pc && GoesOn(s'.pc[t], p.mine, p.desired, Covered(s.tail, p.mine, p.desired, p.over))
  {
    hide WordDifference, CircularLessThan, Mark;
    var p := s.pc[t];
    DifferenceInRange(s.tail, p.mine, p.over);
  }

  lemma StepGoesOn(s: State, s': State, t: Thread, mine: nat, desired: nat, good: nat)
    requires Step(s, s') && t in s.pc && t in s'.pc && GoesOn(s.pc[t], mine, desired, good) && good <= desired
    ensures GoesOn(s'.pc[t], mine, desired, good)
            || (s'.pc[t] == Idle && (good > 0 ==> s.pc[t] == ClaimHead(mine, good) && s' == Advance(s, t)))
  {
    hide Mark, Take, WordDifference, CircularLessThan, Covered;
    if u, max :| Start(s, s', u, max) {
    } else if u :| u in s.pc && InRange(s, u) && s' == Advance(s, u) {
      if u != t { OnlyMoves(s, u, t); }
    }
  }

  lemma OnlyMoves(s: State, u: Thread, t: Thread)
    requires u in s.pc && t in s.pc && t != u
    ensures t in Advance(s, u).pc && Advance(s, u).pc[t] == s.pc[t]
  {
    hide Mark, Take;
  }

  /** In every run: a call whose ticket is decided at i claims exactly the units that the items published by then cover,
      and returns without any only if they cover none. */
  lemma {:induction false} TakesWhatIsCovered(r: seq<State>, i: nat, k: nat, t: Thread)
    requires Run(r) && i < k < |r| && t in r[i].pc && r[i].pc[t].ReloadTail? && InRange(r[i], t)
    requires r[i + 1] == Advance(r[i], t) && forall j :: i < j < k ==> t in r[j].pc && r[j].pc[t] != Idle
    requires t in r[k].pc
    ensures var p := r[i].pc[t];
            var good := Covered(r[i].tail, p.mine, p.desired, p.over);
            if r[k].pc[t] == Idle then
              good > 0 ==> i < k - 1 && r[k - 1].pc[t] == ClaimHead(p.mine, good) && r[k] == Advance(r[k - 1], t)
            else GoesOn(r[k].pc[t], p.mine, p.desired, good)
    decreases k
  {
    hide Step, Covered;
    var p := r[i].pc[t];
    var good := Covered(r[i].tail, p.mine, p.desired, p.over);
    DecideExactly(r[i], t);
    if k > i + 1 {
      TakesWhatIsCovered(r, i, k - 1, t);
      CoveredBound(r[i].tail, p.mine, p.desired, p.over);
      assert Step(r[k - 1], r[k - 1 + 1]);
      StepGoesOn(r[k - 1], r[k], t, p.mine, p.desired, good);
    }
  }

  lemma CoveredBound(tail: nat, mine: nat, desired: nat, over: nat)
    ensures Covered(tail, mine, desired, over) <= desired
  {
  }

  ghost predicate AtRest(s: State) { forall t :: t in s.pc ==> s.pc[t] == Idle }

  lemma AllSettled(units: map<nat, Unit>, n: nat)
    requires forall u: nat :: u in units <==> u < n
    requires forall u :: u in units ==> units[u] == Failed || units[u] == Claimed
    ensures |FailedBelow(units, n)| + |ClaimedUnits(units)| == n
  {
    hide Interval;
    var f, c := FailedBelow(units, n), ClaimedUnits(units);
    assert f + c == Interval(0, n);
    assert f !! c;
    assert |f + c| == |f| + |c|;
  }

  /** When no dequeue is in progress the optimistic count minus the overcommit is the number of items taken. */
  lemma RestIsExact(s: State)
    requires Inv(s) && AtRest(s)
    ensures s.optimistic - s.overcommit == s.head
  {
    hide ThreadsOk, FailedBelow, ClaimedUnits, Ceiling;
    forall u | u in s.unit ensures s.unit[u] == Failed || s.unit[u] == Claimed { assert UnitOk(s, u); }
    AllSettled(s.unit, s.optimistic);
  }

  /** A dequeue, run to its end with no other thread moving: five steps after the first, if it needs them. */
  function RunAlone(s: State, t: Thread, max: nat): State
    requires t in s.pc
  {
    var s1 := Advance(Goto(s, t, HaveTail(max, s.tail)), t);
    Advance(Advance(Advance(Advance(s1, t), t), t), t)
  }

  /** From rest a dequeue of at most max takes exactly the next min(max, available) indices: in
      particular it finds the queue empty only when it is. */
  lemma UncontendedTakesWhatIsThere(s: State, t: Thread, max: nat)
    requires Inv(s) && AtRest(s) && t in s.pc && s.tail - s.head < HALF
    ensures var s' := RunAlone(s, t, max);
            && s.head <= s.tail && AtRest(s')
            && s'.head == s.head + Min(max, s.tail - s.head)
            && forall k: nat :: s.head <= k < s'.head ==> k in s'.takenBy && s'.takenBy[k] == t
  {
    hide Interval, Mark, Inv, WordDifference, CircularLessThan;
    RestIsExact(s);
    GrantedArePublished(s);
    DifferenceInRange(s.tail, s.optimistic, s.overcommit);
  }

  /** dequeue's test is dequeue_bulk's test. */
  lemma SingleComparesAlike(tail: nat, count: nat, overcommit: nat)
    ensures CircularLessThan((count % WORD - overcommit % WORD) % WORD, tail % WORD)
            == CircularLessThan(0, WordDifference(tail, count, overcommit))
  {
    var c := (count % WORD - overcommit % WORD) % WORD;
    ModOfDifference(0, tail % WORD - c);
    ModOfDifference(c, tail % WORD);
  }
}
