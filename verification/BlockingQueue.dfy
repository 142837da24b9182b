/**
 BlockingConcurrentQueue (blockingconcurrentqueue.h): how its methods pair operations of the inner
 queue with units of the semaphore, over every interleaving.  The inner queue is a number of items to
 which an enqueue adds and from which a dequeue attempt takes some, possibly none, of those it asks
 for; the semaphore is the machine of Semaphore.
 */
module BlockingQueue {
  import opened Semaphore

  datatype Local =
    | Free
    | Enqueued(count: nat)     // in the inner queue, sema->signal(count) not begun
    | Signalling
    | Waiting
    | Taking(left: nat)        // the retry loop: units acquired, items not yet dequeued

  datatype Queue = Queue(sem: State, items: nat, locals: seq<Local>)

  ghost predicate QueueInit(q: Queue) {
    && Init(q.sem, 0) && q.items == 0 && |q.locals| == |q.sem.pcs|
    && forall t :: 0 <= t < |q.locals| ==> q.locals[t] == Free
  }

  // ---------------------------------------------------------------- steps

  /** inner.enqueue or inner.enqueue_bulk succeeds. */
  ghost predicate Enqueue(q: Queue, q': Queue, t: nat, count: nat) {
    && t < |q.locals| && q.locals[t] == Free
    && q' == q.(items := q.items + count, locals := q.locals[t := Enqueued(count)])
  }

  ghost predicate BeginSignal(q: Queue, q': Queue, t: nat) {
    && t < |q.locals| && q.locals[t].Enqueued? && Signal(q.sem, q'.sem, t, q.locals[t].count)
    && q' == q.(sem := q'.sem, locals := q.locals[t := Signalling])
  }

  ghost predicate EndSignal(q: Queue, q': Queue, t: nat) {
    && t < |q.locals| && t < |q.sem.pcs| && q.locals[t] == Signalling && q.sem.pcs[t] == Idle
    && q' == q.(locals := q.locals[t := Free])
  }

  /** try_dequeue, wait_dequeue and their bulk and timed forms ask the semaphore first. */
  ghost predicate BeginWait(q: Queue, q': Queue, t: nat, max: nat, mode: Mode) {
    && t < |q.locals| && q.locals[t] == Free && Wait(q.sem, q'.sem, t, max, mode)
    && q' == q.(sem := q'.sem, locals := q.locals[t := Waiting])
  }

  ghost predicate EndWait(q: Queue, q': Queue, t: nat) {
    && t < |q.locals| && t < |q.sem.pcs| && q.locals[t] == Waiting && Return(q.sem, q'.sem, t)
    && q' == q.(sem := q'.sem, locals := q.locals[t := Taking(q.sem.pcs[t].units)])
  }

  /** A step inside a semaphore function. */
  ghost predicate Within(q: Queue, q': Queue, t: nat) {
    && t < |q.locals| && t < |q.sem.pcs| && (q.locals[t] == Signalling || q.locals[t] == Waiting)
    && ((exists weak :: q'.sem == Advance(q.sem, t, weak)) || Expire(q.sem, q'.sem, t))
    && q' == q.(sem := q'.sem)
  }

  /** One round of the retry loop: the inner queue hands out `got` of the items asked for. */
  ghost predicate Take(q: Queue, q': Queue, t: nat, got: nat) {
    && t < |q.locals| && q.locals[t].Taking? && got <= q.locals[t].left && got <= q.items
    && q' == q.(items := q.items - got, locals := q.locals[t := Taking(q.locals[t].left - got)])
  }

  ghost predicate Leave(q: Queue, q': Queue, t: nat) {
    t < |q.locals| && q.locals[t] == Taking(0) && q' == q.(locals := q.locals[t := Free])
  }

  ghost predicate QueueStep(q: Queue, q': Queue) {
    || (exists t: nat, count :: Enqueue(q, q', t, count))
    || (exists t: nat :: BeginSignal(q, q', t))
    || (exists t: nat :: EndSignal(q, q', t))
    || (exists t: nat, max, mode :: BeginWait(q, q', t, max, mode))
    || (exists t: nat :: EndWait(q, q', t))
    || (exists t: nat :: Within(q, q', t))
    || (exists t: nat, got :: Take(q, q', t, got))
    || (exists t: nat :: Leave(q, q', t))
  }

  ghost predicate QueueRun(r: seq<Queue>) {
    |r| > 0 && QueueInit(r[0]) && forall i :: 0 <= i < |r| - 1 ==> QueueStep(r[i], r[i + 1])
  }

  // ---------------------------------------------------------------- the invariant

  function PendingOf(l: Local): nat { if l.Enqueued? then l.count else 0 }

  function EntitledOf(l: Local): nat { if l.Taking? then l.left else 0 }

  /** Items whose signal has not begun. */
  function Pending(q: Queue): nat { Sum(q.locals, PendingOf) }

  /** Items owed to threads that have their units. */
  function Entitled(q: Queue): nat { Sum(q.locals, EntitledOf) }

  ghost predicate QueueInv(q: Queue) {
    && Inv(q.sem, 0) && |q.locals| == |q.sem.pcs|
    && (forall t :: 0 <= t < |q.locals| ==> (q.locals[t] == Free || q.locals[t].Enqueued? || q.locals[t].Taking?) ==>
          q.sem.pcs[t] == Idle)
    && q.items == q.sem.signalled - q.sem.delivered + Entitled(q) + Pending(q)
  }

  lemma LocalSums(q: Queue, q': Queue, t: nat)
    requires t < |q.locals| && |q'.locals| == |q.locals| && q'.locals == q.locals[t := q'.locals[t]]
    ensures Pending(q') == Pending(q) - PendingOf(q.locals[t]) + PendingOf(q'.locals[t])
    ensures Entitled(q') == Entitled(q) - EntitledOf(q.locals[t]) + EntitledOf(q'.locals[t])
  {
    SumUpdate(q.locals, PendingOf, t, q'.locals[t]);
    SumUpdate(q.locals, EntitledOf, t, q'.locals[t]);
  }

  lemma SemaphoreStepKeeps(q: Queue, q': Queue, t: nat)
    requires QueueInv(q) && (BeginSignal(q, q', t) || EndWait(q, q', t) || Within(q, q', t))
    ensures Inv(q'.sem, 0)
  {
    hide Inv, Advance, Sum, Pending, Entitled;
    assert Step(q.sem, q'.sem);
    StepKeeps(q.sem, q'.sem, 0);
  }

  lemma BeginWaitKeeps(q: Queue, q': Queue, t: nat, max: nat, mode: Mode)
    requires QueueInv(q) && BeginWait(q, q', t, max, mode)
    ensures QueueInv(q')
  {
    hide Inv, Sum, Pending, Entitled;
    assert Step(q.sem, q'.sem);
    StepKeeps(q.sem, q'.sem, 0);
    LocalSums(q, q', t);
  }

  /** Steps inside the semaphore neither signal nor deliver. */
  lemma WithinKeeps(q: Queue, q': Queue, t: nat)
    requires QueueInv(q) && Within(q, q', t)
    ensures QueueInv(q')
  {
    SemaphoreStepKeeps(q, q', t);
    hide Inv, Sum, Pending, Entitled, Advance;
    if weak :| q'.sem == Advance(q.sem, t, weak) { AdvanceStays(q.sem, t, weak); }
  }

  /** Within the semaphore's functions nothing is signalled or delivered, and only t moves. */
  lemma AdvanceStays(s: State, t: nat, weak: bool)
    requires t < |s.pcs|
    ensures var s' := Advance(s, t, weak);
            && s'.signalled == s.signalled && s'.delivered == s.delivered
            && |s'.pcs| == |s.pcs| && s'.pcs == s.pcs[t := s'.pcs[t]]
  {
  }

  /** Steps outside the semaphore. */
  lemma LocalKeeps(q: Queue, q': Queue, t: nat)
    requires QueueInv(q)
    requires (exists count :: Enqueue(q, q', t, count)) || EndSignal(q, q', t) || (exists got :: Take(q, q', t, got))
             || Leave(q, q', t)
    ensures QueueInv(q')
  {
    hide Inv, Advance, Sum, Pending, Entitled;
    LocalSums(q, q', t);
  }

  /** Entering and leaving the semaphore's functions. */
  lemma BorderKeeps(q: Queue, q': Queue, t: nat)
    requires QueueInv(q) && (BeginSignal(q, q', t) || EndWait(q, q', t))
    ensures QueueInv(q')
  {
    hide Inv, Advance, Sum, Pending, Entitled;
    SemaphoreStepKeeps(q, q', t);
    LocalSums(q, q', t);
  }

  lemma QueueStepKeeps(q: Queue, q': Queue)
    requires QueueInv(q) && QueueStep(q, q')
    ensures QueueInv(q')
  {
    hide QueueInv, Enqueue, BeginSignal, EndSignal, BeginWait, EndWait, Within, Take, Leave;
    if t: nat, count :| Enqueue(q, q', t, count) {
      LocalKeeps(q, q', t);
    } else if t: nat :| BeginSignal(q, q', t) {
      BorderKeeps(q, q', t);
    } else if t: nat :| EndSignal(q, q', t) {
      LocalKeeps(q, q', t);
    } else if t: nat, max, mode :| BeginWait(q, q', t, max, mode) {
      BeginWaitKeeps(q, q', t, max, mode);
    } else if t: nat :| EndWait(q, q', t) {
      BorderKeeps(q, q', t);
    } else if t: nat :| Within(q, q', t) {
      WithinKeeps(q, q', t);
    } else if t: nat, got :| Take(q, q', t, got) {
      LocalKeeps(q, q', t);
    } else {
      var t: nat :| Leave(q, q', t);
      LocalKeeps(q, q', t);
    }
  }

  lemma {:induction false} QueueRunKeeps(r: seq<Queue>, i: nat)
    requires QueueRun(r) && i < |r|
    ensures QueueInv(r[i])
  {
    if i == 0 {
      var one := [r[0].sem];
      assert Run(one, 0);
      RunKeeps(one, 0, 0);
      SumZero(r[0].locals, PendingOf);
      SumZero(r[0].locals, EntitledOf);
    } else {
      QueueRunKeeps(r, i - 1);
      QueueStepKeeps(r[i - 1], r[i]);
    }
  }

  // ---------------------------------------------------------------- what the queue promises

  /** The items are the units nobody has acquired, those acquired by waits under way or by threads that
      have not dequeued yet, and those whose signal has not begun. */
  lemma ItemsAreUnits(r: seq<Queue>, i: nat)
    requires QueueRun(r) && i < |r|
    ensures r[i].items == (r[i].sem.signalled - r[i].sem.acquired) + InHand(r[i].sem) + Entitled(r[i]) + Pending(r[i])
    ensures r[i].sem.acquired <= r[i].sem.signalled
  {
    QueueRunKeeps(r, i);
  }

  /** A thread in the retry loop always has the items it is entitled to, so the loop never waits for an enqueue. */
  lemma RetryLoopHasItems(r: seq<Queue>, i: nat, t: nat)
    requires QueueRun(r) && i < |r| && t < |r[i].locals| && r[i].locals[t].Taking?
    ensures r[i].locals[t].left <= Entitled(r[i]) <= r[i].items
  {
    ItemsAreUnits(r, i);
    SumAtLeast(r[i].locals, EntitledOf, t);
  }

  /** With no call in progress the counter is the number of items. */
  lemma CountIsItemsAtRest(r: seq<Queue>, i: nat)
    requires QueueRun(r) && i < |r| && forall t :: 0 <= t < |r[i].locals| ==> r[i].locals[t] == Free
    ensures r[i].items == r[i].sem.count && r[i].sem.permits == 0
  {
    var q := r[i];
    QueueRunKeeps(r, i);
    SumZero(q.locals, PendingOf);
    SumZero(q.locals, EntitledOf);
    SumZero(q.sem.pcs, Asleep);
    SumZero(q.sem.pcs, Held);
  }

  // ---------------------------------------------------------------- what one dequeue takes

  /** A dequeue of at most max items by t began at i and has not left its retry loop at k. */
  ghost predicate Dequeuing(r: seq<Queue>, i: nat, k: nat, t: nat, max: nat, mode: Mode) {
    && QueueRun(r) && i < k < |r| && BeginWait(r[i], r[i + 1], t, max, mode)
    && forall j :: i < j <= k ==> t < |r[j].locals| && (r[j].locals[t] == Waiting || r[j].locals[t].Taking?)
  }

  /** The semaphore has granted it `units` items. */
  ghost predicate GrantedIn(r: seq<Queue>, i: nat, k: nat, t: nat, units: nat)
    requires k < |r|
  {
    exists j :: i < j < k && EndWait(r[j], r[j + 1], t) && r[j + 1].locals[t] == Taking(units)
  }

  predicate DequeueOk(q: Queue, t: nat, max: nat, mode: Mode) {
    && t < |q.locals| && t < |q.sem.pcs|
    && (q.locals[t] == Waiting ==> CallOk(q.sem.pcs[t], max, mode, true))
  }

  /** A step inside the semaphore. */
  lemma WithinCall(q: Queue, q': Queue, u: nat, t: nat, max: nat, mode: Mode)
    requires Within(q, q', u) && DequeueOk(q, t, max, mode)
    ensures DequeueOk(q', t, max, mode)
  {
    hide Advance;
    if q.locals[t] == Waiting {
      if weak :| q'.sem == Advance(q.sem, u, weak) {
        OnlyMoves(q.sem, u, weak);
        if u == t { AdvanceInCall(q.sem, t, weak, max, mode, true); }
      }
    } else if weak :| q'.sem == Advance(q.sem, u, weak) {
      OnlyMoves(q.sem, u, weak);
    }
  }

  /** A step while t is in its dequeue: t goes on waiting, is granted what its wait returns, or takes items. */
  lemma StepInDequeue(q: Queue, q': Queue, t: nat, max: nat, mode: Mode)
    requires QueueStep(q, q') && DequeueOk(q, t, max, mode)
    requires q.locals[t] == Waiting || q.locals[t].Taking?
    requires t < |q'.locals| && (q'.locals[t] == Waiting || q'.locals[t].Taking?)
    ensures DequeueOk(q', t, max, mode)
    ensures q.locals[t] == Waiting && q'.locals[t].Taking? ==>
              EndWait(q, q', t) && q.sem.pcs[t].Returned? && q'.locals[t].left == q.sem.pcs[t].units
    ensures q.locals[t].Taking? ==> q'.locals[t].Taking? && q'.locals[t].left <= q.locals[t].left
  {
    hide Advance, CallOk, Within;
    if u: nat :| Within(q, q', u) {
      WithinCall(q, q', u, t, max, mode);
      WithinLocals(q, q', u);
    }
  }

  lemma WithinLocals(q: Queue, q': Queue, u: nat)
    requires Within(q, q', u)
    ensures q'.locals == q.locals
  {
  }

  lemma {:induction false} DequeueKeeps(r: seq<Queue>, i: nat, k: nat, t: nat, max: nat, mode: Mode)
    requires Dequeuing(r, i, k, t, max, mode)
    ensures DequeueOk(r[k], t, max, mode)
    ensures r[k].locals[t].Taking? ==>
              exists units: nat :: GrantedIn(r, i, k, t, units) && r[k].locals[t].left <= units <= max
                              && (mode == Forever && max > 0 ==> units > 0)
    decreases k
  {
    hide QueueStep, CallOk, EndWait;
    if k == i + 1 {
      BeginsInCall(max, mode, true);
    } else {
      DequeueKeeps(r, i, k - 1, t, max, mode);
      var q, q' := r[k - 1], r[k];
      assert QueueStep(q, r[k - 1 + 1]);
      StepInDequeue(q, q', t, max, mode);
      if q.locals[t] == Waiting && q'.locals[t].Taking? {
        ReturnedInCall(q.sem.pcs[t], max, mode);
        assert GrantedIn(r, i, k, t, q'.locals[t].left) by { assert EndWait(q, r[k - 1 + 1], t); }
      } else if q.locals[t].Taking? {
        var units: nat :| GrantedIn(r, i, k - 1, t, units) && q.locals[t].left <= units <= max
                     && (mode == Forever && max > 0 ==> units > 0);
        assert GrantedIn(r, i, k, t, units);
      }
    }
  }

  lemma ReturnedInCall(p: Pc, max: nat, mode: Mode)
    requires CallOk(p, max, mode, true) && p.Returned?
    ensures p.units <= max && (mode == Forever && max > 0 ==> p.units > 0)
  {
  }

  /** A dequeue is granted at most the items it asked for, at least one if it waits for them without a timeout, and
      never takes more than it is granted. */
  lemma TakesAtMostWhatItAsksFor(r: seq<Queue>, i: nat, k: nat, t: nat, max: nat, mode: Mode)
    requires Dequeuing(r, i, k, t, max, mode) && r[k].locals[t].Taking?
    ensures exists units: nat :: GrantedIn(r, i, k, t, units) && r[k].locals[t].left <= units <= max
                            && (mode == Forever && max > 0 ==> units > 0)
  {
    DequeueKeeps(r, i, k, t, max, mode);
  }

  /** try_dequeue with no other call in progress is granted as many items as there are, up to what it asked for, once
      an exchange does not fail spuriously. */
  lemma UncontendedDequeue(r: seq<Queue>, i: nat, q': Queue, t: nat, max: nat, weaks: seq<bool>)
    requires QueueRun(r) && i < |r| && (forall u :: 0 <= u < |r[i].locals| ==> r[i].locals[u] == Free)
    requires BeginWait(r[i], q', t, max, Try) && false in weaks
    ensures var e := Alone(q'.sem, t, [false] + weaks);
            t < |e.pcs| && e.pcs[t] == Returned(if r[i].items < max then r[i].items else max)
            && e.count == r[i].items - e.pcs[t].units
  {
    hide Alone;
    CountIsItemsAtRest(r, i);
    UncontendedTry(r[i].sem, q'.sem, t, max, weaks);
  }
}
