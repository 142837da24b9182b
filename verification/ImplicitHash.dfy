/**
 The lock-free hash from thread ids to implicit producers (concurrentqueue.h,
 get_or_add_implicit_producer) as a state machine: any number of threads look themselves up, insert
 themselves, move their entry to a newer table and grow the table, one access to shared memory per
 step, in any interleaving.  Thread ids are 0, 1, ...; `hash` gives their hash values.  Allocation
 succeeds and no thread exits.  `number`, `own` and `first` are auxiliary: written by steps, never
 read by them.
 */
module ImplicitHash {
  import opened Wrappers

  type Thread = nat
  type Producer = nat

  datatype Slot = Slot(key: Option<Thread>, producer: Option<Producer>)

  const EMPTY_SLOT := Slot(None, None)

  /** A table; its capacity is the number of slots. */
  type Table = seq<Slot>

  datatype Pc =
    | Idle
    | Find(main: nat, table: nat, k: nat)                     // k slots of `table` have been probed
    | Move(main: nat, k: nat, producer: Producer)             // found in an older table
    | MoveCas(main: nat, k: nat, producer: Producer)
    | MoveValue(main: nat, index: nat, producer: Producer)
    | Count(main: nat)                                        // found nowhere
    | Insert(main: nat, n: nat)
    | Resize(n: nat)                                          // holds the resize lock
    | Grow(main: nat, n: nat)
    | Unlock(main: nat, n: nat)
    | Decide(main: nat, n: nat)
    | Probe(main: nat, k: nat, producer: Producer)
    | ProbeCas(main: nat, k: nat, producer: Producer)
    | ProbeValue(main: nat, index: nat, producer: Producer)
    | Done(producer: Producer)

  datatype State = State(
    hash: seq<nat>, pcs: seq<Pc>, tables: seq<Table>, count: nat, lock: Option<Thread>, made: nat,
    number: map<Thread, nat>, own: map<Thread, Producer>, first: map<Thread, nat>)

  /** One table, empty, of any size a power of two may have. */
  ghost predicate Init(s: State) {
    && |s.pcs| == |s.hash| && |s.tables| == 1 && |s.tables[0]| > 0
    && (forall t :: 0 <= t < |s.pcs| ==> s.pcs[t] == Idle)
    && (forall j :: 0 <= j < |s.tables[0]| ==> s.tables[0][j] == EMPTY_SLOT)
    && s.count == 0 && s.lock == None && s.made == 0 && s.number == map[] && s.own == map[] && s.first == map[]
  }

  // ---------------------------------------------------------------- steps

  /** The slot of probe k: hashedId masked with capacity - 1, then incremented and masked k times. */
  function Index(table: Table, h: nat, k: nat): (i: nat)
    requires 0 < |table| && k <= |table|
    ensures i < |table|
  {
    var i := h % |table| + k;
    if i < |table| then i else i - |table|
  }

  /** Entries stay below this: half the capacity plus a quarter. */
  function Limit(capacity: nat): nat { capacity / 2 + capacity / 4 }

  /** Doubles until n is below half the capacity, and no further. */
  function NewCapacity(capacity: nat, n: nat): (c: nat)
    requires capacity > 0
    ensures c >= capacity && n < c / 2 && (c == capacity || n >= c / 4)
    decreases 2 * n + 2 - capacity
  {
    if n < capacity / 2 then capacity else NewCapacity(capacity * 2, n)
  }

  function Goto(s: State, t: Thread, p: Pc): State
    requires t < |s.pcs|
  {
    s.(pcs := s.pcs[t := p])
  }

  function SetSlot(s: State, i: nat, j: nat, slot: Slot): State
    requires i < |s.tables| && j < |s.tables[i]|
  {
    s.(tables := s.tables[i := s.tables[i][j := slot]])
  }

  /** The tables and slots a thread is about to touch exist. */
  predicate Sound(s: State, t: Thread)
    requires t < |s.pcs|
  {
    && t < |s.hash| && s.tables != [] && (forall i :: 0 <= i < |s.tables| ==> |s.tables[i]| > 0)
    && match s.pcs[t]
       case Find(main, table, k) => table <= main < |s.tables| && k <= |s.tables[table]|
       case Count(main) => main < |s.tables|
       case Move(main, k, _) => main < |s.tables| && k <= |s.tables[main]|
       case MoveCas(main, k, _) => main < |s.tables| && k <= |s.tables[main]|
       case MoveValue(main, j, _) => main < |s.tables| && j < |s.tables[main]|
       case Insert(main, _) => main < |s.tables|
       case Grow(main, _) => main < |s.tables|
       case Unlock(main, _) => main < |s.tables|
       case Decide(main, _) => main < |s.tables|
       case Probe(main, k, _) => main < |s.tables| && k <= |s.tables[main]|
       case ProbeCas(main, k, _) => main < |s.tables| && k <= |s.tables[main]|
       case ProbeValue(main, j, _) => main < |s.tables| && j < |s.tables[main]|
       case _ => true
  }

  function StepFind(s: State, t: Thread, main: nat, table: nat, k: nat): State
    requires t < |s.pcs| && t < |s.hash| && table < |s.tables| && |s.tables[table]| > 0 && k <= |s.tables[table]|
  {
    var slot := s.tables[table][Index(s.tables[table], s.hash[t], k)];
    if slot.key == Some(t) then
      (if slot.producer.None? then s
       else Goto(s, t, if table == main then Done(slot.producer.value) else Move(main, 0, slot.producer.value)))
    else if slot.key == None then Goto(s, t, if table > 0 then Find(main, table - 1, 0) else Count(main))
    else Goto(s, t, Find(main, table, k + 1))
  }

  /** The entry is copied to the main table; the compare-and-swap may meet a slot taken meanwhile. */
  function StepMoveCas(s: State, t: Thread, main: nat, k: nat, p: Producer): State
    requires t < |s.pcs| && t < |s.hash| && main < |s.tables| && |s.tables[main]| > 0 && k <= |s.tables[main]|
  {
    var j := Index(s.tables[main], s.hash[t], k);
    if s.tables[main][j].key == None
    then Goto(SetSlot(s, main, j, s.tables[main][j].(key := Some(t))), t, MoveValue(main, j, p))
    else Goto(s, t, Move(main, k + 1, p))
  }

  function StepProbeCas(s: State, t: Thread, main: nat, k: nat, p: Producer): State
    requires t < |s.pcs| && t < |s.hash| && main < |s.tables| && |s.tables[main]| > 0 && k <= |s.tables[main]|
  {
    var j := Index(s.tables[main], s.hash[t], k);
    if s.tables[main][j].key == None
    then
      Goto(SetSlot(s, main, j, s.tables[main][j].(key := Some(t))), t, ProbeValue(main, j, p))
        .(first := s.first[t := main])
    else Goto(s, t, Probe(main, k + 1, p))
  }

  function StoreProducer(s: State, t: Thread, main: nat, j: nat, p: Producer): State
    requires t < |s.pcs| && main < |s.tables| && j < |s.tables[main]|
  {
    Goto(SetSlot(s, main, j, s.tables[main][j].(producer := Some(p))), t, Done(p))
  }

  function Advance(s: State, t: Thread): State
    requires t < |s.pcs| && Sound(s, t)
  {
    match s.pcs[t]
    case Idle => Goto(s, t, Find(|s.tables| - 1, |s.tables| - 1, 0))
    case Find(main, table, k) => StepFind(s, t, main, table, k)
    case Move(main, k, p) =>
      if s.tables[main][Index(s.tables[main], s.hash[t], k)].key == None then Goto(s, t, MoveCas(main, k, p))
      else Goto(s, t, Move(main, k + 1, p))
    case MoveCas(main, k, p) => StepMoveCas(s, t, main, k, p)
    case MoveValue(main, j, p) => StoreProducer(s, t, main, j, p)
    case Count(main) =>
      Goto(s, t, Insert(main, s.count + 1)).(count := s.count + 1, number := s.number[t := s.count + 1])
    case Insert(main, n) =>
      if n >= |s.tables[main]| / 2 && s.lock == None then Goto(s, t, Resize(n)).(lock := Some(t))
      else Goto(s, t, Decide(main, n))
    case Resize(n) =>
      if n >= |s.tables[|s.tables| - 1]| / 2 then Goto(s, t, Grow(|s.tables| - 1, n))
      else Goto(s, t, Unlock(|s.tables| - 1, n))
    case Grow(main, n) =>
      Goto(s, t, Unlock(|s.tables|, n))
        .(tables := s.tables + [seq(NewCapacity(|s.tables[main]| * 2, n), _ => EMPTY_SLOT)])
    case Unlock(main, n) => Goto(s, t, Decide(main, n)).(lock := None)
    case Decide(main, n) =>
      if n < Limit(|s.tables[main]|)
      then Goto(s, t, Probe(main, 0, s.made)).(made := s.made + 1, own := s.own[t := s.made])
      else Goto(s, t, Insert(|s.tables| - 1, n))
    case Probe(main, k, p) =>
      if s.tables[main][Index(s.tables[main], s.hash[t], k)].key == None then Goto(s, t, ProbeCas(main, k, p))
      else Goto(s, t, Probe(main, k + 1, p))
    case ProbeCas(main, k, p) => StepProbeCas(s, t, main, k, p)
    case ProbeValue(main, j, p) => StoreProducer(s, t, main, j, p)
    case Done(_) => Goto(s, t, Idle)
  }

  ghost predicate Step(s: State, s': State) {
    exists t: nat :: t < |s.pcs| && Sound(s, t) && s' == Advance(s, t)
  }

  ghost predicate Run(r: seq<State>) {
    |r| > 0 && Init(r[0]) && forall i :: 0 <= i < |r| - 1 ==> Step(r[i], r[i + 1])
  }

  // ---------------------------------------------------------------- the invariant

  /** The first k probes from h meet taken slots. */
  ghost predicate Passed(table: Table, h: nat, k: nat) {
    0 < |table| && k <= |table| && forall e: nat :: e < k ==> table[Index(table, h, e)].key.Some?
  }

  /** None of the first k probes meets t. */
  ghost predicate Missed(table: Table, h: nat, k: nat, t: Thread)
    requires |table| > 0 && k <= |table|
  {
    forall e: nat :: e < k ==> table[Index(table, h, e)].key != Some(t)
  }

  ghost predicate Has(table: Table, t: Thread) {
    exists j: nat :: j < |table| && table[j].key == Some(t)
  }

  /** Slot j is where probing for its key from h ends. */
  ghost predicate Reached(table: Table, h: nat, j: nat) {
    exists k: nat :: Passed(table, h, k) && k < |table| && Index(table, h, k) == j
  }

  /** Keys are threads that took a number below the table's limit, each in one slot, each found by probing. */
  ghost predicate TableOk(s: State, i: nat)
    requires i < |s.tables|
  {
    var table := s.tables[i];
    && |table| > 0
    && (forall j :: 0 <= j < |table| && table[j].key.Some? ==>
          var t := table[j].key.value;
          t < |s.hash| && t in s.number && s.number[t] < Limit(|table|) && t in s.first && s.first[t] <= i
          && Reached(table, s.hash[t], j))
    && (forall j, j' ::
          0 <= j < |table| && 0 <= j' < |table| && table[j].key.Some? && table[j].key == table[j'].key ==> j == j')
  }

  /** t is about to store the producer of slot j of table i. */
  predicate Writing(p: Pc, i: nat, j: nat) { (p.MoveValue? || p.ProbeValue?) && p.main == i && p.index == j }

  ghost predicate ValueOk(s: State, i: nat, j: nat)
    requires i < |s.tables| && j < |s.tables[i]|
  {
    var slot := s.tables[i][j];
    slot.key.Some? ==>
      (var t := slot.key.value;
       t < |s.pcs| && t in s.own && (slot.producer == Some(s.own[t]) || Writing(s.pcs[t], i, j)))
  }

  /** A thread's own producer. */
  predicate Owns(s: State, t: Thread, p: Producer) { t in s.own && s.own[t] == p }

  /** t took number n, has no entry yet, and knows table `main`. */
  predicate Numbered(s: State, t: Thread, main: nat, n: nat) {
    t in s.number && s.number[t] == n && t !in s.first && t !in s.own && main < |s.tables|
  }

  ghost predicate ThreadOk(s: State, t: Thread)
    requires t < |s.pcs| && t < |s.hash|
  {
    match s.pcs[t]
    case Idle => (t in s.number <==> t in s.first) && (t in s.own ==> t in s.first)
    case Find(main, table, k) =>
      && (t in s.number <==> t in s.first) && (t in s.own ==> t in s.first) && table <= main < |s.tables|
      && (t in s.first ==> s.first[t] <= main)
      && (forall i: nat :: table < i <= main ==> !Has(s.tables[i], t))
      && Passed(s.tables[table], s.hash[t], k) && Missed(s.tables[table], s.hash[t], k, t)
    case Move(main, k, p) =>
      && main < |s.tables| && t in s.first && s.first[t] < main && Owns(s, t, p) && !Has(s.tables[main], t)
      && Passed(s.tables[main], s.hash[t], k)
    case MoveCas(main, k, p) =>
      && main < |s.tables| && t in s.first && s.first[t] < main && Owns(s, t, p) && !Has(s.tables[main], t)
      && Passed(s.tables[main], s.hash[t], k) && k < |s.tables[main]|
    case MoveValue(main, j, p) =>
      main < |s.tables| && t in s.first && Owns(s, t, p) && j < |s.tables[main]| && s.tables[main][j].key == Some(t)
    case Count(main) => main < |s.tables| && t !in s.number && t !in s.first && t !in s.own
    case Insert(main, n) => Numbered(s, t, main, n)
    case Resize(n) => Numbered(s, t, 0, n) && s.lock == Some(t)
    case Grow(main, n) => Numbered(s, t, main, n) && s.lock == Some(t) && main == |s.tables| - 1
    case Unlock(main, n) => Numbered(s, t, main, n) && s.lock == Some(t)
    case Decide(main, n) => Numbered(s, t, main, n)
    case Probe(main, k, p) =>
      && t in s.number && t !in s.first && main < |s.tables| && s.number[t] < Limit(|s.tables[main]|) && Owns(s, t, p)
      && Passed(s.tables[main], s.hash[t], k)
    case ProbeCas(main, k, p) =>
      && t in s.number && t !in s.first && main < |s.tables| && s.number[t] < Limit(|s.tables[main]|) && Owns(s, t, p)
      && Passed(s.tables[main], s.hash[t], k) && k < |s.tables[main]|
    case ProbeValue(main, j, p) =>
      main < |s.tables| && t in s.first && Owns(s, t, p) && j < |s.tables[main]| && s.tables[main][j].key == Some(t)
    case Done(p) => t in s.first && t in s.number && Owns(s, t, p)
  }

  /** The thread that holds the resize lock. */
  predicate Holds(p: Pc) { p.Resize? || p.Grow? || p.Unlock? }

  ghost predicate Globals(s: State) {
    && |s.pcs| == |s.hash| && s.tables != []
    && (forall i, j :: 0 <= i < j < |s.tables| ==> |s.tables[i]| <= |s.tables[j]|)
    && (forall t :: 0 <= t < |s.pcs| && Holds(s.pcs[t]) ==> s.lock == Some(t))
    && (forall t: nat :: t in s.number ==> t < |s.pcs| && 1 <= s.number[t] <= s.count)
    && (forall t: nat, u: nat :: t in s.number && u in s.number && s.number[t] == s.number[u] ==> t == u)
    && (forall t: nat :: t in s.own ==> s.own[t] < s.made)
    && (forall t: nat, u: nat :: t in s.own && u in s.own && s.own[t] == s.own[u] ==> t == u)
    && (forall t: nat :: t in s.first ==>
          t in s.number && t in s.own && s.first[t] < |s.tables| && Has(s.tables[s.first[t]], t))
  }

  ghost predicate TablesOk(s: State) { forall i: nat :: i < |s.tables| ==> TableOk(s, i) }

  ghost predicate ValuesOk(s: State) {
    forall i: nat, j: nat :: i < |s.tables| && j < |s.tables[i]| ==> ValueOk(s, i, j)
  }

  ghost predicate ThreadsOk(s: State)
    requires |s.pcs| == |s.hash|
  {
    forall t: nat :: t < |s.pcs| ==> ThreadOk(s, t)
  }

  ghost predicate Inv(s: State) { Globals(s) && TablesOk(s) && ValuesOk(s) && ThreadsOk(s) }

  // ---------------------------------------------------------------- every table keeps a free slot

  /** Distinct numbers from 1 to n - 1 are fewer than n. */
  lemma {:induction false} Pigeonhole(slots: set<nat>, f: map<nat, nat>, n: nat)
    requires forall j: nat :: j in slots ==> j in f && 1 <= f[j] < n
    requires forall j: nat, j': nat :: j in slots && j' in slots && f[j] == f[j'] ==> j == j'
    ensures |slots| < n || slots == {}
    decreases n
  {
    if j: nat :| j in slots && f[j] == n - 1 {
      Pigeonhole(slots - {j}, f, n - 1);
      assert |slots| == |slots - {j}| + 1;
    } else if n > 0 {
      Pigeonhole(slots, f, n - 1);
    }
  }

  function Below(n: nat): (r: set<nat>)
    ensures forall j: nat :: j in r <==> j < n
    ensures |r| == n
  {
    if n == 0 then {} else Below(n - 1) + {n - 1}
  }

  ghost predicate HasFree(table: Table) { exists j: nat :: j < |table| && table[j].key == None }

  /** No table is ever full. */
  lemma FreeSlot(s: State, i: nat)
    requires Globals(s) && i < |s.tables| && TableOk(s, i)
    ensures HasFree(s.tables[i])
  {
    var table := s.tables[i];
    if forall j: nat :: j < |table| ==> table[j].key.Some? {
      var slots := Below(|table|);
      var f := map j: nat | j in slots :: s.number[table[j].key.value];
      hide Below, Reached;
      assert 0 in slots && Limit(|table|) <= |table|;
      Pigeonhole(slots, f, Limit(|table|));
    }
  }

  /** Probing meets every slot. */
  lemma ProbesCover(table: Table, h: nat, j: nat) returns (e: nat)
    requires j < |table|
    ensures e < |table| && Index(table, h, e) == j
  {
    var home := h % |table|;
    e := if j >= home then j - home else j + |table| - home;
  }

  /** So every probe loop ends: before as many probes as there are slots it meets a free one. */
  lemma ProbesEnd(s: State, i: nat, h: nat, k: nat)
    requires Globals(s) && i < |s.tables| && TableOk(s, i) && Passed(s.tables[i], h, k)
    ensures k < |s.tables[i]|
  {
    FreeSlot(s, i);
    var j: nat :| j < |s.tables[i]| && s.tables[i][j].key == None;
    var e := ProbesCover(s.tables[i], h, j);
  }

  /** A probe loop that meets a free slot has shown that the key is not in the table. */
  lemma FreeSlotMeansAbsent(s: State, i: nat, t: Thread, k: nat)
    requires i < |s.tables| && TableOk(s, i) && t < |s.hash|
    requires Passed(s.tables[i], s.hash[t], k) && Missed(s.tables[i], s.hash[t], k, t)
    requires s.tables[i][Index(s.tables[i], s.hash[t], k)].key == None
    ensures !Has(s.tables[i], t)
  {
  }

  // ---------------------------------------------------------------- every step keeps the invariant

  /** Table i of s' is that of s, with the same or more keys, none of them another thread's than t's. */
  ghost predicate TableEvolves(before: Table, after: Table, t: Thread) {
    && |after| == |before|
    && (forall j: nat :: j < |before| && before[j].key.Some? ==> after[j].key == before[j].key)
    && (forall j: nat :: j < |before| && after[j].key != before[j].key ==> after[j].key == Some(t))
  }

  ghost predicate SameFor<V(!new)>(m: map<Thread, V>, m': map<Thread, V>, t: Thread) {
    forall v: nat :: v != t ==> (v in m <==> v in m') && (v in m ==> m'[v] == m[v])
  }

  /** What the other threads see of a step of t. */
  ghost predicate Evolves(s: State, s': State, t: Thread) {
    && t < |s.pcs| && |s'.pcs| == |s.pcs| && s'.pcs == s.pcs[t := s'.pcs[t]] && s'.hash == s.hash
    && |s.tables| <= |s'.tables| && (|s.tables| < |s'.tables| ==> s.lock == Some(t))
    && (forall i: nat :: i < |s.tables| ==> TableEvolves(s.tables[i], s'.tables[i], t))
    && SameFor(s.number, s'.number, t) && SameFor(s.own, s'.own, t) && SameFor(s.first, s'.first, t)
    && (forall v: nat :: v != t && s.lock == Some(v) ==> s'.lock == Some(v))
  }

  lemma PassedStays(before: Table, after: Table, t: Thread, h: nat, k: nat)
    requires TableEvolves(before, after, t) && Passed(before, h, k)
    ensures Passed(after, h, k)
  {
    forall e: nat | e < k ensures after[Index(after, h, e)].key.Some? {
      assert Index(after, h, e) == Index(before, h, e);
    }
  }

  lemma MissedStays(before: Table, after: Table, t: Thread, h: nat, k: nat, v: Thread)
    requires TableEvolves(before, after, t) && 0 < |before| && k <= |before| && v != t && Missed(before, h, k, v)
    ensures Missed(after, h, k, v)
  {
    forall e: nat | e < k ensures after[Index(after, h, e)].key != Some(v) {
      assert Index(after, h, e) == Index(before, h, e);
    }
  }

  lemma AbsentStays(before: Table, after: Table, t: Thread, v: Thread)
    requires TableEvolves(before, after, t) && v != t && !Has(before, v)
    ensures !Has(after, v)
  {
  }

  lemma OtherThread(s: State, s': State, t: Thread, v: Thread)
    requires |s.pcs| == |s.hash| && Evolves(s, s', t) && v < |s.pcs| && v != t && ThreadOk(s, v)
    requires Holds(s.pcs[v]) ==> s.lock == Some(v)
    ensures ThreadOk(s', v)
  {
    hide Has, Passed, Missed, TableEvolves;
    assert s'.pcs[v] == s.pcs[v];
    match s.pcs[v]
    case Find(main, table, k) =>
      PassedStays(s.tables[table], s'.tables[table], t, s.hash[v], k);
      PassedBounds(s.tables[table], s.hash[v], k);
      MissedStays(s.tables[table], s'.tables[table], t, s.hash[v], k, v);
      forall i: nat | table < i <= main ensures !Has(s'.tables[i], v) {
        AbsentStays(s.tables[i], s'.tables[i], t, v);
      }
    case Move(main, k, p) =>
      PassedStays(s.tables[main], s'.tables[main], t, s.hash[v], k);
      AbsentStays(s.tables[main], s'.tables[main], t, v);
    case MoveCas(main, k, p) =>
      EvolvesSize(s.tables[main], s'.tables[main], t);
      PassedStays(s.tables[main], s'.tables[main], t, s.hash[v], k);
      AbsentStays(s.tables[main], s'.tables[main], t, v);
    case MoveValue(main, j, p) => KeyStays(s.tables[main], s'.tables[main], t, j);
    case Probe(main, k, p) =>
      EvolvesSize(s.tables[main], s'.tables[main], t);
      PassedStays(s.tables[main], s'.tables[main], t, s.hash[v], k);
    case ProbeCas(main, k, p) =>
      EvolvesSize(s.tables[main], s'.tables[main], t);
      PassedStays(s.tables[main], s'.tables[main], t, s.hash[v], k);
    case ProbeValue(main, j, p) => KeyStays(s.tables[main], s'.tables[main], t, j);
    case _ =>
  }

  lemma PassedBounds(table: Table, h: nat, k: nat)
    requires Passed(table, h, k)
    ensures 0 < |table| && k <= |table|
  {
  }

  lemma EvolvesSize(before: Table, after: Table, t: Thread)
    requires TableEvolves(before, after, t)
    ensures |after| == |before|
  {
  }

  lemma KeyStays(before: Table, after: Table, t: Thread, j: nat)
    requires TableEvolves(before, after, t) && j < |before| && before[j].key.Some?
    ensures |after| == |before| && after[j].key == before[j].key
  {
  }

  /** What is left to show of a step of t. */
  lemma LocalStep(s: State, s': State, t: Thread)
    requires Inv(s) && Evolves(s, s', t) && Globals(s') && TablesOk(s') && ValuesOk(s') && ThreadOk(s', t)
    ensures Inv(s')
  {
    hide TablesOk, ValuesOk, Evolves, Globals, ThreadOk;
    EvolvesSizes(s, s', t);
    GlobalSizes(s);
    GlobalSizes(s');
    forall v: nat | v < |s'.pcs| ensures ThreadOk(s', v) {
      if v != t { OtherThread(s, s', t, v); }
    }
  }

  lemma EvolvesSizes(s: State, s': State, t: Thread)
    requires Evolves(s, s', t)
    ensures |s'.pcs| == |s.pcs| && s'.hash == s.hash
  {
  }

  lemma GlobalSizes(s: State)
    requires Globals(s)
    ensures |s.pcs| == |s.hash| && s.tables != []
    ensures forall t: nat :: t < |s.pcs| && Holds(s.pcs[t]) ==> s.lock == Some(t)
  {
  }

  /** A step of t that leaves the tables alone. */
  ghost predicate Quiet(s: State, s': State, t: Thread) {
    && t < |s.pcs| && t < |s'.pcs| && s' == Goto(s, t, s'.pcs[t]).(count := s'.count, lock := s'.lock, made := s'.made,
         number := s'.number, own := s'.own)
    && !s.pcs[t].MoveValue? && !s.pcs[t].ProbeValue?
    && SameFor(s.number, s'.number, t) && SameFor(s.own, s'.own, t)
    && (t in s.first ==> s'.number == s.number && s'.own == s.own)
    && (forall v: nat :: v != t && s.lock == Some(v) ==> s'.lock == Some(v))
  }

  lemma QuietTables(s: State, s': State, t: Thread)
    requires Globals(s) && TablesOk(s) && Quiet(s, s', t)
    ensures TablesOk(s')
  {
    hide Reached;
    forall i: nat | i < |s'.tables| ensures TableOk(s', i) {
      assert TableOk(s, i);
    }
  }

  lemma QuietValues(s: State, s': State, t: Thread)
    requires Globals(s) && TablesOk(s) && ValuesOk(s) && Quiet(s, s', t)
    ensures ValuesOk(s')
  {
    hide Reached;
    forall i: nat, j: nat | i < |s'.tables| && j < |s'.tables[i]| ensures ValueOk(s', i, j) {
      assert TableOk(s, i) && ValueOk(s, i, j);
    }
  }

  lemma QuietStep(s: State, s': State, t: Thread)
    requires Inv(s) && Quiet(s, s', t) && Globals(s') && ThreadOk(s', t)
    ensures Inv(s')
  {
    QuietTables(s, s', t);
    QuietValues(s, s', t);
    QuietEvolves(s, s', t);
    hide Globals, TablesOk, ValuesOk, ThreadOk, Quiet, Evolves;
    LocalStep(s, s', t);
  }

  lemma QuietEvolves(s: State, s': State, t: Thread)
    requires Quiet(s, s', t)
    ensures Evolves(s, s', t)
  {
  }

  // a key is put into a free slot

  function KeyStep(s: State, t: Thread, main: nat, j: nat, p: Pc, first: map<Thread, nat>): State
    requires t < |s.pcs| && main < |s.tables| && j < |s.tables[main]|
  {
    Goto(SetSlot(s, main, j, s.tables[main][j].(key := Some(t))), t, p).(first := first)
  }

  /** t may take slot j, the end of its k probes, and is a known thread afterwards. */
  ghost predicate MayTake(s: State, t: Thread, main: nat, j: nat, k: nat, first: map<Thread, nat>) {
    && t < |s.pcs| && t < |s.hash| && main < |s.tables| && j < |s.tables[main]| && s.tables[main][j].key == None
    && Passed(s.tables[main], s.hash[t], k) && k < |s.tables[main]| && Index(s.tables[main], s.hash[t], k) == j
    && !Has(s.tables[main], t) && t in s.number && s.number[t] < Limit(|s.tables[main]|) && t in s.own
    && (if t in s.first then first == s.first && s.first[t] <= main else first == s.first[t := main])
  }

  lemma KeyTableEvolves(table: Table, j: nat, t: Thread)
    requires j < |table| && table[j].key == None
    ensures TableEvolves(table, table[j := table[j].(key := Some(t))], t)
  {
  }

  lemma ReachedStays(before: Table, after: Table, t: Thread, h: nat, j: nat)
    requires TableEvolves(before, after, t) && Reached(before, h, j)
    ensures Reached(after, h, j)
  {
    var k: nat :| Passed(before, h, k) && k < |before| && Index(before, h, k) == j;
    PassedStays(before, after, t, h, k);
    assert Index(after, h, k) == j;
  }

  lemma KeyTableOk(s: State, s': State, t: Thread, main: nat, j: nat, k: nat, p: Pc, first: map<Thread, nat>)
    requires MayTake(s, t, main, j, k, first) && TableOk(s, main) && s' == KeyStep(s, t, main, j, p, first)
    ensures TableOk(s', main)
  {
    hide Reached, Passed;
    var before, after := s.tables[main], s'.tables[main];
    KeyTableEvolves(before, j, t);
    forall i: nat | i < |after| && after[i].key.Some? ensures Reached(after, s.hash[after[i].key.value], i) {
      if i == j {
        TakenIsReached(before, after, t, s.hash[t], j, k);
      } else {
        ReachedStays(before, after, t, s.hash[before[i].key.value], i);
      }
    }
  }

  lemma TakenIsReached(before: Table, after: Table, t: Thread, h: nat, j: nat, k: nat)
    requires TableEvolves(before, after, t) && Passed(before, h, k) && k < |before| && Index(before, h, k) == j
    ensures Reached(after, h, j)
  {
    PassedStays(before, after, t, h, k);
    assert Index(after, h, k) == j;
  }

  lemma KeyTables(s: State, s': State, t: Thread, main: nat, j: nat, k: nat, p: Pc, first: map<Thread, nat>)
    requires TablesOk(s) && MayTake(s, t, main, j, k, first) && s' == KeyStep(s, t, main, j, p, first)
    ensures TablesOk(s')
  {
    hide Reached, Passed;
    forall i: nat | i < |s'.tables| ensures TableOk(s', i) {
      assert TableOk(s, i);
      if i == main {
        KeyTableOk(s, s', t, main, j, k, p, first);
      }
    }
  }

  lemma KeyValues(s: State, s': State, t: Thread, main: nat, j: nat, k: nat, p: Pc, first: map<Thread, nat>)
    requires ValuesOk(s) && MayTake(s, t, main, j, k, first) && s' == KeyStep(s, t, main, j, p, first)
    requires Writing(p, main, j) && !s.pcs[t].MoveValue? && !s.pcs[t].ProbeValue?
    ensures ValuesOk(s')
  {
    hide Passed;
    forall i: nat, x: nat | i < |s'.tables| && x < |s'.tables[i]| ensures ValueOk(s', i, x) {
      assert ValueOk(s, i, x);
    }
  }

  lemma KeyGlobals(s: State, s': State, t: Thread, main: nat, j: nat, k: nat, p: Pc, first: map<Thread, nat>)
    requires Globals(s) && MayTake(s, t, main, j, k, first) && s' == KeyStep(s, t, main, j, p, first)
    requires Writing(p, main, j)
    ensures Globals(s')
  {
    hide Passed, Has, Limit;
    forall v: nat | v in s'.first ensures Has(s'.tables[s'.first[v]], v) {
      TookHas(s, s', t, main, j, v);
    }
  }

  lemma TookHas(s: State, s': State, t: Thread, main: nat, j: nat, v: Thread)
    requires main < |s.tables| && j < |s.tables[main]| && s.tables[main][j].key == None && v in s'.first
    requires s'.tables == s.tables[main := s.tables[main][j := s.tables[main][j].(key := Some(t))]]
    requires s'.first[v] < |s.tables|
    requires if v in s.first then s'.first[v] == s.first[v] && Has(s.tables[s.first[v]], v)
             else v == t && s'.first[v] == main
    ensures Has(s'.tables[s'.first[v]], v)
  {
    if v in s.first {
      var x: nat :| x < |s.tables[s.first[v]]| && s.tables[s.first[v]][x].key == Some(v);
      assert s'.tables[s'.first[v]][x].key == Some(v);
    } else {
      assert s'.tables[main][j].key == Some(t);
    }
  }

  lemma KeyEvolves(s: State, s': State, t: Thread, main: nat, j: nat, k: nat, p: Pc, first: map<Thread, nat>)
    requires MayTake(s, t, main, j, k, first) && s' == KeyStep(s, t, main, j, p, first)
    ensures Evolves(s, s', t)
  {
    hide Passed, Has, Limit;
    KeyTableEvolves(s.tables[main], j, t);
  }

  /** A successful compare-and-swap of a key. */
  lemma KeyKeeps(s: State, t: Thread, main: nat, j: nat, k: nat, p: Pc, first: map<Thread, nat>)
    requires Inv(s) && MayTake(s, t, main, j, k, first) && !s.pcs[t].MoveValue? && !s.pcs[t].ProbeValue?
    requires Writing(p, main, j) && Owns(s, t, p.producer)
    ensures Inv(KeyStep(s, t, main, j, p, first))
  {
    var s' := KeyStep(s, t, main, j, p, first);
    KeyTables(s, s', t, main, j, k, p, first);
    KeyValues(s, s', t, main, j, k, p, first);
    KeyGlobals(s, s', t, main, j, k, p, first);
    KeyEvolves(s, s', t, main, j, k, p, first);
    hide Globals, TablesOk, ValuesOk, ThreadsOk, Evolves, Passed, Has, Limit;
    GlobalSizes(s');
    LocalStep(s, s', t);
  }

  // the producer is stored

  lemma StoreTables(s: State, s': State, t: Thread, main: nat, j: nat, p: Producer)
    requires TablesOk(s) && t < |s.pcs| && main < |s.tables| && j < |s.tables[main]|
             && s' == StoreProducer(s, t, main, j, p)
    ensures TablesOk(s')
  {
    hide Reached;
    forall i: nat | i < |s'.tables| ensures TableOk(s', i) {
      assert TableOk(s, i);
      forall x: nat | x < |s.tables[i]| && s.tables[i][x].key.Some?
        ensures s.tables[i][x].key.value < |s.hash| ==> Reached(s'.tables[i], s.hash[s.tables[i][x].key.value], x)
      {
        StoreEvolves(s, s', t, main, j, p, i);
        ReachedStays(s.tables[i], s'.tables[i], t, s.hash[s.tables[i][x].key.value], x);
      }
    }
  }

  lemma StoreEvolves(s: State, s': State, t: Thread, main: nat, j: nat, p: Producer, i: nat)
    requires t < |s.pcs| && main < |s.tables| && j < |s.tables[main]| && s' == StoreProducer(s, t, main, j, p)
             && i < |s.tables|
    ensures TableEvolves(s.tables[i], s'.tables[i], t)
  {
  }

  lemma StoreValues(s: State, s': State, t: Thread, main: nat, j: nat, p: Producer)
    requires ValuesOk(s) && t < |s.pcs| && main < |s.tables| && j < |s.tables[main]|
             && s' == StoreProducer(s, t, main, j, p)
    requires Writing(s.pcs[t], main, j) && s.tables[main][j].key == Some(t) && Owns(s, t, p)
    ensures ValuesOk(s')
  {
    forall i: nat, x: nat | i < |s'.tables| && x < |s'.tables[i]| ensures ValueOk(s', i, x) {
      assert ValueOk(s, i, x);
    }
  }

  lemma StoreKeeps(s: State, t: Thread, main: nat, j: nat, p: Producer)
    requires Inv(s) && t < |s.pcs| && main < |s.tables| && j < |s.tables[main]| && Writing(s.pcs[t], main, j)
    requires s.tables[main][j].key == Some(t) && Owns(s, t, p) && t in s.first
    ensures Inv(StoreProducer(s, t, main, j, p))
  {
    var s' := StoreProducer(s, t, main, j, p);
    StoreTables(s, s', t, main, j, p);
    StoreValues(s, s', t, main, j, p);
    forall i: nat | i < |s.tables| ensures TableEvolves(s.tables[i], s'.tables[i], t) {
      StoreEvolves(s, s', t, main, j, p, i);
    }
    hide TablesOk, ValuesOk, ThreadsOk, Has, TableEvolves;
    forall v: nat | v in s.first ensures Has(s'.tables[s.first[v]], v) {
      HasStays(s.tables[s.first[v]], s'.tables[s.first[v]], t, v);
    }
    LocalStep(s, s', t);
  }

  lemma HasStays(before: Table, after: Table, t: Thread, v: Thread)
    requires TableEvolves(before, after, t) && Has(before, v)
    ensures Has(after, v)
  {
    var x: nat :| x < |before| && before[x].key == Some(v);
    assert after[x].key == Some(v);
  }

  // a bigger table is published

  lemma GrowTables(s: State, s': State, t: Thread, more: Table)
    requires TablesOk(s) && ValuesOk(s) && s'.tables == s.tables + [more] && |more| > 0
    requires forall j :: 0 <= j < |more| ==> more[j] == EMPTY_SLOT
    requires s'.hash == s.hash && s'.number == s.number && s'.first == s.first && s'.own == s.own
    requires t < |s.pcs| && s.pcs[t].Grow? && |s'.pcs| == |s.pcs| && s'.pcs == s.pcs[t := s'.pcs[t]]
    ensures TablesOk(s') && ValuesOk(s')
  {
    hide Reached, Limit;
    forall i: nat | i < |s'.tables| ensures TableOk(s', i) {
      if i < |s.tables| { assert TableOk(s, i); }
    }
    forall i: nat, j: nat | i < |s'.tables| && j < |s'.tables[i]| ensures ValueOk(s', i, j) {
      if i < |s.tables| { assert ValueOk(s, i, j); }
    }
  }

  lemma GrowKeeps(s: State, t: Thread, main: nat, n: nat)
    requires Inv(s) && t < |s.pcs| && Sound(s, t) && s.pcs[t] == Grow(main, n)
    ensures Inv(Advance(s, t))
  {
    hide TablesOk, ValuesOk, Has, TableOk;
    var s' := Advance(s, t);
    assert ThreadOk(s, t);
    hide ThreadsOk;
    assert forall i: nat :: i < |s.tables| ==> s'.tables[i] == s.tables[i];
    GrowTables(s, s', t, s'.tables[|s.tables|]);
    LocalStep(s, s', t);
  }

  // one lemma per place

  /** A step that only moves t. */
  lemma MoveOnly(s: State, t: Thread, p: Pc)
    requires Inv(s) && t < |s.pcs| && !s.pcs[t].MoveValue? && !s.pcs[t].ProbeValue? && !Holds(p)
    requires ThreadOk(Goto(s, t, p), t)
    ensures Inv(Goto(s, t, p))
  {
    hide TablesOk, ValuesOk, ThreadOk, ThreadsOk, Has;
    QuietStep(s, Goto(s, t, p), t);
  }

  lemma Probed(s: State, i: nat, h: nat, k: nat)
    requires Globals(s) && i < |s.tables| && TableOk(s, i) && Passed(s.tables[i], h, k)
    ensures k < |s.tables[i]|
    ensures s.tables[i][Index(s.tables[i], h, k)].key.Some? ==> Passed(s.tables[i], h, k + 1)
  {
    hide Globals, TableOk;
    ProbesEnd(s, i, h, k);
  }

  lemma FoundKeeps(s: State, t: Thread, main: nat, table: nat, k: nat)
    requires Inv(s) && t < |s.pcs| && s.pcs[t] == Find(main, table, k) && Sound(s, t)
    requires s.tables[table][Index(s.tables[table], s.hash[t], k)].key == Some(t)
    ensures Inv(Advance(s, t))
  {
    assert ThreadOk(s, t) && TableOk(s, table) && TableOk(s, main);
    assert ValueOk(s, table, Index(s.tables[table], s.hash[t], k));
    assert Has(s.tables[table], t);
    var p := Advance(s, t).pcs[t];
    assert p == (if table == main then Done(s.own[t]) else Move(main, 0, s.own[t]));
    hide TablesOk, ValuesOk, ThreadsOk, Reached, TableOk, ValueOk, Has, Index;
    MoveOnly(s, t, p);
  }

  lemma AbsentKeeps(s: State, t: Thread, main: nat, table: nat, k: nat)
    requires Inv(s) && t < |s.pcs| && s.pcs[t] == Find(main, table, k) && Sound(s, t)
    requires s.tables[table][Index(s.tables[table], s.hash[t], k)].key == None
    ensures Inv(Advance(s, t))
  {
    assert ThreadOk(s, t) && TableOk(s, table);
    FreeSlotMeansAbsent(s, table, t, k);
    if table > 0 { assert TableOk(s, table - 1); }
    hide TablesOk, ValuesOk, ThreadsOk, Has, Reached;
    MoveOnly(s, t, Advance(s, t).pcs[t]);
  }

  lemma FindKeeps(s: State, t: Thread, main: nat, table: nat, k: nat)
    requires Inv(s) && t < |s.pcs| && s.pcs[t] == Find(main, table, k) && Sound(s, t)
    ensures Inv(Advance(s, t))
  {
    var key := s.tables[table][Index(s.tables[table], s.hash[t], k)].key;
    if key == Some(t) {
      FoundKeeps(s, t, main, table, k);
    } else if key == None {
      AbsentKeeps(s, t, main, table, k);
    } else {
      assert ThreadOk(s, t) && TableOk(s, table);
      Probed(s, table, s.hash[t], k);
      hide TablesOk, ValuesOk, ThreadsOk, Has, Reached;
      MoveOnly(s, t, Find(main, table, k + 1));
    }
  }

  lemma MoveKeeps(s: State, t: Thread, main: nat, k: nat, p: Producer)
    requires Inv(s) && t < |s.pcs| && s.pcs[t] == Move(main, k, p) && Sound(s, t)
    ensures Inv(Advance(s, t))
  {
    assert ThreadOk(s, t) && TableOk(s, main);
    Probed(s, main, s.hash[t], k);
    hide TablesOk, ValuesOk, ThreadsOk, Has, Reached;
    MoveOnly(s, t, Advance(s, t).pcs[t]);
  }

  lemma LimitGrows(s: State, i: nat, j: nat, t: Thread)
    requires Globals(s) && i <= j < |s.tables| && TableOk(s, i) && Has(s.tables[i], t)
    ensures t in s.number && s.number[t] < Limit(|s.tables[j]|)
  {
  }

  lemma MoveCasKeeps(s: State, t: Thread, main: nat, k: nat, p: Producer)
    requires Inv(s) && t < |s.pcs| && s.pcs[t] == MoveCas(main, k, p) && Sound(s, t)
    ensures Inv(Advance(s, t))
  {
    assert ThreadOk(s, t) && TableOk(s, main) && TableOk(s, s.first[t]);
    LimitGrows(s, s.first[t], main, t);
    Probed(s, main, s.hash[t], k);
    hide TablesOk, ValuesOk, ThreadsOk, Has, Reached, Limit;
    var j := Index(s.tables[main], s.hash[t], k);
    if s.tables[main][j].key == None {
      KeyKeeps(s, t, main, j, k, MoveValue(main, j, p), s.first);
    } else {
      MoveOnly(s, t, Move(main, k + 1, p));
    }
  }

  lemma ProbeKeeps(s: State, t: Thread, main: nat, k: nat, p: Producer)
    requires Inv(s) && t < |s.pcs| && s.pcs[t] == Probe(main, k, p) && Sound(s, t)
    ensures Inv(Advance(s, t))
  {
    assert ThreadOk(s, t) && TableOk(s, main);
    Probed(s, main, s.hash[t], k);
    hide TablesOk, ValuesOk, ThreadsOk, Has, Reached;
    MoveOnly(s, t, Advance(s, t).pcs[t]);
  }

  /** A thread without an entry is in no table. */
  lemma UnknownIsAbsent(s: State, i: nat, t: Thread)
    requires i < |s.tables| && TableOk(s, i) && t !in s.first
    ensures !Has(s.tables[i], t)
  {
  }

  lemma ProbeCasKeeps(s: State, t: Thread, main: nat, k: nat, p: Producer)
    requires Inv(s) && t < |s.pcs| && s.pcs[t] == ProbeCas(main, k, p) && Sound(s, t)
    ensures Inv(Advance(s, t))
  {
    assert ThreadOk(s, t) && TableOk(s, main);
    UnknownIsAbsent(s, main, t);
    Probed(s, main, s.hash[t], k);
    hide TablesOk, ValuesOk, ThreadsOk, Has, Reached, Limit;
    var j := Index(s.tables[main], s.hash[t], k);
    if s.tables[main][j].key == None {
      KeyKeeps(s, t, main, j, k, ProbeValue(main, j, p), s.first[t := main]);
    } else {
      MoveOnly(s, t, Probe(main, k + 1, p));
    }
  }

  lemma CountKeeps(s: State, t: Thread, main: nat)
    requires Inv(s) && t < |s.pcs| && s.pcs[t] == Count(main) && Sound(s, t)
    ensures Inv(Advance(s, t))
  {
    assert ThreadOk(s, t);
    hide TablesOk, ValuesOk, ThreadsOk, Has, Reached, Passed, Missed, Limit;
    QuietStep(s, Advance(s, t), t);
  }

  /** A step that only moves t and takes, keeps or gives back the resize lock. */
  lemma LockStep(s: State, t: Thread, p: Pc, lock: Option<Thread>)
    requires Inv(s) && t < |s.pcs| && !s.pcs[t].MoveValue? && !s.pcs[t].ProbeValue?
    requires Holds(p) ==> lock == Some(t)
    requires lock == s.lock || (lock == Some(t) && s.lock == None) || (lock == None && s.lock == Some(t))
    requires ThreadOk(Goto(s, t, p).(lock := lock), t)
    ensures Inv(Goto(s, t, p).(lock := lock))
  {
    hide TablesOk, ValuesOk, ThreadOk, ThreadsOk, Has;
    QuietStep(s, Goto(s, t, p).(lock := lock), t);
  }

  lemma InsertKeeps(s: State, t: Thread, main: nat, n: nat)
    requires Inv(s) && t < |s.pcs| && s.pcs[t] == Insert(main, n) && Sound(s, t)
    ensures Inv(Advance(s, t))
  {
    assert ThreadOk(s, t);
    hide Globals, TablesOk, ValuesOk, ThreadsOk, Has, Reached, Passed, Missed, Limit;
    if n >= |s.tables[main]| / 2 && s.lock == None {
      LockStep(s, t, Resize(n), Some(t));
    } else {
      MoveOnly(s, t, Decide(main, n));
    }
  }

  lemma ResizeKeeps(s: State, t: Thread, n: nat)
    requires Inv(s) && t < |s.pcs| && s.pcs[t] == Resize(n) && Sound(s, t)
    ensures Inv(Advance(s, t))
  {
    assert ThreadOk(s, t);
    hide Globals, TablesOk, ValuesOk, ThreadsOk, Has, Reached, Passed, Missed, Limit;
    var main := |s.tables| - 1;
    LockStep(s, t, if n >= |s.tables[main]| / 2 then Grow(main, n) else Unlock(main, n), s.lock);
  }

  lemma UnlockKeeps(s: State, t: Thread, main: nat, n: nat)
    requires Inv(s) && t < |s.pcs| && s.pcs[t] == Unlock(main, n) && Sound(s, t)
    ensures Inv(Advance(s, t))
  {
    assert ThreadOk(s, t);
    hide Globals, TablesOk, ValuesOk, ThreadsOk, Has, Reached, Passed, Missed, Limit;
    LockStep(s, t, Decide(main, n), None);
  }

  lemma DecideKeeps(s: State, t: Thread, main: nat, n: nat)
    requires Inv(s) && t < |s.pcs| && s.pcs[t] == Decide(main, n) && Sound(s, t)
    ensures Inv(Advance(s, t))
  {
    assert ThreadOk(s, t) && TableOk(s, main);
    assert Passed(s.tables[main], s.hash[t], 0);
    hide TablesOk, ValuesOk, ThreadsOk, Has, Reached, Limit, Passed, Missed, TableOk;
    if n < Limit(|s.tables[main]|) {
      MakeKeeps(s, t, main, n);
    } else {
      WaitKeeps(s, t, main, n);
    }
  }

  /** Room in the table: a producer is made. */
  lemma MakeKeeps(s: State, t: Thread, main: nat, n: nat)
    requires Inv(s) && t < |s.pcs| && s.pcs[t] == Decide(main, n) && Sound(s, t) && ThreadOk(s, t)
    requires main < |s.tables| && n < Limit(|s.tables[main]|) && Passed(s.tables[main], s.hash[t], 0)
    ensures Inv(Advance(s, t))
  {
    hide TablesOk, ValuesOk, ThreadsOk, Has, Reached, Limit, Passed, Missed, TableOk;
    QuietStep(s, Advance(s, t), t);
  }

  /** No room: another round with the newest table. */
  lemma WaitKeeps(s: State, t: Thread, main: nat, n: nat)
    requires Inv(s) && t < |s.pcs| && s.pcs[t] == Decide(main, n) && Sound(s, t) && ThreadOk(s, t)
    requires main < |s.tables| && n >= Limit(|s.tables[main]|)
    ensures Inv(Advance(s, t))
  {
    hide TablesOk, ValuesOk, ThreadsOk, Has, Reached, Limit, Passed, Missed, TableOk;
    MoveOnly(s, t, Insert(|s.tables| - 1, n));
  }

  lemma AdvanceKeeps(s: State, t: Thread)
    requires Inv(s) && t < |s.pcs| && Sound(s, t)
    ensures Inv(Advance(s, t))
  {
    assert ThreadOk(s, t);
    hide Inv, Advance;
    match s.pcs[t]
    case Idle => IdleKeeps(s, t);
    case Find(main, table, k) => FindKeeps(s, t, main, table, k);
    case Move(main, k, p) => MoveKeeps(s, t, main, k, p);
    case MoveCas(main, k, p) => MoveCasKeeps(s, t, main, k, p);
    case MoveValue(main, j, p) => StoresKeep(s, t, main, j, p);
    case Count(main) => CountKeeps(s, t, main);
    case Insert(main, n) => InsertKeeps(s, t, main, n);
    case Resize(n) => ResizeKeeps(s, t, n);
    case Grow(main, n) => GrowKeeps(s, t, main, n);
    case Unlock(main, n) => UnlockKeeps(s, t, main, n);
    case Decide(main, n) => DecideKeeps(s, t, main, n);
    case Probe(main, k, p) => ProbeKeeps(s, t, main, k, p);
    case ProbeCas(main, k, p) => ProbeCasKeeps(s, t, main, k, p);
    case ProbeValue(main, j, p) => StoresKeep(s, t, main, j, p);
    case Done(_) => DoneKeeps(s, t);
  }

  lemma StoresKeep(s: State, t: Thread, main: nat, j: nat, p: Producer)
    requires Inv(s) && t < |s.pcs| && Sound(s, t)
             && (s.pcs[t] == MoveValue(main, j, p) || s.pcs[t] == ProbeValue(main, j, p))
    ensures Inv(Advance(s, t))
  {
    assert ThreadOk(s, t);
    hide Inv, TablesOk, ValuesOk, ThreadsOk;
    StoreKeeps(s, t, main, j, p);
  }

  lemma IdleKeeps(s: State, t: Thread)
    requires Inv(s) && t < |s.pcs| && Sound(s, t) && s.pcs[t] == Idle
    ensures Inv(Advance(s, t))
  {
    assert ThreadOk(s, t) && TableOk(s, |s.tables| - 1);
    hide TablesOk, ValuesOk, ThreadsOk, Has, Reached;
    MoveOnly(s, t, Advance(s, t).pcs[t]);
  }

  lemma DoneKeeps(s: State, t: Thread)
    requires Inv(s) && t < |s.pcs| && Sound(s, t) && s.pcs[t].Done?
    ensures Inv(Advance(s, t))
  {
    assert ThreadOk(s, t);
    hide TablesOk, ValuesOk, ThreadsOk, Has, Reached;
    MoveOnly(s, t, Idle);
  }

  /** Every reachable state satisfies the invariant. */
  lemma {:induction false} RunKeeps(r: seq<State>, i: nat)
    requires Run(r) && i < |r|
    ensures Inv(r[i])
  {
    if i > 0 {
      RunKeeps(r, i - 1);
      var t: nat :| t < |r[i - 1].pcs| && Sound(r[i - 1], t) && r[i] == Advance(r[i - 1], t);
      AdvanceKeeps(r[i - 1], t);
    }
  }

  // ---------------------------------------------------------------- what the hash promises

  /** In every reachable state every table has a free slot, so no probe loop runs forever: it meets a free
      slot, or its own key, in fewer probes than there are slots.  A step is never out of bounds. */
  lemma ProbingEnds(r: seq<State>, i: nat, t: Thread)
    requires Run(r) && i < |r| && t < |r[i].pcs|
    ensures forall x: nat :: x < |r[i].tables| ==> HasFree(r[i].tables[x])
    ensures Sound(r[i], t)
    ensures match r[i].pcs[t]
            case Find(_, table, k) => k < |r[i].tables[table]|
            case Move(main, k, _) => k < |r[i].tables[main]|
            case Probe(main, k, _) => k < |r[i].tables[main]|
            case _ => true
  {
    var s := r[i];
    RunKeeps(r, i);
    assert ThreadOk(s, t);
    forall x: nat | x < |s.tables| ensures HasFree(s.tables[x]) {
      FreeSlot(s, x);
    }
    match s.pcs[t]
    case Find(_, table, k) => ProbesEnd(s, table, s.hash[t], k);
    case Move(main, k, _) => ProbesEnd(s, main, s.hash[t], k);
    case Probe(main, k, _) => ProbesEnd(s, main, s.hash[t], k);
    case _ =>
  }

  /** A call returns the producer made for its own thread, and no two threads ever get the same one. */
  lemma FindsItsOwn(r: seq<State>, i: nat, t: Thread, u: Thread)
    requires Run(r) && i < |r| && t < |r[i].pcs| && r[i].pcs[t].Done?
    ensures Owns(r[i], t, r[i].pcs[t].producer)
    ensures u != t && u in r[i].own ==> r[i].own[u] != r[i].pcs[t].producer
  {
    RunKeeps(r, i);
    assert ThreadOk(r[i], t);
  }

  /** A thread that has an entry keeps its producer and finds it again: through any number of new tables and
      moves it never takes a second number or makes a second producer. */
  lemma {:induction false} KeepsItsOwn(r: seq<State>, i: nat, j: nat, t: Thread)
    requires Run(r) && i <= j < |r| && t in r[i].own
    ensures t in r[j].own && r[j].own[t] == r[i].own[t]
    decreases j - i
  {
    if i < j {
      RunKeeps(r, i);
      assert Step(r[i], r[i + 1]);
      var v: nat :| v < |r[i].pcs| && Sound(r[i], v) && r[i + 1] == Advance(r[i], v);
      OwnStays(r[i], v, t);
      KeepsItsOwn(r, i + 1, j, t);
    }
  }

  lemma OwnStays(s: State, v: Thread, t: Thread)
    requires Inv(s) && v < |s.pcs| && Sound(s, v) && t in s.own
    ensures t in Advance(s, v).own && Advance(s, v).own[t] == s.own[t]
  {
    assert ThreadOk(s, v);
  }

  ghost function Taken(table: Table): set<nat> { set j: nat | j < |table| && table[j].key.Some? }

  /** In every reachable state fewer than three quarters of the slots of a table are taken, or none. */
  lemma LoadFactor(r: seq<State>, i: nat, x: nat)
    requires Run(r) && i < |r| && x < |r[i].tables|
    ensures |Taken(r[i].tables[x])| < Limit(|r[i].tables[x]|) || Taken(r[i].tables[x]) == {}
  {
    var s := r[i];
    RunKeeps(r, i);
    var table := s.tables[x];
    assert TableOk(s, x);
    var slots := Taken(table);
    var f := map j: nat | j in slots :: s.number[table[j].key.value];
    hide Reached, TablesOk, ValuesOk, ThreadsOk;
    Pigeonhole(slots, f, Limit(|table|));
  }

  // ---------------------------------------------------------------- when tables are made and entries moved

  /** Tables stay, with their sizes and the keys in them. */
  ghost predicate Extends(s: State, s': State) {
    && |s.pcs| == |s'.pcs| && |s.tables| <= |s'.tables| && s.count <= s'.count
    && forall i: nat :: i < |s.tables| ==> SameKeys(s.tables[i], s'.tables[i])
  }

  ghost predicate SameKeys(before: Table, after: Table) {
    |before| == |after| && forall j: nat :: j < |before| && before[j].key.Some? ==> after[j].key == before[j].key
  }

  /** Nothing but a table added. */
  lemma AddedExtends(s: State, s': State)
    requires |s.pcs| == |s'.pcs| && s.tables <= s'.tables && s.count <= s'.count
    ensures Extends(s, s')
  {
  }

  lemma SlotExtends(s: State, s': State, i: nat, j: nat, slot: Slot)
    requires |s.pcs| == |s'.pcs| && s.count <= s'.count && i < |s.tables| && j < |s.tables[i]|
    requires s'.tables == SetSlot(s, i, j, slot).tables
    requires s.tables[i][j].key == None || slot.key == s.tables[i][j].key
    ensures Extends(s, s')
  {
  }

  lemma StepOthers(s: State, t: Thread, u: Thread)
    requires t < |s.pcs| && Sound(s, t) && u < |s.pcs| && u != t
    ensures |Advance(s, t).pcs| == |s.pcs| && Advance(s, t).pcs[u] == s.pcs[u]
  {
    hide NewCapacity, Index, Sound, SetSlot;
    match s.pcs[t]
    case MoveCas(_, _, _) => SlotStepOthers(s, t, u);
    case ProbeCas(_, _, _) => SlotStepOthers(s, t, u);
    case MoveValue(_, _, _) => SlotStepOthers(s, t, u);
    case ProbeValue(_, _, _) => SlotStepOthers(s, t, u);
    case _ =>
  }

  lemma SlotStepOthers(s: State, t: Thread, u: Thread)
    requires t < |s.pcs| && Sound(s, t) && u < |s.pcs| && u != t
    requires s.pcs[t].MoveCas? || s.pcs[t].ProbeCas? || s.pcs[t].MoveValue? || s.pcs[t].ProbeValue?
    ensures |Advance(s, t).pcs| == |s.pcs| && Advance(s, t).pcs[u] == s.pcs[u]
  {
    hide Index;
  }

  lemma StepExtends(s: State, t: Thread)
    requires t < |s.pcs| && Sound(s, t)
    ensures Extends(s, Advance(s, t))
  {
    hide NewCapacity, Index, Extends, Sound;
    match s.pcs[t]
    case MoveCas(_, _, _) => SlotStepExtends(s, t);
    case ProbeCas(_, _, _) => SlotStepExtends(s, t);
    case MoveValue(_, _, _) => SlotStepExtends(s, t);
    case ProbeValue(_, _, _) => SlotStepExtends(s, t);
    case _ => AddedExtends(s, Advance(s, t));
  }

  lemma SlotStepExtends(s: State, t: Thread)
    requires t < |s.pcs| && Sound(s, t)
    requires s.pcs[t].MoveCas? || s.pcs[t].ProbeCas? || s.pcs[t].MoveValue? || s.pcs[t].ProbeValue?
    ensures Extends(s, Advance(s, t))
  {
    hide NewCapacity, Index, Extends;
    var s' := Advance(s, t);
    match s.pcs[t]
    case MoveCas(main, k, p) => CasExtends(s, s', main, Index(s.tables[main], s.hash[t], k), t);
    case ProbeCas(main, k, p) => CasExtends(s, s', main, Index(s.tables[main], s.hash[t], k), t);
    case MoveValue(main, j, p) => SlotExtends(s, s', main, j, s.tables[main][j].(producer := Some(p)));
    case ProbeValue(main, j, p) => SlotExtends(s, s', main, j, s.tables[main][j].(producer := Some(p)));
  }

  lemma CasExtends(s: State, s': State, i: nat, j: nat, t: Thread)
    requires |s.pcs| == |s'.pcs| && s.count <= s'.count && i < |s.tables| && j < |s.tables[i]|
    requires s'.tables == if s.tables[i][j].key == None then SetSlot(s, i, j, s.tables[i][j].(key := Some(t))).tables
                          else s.tables
    ensures Extends(s, s')
  {
    hide Extends;
    if s.tables[i][j].key == None {
      SlotExtends(s, s', i, j, s.tables[i][j].(key := Some(t)));
    } else {
      AddedExtends(s, s');
    }
  }

  /** A table is added only by a thread that is about to. */
  lemma StepAdds(s: State, t: Thread)
    requires t < |s.pcs| && Sound(s, t)
    ensures var s', p := Advance(s, t), s.pcs[t];
            if p.Grow? then
              s'.tables == s.tables + [seq(NewCapacity(|s.tables[p.main]| * 2, p.n), _ => EMPTY_SLOT)]
              && !s'.pcs[t].Grow?
            else
              |s'.tables| == |s.tables|
              && (s'.pcs[t].Grow? ==>
                    s'.tables == s.tables && s'.pcs[t].main == |s.tables| - 1
                    && s'.pcs[t].n >= |s.tables[|s.tables| - 1]| / 2)
  {
    hide NewCapacity, Index;
  }

  /** A thread about to make a table took a number of at least half the slots of the newest one. */
  predicate MayGrow(s: State, p: Pc) { p.Grow? ==> p.main < |s.tables| && p.n >= |s.tables[p.main]| / 2 }

  /** Each further table has twice the slots or more, was made when half the slots had been spoken for, and has not
      many more than four for each number taken. */
  predicate Proportioned(s: State, i: nat)
    requires 0 < i < |s.tables|
  {
    && |s.tables[i]| >= 2 * |s.tables[i - 1]| && s.count >= |s.tables[i - 1]| / 2
    && |s.tables[i]| <= 4 * s.count + 3
  }

  ghost predicate AllProportioned(s: State) {
    && (forall i: nat :: 0 < i < |s.tables| ==> Proportioned(s, i))
    && forall t: nat :: t < |s.pcs| ==> MayGrow(s, s.pcs[t])
  }

  lemma SameSizes(s: State, s': State)
    requires Extends(s, s')
    ensures |s.tables| <= |s'.tables| && s.count <= s'.count && |s.pcs| == |s'.pcs|
    ensures s.tables != [] ==> |s'.tables[|s.tables| - 1]| == |s.tables[|s.tables| - 1]|
  {
    if s.tables != [] { assert SameKeys(s.tables[|s.tables| - 1], s'.tables[|s.tables| - 1]); }
  }

  lemma StaysProportioned(s: State, s': State, i: nat)
    requires Extends(s, s') && 0 < i < |s.tables| && Proportioned(s, i)
    ensures Proportioned(s', i)
  {
    assert SameKeys(s.tables[i], s'.tables[i]) && SameKeys(s.tables[i - 1], s'.tables[i - 1]);
  }

  lemma StaysMayGrow(s: State, s': State, p: Pc)
    requires Extends(s, s') && MayGrow(s, p)
    ensures MayGrow(s', p)
  {
    if p.Grow? { assert SameKeys(s.tables[p.main], s'.tables[p.main]); }
  }

  lemma NewIsProportioned(s: State, s': State, n: nat)
    requires s.tables != [] && |s'.tables| == |s.tables| + 1 && |s.tables[|s.tables| - 1]| > 0 && n <= s'.count
    requires n >= |s.tables[|s.tables| - 1]| / 2 && |s'.tables[|s.tables| - 1]| == |s.tables[|s.tables| - 1]|
    requires |s'.tables[|s.tables|]| == NewCapacity(|s.tables[|s.tables| - 1]| * 2, n)
    ensures Proportioned(s', |s.tables|)
  {
  }

  lemma StepMayGrow(s: State, t: Thread, u: Thread)
    requires t < |s.pcs| && Sound(s, t) && u < |s.pcs| && MayGrow(s, s.pcs[u])
    ensures |Advance(s, t).pcs| == |s.pcs| && MayGrow(Advance(s, t), Advance(s, t).pcs[u])
  {
    StepExtends(s, t);
    if u == t {
      StepAdds(s, t);
      hide Advance, Sound, NewCapacity;
    } else {
      StepOthers(s, t, u);
      hide Advance, Sound;
      StaysMayGrow(s, Advance(s, t), s.pcs[u]);
    }
  }

  lemma StepProportioned(s: State, t: Thread)
    requires Inv(s) && AllProportioned(s) && t < |s.pcs| && Sound(s, t)
    ensures AllProportioned(Advance(s, t))
  {
    var s' := Advance(s, t);
    StepExtends(s, t);
    StepAdds(s, t);
    assert ThreadOk(s, t);
    assert s.pcs[t].Grow? ==> s.pcs[t].n <= s.count;
    hide Inv, ThreadOk, Advance, NewCapacity, Proportioned;
    SameSizes(s, s');
    hide Extends, Sound;
    forall i: nat | 0 < i < |s'.tables| ensures Proportioned(s', i) {
      if i < |s.tables| {
        StaysProportioned(s, s', i);
      } else {
        NewIsProportioned(s, s', s.pcs[t].n);
      }
    }
    hide MayGrow;
    forall u: nat | u < |s'.pcs| ensures MayGrow(s', s'.pcs[u]) {
      StepMayGrow(s, t, u);
    }
  }

  lemma RunStep(r: seq<State>, i: nat) returns (t: Thread)
    requires Run(r) && i + 1 < |r|
    ensures Inv(r[i]) && t < |r[i].pcs| && Sound(r[i], t) && r[i + 1] == Advance(r[i], t)
  {
    RunKeeps(r, i);
    assert Step(r[i], r[i + 1]);
    t :| t < |r[i].pcs| && Sound(r[i], t) && r[i + 1] == Advance(r[i], t);
  }

  lemma StartsProportioned(s: State)
    requires Init(s)
    ensures AllProportioned(s)
  {
  }

  /** In every run the table grows when it must and only then. */
  lemma {:induction false} GrowsInProportion(r: seq<State>, i: nat)
    requires Run(r) && i < |r|
    ensures AllProportioned(r[i])
  {
    if i == 0 {
      StartsProportioned(r[0]);
    } else {
      hide Inv, Advance, Step, Run, Sound, AllProportioned;
      GrowsInProportion(r, i - 1);
      var t := RunStep(r, i - 1);
      StepProportioned(r[i - 1], t);
    }
  }

  /** t has an entry in table m or a newer one. */
  ghost predicate HasFrom(s: State, m: nat, t: Thread) {
    exists x: nat :: m <= x < |s.tables| && Has(s.tables[x], t)
  }

  /** A call of t that began when table m was the newest works on it or a newer one. */
  ghost predicate WorksFrom(s: State, m: nat, t: Thread)
    requires t < |s.pcs|
  {
    && m < |s.tables|
    && match s.pcs[t]
       case Idle => true
       case Resize(_) => true
       case Done(_) => HasFrom(s, m, t)
       case p => p.main >= m
  }

  lemma HasFromStays(s: State, s': State, m: nat, t: Thread)
    requires Extends(s, s') && HasFrom(s, m, t)
    ensures HasFrom(s', m, t)
  {
    var x: nat :| m <= x < |s.tables| && Has(s.tables[x], t);
    var j: nat :| j < |s.tables[x]| && s.tables[x][j].key == Some(t);
    assert SameKeys(s.tables[x], s'.tables[x]) && s'.tables[x][j].key == Some(t);
  }

  lemma StepWorksFrom(s: State, t: Thread, m: nat)
    requires Inv(s) && t < |s.pcs| && Sound(s, t) && s.pcs[t] != Idle && WorksFrom(s, m, t)
    ensures WorksFrom(Advance(s, t), m, t)
  {
    hide NewCapacity, Index, Inv, HasFrom, SetSlot;
    match s.pcs[t]
    case Find(_, _, _) => FindWorksFrom(s, t, m);
    case MoveValue(_, _, _) => StoreWorksFrom(s, t, m);
    case ProbeValue(_, _, _) => StoreWorksFrom(s, t, m);
    case MoveCas(_, _, _) => CasWorksFrom(s, t, m);
    case ProbeCas(_, _, _) => CasWorksFrom(s, t, m);
    case _ =>
  }

  lemma CasWorksFrom(s: State, t: Thread, m: nat)
    requires t < |s.pcs| && Sound(s, t) && WorksFrom(s, m, t) && (s.pcs[t].MoveCas? || s.pcs[t].ProbeCas?)
    ensures WorksFrom(Advance(s, t), m, t)
  {
    hide Index;
  }

  lemma FindWorksFrom(s: State, t: Thread, m: nat)
    requires t < |s.pcs| && Sound(s, t) && WorksFrom(s, m, t) && s.pcs[t].Find?
    ensures WorksFrom(Advance(s, t), m, t)
  {
    hide Index, HasFrom;
    var p, s' := s.pcs[t], Advance(s, t);
    if s'.pcs[t].Done? { HasEntry(s', m, p.table, Index(s.tables[p.table], s.hash[t], p.k), t); }
  }

  lemma StoreWorksFrom(s: State, t: Thread, m: nat)
    requires Inv(s) && t < |s.pcs| && Sound(s, t) && WorksFrom(s, m, t)
    requires s.pcs[t].MoveValue? || s.pcs[t].ProbeValue?
    ensures WorksFrom(Advance(s, t), m, t)
  {
    assert ThreadOk(s, t);
    hide Inv, HasFrom, Has, Passed, Missed;
    HasEntry(Advance(s, t), m, s.pcs[t].main, s.pcs[t].index, t);
  }

  lemma HasEntry(s: State, m: nat, i: nat, j: nat, t: Thread)
    requires m <= i < |s.tables| && j < |s.tables[i]| && s.tables[i][j].key == Some(t)
    ensures HasFrom(s, m, t)
  {
    assert Has(s.tables[i], t);
  }

  lemma WorksFromStays(s: State, s': State, m: nat, t: Thread)
    requires Extends(s, s') && t < |s.pcs| && s'.pcs[t] == s.pcs[t] && WorksFrom(s, m, t)
    ensures WorksFrom(s', m, t)
  {
    if s.pcs[t].Done? { HasFromStays(s, s', m, t); }
  }

  lemma BeginsWorksFrom(s: State, t: Thread)
    requires s.tables != [] && t < |s.pcs| && s.pcs[t] == Find(|s.tables| - 1, |s.tables| - 1, 0)
    ensures WorksFrom(s, |s.tables| - 1, t)
  {
  }

  lemma AnyStepWorksFrom(s: State, v: Thread, m: nat, t: Thread)
    requires Inv(s) && v < |s.pcs| && Sound(s, v) && t < |s.pcs| && s.pcs[t] != Idle && WorksFrom(s, m, t)
    ensures t < |Advance(s, v).pcs| && WorksFrom(Advance(s, v), m, t)
  {
    hide Inv, Advance, WorksFrom, Sound;
    if v == t {
      StepExtends(s, v);
      StepWorksFrom(s, t, m);
    } else {
      StepExtends(s, v);
      StepOthers(s, v, t);
      WorksFromStays(s, Advance(s, v), m, t);
    }
  }

  /** From i on t is in one call, up to j. */
  ghost predicate InCall(r: seq<State>, i: nat, j: nat, t: Thread)
    requires Run(r) && i <= j < |r|
  {
    forall k: nat :: i <= k <= j ==> t < |r[k].pcs| && r[k].pcs[t] != Idle
  }

  lemma {:induction false} GoesOn(r: seq<State>, i: nat, j: nat, t: Thread, m: nat)
    requires Run(r) && i <= j < |r| && InCall(r, i, j, t) && WorksFrom(r[i], m, t)
    ensures WorksFrom(r[j], m, t)
    decreases j - i
  {
    hide Inv, Advance, Step, WorksFrom, Sound;
    if i < j {
      var v := RunStep(r, i);
      AnyStepWorksFrom(r[i], v, m, t);
      GoesOn(r, i + 1, j, t, m);
    }
  }

  /** A call that has returned found or put the thread's entry in the table that was the newest when it began, or in a
      newer one: an entry met in an older table has been moved. */
  lemma ReturnsFromNewest(r: seq<State>, i: nat, j: nat, t: Thread)
    requires Run(r) && i <= j < |r| && InCall(r, i, j, t) && r[i].tables != []
    requires r[i].pcs[t] == Find(|r[i].tables| - 1, |r[i].tables| - 1, 0) && r[j].pcs[t].Done?
    ensures HasFrom(r[j], |r[i].tables| - 1, t)
  {
    BeginsWorksFrom(r[i], t);
    GoesOn(r, i, j, t, |r[i].tables| - 1);
  }

  // ---------------------------------------------------------------- calls that nobody disturbs

  /** Number n is low enough for the newest table. */
  predicate NewestRoom(s: State, n: nat) { s.tables != [] && n < Limit(|s.tables[|s.tables| - 1]|) }

  /** The resize lock is free, or t's own. */
  predicate LockFree(s: State, t: Thread)
    requires t < |s.pcs|
  {
    s.lock == None || (s.lock == Some(t) && Holds(s.pcs[t]))
  }

  /** The call of t need not wait for a resize of another thread: none is under way, or t has an entry, or its number is
      or would be low enough for the newest table. */
  predicate CanGo(s: State, t: Thread)
    requires t < |s.pcs|
  {
    || LockFree(s, t)
    || match s.pcs[t]
       case Idle => t in s.first || NewestRoom(s, s.count + 1)
       case Find(_, _, _) => t in s.first || NewestRoom(s, s.count + 1)
       case Count(_) => NewestRoom(s, s.count + 1)
       case Insert(_, n) => NewestRoom(s, n)
       case Decide(_, n) => NewestRoom(s, n)
       case p => !Holds(p)
  }

  /** n steps of t alone. */
  function Steps(s: State, t: Thread, n: nat): State
    decreases n
  {
    if n == 0 || t >= |s.pcs| || !Sound(s, t) then s else Steps(Advance(s, t), t, n - 1)
  }

  /** Whether number n is low enough for table `main`. */
  predicate Room(s: State, main: nat, n: nat) { main < |s.tables| && n < Limit(|s.tables[main]|) }

  /** How far a call is from its end: which part of it, ... */
  function Phase(s: State, p: Pc): nat {
    match p
    case Idle => 15
    case Find(_, _, _) => 14
    case Count(_) => 13
    case Unlock(main, n) => if Room(s, main, n) then 7 else 12
    case Decide(main, n) => if Room(s, main, n) then 6 else 11
    case Insert(main, n) => if Room(s, main, n) || main + 1 == |s.tables| then 10 else 12
    case Resize(_) => 9
    case Grow(_, _) => 8
    case Probe(_, _, _) => 4
    case ProbeCas(_, _, _) => 4
    case Move(_, _, _) => 4
    case MoveCas(_, _, _) => 4
    case Done(_) => 0
    case _ => 1
  }

  /** ... in which table, ... */
  function TableLeft(p: Pc): nat { if p.Find? then p.table else 0 }

  /** ... and how many probes from the end of it. */
  function ProbesLeft(s: State, p: Pc): int {
    match p
    case Find(_, table, k) => if table < |s.tables| then |s.tables[table]| - k else 0
    case Probe(main, k, _) => if main < |s.tables| then 2 * (|s.tables[main]| - k) + 1 else 0
    case ProbeCas(main, k, _) => if main < |s.tables| then 2 * (|s.tables[main]| - k) else 0
    case Move(main, k, _) => if main < |s.tables| then 2 * (|s.tables[main]| - k) + 1 else 0
    case MoveCas(main, k, _) => if main < |s.tables| then 2 * (|s.tables[main]| - k) else 0
    case _ => 0
  }

  predicate Nearer(s: State, p: Pc, s': State, q: Pc) {
    || Phase(s', q) < Phase(s, p)
    || (Phase(s', q) == Phase(s, p) && TableLeft(q) < TableLeft(p))
    || (Phase(s', q) == Phase(s, p) && TableLeft(q) == TableLeft(p) && 0 <= ProbesLeft(s', q) < ProbesLeft(s, p))
  }

  lemma AlwaysSound(s: State, t: Thread)
    requires Inv(s) && t < |s.pcs|
    ensures Sound(s, t)
  {
    assert ThreadOk(s, t);
    forall i | 0 <= i < |s.tables| ensures |s.tables[i]| > 0 { assert TableOk(s, i); }
  }

  /** A probe is inside its table, and what is found has its producer. */
  lemma ProbeInside(s: State, t: Thread)
    requires Inv(s) && t < |s.pcs| && Sound(s, t)
    ensures match s.pcs[t]
            case Find(_, table, k) =>
              k < |s.tables[table]|
              && var slot := s.tables[table][Index(s.tables[table], s.hash[t], k)];
                 slot.key == Some(t) ==> slot.producer.Some?
            case Move(main, k, _) => k < |s.tables[main]|
            case MoveCas(main, k, _) => k < |s.tables[main]|
            case Probe(main, k, _) => k < |s.tables[main]|
            case ProbeCas(main, k, _) => k < |s.tables[main]|
            case _ => true
  {
    assert ThreadOk(s, t);
    hide Reached, Has, Missed;
    match s.pcs[t]
    case Find(_, table, k) =>
      assert TableOk(s, table) && ValueOk(s, table, Index(s.tables[table], s.hash[t], k % |s.tables[table]|));
      ProbesEnd(s, table, s.hash[t], k);
      assert ValueOk(s, table, Index(s.tables[table], s.hash[t], k));
    case Move(main, k, _) => assert TableOk(s, main); ProbesEnd(s, main, s.hash[t], k);
    case Probe(main, k, _) => assert TableOk(s, main); ProbesEnd(s, main, s.hash[t], k);
    case _ =>
  }

  predicate Searches(p: Pc) { p.Find? || p.Move? || p.MoveCas? || p.Probe? || p.ProbeCas? }

  /** A step alone brings a call nearer to its end. */
  ghost predicate Nears(s: State, t: Thread)
    requires t < |s.pcs| && Sound(s, t)
  {
    var s' := Advance(s, t);
    t < |s'.pcs| && CanGo(s', t) && s'.pcs[t] != Idle && Nearer(s, s.pcs[t], s', s'.pcs[t])
  }

  lemma FindNears(s: State, t: Thread, main: nat, table: nat, k: nat)
    requires t < |s.pcs| && Sound(s, t) && CanGo(s, t) && s.pcs[t] == Find(main, table, k) && k < |s.tables[table]|
    requires var slot := s.tables[table][Index(s.tables[table], s.hash[t], k)];
             slot.key == Some(t) ==> slot.producer.Some?
    requires t in s.first && t < |Advance(s, t).pcs| ==> !Advance(s, t).pcs[t].Count?
    ensures Nears(s, t)
  {
    hide Index;
  }

  lemma MoveNears(s: State, t: Thread)
    requires t < |s.pcs| && Sound(s, t) && CanGo(s, t) && (s.pcs[t].Move? || s.pcs[t].Probe?)
    requires s.pcs[t].k < |s.tables[s.pcs[t].main]|
    ensures Nears(s, t)
  {
    hide Index;
  }

  lemma CasNears(s: State, t: Thread)
    requires t < |s.pcs| && Sound(s, t) && CanGo(s, t) && (s.pcs[t].MoveCas? || s.pcs[t].ProbeCas?)
    requires s.pcs[t].k < |s.tables[s.pcs[t].main]|
    ensures Nears(s, t)
  {
    hide Index;
    CasTables(s, s.pcs[t].main, Index(s.tables[s.pcs[t].main], s.hash[t], s.pcs[t].k), Some(t));
    hide SetSlot;
  }

  /** A thread that has an entry finds it. */
  lemma KnownIsFound(s: State, t: Thread)
    requires Inv(s) && t < |s.pcs| && Sound(s, t) && t in s.first
    requires Searches(s.pcs[t])
    ensures t < |Advance(s, t).pcs| && !Advance(s, t).pcs[t].Count?
  {
    AdvanceKeeps(s, t);
    FirstStays(s, t);
    hide Inv, Advance, Sound;
    if Advance(s, t).pcs[t].Count? { CountMeansNew(Advance(s, t), t); }
  }

  lemma FirstStays(s: State, t: Thread)
    requires t < |s.pcs| && Sound(s, t) && t in s.first && Searches(s.pcs[t])
    ensures t < |Advance(s, t).pcs| && t in Advance(s, t).first
  {
    hide Index;
  }

  lemma CountMeansNew(s: State, t: Thread)
    requires Inv(s) && t < |s.pcs| && s.pcs[t].Count?
    ensures t !in s.first
  {
    assert ThreadOk(s, t);
  }

  lemma SearchNears(s: State, t: Thread)
    requires Inv(s) && t < |s.pcs| && Sound(s, t) && CanGo(s, t) && Searches(s.pcs[t])
    ensures Nears(s, t)
  {
    ProbeInside(s, t);
    if t in s.first { KnownIsFound(s, t); }
    hide Inv, Index, Nears, CanGo;
    match s.pcs[t]
    case Find(main, table, k) => FindNears(s, t, main, table, k);
    case Move(_, _, _) => MoveNears(s, t);
    case Probe(_, _, _) => MoveNears(s, t);
    case _ => CasNears(s, t);
  }

  lemma CasTables(s: State, i: nat, j: nat, key: Option<Thread>)
    requires i < |s.tables| && j < |s.tables[i]|
    ensures var s' := SetSlot(s, i, j, s.tables[i][j].(key := key));
            |s'.tables| == |s.tables| && forall x: nat :: x < |s.tables| ==> |s'.tables[x]| == |s.tables[x]|
  {
  }

  /** A larger table first, if that is needed and nobody is making one. */
  lemma ResizeNears(s: State, t: Thread)
    requires t < |s.pcs| && Sound(s, t) && CanGo(s, t) && (s.pcs[t].Insert? || s.pcs[t].Resize?)
    ensures Nears(s, t)
  {
    hide NewCapacity, Index;
  }

  lemma DecideNears(s: State, t: Thread)
    requires t < |s.pcs| && Sound(s, t) && CanGo(s, t) && (s.pcs[t].Unlock? || s.pcs[t].Decide?)
    ensures Nears(s, t)
  {
    hide NewCapacity, Index;
  }

  lemma GrowNears(s: State, t: Thread)
    requires t < |s.pcs| && Sound(s, t) && CanGo(s, t) && s.pcs[t].Grow?
    ensures Nears(s, t)
  {
  }

  lemma RestNears(s: State, t: Thread)
    requires t < |s.pcs| && Sound(s, t) && CanGo(s, t) && !Searches(s.pcs[t]) && !s.pcs[t].Done?
    ensures Nears(s, t)
  {
    if s.pcs[t].Grow? {
      GrowNears(s, t);
    } else if s.pcs[t].Insert? || s.pcs[t].Resize? {
      ResizeNears(s, t);
    } else if s.pcs[t].Unlock? || s.pcs[t].Decide? {
      DecideNears(s, t);
    } else {
      hide NewCapacity, Index;
    }
  }

  /** From every reachable state a call that goes on alone and need not wait for a resize returns its thread's
      producer. */
  lemma {:induction false} AloneReturns(s: State, t: Thread) returns (n: nat)
    requires Inv(s) && t < |s.pcs| && CanGo(s, t)
    ensures var e := Steps(s, t, n); t < |e.pcs| && e.pcs[t].Done? && Owns(e, t, e.pcs[t].producer)
    decreases Phase(s, s.pcs[t]), TableLeft(s.pcs[t]), ProbesLeft(s, s.pcs[t])
  {
    AlwaysSound(s, t);
    hide Advance, Phase, TableLeft, ProbesLeft, TablesOk, ValuesOk, Sound;
    if s.pcs[t].Done? {
      assert ThreadOk(s, t);
      return 0;
    }
    if Searches(s.pcs[t]) { SearchNears(s, t); } else { RestNears(s, t); }
    AdvanceKeeps(s, t);
    n := AloneReturns(Advance(s, t), t);
    n := n + 1;
  }
}
